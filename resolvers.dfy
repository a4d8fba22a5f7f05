/**
 * The resolvers of resolvers.ts as an object holding the three collections.
 * Each mutation is a method that runs its awaited store calls in order (id
 * decoding, `insertOne`, `findOneAndDelete`, `updateOne`/`updateMany`, the
 * re-read) on the fields, and is proved to agree with the function of the
 * same name in module Protocol. The reads are the functions of Protocol
 * applied to State().
 */
module Resolvers {
  import opened Wrappers
  import opened Types
  import Mongo
  import Protocol

  class Store {
    /** The driver's id codec. */
    const codec: IdCodec
    var students: map<ObjectId, StudentModel>
    var teachers: map<ObjectId, TeacherModel>
    var courses: map<ObjectId, CourseModel>

    function State(): Protocol.Db
      reads this
    {
      Protocol.Db(students, teachers, courses)
    }

    /** A store with three empty collections. */
    constructor (codec: IdCodec)
      ensures this.codec == codec && State() == Protocol.EmptyDb
      ensures Protocol.Invariant(State())
    {
      this.codec := codec;
      students, teachers, courses := map[], map[], map[];
    }

    method CreateStudent(name: string, email: string) returns (r: StudentModel)
      modifies this
      ensures r.oid.Some? && r.oid.value !in old(students)
      ensures Protocol.Outcome(Protocol.Ok(r), State()) == Protocol.CreateStudent(old(State()), r.oid.value, name, email)
    {
      Mongo.FreshIdExists(students);
      var insertedId :| insertedId !in students;
      students := students[insertedId := StudentModel(Some(insertedId), name, email, [])];
      r := StudentModel(Some(insertedId), name, email, []);
    }

    method CreateTeacher(name: string, email: string) returns (r: TeacherModel)
      modifies this
      ensures r.oid.Some? && r.oid.value !in old(teachers)
      ensures Protocol.Outcome(Protocol.Ok(r), State()) == Protocol.CreateTeacher(old(State()), r.oid.value, name, email)
    {
      Mongo.FreshIdExists(teachers);
      var insertedId :| insertedId !in teachers;
      teachers := teachers[insertedId := TeacherModel(Some(insertedId), name, email, [])];
      r := TeacherModel(Some(insertedId), name, email, []);
    }

    method CreateCourse(title: string, description: string, teacherArg: string) returns (r: Protocol.Reply<CourseModel>)
      modifies this
      ensures r.Ok? ==> r.value.oid.Some? && r.value.oid.value !in old(courses)
      ensures r.Ok? ==>
                Protocol.Outcome(r, State())
                == Protocol.CreateCourse(old(State()), codec, r.value.oid.value, title, description, teacherArg)
      ensures r.Fail? ==>
                forall n :: n !in old(courses) ==>
                  Protocol.Outcome(r, State())
                  == Protocol.CreateCourse(old(State()), codec, n, title, description, teacherArg)
    {
      // resolvers.ts:52: `new ObjectId(args.teacher_id)` throws on a malformed id
      var teacherKey := codec.decode(teacherArg);
      if teacherKey.None? {
        return Protocol.Fail(Protocol.InvalidObjectId);
      }
      // resolvers.ts:53: `find` gave a cursor, which is truthy, so no existence check happens
      Mongo.FreshIdExists(courses);
      var insertedId :| insertedId !in courses;
      courses := courses[insertedId := CourseModel(Some(insertedId), title, description, teacherKey.value, [], NoUndeclared)];
      r := Protocol.Ok(CourseModel(Some(insertedId), title, description, teacherKey.value, [], NoUndeclared));
    }

    method DeleteStudent(arg: string) returns (r: Protocol.Reply<bool>)
      modifies this
      ensures Protocol.Outcome(r, State()) == Protocol.DeleteStudent(old(State()), codec, arg)
    {
      var key := codec.decode(arg);
      if key.None? {
        return Protocol.Fail(Protocol.InvalidObjectId);
      }
      var deleted := Mongo.FindOne(students, key.value);
      students := students - {key.value};
      if deleted.None? {
        return Protocol.Ok(false);
      }
      courses := Protocol.PullFromStudentIds(courses, key.value);
      r := Protocol.Ok(true);
    }

    method DeleteTeacher(arg: string) returns (r: Protocol.Reply<bool>)
      modifies this
      ensures Protocol.Outcome(r, State()) == Protocol.DeleteTeacher(old(State()), codec, arg)
    {
      var key := codec.decode(arg);
      if key.None? {
        return Protocol.Fail(Protocol.InvalidObjectId);
      }
      var deleted := Mongo.FindOne(teachers, key.value);
      teachers := teachers - {key.value};
      if deleted.None? {
        return Protocol.Ok(false);
      }
      courses := Protocol.SetTeacheridNull(courses, key.value);
      r := Protocol.Ok(true);
    }

    method DeleteCourse(arg: string) returns (r: Protocol.Reply<bool>)
      modifies this
      ensures Protocol.Outcome(r, State()) == Protocol.DeleteCourse(old(State()), codec, arg)
    {
      var key := codec.decode(arg);
      if key.None? {
        return Protocol.Fail(Protocol.InvalidObjectId);
      }
      var deleted := Mongo.FindOne(courses, key.value);
      courses := courses - {key.value};
      if deleted.None? {
        return Protocol.Ok(false);
      }
      teachers := Protocol.PullFromCoursesTaught(teachers, key.value);
      students := Protocol.PullFromEnrolledCourses(students, key.value);
      r := Protocol.Ok(true);
    }

    method UpdateStudent(arg: string, name: Option<string>, email: Option<string>)
      returns (r: Protocol.Reply<Option<StudentModel>>)
      modifies this
      ensures Protocol.Outcome(r, State()) == Protocol.UpdateStudent(old(State()), codec, arg, name, email)
    {
      var key := codec.decode(arg);
      if key.None? {
        return Protocol.Fail(Protocol.InvalidObjectId);
      }
      // updateOne matches at most the one record with this id
      if key.value in students {
        students := students[key.value := Protocol.UpdatedStudent(students[key.value], name, email)];
      }
      var found := Mongo.FindOne(students, key.value);
      r := Protocol.Ok(found);
    }

    method UpdateTeacher(arg: string, name: Option<string>, email: Option<string>)
      returns (r: Protocol.Reply<Option<TeacherModel>>)
      modifies this
      ensures Protocol.Outcome(r, State()) == Protocol.UpdateTeacher(old(State()), codec, arg, name, email)
    {
      var key := codec.decode(arg);
      if key.None? {
        return Protocol.Fail(Protocol.InvalidObjectId);
      }
      if key.value in teachers {
        teachers := teachers[key.value := Protocol.UpdatedTeacher(teachers[key.value], name, email)];
      }
      var found := Mongo.FindOne(teachers, key.value);
      r := Protocol.Ok(found);
    }

    method UpdateCourse(arg: string, title: Option<string>, description: Option<string>, teacherArg: Option<string>)
      returns (r: Protocol.Reply<Option<CourseModel>>)
      modifies this
      ensures Protocol.Outcome(r, State())
              == Protocol.UpdateCourse(old(State()), codec, arg, title, description, teacherArg)
    {
      var key := codec.decode(arg);
      if key.None? {
        return Protocol.Fail(Protocol.InvalidObjectId);
      }
      // the `$set` document is built before the call: a truthy teacher id is decoded there
      var teacherKey: Option<ObjectId> := None;
      if Protocol.Truthy(teacherArg) {
        teacherKey := codec.decode(teacherArg.value);
        if teacherKey.None? {
          return Protocol.Fail(Protocol.InvalidObjectId);
        }
      }
      if key.value in courses {
        courses := courses[key.value := Protocol.UpdatedCourse(courses[key.value], title, description, teacherKey)];
      }
      var found := Mongo.FindOne(courses, key.value);
      r := Protocol.Ok(found);
    }

    method EnrollStudentInCourse(studentArg: string, courseArg: string)
      returns (r: Protocol.Reply<Option<CourseModel>>)
      modifies this
      ensures Protocol.Outcome(r, State())
              == Protocol.EnrollStudentInCourse(old(State()), codec, studentArg, courseArg)
    {
      var studentKey := codec.decode(studentArg);
      if studentKey.None? {
        return Protocol.Fail(Protocol.InvalidObjectId);
      }
      var myStudent := Mongo.FindOne(students, studentKey.value);
      var courseKey := codec.decode(courseArg);
      if courseKey.None? {
        return Protocol.Fail(Protocol.InvalidObjectId);
      }
      var myCourse := Mongo.FindOne(courses, courseKey.value);
      if myStudent.None? || myCourse.None? {
        return Protocol.Ok(None);
      }
      // resolvers.ts:117 compares ObjectId objects by reference: never equal, so no early return
      var s, k := studentKey.value, courseKey.value;
      students := students[s := Protocol.Enrolled(students[s], k)];
      courses := courses[k := Protocol.WithStudentId(courses[k], s)];
      var course := Mongo.FindOne(courses, k);
      r := Protocol.Ok(course);
    }

    method RemoveStudentFromCourse(studentArg: string, courseArg: string)
      returns (r: Protocol.Reply<Option<CourseModel>>)
      modifies this
      ensures Protocol.Outcome(r, State())
              == Protocol.RemoveStudentFromCourse(old(State()), codec, studentArg, courseArg)
    {
      var studentKey := codec.decode(studentArg);
      if studentKey.None? {
        return Protocol.Fail(Protocol.InvalidObjectId);
      }
      var myStudent := Mongo.FindOne(students, studentKey.value);
      var courseKey := codec.decode(courseArg);
      if courseKey.None? {
        return Protocol.Fail(Protocol.InvalidObjectId);
      }
      var myCourse := Mongo.FindOne(courses, courseKey.value);
      if myStudent.None? || myCourse.None? {
        return Protocol.Ok(None);
      }
      // resolvers.ts:130: `$pull` from `enrolledStudents`, a field no course has: no change
      // resolvers.ts:131: `$pull` of the id string from an array of ObjectIds: no element matches, no change
      var course := Mongo.FindOne(courses, courseKey.value);
      r := Protocol.Ok(course);
    }
  }
}
