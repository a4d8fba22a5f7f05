/**
 * The resolvers of resolvers.ts as functions of the store's state: each
 * read is a function of the three collections, and each mutation maps the
 * collections before the call to its reply and the collections after it.
 * The imperative rendering, one store call at a time, is the Store class of
 * module Resolvers, which is proved to agree with these functions.
 */
module Protocol {
  import opened Wrappers
  import opened Types
  import Mongo

  /** Request-level errors: a malformed id string (`new ObjectId` throws), or `_id!` on a record without an id. */
  datatype Error = InvalidObjectId | UndefinedId

  datatype Reply<+T> = Ok(value: T) | Fail(error: Error)

  /** The three collections: Student, Teacher and Course. */
  datatype Db = Db(
    students: map<ObjectId, StudentModel>,
    teachers: map<ObjectId, TeacherModel>,
    courses: map<ObjectId, CourseModel>)

  /** What a mutation replies, and the collections it leaves behind. */
  datatype Outcome<+T> = Outcome(reply: Reply<T>, db: Db)

  const EmptyDb := Db(map[], map[], map[])

  /** Every stored record carries the key it is stored under as its `_id`. */
  ghost predicate Valid(db: Db)
  {
    && (forall k :: k in db.students ==> db.students[k].oid == Some(k))
    && (forall k :: k in db.teachers ==> db.teachers[k].oid == Some(k))
    && (forall k :: k in db.courses ==> db.courses[k].oid == Some(k))
  }

  /**
   * What the resolvers keep true from an empty store on: records carry their
   * keys, no resolver ever fills a course's `students` or a teacher's
   * `coursesTaught`, and a student's `enrolledCourses` only names courses
   * that exist (enroll checks the course, deleteCourse pulls it everywhere).
   */
  ghost predicate Invariant(db: Db)
  {
    && Valid(db)
    && (forall k :: k in db.courses ==> db.courses[k].students == [])
    && (forall k :: k in db.teachers ==> db.teachers[k].coursesTaught == [])
    && (forall s, k :: s in db.students && k in db.students[s].enrolledCourses ==> k in db.courses)
  }

  /**
   * The bidirectional student/course consistency the design aims at: a
   * student lists a course iff the course lists the student.
   */
  ghost predicate Consistent(db: Db)
  {
    forall s, k :: s in db.students && k in db.courses ==>
      (k in db.students[s].enrolledCourses <==> s in db.courses[k].students)
  }

  /** The declared fields of a course, with the undeclared ones cleared. */
  function Declared(course: CourseModel): CourseModel
  {
    course.(undeclared := NoUndeclared)
  }

  /** JavaScript truthiness of an optional string argument: omitted, null and "" are all false. */
  predicate Truthy(arg: Option<string>)
  {
    arg.Some? && arg.value != ""
  }

  // ---------------------------------------------------------------- reads

  /** `student` / `teacher` / `course`: decode the id, then `findOne`. */
  function FindById<R>(t: map<ObjectId, R>, c: IdCodec, arg: string): (r: Reply<Option<R>>)
    ensures r.Fail? <==> c.decode(arg).None?
    ensures r.Fail? ==> r.error == InvalidObjectId
    ensures r.Ok? ==> (r.value.Some? <==> c.decode(arg).value in t)
    ensures r.Ok? && r.value.Some? ==> r.value.value == t[c.decode(arg).value]
  {
    match c.decode(arg)
    case None => Fail(InvalidObjectId)
    case Some(k) => Ok(Mongo.FindOne(t, k))
  }

  /** `students`: every stored student once. */
  ghost function Students(db: Db): (r: seq<StudentModel>)
    ensures |r| == |db.students|
    ensures forall x :: x in r <==> x in db.students.Values
    ensures Valid(db) ==> Mongo.NoDuplicates(r)
  {
    assert Valid(db) ==> Mongo.Distinct(db.students);
    Mongo.Find(db.students)
  }

  /** `teachers`: every stored teacher once. */
  ghost function Teachers(db: Db): (r: seq<TeacherModel>)
    ensures |r| == |db.teachers|
    ensures forall x :: x in r <==> x in db.teachers.Values
    ensures Valid(db) ==> Mongo.NoDuplicates(r)
  {
    assert Valid(db) ==> Mongo.Distinct(db.teachers);
    Mongo.Find(db.teachers)
  }

  /** `courses`: every stored course once. */
  ghost function Courses(db: Db): (r: seq<CourseModel>)
    ensures |r| == |db.courses|
    ensures forall x :: x in r <==> x in db.courses.Values
    ensures Valid(db) ==> Mongo.NoDuplicates(r)
  {
    assert Valid(db) ==> Mongo.Distinct(db.courses);
    Mongo.Find(db.courses)
  }

  /** `Student.enrolledCourses`: the stored courses named by the parent; dangling ids are dropped. */
  ghost function EnrolledCourses(db: Db, parent: StudentModel): (r: seq<CourseModel>)
    ensures forall k :: k in parent.enrolledCourses && k in db.courses ==> db.courses[k] in r
    ensures forall x :: x in r ==>
              exists k :: k in parent.enrolledCourses && k in db.courses && db.courses[k] == x
    ensures |r| == |Mongo.Present(parent.enrolledCourses, db.courses.Keys)| <= |parent.enrolledCourses|
    ensures Valid(db) ==> Mongo.NoDuplicates(r)
  {
    assert Valid(db) ==> Mongo.Distinct(db.courses);
    Mongo.FindIn(db.courses, parent.enrolledCourses)
  }

  /** `Teacher.coursesTaught`: the stored courses named by the parent; dangling ids are dropped. */
  ghost function CoursesTaught(db: Db, parent: TeacherModel): (r: seq<CourseModel>)
    ensures forall k :: k in parent.coursesTaught && k in db.courses ==> db.courses[k] in r
    ensures forall x :: x in r ==>
              exists k :: k in parent.coursesTaught && k in db.courses && db.courses[k] == x
    ensures |r| == |Mongo.Present(parent.coursesTaught, db.courses.Keys)| <= |parent.coursesTaught|
    ensures Valid(db) ==> Mongo.NoDuplicates(r)
  {
    assert Valid(db) ==> Mongo.Distinct(db.courses);
    Mongo.FindIn(db.courses, parent.coursesTaught)
  }

  /** `Course.students`: the stored students named by the parent; dangling ids are dropped. */
  ghost function CourseStudents(db: Db, parent: CourseModel): (r: seq<StudentModel>)
    ensures forall k :: k in parent.students && k in db.students ==> db.students[k] in r
    ensures forall x :: x in r ==>
              exists k :: k in parent.students && k in db.students && db.students[k] == x
    ensures |r| == |Mongo.Present(parent.students, db.students.Keys)| <= |parent.students|
    ensures Valid(db) ==> Mongo.NoDuplicates(r)
  {
    assert Valid(db) ==> Mongo.Distinct(db.students);
    Mongo.FindIn(db.students, parent.students)
  }

  /**
   * `Course.teacher_id`: the stored teacher the course names, or null when
   * that teacher no longer exists.
   */
  function CourseTeacher(db: Db, parent: CourseModel): (r: Option<TeacherModel>)
    ensures r.Some? <==> parent.teacherId in db.teachers
    ensures r.Some? ==> r.value == db.teachers[parent.teacherId]
  {
    Mongo.FindOne(db.teachers, parent.teacherId)
  }

  /** `Student.id` / `Teacher.id` / `Course.id`: `parent._id!.toString()`, which throws without an `_id`. */
  function IdField(c: IdCodec, oid: Option<ObjectId>): (r: Reply<string>)
    ensures r.Ok? <==> oid.Some?
    ensures r.Ok? ==> r.value == c.encode(oid.value)
    ensures r.Fail? ==> r.error == UndefinedId
  {
    match oid
    case None => Fail(UndefinedId)
    case Some(k) => Ok(c.encode(k))
  }

  // ----------------------------------------------------- updateMany steps

  /** `updateMany({students: k}, {$pull: {studentIds: k}})` on the courses. */
  function PullFromStudentIds(t: map<ObjectId, CourseModel>, k: ObjectId): (r: map<ObjectId, CourseModel>)
    ensures r.Keys == t.Keys
    ensures forall j :: j in t ==> Declared(r[j]) == Declared(t[j])
    ensures forall j :: j in t && k !in t[j].students ==> r[j] == t[j]
    ensures forall j :: j in t && k in t[j].students ==>
              r[j] == t[j].(undeclared := t[j].undeclared.(
                              studentIds := Mongo.PullUndeclared(t[j].undeclared.studentIds, k)))
  {
    map j | j in t ::
      if k in t[j].students
      then t[j].(undeclared := t[j].undeclared.(studentIds := Mongo.PullUndeclared(t[j].undeclared.studentIds, k)))
      else t[j]
  }

  /** `updateMany({teacher_id: k}, {$set: {teacherid: null}})` on the courses. */
  function SetTeacheridNull(t: map<ObjectId, CourseModel>, k: ObjectId): (r: map<ObjectId, CourseModel>)
    ensures r.Keys == t.Keys
    ensures forall j :: j in t ==> Declared(r[j]) == Declared(t[j])
    ensures forall j :: j in t ==> r[j].undeclared.studentIds == t[j].undeclared.studentIds
    ensures forall j :: j in t ==>
              r[j].undeclared.teacheridNull == (t[j].undeclared.teacheridNull || t[j].teacherId == k)
  {
    map j | j in t ::
      if t[j].teacherId == k then t[j].(undeclared := t[j].undeclared.(teacheridNull := true)) else t[j]
  }

  /** `updateMany({coursesTaught: k}, {$pull: {coursesTaught: k}})` on the teachers. */
  function PullFromCoursesTaught(t: map<ObjectId, TeacherModel>, k: ObjectId): (r: map<ObjectId, TeacherModel>)
    ensures r.Keys == t.Keys
    ensures forall j :: j in t ==> r[j] == t[j].(coursesTaught := Mongo.Pull(t[j].coursesTaught, k))
    ensures forall j :: j in t ==>
              k !in r[j].coursesTaught && multiset(r[j].coursesTaught) == multiset(t[j].coursesTaught)[k := 0]
  {
    assert forall j :: j in t ==>
             && k !in Mongo.Pull(t[j].coursesTaught, k)
             && multiset(Mongo.Pull(t[j].coursesTaught, k)) == multiset(t[j].coursesTaught)[k := 0]
             && (k !in t[j].coursesTaught ==> Mongo.Pull(t[j].coursesTaught, k) == t[j].coursesTaught) by {
      forall j | j in t {
        Mongo.PullSpec(t[j].coursesTaught, k);
      }
    }
    map j | j in t ::
      if k in t[j].coursesTaught then t[j].(coursesTaught := Mongo.Pull(t[j].coursesTaught, k)) else t[j]
  }

  /** `updateMany({enrolledCourses: k}, {$pull: {enrolledCourses: k}})` on the students. */
  function PullFromEnrolledCourses(t: map<ObjectId, StudentModel>, k: ObjectId): (r: map<ObjectId, StudentModel>)
    ensures r.Keys == t.Keys
    ensures forall j :: j in t ==> r[j] == t[j].(enrolledCourses := Mongo.Pull(t[j].enrolledCourses, k))
    ensures forall j :: j in t ==>
              k !in r[j].enrolledCourses && multiset(r[j].enrolledCourses) == multiset(t[j].enrolledCourses)[k := 0]
  {
    assert forall j :: j in t ==>
             && k !in Mongo.Pull(t[j].enrolledCourses, k)
             && multiset(Mongo.Pull(t[j].enrolledCourses, k)) == multiset(t[j].enrolledCourses)[k := 0]
             && (k !in t[j].enrolledCourses ==> Mongo.Pull(t[j].enrolledCourses, k) == t[j].enrolledCourses) by {
      forall j | j in t {
        Mongo.PullSpec(t[j].enrolledCourses, k);
      }
    }
    map j | j in t ::
      if k in t[j].enrolledCourses then t[j].(enrolledCourses := Mongo.Pull(t[j].enrolledCourses, k)) else t[j]
  }

  // ------------------------------------------------------------ mutations

  /** `createStudent`: `insertOne` under the id the driver assigns (`newId`). */
  function CreateStudent(db: Db, newId: ObjectId, name: string, email: string): (o: Outcome<StudentModel>)
    requires newId !in db.students
    ensures o.reply.Ok? && o.reply.value.oid == Some(newId)
    ensures o.reply.value.name == name && o.reply.value.email == email && o.reply.value.enrolledCourses == []
    ensures o.db.students.Keys == db.students.Keys + {newId} && o.db.students[newId] == o.reply.value
    ensures forall k :: k in db.students ==> o.db.students[k] == db.students[k]
    ensures o.db.teachers == db.teachers && o.db.courses == db.courses
    ensures Invariant(db) ==> Invariant(o.db)
  {
    var record := StudentModel(Some(newId), name, email, []);
    Outcome(Ok(record), db.(students := db.students[newId := record]))
  }

  /** `createTeacher`: `insertOne` under the id the driver assigns (`newId`). */
  function CreateTeacher(db: Db, newId: ObjectId, name: string, email: string): (o: Outcome<TeacherModel>)
    requires newId !in db.teachers
    ensures o.reply.Ok? && o.reply.value.oid == Some(newId)
    ensures o.reply.value.name == name && o.reply.value.email == email && o.reply.value.coursesTaught == []
    ensures o.db.teachers.Keys == db.teachers.Keys + {newId} && o.db.teachers[newId] == o.reply.value
    ensures forall k :: k in db.teachers ==> o.db.teachers[k] == db.teachers[k]
    ensures o.db.students == db.students && o.db.courses == db.courses
    ensures Invariant(db) ==> Invariant(o.db)
  {
    var record := TeacherModel(Some(newId), name, email, []);
    Outcome(Ok(record), db.(teachers := db.teachers[newId := record]))
  }

  /**
   * `createCourse`: the teacher lookup at resolvers.ts:52 yields a cursor, which is
   * always truthy, so the only failure is a malformed teacher id.
   */
  function CreateCourse(db: Db, c: IdCodec, newId: ObjectId, title: string, description: string,
                        teacherArg: string): (o: Outcome<CourseModel>)
    requires newId !in db.courses
    ensures o.reply.Fail? <==> c.decode(teacherArg).None?
    ensures o.reply.Fail? ==> o.reply.error == InvalidObjectId && o.db == db
    ensures o.reply.Ok? ==>
              var course := o.reply.value;
              && course == CourseModel(Some(newId), title, description, c.decode(teacherArg).value, [], NoUndeclared)
              && o.db.courses.Keys == db.courses.Keys + {newId} && o.db.courses[newId] == course
              && (forall k :: k in db.courses ==> o.db.courses[k] == db.courses[k])
              && o.db.students == db.students && o.db.teachers == db.teachers
    ensures Invariant(db) ==> Invariant(o.db)
  {
    match c.decode(teacherArg)
    case None => Outcome(Fail(InvalidObjectId), db)
    case Some(t) =>
      var record := CourseModel(Some(newId), title, description, t, [], NoUndeclared);
      Outcome(Ok(record), db.(courses := db.courses[newId := record]))
  }

  /**
   * `deleteStudent`: `findOneAndDelete`, then a `$pull` from the undeclared
   * `studentIds` of the courses whose `students` name the student; every
   * declared course field is left as it was.
   */
  function DeleteStudent(db: Db, c: IdCodec, arg: string): (o: Outcome<bool>)
    ensures o.reply.Fail? <==> c.decode(arg).None?
    ensures o.reply.Fail? ==> o.reply.error == InvalidObjectId && o.db == db
    ensures o.reply.Ok? ==> (o.reply.value <==> c.decode(arg).value in db.students)
    ensures o.reply == Ok(false) ==> o.db == db
    ensures o.reply == Ok(true) ==>
              && o.db.students == db.students - {c.decode(arg).value}
              && o.db.teachers == db.teachers
              && o.db.courses.Keys == db.courses.Keys
              && (forall j :: j in db.courses ==> Declared(o.db.courses[j]) == Declared(db.courses[j]))
    ensures Invariant(db) ==> Invariant(o.db)
  {
    match c.decode(arg)
    case None => Outcome(Fail(InvalidObjectId), db)
    case Some(k) =>
      if k !in db.students then Outcome(Ok(false), db)
      else Outcome(Ok(true), db.(students := db.students - {k}, courses := PullFromStudentIds(db.courses, k)))
  }

  /**
   * `deleteTeacher`: `findOneAndDelete`, then `$set` of the undeclared
   * `teacherid` to null on the teacher's courses; every course keeps its
   * `teacher_id`.
   */
  function DeleteTeacher(db: Db, c: IdCodec, arg: string): (o: Outcome<bool>)
    ensures o.reply.Fail? <==> c.decode(arg).None?
    ensures o.reply.Fail? ==> o.reply.error == InvalidObjectId && o.db == db
    ensures o.reply.Ok? ==> (o.reply.value <==> c.decode(arg).value in db.teachers)
    ensures o.reply == Ok(false) ==> o.db == db
    ensures o.reply == Ok(true) ==>
              && o.db.teachers == db.teachers - {c.decode(arg).value}
              && o.db.students == db.students
              && o.db.courses.Keys == db.courses.Keys
              && (forall j :: j in db.courses ==> Declared(o.db.courses[j]) == Declared(db.courses[j]))
    ensures Invariant(db) ==> Invariant(o.db)
  {
    match c.decode(arg)
    case None => Outcome(Fail(InvalidObjectId), db)
    case Some(k) =>
      if k !in db.teachers then Outcome(Ok(false), db)
      else Outcome(Ok(true), db.(teachers := db.teachers - {k}, courses := SetTeacheridNull(db.courses, k)))
  }

  /**
   * `deleteCourse`: `findOneAndDelete`, then the course id is pulled from
   * every teacher's `coursesTaught` and every student's `enrolledCourses`;
   * no other field changes.
   */
  function DeleteCourse(db: Db, c: IdCodec, arg: string): (o: Outcome<bool>)
    ensures o.reply.Fail? <==> c.decode(arg).None?
    ensures o.reply.Fail? ==> o.reply.error == InvalidObjectId && o.db == db
    ensures o.reply.Ok? ==> (o.reply.value <==> c.decode(arg).value in db.courses)
    ensures o.reply == Ok(false) ==> o.db == db
    ensures o.reply == Ok(true) ==>
              var k := c.decode(arg).value;
              && o.db.courses == db.courses - {k}
              && o.db.teachers.Keys == db.teachers.Keys
              && o.db.students.Keys == db.students.Keys
              && (forall j :: j in db.teachers ==>
                    && k !in o.db.teachers[j].coursesTaught
                    && multiset(o.db.teachers[j].coursesTaught) == multiset(db.teachers[j].coursesTaught)[k := 0]
                    && o.db.teachers[j].coursesTaught == Mongo.Pull(db.teachers[j].coursesTaught, k)
                    && o.db.teachers[j] == db.teachers[j].(coursesTaught := o.db.teachers[j].coursesTaught))
              && (forall j :: j in db.students ==>
                    && k !in o.db.students[j].enrolledCourses
                    && multiset(o.db.students[j].enrolledCourses) == multiset(db.students[j].enrolledCourses)[k := 0]
                    && o.db.students[j].enrolledCourses == Mongo.Pull(db.students[j].enrolledCourses, k)
                    && o.db.students[j] == db.students[j].(enrolledCourses := o.db.students[j].enrolledCourses))
    ensures Invariant(db) ==> Invariant(o.db)
  {
    match c.decode(arg)
    case None => Outcome(Fail(InvalidObjectId), db)
    case Some(k) =>
      if k !in db.courses then Outcome(Ok(false), db)
      else
        var db' := db.(courses := db.courses - {k},
                       teachers := PullFromCoursesTaught(db.teachers, k),
                       students := PullFromEnrolledCourses(db.students, k));
        assert Invariant(db) ==> Invariant(db') by {
          if Invariant(db) {
            forall s, j | s in db'.students && j in db'.students[s].enrolledCourses ensures j in db'.courses {
              Mongo.PullSpec(db.students[s].enrolledCourses, k);
              assert j != k && j in db.students[s].enrolledCourses;
            }
          }
        }
        Outcome(Ok(true), db')
  }

  /** The `$set` of `updateStudent` / `updateTeacher`: only truthy arguments overwrite. */
  function SetName(current: string, arg: Option<string>): (r: string)
    ensures Truthy(arg) ==> r == arg.value
    ensures !Truthy(arg) ==> r == current
  {
    if Truthy(arg) then arg.value else current
  }

  /** The student record after the `$set` of `updateStudent`. */
  function UpdatedStudent(prev: StudentModel, name: Option<string>, email: Option<string>): StudentModel
  {
    prev.(name := SetName(prev.name, name), email := SetName(prev.email, email))
  }

  /** The teacher record after the `$set` of `updateTeacher`. */
  function UpdatedTeacher(prev: TeacherModel, name: Option<string>, email: Option<string>): TeacherModel
  {
    prev.(name := SetName(prev.name, name), email := SetName(prev.email, email))
  }

  /** The course record after the `$set` of `updateCourse`, given the decoded teacher id when one was sent. */
  function UpdatedCourse(prev: CourseModel, title: Option<string>, description: Option<string>,
                         teacher: Option<ObjectId>): CourseModel
  {
    prev.(title := SetName(prev.title, title),
          description := SetName(prev.description, description),
          teacherId := if teacher.Some? then teacher.value else prev.teacherId)
  }

  /** The student record after `$push: {enrolledCourses: k}`. */
  function Enrolled(student: StudentModel, k: ObjectId): StudentModel
  {
    student.(enrolledCourses := student.enrolledCourses + [k])
  }

  /** The course record after `$push: {studentIds: s}` on the undeclared field. */
  function WithStudentId(course: CourseModel, s: ObjectId): CourseModel
  {
    course.(undeclared := course.undeclared.(studentIds := Mongo.PushUndeclared(course.undeclared.studentIds, s)))
  }

  /** `updateStudent`: `updateOne` with a `$set` of the truthy fields, then `findOne`. */
  function UpdateStudent(db: Db, c: IdCodec, arg: string, name: Option<string>, email: Option<string>)
    : (o: Outcome<Option<StudentModel>>)
    ensures o.reply.Fail? <==> c.decode(arg).None?
    ensures o.reply.Fail? ==> o.reply.error == InvalidObjectId && o.db == db
    ensures o.reply.Ok? ==> (o.reply.value.Some? <==> c.decode(arg).value in db.students)
    ensures o.reply == Ok(None) ==> o.db == db
    ensures o.reply.Ok? && o.reply.value.Some? ==>
              var k := c.decode(arg).value;
              var prev := db.students[k];
              var s := o.reply.value.value;
              && o.db == db.(students := db.students[k := s])
              && s.oid == prev.oid && s.enrolledCourses == prev.enrolledCourses
              && s.name == (if Truthy(name) then name.value else prev.name)
              && s.email == (if Truthy(email) then email.value else prev.email)
    ensures Invariant(db) ==> Invariant(o.db)
  {
    match c.decode(arg)
    case None => Outcome(Fail(InvalidObjectId), db)
    case Some(k) =>
      var students :=
        if k in db.students
        then db.students[k := UpdatedStudent(db.students[k], name, email)]
        else db.students;
      Outcome(Ok(Mongo.FindOne(students, k)), db.(students := students))
  }

  /** `updateTeacher`: `updateOne` with a `$set` of the truthy fields, then `findOne`. */
  function UpdateTeacher(db: Db, c: IdCodec, arg: string, name: Option<string>, email: Option<string>)
    : (o: Outcome<Option<TeacherModel>>)
    ensures o.reply.Fail? <==> c.decode(arg).None?
    ensures o.reply.Fail? ==> o.reply.error == InvalidObjectId && o.db == db
    ensures o.reply.Ok? ==> (o.reply.value.Some? <==> c.decode(arg).value in db.teachers)
    ensures o.reply == Ok(None) ==> o.db == db
    ensures o.reply.Ok? && o.reply.value.Some? ==>
              var k := c.decode(arg).value;
              var prev := db.teachers[k];
              var t := o.reply.value.value;
              && o.db == db.(teachers := db.teachers[k := t])
              && t.oid == prev.oid && t.coursesTaught == prev.coursesTaught
              && t.name == (if Truthy(name) then name.value else prev.name)
              && t.email == (if Truthy(email) then email.value else prev.email)
    ensures Invariant(db) ==> Invariant(o.db)
  {
    match c.decode(arg)
    case None => Outcome(Fail(InvalidObjectId), db)
    case Some(k) =>
      var teachers :=
        if k in db.teachers
        then db.teachers[k := UpdatedTeacher(db.teachers[k], name, email)]
        else db.teachers;
      Outcome(Ok(Mongo.FindOne(teachers, k)), db.(teachers := teachers))
  }

  /**
   * `updateCourse`: the filter id and, when truthy, the new teacher id are
   * decoded before `updateOne`; either failing aborts with no write.
   */
  function UpdateCourse(db: Db, c: IdCodec, arg: string, title: Option<string>, description: Option<string>,
                        teacherArg: Option<string>): (o: Outcome<Option<CourseModel>>)
    ensures o.reply.Fail? <==>
              c.decode(arg).None? || (Truthy(teacherArg) && c.decode(teacherArg.value).None?)
    ensures o.reply.Fail? ==> o.reply.error == InvalidObjectId && o.db == db
    ensures o.reply.Ok? ==> (o.reply.value.Some? <==> c.decode(arg).value in db.courses)
    ensures o.reply == Ok(None) ==> o.db == db
    ensures o.reply.Ok? && o.reply.value.Some? ==>
              var k := c.decode(arg).value;
              var prev := db.courses[k];
              var course := o.reply.value.value;
              && o.db == db.(courses := db.courses[k := course])
              && course.oid == prev.oid && course.students == prev.students
              && course.undeclared == prev.undeclared
              && course.title == (if Truthy(title) then title.value else prev.title)
              && course.description == (if Truthy(description) then description.value else prev.description)
              && course.teacherId == (if Truthy(teacherArg) then c.decode(teacherArg.value).value else prev.teacherId)
    ensures Invariant(db) ==> Invariant(o.db)
  {
    match c.decode(arg)
    case None => Outcome(Fail(InvalidObjectId), db)
    case Some(k) =>
      if Truthy(teacherArg) && c.decode(teacherArg.value).None? then Outcome(Fail(InvalidObjectId), db)
      else
        var courses :=
          if k in db.courses
          then
            var teacher := if Truthy(teacherArg) then c.decode(teacherArg.value) else None;
            db.courses[k := UpdatedCourse(db.courses[k], title, description, teacher)]
          else db.courses;
        Outcome(Ok(Mongo.FindOne(courses, k)), db.(courses := courses))
  }

  /**
   * `enrollStudentInCourse`. The "already enrolled" test at resolvers.ts:117 compares
   * two ObjectId objects with `===`, that is by reference, so it never holds
   * and every call appends. The student side gets the course id; the course
   * side gets the student id in the undeclared `studentIds`, so the declared
   * `students` is left as it was.
   */
  function EnrollStudentInCourse(db: Db, c: IdCodec, studentArg: string, courseArg: string)
    : (o: Outcome<Option<CourseModel>>)
    ensures o.reply.Fail? <==> c.decode(studentArg).None? || c.decode(courseArg).None?
    ensures o.reply.Fail? ==> o.reply.error == InvalidObjectId && o.db == db
    ensures o.reply.Ok? ==>
              (o.reply.value.None? <==>
                 c.decode(studentArg).value !in db.students || c.decode(courseArg).value !in db.courses)
    ensures o.reply == Ok(None) ==> o.db == db
    ensures o.reply.Ok? && o.reply.value.Some? ==>
              var s := c.decode(studentArg).value;
              var k := c.decode(courseArg).value;
              && o.db.students.Keys == db.students.Keys
              && o.db.students[s] == db.students[s].(enrolledCourses := db.students[s].enrolledCourses + [k])
              && (forall j :: j in db.students && j != s ==> o.db.students[j] == db.students[j])
              && o.db.teachers == db.teachers
              && o.db.courses.Keys == db.courses.Keys
              && (forall j :: j in db.courses && j != k ==> o.db.courses[j] == db.courses[j])
              && Declared(o.db.courses[k]) == Declared(db.courses[k])
              && o.db.courses[k].undeclared.studentIds == Mongo.PushUndeclared(db.courses[k].undeclared.studentIds, s)
              && o.reply.value.value == o.db.courses[k]
    ensures Invariant(db) ==> Invariant(o.db)
  {
    match (c.decode(studentArg), c.decode(courseArg))
    case (None, _) => Outcome(Fail(InvalidObjectId), db)
    case (_, None) => Outcome(Fail(InvalidObjectId), db)
    case (Some(s), Some(k)) =>
      if s !in db.students || k !in db.courses then Outcome(Ok(None), db)
      else
        var students := db.students[s := Enrolled(db.students[s], k)];
        var courses := db.courses[k := WithStudentId(db.courses[k], s)];
        Outcome(Ok(Mongo.FindOne(courses, k)), db.(students := students, courses := courses))
  }

  /**
   * `removeStudentFromCourse`. resolvers.ts:130 pulls from `enrolledStudents`, a
   * field no course has, and resolvers.ts:131 pulls the id STRING from an array of
   * ObjectIds, which matches no element: nothing is written.
   */
  function RemoveStudentFromCourse(db: Db, c: IdCodec, studentArg: string, courseArg: string)
    : (o: Outcome<Option<CourseModel>>)
    ensures o.reply.Fail? <==> c.decode(studentArg).None? || c.decode(courseArg).None?
    ensures o.reply.Fail? ==> o.reply.error == InvalidObjectId
    ensures o.reply.Ok? ==>
              (o.reply.value.None? <==>
                 c.decode(studentArg).value !in db.students || c.decode(courseArg).value !in db.courses)
    ensures o.reply.Ok? && o.reply.value.Some? ==> o.reply.value.value == db.courses[c.decode(courseArg).value]
    ensures o.db == db
  {
    match (c.decode(studentArg), c.decode(courseArg))
    case (None, _) => Outcome(Fail(InvalidObjectId), db)
    case (_, None) => Outcome(Fail(InvalidObjectId), db)
    case (Some(s), Some(k)) =>
      if s !in db.students || k !in db.courses then Outcome(Ok(None), db)
      else Outcome(Ok(Mongo.FindOne(db.courses, k)), db)
  }
}
