/**
 * What the resolvers do when several calls and reads are put together:
 * which design intentions of the data model the code keeps, and which it
 * does not.
 */
module Properties {
  import opened Wrappers
  import opened Types
  import opened Protocol
  import Utils
  import Mongo

  /**
   * In every state the resolvers can reach, the bidirectional student/course
   * consistency holds exactly when no student is enrolled in anything,
   * because no resolver ever adds to a course's `students`.
   */
  lemma ConsistentIffNoEnrollment(db: Db)
    requires Invariant(db)
    ensures Consistent(db) <==> forall s :: s in db.students ==> db.students[s].enrolledCourses == []
  {
    if exists s :: s in db.students && db.students[s].enrolledCourses != [] {
      var s :| s in db.students && db.students[s].enrolledCourses != [];
      var k := db.students[s].enrolledCourses[0];
      assert k in db.students[s].enrolledCourses;
      assert k in db.courses && db.courses[k].students == [];
    }
  }

  /** Every successful enrollment leaves the student and the course disagreeing. */
  lemma EnrollBreaksConsistency(db: Db, c: IdCodec, studentArg: string, courseArg: string)
    requires Invariant(db)
    requires c.decode(studentArg).Some? && c.decode(studentArg).value in db.students
    requires c.decode(courseArg).Some? && c.decode(courseArg).value in db.courses
    ensures var o := EnrollStudentInCourse(db, c, studentArg, courseArg);
            var s := c.decode(studentArg).value;
            var k := c.decode(courseArg).value;
            && o.reply == Ok(Some(o.db.courses[k]))
            && k in o.db.students[s].enrolledCourses
            && s !in o.db.courses[k].students
            && !Consistent(o.db)
  {
  }

  /**
   * Enrolling twice is not idempotent: each call appends the course again,
   * and the second call leaves a different state from the first.
   */
  lemma EnrollTwiceAppendsTwice(db: Db, c: IdCodec, studentArg: string, courseArg: string)
    requires c.decode(studentArg).Some? && c.decode(studentArg).value in db.students
    requires c.decode(courseArg).Some? && c.decode(courseArg).value in db.courses
    ensures var once := EnrollStudentInCourse(db, c, studentArg, courseArg);
            var twice := EnrollStudentInCourse(once.db, c, studentArg, courseArg);
            var s := c.decode(studentArg).value;
            var k := c.decode(courseArg).value;
            && twice.db.students[s].enrolledCourses == db.students[s].enrolledCourses + [k, k]
            && twice.db.courses[k].students == db.courses[k].students
            && twice.db != once.db
  {
  }

  /**
   * A course is created without any teacher check and the teacher's
   * `coursesTaught` is not told: resolving the teacher's courses afterwards
   * does not show the new course, and a course naming a missing teacher
   * resolves its `teacher_id` to null.
   */
  lemma CreateCourseLeavesTeacherUnaware(db: Db, c: IdCodec, newId: ObjectId, title: string, description: string,
                                         teacherArg: string)
    requires Invariant(db) && newId !in db.courses
    requires c.decode(teacherArg).Some?
    ensures var o := CreateCourse(db, c, newId, title, description, teacherArg);
            var t := c.decode(teacherArg).value;
            && o.reply.Ok?
            && (t in o.db.teachers ==> o.db.courses[newId] !in CoursesTaught(o.db, o.db.teachers[t]))
            && (t !in db.teachers ==> CourseTeacher(o.db, o.reply.value) == None)
  {
  }

  /**
   * After `deleteTeacher`, each of the teacher's courses still stores the
   * deleted id in `teacher_id`, and the `teacher_id` field resolver turns
   * the dangling id into null.
   */
  lemma DeletedTeacherResolvesToNull(db: Db, c: IdCodec, arg: string)
    requires DeleteTeacher(db, c, arg).reply == Ok(true)
    ensures var o := DeleteTeacher(db, c, arg);
            var t := c.decode(arg).value;
            forall j :: j in db.courses && db.courses[j].teacherId == t ==>
              && o.db.courses[j].teacherId == t
              && o.db.courses[j].undeclared.teacheridNull
              && CourseTeacher(o.db, o.db.courses[j]) == None
  {
  }

  /**
   * After `deleteStudent`, every course's stored `students` is as before,
   * yet the `students` field resolver no longer yields the deleted student,
   * because it skips ids with no record.
   */
  lemma DeletedStudentNotResolved(db: Db, c: IdCodec, arg: string)
    requires Valid(db)
    requires DeleteStudent(db, c, arg).reply == Ok(true)
    ensures var o := DeleteStudent(db, c, arg);
            var s := c.decode(arg).value;
            forall j :: j in db.courses ==>
              && o.db.courses[j].students == db.courses[j].students
              && forall x :: x in CourseStudents(o.db, o.db.courses[j]) ==> x.oid != Some(s)
  {
  }

  /**
   * After two enrollments the student lists the course twice and the
   * undeclared `studentIds` holds the student twice, yet resolving the
   * student's `enrolledCourses` yields that course once, because `$in`
   * matches each stored record once.
   */
  lemma EnrollTwiceResolvesOnce(db: Db, c: IdCodec, studentArg: string, courseArg: string)
    requires c.decode(studentArg).Some? && c.decode(studentArg).value in db.students
    requires c.decode(courseArg).Some? && c.decode(courseArg).value in db.courses
    requires db.students[c.decode(studentArg).value].enrolledCourses == []
    ensures var once := EnrollStudentInCourse(db, c, studentArg, courseArg);
            var twice := EnrollStudentInCourse(once.db, c, studentArg, courseArg);
            var s := c.decode(studentArg).value;
            var k := c.decode(courseArg).value;
            var before := db.courses[k].undeclared.studentIds;
            && twice.db.students[s].enrolledCourses == [k, k]
            && twice.db.courses[k].undeclared.studentIds.value
               == (if before.Some? then before.value else []) + [s, s]
            && EnrolledCourses(twice.db, twice.db.students[s]) == [twice.db.courses[k]]
  {
    var once := EnrollStudentInCourse(db, c, studentArg, courseArg);
    var twice := EnrollStudentInCourse(once.db, c, studentArg, courseArg);
    var s, k := c.decode(studentArg).value, c.decode(courseArg).value;
    EnrollTwiceAppendsTwice(db, c, studentArg, courseArg);
    Mongo.PushUndeclaredTwice(db.courses[k].undeclared.studentIds, s);
    Mongo.FindInOne(twice.db.courses, [k, k], k);
  }

  /**
   * Unlike enrolling, updating is idempotent: the second identical
   * `updateStudent` leaves the store and the reply as the first did.
   */
  lemma UpdateStudentIdempotent(db: Db, c: IdCodec, arg: string, name: Option<string>, email: Option<string>)
    ensures var once := UpdateStudent(db, c, arg, name, email);
            UpdateStudent(once.db, c, arg, name, email) == once
  {
  }

  /** The same for `updateTeacher`. */
  lemma UpdateTeacherIdempotent(db: Db, c: IdCodec, arg: string, name: Option<string>, email: Option<string>)
    ensures var once := UpdateTeacher(db, c, arg, name, email);
            UpdateTeacher(once.db, c, arg, name, email) == once
  {
  }

  /** An update with every argument omitted, null or empty changes nothing and returns the stored record. */
  lemma EmptyUpdateChangesNothing(db: Db, c: IdCodec, arg: string, name: Option<string>, email: Option<string>)
    requires !Truthy(name) && !Truthy(email)
    requires c.decode(arg).Some?
    ensures var o := UpdateStudent(db, c, arg, name, email);
            && o.db == db
            && o.reply == Ok(if c.decode(arg).value in db.students then Some(db.students[c.decode(arg).value]) else None)
  {
  }

  /** The same for `updateTeacher`. */
  lemma EmptyTeacherUpdateChangesNothing(db: Db, c: IdCodec, arg: string, name: Option<string>, email: Option<string>)
    requires !Truthy(name) && !Truthy(email)
    requires c.decode(arg).Some?
    ensures var o := UpdateTeacher(db, c, arg, name, email);
            && o.db == db
            && o.reply == Ok(if c.decode(arg).value in db.teachers then Some(db.teachers[c.decode(arg).value]) else None)
  {
  }

  /** The same for `updateCourse`, whose title, description and teacher id are all omitted, null or empty. */
  lemma EmptyCourseUpdateChangesNothing(db: Db, c: IdCodec, arg: string, title: Option<string>,
                                        description: Option<string>, teacherArg: Option<string>)
    requires !Truthy(title) && !Truthy(description) && !Truthy(teacherArg)
    requires c.decode(arg).Some?
    ensures var o := UpdateCourse(db, c, arg, title, description, teacherArg);
            && o.db == db
            && o.reply == Ok(if c.decode(arg).value in db.courses then Some(db.courses[c.decode(arg).value]) else None)
  {
  }

  /** A created record is found again by the string form of its id, when the codec reads that string back. */
  lemma CreatedStudentIsFound(db: Db, c: IdCodec, newId: ObjectId, name: string, email: string)
    requires newId !in db.students
    requires c.decode(c.encode(newId)) == Some(newId)
    ensures var o := CreateStudent(db, newId, name, email);
            && FindById(o.db.students, c, c.encode(newId)) == Ok(Some(o.reply.value))
            && IdField(c, o.reply.value.oid) == Ok(c.encode(newId))
            && o.reply.value in Students(o.db)
  {
  }

  /**
   * The `id` field resolver and the converters agree on a record that has an
   * id; without one the converters give "" where the resolver fails.
   */
  lemma IdFieldAgreesWithConverter(c: IdCodec, m: StudentModel)
    ensures m.oid.Some? ==> IdField(c, m.oid) == Ok(Utils.FromStudentModelToStudent(c, m).id)
    ensures m.oid.None? ==> IdField(c, m.oid).Fail? && Utils.FromStudentModelToStudent(c, m).id == ""
  {
  }

  /**
   * Removing right after enrolling undoes nothing: the student still lists
   * the course, the course's resolved `students` stays empty, and the removal
   * returns the course as the enrollment left it.
   */
  lemma EnrollThenRemove(db: Db, c: IdCodec, s: ObjectId, k: ObjectId)
    requires c.decode(c.encode(s)) == Some(s) && c.decode(c.encode(k)) == Some(k)
    requires s in db.students && k in db.courses
    requires db.students[s].enrolledCourses == [] && db.courses[k].students == []
    ensures var o4 := EnrollStudentInCourse(db, c, c.encode(s), c.encode(k));
            var o5 := RemoveStudentFromCourse(o4.db, c, c.encode(s), c.encode(k));
            && o4.reply.Ok? && o4.reply.value.Some?
            && CourseStudents(o4.db, o4.reply.value.value) == []
            && o4.db.students[s].enrolledCourses == [k]
            && o5.db == o4.db
            && o5.reply == o4.reply
  {
    var o4 := EnrollStudentInCourse(db, c, c.encode(s), c.encode(k));
    assert o4.reply == Ok(Some(o4.db.courses[k])) && o4.db.courses[k].students == [];
    assert Mongo.Present([], o4.db.students.Keys) == {};
  }

  /**
   * The end-to-end scenario: create teacher T, course C taught by T and
   * student S, enroll S in C, then remove S from C. The enrollment reaches
   * S's `enrolledCourses` but C's resolved `students` stays empty, and the
   * removal changes nothing, so S stays enrolled.
   */
  lemma Scenario(c: IdCodec, t: ObjectId, k: ObjectId, s: ObjectId)
    requires c.decode(c.encode(t)) == Some(t)
    requires c.decode(c.encode(k)) == Some(k)
    requires c.decode(c.encode(s)) == Some(s)
    ensures var o1 := CreateTeacher(EmptyDb, t, "Ada", "ada@x.io");
            var o2 := CreateCourse(o1.db, c, k, "CS101", "intro", c.encode(t));
            var o3 := CreateStudent(o2.db, s, "Bob", "bob@x.io");
            var o4 := EnrollStudentInCourse(o3.db, c, c.encode(s), c.encode(k));
            var o5 := RemoveStudentFromCourse(o4.db, c, c.encode(s), c.encode(k));
            && o4.reply.Ok? && o4.reply.value.Some?
            && CourseStudents(o4.db, o4.reply.value.value) == []
            && o4.db.students[s].enrolledCourses == [k]
            && o5.db == o4.db
            && o5.reply == o4.reply
  {
    var o1 := CreateTeacher(EmptyDb, t, "Ada", "ada@x.io");
    var o2 := CreateCourse(o1.db, c, k, "CS101", "intro", c.encode(t));
    var o3 := CreateStudent(o2.db, s, "Bob", "bob@x.io");
    assert o3.db.courses[k].students == [] && o3.db.students[s].enrolledCourses == [];
    EnrollThenRemove(o3.db, c, s, k);
  }
}
