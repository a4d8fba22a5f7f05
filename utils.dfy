/** The storage-to-wire converters of utils.ts. */
module Utils {
  import opened Wrappers
  import opened Types

  /** `ids.map(x => x.toString())`: element-wise, same length, same order. */
  function EncodeAll(c: IdCodec, ids: seq<ObjectId>): (r: seq<string>)
    ensures |r| == |ids|
    ensures forall i :: 0 <= i < |ids| ==> r[i] == c.encode(ids[i])
  {
    if ids == [] then [] else [c.encode(ids[0])] + EncodeAll(c, ids[1..])
  }

  /** `model._id?.toString() || ""` (an empty string form and a missing id both give ""). */
  function IdString(c: IdCodec, oid: Option<ObjectId>): (r: string)
    ensures oid.Some? ==> r == c.encode(oid.value)
    ensures oid.None? ==> r == ""
  {
    match oid
    case None => ""
    case Some(k) => c.encode(k)
  }

  function FromCourseModelToCourse(c: IdCodec, model: CourseModel): (r: Course)
    ensures r.id == (if model.oid.Some? then c.encode(model.oid.value) else "")
    ensures r.title == model.title && r.description == model.description
    ensures r.teacherId == c.encode(model.teacherId)
    ensures |r.students| == |model.students|
    ensures forall i :: 0 <= i < |model.students| ==> r.students[i] == c.encode(model.students[i])
  {
    Course(IdString(c, model.oid), model.title, model.description,
           c.encode(model.teacherId), EncodeAll(c, model.students))
  }

  function FromStudentModelToStudent(c: IdCodec, model: StudentModel): (r: Student)
    ensures r.id == (if model.oid.Some? then c.encode(model.oid.value) else "")
    ensures r.name == model.name && r.email == model.email
    ensures |r.enrolledCourses| == |model.enrolledCourses|
    ensures forall i :: 0 <= i < |model.enrolledCourses| ==>
              r.enrolledCourses[i] == c.encode(model.enrolledCourses[i])
  {
    Student(IdString(c, model.oid), model.name, model.email, EncodeAll(c, model.enrolledCourses))
  }

  function FromTeacherModelToTeacher(c: IdCodec, model: TeacherModel): (r: Teacher)
    ensures r.id == (if model.oid.Some? then c.encode(model.oid.value) else "")
    ensures r.name == model.name && r.email == model.email
    ensures |r.coursesTaught| == |model.coursesTaught|
    ensures forall i :: 0 <= i < |model.coursesTaught| ==>
              r.coursesTaught[i] == c.encode(model.coursesTaught[i])
  {
    Teacher(IdString(c, model.oid), model.name, model.email, EncodeAll(c, model.coursesTaught))
  }

  /** With an injective codec the wire list loses nothing: it determines the id list. */
  lemma EncodeAllInjective(c: IdCodec, a: seq<ObjectId>, b: seq<ObjectId>)
    requires Injective(c)
    requires EncodeAll(c, a) == EncodeAll(c, b)
    ensures a == b
  {
  }

  /** With an injective codec, an id is in a storage list iff its string is in the wire list. */
  lemma EncodedMembership(c: IdCodec, ids: seq<ObjectId>, x: ObjectId)
    requires Injective(c)
    ensures c.encode(x) in EncodeAll(c, ids) <==> x in ids
  {
  }

  /**
   * Two stored students (both with an id) convert to the same wire record
   * only if they are the same record.
   */
  lemma StudentWireDeterminesModel(c: IdCodec, a: StudentModel, b: StudentModel)
    requires Injective(c) && a.oid.Some? && b.oid.Some?
    requires FromStudentModelToStudent(c, a) == FromStudentModelToStudent(c, b)
    ensures a == b
  {
  }

  lemma TeacherWireDeterminesModel(c: IdCodec, a: TeacherModel, b: TeacherModel)
    requires Injective(c) && a.oid.Some? && b.oid.Some?
    requires FromTeacherModelToTeacher(c, a) == FromTeacherModelToTeacher(c, b)
    ensures a == b
  {
  }

  /** The wire course determines every declared field; the undeclared ones are dropped. */
  lemma CourseWireDeterminesModel(c: IdCodec, a: CourseModel, b: CourseModel)
    requires Injective(c) && a.oid.Some? && b.oid.Some?
    requires FromCourseModelToCourse(c, a) == FromCourseModelToCourse(c, b)
    ensures a.(undeclared := NoUndeclared) == b.(undeclared := NoUndeclared)
  {
  }
}
