/**
 * The entity records of types.ts: a storage form (`*Model`, as kept in the
 * document store) and a wire form (ids as strings) for Student, Teacher and
 * Course, and the store's identifier type with its string codec.
 */
module Types {
  import opened Wrappers

  /** A store identifier (an ObjectId), as an unbounded natural: the resolvers only compare ids. */
  type ObjectId = nat

  /**
   * The identifier codec of the database driver: `toString()` (encode) and
   * `new ObjectId(s)` (decode, which throws on a malformed string). Both are
   * library code; the model takes them as a parameter.
   */
  datatype IdCodec = IdCodec(encode: ObjectId -> string, decode: string -> Option<ObjectId>)

  /** Distinct ids have distinct string forms. */
  ghost predicate Injective(c: IdCodec)
  {
    forall a: ObjectId, b: ObjectId {:trigger c.encode(a), c.encode(b)} :: c.encode(a) == c.encode(b) ==> a == b
  }

  /** StudentModel: `_id` is optional (absent before insertion). */
  datatype StudentModel = StudentModel(
    oid: Option<ObjectId>,
    name: string,
    email: string,
    enrolledCourses: seq<ObjectId>)

  /** TeacherModel. */
  datatype TeacherModel = TeacherModel(
    oid: Option<ObjectId>,
    name: string,
    email: string,
    coursesTaught: seq<ObjectId>)

  /**
   * Fields that the resolvers write into course documents although the
   * declared CourseModel has no such field: `studentIds` (pushed by enroll,
   * pulled by deleteStudent; absent until first pushed) and `teacherid`
   * (set to null by deleteTeacher).
   */
  datatype Undeclared = Undeclared(studentIds: Option<seq<ObjectId>>, teacheridNull: bool)

  const NoUndeclared := Undeclared(None, false)

  /** CourseModel: exactly one non-optional teacher reference. */
  datatype CourseModel = CourseModel(
    oid: Option<ObjectId>,
    title: string,
    description: string,
    teacherId: ObjectId,
    students: seq<ObjectId>,
    undeclared: Undeclared)

  /** The wire records: a mandatory string id and every id as its string form. */
  datatype Student = Student(id: string, name: string, email: string, enrolledCourses: seq<string>)

  datatype Teacher = Teacher(id: string, name: string, email: string, coursesTaught: seq<string>)

  datatype Course = Course(
    id: string,
    title: string,
    description: string,
    teacherId: string,
    students: seq<string>)
}
