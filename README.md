# Course management resolvers, modelled in Dafny

This project models the GraphQL resolvers of a small course-management API
(students, teachers and courses, held in three MongoDB collections) and proves
what they do to the stored data. The modelled files are `resolvers.ts`,
`utils.ts` and `types.ts`.

- `types.dfy` (module `Types`): the storage records `StudentModel`,
  `TeacherModel` and `CourseModel`, with an optional `_id` (`oid`) and
  relationship lists of ids. It also has the wire records `Student`, `Teacher`
  and `Course`, with string ids. The store's id type `ObjectId` is an
  unbounded natural. The resolvers only compare ids; the model uses their
  order only to find an unused id for `insertOne`. The id codec
  (`toString()` / `new ObjectId(s)`) is a parameter `IdCodec`, and decoding
  is partial. `CourseModel` has one extra slot,
  `undeclared`. It holds the two fields the resolvers write although the
  declared schema lacks them: `studentIds` and `teacherid`.
- `utils.dfy` (module `Utils`): the three storage-to-wire converters.
- `mongo.dfy` (module `Mongo`): the driver calls the resolvers use, on a
  collection modelled as a `map<ObjectId, Record>`. These are `findOne`,
  `find().toArray()`, `$in`, the id `insertOne` assigns, `$push` and `$pull`.
- `protocol.dfy` (module `Protocol`): every resolver as a function of the
  three collections (`Db`). A read returns a value. A mutation returns an
  `Outcome`: the reply plus the collections afterwards. The contracts state
  the error cases, which records change and how, and which records stay the
  same. `Invariant` is what the resolvers keep true from an empty store on.
  `Consistent` is the two-way student/course agreement the design wants but
  the code does not keep.
- `resolvers.dfy` (module `Resolvers`): class `Store`, with the three
  collections as fields. Each mutation is a method that runs the awaited
  store calls in order. Each method is proved to give the same reply and
  final state as its `Protocol` function.
- `properties.dfy` (module `Properties`): what follows from combining calls.
  A successful enrollment breaks the student/course agreement. Enrolling
  twice appends twice. A deleted teacher leaves dangling `teacher_id`s that
  resolve to null. A deleted student stays in stored `students` lists but
  is no longer resolved. The lemma `Scenario` states the outcome of the
  end-to-end sequence create, enroll, remove.

The model follows the code, not the design it aims at:

- The teacher check in `createCourse` never fires, because `find` returns a
  cursor, which is truthy.
- The "already enrolled" test in `enrollStudentInCourse` compares ObjectId
  objects by reference, so it never holds.
- Enrolling pushes the student id into `studentIds`, not `students`.
- `deleteStudent` pulls from `studentIds`, and only in courses whose
  `students` lists the student.
- `deleteTeacher` sets `teacherid`, not `teacher_id`.
- `removeStudentFromCourse` writes nothing. It pulls from the missing field
  `enrolledStudents`, and it pulls a string out of an array of ObjectIds.

## Model

| member | source | states |
|---|---|---|
| `Utils.EncodeAll` | utils.ts:12 | the wire list has the same length and order as the id list, and element i is the string form of id i |
| `Utils.IdString` | utils.ts:8 | the wire id is the string form of `_id` when present and "" when absent |
| `Utils.FromCourseModelToCourse` | utils.ts:6-14 | copies id (or ""), title and description; the teacher id is encoded; `students` is converted element-wise |
| `Utils.FromStudentModelToStudent` | utils.ts:17-24 | copies id (or ""), name and email; `enrolledCourses` is converted element-wise |
| `Utils.FromTeacherModelToTeacher` | utils.ts:27-34 | copies id (or ""), name and email; `coursesTaught` is converted element-wise |
| `Utils.EncodeAllInjective` | utils.ts:12 | with an injective codec, equal wire lists come from equal id lists |
| `Utils.EncodedMembership` | utils.ts:22 | with an injective codec, an id is in a storage list iff its string is in the wire list |
| `Utils.StudentWireDeterminesModel` | types.ts:3-14 | the wire student carries every storage field: two students with ids that convert alike are equal |
| `Utils.TeacherWireDeterminesModel` | types.ts:16-27 | the same for teachers |
| `Utils.CourseWireDeterminesModel` | types.ts:29-42 | the same for the declared course fields; the undeclared ones are not on the wire |
| `Mongo.FindOne` | resolvers.ts:16 | returns the record stored under the id, or null when there is none |
| `Mongo.FindOneAfterWrite` | resolvers.ts:88-90 | read after write: `findOne` returns a record just stored under its key, null for a key just deleted, and what it returned before for every other key |
| `Mongo.Find` | resolvers.ts:14 | returns as many elements as the collection has records, covering exactly the stored records; when no two keys hold the same record, no element repeats, so each record comes back exactly once |
| `Mongo.FindIn` | resolvers.ts:140 | returns each stored record whose id is in the list once, skips ids with no record, and returns at most as many records as the list has ids; when no two keys hold the same record, no element repeats |
| `Mongo.FindInOne` | resolvers.ts:140 | a list naming one stored id, however many times, gives exactly that one record |
| `Mongo.FreshIdExists` | resolvers.ts:36 | some id is not used in the collection yet, so `insertOne` can assign one |
| `Mongo.PullSpec` | resolvers.ts:83-84 | `$pull` removes every copy of the id, keeps every other id with its multiplicity, and changes nothing when the id is absent |
| `Mongo.PullConcat` | resolvers.ts:83-84 | `$pull` acts element by element: pulling from a concatenation is the concatenation of the pulls, so the kept ids stay in order |
| `Mongo.PushUndeclared` | resolvers.ts:121 | `$push` appends to the field, or creates it as a one-element array |
| `Mongo.PushUndeclaredTwice` | resolvers.ts:121 | two pushes of the same id leave it at the end of the array twice, starting from the array or from nothing |
| `Mongo.PullUndeclared` | resolvers.ts:71 | `$pull` on a missing field does nothing; on an array it removes every copy |
| `Protocol.FindById` | resolvers.ts:15-31 | `student`/`teacher`/`course`: fails iff the id does not decode; a well-formed absent id gives null, not an error; otherwise returns the stored record |
| `Protocol.Students` | resolvers.ts:14 | `students` returns every stored student, as many as are stored, and in a store whose records carry their own keys no student twice |
| `Protocol.Teachers` | resolvers.ts:20 | `teachers` returns every stored teacher, as many as are stored, and in a store whose records carry their own keys no teacher twice |
| `Protocol.Courses` | resolvers.ts:26 | `courses` returns every stored course, as many as are stored, and in a store whose records carry their own keys no course twice |
| `Protocol.EnrolledCourses` | resolvers.ts:139-142 | returns exactly the stored courses whose ids the student lists, drops dangling ids, and returns one record per distinct listed id that is stored, so a course listed twice comes back once; in a store whose records carry their own keys no element repeats |
| `Protocol.CoursesTaught` | resolvers.ts:146-149 | the same over the teacher's `coursesTaught` |
| `Protocol.CourseStudents` | resolvers.ts:158-161 | the same over the course's `students` |
| `Protocol.CourseTeacher` | resolvers.ts:153-157 | returns the course's teacher, or null when that teacher no longer exists |
| `Protocol.IdField` | resolvers.ts:138 | `id` (also lines 145 and 152) is the string form of `_id`, and fails when there is no `_id` |
| `Protocol.PullFromStudentIds` | resolvers.ts:71 | changes only the undeclared `studentIds`, and only in courses whose `students` list the student: every such course equals the old one with `studentIds` pulled, and every other course is unchanged |
| `Protocol.SetTeacheridNull` | resolvers.ts:77 | marks the undeclared `teacherid` null on exactly the teacher's courses; every declared field stays |
| `Protocol.PullFromCoursesTaught` | resolvers.ts:83 | each teacher's `coursesTaught` loses every copy of the course id; nothing else changes |
| `Protocol.PullFromEnrolledCourses` | resolvers.ts:84 | each student's `enrolledCourses` loses every copy of the course id; nothing else changes |
| `Protocol.SetName` | resolvers.ts:89 | a field is overwritten only by a truthy argument; an omitted, null or empty argument leaves it; `Properties.UpdateStudentIdempotent` and `Properties.EmptyUpdateChangesNothing` build on it |
| `Protocol.CreateStudent` | resolvers.ts:35-42 | adds exactly one student under a fresh id, with the given name and email and no courses, and returns it; the other collections are unchanged; the invariant is kept |
| `Protocol.CreateTeacher` | resolvers.ts:43-50 | the same for teachers, with no courses taught |
| `Protocol.CreateCourse` | resolvers.ts:51-66 | fails iff the teacher id does not decode, with nothing written; never checks that the teacher exists; otherwise adds one course with that teacher id, the given title and description, and no students |
| `Protocol.DeleteStudent` | resolvers.ts:68-73 | fails on a bad id; returns false and changes nothing when absent; otherwise removes exactly that student and returns true; no declared course field changes |
| `Protocol.DeleteTeacher` | resolvers.ts:74-79 | the same for teachers; every course keeps its `teacher_id` |
| `Protocol.DeleteCourse` | resolvers.ts:80-86 | the same for courses; then the course id is gone from every `coursesTaught` and `enrolledCourses`, each of which is the `$pull` of the old list, so the other ids keep their multiplicity and order; other fields are kept |
| `Protocol.UpdateStudent` | resolvers.ts:87-93 | fails on a bad id; returns null with no change when absent; otherwise overwrites only the truthy fields, keeps id and courses, and returns the stored record |
| `Protocol.UpdateTeacher` | resolvers.ts:94-100 | the same for teachers |
| `Protocol.UpdateCourse` | resolvers.ts:101-110 | the same for courses; also fails, with nothing written, when a truthy teacher id does not decode; `students` is never touched |
| `Protocol.EnrollStudentInCourse` | resolvers.ts:111-124 | fails on a bad id; returns null with no change when either record is missing; otherwise appends the course id to the student on every call, leaves the course's declared fields as they were, and returns the course |
| `Protocol.RemoveStudentFromCourse` | resolvers.ts:125-134 | fails on a bad id, returns null when either record is missing, otherwise returns the course; it never changes the store |
| `Resolvers.Store.constructor` | resolvers.ts:5-9 | starts with three empty collections, which satisfy the invariant |
| `Resolvers.Store.CreateStudent` | resolvers.ts:35-42 | the insert and the reply agree with `Protocol.CreateStudent` for the id that was assigned, which was fresh |
| `Resolvers.Store.CreateTeacher` | resolvers.ts:43-50 | the same against `Protocol.CreateTeacher` |
| `Resolvers.Store.CreateCourse` | resolvers.ts:51-66 | the decode, the insert and the reply agree with `Protocol.CreateCourse` |
| `Resolvers.Store.DeleteStudent` | resolvers.ts:68-73 | `findOneAndDelete` then `updateMany` agree with `Protocol.DeleteStudent` |
| `Resolvers.Store.DeleteTeacher` | resolvers.ts:74-79 | the same against `Protocol.DeleteTeacher` |
| `Resolvers.Store.DeleteCourse` | resolvers.ts:80-86 | `findOneAndDelete` then two `updateMany` calls agree with `Protocol.DeleteCourse` |
| `Resolvers.Store.UpdateStudent` | resolvers.ts:87-93 | `updateOne` then `findOne` agree with `Protocol.UpdateStudent` |
| `Resolvers.Store.UpdateTeacher` | resolvers.ts:94-100 | the same against `Protocol.UpdateTeacher` |
| `Resolvers.Store.UpdateCourse` | resolvers.ts:101-110 | the same against `Protocol.UpdateCourse` |
| `Resolvers.Store.EnrollStudentInCourse` | resolvers.ts:111-124 | the two lookups, the two `$push` calls and the re-read agree with `Protocol.EnrollStudentInCourse` |
| `Resolvers.Store.RemoveStudentFromCourse` | resolvers.ts:125-134 | the two lookups and the re-read agree with `Protocol.RemoveStudentFromCourse`; the two `$pull` calls, which match nothing, are not performed |
| `Properties.ConsistentIffNoEnrollment` | resolvers.ts:111-134 | in every reachable state, student/course agreement holds iff no student is enrolled, since no resolver fills a course's `students` |
| `Properties.EnrollBreaksConsistency` | resolvers.ts:120-121 | after any successful enroll, the student lists the course but the course does not list the student |
| `Properties.EnrollTwiceAppendsTwice` | resolvers.ts:116-120 | enrolling twice appends the course id twice; the course's `students` is unchanged; the call is not idempotent |
| `Properties.EnrollTwiceResolvesOnce` | resolvers.ts:116-121 | after two enrolls the student lists the course twice and `studentIds` holds the student twice, yet the student's resolved `enrolledCourses` is that one course |
| `Properties.UpdateStudentIdempotent` | resolvers.ts:87-93 | repeating an `updateStudent` with the same arguments gives the same reply and leaves the store as the first call did |
| `Properties.UpdateTeacherIdempotent` | resolvers.ts:94-100 | the same for `updateTeacher` |
| `Properties.CreateCourseLeavesTeacherUnaware` | resolvers.ts:52-59 | the new course does not show in its teacher's resolved `coursesTaught`; with a missing teacher its `teacher_id` resolves to null |
| `Properties.DeletedTeacherResolvesToNull` | resolvers.ts:77 | the teacher's courses keep the deleted id in `teacher_id`, get `teacherid: null`, and resolve `teacher_id` to null |
| `Properties.DeletedStudentNotResolved` | resolvers.ts:71 | every course's stored `students` stays as it was, but the resolved `students` no longer includes the deleted student |
| `Properties.EmptyUpdateChangesNothing` | resolvers.ts:88-92 | an `updateStudent` whose fields are all omitted, null or "" leaves the store unchanged and returns the stored record |
| `Properties.EmptyTeacherUpdateChangesNothing` | resolvers.ts:95-99 | the same for `updateTeacher` |
| `Properties.EmptyCourseUpdateChangesNothing` | resolvers.ts:102-109 | the same for `updateCourse`, with title, description and teacher id all omitted, null or "" |
| `Properties.CreatedStudentIsFound` | resolvers.ts:36-41 | a created student is found by the string form of its id, its `id` field resolves, and it is in `students` |
| `Properties.IdFieldAgreesWithConverter` | resolvers.ts:138 | the `id` resolver and the converter agree when `_id` is present; without it the converter gives "" and the resolver fails |
| `Properties.EnrollThenRemove` | resolvers.ts:111-134 | enrolling and then removing leaves the student listing the course, the course's resolved `students` empty, and the removal returning the course unchanged |
| `Properties.Scenario` | resolvers.ts:35-134 | create teacher, course and student, then enroll: the student lists the course but the course's resolved `students` is empty; the removal changes nothing |

## Left out

- Process start-up in `main.ts` is left out: the environment lookup, the exit
  on a missing URL, the MongoDB connection and the Apollo server.
  `schema.ts` is not part of this model.
- Concurrency is left out. Each resolver is one sequential run of its awaited
  steps. Interleaving between requests is not modelled, and neither is a
  failure between two steps.
- Driver errors are left out, except a failed id decode. Examples are lost
  connections and duplicate keys.
- ObjectId internals are left out: the hex format and how ids are generated.
  `insertOne`'s id is any id not yet in the collection, and the ids are
  unbounded naturals. Whether `toString()` and `new ObjectId(s)` invert each
  other is a library fact, not stated in this model. The lemmas that need it
  take it as a hypothesis on the codec.
- The order of `find` results is not modelled. The reads promise each
  matching record exactly once, in some order.
- `Protocol.CourseTeacher` has no branch for the null guard at
  resolvers.ts:154. `teacher_id` is a non-optional ObjectId in the declared
  schema, and no modelled write stores null in it: `deleteTeacher` writes
  `teacherid`.
- Undeclared fields are modelled only where a resolver touches them:
  `studentIds` and `teacherid` on courses. The `enrolledStudents` field
  pulled at resolvers.ts:130 exists in no document, so it is not
  represented.
- An empty `$set` (an update with every field omitted) is modelled as a
  no-op, as MongoDB 5.0 and later accept it.
- `Resolvers.Store.RemoveStudentFromCourse` does not perform the two `$pull`
  calls at resolvers.ts:130-131. The first names `enrolledStudents`, a field
  no document has. The second pulls the id string from an array of
  ObjectIds, and a string never equals an ObjectId. Neither can change a
  document, so the model leaves the store as it is.
- `findOneAndDelete` is modelled as returning the deleted document or null,
  as driver version 6 does.
