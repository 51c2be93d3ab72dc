/** The persisted records of the learning platform: users, courses, chapters
    and per-(student, course) progress. Database identities are natural
    numbers; a collection the controllers query by id is a map, one they
    search by another field is a list. */
module Records {
  import opened Collections

  type Id = nat

  datatype Role = Admin | Mentor | Student

  /** An endpoint's answer: an error from `E`, or the value it sends back. */
  datatype Reply<+E, +T> = Fail(error: E) | Ok(value: T)

  /** `isActive` may be absent on a stored user (undefined in the source);
      `isApproved` is always written by the code paths that create users. */
  datatype User = User(
    id: Id,
    name: string,
    email: string,
    password: string,
    role: Role,
    isApproved: bool,
    isActive: Option<bool>)

  /** The students list is the course's enrollment set. */
  datatype Course = Course(
    title: string,
    description: string,
    image: string,
    mentor: Id,
    students: seq<Id>)

  datatype Chapter = Chapter(
    course: Id,
    title: string,
    description: string,
    videoUrl: string,
    sequenceOrder: int)

  /** One ledger entry: the chapters a student has completed in a course. */
  datatype Progress = Progress(student: Id, course: Id, completedChapters: seq<Id>)

  /** A string is falsy in JavaScript exactly when it is empty; a missing
      request field is falsy too and is passed here as "". */
  predicate Truthy(s: string) {
    s != ""
  }

  /** The `given || current` idiom for a string field update. */
  function Fallback(given: string, current: string): (r: string)
    ensures Truthy(given) ==> r == given
    ensures !Truthy(given) ==> r == current
  {
    if Truthy(given) then given else current
  }

  /** An `isActive` flag means active unless it is stored as false; an
      absent flag counts as active. */
  predicate ActiveFlag(flag: Option<bool>) {
    flag != Some(false)
  }

  predicate IsActive(u: User) {
    ActiveFlag(u.isActive)
  }

  /** `User.findOne({ email })`: the first stored user with that email. */
  function FindByEmail(users: seq<User>, email: string): (r: Option<User>)
    ensures r.None? <==> forall i :: 0 <= i < |users| ==> users[i].email != email
    ensures r.Some? ==> r.value in users && r.value.email == email
  {
    if |users| == 0 then None
    else if users[0].email == email then Some(users[0])
    else FindByEmail(users[1..], email)
  }

  /** `User.findById(id)`: the position of the first user with that id,
      or -1. */
  function PositionOfId(users: seq<User>, id: Id): (r: int)
    ensures -1 <= r < |users|
    ensures r == -1 <==> forall i :: 0 <= i < |users| ==> users[i].id != id
    ensures 0 <= r ==> users[r].id == id && forall j :: 0 <= j < r ==> users[j].id != id
  {
    if |users| == 0 then -1
    else if users[0].id == id then 0
    else
      var k := PositionOfId(users[1..], id);
      if k < 0 then -1 else k + 1
  }

  /** The number of stored chapters that belong to a course
      (`Chapter.countDocuments({ course })`). */
  function ChapterCount(chapters: map<Id, Chapter>, course: Id): nat {
    |set id | id in chapters && chapters[id].course == course|
  }

  /** `ordered` is what `Chapter.find({ course }).sort({ sequenceOrder: 1 })`
      returns: every chapter of the course exactly once, by ascending
      sequence order. The order among equal sequence orders is whatever the
      database yields and is not fixed here. */
  predicate IsCatalogOrder(ordered: seq<Id>, chapters: map<Id, Chapter>, course: Id) {
    && NoDuplicates(ordered)
    && (forall i :: 0 <= i < |ordered| ==> ordered[i] in chapters && chapters[ordered[i]].course == course)
    && (forall id :: id in chapters && chapters[id].course == course ==> id in ordered)
    && (forall i, j :: 0 <= i < j < |ordered| ==>
          chapters[ordered[i]].sequenceOrder <= chapters[ordered[j]].sequenceOrder)
  }

  /** The catalog order lists exactly the course's chapters, so its length is
      the chapter count. */
  lemma CatalogOrderLength(ordered: seq<Id>, chapters: map<Id, Chapter>, course: Id)
    requires IsCatalogOrder(ordered, chapters, course)
    ensures |ordered| == ChapterCount(chapters, course)
  {
    assert Elems(ordered) == set id | id in chapters && chapters[id].course == course;
    ElemsCard(ordered);
  }
}
