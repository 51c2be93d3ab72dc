/** Course authoring and enrollment: creating a course with an optional first
    student, assigning students, editing courses and chapters, the access
    rule for reading a course's chapters, and the per-course progress rows
    the dashboards list. */
module Courses {
  import opened Collections
  import opened Records
  import Progression
  import Completion

  const PlaceholderImage: string := "https://via.placeholder.com/300"

  /** The client errors of the course endpoints: 404 for a missing course
      or chapter, 401 for a failed ownership check, 403 for a refused read,
      400 for an email that names no student. */
  datatype CourseError = CourseNotFound | ChapterNotFound | NotAuthorized | Forbidden | StudentNotFound


  /** The students a new course starts with: the user registered under the
      given email when that user is a student, otherwise nobody. */
  function InitialStudents(users: seq<User>, email: string): (r: seq<Id>)
    ensures |r| <= 1
    ensures r != [] <==>
      Truthy(email) && FindByEmail(users, email).Some? && FindByEmail(users, email).value.role == Student
    ensures r != [] ==> exists u :: u in users && u.email == email && u.role == Student && r == [u.id]
  {
    var found := FindByEmail(users, email);
    if Truthy(email) && found.Some? && found.value.role == Student then [found.value.id] else []
  }

  /** Adding a student to an enrollment list at most once: the student is in
      the result, nobody else is added, the existing entries keep their
      places, and a duplicate-free list stays duplicate-free. */
  function Enroll(students: seq<Id>, student: Id): (r: seq<Id>)
    ensures Elems(r) == Elems(students) + {student}
    ensures students <= r && |r| <= |students| + 1
    ensures student in students ==> r == students
    ensures NoDuplicates(students) ==> NoDuplicates(r)
  {
    if student in students then students else students + [student]
  }

  /** Enrolling the same student again changes nothing. */
  lemma EnrollIsIdempotent(students: seq<Id>, student: Id)
    ensures Enroll(Enroll(students, student), student) == Enroll(students, student)
  {
  }

  /** The `sequenceOrder || current` update: a missing order and the order 0
      are both falsy and keep the stored order. */
  function OrderFallback(given: Option<int>, current: int): (r: int)
    ensures given.Some? && given.value != 0 ==> r == given.value
    ensures given.None? || given == Some(0) ==> r == current
  {
    if given.Some? && given.value != 0 then given.value else current
  }

  /** The field update of `updateChapter`: every field takes the supplied
      value when it is truthy and keeps the stored one otherwise; the chapter
      stays in its course. */
  function PatchChapter(ch: Chapter, title: string, description: string, videoUrl: string,
                        sequenceOrder: Option<int>): (r: Chapter)
    ensures r.course == ch.course
    ensures r.title in {title, ch.title} && r.description in {description, ch.description}
    ensures r.videoUrl in {videoUrl, ch.videoUrl}
    ensures r.sequenceOrder == ch.sequenceOrder || (sequenceOrder == Some(r.sequenceOrder) && r.sequenceOrder != 0)
    ensures Truthy(title) ==> r.title == title
    ensures !Truthy(title) ==> r.title == ch.title
    ensures Truthy(description) ==> r.description == description
    ensures !Truthy(description) ==> r.description == ch.description
    ensures Truthy(videoUrl) ==> r.videoUrl == videoUrl
    ensures !Truthy(videoUrl) ==> r.videoUrl == ch.videoUrl
    ensures sequenceOrder.Some? && sequenceOrder.value != 0 ==> r.sequenceOrder == sequenceOrder.value
    ensures Truthy(ch.title) ==> Truthy(r.title)
  {
    ch.(title := Fallback(title, ch.title),
        description := Fallback(description, ch.description),
        videoUrl := Fallback(videoUrl, ch.videoUrl),
        sequenceOrder := OrderFallback(sequenceOrder, ch.sequenceOrder))
  }

  /** An edit with nothing truthy in it leaves the chapter as it was, in
      particular a numeric order of 0 is not stored; repeating an edit has
      no further effect. */
  lemma PatchChapterLaws(ch: Chapter, title: string, description: string, videoUrl: string,
                         sequenceOrder: Option<int>)
    ensures PatchChapter(ch, "", "", "", None) == ch
    ensures PatchChapter(ch, "", "", "", Some(0)) == ch
    ensures var once := PatchChapter(ch, title, description, videoUrl, sequenceOrder);
      PatchChapter(once, title, description, videoUrl, sequenceOrder) == once
  {
  }

  /** `getChapters`: a mentor must own the course and a student must be
      enrolled in it; admins always pass. `query` is the course's chapter
      list in sequence order as the catalog returns it. */
  function GetChapters(courses: map<Id, Course>, chapters: map<Id, Chapter>, actor: Id, role: Role,
                       courseId: Id, query: seq<Id>): (r: Reply<CourseError, seq<Id>>)
    requires IsCatalogOrder(query, chapters, courseId)
    ensures courseId !in courses <==> r == Fail(CourseNotFound)
    ensures r == Fail(Forbidden) <==>
      courseId in courses &&
      ((role == Mentor && courses[courseId].mentor != actor) ||
       (role == Student && actor !in courses[courseId].students))
    ensures role == Admin ==> r != Fail(Forbidden)
    ensures r.Ok? <==>
      courseId in courses &&
      (role == Mentor ==> courses[courseId].mentor == actor) &&
      (role == Student ==> actor in courses[courseId].students)
    ensures r.Ok? ==> r.value == query
    ensures r.Ok? ==> IsCatalogOrder(r.value, chapters, courseId) && |r.value| == ChapterCount(chapters, courseId)
  {
    if courseId !in courses then Fail(CourseNotFound)
    else if role == Mentor && courses[courseId].mentor != actor then Fail(Forbidden)
    else if role == Student && actor !in courses[courseId].students then Fail(Forbidden)
    else
      CatalogOrderLength(query, chapters, courseId);
      Ok(query)
  }

  /** One line of progress on a dashboard. */
  datatype Summary = Summary(totalChapters: nat, completedChapters: nat, progress: nat)

  /** The per-course figures of `getStudentCourses` and
      `getEnrolledStudents`: the chapter count, the length of the student's
      completed list (0 without a record) and the rounded percentage. */
  function ProgressSummary(ledger: Progression.Ledger, student: Id, course: Id, chapterCount: nat): (s: Summary)
    ensures s.totalChapters == chapterCount
    ensures s.completedChapters == |Progression.CourseProgress(ledger, student, course)|
    ensures chapterCount == 0 ==> s.progress == 0
    ensures chapterCount > 0 ==> s.progress == Completion.Percent(s.completedChapters, chapterCount)
    ensures s.completedChapters <= chapterCount ==> s.progress <= 100
    ensures Completion.IsComplete(Completion.FindProgress(ledger, student, course), chapterCount) ==> s.progress == 100
  {
    var completed := |Progression.CourseProgress(ledger, student, course)|;
    Completion.PercentInRange(completed, chapterCount);
    Summary(chapterCount, completed, Completion.Percent(completed, chapterCount))
  }

  /** The ids of the listed courses that enroll the student, in list order
      (`Course.find({ students: id })`). */
  function EnrolledIds(stored: seq<(Id, Course)>, student: Id): (r: seq<Id>)
    ensures |r| <= |stored|
    ensures forall id :: id in r <==> exists c :: c in stored && c.0 == id && student in c.1.students
  {
    if |stored| == 0 then []
    else if student in stored[0].1.students then [stored[0].0] + EnrolledIds(stored[1..], student)
    else EnrolledIds(stored[1..], student)
  }

  /** `getStudentCourses`: exactly one row per course the student is
      enrolled in, in storage order. `stored` is the course collection as
      the database lists it, each course paired with its id. */
  function StudentCourses(stored: seq<(Id, Course)>, chapters: map<Id, Chapter>,
                          ledger: Progression.Ledger, student: Id): (rows: seq<(Id, Summary)>)
    ensures |rows| <= |stored|
    ensures |rows| == |EnrolledIds(stored, student)|
    ensures forall i :: 0 <= i < |rows| ==> rows[i].0 == EnrolledIds(stored, student)[i]
    ensures forall row :: row in rows ==>
      exists c :: c in stored && c.0 == row.0 && student in c.1.students
    ensures forall row :: row in rows ==>
      row.1 == ProgressSummary(ledger, student, row.0, ChapterCount(chapters, row.0))
    ensures forall c :: c in stored && student in c.1.students ==>
      (c.0, ProgressSummary(ledger, student, c.0, ChapterCount(chapters, c.0))) in rows
  {
    if |stored| == 0 then []
    else
      var rest := StudentCourses(stored[1..], chapters, ledger, student);
      var (id, course) := stored[0];
      if student in course.students
      then [(id, ProgressSummary(ledger, student, id, ChapterCount(chapters, id)))] + rest
      else rest
  }

  /** The enrolled students whose user still exists, in list order. */
  function Present(students: seq<Id>, users: seq<User>): (r: seq<Id>)
    ensures |r| <= |students|
    ensures forall id :: id in r <==> id in students && PositionOfId(users, id) >= 0
  {
    if |students| == 0 then []
    else if PositionOfId(users, students[0]) >= 0 then [students[0]] + Present(students[1..], users)
    else Present(students[1..], users)
  }

  /** The rows of `getEnrolledStudents` for an enrollment list: students
      whose user no longer exists are dropped, every other entry gets
      exactly one row, in list order, with the figures of
      `ProgressSummary`. */
  function StudentRows(students: seq<Id>, users: seq<User>, ledger: Progression.Ledger, course: Id,
                       chapterCount: nat): (rows: seq<(User, Summary)>)
    ensures |rows| <= |students|
    ensures |rows| == |Present(students, users)|
    ensures forall i :: 0 <= i < |rows| ==>
      && rows[i].0 in users
      && rows[i].0.id == Present(students, users)[i]
      && rows[i].1 == ProgressSummary(ledger, rows[i].0.id, course, chapterCount)
  {
    if |students| == 0 then []
    else
      var tail := students[1..];
      var rest := StudentRows(tail, users, ledger, course, chapterCount);
      var k := PositionOfId(users, students[0]);
      assert forall i :: 1 <= i < |students| ==> students[i] == tail[i - 1];
      if k < 0 then rest
      else
        var rows := [(users[k], ProgressSummary(ledger, users[k].id, course, chapterCount))] + rest;
        assert Present(students, users) == [students[0]] + Present(tail, users);
        assert forall i :: 1 <= i < |rows| ==> rows[i] == rest[i - 1];
        rows
  }

  /** Every row is a stored user enrolled in the course, with that
      student's figures, and every enrolled student whose user still exists
      has a row. */
  lemma StudentRowsCover(students: seq<Id>, users: seq<User>, ledger: Progression.Ledger, course: Id,
                         chapterCount: nat)
    ensures var rows := StudentRows(students, users, ledger, course, chapterCount);
      && (forall row :: row in rows ==>
            row.0 in users && row.0.id in students &&
            row.1 == ProgressSummary(ledger, row.0.id, course, chapterCount))
      && (forall i :: 0 <= i < |students| && PositionOfId(users, students[i]) >= 0 ==>
            exists row :: row in rows && row.0.id == students[i])
  {
    var rows := StudentRows(students, users, ledger, course, chapterCount);
    var present := Present(students, users);
    forall i | 0 <= i < |students| && PositionOfId(users, students[i]) >= 0
      ensures exists row :: row in rows && row.0.id == students[i]
    {
      var j := IndexOf(present, students[i]);
      assert rows[j] in rows;
    }
  }

  /** `getEnrolledStudents`: the course must exist and the actor must be an
      admin or the course's mentor. */
  function EnrolledStudents(courses: map<Id, Course>, chapters: map<Id, Chapter>, users: seq<User>,
                            ledger: Progression.Ledger, actor: Id, role: Role, courseId: Id)
    : (r: Reply<CourseError, seq<(User, Summary)>>)
    ensures courseId !in courses <==> r == Fail(CourseNotFound)
    ensures r == Fail(NotAuthorized) <==> courseId in courses && role != Admin && courses[courseId].mentor != actor
    ensures r.Ok? <==> courseId in courses && (role == Admin || courses[courseId].mentor == actor)
    ensures r.Ok? ==>
      r.value == StudentRows(courses[courseId].students, users, ledger, courseId, ChapterCount(chapters, courseId))
    ensures r.Ok? ==> |r.value| <= |courses[courseId].students|
  {
    if courseId !in courses then Fail(CourseNotFound)
    else if role != Admin && courses[courseId].mentor != actor then Fail(NotAuthorized)
    else Ok(StudentRows(courses[courseId].students, users, ledger, courseId, ChapterCount(chapters, courseId)))
  }

  /** The course and chapter collections. */
  class CourseStore {
    var courses: map<Id, Course>
    var chapters: map<Id, Chapter>

    /** No course lists a student twice. */
    ghost predicate Valid()
      reads this
    {
      forall id :: id in courses ==> NoDuplicates(courses[id].students)
    }

    constructor ()
      ensures Valid() && courses == map[] && chapters == map[]
    {
      courses, chapters := map[], map[];
    }

    /** `createCourse`: the actor becomes the mentor, the image falls back to
        the placeholder, and the students list starts with the student found
        by email, if any. */
    method CreateCourse(actor: Id, newId: Id, title: string, description: string, image: string,
                        initialStudentEmail: string, users: seq<User>) returns (created: Course)
      requires Valid() && newId !in courses
      modifies this
      ensures Valid()
      ensures created == Course(title, description, Fallback(image, PlaceholderImage), actor,
                                InitialStudents(users, initialStudentEmail))
      ensures courses == old(courses)[newId := created] && chapters == old(chapters)
    {
      var students: seq<Id> := [];
      if Truthy(initialStudentEmail) {
        var student := FindByEmail(users, initialStudentEmail);
        if student.Some? && student.value.role == Student {
          students := students + [student.value.id];
        }
      }
      created := Course(title, description, Fallback(image, PlaceholderImage), actor, students);
      courses := courses[newId := created];
    }

    /** `assignCourse`: in this order, the course must exist, the actor must
        be its mentor, and the email must belong to a student; then the
        student is added unless already enrolled. A rejected call changes
        nothing. */
    method AssignCourse(actor: Id, courseId: Id, email: string, users: seq<User>) returns (out: Reply<CourseError, Course>)
      requires Valid()
      modifies this
      ensures Valid()
      ensures chapters == old(chapters)
      ensures courseId !in old(courses) <==> out == Fail(CourseNotFound)
      ensures out == Fail(NotAuthorized) <==> courseId in old(courses) && old(courses)[courseId].mentor != actor
      ensures out.Ok? <==>
        courseId in old(courses) && old(courses)[courseId].mentor == actor &&
        FindByEmail(users, email).Some? && FindByEmail(users, email).value.role == Student
      ensures out == Fail(StudentNotFound) <==>
        courseId in old(courses) && old(courses)[courseId].mentor == actor &&
        !(FindByEmail(users, email).Some? && FindByEmail(users, email).value.role == Student)
      ensures !out.Ok? ==> courses == old(courses)
      ensures out.Ok? ==>
        && out.value == old(courses)[courseId].(students := Enroll(old(courses)[courseId].students,
                                                                    FindByEmail(users, email).value.id))
        && courses == old(courses)[courseId := out.value]
    {
      if courseId !in courses {
        return Fail(CourseNotFound);
      }
      var course := courses[courseId];
      if course.mentor != actor {
        return Fail(NotAuthorized);
      }
      var student := FindByEmail(users, email);
      if student.None? || student.value.role != Student {
        return Fail(StudentNotFound);
      }
      if student.value.id !in course.students {
        course := course.(students := course.students + [student.value.id]);
        courses := courses[courseId := course];
      }
      out := Ok(course);
    }

    /** `updateCourse`: the course must exist and the actor must be an admin
        or its mentor; title and description take truthy new values. */
    method UpdateCourse(actor: Id, role: Role, courseId: Id, title: string, description: string)
      returns (out: Reply<CourseError, Course>)
      requires Valid()
      modifies this
      ensures Valid()
      ensures chapters == old(chapters)
      ensures courseId !in old(courses) <==> out == Fail(CourseNotFound)
      ensures out == Fail(NotAuthorized) <==>
        courseId in old(courses) && role != Admin && old(courses)[courseId].mentor != actor
      ensures out.Ok? <==> courseId in old(courses) && (role == Admin || old(courses)[courseId].mentor == actor)
      ensures !out.Ok? ==> courses == old(courses)
      ensures out.Ok? ==>
        var c := old(courses)[courseId];
        && out.value == c.(title := Fallback(title, c.title), description := Fallback(description, c.description))
        && courses == old(courses)[courseId := out.value]
    {
      if courseId !in courses {
        return Fail(CourseNotFound);
      }
      var course := courses[courseId];
      if role != Admin && course.mentor != actor {
        return Fail(NotAuthorized);
      }
      course := course.(title := Fallback(title, course.title));
      course := course.(description := Fallback(description, course.description));
      courses := courses[courseId := course];
      out := Ok(course);
    }

    /** `updateChapter`: the course in the request must exist and belong to
        the actor, and the chapter must exist; the chapter is then patched.
        Whether the chapter belongs to that course is not checked. */
    method UpdateChapter(actor: Id, courseId: Id, chapterId: Id, title: string, description: string,
                         videoUrl: string, sequenceOrder: Option<int>) returns (out: Reply<CourseError, Chapter>)
      requires Valid()
      modifies this
      ensures Valid()
      ensures courses == old(courses)
      ensures out.Ok? <==> courseId in courses && courses[courseId].mentor == actor && chapterId in old(chapters)
      ensures courseId !in courses <==> out == Fail(CourseNotFound)
      ensures out == Fail(NotAuthorized) <==> courseId in courses && courses[courseId].mentor != actor
      ensures out == Fail(ChapterNotFound) <==>
        courseId in courses && courses[courseId].mentor == actor && chapterId !in old(chapters)
      ensures !out.Ok? ==> chapters == old(chapters)
      ensures out.Ok? ==>
        && out.value == PatchChapter(old(chapters)[chapterId], title, description, videoUrl, sequenceOrder)
        && chapters == old(chapters)[chapterId := out.value]
    {
      if courseId !in courses {
        return Fail(CourseNotFound);
      }
      if courses[courseId].mentor != actor {
        return Fail(NotAuthorized);
      }
      if chapterId !in chapters {
        return Fail(ChapterNotFound);
      }
      var chapter := chapters[chapterId];
      chapter := chapter.(title := Fallback(title, chapter.title));
      chapter := chapter.(description := Fallback(description, chapter.description));
      chapter := chapter.(videoUrl := Fallback(videoUrl, chapter.videoUrl));
      chapter := chapter.(sequenceOrder := OrderFallback(sequenceOrder, chapter.sequenceOrder));
      chapters := chapters[chapterId := chapter];
      out := Ok(chapter);
    }
  }
}
