/** The course progression engine: recording that a student completed a
    chapter, under the enrollment gate and the strict-sequence rule, and
    reading a student's progress in a course. */
module Progression {
  import opened Collections
  import opened Records

  /** The progress collection, keyed by (student, course). */
  type Ledger = map<(Id, Id), Progress>

  /** Each stored record sits under its own (student, course) key. */
  predicate LedgerValid(ledger: Ledger) {
    forall key :: key in ledger ==> ledger[key].student == key.0 && ledger[key].course == key.1
  }

  /** The answers of `completeChapter`. */
  datatype Outcome =
    | ChapterNotFound          // 404, unknown chapter id
    | CourseMissing            // the chapter's course is gone; the request fails
    | NotEnrolled              // 403, no record yet and not enrolled
    | AlreadyCompleted         // 200, the chapter is already in the list
    | OutOfSequence            // 400, the previous chapter is not completed
    | Completed(progress: Progress)  // the saved record

  /** `getCourseProgress`: the completed list of the student's record for the
      course, or the empty list when there is no record (not an error). */
  function CourseProgress(ledger: Ledger, student: Id, course: Id): (done: seq<Id>)
    ensures (student, course) !in ledger ==> done == []
    ensures (student, course) in ledger ==> done == ledger[(student, course)].completedChapters
  {
    if (student, course) in ledger then ledger[(student, course)].completedChapters else []
  }

  /** The decision `completeChapter` takes for `student` and `chapterId`.
      `ordered` is the course's chapter list sorted by sequence order, as the
      catalog query returns it. The checks run in the source's order: chapter
      exists; enrolled (only when no record exists); not already completed;
      predecessor completed. */
  function Decide(ledger: Ledger, student: Id, chapterId: Id, chapters: map<Id, Chapter>,
                  courses: map<Id, Course>, ordered: seq<Id>): (r: Outcome)
    ensures chapterId !in chapters <==> r == ChapterNotFound
    ensures chapterId in chapters ==>
      var course := chapters[chapterId].course;
      var done := CourseProgress(ledger, student, course);
      var i := IndexOf(ordered, chapterId);
      && (r == NotEnrolled <==>
            (student, course) !in ledger && course in courses && student !in courses[course].students)
      && (r == CourseMissing <==> (student, course) !in ledger && course !in courses)
      && (r == AlreadyCompleted ==> chapterId in done)
      && (r == OutOfSequence <==>
            r != NotEnrolled && r != CourseMissing && chapterId !in done && i > 0 && ordered[i - 1] !in done)
      && (r.Completed? ==>
            && chapterId !in done
            && (i > 0 ==> ordered[i - 1] in done)
            && r.progress.completedChapters == done + [chapterId]
            && ((student, course) !in ledger ==> r.progress == Progress(student, course, [chapterId])))
  {
    if chapterId !in chapters then ChapterNotFound
    else
      var course := chapters[chapterId].course;
      var key := (student, course);
      if key !in ledger && course !in courses then CourseMissing
      else if key !in ledger && student !in courses[course].students then NotEnrolled
      else
        var progress := if key in ledger then ledger[key] else Progress(student, course, []);
        if chapterId in progress.completedChapters then AlreadyCompleted
        else
          var i := IndexOf(ordered, chapterId);
          if i > 0 && ordered[i - 1] !in progress.completedChapters then OutOfSequence
          else Completed(progress.(completedChapters := progress.completedChapters + [chapterId]))
  }

  /** The effect of an outcome on the ledger: only a completion is saved. */
  function Apply(ledger: Ledger, r: Outcome): (next: Ledger)
    ensures !r.Completed? ==> next == ledger
    ensures r.Completed? ==>
      var key := (r.progress.student, r.progress.course);
      && next.Keys == ledger.Keys + {key}
      && next[key] == r.progress
      && forall k :: k in ledger && k != key ==> next[k] == ledger[k]
  {
    if r.Completed? then ledger[(r.progress.student, r.progress.course) := r.progress] else ledger
  }

  /** What `completeChapter` leaves in the ledger. */
  function Step(ledger: Ledger, student: Id, chapterId: Id, chapters: map<Id, Chapter>,
                courses: map<Id, Course>, ordered: seq<Id>): Ledger
  {
    Apply(ledger, Decide(ledger, student, chapterId, chapters, courses, ordered))
  }

  /** The ledger keeps its keys consistent, a completion lands on the
      (student, chapter's course) key, and every other record is untouched. */
  lemma StepTargetsOwnRecord(ledger: Ledger, student: Id, chapterId: Id, chapters: map<Id, Chapter>,
                             courses: map<Id, Course>, ordered: seq<Id>)
    requires LedgerValid(ledger)
    ensures var r := Decide(ledger, student, chapterId, chapters, courses, ordered);
      var next := Apply(ledger, r);
      && LedgerValid(next)
      && (r.Completed? ==>
            && r.progress.student == student
            && r.progress.course == chapters[chapterId].course
            && forall k :: k in ledger && k != (student, chapters[chapterId].course) ==> next[k] == ledger[k])
  {
  }

  /** The completed list only grows: after any call the old list is a prefix
      of the new one, and a successful call adds exactly one entry. */
  lemma StepOnlyAppends(ledger: Ledger, student: Id, chapterId: Id, chapters: map<Id, Chapter>,
                        courses: map<Id, Course>, ordered: seq<Id>, course: Id)
    requires LedgerValid(ledger)
    ensures var r := Decide(ledger, student, chapterId, chapters, courses, ordered);
      var before := CourseProgress(ledger, student, course);
      var after := CourseProgress(Apply(ledger, r), student, course);
      && before <= after
      && (r.Completed? && course == chapters[chapterId].course ==> after == before + [chapterId])
      && (!(r.Completed? && course == chapters[chapterId].course) ==> after == before)
  {
  }

  /** Completing a chapter twice: the second call answers AlreadyCompleted
      and leaves the ledger as the first call left it. */
  lemma {:induction false} CompleteIsIdempotent(ledger: Ledger, student: Id, chapterId: Id,
                                                chapters: map<Id, Chapter>, courses: map<Id, Course>,
                                                ordered: seq<Id>)
    requires LedgerValid(ledger)
    requires Decide(ledger, student, chapterId, chapters, courses, ordered).Completed?
    ensures var once := Step(ledger, student, chapterId, chapters, courses, ordered);
      && Decide(once, student, chapterId, chapters, courses, ordered) == AlreadyCompleted
      && Step(once, student, chapterId, chapters, courses, ordered) == once
  {
    var r := Decide(ledger, student, chapterId, chapters, courses, ordered);
    var once := Apply(ledger, r);
    var course := chapters[chapterId].course;
    assert r.progress.student == student && r.progress.course == course;
    assert CourseProgress(once, student, course) == r.progress.completedChapters;
  }

  /** The chapter first in sequence order needs no predecessor: an enrolled
      student (or one who already has a record) completes it unless it is
      already completed. */
  lemma FirstChapterIsFree(ledger: Ledger, student: Id, chapterId: Id, chapters: map<Id, Chapter>,
                           courses: map<Id, Course>, ordered: seq<Id>)
    requires chapterId in chapters && |ordered| > 0 && ordered[0] == chapterId
    requires var course := chapters[chapterId].course;
      (student, course) in ledger || (course in courses && student in courses[course].students)
    requires chapterId !in CourseProgress(ledger, student, chapters[chapterId].course)
    ensures Decide(ledger, student, chapterId, chapters, courses, ordered).Completed?
  {
  }

  /** Enrollment is consulted only while no record exists: with a record,
      the decision is the same whatever the enrollment lists say. */
  lemma EnrollmentOnlyGatesFirstRecord(ledger: Ledger, student: Id, chapterId: Id,
                                       chapters: map<Id, Chapter>, courses: map<Id, Course>,
                                       others: map<Id, Course>, ordered: seq<Id>)
    requires chapterId in chapters && (student, chapters[chapterId].course) in ledger
    ensures Decide(ledger, student, chapterId, chapters, courses, ordered)
         == Decide(ledger, student, chapterId, chapters, others, ordered)
  {
  }

  /** Strict sequence: every completed chapter after the first one in
      catalog order has its predecessor completed. */
  predicate SequenceClosed(ordered: seq<Id>, done: seq<Id>) {
    forall i :: 0 < i < |ordered| && ordered[i] in done ==> ordered[i - 1] in done
  }

  /** What every completed list reachable through `completeChapter` keeps
      with respect to an unchanging catalog order. */
  predicate RecordInvariant(ordered: seq<Id>, done: seq<Id>) {
    && NoDuplicates(done)
    && Elems(done) <= Elems(ordered)
    && SequenceClosed(ordered, done)
  }

  /** A successful completion keeps the record duplicate-free, inside the
      catalog and closed under predecessors. */
  lemma {:induction false} CompletePreservesInvariant(ledger: Ledger, student: Id, chapterId: Id,
                                                      chapters: map<Id, Chapter>, courses: map<Id, Course>,
                                                      ordered: seq<Id>)
    requires LedgerValid(ledger) && chapterId in chapters
    requires IsCatalogOrder(ordered, chapters, chapters[chapterId].course)
    requires RecordInvariant(ordered, CourseProgress(ledger, student, chapters[chapterId].course))
    ensures var r := Decide(ledger, student, chapterId, chapters, courses, ordered);
      r.Completed? ==> RecordInvariant(ordered, r.progress.completedChapters)
  {
    var course := chapters[chapterId].course;
    var done := CourseProgress(ledger, student, course);
    var r := Decide(ledger, student, chapterId, chapters, courses, ordered);
    if r.Completed? {
      var next := r.progress.completedChapters;
      assert next == done + [chapterId];
      AppendFresh(done, chapterId);
      var k := IndexOf(ordered, chapterId);
      assert 0 <= k && ordered[k] == chapterId;
      assert Elems(next) == Elems(done) + {chapterId};
      forall i | 0 < i < |ordered| && ordered[i] in next
        ensures ordered[i - 1] in next
      {
        if ordered[i] == chapterId {
          IndexOfDistinct(ordered, i);
        }
      }
    }
  }

  /** The completed chapters of a record that keeps the invariant are
      exactly the first |done| chapters of the catalog order. */
  lemma {:induction false} CompletedIsCatalogPrefix(ordered: seq<Id>, done: seq<Id>)
    requires NoDuplicates(ordered) && RecordInvariant(ordered, done)
    ensures |done| <= |ordered|
    ensures Elems(done) == Elems(ordered[..|done|])
  {
    // m: the first catalog position whose chapter is not completed
    var m := 0;
    while m < |ordered| && ordered[m] in done
      invariant 0 <= m <= |ordered|
      invariant forall i :: 0 <= i < m ==> ordered[i] in done
    {
      m := m + 1;
    }
    forall j | m <= j < |ordered|
      ensures ordered[j] !in done
    {
      ClosedBelow(ordered, done, m, j);
    }
    var front := ordered[..m];
    assert Elems(done) == Elems(front);
    ElemsCard(done);
    ElemsCard(front);
    assert |done| == m;
  }

  /** Predecessor closure reaches back: a chapter missing at position m is
      missing at every later position too. */
  lemma {:induction false} ClosedBelow(ordered: seq<Id>, done: seq<Id>, m: nat, j: nat)
    requires SequenceClosed(ordered, done)
    requires m <= j < |ordered| && ordered[m] !in done
    ensures ordered[j] !in done
    decreases j - m
  {
    if j > m {
      ClosedBelow(ordered, done, m, j - 1);
    }
  }

  /** The three-chapter walk-through: with chapters 1, 2, 3 in order, an
      enrolled student cannot start with 2, can complete 1, 2, 3 in turn, and
      cannot skip from 1 to 3. */
  lemma StrictOrderExample()
    ensures var chapters := map[1 := Chapter(10, "a", "", "u", 1), 2 := Chapter(10, "b", "", "u", 2),
                                3 := Chapter(10, "c", "", "u", 3)];
      var courses := map[10 := Course("t", "d", "i", 5, [7])];
      var ordered := [1, 2, 3];
      var l0: Ledger := map[];
      var l1 := Step(l0, 7, 1, chapters, courses, ordered);
      var l2 := Step(l1, 7, 2, chapters, courses, ordered);
      && Decide(l0, 7, 2, chapters, courses, ordered) == OutOfSequence
      && Decide(l1, 7, 3, chapters, courses, ordered) == OutOfSequence
      && Decide(l2, 7, 3, chapters, courses, ordered).Completed?
      && CourseProgress(Step(l2, 7, 3, chapters, courses, ordered), 7, 10) == [1, 2, 3]
      && Decide(l0, 8, 1, chapters, courses, ordered) == NotEnrolled
  {
  }

  /** The progress collection as a mutable store. */
  class ProgressStore {
    var records: Ledger

    ghost predicate Valid()
      reads this
    {
      LedgerValid(records)
    }

    constructor ()
      ensures Valid() && records == map[]
    {
      records := map[];
    }

    /** `completeChapter`: look the chapter up, find or lazily create the
        student's record for its course, and append the chapter when the
        checks pass. Only a completion is saved. */
    method CompleteChapter(student: Id, chapterId: Id, chapters: map<Id, Chapter>,
                           courses: map<Id, Course>, ordered: seq<Id>) returns (out: Outcome)
      requires Valid()
      modifies this
      ensures Valid()
      ensures out == Decide(old(records), student, chapterId, chapters, courses, ordered)
      ensures records == Apply(old(records), out)
    {
      if chapterId !in chapters {
        return ChapterNotFound;
      }
      var chapter := chapters[chapterId];
      var key := (student, chapter.course);
      var progress: Progress;
      if key in records {
        progress := records[key];
      } else {
        if chapter.course !in courses {
          return CourseMissing;
        }
        if student !in courses[chapter.course].students {
          return NotEnrolled;
        }
        progress := Progress(student, chapter.course, []);
      }
      if chapterId in progress.completedChapters {
        return AlreadyCompleted;
      }
      var currentIndex := IndexOf(ordered, chapterId);
      if currentIndex > 0 {
        var prevChapter := ordered[currentIndex - 1];
        if prevChapter !in progress.completedChapters {
          return OutOfSequence;
        }
      }
      progress := progress.(completedChapters := progress.completedChapters + [chapterId]);
      records := records[key := progress];
      out := Completed(progress);
    }
  }
}
