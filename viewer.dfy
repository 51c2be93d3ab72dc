/** The student's course viewer: which chapters are completed or locked, when
    the course counts as completed, the sidebar percentage, and the video id
    taken from a chapter's URL. The viewer works on the chapter list of
    `getChapters` and the completed list of `getCourseProgress`. */
module Viewer {
  import opened Collections
  import opened Records
  import Progression
  import Completion
  import Courses

  /** `isChapterCompleted`. */
  predicate IsChapterCompleted(completed: seq<Id>, chapterId: Id) {
    chapterId in completed
  }

  /** `isChapterLocked`: the first chapter is open; any later one is locked
      while the chapter before it is not completed. */
  predicate IsChapterLocked(chapters: seq<Id>, completed: seq<Id>, index: nat)
    requires index < |chapters|
    ensures index == 0 ==> !IsChapterLocked(chapters, completed, index)
  {
    index != 0 && !IsChapterCompleted(completed, chapters[index - 1])
  }

  /** `isCourseCompleted`: there is at least one chapter and the completed
      list is as long as the chapter list. */
  predicate IsCourseCompleted(chapters: seq<Id>, completed: seq<Id>)
    ensures IsCourseCompleted(chapters, completed) ==> |completed| > 0
  {
    |chapters| > 0 && |completed| == |chapters|
  }

  /** The first chapter is never locked. For a record built by
      `completeChapter` against the same catalog, the viewer shows exactly
      one chapter that is both open and not yet completed: the one right
      after the completed prefix. */
  lemma {:induction false} NextChapterIsTheOnlyOpenOne(ordered: seq<Id>, done: seq<Id>, index: nat)
    requires NoDuplicates(ordered) && Progression.RecordInvariant(ordered, done)
    requires index < |ordered| && ordered[index] !in done
    ensures index == 0 ==> !IsChapterLocked(ordered, done, index)
    ensures !IsChapterLocked(ordered, done, index) <==> index == |done|
  {
    Progression.CompletedIsCatalogPrefix(ordered, done);
    var front := ordered[..|done|];
    forall i | 0 <= i < |done|
      ensures ordered[i] in done
    {
      assert front[i] in Elems(front);
    }
    assert |done| <= index;
    if index > 0 && ordered[index - 1] in done {
      assert ordered[index - 1] in Elems(front);
      var j := IndexOf(front, ordered[index - 1]);
      IndexOfDistinct(ordered, j);
      IndexOfDistinct(ordered, index - 1);
    }
    if index == |done| && index > 0 {
      assert ordered[index - 1] in Elems(front);
      assert ordered[index - 1] in Elems(done);
    }
  }

  /** The percentage in the sidebar. */
  function SidebarPercent(chapters: seq<Id>, completed: seq<Id>): (p: nat)
    ensures |chapters| == 0 ==> p == 0
    ensures |chapters| > 0 ==> p == Completion.Percent(|completed|, |chapters|)
    ensures |completed| <= |chapters| ==> p <= 100
    ensures IsCourseCompleted(chapters, completed) ==> p == 100
  {
    Completion.PercentInRange(|completed|, |chapters|);
    if |chapters| > 0 then Completion.Percent(|completed|, |chapters|) else 0
  }

  /** The viewer's lock is the server's sequence rule: for a chapter not yet
      completed, by a student the server lets through the enrollment gate,
      the viewer shows it unlocked exactly when `completeChapter` would
      record it, and locked exactly when the server answers OutOfSequence. */
  lemma {:induction false} LockMatchesServer(ledger: Progression.Ledger, student: Id, chapters: map<Id, Chapter>,
                                             courses: map<Id, Course>, ordered: seq<Id>, index: nat)
    requires index < |ordered| && ordered[index] in chapters
    requires IsCatalogOrder(ordered, chapters, chapters[ordered[index]].course)
    requires var course := chapters[ordered[index]].course;
      (student, course) in ledger || (course in courses && student in courses[course].students)
    requires ordered[index] !in Progression.CourseProgress(ledger, student, chapters[ordered[index]].course)
    ensures var done := Progression.CourseProgress(ledger, student, chapters[ordered[index]].course);
      var r := Progression.Decide(ledger, student, ordered[index], chapters, courses, ordered);
      && (!IsChapterLocked(ordered, done, index) <==> r.Completed?)
      && (IsChapterLocked(ordered, done, index) <==> r == Progression.OutOfSequence)
  {
    IndexOfDistinct(ordered, index);
  }

  /** The viewer's completion test agrees with the certificate gate: with the
      catalog's chapter list and the progress the server reports (empty when
      there is no record), the course shows completed exactly when a
      certificate may be issued. */
  lemma ViewerCompletionMatchesGate(ledger: Progression.Ledger, student: Id, chapters: map<Id, Chapter>,
                                    course: Id, ordered: seq<Id>)
    requires IsCatalogOrder(ordered, chapters, course)
    ensures IsCourseCompleted(ordered, Progression.CourseProgress(ledger, student, course))
        == Completion.IsComplete(Completion.FindProgress(ledger, student, course), ChapterCount(chapters, course))
  {
    CatalogOrderLength(ordered, chapters, course);
  }

  /** The sidebar shows the same number as the dashboards' progress rows. */
  lemma SidebarMatchesDashboard(ledger: Progression.Ledger, student: Id, chapters: map<Id, Chapter>,
                                course: Id, ordered: seq<Id>)
    requires IsCatalogOrder(ordered, chapters, course)
    ensures SidebarPercent(ordered, Progression.CourseProgress(ledger, student, course))
         == Courses.ProgressSummary(ledger, student, course, ChapterCount(chapters, course)).progress
  {
    CatalogOrderLength(ordered, chapters, course);
  }

  /** `getYouTubeId`. `capture` is the second group of the URL pattern's
      match against `url`, or None when the pattern does not match. A
      missing or empty URL gives None; otherwise the capture is the id when
      it is 11 characters long. */
  function YouTubeId(url: Option<string>, capture: Option<string>): (r: Option<string>)
    ensures url.None? || url == Some("") ==> r.None?
    ensures r.Some? ==> |r.value| == 11 && capture == r
    ensures url.Some? && url != Some("") && capture.Some? && |capture.value| == 11 ==> r == capture
  {
    if url.None? || url.value == "" then None
    else if capture.Some? && |capture.value| == 11 then capture
    else None
  }
}
