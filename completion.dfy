/** Completion arithmetic and the certificate gate: the progress percentage
    shown on the dashboards and the eligibility test that must pass before a
    certificate is produced. */
module Completion {
  import opened Collections
  import opened Records
  import Progression

  /** `Math.round(completed / total * 100)` with 0 for an empty course,
      computed exactly: the integer nearest to 100 * completed / total, a
      half rounding up. */
  function Percent(completed: nat, total: nat): (p: nat)
    ensures total == 0 ==> p == 0
    ensures total > 0 ==> 2 * total * p <= 200 * completed + total < 2 * total * (p + 1)
  {
    if total == 0 then 0 else (200 * completed + total) / (2 * total)
  }

  /** Multiplying by the same factor keeps an order. */
  lemma MulMono(a: nat, x: nat, y: nat)
    requires x <= y
    ensures a * x <= a * y
  {
    assert a * y == a * x + a * (y - x);
  }

  /** A strict order between two multiples of the same factor is an order
      between the multiplied numbers. */
  lemma MulCancel(a: nat, x: nat, y: nat)
    requires a * x < a * y
    ensures x < y
  {
    if y <= x {
      MulMono(a, y, x);
    }
  }

  /** While the completed count does not exceed the total, the percentage
      lies in 0..100; it reaches 100 when everything is completed. */
  lemma PercentInRange(completed: nat, total: nat)
    ensures completed <= total ==> Percent(completed, total) <= 100
    ensures 0 < total && completed == total ==> Percent(completed, total) == 100
  {
    if 0 < total && completed <= total {
      var p := Percent(completed, total);
      var a := 2 * total;
      assert a * p <= 200 * completed + total < a * (p + 1);
      MulMono(200, completed, total);
      assert a * 101 == 200 * total + a;
      MulCancel(a, p, 101);
      if completed == total {
        assert a * 100 == 200 * completed;
        MulCancel(a, 100, p + 1);
      }
    }
  }

  /** More completed chapters never show a smaller percentage. */
  lemma PercentMonotone(c1: nat, c2: nat, total: nat)
    requires c1 <= c2
    ensures Percent(c1, total) <= Percent(c2, total)
  {
    if total > 0 {
      var p1, p2 := Percent(c1, total), Percent(c2, total);
      var a := 2 * total;
      MulMono(200, c1, c2);
      assert a * p1 <= 200 * c1 + total <= 200 * c2 + total < a * (p2 + 1);
      MulCancel(a, p1, p2 + 1);
    }
  }

  /** Worked values: 3 of 4 is 75, an empty course is 0, a half rounds up
      (12.5 shows 13) and 199 of 200 already shows 100. */
  lemma PercentExamples()
    ensures Percent(3, 4) == 75
    ensures Percent(0, 0) == 0
    ensures Percent(1, 8) == 13
    ensures Percent(199, 200) == 100
  {
  }

  /** The completion test: a progress record exists, its completed list is
      as long as the course has chapters, and the course has chapters. It
      compares lengths only. */
  predicate IsComplete(progress: Option<Progress>, chapterCount: nat)
    ensures IsComplete(progress, chapterCount) ==> progress.Some? && chapterCount > 0
  {
    progress.Some? && |progress.value.completedChapters| == chapterCount && chapterCount > 0
  }

  /** The student's record for a course, if any (`Progress.findOne`). */
  function FindProgress(ledger: Progression.Ledger, student: Id, course: Id): (r: Option<Progress>)
    ensures r.Some? <==> (student, course) in ledger
    ensures r.Some? ==> r.value == ledger[(student, course)]
  {
    if (student, course) in ledger then Some(ledger[(student, course)]) else None
  }

  /** The gate depends on the record only through its length: two records
      with equally long lists are judged alike, and an empty course or a
      missing record is never complete. */
  lemma GateUsesCountsOnly(p: Progress, q: Progress, chapterCount: nat)
    requires |p.completedChapters| == |q.completedChapters|
    ensures IsComplete(Some(p), chapterCount) == IsComplete(Some(q), chapterCount)
    ensures !IsComplete(Some(p), 0) && !IsComplete(None, chapterCount)
  {
  }

  datatype CertificateOutcome =
    | CourseNotFound                                 // 404
    | NotComplete                                    // 400, nothing rendered
    | Certificate(studentName: string, courseTitle: string)  // rendering goes ahead

  /** `generateCertificate` up to the point where rendering starts: the
      course must exist, then the completion test must pass. */
  function GenerateCertificate(courses: map<Id, Course>, chapters: map<Id, Chapter>,
                               ledger: Progression.Ledger, student: User, courseId: Id): (r: CertificateOutcome)
    ensures courseId !in courses <==> r == CourseNotFound
    ensures r.Certificate? <==>
      courseId in courses && IsComplete(FindProgress(ledger, student.id, courseId), ChapterCount(chapters, courseId))
    ensures r.Certificate? ==> r.studentName == student.name && r.courseTitle == courses[courseId].title
  {
    if courseId !in courses then CourseNotFound
    else if !IsComplete(FindProgress(ledger, student.id, courseId), ChapterCount(chapters, courseId)) then NotComplete
    else Certificate(student.name, courses[courseId].title)
  }

  /** A percentage of 100 does not mean the course is complete: 199 of 200
      chapters shows 100 and fails the gate. */
  lemma HundredIsNotCompletion(p: Progress)
    requires |p.completedChapters| == 199
    ensures Percent(|p.completedChapters|, 200) == 100 && !IsComplete(Some(p), 200)
  {
    PercentExamples();
  }

  /** A complete course shows 100 percent. */
  lemma CompleteShowsHundred(progress: Option<Progress>, chapterCount: nat)
    requires IsComplete(progress, chapterCount)
    ensures Percent(|progress.value.completedChapters|, chapterCount) == 100
  {
    PercentInRange(chapterCount, chapterCount);
  }

  /** Comparing lengths is enough while the record keeps the progression
      invariant against the current catalog: a record that passes the gate
      holds every chapter of the course. */
  lemma {:induction false} GateImpliesAllChaptersDone(chapters: map<Id, Chapter>, course: Id,
                                                      ordered: seq<Id>, progress: Progress)
    requires IsCatalogOrder(ordered, chapters, course)
    requires Progression.RecordInvariant(ordered, progress.completedChapters)
    requires IsComplete(Some(progress), ChapterCount(chapters, course))
    ensures forall id :: id in chapters && chapters[id].course == course ==> id in progress.completedChapters
  {
    var done := progress.completedChapters;
    CatalogOrderLength(ordered, chapters, course);
    SameSizeSubsetIsEqual(done, ordered);
    forall id | id in chapters && chapters[id].course == course
      ensures id in done
    {
      assert id in Elems(ordered);
    }
  }

  /** The converse: a record that keeps the invariant and holds every
      chapter of a non-empty course passes the gate. */
  lemma {:induction false} AllChaptersDoneImpliesGate(chapters: map<Id, Chapter>, course: Id,
                                                      ordered: seq<Id>, progress: Progress)
    requires IsCatalogOrder(ordered, chapters, course)
    requires Progression.RecordInvariant(ordered, progress.completedChapters)
    requires ChapterCount(chapters, course) > 0
    requires forall id :: id in chapters && chapters[id].course == course ==> id in progress.completedChapters
    ensures IsComplete(Some(progress), ChapterCount(chapters, course))
  {
    var done := progress.completedChapters;
    CatalogOrderLength(ordered, chapters, course);
    assert Elems(done) == Elems(ordered);
    ElemsCard(done);
    ElemsCard(ordered);
  }

  /** Finishing a course earns the certificate: once the student's stored
      record holds every chapter of an existing, non-empty course,
      `generateCertificate` goes ahead. */
  lemma FinishingEarnsCertificate(courses: map<Id, Course>, chapters: map<Id, Chapter>,
                                  ledger: Progression.Ledger, student: User, courseId: Id, ordered: seq<Id>)
    requires courseId in courses && (student.id, courseId) in ledger
    requires IsCatalogOrder(ordered, chapters, courseId)
    requires Progression.RecordInvariant(ordered, ledger[(student.id, courseId)].completedChapters)
    requires ChapterCount(chapters, courseId) > 0
    requires forall id :: id in chapters && chapters[id].course == courseId ==>
      id in ledger[(student.id, courseId)].completedChapters
    ensures GenerateCertificate(courses, chapters, ledger, student, courseId).Certificate?
  {
    AllChaptersDoneImpliesGate(chapters, courseId, ordered, ledger[(student.id, courseId)]);
  }
}
