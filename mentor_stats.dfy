/** The figures on a mentor's dashboard: how many courses the mentor has and
    how many different students are enrolled across them. */
module MentorStats {
  import opened Collections
  import opened Records

  /** `courses.flatMap(c => c.students)`. */
  function AllStudents(courses: seq<Course>): (r: seq<Id>)
    ensures |r| == TotalEnrollments(courses)
    ensures forall s :: s in r <==> exists c :: c in courses && s in c.students
  {
    if |courses| == 0 then []
    else
      var rest := AllStudents(courses[1..]);
      assert forall c :: c in courses[1..] ==> c in courses;
      courses[0].students + rest
  }

  /** The sum of the enrollment list lengths. */
  function TotalEnrollments(courses: seq<Course>): nat {
    if |courses| == 0 then 0 else |courses[0].students| + TotalEnrollments(courses[1..])
  }

  datatype Stats = Stats(totalCourses: nat, uniqueStudents: nat)

  /** `MentorStats`: the number of courses and `new Set(allStudents).size`.
      A student enrolled in several courses is counted once, so the count
      lies between the largest single enrollment and the sum of them. */
  function MentorStats(courses: seq<Course>): (r: Stats)
    ensures r.totalCourses == |courses|
    ensures r.uniqueStudents == |Elems(AllStudents(courses))|
    ensures r.uniqueStudents <= TotalEnrollments(courses)
    ensures forall c :: c in courses ==> |Elems(c.students)| <= r.uniqueStudents
    ensures forall c :: c in courses && NoDuplicates(c.students) ==> |c.students| <= r.uniqueStudents
    ensures courses == [] ==> r.uniqueStudents == 0
  {
    var all := AllStudents(courses);
    ElemsCard(all);
    EachCourseCounted(courses);
    Stats(|courses|, |Elems(all)|)
  }

  /** Every course's distinct students are among the distinct students of
      all courses. */
  lemma EachCourseCounted(courses: seq<Course>)
    ensures forall c :: c in courses ==> |Elems(c.students)| <= |Elems(AllStudents(courses))|
    ensures forall c :: c in courses && NoDuplicates(c.students) ==> |c.students| <= |Elems(AllStudents(courses))|
  {
    forall c | c in courses
      ensures |Elems(c.students)| <= |Elems(AllStudents(courses))|
      ensures NoDuplicates(c.students) ==> |c.students| <= |Elems(AllStudents(courses))|
    {
      var whole := Elems(AllStudents(courses));
      assert Elems(c.students) <= whole;
      assert whole == Elems(c.students) + (whole - Elems(c.students));
      ElemsCard(c.students);
    }
  }

  /** One student in two courses counts once; no courses count nobody. */
  lemma SharedStudentCountedOnce(s: Id)
    ensures MentorStats([Course("a", "", "", 1, [s]), Course("b", "", "", 1, [s])]).uniqueStudents == 1
    ensures MentorStats([]) == Stats(0, 0)
  {
    var cs := [Course("a", "", "", 1, [s]), Course("b", "", "", 1, [s])];
    assert AllStudents(cs) == [s, s];
    assert Elems([s, s]) == {s};
  }
}
