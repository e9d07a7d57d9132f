/** The public read-only views: the course list, a course's ordered steps,
    single text and quiz steps, the per-teacher list and search. Each view is
    the query it runs, with Http404 returned as `None`. */
module Views {
  import opened Wrappers
  import opened Seqs
  import opened Sorting
  import opened Models
  import opened Strings

  predicate IsPublished(c: Course) { c.published }

  /** `Course.objects.filter(published=True)`: the courses learners may see. */
  function PublishedCourses(cs: seq<Course>): (r: seq<Course>)
    ensures forall c :: c in r <==> c in cs && c.published
    ensures forall c :: multiset(r)[c] == if c.published then multiset(cs)[c] else 0
    ensures IsSubsequence(r, cs)
  {
    FilterIsSubsequence(cs, IsPublished);
    Filter(cs, IsPublished)
  }

  /** A course's rows of one step table (`course.text_set` / `course.quiz_set`),
      in table order. */
  function StepsOf(steps: seq<Step>, kind: StepKind, courseId: int): (r: seq<Step>)
    ensures forall s :: s in r <==> s in steps && s.kind == kind && s.courseId == courseId
    ensures forall s :: multiset(r)[s] == if s.kind == kind && s.courseId == courseId then multiset(steps)[s] else 0
    ensures IsSubsequence(r, steps)
  {
    FilterIsSubsequence(steps, (s: Step) => s.kind == kind && s.courseId == courseId);
    Filter(steps, (s: Step) => s.kind == kind && s.courseId == courseId)
  }

  function TextsOf(steps: seq<Step>, courseId: int): seq<Step> { StepsOf(steps, TextStep, courseId) }
  function QuizzesOf(steps: seq<Step>, courseId: int): seq<Step> { StepsOf(steps, QuizStep, courseId) }

  // ---------------------------------------------------------------- course_list

  /** A listed course with its `total_steps` annotation. */
  datatype CourseRow = CourseRow(course: Course, totalSteps: int)

  /** What `course_list` renders: the annotated courses and the aggregate
      `total`, which the database reports as None when nothing is summed. */
  datatype CourseListing = CourseListing(rows: seq<CourseRow>, total: Option<int>)

  /** `Count('text', distinct=True) + Count('quiz', distinct=True)` for each course. */
  function Annotate(steps: seq<Step>, cs: seq<Course>): (r: seq<CourseRow>)
    ensures |r| == |cs|
    ensures forall i :: 0 <= i < |cs| ==>
      r[i].course == cs[i] && r[i].totalSteps == |TextsOf(steps, cs[i].id)| + |QuizzesOf(steps, cs[i].id)|
  {
    if |cs| == 0 then []
    else [CourseRow(cs[0], |TextsOf(steps, cs[0].id)| + |QuizzesOf(steps, cs[0].id)|)] + Annotate(steps, cs[1..])
  }

  /** `Sum('total_steps')` over a non-empty list. */
  function SumSteps(rows: seq<CourseRow>): (r: int)
    ensures (forall i :: 0 <= i < |rows| ==> rows[i].totalSteps >= 0) ==>
      r >= 0 && forall i :: 0 <= i < |rows| ==> rows[i].totalSteps <= r
  {
    if |rows| == 0 then 0 else rows[0].totalSteps + SumSteps(rows[1..])
  }

  function CourseList(db: Db): (r: CourseListing)
    ensures |r.rows| == |PublishedCourses(db.courses)|
    ensures forall i :: 0 <= i < |r.rows| ==> r.rows[i].course == PublishedCourses(db.courses)[i]
    ensures forall i :: 0 <= i < |r.rows| ==>
      r.rows[i].totalSteps == |TextsOf(db.steps, r.rows[i].course.id)| + |QuizzesOf(db.steps, r.rows[i].course.id)|
    ensures r.total.None? <==> forall c :: c in db.courses ==> !c.published
    ensures r.total.Some? ==> r.total.value == SumSteps(r.rows)
  {
    var rows := Annotate(db.steps, PublishedCourses(db.courses));
    assert forall c :: c in db.courses && c.published ==> c in PublishedCourses(db.courses);
    CourseListing(rows, if |rows| == 0 then None else Some(SumSteps(rows)))
  }

  /** The number of step rows (texts and quizzes) belonging to a course in `ids`. */
  function CountStepsIn(steps: seq<Step>, ids: set<int>): nat
  {
    if |steps| == 0 then 0
    else (if steps[0].courseId in ids then 1 else 0) + CountStepsIn(steps[1..], ids)
  }

  function IdsOf(cs: seq<Course>): set<int>
  {
    set c | c in cs :: c.id
  }

  lemma {:induction false} CountOneCourse(steps: seq<Step>, id: int)
    ensures CountStepsIn(steps, {id}) == |TextsOf(steps, id)| + |QuizzesOf(steps, id)|
  {
    if |steps| > 0 {
      CountOneCourse(steps[1..], id);
    }
  }

  lemma {:induction false} CountSplit(steps: seq<Step>, id: int, ids: set<int>)
    requires id !in ids
    ensures CountStepsIn(steps, {id} + ids) == CountStepsIn(steps, {id}) + CountStepsIn(steps, ids)
  {
    if |steps| > 0 {
      CountSplit(steps[1..], id, ids);
    }
  }

  lemma {:induction false} CountNoCourse(steps: seq<Step>)
    ensures CountStepsIn(steps, {}) == 0
  {
    if |steps| > 0 {
      CountNoCourse(steps[1..]);
    }
  }

  lemma {:induction false} SumCountsSteps(steps: seq<Step>, cs: seq<Course>)
    requires Injective(cs, CourseId)
    ensures SumSteps(Annotate(steps, cs)) == CountStepsIn(steps, IdsOf(cs))
  {
    if |cs| > 0 {
      var rest := cs[1..];
      InjectiveTail(cs, CourseId);
      assert cs[0].id !in IdsOf(rest);
      SumCountsSteps(steps, rest);
      assert IdsOf(cs) == {cs[0].id} + IdsOf(rest) by {
        assert cs == [cs[0]] + rest;
      }
      CountSplit(steps, cs[0].id, IdsOf(rest));
      CountOneCourse(steps, cs[0].id);
      assert Annotate(steps, cs)[1..] == Annotate(steps, rest);
    } else {
      assert IdsOf(cs) == {};
      CountNoCourse(steps);
    }
  }

  /** The aggregate `total` is the number of texts and quizzes that belong to a
      published course: every step is counted once, under its own course. */
  lemma CourseListTotalCountsPublishedSteps(db: Db)
    requires WellFormed(db)
    requires exists c :: c in db.courses && c.published
    ensures CourseList(db).total == Some(CountStepsIn(db.steps, set c | c in db.courses && c.published :: c.id))
  {
    var pub := PublishedCourses(db.courses);
    assert Injective(db.courses, CourseId);
    FilterKeepsInjective(db.courses, IsPublished, CourseId);
    SumCountsSteps(db.steps, pub);
    var c0 :| c0 in db.courses && c0.published;
    assert c0 in pub;
    assert CourseList(db).total == Some(SumSteps(Annotate(db.steps, pub)));
    PublishedIds(db.courses);
  }

  lemma PublishedIds(cs: seq<Course>)
    ensures IdsOf(PublishedCourses(cs)) == set c | c in cs && c.published :: c.id
  {
    var pub := PublishedCourses(cs);
    assert forall c :: c in pub <==> c in cs && c.published;
  }

  // ---------------------------------------------------------------- course_detail

  /** `Course.objects.get(pk=pk, published=True)`, with DoesNotExist as None. */
  function FindPublishedCourse(cs: seq<Course>, pk: int): (r: Option<Course>)
    ensures r.Some? ==> r.value in cs && r.value.id == pk && r.value.published
    ensures r.None? <==> forall c :: c in cs ==> !(c.id == pk && c.published)
  {
    FindFirst(cs, (c: Course) => c.id == pk && c.published)
  }

  function OrderOf(s: Step): int { s.order }

  datatype Detail = Detail(course: Course, steps: seq<Step>)

  lemma MergedStepsOfCourse(steps: seq<Step>, pk: int)
    ensures forall s :: s in TextsOf(steps, pk) + QuizzesOf(steps, pk) <==> s in steps && s.courseId == pk
  {
  }

  /** The course's texts followed by its quizzes, stably sorted by `order`. */
  function CourseDetail(db: Db, pk: int): (r: Option<Detail>)
    ensures r.None? <==> forall c :: c in db.courses ==> !(c.id == pk && c.published)
    ensures r.Some? ==> r.value.course in db.courses && r.value.course.id == pk && r.value.course.published
    ensures r.Some? ==>
      multiset(r.value.steps) == multiset(TextsOf(db.steps, pk) + QuizzesOf(db.steps, pk))
    ensures r.Some? ==> forall s :: s in r.value.steps <==> s in db.steps && s.courseId == pk
    ensures r.Some? ==>
      forall i, j :: 0 <= i < j < |r.value.steps| ==> r.value.steps[i].order <= r.value.steps[j].order
  {
    match FindPublishedCourse(db.courses, pk)
    case None => None
    case Some(course) =>
      var merged := TextsOf(db.steps, pk) + QuizzesOf(db.steps, pk);
      var sorted := SortBy(merged, OrderOf);
      PermutationKeepsMembers(sorted, merged);
      MergedStepsOfCourse(db.steps, pk);
      Some(Detail(course, sorted))
  }

  /** Stability: among steps with the same `order`, the course's texts come
      first, then its quizzes, each in table order. */
  lemma CourseDetailTies(db: Db, pk: int, k: int)
    requires CourseDetail(db, pk).Some?
    ensures WithKey(CourseDetail(db, pk).value.steps, OrderOf, k)
      == WithKey(TextsOf(db.steps, pk), OrderOf, k) + WithKey(QuizzesOf(db.steps, pk), OrderOf, k)
  {
    SortByStable(TextsOf(db.steps, pk) + QuizzesOf(db.steps, pk), OrderOf, k);
    WithKeyConcat(TextsOf(db.steps, pk), QuizzesOf(db.steps, pk), OrderOf, k);
  }

  /** The detail's steps are the only arrangement that is sorted by `order` and
      puts texts before quizzes on ties, each kind in table order. */
  lemma CourseDetailStepsCharacterised(db: Db, pk: int, steps: seq<Step>)
    requires exists c :: c in db.courses && c.id == pk && c.published
    requires SortedBy(steps, OrderOf)
    requires forall k :: WithKey(steps, OrderOf, k) ==
                         WithKey(TextsOf(db.steps, pk), OrderOf, k) + WithKey(QuizzesOf(db.steps, pk), OrderOf, k)
    ensures steps == CourseDetail(db, pk).value.steps
  {
    var merged := TextsOf(db.steps, pk) + QuizzesOf(db.steps, pk);
    forall k ensures WithKey(steps, OrderOf, k) == WithKey(merged, OrderOf, k) {
      WithKeyConcat(TextsOf(db.steps, pk), QuizzesOf(db.steps, pk), OrderOf, k);
    }
    SortByCharacterised(merged, OrderOf, steps);
  }

  /** With unique keys, the detail shows the one published course with that key. */
  lemma CourseDetailIsTheCourse(db: Db, pk: int, c: Course)
    requires WellFormed(db)
    requires c in db.courses && c.id == pk && c.published
    ensures CourseDetail(db, pk).Some? && CourseDetail(db, pk).value.course == c
  {
    var d := CourseDetail(db, pk).value.course;
    var i :| 0 <= i < |db.courses| && db.courses[i] == c;
    var j :| 0 <= j < |db.courses| && db.courses[j] == d;
  }

  // ---------------------------------------------------------------- text_detail / quiz_detail

  /** A step of the given table with key `stepPk`, belonging to course `coursePk`,
      that course being published; None (404) on any mismatch. */
  function ScopedStep(db: Db, kind: StepKind, coursePk: int, stepPk: int): (r: Option<Step>)
    ensures r.Some? ==>
      && r.value in db.steps && r.value.kind == kind
      && r.value.courseId == coursePk && r.value.id == stepPk
      && exists c :: c in db.courses && c.id == coursePk && c.published
    ensures r.None? <==>
      || (forall c :: c in db.courses ==> !(c.id == coursePk && c.published))
      || (forall s :: s in db.steps ==> !(s.kind == kind && s.courseId == coursePk && s.id == stepPk))
  {
    match FindPublishedCourse(db.courses, coursePk)
    case None => None
    case Some(_) => FindFirst(db.steps, (s: Step) => s.kind == kind && s.courseId == coursePk && s.id == stepPk)
  }

  function TextDetail(db: Db, coursePk: int, stepPk: int): (r: Option<Step>)
    ensures r.Some? ==>
      && r.value in db.steps && r.value.kind == TextStep
      && r.value.courseId == coursePk && r.value.id == stepPk
      && FindPublishedCourse(db.courses, coursePk).Some?
    ensures r.None? <==>
      || (forall c :: c in db.courses ==> !(c.id == coursePk && c.published))
      || (forall s :: s in db.steps ==> !(s.kind == TextStep && s.courseId == coursePk && s.id == stepPk))
  {
    ScopedStep(db, TextStep, coursePk, stepPk)
  }

  function QuizDetail(db: Db, coursePk: int, stepPk: int): (r: Option<Step>)
    ensures r.Some? ==>
      && r.value in db.steps && r.value.kind == QuizStep
      && r.value.courseId == coursePk && r.value.id == stepPk
      && FindPublishedCourse(db.courses, coursePk).Some?
    ensures r.None? <==>
      || (forall c :: c in db.courses ==> !(c.id == coursePk && c.published))
      || (forall s :: s in db.steps ==> !(s.kind == QuizStep && s.courseId == coursePk && s.id == stepPk))
  {
    ScopedStep(db, QuizStep, coursePk, stepPk)
  }

  /** A step reachable by its own page is listed on its course's page ... */
  lemma ScopedStepListedInCourseDetail(db: Db, kind: StepKind, coursePk: int, stepPk: int)
    requires ScopedStep(db, kind, coursePk, stepPk).Some?
    ensures CourseDetail(db, coursePk).Some?
    ensures ScopedStep(db, kind, coursePk, stepPk).value in CourseDetail(db, coursePk).value.steps
  {
  }

  /** ... and, with unique keys, every step of a published course is listed on
      the course's page and opens on its own page. */
  lemma CourseDetailStepsReachable(db: Db, coursePk: int, s: Step)
    requires WellFormed(db)
    requires exists c :: c in db.courses && c.id == coursePk && c.published
    requires s in db.steps && s.courseId == coursePk
    ensures CourseDetail(db, coursePk).Some? && s in CourseDetail(db, coursePk).value.steps
    ensures ScopedStep(db, s.kind, coursePk, s.id) == Some(s)
  {
    var t := ScopedStep(db, s.kind, coursePk, s.id).value;
    var i :| 0 <= i < |db.steps| && db.steps[i] == s;
    var j :| 0 <= j < |db.steps| && db.steps[j] == t;
    assert StepKey(db.steps[i]) == StepKey(db.steps[j]);
  }

  // ---------------------------------------------------------------- course_by_teacher / search

  /** `Course.objects.filter(teacher__username=teacher, published=True)`. */
  function CourseByTeacher(cs: seq<Course>, teacher: string): (r: seq<Course>)
    ensures forall c :: c in r <==> c in cs && c.published && c.teacher == teacher
    ensures forall c :: multiset(r)[c] == if c.published && c.teacher == teacher then multiset(cs)[c] else 0
    ensures IsSubsequence(r, cs)
  {
    var p := (c: Course) => c.published && c.teacher == teacher;
    FilterIsSubsequence(cs, p);
    Filter(cs, p)
  }

  /** Every published course is on exactly its own teacher's page. */
  lemma TeacherPagesPartitionPublished(cs: seq<Course>, c: Course, teacher: string)
    ensures c in CourseByTeacher(cs, teacher) <==> c in PublishedCourses(cs) && c.teacher == teacher
  {
  }

  /** The `search` predicate: title or description contains the term, ignoring case. */
  predicate MatchesTerm(c: Course, term: string)
  {
    ContainsIgnoringCase(c.title, term) || ContainsIgnoringCase(c.description, term)
  }

  /** `filter(Q(title__icontains=term) | Q(description__icontains=term), published=True)`. */
  function Search(cs: seq<Course>, term: string): (r: seq<Course>)
    ensures forall c :: c in r <==> c in cs && c.published && MatchesTerm(c, term)
    ensures forall c :: multiset(r)[c] == if c.published && MatchesTerm(c, term) then multiset(cs)[c] else 0
    ensures IsSubsequence(r, cs)
  {
    var p := (c: Course) => c.published && MatchesTerm(c, term);
    FilterIsSubsequence(cs, p);
    Filter(cs, p)
  }

  /** An empty term matches every title, so it lists every published course. */
  lemma SearchEmptyTermListsAllPublished(cs: seq<Course>)
    ensures Search(cs, "") == PublishedCourses(cs)
  {
    forall c: Course ensures (c.published && MatchesTerm(c, "")) == IsPublished(c) {
      EmptyTermAlwaysContained(c.title);
    }
    FilterExt(cs, (c: Course) => c.published && MatchesTerm(c, ""), IsPublished);
  }

  /** The case of the term does not matter. */
  lemma SearchIgnoresTermCase(cs: seq<Course>, term: string)
    ensures Search(cs, Lower(term)) == Search(cs, term)
  {
    forall c: Course ensures MatchesTerm(c, Lower(term)) == MatchesTerm(c, term) {
      ContainsIgnoresTermCase(c.title, term);
      ContainsIgnoresTermCase(c.description, term);
    }
    FilterExt(cs, (c: Course) => c.published && MatchesTerm(c, Lower(term)),
                  (c: Course) => c.published && MatchesTerm(c, term));
  }

  /** A term is found in a title and in a description regardless of case,
      and a course mentioning it in neither is left out. */
  lemma SearchExample(cs: seq<Course>, basics: Course, web: Course, go: Course)
    requires basics in cs && basics.published && basics.title == "Python Basics"
    requires web in cs && web.published && web.description == "Uses PYTHON daily"
    requires go.title == "Go" && go.description == "Fast"
    ensures basics in Search(cs, "python")
    ensures web in Search(cs, "python")
    ensures go !in Search(cs, "python")
  {
    TitleExample(basics.title);
    DescriptionExample(web.description);
    ShortTextExample(go.title, "python");
    ShortTextExample(go.description, "python");
  }

}
