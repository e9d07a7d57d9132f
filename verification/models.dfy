/** The records the views, admin and template helpers work on: the Course
    table, the Text and Quiz step tables, and the dates they are ordered by. */
module Models {
  import opened Wrappers

  /** The workflow status stored as one character: 'i' in progress,
      'r' in review, 'p' published. */
  datatype Status = InProgress | InReview | Published

  function StatusCode(s: Status): char
  {
    match s
    case InProgress => 'i'
    case InReview => 'r'
    case Published => 'p'
  }

  /** Reads a stored status character; anything outside the three choices is refused. */
  function ParseStatus(c: char): (r: Option<Status>)
    ensures r.Some? <==> c in {'i', 'r', 'p'}
  {
    if c == 'i' then Some(InProgress)
    else if c == 'r' then Some(InReview)
    else if c == 'p' then Some(Published)
    else None
  }

  lemma StatusRoundTrip(s: Status)
    ensures ParseStatus(StatusCode(s)) == Some(s)
  {
  }

  lemma ParseStatusInverse(c: char)
    ensures ParseStatus(c).Some? ==> StatusCode(ParseStatus(c).value) == c
  {
  }

  /** Field defaults of a freshly created course. */
  const DefaultStatus: Status := InProgress
  const DefaultIsLive: bool := false

  /** A course as first saved: the workflow fields take their defaults. */
  function NewCourse(id: int, title: string, description: string, teacher: string,
                     published: bool, createdAt: Date): (c: Course)
    ensures c.id == id && c.title == title && c.description == description
    ensures c.teacher == teacher && c.published == published && c.createdAt == createdAt
    ensures StatusCode(c.status) == 'i' && !c.isLive
  {
    Course(id, title, description, teacher, published, createdAt, DefaultStatus, DefaultIsLive)
  }

  type Month = m: int | 1 <= m <= 12 witness 1
  type Day = d: int | 1 <= d <= 31 witness 1

  /** A calendar date; `created_at` is treated as a date. */
  datatype Date = Date(year: int, month: Month, day: Day)

  /** The database's ordering of dates: year, then month, then day. */
  predicate DateLe(a: Date, b: Date)
  {
    a.year < b.year
    || (a.year == b.year && a.month < b.month)
    || (a.year == b.year && a.month == b.month && a.day <= b.day)
  }

  /** A day number that orders dates like `DateLe` does (months counted as 31 days). */
  function Ordinal(d: Date): int
  {
    d.year * 372 + (d.month - 1) * 31 + (d.day - 1)
  }

  lemma OrdinalOrdersDates(a: Date, b: Date)
    ensures DateLe(a, b) <==> Ordinal(a) <= Ordinal(b)
  {
    if a.year < b.year {
      assert Ordinal(a) < a.year * 372 + 372 <= Ordinal(b);
    } else if b.year < a.year {
      assert Ordinal(b) < b.year * 372 + 372 <= Ordinal(a);
    }
  }

  datatype Course = Course(
    id: int,
    title: string,
    description: string,
    teacher: string,      // the teacher's username
    published: bool,
    createdAt: Date,
    status: Status,
    isLive: bool)

  datatype StepKind = TextStep | QuizStep

  /** A Text or a Quiz row: both belong to one course and carry a sort key `order`. */
  datatype Step = Step(id: int, courseId: int, order: int, kind: StepKind)

  /** The tables the public views read. Text and Quiz rows share one sequence,
      told apart by `kind`; each kind keeps its own table order. */
  datatype Db = Db(courses: seq<Course>, steps: seq<Step>)

  function CourseId(c: Course): int { c.id }

  /** A step's identity: its table and its primary key. */
  function StepKey(s: Step): (StepKind, int) { (s.kind, s.id) }

  /** Primary keys are unique in each table. */
  predicate WellFormed(db: Db)
  {
    && (forall i, j :: 0 <= i < |db.courses| && 0 <= j < |db.courses| && db.courses[i].id == db.courses[j].id ==> i == j)
    && (forall i, j :: 0 <= i < |db.steps| && 0 <= j < |db.steps| && StepKey(db.steps[i]) == StepKey(db.steps[j]) ==> i == j)
  }

}
