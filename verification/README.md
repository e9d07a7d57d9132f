# Course catalogue queries — a Dafny model

This project models the query logic of a small Django course site
(`learning_site/courses`). Learners browse published courses. Each course holds
ordered steps, which are texts and quizzes. Staff manage courses in the admin.
Every view, admin action and template helper covered here is a pure function
over immutable records:

- `Course`: id, title, description, teacher username, `published` flag,
  creation date, workflow `status` (`i`/`r`/`p`) and `is_live`.
- `Step`: a Text or Quiz row with its id, course id and `order` sort key.
- `Db`: the course table plus the step rows. Each kind of step keeps its own
  table order.

The ORM's `filter`, `get`, `order_by`, `annotate`/`aggregate` and `update` are
sequence filters, finds, a stable sort, counts and a bulk map. Http404 and
`DoesNotExist` both become `None`.

Modules (one per source component, plus shared helpers):

| file | module | models |
|---|---|---|
| wrappers.dfy | `Wrappers` | `Option` |
| seqs.dfy | `Seqs` | `Filter` (queryset filter), `FindFirst` (`get`), subsequence, injectivity |
| sorting.dfy | `Sorting` | Python's stable `sorted(…, key=…)` and what characterises it |
| models.dfy | `Models` | records, status codes and defaults, date ordering |
| strings.dfy | `Strings` | `icontains`: ASCII case folding and substring search |
| views.dfy | `Views` | `course_list`, `course_detail`, `text_detail`, `quiz_detail`, `course_by_teacher`, `search` |
| admin.dfy | `Admin` | `make_published`, `YearListFilter.lookups` / `.queryset` |
| course_extras.dfy | `CourseExtras` | `time_estimate`, `nav_courses_list`, `newest_course` |

Some properties rely on primary keys being unique. These lemmas take
`Models.WellFormed(db)` as a precondition. Without that assumption the model
still says which records a lookup may return.

## Model

| member | source | states |
|---|---|---|
| `Models.ParseStatus` | learning_site/courses/migrations/0015_auto_20160918_0225.py:20-23 | a stored status character is accepted exactly when it is one of the three choices `i`, `r`, `p` |
| `Models.StatusRoundTrip` | learning_site/courses/migrations/0015_auto_20160918_0225.py:23 | reading back the character stored for any status yields that status |
| `Models.ParseStatusInverse` | learning_site/courses/migrations/0015_auto_20160918_0225.py:23 | an accepted status character is the one that status is stored as |
| `Models.NewCourse` | learning_site/courses/migrations/0015_auto_20160918_0225.py:15-23 | a newly created course keeps the given fields and takes the defaults: status stored as `i`, `is_live` false |
| `Seqs.Filter` | learning_site/courses/views.py:14-15 | a queryset `filter` keeps exactly the rows satisfying the condition, each as many times as in the input, and never more rows than the input has |
| `Seqs.FindFirst` | learning_site/courses/views.py:25-29 | a queryset `get` returns a matching row, and gives DoesNotExist (None) exactly when no row matches |
| `Sorting.SortBy` | learning_site/courses/views.py:33-34 | `sorted` returns a permutation of its input, non-decreasing in the key |
| `Sorting.SortByStable` | learning_site/courses/views.py:33-34 | `sorted` is stable: for every key value, the elements with that key keep their input order |
| `Sorting.SortByCharacterised` | learning_site/courses/views.py:33-34 | the stable sort is the only sorted arrangement that keeps each key class in input order |
| `Strings.Lower` | learning_site/courses/views.py:194 | lower-casing keeps the length and folds each character independently |
| `Strings.ContainsIgnoringCaseMatchesAt` | learning_site/courses/views.py:194 | `icontains` holds exactly when, at some position of the text, every character of the term matches up to ASCII case |
| `Strings.IsInfix` | learning_site/courses/views.py:194 | substring containment holds exactly when the term occurs at some position of the text |
| `Strings.EmptyTermAlwaysContained` | learning_site/courses/views.py:194 | every text contains the empty term, ignoring case |
| `Strings.ContainsIgnoresTermCase` | learning_site/courses/views.py:194 | lower-casing the term never changes whether a text contains it |
| `Views.PublishedCourses` | learning_site/courses/views.py:14-16 | the result holds exactly the published courses, each as many times as in the table, and keeps their table order |
| `Views.StepsOf` | learning_site/courses/views.py:33 | a course's text (or quiz) set holds exactly the step rows of that kind whose course is that course, each as many times as in the table, in table order |
| `Views.SumSteps` | learning_site/courses/views.py:19 | the `Sum` of non-negative per-course step counts is non-negative and at least each course's count |
| `Views.Annotate` | learning_site/courses/views.py:16-18 | each course is paired with its number of texts plus its number of quizzes |
| `Views.CourseList` | learning_site/courses/views.py:13-20 | the rows are the published courses in order, each annotated with its text and quiz counts; `total` is None exactly when no course is published, otherwise the sum of the annotations |
| `Views.CourseListTotalCountsPublishedSteps` | learning_site/courses/views.py:17-19 | with unique course ids, `total` is the number of step rows that belong to some published course |
| `Views.FindPublishedCourse` | learning_site/courses/views.py:24-29 | the lookup returns a published course with the given key, and returns None exactly when no such course exists |
| `Views.CourseDetail` | learning_site/courses/views.py:23-38 | not found exactly when no published course has the key; otherwise the steps are a permutation of the course's texts followed by its quizzes, are exactly the course's step rows, and are non-decreasing in `order` |
| `Views.CourseDetailTies` | learning_site/courses/views.py:33-34 | among steps with equal `order`, the course's texts come first and then its quizzes, each in table order |
| `Views.CourseDetailStepsCharacterised` | learning_site/courses/views.py:33-34 | any step list sorted by `order` that keeps those tie classes is exactly the detail's step list |
| `Views.CourseDetailIsTheCourse` | learning_site/courses/views.py:25-27 | with unique keys, the detail shows the published course with that key |
| `Views.ScopedStep` | learning_site/courses/views.py:41-55 | a step is returned only if its kind, key and course key match and that course is published; otherwise not found |
| `Views.TextDetail` | learning_site/courses/views.py:41-43 | a text is returned only if its key and course key match and the course is published; not found on any mismatch |
| `Views.QuizDetail` | learning_site/courses/views.py:46-55 | a quiz is returned only if its key and course key match and the course is published; not found on any mismatch |
| `Views.ScopedStepListedInCourseDetail` | learning_site/courses/views.py:23-55 | a step that opens on its own page is listed on its course's detail page |
| `Views.CourseDetailStepsReachable` | learning_site/courses/views.py:23-55 | with unique keys, every step row of a published course is listed on the course's detail page and opens on its own page |
| `Views.CourseByTeacher` | learning_site/courses/views.py:187-189 | the result holds exactly the published courses whose teacher has that username, each as many times as in the table, in table order |
| `Views.TeacherPagesPartitionPublished` | learning_site/courses/views.py:187-188 | a course is on a teacher's page exactly when it is published and that teacher owns it |
| `Views.Search` | learning_site/courses/views.py:191-197 | the result holds exactly the published courses whose title or description contains the term ignoring case, each as many times as in the table, in table order |
| `Views.SearchEmptyTermListsAllPublished` | learning_site/courses/views.py:192-196 | an empty term lists every published course |
| `Views.SearchIgnoresTermCase` | learning_site/courses/views.py:194 | a search for the lower-cased term returns the same courses |
| `Views.SearchExample` | learning_site/courses/views.py:194-196 | "python" finds "Python Basics" by its title and "Uses PYTHON daily" by its description, and skips a course mentioning neither |
| `Admin.MakePublished` | learning_site/courses/admin.py:10-11 | every selected course gets the status stored as `p` and `is_live` true; unselected courses are unchanged; no other field of any course changes |
| `Admin.MakePublishedUnion` | learning_site/courses/admin.py:10-11 | running the action on two selections equals running it once on their union |
| `Admin.MakePublishedIdempotent` | learning_site/courses/admin.py:10-11 | running the action twice on one selection equals running it once |
| `Admin.ParseInt` | learning_site/courses/admin.py:39-40 | `int()` gives a value exactly for a non-empty run of digits, optionally after one `+` or `-`, and refuses every other string; an unsigned run of digits gives its decimal value, a `+` prefix gives the same value as without it, and a `-` prefix gives its negation |
| `Admin.ParseShowRoundTrip` | learning_site/courses/admin.py:33-40 | `int()` reads back every natural written in decimal, with or without a minus sign |
| `Admin.YearLookups` | learning_site/courses/admin.py:31-35 | exactly two choices are offered; each URL value equals its label, and they parse to 2015 and 2016 |
| `Admin.CreatedInMeansYear` | learning_site/courses/admin.py:40-41 | lying between January 1 and December 31 of a year, inclusive, means being created in that year |
| `Admin.YearFilter` | learning_site/courses/admin.py:37-41 | no filter exactly when no value or an empty one is selected; rejection exactly when the value does not parse or the year is outside 1..9999; otherwise exactly the courses created in that year, each as many times as in the input, as a subsequence of the input |
| `Admin.YearLookupsSelectTheirYear` | learning_site/courses/admin.py:31-41 | each offered choice filters to exactly the courses created in its year |
| `CourseExtras.TimeEstimate` | learning_site/courses/templatetags/course_extras.py:25-31 | the estimate is within half a minute of words/20, and goes to the even neighbour on a tie |
| `CourseExtras.TimeEstimateUnique` | learning_site/courses/templatetags/course_extras.py:30 | any whole number of minutes within half a minute of words/20, and even on a tie, is the estimate |
| `CourseExtras.TimeEstimateExamples` | learning_site/courses/templatetags/course_extras.py:30 | 0→0, 10→0, 20→1, 30→2, 50→2, 70→4 |
| `CourseExtras.TimeEstimateMonotone` | learning_site/courses/templatetags/course_extras.py:30 | more words never give fewer minutes |
| `CourseExtras.NewestFirst` | learning_site/courses/templatetags/course_extras.py:21 | the result is a permutation of the published courses, with creation dates never increasing |
| `CourseExtras.NewestPublished` | learning_site/courses/templatetags/course_extras.py:21 | the first five (fewer if fewer exist) of the published courses sorted newest first, so a sub-multiset of the published courses; no omitted published course is newer than an included one |
| `CourseExtras.NavCoursesList` | learning_site/courses/templatetags/course_extras.py:17-22 | at most five entries, the i-th being the (id, title) of the i-th newest published course |
| `CourseExtras.NewestCourse` | learning_site/courses/templatetags/course_extras.py:11-14 | None exactly when nothing is published; otherwise a published course whose creation date no published course exceeds |
| `CourseExtras.NewestCourseHeadsNav` | learning_site/courses/templatetags/course_extras.py:11-22 | the newest course exists exactly when the navigation list is non-empty, and it heads that list |

## Left out

- Authoring views `quiz_create`, `quiz_edit`, `create_question`, `edit_question` and `answer_form` (learning_site/courses/views.py:58-185). They are form validation, sessions, flash messages and redirects, not query logic. They also contain two runtime errors: a `course__published` lookup on `Course` at line 60, and `.non()` at line 106. They are not modelled as intended behaviour.
- `markdown_to_html`: a call into the `markdown2` library.
- Template rendering and the Http404 mechanism: not-found is `None`.
- `prefetch_related` and `select_related`: they change query cost, not results. `quiz_detail` runs its query twice with identical arguments, so it is modelled once.
- Declarative `ModelAdmin` configuration, `Media` and `register` calls: UI wiring.
- Schema migrations: only the status choices and the defaults (`i`, `is_live` false, used by `Models.NewCourse`) are kept.
- `models.py` is not part of this model. Its default orderings for `Course`, `Text` and `Quiz` are unknown, so table order stands in for them.
- Database collation: `icontains` is modelled with ASCII lower-casing. Unicode case folding is left out.
- A missing `q` parameter (`None`): the term is taken as a string.
- Order of the `course_list`, `course_by_teacher` and `search` results: these queries have no `order_by`, so the database decides the order. The model keeps table order.
- Ties in `order_by('-created_at')` and `latest('created_at')`: the database decides among equal dates. The model keeps table order, so `newest_course` is the first such course in table order.
- Timestamps: `created_at` is a date. With timestamps, the year filter's upper bound `date(y, 12, 31)` would drop courses created later on December 31.
- Float division in `time_estimate`: the model uses exact integer rounding. This equals Python 3's result for word counts below 2^53.
- How Django's change list handles a filter's exception: `Rejected` marks the `ValueError` or `OverflowError` and nothing more.
- Admin.ParseInt: accepts only an optional sign followed by ASCII digits. Python's `int()` also accepts surrounding whitespace, `_` between digits and non-ASCII digits; those strings are `Rejected` here.
- CourseExtras.TimeEstimate: defined for natural word counts only. The `wordcount` filter that feeds it never produces a negative number.
