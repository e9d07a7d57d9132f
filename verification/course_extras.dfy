/** The template helpers: reading-time estimate, the navigation list of newest
    courses, and the newest course. */
module CourseExtras {
  import opened Wrappers
  import opened Seqs
  import opened Sorting
  import opened Models
  import opened Views

  // ---------------------------------------------------------------- time_estimate

  /** `round(word_count / 20)`: minutes at 20 words a minute, rounded to the
      nearest integer, halves going to the even neighbour as Python 3's
      `round` does. */
  function TimeEstimate(wordCount: nat): (minutes: nat)
    ensures 20 * minutes - 10 <= wordCount <= 20 * minutes + 10
    ensures wordCount == 20 * minutes - 10 || wordCount == 20 * minutes + 10 ==> minutes % 2 == 0
  {
    var q, rem := wordCount / 20, wordCount % 20;
    if rem < 10 then q
    else if rem > 10 then q + 1
    else if q % 2 == 0 then q
    else q + 1
  }

  /** Round-half-to-even has exactly one answer: any count of minutes within
      half a minute of the exact quotient, even on a tie, is the estimate. */
  lemma TimeEstimateUnique(wordCount: nat, n: int)
    requires 20 * n - 10 <= wordCount <= 20 * n + 10
    requires wordCount == 20 * n - 10 || wordCount == 20 * n + 10 ==> n % 2 == 0
    ensures n == TimeEstimate(wordCount)
  {
  }

  lemma TimeEstimateExamples()
    ensures TimeEstimate(0) == 0
    ensures TimeEstimate(10) == 0
    ensures TimeEstimate(20) == 1
    ensures TimeEstimate(30) == 2
    ensures TimeEstimate(50) == 2
    ensures TimeEstimate(70) == 4
  {
  }

  /** More words never give fewer minutes. */
  lemma TimeEstimateMonotone(w1: nat, w2: nat)
    requires w1 <= w2
    ensures TimeEstimate(w1) <= TimeEstimate(w2)
  {
  }

  // ---------------------------------------------------------------- newest courses

  /** Sort key for `order_by('-created_at')`: newer courses get smaller keys. */
  function NewestFirstKey(c: Course): int { -Ordinal(c.createdAt) }

  /** Creation dates never increase along `s`. */
  predicate NewestFirstOrdered(s: seq<Course>)
  {
    forall i, j :: 0 <= i < j < |s| ==> DateLe(s[j].createdAt, s[i].createdAt)
  }

  /** Published courses, newest first; courses created on the same date keep
      their table order. */
  function NewestFirst(cs: seq<Course>): (r: seq<Course>)
    ensures multiset(r) == multiset(PublishedCourses(cs))
    ensures |r| == |PublishedCourses(cs)|
    ensures forall c :: c in r <==> c in cs && c.published
    ensures NewestFirstOrdered(r)
  {
    var pub := PublishedCourses(cs);
    var r := SortBy(pub, NewestFirstKey);
    assert |multiset(r)| == |multiset(pub)|;
    PermutationKeepsMembers(r, pub);
    assert NewestFirstOrdered(r) by {
      forall i, j | 0 <= i < j < |r| ensures DateLe(r[j].createdAt, r[i].createdAt) {
        OrdinalOrdersDates(r[j].createdAt, r[i].createdAt);
      }
    }
    r
  }

  /** In a newest-first sequence nothing after a prefix is newer than anything in it. */
  lemma PrefixHoldsNewest(all: seq<Course>, n: nat, c: Course, d: Course)
    requires n <= |all| && NewestFirstOrdered(all)
    requires c in all && c !in all[..n] && d in all[..n]
    ensures DateLe(c.createdAt, d.createdAt)
  {
    var i :| 0 <= i < |all| && all[i] == c;
    var j :| 0 <= j < n && all[..n][j] == d;
    assert all[j] == d;
  }

  lemma PrefixOfNewest(cs: seq<Course>, all: seq<Course>, n: nat)
    requires forall c :: c in all <==> c in cs && c.published
    requires NewestFirstOrdered(all) && n <= |all|
    ensures forall c :: c in all[..n] ==> c in cs && c.published
    ensures NewestFirstOrdered(all[..n])
    ensures forall c, d :: c in cs && c.published && c !in all[..n] && d in all[..n] ==> DateLe(c.createdAt, d.createdAt)
  {
    var r := all[..n];
    forall c | c in r ensures c in cs && c.published {
      var j :| 0 <= j < n && r[j] == c;
      assert all[j] == c;
    }
    forall c, d | c in cs && c.published && c !in r && d in r
      ensures DateLe(c.createdAt, d.createdAt)
    {
      PrefixHoldsNewest(all, n, c, d);
    }
  }

  /** How many entries the navigation pane shows. */
  const NavLength: nat := 5

  /** The first `NavLength` of the published courses, newest first. */
  function NewestPublished(cs: seq<Course>): (r: seq<Course>)
    ensures |r| == if |PublishedCourses(cs)| < NavLength then |PublishedCourses(cs)| else NavLength
    ensures forall c :: c in r ==> c in cs && c.published
    ensures NewestFirstOrdered(r)
    ensures forall c, d :: c in cs && c.published && c !in r && d in r ==> DateLe(c.createdAt, d.createdAt)
    ensures r == NewestFirst(cs)[..|r|]
    ensures multiset(r) <= multiset(PublishedCourses(cs))
  {
    var all := NewestFirst(cs);
    var n := if |all| < NavLength then |all| else NavLength;
    PrefixOfNewest(cs, all, n);
    assert all == all[..n] + all[n..];
    all[..n]
  }

  /** The `('id', 'title')` values of a course. */
  datatype NavEntry = NavEntry(id: int, title: string)

  function Project(c: Course): NavEntry { NavEntry(c.id, c.title) }

  /** `nav_courses_list`: id and title of the newest published courses, at most `NavLength`. */
  function NavCoursesList(cs: seq<Course>): (r: seq<NavEntry>)
    ensures |r| <= NavLength
    ensures |r| == |NewestPublished(cs)|
    ensures forall i :: 0 <= i < |r| ==> r[i] == Project(NewestPublished(cs)[i])
  {
    var top := NewestPublished(cs);
    seq(|top|, i requires 0 <= i < |top| => Project(top[i]))
  }

  /** `newest_course`: a published course with the latest creation date;
      `latest` raises DoesNotExist, here None, when nothing is published. */
  function NewestCourse(cs: seq<Course>): (r: Option<Course>)
    ensures r.None? <==> forall c :: c in cs ==> !c.published
    ensures r.Some? ==> r.value in cs && r.value.published
    ensures r.Some? ==> forall c :: c in cs && c.published ==> DateLe(c.createdAt, r.value.createdAt)
  {
    var all := NewestFirst(cs);
    if |all| == 0 then None
    else
      assert forall c :: c in all ==> DateLe(c.createdAt, all[0].createdAt) by {
        forall c | c in all ensures DateLe(c.createdAt, all[0].createdAt) {
          var i :| 0 <= i < |all| && all[i] == c;
          if i == 0 {
            OrdinalOrdersDates(c.createdAt, c.createdAt);
          }
        }
      }
      Some(all[0])
  }

  /** The two helpers agree: the newest course heads the navigation pane. */
  lemma NewestCourseHeadsNav(cs: seq<Course>)
    ensures NewestCourse(cs).Some? <==> |NavCoursesList(cs)| > 0
    ensures NewestCourse(cs).Some? ==> NavCoursesList(cs)[0] == Project(NewestCourse(cs).value)
  {
  }

}
