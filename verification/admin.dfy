/** The course admin's bulk "Make Published" action and its "year created"
    list filter. */
module Admin {
  import opened Wrappers
  import opened Seqs
  import opened Models

  // ---------------------------------------------------------------- make_published

  /** `a` and `b` agree on every field except the workflow `status` and `isLive`. */
  predicate SameExceptWorkflow(a: Course, b: Course)
  {
    && a.id == b.id && a.title == b.title && a.description == b.description
    && a.teacher == b.teacher && a.published == b.published && a.createdAt == b.createdAt
  }

  /** `queryset.update(status='p', is_live=True)` over the courses whose keys
      were selected in the admin list. */
  function MakePublished(cs: seq<Course>, selected: set<int>): (r: seq<Course>)
    ensures |r| == |cs|
    ensures forall i :: 0 <= i < |cs| && cs[i].id in selected ==> r[i].status == Published && r[i].isLive
    ensures forall i :: 0 <= i < |cs| && cs[i].id in selected ==> StatusCode(r[i].status) == 'p'
    ensures forall i :: 0 <= i < |cs| && cs[i].id !in selected ==> r[i] == cs[i]
    ensures forall i :: 0 <= i < |cs| ==> SameExceptWorkflow(r[i], cs[i])
  {
    seq(|cs|, i requires 0 <= i < |cs| =>
      if cs[i].id in selected then cs[i].(status := Published, isLive := true) else cs[i])
  }

  /** Running the action on two selections is running it once on their union. */
  lemma MakePublishedUnion(cs: seq<Course>, a: set<int>, b: set<int>)
    ensures MakePublished(MakePublished(cs, a), b) == MakePublished(cs, a + b)
  {
  }

  /** Running the action twice changes nothing more. */
  lemma MakePublishedIdempotent(cs: seq<Course>, selected: set<int>)
    ensures MakePublished(MakePublished(cs, selected), selected) == MakePublished(cs, selected)
  {
    MakePublishedUnion(cs, selected, selected);
    assert selected + selected == selected;
  }

  // ---------------------------------------------------------------- YearListFilter

  /** The range of `datetime.date` years. */
  const MinYear: int := 1
  const MaxYear: int := 9999

  predicate IsDigit(c: char) { '0' <= c <= '9' }

  predicate AllDigits(s: string) { forall i :: 0 <= i < |s| ==> IsDigit(s[i]) }

  /** The decimal value of a digit string. */
  function DigitsValue(s: string): (n: nat)
    requires AllDigits(s)
  {
    if |s| == 0 then 0
    else DigitsValue(s[..|s| - 1]) * 10 + (s[|s| - 1] as int - '0' as int)
  }

  /** Python's `int(s)` on an optionally signed run of decimal digits; None
      stands for the ValueError raised on anything else. */
  function ParseInt(s: string): (r: Option<int>)
    ensures r.Some? <==> (|s| > 0 && AllDigits(s)) || (|s| > 1 && s[0] in {'+', '-'} && AllDigits(s[1..]))
    ensures |s| > 0 && AllDigits(s) ==> r == Some(DigitsValue(s) as int)
    ensures |s| > 1 && s[0] == '+' && AllDigits(s[1..]) ==> r == ParseInt(s[1..])
    ensures |s| > 1 && s[0] == '-' && r.Some? ==> r.value == 0 - ParseInt(s[1..]).value
    ensures r.Some? && IsDigit(s[0]) ==> r.value >= 0
  {
    if |s| > 0 && (s[0] == '-' || s[0] == '+') then
      var digits := s[1..];
      if |digits| > 0 && AllDigits(digits) then
        Some(if s[0] == '-' then 0 - DigitsValue(digits) as int else DigitsValue(digits) as int)
      else None
    else if |s| > 0 && AllDigits(s) then Some(DigitsValue(s))
    else None
  }

  /** The decimal digits of `n`, as `str(n)` writes them. */
  function ShowNat(n: nat): (s: string)
    ensures |s| > 0 && AllDigits(s)
    ensures DigitsValue(s) == n
  {
    var d := [('0' as int + n % 10) as char];
    if n < 10 then d
    else
      var s := ShowNat(n / 10) + d;
      assert s[..|s| - 1] == ShowNat(n / 10);
      s
  }

  lemma ParseShowRoundTrip(n: nat)
    ensures ParseInt(ShowNat(n)) == Some(n)
    ensures ParseInt(['-'] + ShowNat(n)) == Some(0 - n as int)
  {
    assert (['-'] + ShowNat(n))[1..] == ShowNat(n);
  }

  /** `YearListFilter.lookups`: (URL value, sidebar label) pairs. */
  function YearLookups(): (r: seq<(string, string)>)
    ensures |r| == 2
    ensures forall i :: 0 <= i < |r| ==> r[i].0 == r[i].1
    ensures forall i :: 0 <= i < |r| ==> ParseInt(r[i].0) == Some(2015 + i)
  {
    ParseShowRoundTrip(2015);
    ParseShowRoundTrip(2016);
    assert ShowNat(2015) == "2015" && ShowNat(2016) == "2016";
    [("2015", "2015"), ("2016", "2016")]
  }

  /** What `YearListFilter.queryset` hands back to the change list. */
  datatype YearFilterResult =
    | NoFilter                        // returned None: the list is shown unfiltered
    | Filtered(courses: seq<Course>)  // the narrowed queryset
    | Rejected                        // `int()` or `date()` raised ValueError or OverflowError

  /** Created between January 1 and December 31 of `year`, both inclusive. */
  predicate CreatedIn(c: Course, year: int)
  {
    DateLe(Date(year, 1, 1), c.createdAt) && DateLe(c.createdAt, Date(year, 12, 31))
  }

  lemma CreatedInMeansYear(c: Course, year: int)
    ensures CreatedIn(c, year) <==> c.createdAt.year == year
  {
  }

  /** `YearListFilter.queryset`, given the selected parameter value (None when absent). */
  function YearFilter(value: Option<string>, cs: seq<Course>): (r: YearFilterResult)
    ensures r.NoFilter? <==> value.None? || value.value == ""
    ensures r.Rejected? <==>
      && value.Some? && value.value != ""
      && (ParseInt(value.value).None? || !(MinYear <= ParseInt(value.value).value <= MaxYear))
    ensures r.Filtered? ==>
      && ParseInt(value.value).Some?
      && (forall c :: c in r.courses <==> c in cs && c.createdAt.year == ParseInt(value.value).value)
      && (forall c :: multiset(r.courses)[c] ==
            if c.createdAt.year == ParseInt(value.value).value then multiset(cs)[c] else 0)
      && IsSubsequence(r.courses, cs)
  {
    if value.None? || value.value == "" then NoFilter
    else
      match ParseInt(value.value)
      case None => Rejected
      case Some(year) =>
        if !(MinYear <= year <= MaxYear) then Rejected
        else
          var p := (c: Course) => CreatedIn(c, year);
          FilterIsSubsequence(cs, p);
          Filtered(Filter(cs, p))
  }

  /** Each offered choice filters to exactly the courses created in its year. */
  lemma YearLookupsSelectTheirYear(cs: seq<Course>, i: int)
    requires 0 <= i < |YearLookups()|
    ensures YearFilter(Some(YearLookups()[i].0), cs).Filtered?
    ensures forall c :: c in YearFilter(Some(YearLookups()[i].0), cs).courses <==>
      c in cs && c.createdAt.year == 2015 + i
  {
  }

}
