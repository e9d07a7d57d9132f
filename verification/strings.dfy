/** Case-insensitive containment, the `icontains` lookup. Case folding is
    ASCII-only. */
module Strings {

  function LowerChar(c: char): (r: char)
    ensures 'A' <= c <= 'Z' ==> 'a' <= r <= 'z' && r as int == c as int + 32
    ensures !('A' <= c <= 'Z') ==> r == c
  {
    if 'A' <= c <= 'Z' then (c as int - 'A' as int + 'a' as int) as char else c
  }

  function Lower(s: string): (r: string)
    ensures |r| == |s|
    ensures forall i :: 0 <= i < |s| ==> r[i] == LowerChar(s[i])
  {
    if |s| == 0 then "" else [LowerChar(s[0])] + Lower(s[1..])
  }

  lemma LowerIdempotent(s: string)
    ensures Lower(Lower(s)) == Lower(s)
  {
  }

  /** `n` is a prefix of `h`. */
  predicate IsPrefix(n: string, h: string)
  {
    |n| <= |h| && h[..|n|] == n
  }

  /** `n` occurs in `h` starting at position `i`. */
  predicate OccursAt(n: string, h: string, i: int)
  {
    0 <= i <= |h| - |n| && h[i..i + |n|] == n
  }

  /** `n` occurs as a contiguous substring of `h`. */
  predicate IsInfix(n: string, h: string)
    ensures IsInfix(n, h) <==> exists i :: OccursAt(n, h, i)
  {
    if IsPrefix(n, h) then
      assert OccursAt(n, h, 0);
      true
    else if |h| == 0 then false
    else
      assert forall i :: OccursAt(n, h, i) ==> i >= 1 && OccursAt(n, h[1..], i - 1);
      assert forall i :: OccursAt(n, h[1..], i) ==> OccursAt(n, h, i + 1) by {
        forall i | OccursAt(n, h[1..], i) ensures OccursAt(n, h, i + 1) {
          assert h[1..][i..i + |n|] == h[i + 1..i + 1 + |n|];
        }
      }
      IsInfix(n, h[1..])
  }

  /** `term` occurs in `text`, ignoring ASCII case. */
  predicate ContainsIgnoringCase(text: string, term: string)
  {
    IsInfix(Lower(term), Lower(text))
  }

  lemma EmptyTermAlwaysContained(text: string)
    ensures ContainsIgnoringCase(text, "")
  {
    assert OccursAt(Lower(""), Lower(text), 0);
  }

  /** Changing the case of the term does not change the answer. */
  lemma ContainsIgnoresTermCase(text: string, term: string)
    ensures ContainsIgnoringCase(text, Lower(term)) == ContainsIgnoringCase(text, term)
  {
    LowerIdempotent(term);
  }

  /** `term` matches `text` at position `i`, character by character up to ASCII case. */
  predicate MatchesAt(text: string, term: string, i: nat)
  {
    i + |term| <= |text| && forall k :: 0 <= k < |term| ==> LowerChar(text[i + k]) == LowerChar(term[k])
  }

  /** A case-insensitive match of `term` at position `i` of `text`. */
  lemma ContainsAt(text: string, term: string, i: nat)
    requires MatchesAt(text, term, i)
    ensures ContainsIgnoringCase(text, term)
  {
    var h, t := Lower(text), Lower(term);
    assert h[i..i + |t|] == t by {
      forall k | 0 <= k < |t| ensures h[i..i + |t|][k] == t[k] {
        assert h[i + k] == LowerChar(text[i + k]);
      }
    }
    assert OccursAt(t, h, i);
  }

  /** `icontains` is exactly a position where the term matches up to ASCII case. */
  lemma ContainsIgnoringCaseMatchesAt(text: string, term: string)
    ensures ContainsIgnoringCase(text, term) <==> exists i: nat :: MatchesAt(text, term, i)
  {
    var h, t := Lower(text), Lower(term);
    if ContainsIgnoringCase(text, term) {
      var i :| OccursAt(t, h, i);
      forall k | 0 <= k < |term| ensures LowerChar(text[i + k]) == LowerChar(term[k]) {
        assert h[i..i + |t|][k] == t[k];
      }
      assert MatchesAt(text, term, i);
    }
    if exists i: nat :: MatchesAt(text, term, i) {
      var i: nat :| MatchesAt(text, term, i);
      ContainsAt(text, term, i);
    }
  }

  lemma TitleExample(text: string)
    requires text == "Python Basics"
    ensures ContainsIgnoringCase(text, "python")
  {
    ContainsAt(text, "python", 0);
  }

  lemma DescriptionExample(text: string)
    requires text == "Uses PYTHON daily"
    ensures ContainsIgnoringCase(text, "python")
  {
    ContainsAt(text, "python", 5);
  }

  /** No text shorter than the term contains it. */
  lemma ShortTextExample(text: string, term: string)
    requires |text| < |term|
    ensures !ContainsIgnoringCase(text, term)
  {
  }

}
