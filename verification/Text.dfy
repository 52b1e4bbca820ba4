/** The string operations the search filters rely on: ASCII lower-casing and substring containment. */
module Text {

  predicate IsUpper(c: char) {
    'A' <= c <= 'Z'
  }

  /** ASCII lower-casing of one character; every other character is left alone. */
  function LowerChar(c: char): char {
    if IsUpper(c) then (c as int + 32) as char else c
  }

  /** `string.ToLower()`, restricted to ASCII letters. */
  function Lower(s: string): (r: string)
    ensures |r| == |s|
    ensures forall i :: 0 <= i < |r| ==> !IsUpper(r[i])
    ensures forall i :: 0 <= i < |s| && !IsUpper(s[i]) ==> r[i] == s[i]
    ensures forall i :: 0 <= i < |s| && IsUpper(s[i]) ==> 'a' <= r[i] <= 'z' && r[i] as int - s[i] as int == 32
  {
    seq(|s|, i requires 0 <= i < |s| => LowerChar(s[i]))
  }

  lemma LowerIdempotent(s: string)
    ensures Lower(Lower(s)) == Lower(s)
  {
  }

  /** Two characters are equal, or are the upper- and lower-case forms of one ASCII letter. */
  predicate SameCharIgnoringCase(a: char, b: char) {
    || a == b
    || (IsUpper(a) && b as int == a as int + 32)
    || (IsUpper(b) && a as int == b as int + 32)
  }

  /** Two strings that differ at most in the case of their ASCII letters. */
  predicate SameIgnoringCase(a: string, b: string) {
    |a| == |b| && forall i :: 0 <= i < |a| ==> SameCharIgnoringCase(a[i], b[i])
  }

  /** Lower-casing identifies exactly the strings that differ only in letter case. */
  lemma SameIgnoringCaseIff(a: string, b: string)
    ensures SameIgnoringCase(a, b) <==> Lower(a) == Lower(b)
  {
    if Lower(a) == Lower(b) {
      forall i | 0 <= i < |a|
        ensures SameCharIgnoringCase(a[i], b[i])
      {
        assert Lower(a)[i] == Lower(b)[i];
      }
    }
    if SameIgnoringCase(a, b) {
      assert forall i :: 0 <= i < |a| ==> Lower(a)[i] == Lower(b)[i];
    }
  }

  predicate StartsWith(s: string, prefix: string) {
    |prefix| <= |s| && s[..|prefix|] == prefix
  }

  /** `s.Contains(t)`: `t` occurs somewhere in `s`; the empty string occurs in every string. */
  predicate Contains(s: string, t: string)
    decreases |s|
  {
    StartsWith(s, t) || (|s| > 0 && Contains(s[1..], t))
  }

  /** `t` occurs in `s` starting at position `i`. */
  ghost predicate OccursAt(s: string, t: string, i: int) {
    0 <= i && i + |t| <= |s| && s[i..i + |t|] == t
  }

  /** The recursive `Contains` is exactly the existence of an occurrence. */
  lemma {:induction false} ContainsIff(s: string, t: string)
    ensures Contains(s, t) <==> exists i :: OccursAt(s, t, i)
    decreases |s|
  {
    assert OccursAt(s, t, 0) ==> StartsWith(s, t) by {
      if OccursAt(s, t, 0) {
        assert s[..|t|] == s[0..0 + |t|];
      }
    }
    if StartsWith(s, t) {
      assert OccursAt(s, t, 0);
    } else if |s| > 0 {
      ContainsIff(s[1..], t);
      forall i | OccursAt(s[1..], t, i)
        ensures OccursAt(s, t, i + 1)
      {
        assert s[1..][i..i + |t|] == s[i + 1..i + 1 + |t|];
      }
      forall j | OccursAt(s, t, j)
        ensures OccursAt(s[1..], t, j - 1)
      {
        assert s[1..][j - 1..j - 1 + |t|] == s[j..j + |t|];
      }
    }
  }

  lemma ContainsEmpty(s: string)
    ensures Contains(s, "")
  {
  }
}
