/**
 String::compare as its callers rely on it: lexicographic order by character,
 a proper prefix being smaller.
 */
module Strings {

  /** Negative, zero or positive as s comes before, equals or comes after t. */
  function Compare(s: string, t: string): int {
    if s == [] then (if t == [] then 0 else -1)
    else if t == [] then 1
    else if s[0] < t[0] then -1
    else if s[0] > t[0] then 1
    else Compare(s[1..], t[1..])
  }

  lemma {:induction false} CompareZero(s: string, t: string)
    ensures Compare(s, t) == 0 <==> s == t
  {
    if s != [] && t != [] && s[0] == t[0] {
      CompareZero(s[1..], t[1..]);
      assert s == [s[0]] + s[1..] && t == [t[0]] + t[1..];
    }
  }

  lemma {:induction false} CompareFlip(s: string, t: string)
    ensures Compare(s, t) < 0 <==> Compare(t, s) > 0
  {
    if s != [] && t != [] && s[0] == t[0] {
      CompareFlip(s[1..], t[1..]);
    }
  }

  lemma {:induction false} CompareTransitive(s: string, t: string, u: string)
    requires Compare(s, t) <= 0 && Compare(t, u) <= 0
    ensures Compare(s, u) <= 0
    ensures Compare(s, t) < 0 || Compare(t, u) < 0 ==> Compare(s, u) < 0
  {
    if s != [] && t != [] && u != [] && s[0] == t[0] == u[0] {
      CompareTransitive(s[1..], t[1..], u[1..]);
    }
  }

  /** A common prefix does not matter. */
  lemma {:induction false} CompareAfterPrefix(p: string, s: string, t: string)
    requires p <= s && p <= t
    ensures Compare(s, t) == Compare(s[|p|..], t[|p|..])
  {
    if p == [] {
      assert s[0..] == s && t[0..] == t;
    } else {
      CompareAfterPrefix(p[1..], s[1..], t[1..]);
      assert s[1..][|p| - 1..] == s[|p|..] && t[1..][|p| - 1..] == t[|p|..];
    }
  }

  lemma {:induction false} PrefixFirst(p: string, s: string)
    requires p <= s
    ensures Compare(p, s) <= 0
    ensures p != s ==> Compare(p, s) < 0
  {
    if p != [] {
      PrefixFirst(p[1..], s[1..]);
    }
  }

  /** Whatever lies between p and an extension of p extends p too. */
  lemma {:induction false} Between(p: string, s: string, q: string)
    requires p <= q
    requires Compare(p, s) <= 0 && Compare(s, q) <= 0
    ensures p <= s
  {
    if p != [] {
      assert s != [] && s[0] == p[0];
      Between(p[1..], s[1..], q[1..]);
      assert p == [p[0]] + p[1..] && s == [s[0]] + s[1..];
    }
  }

  // ---- slashes ------------------------------------------------------------

  /** String::find_right('/'): the last slash, or -1. */
  function FindRight(s: string): (k: int)
    ensures -1 <= k < |s|
    ensures k >= 0 ==> s[k] == '/'
    ensures forall i :: k < i < |s| ==> s[i] != '/'
  {
    if s == [] then -1
    else if s[|s| - 1] == '/' then |s| - 1
    else FindRight(s[..|s| - 1])
  }
}
