/** Reading rendered text back: the small scanning steps the inverse of
    each render function is built from. */
module Scan {
  import opened Wrappers

  /** The rest of `s` after the prefix `p`, if `s` starts with it. */
  function StripPrefix(p: string, s: string): Option<string> {
    if |p| <= |s| && s[..|p|] == p then Some(s[|p|..]) else None
  }

  /** `s` cut at the first occurrence of `c`: what comes before it, and the
      rest starting with it (empty when `c` does not occur). */
  function SplitAt(s: string, c: char): (r: (string, string))
    ensures r.0 + r.1 == s
    ensures c !in r.0
    ensures r.1 == [] || r.1[0] == c
    decreases |s|
  {
    if |s| == 0 then ("", "")
    else if s[0] == c then ("", s)
    else
      var (a, b) := SplitAt(s[1..], c);
      assert [s[0]] + (a + b) == s;
      ([s[0]] + a, b)
  }

  /** The text before a final `c`, if `s` ends with it. */
  function StripSuffix(s: string, c: char): Option<string> {
    if |s| > 0 && s[|s| - 1] == c then Some(s[..|s| - 1]) else None
  }

  lemma StripPrefixOf(p: string, r: string)
    ensures StripPrefix(p, p + r) == Some(r)
  {
    assert (p + r)[..|p|] == p;
    assert (p + r)[|p|..] == r;
  }

  lemma StripSuffixOf(s: string, c: char)
    ensures StripSuffix(s + [c], c) == Some(s)
  {
    assert (s + [c])[..|s|] == s;
  }

  /** Cutting at a separator that first occurs where `b` begins recovers
      the two parts. */
  lemma {:induction false} SplitAtOf(a: string, b: string, c: char)
    requires c !in a
    requires |b| > 0 && b[0] == c
    ensures SplitAt(a + b, c) == (a, b)
    decreases |a|
  {
    if |a| == 0 {
      assert a + b == b;
    } else {
      assert (a + b)[0] == a[0];
      assert (a + b)[1..] == a[1..] + b;
      SplitAtOf(a[1..], b, c);
      assert [a[0]] + a[1..] == a;
    }
  }

  /** `s` cut at the last occurrence of `c`: what comes before it, and the
      rest starting with it (all of `s` and nothing when `c` does not occur). */
  function SplitAtLast(s: string, c: char): (r: (string, string))
    ensures r.0 + r.1 == s
    ensures r.1 == [] || (r.1[0] == c && c !in r.1[1..])
    decreases |s|
  {
    if |s| == 0 then ("", "")
    else if s[|s| - 1] == c then (s[..|s| - 1], [c])
    else
      var (a, b) := SplitAtLast(s[..|s| - 1], c);
      assert s == s[..|s| - 1] + [s[|s| - 1]];
      if b == [] then (s, [])
      else
        assert (b + [s[|s| - 1]])[1..] == b[1..] + [s[|s| - 1]];
        (a, b + [s[|s| - 1]])
  }

  /** Cutting at the last separator, when only the first character of `b`
      is one, recovers the two parts. */
  lemma {:induction false} SplitAtLastOf(a: string, b: string, c: char)
    requires |b| > 0 && b[0] == c && c !in b[1..]
    ensures SplitAtLast(a + b, c) == (a, b)
    decreases |b|
  {
    var s := a + b;
    if |b| == 1 {
      assert s[..|s| - 1] == a;
    } else {
      var last := b[|b| - 1];
      assert last in b[1..];
      assert s[|s| - 1] == last;
      assert s[..|s| - 1] == a + b[..|b| - 1];
      assert b[..|b| - 1][1..] == b[1..|b| - 1];
      assert c !in b[1..|b| - 1] by {
        assert forall k :: 1 <= k < |b| - 1 ==> b[k] == b[1..][k - 1];
      }
      SplitAtLastOf(a, b[..|b| - 1], c);
      assert b[..|b| - 1] + [last] == b;
    }
  }
}
