/**
 * The few functions of Go's `strings` package that the sidecar uses, on
 * `string` (a sequence of characters): `strings.Index` for one character,
 * `strings.SplitN(s, sep, 2)` for a one-character separator,
 * `strings.HasPrefix` and `strings.Contains`.
 */
module Strings {

  /** `strings.HasPrefix(s, p)`, compared character by character. */
  predicate HasPrefix(s: string, p: string)
  {
    |p| == 0 || (|s| > 0 && s[0] == p[0] && HasPrefix(s[1..], p[1..]))
  }

  /** `HasPrefix` holds exactly when `p` is the first `|p|` characters of `s`. */
  lemma {:induction false} HasPrefixIsTake(s: string, p: string)
    ensures HasPrefix(s, p) <==> |p| <= |s| && s[..|p|] == p
  {
    if |p| > 0 && |s| > 0 {
      HasPrefixIsTake(s[1..], p[1..]);
      if s[0] == p[0] && |p| <= |s| {
        assert s[..|p|] == [s[0]] + s[1..][..|p| - 1];
        assert p == [p[0]] + p[1..];
      }
    }
  }

  /** `sub` occurs in `s` starting at index `i`. */
  predicate OccursAt(s: string, sub: string, i: int)
  {
    0 <= i && i + |sub| <= |s| && s[i..i + |sub|] == sub
  }

  /** Index of the first `c` in `s`, or -1 when there is none (`strings.IndexByte`). */
  function IndexOf(s: string, c: char): (i: int)
    ensures -1 <= i < |s|
  {
    if |s| == 0 then -1
    else if s[0] == c then 0
    else
      var j := IndexOf(s[1..], c);
      if j < 0 then -1 else j + 1
  }

  /** `IndexOf` finds the first occurrence, and -1 means there is none. */
  lemma {:induction false} IndexOfFindsFirst(s: string, c: char)
    ensures IndexOf(s, c) == -1 <==> c !in s
    ensures IndexOf(s, c) >= 0 ==> s[IndexOf(s, c)] == c && c !in s[..IndexOf(s, c)]
  {
    if |s| > 0 && s[0] != c {
      IndexOfFindsFirst(s[1..], c);
      var j := IndexOf(s[1..], c);
      if j >= 0 {
        assert s[..j + 1] == [s[0]] + s[1..][..j];
      } else {
        assert s == [s[0]] + s[1..];
      }
    }
  }

  /**
   * `strings.SplitN(s, string(sep), 2)`: the whole of `s` when it holds no
   * `sep`, otherwise the parts before and after the first `sep`.
   */
  function SplitOnce(s: string, sep: char): (parts: seq<string>)
    ensures |parts| == 1 || |parts| == 2
  {
    var i := IndexOf(s, sep);
    if i < 0 then [s] else [s[..i], s[i + 1..]]
  }

  /** `SplitOnce` cuts at the first separator, and joining the parts back gives the input. */
  lemma SplitOnceCutsAtFirst(s: string, sep: char)
    ensures |SplitOnce(s, sep)| == 1 <==> sep !in s
    ensures |SplitOnce(s, sep)| == 1 ==> SplitOnce(s, sep)[0] == s
    ensures |SplitOnce(s, sep)| == 2 ==> SplitOnce(s, sep)[0] + [sep] + SplitOnce(s, sep)[1] == s
                                         && sep !in SplitOnce(s, sep)[0]
  {
    IndexOfFindsFirst(s, sep);
    var i := IndexOf(s, sep);
    if i >= 0 {
      assert s[..i] + [sep] + s[i + 1..] == s;
    }
  }

  /** Splitting text assembled around a first separator gives back its two parts. */
  lemma SplitOnceJoin(a: string, sep: char, b: string)
    requires sep !in a
    ensures SplitOnce(a + [sep] + b, sep) == [a, b]
  {
    var s := a + [sep] + b;
    IndexOfFindsFirst(s, sep);
    var i := IndexOf(s, sep);
    assert s[|a|] == sep;
    assert forall k :: 0 <= k < |a| ==> s[k] == a[k];
    assert forall k :: 0 <= k < i ==> s[..i][k] == s[k];
    assert i == |a|;
    assert s[..|a|] == a && s[|a| + 1..] == b;
  }

  /** `strings.Contains(s, sub)`, by scanning the start positions of `s` in turn. */
  function Contains(s: string, sub: string): (b: bool)
    ensures b <==> exists i :: OccursAt(s, sub, i)
    decreases |s|
  {
    if |sub| > |s| then
      assert forall i :: !OccursAt(s, sub, i);
      false
    else if s[..|sub|] == sub then
      assert OccursAt(s, sub, 0);
      true
    else
      var b := Contains(s[1..], sub);
      ShiftOccurrence(s, sub);
      b
  }

  /** An occurrence in `s` away from the start is an occurrence in `s[1..]` one place earlier. */
  lemma ShiftOccurrence(s: string, sub: string)
    requires |s| > 0 && !OccursAt(s, sub, 0)
    ensures (exists i :: OccursAt(s, sub, i)) <==> (exists i :: OccursAt(s[1..], sub, i))
  {
    if i :| OccursAt(s, sub, i) {
      assert i > 0;
      assert s[1..][i - 1..i - 1 + |sub|] == s[i..i + |sub|];
      assert OccursAt(s[1..], sub, i - 1);
    }
    if i :| OccursAt(s[1..], sub, i) {
      assert s[1..][i..i + |sub|] == s[i + 1..i + 1 + |sub|];
      assert OccursAt(s, sub, i + 1);
    }
  }
}
