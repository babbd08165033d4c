/** The Python string built-ins the handlers rely on: str.replace,
    str.split, str.startswith, str.find and slicing, with the counting and
    filtering functions used to state what they do. */
module Strings {

  /** Number of occurrences of c in s. */
  function Count(s: string, c: char): nat
  {
    if s == [] then 0 else (if s[0] == c then 1 else 0) + Count(s[1..], c)
  }

  /** s with every character in cs dropped and the others kept in order. */
  function Without(s: string, cs: set<char>): string
  {
    if s == [] then [] else (if s[0] in cs then [] else [s[0]]) + Without(s[1..], cs)
  }

  lemma {:induction false} CountAppend(a: string, b: string, c: char)
    ensures Count(a + b, c) == Count(a, c) + Count(b, c)
  {
    if a == [] {
      assert a + b == b;
    } else {
      assert (a + b)[1..] == a[1..] + b;
      CountAppend(a[1..], b, c);
    }
  }

  lemma {:induction false} WithoutAppend(a: string, b: string, cs: set<char>)
    ensures Without(a + b, cs) == Without(a, cs) + Without(b, cs)
  {
    if a == [] {
      assert a + b == b;
    } else {
      assert (a + b)[1..] == a[1..] + b;
      WithoutAppend(a[1..], b, cs);
    }
  }

  /** A character outside cs is counted the same before and after filtering. */
  lemma {:induction false} CountWithout(s: string, cs: set<char>, c: char)
    requires c !in cs
    ensures Count(Without(s, cs), c) == Count(s, c)
  {
    if s != [] {
      CountWithout(s[1..], cs, c);
      CountAppend(if s[0] in cs then [] else [s[0]], Without(s[1..], cs), c);
    }
  }

  // ---------------------------------------------------------------------
  // str.replace

  /** Python's s.replace(old, new) for a non-empty old: scanning from the
      left, every occurrence of old that does not overlap an earlier one is
      replaced by new. */
  function Replace(s: string, pat: string, rep: string): string
    requires pat != []
    decreases |s|
  {
    if |s| < |pat| then s
    else if s[..|pat|] == pat then rep + Replace(s[|pat|..], pat, rep)
    else [s[0]] + Replace(s[1..], pat, rep)
  }

  /** Reference definition of a one-character replacement: every c becomes
      rep and every other character stays where it is. */
  function ExpandChar(s: string, c: char, rep: string): string
  {
    if s == [] then [] else (if s[0] == c then rep else [s[0]]) + ExpandChar(s[1..], c, rep)
  }

  /** Replacing a one-character pattern is the per-character expansion. */
  lemma {:induction false} ReplaceSingleChar(s: string, c: char, rep: string)
    ensures Replace(s, [c], rep) == ExpandChar(s, c, rep)
  {
    if s != [] {
      assert (s[..1] == [c]) == (s[0] == c);
      ReplaceSingleChar(s[1..], c, rep);
    }
  }

  /** How many d the expansion holds: those of s that were not c, plus the
      d of one copy of rep per c. */
  lemma {:induction false} ExpandCount(s: string, c: char, rep: string, d: char)
    ensures Count(ExpandChar(s, c, rep), d)
         == (if d == c then 0 else Count(s, d)) + Count(s, c) * Count(rep, d)
  {
    if s != [] {
      var head := if s[0] == c then rep else [s[0]];
      var tail := ExpandChar(s[1..], c, rep);
      var n, k := Count(s[1..], c), Count(rep, d);
      var others := if d == c then 0 else Count(s[1..], d);
      ExpandCount(s[1..], c, rep, d);
      assert ExpandChar(s, c, rep) == head + tail;
      CountAppend(head, tail, d);
      assert Count(ExpandChar(s, c, rep), d) == Count(head, d) + others + n * k;
      if s[0] == c {
        assert Count(s, c) == 1 + n;
        assert Count(head, d) == k;
        MulSucc(n, k);
        assert (if d == c then 0 else Count(s, d)) == others;
      } else {
        assert Count(s, c) == n;
        assert (if d == c then 0 else Count(s, d)) == Count(head, d) + others;
      }
    }
  }

  lemma MulSucc(n: nat, k: nat)
    ensures (1 + n) * k == k + n * k
  {
  }

  /** A replacement whose pattern and replacement look the same once the
      characters in cs are dropped leaves every other character of s
      untouched and in order. */
  lemma {:induction false} ReplaceKeepsOthers(s: string, pat: string, rep: string, cs: set<char>)
    requires pat != []
    requires Without(pat, cs) == Without(rep, cs)
    ensures Without(Replace(s, pat, rep), cs) == Without(s, cs)
    decreases |s|
  {
    if |s| < |pat| {
    } else if s[..|pat|] == pat {
      ReplaceKeepsOthers(s[|pat|..], pat, rep, cs);
      WithoutAppend(rep, Replace(s[|pat|..], pat, rep), cs);
      assert s == pat + s[|pat|..];
      WithoutAppend(pat, s[|pat|..], cs);
    } else {
      ReplaceKeepsOthers(s[1..], pat, rep, cs);
      WithoutAppend([s[0]], Replace(s[1..], pat, rep), cs);
      assert s == [s[0]] + s[1..];
      WithoutAppend([s[0]], s[1..], cs);
    }
  }

  /** Replacement never makes the string longer when the replacement is no
      longer than the pattern. */
  lemma {:induction false} ReplaceShrinks(s: string, pat: string, rep: string)
    requires pat != [] && |rep| <= |pat|
    ensures |Replace(s, pat, rep)| <= |s|
    decreases |s|
  {
    if |s| < |pat| {
    } else if s[..|pat|] == pat {
      ReplaceShrinks(s[|pat|..], pat, rep);
    } else {
      ReplaceShrinks(s[1..], pat, rep);
    }
  }

  // ---------------------------------------------------------------------
  // str.split and its inverse

  /** Python's s.split(sep) for a one-character separator: the maximal runs
      between separators, including empty ones at either end. */
  function Split(s: string, sep: char): (pieces: seq<string>)
    ensures |pieces| == Count(s, sep) + 1
    ensures forall k :: 0 <= k < |pieces| ==> sep !in pieces[k]
  {
    if s == [] then [[]]
    else
      var rest := Split(s[1..], sep);
      if s[0] == sep then [[]] + rest
      else [[s[0]] + rest[0]] + rest[1..]
  }

  /** Python's sep.join(pieces). */
  function Join(pieces: seq<string>, sep: char): string
    requires |pieces| >= 1
  {
    if |pieces| == 1 then pieces[0] else pieces[0] + [sep] + Join(pieces[1..], sep)
  }

  /** Joining the pieces back with the separator gives the original text. */
  lemma {:induction false} JoinSplit(s: string, sep: char)
    ensures Join(Split(s, sep), sep) == s
  {
    if s != [] {
      var rest := Split(s[1..], sep);
      JoinSplit(s[1..], sep);
      if s[0] == sep {
        assert Split(s, sep)[1..] == rest;
      } else {
        var pieces := Split(s, sep);
        if |rest| == 1 {
          assert pieces == [[s[0]] + rest[0]];
        } else {
          assert pieces[1..] == rest[1..];
          assert Join(rest, sep) == rest[0] + [sep] + Join(rest[1..], sep);
        }
      }
    }
  }

  /** Splitting text that begins with a separator-free run a. */
  lemma {:induction false} SplitPrefix(a: string, rest: string, sep: char)
    requires sep !in a
    ensures Split(a + rest, sep) == [a + Split(rest, sep)[0]] + Split(rest, sep)[1..]
  {
    if a != [] {
      assert (a + rest)[1..] == a[1..] + rest;
      SplitPrefix(a[1..], rest, sep);
      assert [a[0]] + (a[1..] + Split(rest, sep)[0]) == a + Split(rest, sep)[0];
    } else {
      assert a + rest == rest;
      var pieces := Split(rest, sep);
      assert [] + pieces[0] == pieces[0];
      assert pieces == [pieces[0]] + pieces[1..];
    }
  }

  /** Splitting separator-free pieces joined by the separator gives them back. */
  lemma {:induction false} SplitJoin(pieces: seq<string>, sep: char)
    requires |pieces| >= 1
    requires forall k :: 0 <= k < |pieces| ==> sep !in pieces[k]
    ensures Split(Join(pieces, sep), sep) == pieces
  {
    if |pieces| == 1 {
      SplitPrefix(pieces[0], [], sep);
      assert pieces[0] + [] == pieces[0];
    } else {
      var tail := Join(pieces[1..], sep);
      SplitJoin(pieces[1..], sep);
      assert Join(pieces, sep) == pieces[0] + ([sep] + tail);
      SplitPrefix(pieces[0], [sep] + tail, sep);
      assert ([sep] + tail)[1..] == tail;
      var after := Split([sep] + tail, sep);
      assert after == [[]] + pieces[1..];
      assert after[0] == [] && after[1..] == pieces[1..];
      assert pieces[0] + [] == pieces[0];
      assert pieces == [pieces[0]] + pieces[1..];
    }
  }

  // ---------------------------------------------------------------------
  // startswith, find and slicing

  /** Python's s.startswith(prefix). */
  predicate StartsWith(s: string, prefix: string)
  {
    |prefix| <= |s| && s[..|prefix|] == prefix
  }

  /** Python's s.find(c) for one character: the first index of c, or -1. */
  function FindChar(s: string, c: char): (k: int)
    ensures -1 <= k < |s|
    ensures k == -1 <==> c !in s
    ensures k >= 0 ==> s[k] == c && c !in s[..k]
  {
    if s == [] then -1
    else if s[0] == c then 0
    else
      var k := FindChar(s[1..], c);
      assert s[1..][..if k < 0 then 0 else k] == s[1..if k < 0 then 1 else k + 1];
      if k == -1 then -1 else k + 1
  }

  /** The first occurrence is at k when k holds c and nothing before it does. */
  lemma {:induction false} FindCharAt(s: string, c: char, k: nat)
    requires k < |s| && s[k] == c && c !in s[..k]
    ensures FindChar(s, c) == k
  {
    if k > 0 {
      assert s[..k][0] == s[0];
      assert s[1..][..k - 1] == s[1..k];
      FindCharAt(s[1..], c, k - 1);
    }
  }

  /** An occurrence at k bounds the first occurrence. */
  lemma {:induction false} FindCharAtMost(s: string, c: char, k: nat)
    requires k < |s| && s[k] == c
    ensures 0 <= FindChar(s, c) <= k
  {
    if k > 0 && s[0] != c {
      FindCharAtMost(s[1..], c, k - 1);
    }
  }

  function Clamp(x: int, n: nat): nat
  {
    if x < 0 then 0 else if x > n then n else x
  }

  /** Python's s[lo:hi]: a negative bound counts from the end, both bounds
      are clamped into the string, and crossed bounds give the empty string. */
  function Slice(s: string, lo: int, hi: int): string
  {
    var a := Clamp(if lo < 0 then lo + |s| else lo, |s|);
    var b := Clamp(if hi < 0 then hi + |s| else hi, |s|);
    if a < b then s[a..b] else []
  }

  /** In-range, ordered bounds give the plain subsequence. */
  lemma SliceWithin(s: string, lo: int, hi: int)
    requires 0 <= lo <= hi <= |s|
    ensures Slice(s, lo, hi) == s[lo..hi]
  {
  }

  /** An end of -1 stops one character short of the end. */
  lemma SliceToLast(s: string, lo: int)
    requires 0 <= lo
    ensures Slice(s, lo, -1) == if lo < |s| - 1 then s[lo..|s| - 1] else []
  {
  }

  /** A non-negative end before the start gives the empty string. */
  lemma SliceCrossed(s: string, lo: int, hi: int)
    requires 0 <= hi < lo
    ensures Slice(s, lo, hi) == []
  {
  }
}
