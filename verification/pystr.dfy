/**
 * The few operations on Python `str` values that the service relies on:
 * `strip`, `lower`, `in`, `split(sep)[-1]` and `sep.join`.
 * Strings are sequences of Unicode code points, as in Python 3.
 */
module PyStr {

  import opened Wrappers

  /** The characters for which Python's `str.isspace()` holds. */
  predicate IsSpace(c: char) {
    || ('\t' <= c <= '\r')
    || ('\U{1C}' <= c <= ' ')
    || c == '\U{85}' || c == '\U{A0}' || c == '\U{1680}'
    || ('\U{2000}' <= c <= '\U{200A}')
    || c == '\U{2028}' || c == '\U{2029}' || c == '\U{202F}' || c == '\U{205F}' || c == '\U{3000}'
  }

  /** Number of leading characters of `s` that `drop` removes. */
  function LeadingRun(s: string, drop: char -> bool): (n: nat)
    ensures n <= |s|
    ensures forall i :: 0 <= i < n ==> drop(s[i])
    ensures n == |s| || !drop(s[n])
  {
    if |s| == 0 || !drop(s[0]) then 0 else 1 + LeadingRun(s[1..], drop)
  }

  /** End of `s` once the trailing characters that `drop` removes are cut off. */
  function KeptEnd(s: string, drop: char -> bool): (n: nat)
    ensures n <= |s|
    ensures forall i :: n <= i < |s| ==> drop(s[i])
    ensures n == 0 || !drop(s[n - 1])
  {
    if |s| == 0 || !drop(s[|s| - 1]) then |s| else KeptEnd(s[..|s| - 1], drop)
  }

  /** `s.strip(chars)`: removes the longest prefix and suffix made of characters `drop` accepts. */
  function StripBy(s: string, drop: char -> bool): (r: string)
    ensures LeadingRun(s, drop) + |r| <= |s|
    ensures r == s[LeadingRun(s, drop)..LeadingRun(s, drop) + |r|]
    ensures forall i :: LeadingRun(s, drop) + |r| <= i < |s| ==> drop(s[i])
    ensures r != [] ==> !drop(r[0]) && !drop(r[|r| - 1])
    ensures r == [] <==> forall i :: 0 <= i < |s| ==> drop(s[i])
  {
    var lo := LeadingRun(s, drop);
    var hi := KeptEnd(s, drop);
    if lo < hi then s[lo..hi] else []
  }

  /** `s.strip()`: removes surrounding whitespace. */
  function Strip(s: string): string {
    StripBy(s, IsSpace)
  }

  /** Any string built as a dropped prefix, a kept core and a dropped suffix strips to that core. */
  lemma StripByUnique(s: string, drop: char -> bool, lo: nat, r: string)
    requires lo + |r| <= |s| && r == s[lo..lo + |r|]
    requires forall i :: 0 <= i < lo ==> drop(s[i])
    requires forall i :: lo + |r| <= i < |s| ==> drop(s[i])
    requires r != [] ==> !drop(r[0]) && !drop(r[|r| - 1])
    ensures StripBy(s, drop) == r
  {
    var t := StripBy(s, drop);
    var n := LeadingRun(s, drop);
    if r == [] {
      assert forall i :: 0 <= i < |s| ==> drop(s[i]) by {
        forall i | 0 <= i < |s| ensures drop(s[i]) {
          if i >= lo {
            assert lo + |r| <= i;
          }
        }
      }
    } else {
      assert !drop(s[lo]);
      assert n == lo;
      assert t != [] by {
        assert !drop(s[lo]);
      }
      assert !drop(s[n + |t| - 1]);
      assert !drop(s[lo + |r| - 1]);
      assert |t| == |r|;
    }
  }

  /** Stripping twice is stripping once. */
  lemma StripByIdempotent(s: string, drop: char -> bool)
    ensures StripBy(StripBy(s, drop), drop) == StripBy(s, drop)
  {
    var r := StripBy(s, drop);
    StripByUnique(r, drop, 0, r);
  }

  /** Padding made only of dropped characters does not change the stripped result. */
  lemma StripByPadding(pre: string, s: string, post: string, drop: char -> bool)
    requires forall i :: 0 <= i < |pre| ==> drop(pre[i])
    requires forall i :: 0 <= i < |post| ==> drop(post[i])
    ensures StripBy(pre + s + post, drop) == StripBy(s, drop)
  {
    var r := StripBy(s, drop);
    var lo := LeadingRun(s, drop);
    var t := pre + s + post;
    assert t[|pre| + lo..|pre| + lo + |r|] == r;
    StripByUnique(t, drop, |pre| + lo, r);
  }

  /** `c.lower()` for ASCII and Latin-1 capitals; other characters are left as they are. */
  function LowerChar(c: char): char {
    if 'A' <= c <= 'Z' || ('\U{C0}' <= c <= '\U{DE}' && c != '\U{D7}') then
      (c as int + 32) as char
    else
      c
  }

  /** `s.lower()`. */
  function Lower(s: string): (r: string)
    ensures |r| == |s|
    ensures forall i :: 0 <= i < |s| ==> r[i] == LowerChar(s[i])
  {
    seq(|s|, i requires 0 <= i < |s| => LowerChar(s[i]))
  }

  /** A string that `lower()` leaves unchanged. */
  predicate IsLower(s: string) {
    forall i :: 0 <= i < |s| ==> LowerChar(s[i]) == s[i]
  }

  /** Lower-casing works character by character, so it distributes over concatenation. */
  lemma LowerAppend(a: string, b: string)
    ensures Lower(a + b) == Lower(a) + Lower(b)
  {
    var l, r := Lower(a + b), Lower(a) + Lower(b);
    forall i | 0 <= i < |l| ensures l[i] == r[i] {
      if i < |a| {
        assert (a + b)[i] == a[i];
      } else {
        assert (a + b)[i] == b[i - |a|];
      }
    }
  }

  lemma LowerIsLower(s: string)
    ensures IsLower(Lower(s))
  {
  }

  /** `sub` occurs in `s` starting at position `i`. */
  predicate OccursAt(s: string, i: nat, sub: string) {
    i + |sub| <= |s| && s[i..i + |sub|] == sub
  }

  /** `sub in s`. */
  predicate Contains(s: string, sub: string) {
    exists i: nat :: i <= |s| && OccursAt(s, i, sub)
  }

  /** Position of the leftmost occurrence of `sub` in `s` at or after `from`, if any. */
  function FindFrom(s: string, sub: string, from: nat): (r: Option<nat>)
    requires from <= |s|
    ensures r.None? <==> forall j: nat :: from <= j <= |s| ==> !OccursAt(s, j, sub)
    ensures r.Some? ==> from <= r.value <= |s| && OccursAt(s, r.value, sub)
    ensures r.Some? ==> forall j: nat :: from <= j < r.value ==> !OccursAt(s, j, sub)
    decreases |s| - from
  {
    if OccursAt(s, from, sub) then Some(from)
    else if from == |s| then None
    else FindFrom(s, sub, from + 1)
  }

  /** An occurrence in a slice of `s` is an occurrence in `s`, shifted by where the slice starts. */
  lemma OccursInSlice(s: string, lo: nat, hi: nat, j: nat, sub: string)
    requires lo <= hi <= |s| && OccursAt(s[lo..hi], j, sub)
    ensures OccursAt(s, lo + j, sub)
  {
    var u := s[lo..hi][j..j + |sub|];
    var v := s[lo + j..lo + j + |sub|];
    forall k | 0 <= k < |sub| ensures u[k] == v[k] {
      assert s[lo..hi][j + k] == s[lo + j + k];
    }
    assert u == v;
  }

  lemma OccursInSuffix(s: string, k: nat, j: nat, sub: string)
    requires k <= |s| && OccursAt(s[k..], j, sub)
    ensures OccursAt(s, k + j, sub)
  {
    assert s[k..] == s[k..|s|];
    OccursInSlice(s, k, |s|, j, sub);
  }

  /** An occurrence in `s` at or after `k` is an occurrence in `s[k..]`. */
  lemma OccursInSuffixAgain(s: string, k: nat, j: nat, sub: string)
    requires k <= |s| && OccursAt(s, k + j, sub)
    ensures OccursAt(s[k..], j, sub)
  {
    assert s[k..][j..j + |sub|] == s[k + j..k + j + |sub|];
  }

  /** Where the last piece of `s[from..].split(sep)` starts: separators are consumed left to
      right, and the last piece begins after the last one consumed. */
  function LastPieceStart(s: string, sep: string, from: nat): (p: nat)
    requires sep != [] && from <= |s|
    ensures from <= p <= |s|
    decreases |s| - from
  {
    match FindFrom(s, sep, from)
    case None => from
    case Some(i) => LastPieceStart(s, sep, i + |sep|)
  }

  /** `p` starts the last piece of `s[from..]`: no separator starts at or after it, and it is
      `from` itself or right after an occurrence of the separator; with no separator from
      `from` on, it is `from`. */
  predicate StartsLastPiece(s: string, sep: string, from: nat, p: nat)
    requires from <= p <= |s|
  {
    && (forall j: nat :: p <= j <= |s| ==> !OccursAt(s, j, sep))
    && (p == from || (from + |sep| <= p && OccursAt(s, p - |sep|, sep)))
    && (FindFrom(s, sep, from).None? ==> p == from)
  }

  /** Consuming separators left to right ends where the last piece starts. */
  lemma {:induction false} LastPieceStartIsAfterLastSeparator(s: string, sep: string, from: nat)
    requires sep != [] && from <= |s|
    ensures StartsLastPiece(s, sep, from, LastPieceStart(s, sep, from))
    decreases |s| - from
  {
    var f := FindFrom(s, sep, from);
    if f.None? {
      assert LastPieceStart(s, sep, from) == from;
    } else {
      var i := f.value;
      LastPieceStartIsAfterLastSeparator(s, sep, i + |sep|);
      var p := LastPieceStart(s, sep, i + |sep|);
      assert LastPieceStart(s, sep, from) == p;
      assert from + |sep| <= p;
      if p == i + |sep| {
        assert OccursAt(s, i, sep);
        assert p - |sep| == i;
      }
      assert OccursAt(s, p - |sep|, sep);
      assert forall j: nat :: p <= j <= |s| ==> !OccursAt(s, j, sep);
      assert StartsLastPiece(s, sep, from, p);
    }
  }

  /** `r` is a suffix of `s` free of `sep`: all of `s` when `s` holds no separator, and
      otherwise right after an occurrence of it. */
  predicate IsLastPiece(s: string, sep: string, r: string) {
    && |r| <= |s| && r == s[|s| - |r|..]
    && !Contains(r, sep)
    && (!Contains(s, sep) ==> r == s)
    && (Contains(s, sep) ==> |r| + |sep| <= |s| && OccursAt(s, |s| - |r| - |sep|, sep))
  }

  /** The last piece of `s.split(sep)`, that is `s.split(sep)[-1]`. */
  function SplitLast(s: string, sep: string): (r: string)
    requires sep != []
    ensures IsLastPiece(s, sep, r)
  {
    var p := LastPieceStart(s, sep, 0);
    LastPieceStartIsAfterLastSeparator(s, sep, 0);
    NoOccurrenceInSuffix(s, p, sep);
    assert !Contains(s, sep) ==> p == 0;
    s[p..]
  }

  /** A suffix of `s` holding no occurrence of `sub` in `s` does not contain `sub`. */
  lemma NoOccurrenceInSuffix(s: string, p: nat, sub: string)
    requires p <= |s|
    requires forall j: nat :: p <= j <= |s| ==> !OccursAt(s, j, sub)
    ensures !Contains(s[p..], sub)
  {
    forall i: nat | i <= |s[p..]| && OccursAt(s[p..], i, sub)
      ensures false
    {
      OccursInSuffix(s, p, i, sub);
    }
  }

  /** A piece of a string in which `sub` does not occur does not contain it either. */
  lemma NotContainsInfix(s: string, lo: nat, hi: nat, sub: string)
    requires lo <= hi <= |s|
    requires !Contains(s, sub)
    ensures !Contains(s[lo..hi], sub)
  {
    forall i: nat | i <= |s[lo..hi]| && OccursAt(s[lo..hi], i, sub)
      ensures false
    {
      OccursInSlice(s, lo, hi, i, sub);
    }
  }

  /** When the separator's first character occurs nowhere else in it, and `t` holds no
      separator, splitting `p + sep + t` leaves `t` as the last piece, whatever `p` is. */
  lemma LastPieceAfterFinalSeparator(p: string, sep: string, t: string)
    requires sep != [] && sep[0] !in sep[1..]
    requires !Contains(t, sep)
    ensures SplitLast(p + sep + t, sep) == t
  {
    var s := p + sep + t;
    assert s[|p|..|p| + |sep|] == sep;
    assert t == s[|p| + |sep|..];
    LastPieceAfter(s, sep, |p|, t);
  }

  /** The same, for a separator at position `i` followed by the tail `t`. */
  lemma LastPieceAfter(s: string, sep: string, i: nat, t: string)
    requires sep != [] && sep[0] !in sep[1..]
    requires OccursAt(s, i, sep) && i + |sep| + |t| == |s| && t == s[i + |sep|..]
    requires !Contains(t, sep)
    ensures SplitLast(s, sep) == t
  {
    ContainsAt(s, sep, i);
    PieceAfterSeparator(s, sep, i, t, SplitLast(s, sep));
  }

  /** A separator-free suffix `r` of `s` that is preceded by the separator is the tail `t`
      after the occurrence at `i`, when that tail is separator-free too. */
  lemma PieceAfterSeparator(s: string, sep: string, i: nat, t: string, r: string)
    requires sep != [] && sep[0] !in sep[1..]
    requires OccursAt(s, i, sep) && i + |sep| + |t| == |s| && t == s[i + |sep|..]
    requires !Contains(t, sep)
    requires Contains(s, sep) && IsLastPiece(s, sep, r)
    ensures r == t
  {
    var k := |s| - |r|;
    OccursLater(s, sep, k, i);
    TwoOccurrences(s, sep, k - |sep|, i);
    OccursLater(s, sep, i + |sep|, k - |sep|);
    assert k == i + |sep|;
  }

  /** A string contains what occurs in it. */
  lemma ContainsAt(s: string, sub: string, i: nat)
    requires OccursAt(s, i, sub)
    ensures Contains(s, sub)
  {
    assert i <= |s|;
  }

  /** An occurrence at or after `k` is an occurrence in the suffix from `k`. */
  lemma OccursLater(s: string, sep: string, k: nat, p: nat)
    requires k <= |s|
    ensures k <= p && OccursAt(s, p, sep) ==> Contains(s[k..], sep)
  {
    if k <= p && OccursAt(s, p, sep) {
      OccursInSuffixAgain(s, k, p - k, sep);
      assert p - k <= |s[k..]|;
    }
  }

  /** Two occurrences of a separator whose first character is unique coincide or are
      disjoint. */
  lemma TwoOccurrences(s: string, sep: string, a: nat, b: nat)
    requires sep != [] && sep[0] !in sep[1..]
    requires OccursAt(s, a, sep) && OccursAt(s, b, sep)
    ensures a == b || a + |sep| <= b || b + |sep| <= a
  {
    if a < b {
      NoOverlap(s, sep, a, b);
    } else if b < a {
      NoOverlap(s, sep, b, a);
    }
  }

  /** Two occurrences of a separator whose first character is unique cannot overlap. */
  lemma NoOverlap(s: string, sep: string, a: nat, b: nat)
    requires sep != [] && sep[0] !in sep[1..]
    requires OccursAt(s, a, sep) && OccursAt(s, b, sep) && a < b
    ensures a + |sep| <= b
  {
  }

  /** A one-character string occurs exactly where its character does. */
  lemma ContainsChar(s: string, c: char)
    ensures Contains(s, [c]) <==> c in s
  {
    if c in s {
      var i :| 0 <= i < |s| && s[i] == c;
      assert s[i..i + 1] == [c];
      assert OccursAt(s, i, [c]);
    }
    if Contains(s, [c]) {
      var i: nat :| i <= |s| && OccursAt(s, i, [c]);
      assert s[i..i + 1][0] == s[i];
    }
  }

  /** A prefix none of whose characters can start `sep` adds no occurrence of `sep`. */
  lemma NoSeparatorAfterPrefix(pre: string, t: string, sep: string)
    requires sep != [] && sep[0] !in pre
    requires !Contains(t, sep)
    ensures !Contains(pre + t, sep)
  {
    var s := pre + t;
    forall i: nat | i <= |s| && OccursAt(s, i, sep)
      ensures false
    {
      if i >= |pre| {
        assert s[|pre|..] == t;
        OccursInSuffixAgain(s, |pre|, i - |pre|, sep);
      }
    }
  }

  /** Stripping cannot bring a separator into a string that holds none. */
  lemma StripKeepsNoSeparator(s: string, sep: string)
    requires !Contains(s, sep)
    ensures !Contains(Strip(s), sep)
  {
    var lo := LeadingRun(s, IsSpace);
    NotContainsInfix(s, lo, lo + |Strip(s)|, sep);
  }

  /** `sep.join(xs)`. */
  function Join(sep: string, xs: seq<string>): string
    decreases |xs|
  {
    if |xs| == 0 then ""
    else if |xs| == 1 then xs[0]
    else xs[0] + sep + Join(sep, xs[1..])
  }
}
