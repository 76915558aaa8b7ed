/**
 * The handful of Python `str` operations the pipeline relies on, over `seq<char>`:
 * `strip()`, `in`, `split(sep)[0]` / `split(sep)[1]` and single-character `replace`.
 */
module Strings {
  import opened Wrappers

  /** The characters `str.isspace()` accepts, which `str.strip()` with no argument removes. */
  predicate IsSpace(c: char) {
    || c == ' ' || c == '\t' || c == '\n' || c == '\r' || c == '\U{b}' || c == '\U{c}'
    || ('\U{1c}' <= c <= '\U{1f}')
    || c == '\U{85}' || c == '\U{a0}' || c == '\U{1680}'
    || ('\U{2000}' <= c <= '\U{200a}')
    || c == '\U{2028}' || c == '\U{2029}' || c == '\U{202f}' || c == '\U{205f}' || c == '\U{3000}'
  }

  predicate AllSpace(s: string) {
    forall k :: 0 <= k < |s| ==> IsSpace(s[k])
  }

  /** Length of the run of whitespace that opens `s`. */
  function LeadLen(s: string): (n: nat)
    ensures n <= |s|
    ensures forall k :: 0 <= k < n ==> IsSpace(s[k])
    ensures n < |s| ==> !IsSpace(s[n])
  {
    if s == [] || !IsSpace(s[0]) then 0 else 1 + LeadLen(s[1..])
  }

  /** Length of the run of whitespace that closes `s`. */
  function TrailLen(s: string): (n: nat)
    ensures n <= |s|
    ensures forall k :: |s| - n <= k < |s| ==> IsSpace(s[k])
    ensures n < |s| ==> !IsSpace(s[|s| - 1 - n])
  {
    if s == [] || !IsSpace(s[|s| - 1]) then 0 else 1 + TrailLen(s[..|s| - 1])
  }

  /**
   * `r` is what is left of `s` after removing a whitespace prefix of length `i` and a
   * whitespace suffix, and `r` neither starts nor ends with whitespace.
   */
  predicate Trims(s: string, r: string, i: nat) {
    && i + |r| <= |s|
    && s[i..i + |r|] == r
    && AllSpace(s[..i])
    && AllSpace(s[i + |r|..])
    && (r != [] ==> !IsSpace(r[0]) && !IsSpace(r[|r| - 1]))
  }

  /** Python's `s.strip()`. */
  function Strip(s: string): (r: string)
    ensures Trims(s, r, LeadLen(s))
    ensures r == [] <==> AllSpace(s)
  {
    var t := s[LeadLen(s)..];
    var r := t[..|t| - TrailLen(t)];
    StripTrims(s, LeadLen(s), t, r);
    StripEmpty(s, t, r);
    r
  }

  /** Cutting the leading and then the trailing whitespace run leaves a trimming of `s`. */
  lemma StripTrims(s: string, i: nat, t: string, r: string)
    requires i == LeadLen(s) && t == s[i..] && r == t[..|t| - TrailLen(t)]
    ensures Trims(s, r, i)
  {
    assert s[i..i + |r|] == r;
    assert AllSpace(s[..i]) by {
      forall k | 0 <= k < i ensures IsSpace(s[..i][k]) {
        assert s[..i][k] == s[k];
      }
    }
    assert AllSpace(s[i + |r|..]) by {
      assert s[i + |r|..] == t[|r|..];
      forall k | 0 <= k < |t| - |r| ensures IsSpace(t[|r|..][k]) {
        assert t[|r|..][k] == t[|r| + k];
      }
    }
    if r != [] {
      assert r[0] == s[i];
      assert r[|r| - 1] == t[|t| - 1 - TrailLen(t)];
    }
  }

  /** Nothing is left after the cuts exactly when `s` is all whitespace. */
  lemma StripEmpty(s: string, t: string, r: string)
    requires t == s[LeadLen(s)..] && r == t[..|t| - TrailLen(t)]
    ensures r == [] <==> AllSpace(s)
  {
    var i := LeadLen(s);
    if AllSpace(s) {
      assert i == |s|;
    }
  }

  /** Only one trimming of `s` exists, so any `Trims` witness is `Strip(s)`. */
  lemma StripUnique(s: string, r: string, i: nat)
    requires Trims(s, r, i)
    ensures r == Strip(s)
  {
    var r' := Strip(s);
    var i' := LeadLen(s);
    if r == [] {
      assert s == s[..i] + s[i..];
      assert AllSpace(s);
    } else {
      assert s[i] == r[0];
      assert forall k :: 0 <= k < i ==> IsSpace(s[k]) by {
        forall k | 0 <= k < i ensures IsSpace(s[k]) { assert s[k] == s[..i][k]; }
      }
      assert i' == i;
      assert r' != [] by {
        assert !AllSpace(s) by { assert !IsSpace(s[i]); }
      }
      assert s[i + |r| - 1] == r[|r| - 1];
      assert s[i' + |r'| - 1] == r'[|r'| - 1];
      assert forall k :: i + |r| <= k < |s| ==> IsSpace(s[k]) by {
        forall k | i + |r| <= k < |s| ensures IsSpace(s[k]) { assert s[k] == s[i + |r|..][k - (i + |r|)]; }
      }
      assert forall k :: i' + |r'| <= k < |s| ==> IsSpace(s[k]) by {
        forall k | i' + |r'| <= k < |s| ensures IsSpace(s[k]) { assert s[k] == s[i' + |r'|..][k - (i' + |r'|)]; }
      }
      assert |r| == |r'|;
    }
  }

  lemma StripIdempotent(s: string)
    ensures Strip(Strip(s)) == Strip(s)
  {
    var r := Strip(s);
    assert Trims(r, r, 0) by {
      assert r[0..|r|] == r;
      assert r[|r|..] == [];
    }
    StripUnique(r, r, 0);
  }

  /** Whitespace added around a string does not change its stripped form. */
  lemma StripPadded(a: string, x: string, b: string)
    requires AllSpace(a) && AllSpace(b)
    ensures Strip(a + x + b) == Strip(x)
  {
    PaddedTrims(a, x, b, Strip(x), LeadLen(x));
    StripUnique(a + x + b, Strip(x), |a| + LeadLen(x));
  }

  /** A trimming of `x` is a trimming of `x` padded with whitespace on both sides. */
  lemma PaddedTrims(a: string, x: string, b: string, r: string, i: nat)
    requires AllSpace(a) && AllSpace(b) && Trims(x, r, i)
    ensures Trims(a + x + b, r, |a| + i)
  {
    MiddleSlices(a, x, b, i, i + |r|);
    AllSpaceConcat(a, x[..i]);
    AllSpaceConcat(x[i + |r|..], b);
  }

  /** Slicing `a + x + b` around a stretch of `x`. */
  lemma MiddleSlices(a: string, x: string, b: string, lo: nat, hi: nat)
    requires lo <= hi <= |x|
    ensures (a + x + b)[|a| + lo..|a| + hi] == x[lo..hi]
    ensures (a + x + b)[..|a| + lo] == a + x[..lo]
    ensures (a + x + b)[|a| + hi..] == x[hi..] + b
  {
  }

  /** Two whitespace runs joined are one. */
  lemma AllSpaceConcat(u: string, v: string)
    requires AllSpace(u) && AllSpace(v)
    ensures AllSpace(u + v)
  {
    forall k | 0 <= k < |u + v| ensures IsSpace((u + v)[k]) {
      if k >= |u| {
        assert (u + v)[k] == v[k - |u|];
      }
    }
  }

  /** `p` occurs in `s` starting at index `i`. */
  predicate OccursAt(s: string, p: string, i: nat) {
    i + |p| <= |s| && s[i..i + |p|] == p
  }

  /** Python's `p in s`. */
  predicate Contains(s: string, p: string) {
    exists i: nat :: i <= |s| && OccursAt(s, p, i)
  }

  /** Index of the first occurrence of `p` in `s` at or after `from`. */
  function IndexFrom(s: string, p: string, from: nat): (r: Option<nat>)
    decreases |s| - from
    ensures r.Some? ==> from <= r.value && OccursAt(s, p, r.value)
    ensures r.Some? ==> forall j: nat :: from <= j < r.value ==> !OccursAt(s, p, j)
    ensures r.None? ==> forall j: nat :: from <= j ==> !OccursAt(s, p, j)
  {
    if from + |p| > |s| then None
    else if s[from..from + |p|] == p then Some(from)
    else IndexFrom(s, p, from + 1)
  }

  /** Index of the first occurrence of `p` in `s` (Python's `s.find(p)`, with `None` for -1). */
  function IndexOf(s: string, p: string): (r: Option<nat>)
    ensures r.Some? <==> Contains(s, p)
    ensures r.Some? ==> OccursAt(s, p, r.value) && forall j: nat :: j < r.value ==> !OccursAt(s, p, j)
  {
    IndexFrom(s, p, 0)
  }

  /** `s.split(p)[0]`: `s` up to the first occurrence of `p`, or all of `s` if there is none. */
  function Before(s: string, p: string): (r: string)
    requires p != []
    ensures |r| <= |s| && r == s[..|r|]
    ensures Contains(s, p) <==> OccursAt(s, p, |r|)
    ensures !Contains(s, p) ==> r == s
    ensures forall j: nat :: j < |r| ==> !OccursAt(s, p, j)
    ensures !Contains(r, p)
  {
    match IndexOf(s, p)
    case None => s
    case Some(i) =>
      var r := s[..i];
      assert forall j: nat :: j <= |r| && OccursAt(r, p, j) ==> OccursAt(s, p, j) && j < i by {
        forall j: nat | j <= |r| && OccursAt(r, p, j) ensures OccursAt(s, p, j) && j < i {
          assert s[j..j + |p|] == r[j..j + |p|];
        }
      }
      r
  }

  /** What `s.split(p)` puts after its first piece: `s` from the end of the first occurrence of `p`. */
  function After(s: string, p: string): (r: string)
    requires p != [] && Contains(s, p)
    ensures s == Before(s, p) + p + r
  {
    var i := IndexOf(s, p).value;
    assert s == s[..i] + s[i..i + |p|] + s[i + |p|..];
    s[i + |p|..]
  }

  /** Python's `s.split(p)[1]`: the text between the first and second occurrences of `p`. */
  function SecondPiece(s: string, p: string): (r: string)
    requires p != [] && Contains(s, p)
    ensures !Contains(r, p)
  {
    Before(After(s, p), p)
  }

  /** Where the next occurrence of `p` at or after `from` starts, or the end of `s` if there is none. */
  function NextFrom(s: string, p: string, from: nat): (e: nat)
    requires from <= |s|
    ensures from <= e <= |s| && (e == |s| || OccursAt(s, p, e))
    ensures forall k: nat :: from <= k < e ==> !OccursAt(s, p, k)
  {
    match IndexFrom(s, p, from)
    case Some(k) => k
    case None => |s|
  }

  /**
   * Where the second piece sits: it starts right after the first occurrence of `p` and
   * runs up to the next occurrence of `p`, or to the end of `s` if there is none.
   */
  lemma SecondPieceLocated(s: string, p: string)
    requires p != [] && Contains(s, p)
    ensures var i := |Before(s, p)| + |p|; i <= |s| && SecondPiece(s, p) == s[i..NextFrom(s, p, i)]
  {
    var i := IndexOf(s, p).value;
    FirstFromUnique(s, p, 0, |Before(s, p)|, i);
    SecondPieceBetween(s, p, i, NextFrom(s, p, i + |p|));
  }

  /** What follows the first piece and the separator is the rest of `s`. */
  lemma AfterIsSuffix(s: string, p: string)
    requires p != [] && Contains(s, p)
    ensures After(s, p) == s[|Before(s, p)| + |p|..]
  {
    assert s == Before(s, p) + p + After(s, p);
  }

  /** `split(p)[0]` runs to the end of `s` or stops where `p` occurs. */
  lemma BeforeEnds(s: string, p: string)
    requires p != []
    ensures |Before(s, p)| == |s| || OccursAt(s, p, |Before(s, p)|)
  {
  }

  /** Two indices that are each the first from `lo` where `p` occurs (or the end) are the same. */
  lemma FirstFromUnique(s: string, p: string, lo: nat, a: nat, b: nat)
    requires p != [] && lo <= a <= |s| && lo <= b <= |s|
    requires a == |s| || OccursAt(s, p, a)
    requires b == |s| || OccursAt(s, p, b)
    requires forall k: nat :: lo <= k < a ==> !OccursAt(s, p, k)
    requires forall k: nat :: lo <= k < b ==> !OccursAt(s, p, k)
    ensures a == b
  {
  }

  /** Where `p` first occurs at `i` and next at `j` (or `j` is the end), `split(p)[1]` is `s[i + |p|..j]`. */
  lemma SecondPieceBetween(s: string, p: string, i: nat, j: nat)
    requires p != [] && OccursAt(s, p, i) && forall k: nat :: k < i ==> !OccursAt(s, p, k)
    requires i + |p| <= j <= |s| && (j == |s| || OccursAt(s, p, j))
    requires forall k: nat :: i + |p| <= k < j ==> !OccursAt(s, p, k)
    ensures Contains(s, p) && SecondPiece(s, p) == s[i + |p|..j]
  {
    assert Contains(s, p);
    var t := s[i + |p|..];
    assert After(s, p) == t by {
      FirstFromUnique(s, p, 0, |Before(s, p)|, i);
      AfterIsSuffix(s, p);
    }
    BeforeInSuffix(s, p, i + |p|, j);
  }

  /** `split(p)[0]` of the suffix `s[lo..]` stops at the first occurrence of `p` from `lo`, or the end. */
  lemma BeforeInSuffix(s: string, p: string, lo: nat, m: nat)
    requires p != [] && lo <= m <= |s| && (m == |s| || OccursAt(s, p, m))
    requires forall k: nat :: lo <= k < m ==> !OccursAt(s, p, k)
    ensures Before(s[lo..], p) == s[lo..m]
  {
    assert s[lo..] == s[lo..|s|];
    BeforeInSlice(s, p, lo, |s|, m);
  }

  /** An occurrence inside `s[lo..hi]` is one in `s` that ends by `hi`, shifted by `lo`. */
  lemma SliceOccurs(s: string, p: string, lo: nat, hi: nat, k: nat)
    requires lo <= hi <= |s|
    ensures OccursAt(s[lo..hi], p, k) <==> lo + k + |p| <= hi && OccursAt(s, p, lo + k)
  {
    if lo + k + |p| <= hi {
      var u, v := s[lo..hi][k..k + |p|], s[lo + k..lo + k + |p|];
      forall x | 0 <= x < |p| ensures u[x] == v[x] {
        assert s[lo..hi][k + x] == s[lo + k + x];
      }
      assert u == v;
    }
  }

  /** `split(p)[0]` of `s[lo..hi]` stops at the first occurrence of `p` lying wholly in the slice. */
  lemma BeforeInSlice(s: string, p: string, lo: nat, hi: nat, m: nat)
    requires p != [] && lo <= m <= hi <= |s|
    requires m == hi || (m + |p| <= hi && OccursAt(s, p, m))
    requires forall k: nat :: lo <= k < m && k + |p| <= hi ==> !OccursAt(s, p, k)
    ensures Before(s[lo..hi], p) == s[lo..m]
  {
    var w := s[lo..hi];
    var b := Before(w, p);
    forall k: nat | k < m - lo ensures !OccursAt(w, p, k) {
      SliceOccurs(s, p, lo, hi, k);
    }
    SliceOccurs(s, p, lo, hi, m - lo);
    BeforeEnds(w, p);
    FirstFromUnique(w, p, 0, |b|, m - lo);
    assert b == w[..m - lo];
  }

  /** A string containing `p + q` contains `p`. */
  lemma ContainsPrefix(s: string, p: string, q: string)
    requires Contains(s, p + q)
    ensures Contains(s, p)
  {
    var i: nat :| i <= |s| && OccursAt(s, p + q, i);
    assert s[i..i + |p|] == (p + q)[..|p|];
    assert OccursAt(s, p, i);
  }

  /** A string free of `p` has no slice that contains `p`. */
  lemma SliceAvoids(s: string, p: string, lo: nat, hi: nat)
    requires lo <= hi <= |s|
    requires !Contains(s, p)
    ensures !Contains(s[lo..hi], p)
  {
    if Contains(s[lo..hi], p) {
      var j: nat :| j <= hi - lo && OccursAt(s[lo..hi], p, j);
      SliceOccurs(s, p, lo, hi, j);
    }
  }

  /** Python's `s.replace(c, d)` for single characters `c` and `d`. */
  function ReplaceChar(s: string, c: char, d: char): (r: string)
    ensures |r| == |s|
    ensures forall k :: 0 <= k < |s| ==> r[k] == if s[k] == c then d else s[k]
    ensures c != d ==> c !in r
  {
    if s == [] then []
    else [if s[0] == c then d else s[0]] + ReplaceChar(s[1..], c, d)
  }
}
