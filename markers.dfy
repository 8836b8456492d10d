/**
 The frame markers and the three pattern operations that extraction applies
 to the decoded text: searching for a marker, deleting every "~end", and
 deleting everything up to a "starrt!" (the regular expression `.*starrt!`).
 The pattern matching is written out on byte sequences.
 */
module Markers {
  import opened Bytes

  /** The start marker "starrt!" as bytes. */
  const StartMark: seq<byte> := [0x73, 0x74, 0x61, 0x72, 0x72, 0x74, 0x21]

  /** The end marker "~end" as bytes. */
  const EndMark: seq<byte> := [0x7E, 0x65, 0x6E, 0x64]

  /** `p` occurs in `s` starting at index `i`. */
  predicate OccursAt(s: seq<byte>, p: seq<byte>, i: nat)
  {
    i + |p| <= |s| && s[i..i + |p|] == p
  }

  /** `p` occurs somewhere in `s` (a search for a literal pattern). */
  predicate Contains(s: seq<byte>, p: seq<byte>)
  {
    exists i :: 0 <= i <= |s| && OccursAt(s, p, i)
  }

  /** Positions of a slice are positions of the whole sequence, shifted by the slice's start. */
  lemma OccursInSlice(s: seq<byte>, lo: nat, hi: nat, p: seq<byte>, i: nat)
    requires lo <= hi <= |s| && lo + i + |p| <= hi
    ensures OccursAt(s[lo..hi], p, i) <==> OccursAt(s, p, lo + i)
  {
    var a, b := s[lo..hi][i..i + |p|], s[lo + i..lo + i + |p|];
    assert forall k :: 0 <= k < |a| ==> a[k] == b[k];
    assert a == b;
  }

  /** An occurrence inside a slice is an occurrence in the whole sequence. */
  lemma ContainsSlice(s: seq<byte>, lo: nat, hi: nat, p: seq<byte>)
    requires lo <= hi <= |s|
    ensures Contains(s[lo..hi], p) ==> Contains(s, p)
  {
    if Contains(s[lo..hi], p) {
      var i :| 0 <= i <= hi - lo && OccursAt(s[lo..hi], p, i);
      OccursInSlice(s, lo, hi, p, i);
    }
  }

  /** An occurrence inside a suffix is an occurrence in the whole sequence. */
  lemma ContainsSuffix(s: seq<byte>, lo: nat, p: seq<byte>)
    requires lo <= |s|
    ensures Contains(s[lo..], p) ==> Contains(s, p)
  {
    assert s[lo..] == s[lo..|s|];
    ContainsSlice(s, lo, |s|, p);
  }

  /**
   Replacement of every match of a literal pattern by nothing: matches are
   found left to right and do not overlap, and the text a deletion brings
   together is not searched again.
   */
  function RemoveAll(s: seq<byte>, p: seq<byte>): (r: seq<byte>)
    requires |p| > 0
    ensures |r| <= |s|
    decreases |s|
  {
    if |s| < |p| then s
    else if s[..|p|] == p then RemoveAll(s[|p|..], p)
    else [s[0]] + RemoveAll(s[1..], p)
  }

  /** Deleting a pattern that does not occur changes nothing. */
  lemma {:induction false} RemoveAllAbsent(s: seq<byte>, p: seq<byte>)
    requires |p| > 0 && !Contains(s, p)
    ensures RemoveAll(s, p) == s
    decreases |s|
  {
    if |s| >= |p| {
      assert !OccursAt(s, p, 0);
      ContainsSuffix(s, 1, p);
      RemoveAllAbsent(s[1..], p);
      assert s == [s[0]] + s[1..];
    }
  }

  /**
   When `p` occurs in `x + p` only at its end, deleting every `p` gives back `x`:
   the first match found is the trailing one.
   */
  lemma {:induction false} RemoveAllTrailing(x: seq<byte>, p: seq<byte>)
    requires |p| > 0 && !Contains(x + p[..|p| - 1], p)
    ensures RemoveAll(x + p, p) == x
    decreases |x|
  {
    var s := x + p;
    if |x| == 0 {
      assert s[..|p|] == p;
      assert s[|p|..] == [];
    } else {
      var t := x + p[..|p| - 1];
      if s[..|p|] == p {
        assert t[0..|p|] == s[..|p|];
        assert OccursAt(t, p, 0);
        assert false;
      }
      assert s[1..] == x[1..] + p;
      assert x[1..] + p[..|p| - 1] == t[1..];
      ContainsSuffix(t, 1, p);
      RemoveAllTrailing(x[1..], p);
    }
  }

  /** The characters that end a line for the regular expression `.`. */
  predicate IsLineTerminator(b: byte)
  {
    b == 0x0A || b == 0x0D
  }

  /** The index of the first line terminator of `s` at or after `i`, or |s|. */
  function LineEnd(s: seq<byte>, i: nat): (n: nat)
    requires i <= |s|
    ensures i <= n <= |s|
    decreases |s| - i
  {
    if i == |s| || IsLineTerminator(s[i]) then i else LineEnd(s, i + 1)
  }

  /** LineEnd stops at a line terminator, and at the first one. */
  lemma {:induction false} LineEndIsFirstTerminator(s: seq<byte>, i: nat)
    requires i <= |s|
    ensures var n := LineEnd(s, i);
      && (n < |s| ==> IsLineTerminator(s[n]))
      && (forall j :: i <= j < n ==> !IsLineTerminator(s[j]))
    decreases |s| - i
  {
    if i < |s| && !IsLineTerminator(s[i]) {
      LineEndIsFirstTerminator(s, i + 1);
    }
  }

  /** LineEnd does not stop before `k` when no line terminator lies in [i, k). */
  lemma {:induction false} LineEndAtLeast(s: seq<byte>, i: nat, k: nat)
    requires i <= k <= |s|
    requires forall j :: i <= j < k ==> !IsLineTerminator(s[j])
    ensures LineEnd(s, i) >= k
    decreases |s| - i
  {
    if i < k {
      LineEndAtLeast(s, i + 1, k);
    }
  }

  /**
   The index just after the last occurrence of `p` lying wholly within
   s[lo..hi], or `lo` when there is none.
   */
  function LastEnd(s: seq<byte>, p: seq<byte>, lo: nat, hi: nat): (e: nat)
    requires |p| > 0 && lo <= hi <= |s|
    ensures lo <= e <= hi
    decreases hi - lo
  {
    if hi - lo < |p| then lo
    else if OccursAt(s, p, hi - |p|) then hi
    else LastEnd(s, p, lo, hi - 1)
  }

  /** LastEnd ends an occurrence of `p` (unless it is `lo`), and no occurrence within [lo, hi) ends after it. */
  lemma {:induction false} LastEndIsLast(s: seq<byte>, p: seq<byte>, lo: nat, hi: nat)
    requires |p| > 0 && lo <= hi <= |s|
    ensures var e := LastEnd(s, p, lo, hi);
      && (e == lo || (lo + |p| <= e && OccursAt(s, p, e - |p|)))
      && (forall j :: lo <= j && e < j + |p| <= hi ==> !OccursAt(s, p, j))
    decreases hi - lo
  {
    if hi - lo >= |p| && !OccursAt(s, p, hi - |p|) {
      LastEndIsLast(s, p, lo, hi - 1);
    }
  }

  /** No line terminator occurs in `p`, so `.*` can match up to any occurrence of `p` within a line. */
  predicate NoTerminator(p: seq<byte>)
  {
    forall j :: 0 <= j < |p| ==> !IsLineTerminator(p[j])
  }

  /** No proper suffix of `p` is a prefix of `p`: two occurrences of `p` never overlap. */
  predicate NoBorder(p: seq<byte>)
  {
    forall i :: 0 < i < |p| ==> p[i..] != p[..|p| - i]
  }

  /**
   Replacement of every match of the regular expression `.*` + p in s[i..] by
   nothing. `.` matches any byte but a line terminator and `*` is greedy, so
   in each line the match runs from the start of the line to the end of that
   line's last occurrence of `p`; lines without `p` are kept.
   */
  function RemoveThroughFrom(s: seq<byte>, p: seq<byte>, i: nat): (r: seq<byte>)
    requires |p| > 0 && i <= |s|
    ensures |r| <= |s| - i
    decreases |s| - i
  {
    var n := LineEnd(s, i);
    s[LastEnd(s, p, i, n)..n] + if n == |s| then [] else [s[n]] + RemoveThroughFrom(s, p, n + 1)
  }

  /** The replacement of `.*` + p by nothing over the whole text. */
  function RemoveThrough(s: seq<byte>, p: seq<byte>): (r: seq<byte>)
    requires |p| > 0
    ensures |r| <= |s|
  {
    RemoveThroughFrom(s, p, 0)
  }

  /** A suffix of a sequence is its part before `n`, its element at `n` and its part after `n`. */
  lemma SplitSuffix(s: seq<byte>, i: nat, n: nat)
    requires i <= n < |s|
    ensures s[i..] == s[i..n] + [s[n]] + s[n + 1..]
  {
  }

  /** Text whose part from `i` on holds no `p` is left as it is. */
  lemma {:induction false} RemoveThroughAbsent(s: seq<byte>, p: seq<byte>, i: nat)
    requires |p| > 0 && i <= |s|
    requires forall j :: i <= j ==> !OccursAt(s, p, j)
    ensures RemoveThroughFrom(s, p, i) == s[i..]
    decreases |s| - i
  {
    var n := LineEnd(s, i);
    assert LastEnd(s, p, i, n) == i by {
      LastEndIsLast(s, p, i, n);
    }
    if n < |s| {
      assert RemoveThroughFrom(s, p, n + 1) == s[n + 1..] by {
        RemoveThroughAbsent(s, p, n + 1);
      }
      SplitSuffix(s, i, n);
    }
  }

  /** The first line of a text that starts with `p` runs at least past that `p`. */
  lemma LineEndLeading(s: seq<byte>, p: seq<byte>)
    requires NoTerminator(p) && OccursAt(s, p, 0)
    ensures LineEnd(s, 0) >= |p|
  {
    assert forall j :: 0 <= j < |p| ==> s[j] == s[0..|p|][j];
    LineEndAtLeast(s, 0, |p|);
  }

  /** The last occurrence of `p` before `n` ends at |p| when the leading one is the only one. */
  lemma LastEndLeading(s: seq<byte>, p: seq<byte>, n: nat)
    requires |p| > 0 && |p| <= n <= |s| && OccursAt(s, p, 0)
    requires forall j :: 0 < j ==> !OccursAt(s, p, j)
    ensures LastEnd(s, p, 0, n) == |p|
  {
    LastEndIsLast(s, p, 0, n);
  }

  /**
   Deleting through `p` strips exactly a leading `p` from a text that holds
   no other, when `p` holds no line terminator.
   */
  lemma RemoveThroughLeading(s: seq<byte>, p: seq<byte>)
    requires |p| > 0 && NoTerminator(p) && OccursAt(s, p, 0)
    requires forall j :: 0 < j ==> !OccursAt(s, p, j)
    ensures RemoveThrough(s, p) == s[|p|..]
  {
    var n := LineEnd(s, 0);
    LeadingLine(s, p, n);
    FirstLineThrough(s, p, n);
  }

  /**
   In a text that starts with `p`, holds no other and whose first line ends
   at `n`, that line's last `p` is the leading one and the text after the
   line holds no `p` to delete.
   */
  lemma LeadingLine(s: seq<byte>, p: seq<byte>, n: nat)
    requires |p| > 0 && NoTerminator(p) && OccursAt(s, p, 0)
    requires forall j :: 0 < j ==> !OccursAt(s, p, j)
    requires n == LineEnd(s, 0)
    ensures |p| <= n && LastEnd(s, p, 0, n) == |p|
    ensures n < |s| ==> RemoveThroughFrom(s, p, n + 1) == s[n + 1..]
  {
    LineEndLeading(s, p);
    LastEndLeading(s, p, n);
    if n < |s| {
      RemoveThroughAbsent(s, p, n + 1);
    }
  }

  /**
   Deleting through `p` from a text whose first line ends at `n` and has
   its last `p` ending at |p| keeps the rest of that line and, unchanged,
   what follows it.
   */
  lemma FirstLineThrough(s: seq<byte>, p: seq<byte>, n: nat)
    requires |p| > 0 && |p| <= n <= |s| && LineEnd(s, 0) == n && LastEnd(s, p, 0, n) == |p|
    requires n < |s| ==> RemoveThroughFrom(s, p, n + 1) == s[n + 1..]
    ensures RemoveThrough(s, p) == s[|p|..]
  {
    var first := s[LastEnd(s, p, 0, n)..n];
    assert first == s[|p|..n];
    if n == |s| {
      assert RemoveThroughFrom(s, p, 0) == first;
    } else {
      assert RemoveThroughFrom(s, p, 0) == first + ([s[n]] + RemoveThroughFrom(s, p, n + 1));
      SplitSuffix(s, |p|, n);
    }
  }

  /** An occurrence of `p` in a + b past a is an occurrence in b. */
  lemma OccursShift(a: seq<byte>, b: seq<byte>, p: seq<byte>, j: nat)
    ensures OccursAt(a + b, p, |a| + j) <==> OccursAt(b, p, j)
  {
    if j + |p| <= |b| {
      var u, w := (a + b)[|a| + j..|a| + j + |p|], b[j..j + |p|];
      assert forall k :: 0 <= k < |u| ==> u[k] == w[k];
      assert u == w;
    }
  }

  /** Two occurrences of `p` less than |p| apart make a border of `p`. */
  lemma OverlapIsBorder(s: seq<byte>, p: seq<byte>, i: nat)
    requires OccursAt(s, p, 0) && 0 < i < |p|
    ensures OccursAt(s, p, i) ==> p[i..] == p[..|p| - i]
  {
    if OccursAt(s, p, i) {
      var a, b := p[i..], p[..|p| - i];
      assert forall k :: 0 <= k < |a| ==> a[k] == s[i + k] == b[k];
    }
  }

  /** In p + x, where x holds no `p` and `p` has no border, `p` occurs only at the front. */
  lemma OnlyLeading(p: seq<byte>, x: seq<byte>)
    requires |p| > 0 && NoBorder(p) && !Contains(x, p)
    ensures OccursAt(p + x, p, 0)
    ensures forall j :: 0 < j ==> !OccursAt(p + x, p, j)
  {
    var s := p + x;
    assert s[0..|p|] == p;
    forall j | 0 < j
      ensures !OccursAt(s, p, j)
    {
      if j < |p| {
        OverlapIsBorder(s, p, j);
      } else {
        OccursShift(p, x, p, j - |p|);
      }
    }
  }

  /** Deleting through `p` strips exactly a leading `p` from p + x when x holds none. */
  lemma RemoveThroughFront(p: seq<byte>, x: seq<byte>)
    requires |p| > 0 && NoBorder(p) && NoTerminator(p) && !Contains(x, p)
    ensures RemoveThrough(p + x, p) == x
  {
    OnlyLeading(p, x);
    RemoveThroughLeading(p + x, p);
    assert (p + x)[|p|..] == x;
  }


  /**
   In a + m + p[..|p| - 1], a text that stops one byte short of a trailing p,
   the pattern does not occur when it does not occur in m, the first byte of p
   is not in a, and the last byte of p is not among its others.
   */
  lemma NotBeforeTrailing(a: seq<byte>, m: seq<byte>, p: seq<byte>)
    requires |p| > 0 && !Contains(m, p)
    requires forall j :: 0 <= j < |a| ==> a[j] != p[0]
    requires forall j :: 0 <= j < |p| - 1 ==> p[j] != p[|p| - 1]
    ensures !Contains(a + m + p[..|p| - 1], p)
  {
    var t := a + m + p[..|p| - 1];
    if Contains(t, p) {
      var i :| 0 <= i <= |t| && OccursAt(t, p, i);
      assert t[i] == t[i..i + |p|][0] == p[0];
      assert t[i + |p| - 1] == t[i..i + |p|][|p| - 1] == p[|p| - 1];
      if |a| <= i && i + |p| <= |a| + |m| {
        var j := i - |a|;
        assert t[i..i + |p|] == m[j..j + |p|];
        assert OccursAt(m, p, j);
      }
    }
  }

  /** The properties of the two markers that framing relies on. */
  lemma MarkerFacts()
    ensures NoBorder(StartMark) && NoTerminator(StartMark)
    ensures forall j :: 0 <= j < |StartMark| ==> StartMark[j] != EndMark[0]
    ensures forall j :: 0 <= j < |EndMark| - 1 ==> EndMark[j] != EndMark[|EndMark| - 1]
  {
    forall i | 0 < i < |StartMark| ensures StartMark[i..] != StartMark[..|StartMark| - i] {
      assert StartMark[i..][0] == StartMark[i] != StartMark[0];
    }
  }
}
