/**
 The least-significant-bit steganography of the image class, as functions on
 the pixel buffer. The message is framed by "starrt!" and "~end"; every bit
 of the framed message, most significant bit of each byte first, goes into
 the least-significant bit of every third byte of the buffer starting at
 index 2 (the blue channel of packed RGB pixels). Extraction reads those bits
 back, stops at the first "~end", gives up early when the first seven
 characters are not "starrt!", and then removes the markers.
 */
module Steganography {
  import opened Bytes
  import opened Markers

  /** The framed message that the capacity check stores: "starrt!" + m + "~end". */
  function Frame(m: seq<byte>): (f: seq<byte>)
    ensures |f| == |m| + |StartMark| + |EndMark| == |m| + 11
    ensures f[..7] == StartMark && f[7..|f| - 4] == m && f[|f| - 4..] == EndMark
  {
    StartMark + m + EndMark
  }

  /** The capacity test: one pixel per bit of the framed message. */
  predicate Fits(framed: seq<byte>, width: int, height: int)
  {
    |framed| * 8 <= width * height
  }

  /** The buffer index that carries bit number `k` of the framed message. */
  function SlotIndex(k: nat): nat
  {
    2 + 3 * k
  }

  /** Bit number `k` of the message's bit stream: bit 7 - k % 8 of byte k / 8. */
  function StreamBit(m: seq<byte>, k: nat): (bit: byte)
    requires k < 8 * |m|
    ensures bit <= 1
  {
    BitOf(m[k / 8], 7 - k % 8)
  }

  /** Index `i` is the slot of a bit before bit number `n`. */
  predicate IsSlotBefore(i: nat, n: nat)
  {
    i % 3 == 2 && i / 3 < n
  }

  /** The slot of bit `k` is an index with remainder 2 and quotient k by 3. */
  lemma SlotIndexParts(k: nat)
    ensures SlotIndex(k) % 3 == 2 && SlotIndex(k) / 3 == k
  {
    DivUnique(SlotIndex(k), 3, k, 2);
  }

  /**
   The buffer after the first `n` bits of the stream of `m` have been
   written: each slot before bit `n` carries its bit, every other byte is
   as in `d`. Bits whose slot lies past the end of the buffer are not
   written.
   */
  function EmbedBits(d: seq<byte>, m: seq<byte>, n: nat): (r: seq<byte>)
    requires n <= 8 * |m|
    ensures |r| == |d|
    ensures forall k {:trigger r[SlotIndex(k)]} :: 0 <= k < n && SlotIndex(k) < |d| ==> Lsb(r[SlotIndex(k)]) == StreamBit(m, k)
    ensures forall i :: 0 <= i < |d| ==> r[i] / 2 == d[i] / 2
    ensures forall i :: 0 <= i < |d| && !IsSlotBefore(i, n) ==> r[i] == d[i]
  {
    var r := seq(|d|, i requires 0 <= i < |d| => if IsSlotBefore(i, n) then SetLsb(d[i], StreamBit(m, i / 3)) else d[i]);
    assert forall k {:trigger r[SlotIndex(k)]} :: 0 <= k < n && SlotIndex(k) < |d| ==> Lsb(r[SlotIndex(k)]) == StreamBit(m, k) by {
      forall k | 0 <= k < n && SlotIndex(k) < |d|
        ensures Lsb(r[SlotIndex(k)]) == StreamBit(m, k)
      {
        SlotIndexParts(k);
      }
    }
    r
  }

  /** The whole framed message embedded. */
  function Embedded(d: seq<byte>, m: seq<byte>): (r: seq<byte>)
    ensures |r| == |d|
  {
    EmbedBits(d, m, 8 * |m|)
  }

  /** Writing one more bit changes exactly its slot. */
  lemma EmbedBitsStep(d: seq<byte>, m: seq<byte>, n: nat)
    requires n < 8 * |m| && SlotIndex(n) < |d|
    ensures EmbedBits(d, m, n + 1) == EmbedBits(d, m, n)[SlotIndex(n) := SetLsb(d[SlotIndex(n)], StreamBit(m, n))]
  {
    SlotIndexParts(n);
    var a, b := EmbedBits(d, m, n + 1), EmbedBits(d, m, n)[SlotIndex(n) := SetLsb(d[SlotIndex(n)], StreamBit(m, n))];
    forall i | 0 <= i < |d|
      ensures a[i] == b[i]
    {
      if i != SlotIndex(n) {
        assert IsSlotBefore(i, n + 1) == IsSlotBefore(i, n) by {
          if i % 3 == 2 && i / 3 == n {
            DivUnique(i, 3, n, 2);
          }
        }
      }
    }
  }

  /** Before bit `n` is written, its slot still holds the original byte. */
  lemma SlotUnwritten(d: seq<byte>, m: seq<byte>, n: nat)
    requires n <= 8 * |m| && SlotIndex(n) < |d|
    ensures EmbedBits(d, m, n)[SlotIndex(n)] == d[SlotIndex(n)]
  {
    SlotIndexParts(n);
  }

  /** Bit `r` of byte `j` of the message goes to the slot of stream bit 8 j + 7 - r. */
  lemma StreamBitOfByte(m: seq<byte>, j: nat, r: nat)
    requires j < |m| && r < 8
    ensures 8 * j + 7 - r < 8 * |m| && StreamBit(m, 8 * j + 7 - r) == BitOf(m[j], r)
  {
    DivUnique(8 * j + 7 - r, 8, j, 7 - r);
  }

  /**
   When the framed message fits in the pixels and every pixel has at least
   three channels, every slot the embedding writes lies inside the buffer.
   */
  lemma CheckedFrameInBounds(framed: seq<byte>, width: nat, height: nat, channels: nat)
    requires Fits(framed, width, height) && channels >= 3
    ensures 24 * |framed| <= width * height * channels
    ensures forall k :: 0 <= k < 8 * |framed| ==> SlotIndex(k) < width * height * channels
  {
    var p := width * height;
    assert p * channels == p * 3 + p * (channels - 3);
  }

  /**
   The value assembled from the least-significant bits of `t` buffer bytes
   d[i], d[i + 3], ..., most significant bit first.
   */
  function Gather(d: seq<byte>, i: nat, t: nat): (v: nat)
    requires t <= 8 && i + 21 < |d|
    ensures v < Pow2(t)
  {
    if t == 0 then 0 else 2 * Gather(d, i, t - 1) + Lsb(d[i + 3 * (t - 1)]) as int
  }

  /**
   Or-ing read number t into bit r of a partial character, whose bits r
   and below are clear, gives the value of t + 1 reads shifted by r.
   */
  lemma GatherShift(d: seq<byte>, i: nat, t: nat, r: nat)
    requires t < 8 && i + 21 < |d|
    ensures Gather(d, i, t + 1) * Pow2(r) == Gather(d, i, t) * Pow2(r + 1) + Lsb(d[i + 3 * t]) as int * Pow2(r)
  {
    assert Gather(d, i, t + 1) == 2 * Gather(d, i, t) + Lsb(d[i + 3 * t]) as int;
    assert Pow2(r + 1) == 2 * Pow2(r);
    ShiftIn(Gather(d, i, t), Lsb(d[i + 3 * t]) as int, Pow2(r));
  }

  /** Shifting left by one more place and adding a bit, in arithmetic. */
  lemma ShiftIn(g: int, b: int, p: int)
    ensures (2 * g + b) * p == g * (2 * p) + b * p
  {
  }

  /** One character of the hidden text: the eight bits read from d[i], d[i + 3], ..., d[i + 21]. */
  function DecodeChar(d: seq<byte>, i: nat): byte
    requires i + 21 < |d|
  {
    assert Pow2(8) == 256;
    Gather(d, i, 8) as byte
  }

  /** Bit `r` of a value assembled from `t` reads is the least-significant bit of read number t - 1 - r. */
  lemma {:induction false} GatherBit(d: seq<byte>, i: nat, t: nat, r: nat)
    requires r < t <= 8 && i + 21 < |d|
    ensures Bit(Gather(d, i, t), r) == Lsb(d[i + 3 * (t - 1 - r)]) as nat
    decreases r
  {
    if r > 0 {
      GatherBit(d, i, t - 1, r - 1);
    }
  }

  /** Bit `r` of a decoded character is the least-significant bit of read number 7 - r. */
  lemma DecodeCharBits(d: seq<byte>, i: nat, r: nat)
    requires i + 21 < |d| && r < 8
    ensures BitOf(DecodeChar(d, i), r) == Lsb(d[i + 3 * (7 - r)])
  {
    GatherBit(d, i, 8, r);
  }

  /** The characters number 0 .. n - 1 of the hidden text, character k read from index 2 + 24 k on. */
  function Decoded(d: seq<byte>, n: nat): (s: seq<byte>)
    requires 24 * n <= |d|
    ensures |s| == n
  {
    seq(n, k requires 0 <= k < n => DecodeChar(d, 2 + 24 * k))
  }

  /** The slot of stream bit `k` of an embedded message carries that bit. */
  lemma EmbeddedSlot(d: seq<byte>, m: seq<byte>, k: nat)
    requires k < 8 * |m| && 24 * |m| <= |d|
    ensures SlotIndex(k) < |d| && Lsb(Embedded(d, m)[SlotIndex(k)]) == StreamBit(m, k)
  {
  }

  /** Bit `r` of a character decoded from an embedded message is bit `r` of the message byte. */
  lemma DecodeEmbeddedBit(d: seq<byte>, m: seq<byte>, j: nat, r: nat)
    requires j < |m| && 24 * |m| <= |d| && r < 8
    ensures BitOf(DecodeChar(Embedded(d, m), 2 + 24 * j), r) == BitOf(m[j], r)
  {
    var k := 8 * j + 7 - r;
    EmbeddedSlot(d, m, k);
    DecodeSlotBit(Embedded(d, m), m, j, r);
  }

  /** A buffer whose slot for bit `r` of message byte `j` carries that bit decodes it there. */
  lemma DecodeSlotBit(e: seq<byte>, m: seq<byte>, j: nat, r: nat)
    requires j < |m| && 24 * |m| <= |e| && r < 8
    requires 8 * j + 7 - r < 8 * |m| && Lsb(e[SlotIndex(8 * j + 7 - r)]) == StreamBit(m, 8 * j + 7 - r)
    ensures BitOf(DecodeChar(e, 2 + 24 * j), r) == BitOf(m[j], r)
  {
    var k := 8 * j + 7 - r;
    var at := 2 + 24 * j + 3 * (7 - r);
    assert at == SlotIndex(k);
    assert BitOf(DecodeChar(e, 2 + 24 * j), r) == Lsb(e[at]) by {
      DecodeCharBits(e, 2 + 24 * j, r);
    }
    assert StreamBit(m, k) == BitOf(m[j], r) by {
      StreamBitOfByte(m, j, r);
    }
  }


  /** Decoding an embedded message gives back each of its bytes. */
  lemma DecodeEmbedded(d: seq<byte>, m: seq<byte>, j: nat)
    requires j < |m| && 24 * |m| <= |d|
    ensures DecodeChar(Embedded(d, m), 2 + 24 * j) == m[j]
  {
    forall r | 0 <= r < 8
      ensures BitOf(DecodeChar(Embedded(d, m), 2 + 24 * j), r) == BitOf(m[j], r)
    {
      DecodeEmbeddedBit(d, m, j, r);
    }
    SameBits(DecodeChar(Embedded(d, m), 2 + 24 * j), m[j]);
  }

  /**
   The reading loop of extraction, continued from the characters `out`
   already read: the next character starts at index 2 + 24 |out|. The loop
   ends when that character's last read, 21 bytes further, would pass the
   end of the buffer; after each character it stops once the text holds
   "~end", and it discards everything once seven or more characters hold no
   "starrt!".
   */
  function Scan(d: seq<byte>, out: seq<byte>): (r: seq<byte>)
    decreases |d| - 24 * |out|
  {
    var i := 2 + 24 * |out|;
    if i + 21 >= |d| then out
    else
      var next := out + [DecodeChar(d, i)];
      if Contains(next, EndMark) then next
      else if |next| >= 7 && !Contains(next, StartMark) then []
      else Scan(d, next)
  }

  /** One character of the reading loop: what the loop does after reading it. */
  lemma ScanStep(d: seq<byte>, out: seq<byte>)
    requires 2 + 24 * |out| + 21 < |d|
    ensures var next := out + [DecodeChar(d, 2 + 24 * |out|)];
      && (Contains(next, EndMark) ==> Scan(d, out) == next)
      && (!Contains(next, EndMark) && |next| >= 7 && !Contains(next, StartMark) ==> Scan(d, out) == [])
      && (!Contains(next, EndMark) && !(|next| >= 7 && !Contains(next, StartMark)) ==> Scan(d, out) == Scan(d, next))
  {
  }

  /** The text extraction returns: the scanned characters with every "~end" and everything through "starrt!" deleted. */
  function Extract(d: seq<byte>): seq<byte>
  {
    RemoveThrough(RemoveAll(Scan(d, []), EndMark), StartMark)
  }

  /** A text as long as the pattern contains it only by being it. */
  lemma ContainsSameLength(s: seq<byte>, p: seq<byte>)
    requires |s| == |p|
    ensures Contains(s, p) <==> s == p
  {
    assert s[0..|p|] == s;
    if Contains(s, p) {
      var i :| 0 <= i <= |s| && OccursAt(s, p, i);
      assert s[i..i + |p|] == s;
    }
    if s == p {
      assert OccursAt(s, p, 0);
    }
  }

  /** The prefix of a decoded text is the shorter decoded text. */
  lemma DecodedPrefix(d: seq<byte>, n: nat, k: nat)
    requires k <= n && 24 * n <= |d|
    ensures Decoded(d, n)[..k] == Decoded(d, k)
  {
  }

  /**
   What the scan returns from a state the loop can reach: either nothing, or
   the decoded characters up to the one it stopped after, where no earlier
   prefix held "~end", the first seven characters are "starrt!" unless the
   "~end" came within them, and the loop stopped for "~end" or for want of
   buffer.
   */
  predicate ScanResult(d: seq<byte>, r: seq<byte>)
  {
    r == [] ||
      (24 * |r| <= |d| && r == Decoded(d, |r|)
       && !Contains(r[..|r| - 1], EndMark)
       && (|r| >= 7 && !Contains(r[..7], EndMark) ==> r[..7] == StartMark)
       && (Contains(r, EndMark) || 24 * |r| + 23 >= |d|))
  }

  /** The scan from a reachable state ends in a ScanResult. */
  lemma {:induction false} ScanFrom(d: seq<byte>, out: seq<byte>)
    requires 24 * |out| <= |d| && out == Decoded(d, |out|)
    requires !Contains(out, EndMark)
    requires |out| >= 7 ==> out[..7] == StartMark
    ensures ScanResult(d, Scan(d, out))
    decreases |d| - 24 * |out|
  {
    var i := 2 + 24 * |out|;
    if i + 21 < |d| {
      var next := out + [DecodeChar(d, i)];
      assert next == Decoded(d, |next|);
      assert next[..|next| - 1] == out;
      if |next| == 7 {
        ContainsSameLength(next, StartMark);
        assert next[..7] == next;
      } else if |next| > 7 {
        assert next[..7] == out[..7];
      }
      if Contains(next, EndMark) {
        assert Scan(d, out) == next;
        assert ScanResult(d, next);
      } else if |next| >= 7 && !Contains(next, StartMark) {
        assert Scan(d, out) == [];
      } else {
        assert Scan(d, out) == Scan(d, next);
        ScanFrom(d, next);
      }
    } else if out != [] {
      ContainsSlice(out, 0, |out| - 1, EndMark);
      assert out[0..|out| - 1] == out[..|out| - 1];
    }
  }

  /** The outcome of the whole scan. */
  lemma ScanOutcome(d: seq<byte>)
    ensures ScanResult(d, Scan(d, []))
  {
    ScanFrom(d, []);
  }

  /**
   When the buffer holds seven characters, none of the first seven prefixes
   holds "~end", and those characters are not "starrt!", extraction is empty.
   */
  lemma FastReject(d: seq<byte>)
    requires 24 * 7 <= |d|
    requires !Contains(Decoded(d, 7), EndMark) && Decoded(d, 7) != StartMark
    ensures Scan(d, []) == [] && Extract(d) == []
  {
    var r := Scan(d, []);
    ScanOutcome(d);
    if r != [] {
      if |r| < 7 {
        DecodedPrefix(d, 7, |r|);
        ContainsSlice(Decoded(d, 7), 0, |r|, EndMark);
      } else {
        DecodedPrefix(d, |r|, 7);
      }
    }
  }

  /** A text that contains `p` still contains it with one more character. */
  lemma ContainsExtend(out: seq<byte>, c: byte, p: seq<byte>)
    requires Contains(out, p)
    ensures Contains(out + [c], p)
  {
    var i :| 0 <= i <= |out| && OccursAt(out, p, i);
    assert (out + [c])[i..i + |p|] == out[i..i + |p|];
    assert OccursAt(out + [c], p, i);
  }

  /** Once the characters read hold "starrt!", the scan never gives nothing. */
  lemma {:induction false} StartedNonEmpty(d: seq<byte>, out: seq<byte>)
    requires Contains(out, StartMark)
    ensures Scan(d, out) != []
    decreases |d| - 24 * |out|
  {
    var i := 2 + 24 * |out|;
    if i + 21 < |d| {
      var next := out + [DecodeChar(d, i)];
      ContainsExtend(out, DecodeChar(d, i), StartMark);
      if !Contains(next, EndMark) {
        assert Scan(d, out) == Scan(d, next);
        StartedNonEmpty(d, next);
      }
    } else {
      var j :| 0 <= j <= |out| && OccursAt(out, StartMark, j);
    }
  }

  /**
   A scan that gives nothing from fewer than seven characters read, none
   holding "~end", either had no character to read at all, or read seven
   characters that neither hold "~end" nor are "starrt!".
   */
  lemma {:induction false} EmptyScan(d: seq<byte>, out: seq<byte>)
    requires 24 * |out| <= |d| && out == Decoded(d, |out|) && |out| < 7 && !Contains(out, EndMark)
    requires Scan(d, out) == []
    ensures (out == [] && |d| < 24) || (24 * 7 <= |d| && !Contains(Decoded(d, 7), EndMark) && Decoded(d, 7) != StartMark)
    decreases 7 - |out|
  {
    var i := 2 + 24 * |out|;
    if i + 21 < |d| {
      var next := out + [DecodeChar(d, i)];
      assert next == Decoded(d, |next|);
      if Contains(next, EndMark) {
        assert false;
      } else if |next| >= 7 && !Contains(next, StartMark) {
        assert next == StartMark ==> OccursAt(next, StartMark, 0);
      } else {
        assert Scan(d, out) == Scan(d, next);
        if |next| < 7 {
          EmptyScan(d, next);
        } else {
          StartedNonEmpty(d, next);
        }
      }
    }
  }

  /**
   The scan gives nothing exactly when the buffer has no room for one
   character, or its first seven characters neither hold "~end" nor are
   "starrt!". In every other case characters are kept up to "~end" or the
   end of the buffer.
   */
  lemma ScanEmptyExactly(d: seq<byte>)
    ensures Scan(d, []) == []
        <==> |d| < 24 || (24 * 7 <= |d| && !Contains(Decoded(d, 7), EndMark) && Decoded(d, 7) != StartMark)
  {
    if Scan(d, []) == [] {
      assert !Contains([], EndMark);
      EmptyScan(d, []);
    }
    if 24 * 7 <= |d| && !Contains(Decoded(d, 7), EndMark) && Decoded(d, 7) != StartMark {
      FastReject(d);
    }
  }

  /** Every character decoded from a buffer of zero bytes is zero. */
  lemma DecodeZero(d: seq<byte>, i: nat)
    requires i + 21 < |d| && forall j :: 0 <= j < |d| ==> d[j] == 0
    ensures DecodeChar(d, i) == 0
  {
    forall r | 0 <= r < 8
      ensures BitOf(DecodeChar(d, i), r) == BitOf(0, r)
    {
      DecodeCharBits(d, i, r);
    }
    SameBits(DecodeChar(d, i), 0);
  }

  /** A buffer of zeros, large enough for seven characters, hides no text. */
  lemma AllZero(d: seq<byte>)
    requires 24 * 7 <= |d| && forall j :: 0 <= j < |d| ==> d[j] == 0
    ensures Extract(d) == []
  {
    var z := Decoded(d, 7);
    forall k | 0 <= k < 7
      ensures z[k] == 0
    {
      DecodeZero(d, 2 + 24 * k);
    }
    forall i | 0 <= i <= |z|
      ensures !OccursAt(z, EndMark, i)
    {
      if i + 4 <= |z| {
        assert z[i..i + 4][0] == z[i];
      }
    }
    assert z[0] != StartMark[0];
    FastReject(d);
  }

  /** The scan over an embedded frame reads exactly the frame. */
  lemma {:induction false} ScanFrame(e: seq<byte>, f: seq<byte>, n: nat)
    requires n < |f|
    requires 24 * |f| <= |e| && forall j :: 0 <= j < |f| ==> DecodeChar(e, 2 + 24 * j) == f[j]
    requires Contains(f, EndMark) && !Contains(f[..|f| - 1], EndMark)
    requires |f| >= 7 && f[..7] == StartMark
    ensures Scan(e, f[..n]) == f
    decreases |f| - n
  {
    var out := f[..n];
    var next := out + [DecodeChar(e, 2 + 24 * n)];
    assert next == f[..n + 1];
    if n + 1 == |f| {
      assert next == f;
    } else {
      ContainsSlice(f[..|f| - 1], 0, n + 1, EndMark);
      assert f[..|f| - 1][0..n + 1] == next;
      if n + 1 >= 7 {
        assert next[0..7] == StartMark;
        assert OccursAt(next, StartMark, 0);
      }
      assert Scan(e, out) == Scan(e, next);
      ScanFrame(e, f, n + 1);
    }
  }

  /** The frame holds "~end" only at its end and starts with "starrt!", for a message free of "~end". */
  lemma FrameMarkers(m: seq<byte>)
    requires !Contains(m, EndMark)
    ensures var f := Frame(m);
      && Contains(f, EndMark) && !Contains(f[..|f| - 1], EndMark)
      && |f| >= 7 && f[..7] == StartMark
  {
    var f := Frame(m);
    MarkerFacts();
    NotBeforeTrailing(StartMark, m, EndMark);
    assert f[..|f| - 1] == StartMark + m + EndMark[..3];
    assert OccursAt(f, EndMark, |f| - 4);
  }

  /**
   Hiding a message that holds neither marker and then extracting it gives
   the message back, when the buffer has room for the framed message.
   */
  lemma RoundTrip(d: seq<byte>, m: seq<byte>)
    requires 24 * (|m| + 11) <= |d|
    requires !Contains(m, EndMark) && !Contains(m, StartMark)
    ensures Extract(Embedded(d, Frame(m))) == m
  {
    var f := Frame(m);
    var e := Embedded(d, f);
    forall j | 0 <= j < |f|
      ensures DecodeChar(e, 2 + 24 * j) == f[j]
    {
      DecodeEmbedded(d, f, j);
    }
    FrameMarkers(m);
    ScanFrame(e, f, 0);
    assert f[..0] == [];
    assert Scan(e, []) == f;
    assert f[..|f| - 1] == StartMark + m + EndMark[..3];
    RemoveAllTrailing(StartMark + m, EndMark);
    MarkerFacts();
    RemoveThroughFront(StartMark, m);
  }
}
