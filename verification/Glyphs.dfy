/**
 Packing rasterised glyphs into one block of bytes, two pixels or eight pixels to a byte, and reading
 single pixels back from it.
 */
module Glyphs {
  import opened Common
  import opened Bits

  const ANTIALIASED: nat := 4

  /** The bytes that n pixels take. */
  function BytesFor(bpp: nat, n: nat): nat {
    if bpp == ANTIALIASED then (n + 1) / 2 else (n + 7) / 8
  }

  /** What is kept of a pixel: its upper four bits, or whether it is at least half covered. */
  function Quantised(bpp: nat, v: byte): nat {
    if bpp == ANTIALIASED then v / 16 else if v >= 128 then 1 else 0
  }

  /** Pixel i of the glyph at off: the first pixel of a byte is in its highest bits. */
  function PixelAt(bpp: nat, bits: seq<byte>, off: nat, i: nat): nat
    requires off + BytesFor(bpp, i + 1) <= |bits|
  {
    if bpp == ANTIALIASED then
      var b := bits[off + i / 2];
      if i % 2 == 0 then b / 16 else b % 16
    else if Bit(bits[off + i / 8], 7 - i % 8) then 1 else 0
  }

  /** The bytes hold exactly these pixels. */
  ghost predicate Holds(bpp: nat, out: seq<byte>, mask: seq<byte>) {
    && |out| == BytesFor(bpp, |mask|)
    && forall i :: 0 <= i < |mask| ==> PixelAt(bpp, out, 0, i) == Quantised(bpp, mask[i])
  }

  method PackNibbles(mask: seq<byte>) returns (out: seq<byte>)
    ensures Holds(ANTIALIASED, out, mask)
  {
    out := [];
    var i := 0;
    while i < |mask|
      invariant i % 2 == 0 && i <= |mask| + 1 && |out| == i / 2
      invariant forall k :: 0 <= k < i && k < |mask| ==>
        (if k % 2 == 0 then out[k / 2] / 16 else out[k / 2] % 16) == mask[k] / 16
    {
      var hi := mask[i] / 16;
      var lo := if i + 1 < |mask| then mask[i + 1] / 16 else 0;
      var b: byte := hi * 16 + lo;
      assert b / 16 == hi && b % 16 == lo;
      out := out + [b];
      i := i + 2;
    }
  }

  /** Shifting left moves every bit up. */
  lemma {:induction false} ShiftedBit(a: nat, s: nat, k: nat)
    ensures Bit(a * Pow2(s), k) <==> k >= s && Bit(a, k - s)
    decreases s
  {
    if s > 0 {
      var half := a * Pow2(s - 1);
      assert a * Pow2(s) == 2 * half by { Halve(a, Pow2(s - 1)); }
      if k > 0 {
        ShiftedBit(a, s - 1, k - 1);
      }
    }
  }

  /** The pixels of a run, one bit each, the first one highest. */
  function Accumulated(run: seq<byte>): (r: nat)
    ensures r < Pow2(|run|)
  {
    if run == [] then 0 else 2 * Accumulated(run[..|run| - 1]) + Quantised(1, run[|run| - 1])
  }

  lemma {:induction false} AccumulatedBit(run: seq<byte>, j: nat)
    requires j < |run|
    ensures Bit(Accumulated(run), |run| - 1 - j) <==> run[j] >= 128
    decreases |run|
  {
    var before := run[..|run| - 1];
    assert Accumulated(run) / 2 == Accumulated(before);
    if j < |before| {
      AccumulatedBit(before, j);
      assert |run| - 1 - j - 1 == |before| - 1 - j;
    }
  }

  /** The byte for a run, which is moved to its upper end. */
  function ByteOf(run: seq<byte>): byte
    requires |run| <= 8
  {
    assert Accumulated(run) * Pow2(8 - |run|) < 256 by {
      Pow2Add(|run|, 8 - |run|);
      ByteBound(0);
      Below(Accumulated(run), Pow2(|run|), Pow2(8 - |run|));
    }
    Accumulated(run) * Pow2(8 - |run|)
  }

  lemma Below(a: nat, b: nat, c: nat)
    requires a < b && c > 0
    ensures a * c < b * c
  {
  }

  lemma ByteOfBit(run: seq<byte>, j: nat)
    requires j < |run| <= 8
    ensures Bit(ByteOf(run), 7 - j) <==> run[j] >= 128
  {
    hide Bit;
    AccumulatedBit(run, j);
    ShiftedBit(Accumulated(run), 8 - |run|, 7 - j);
    assert 7 - j - (8 - |run|) == |run| - 1 - j;
  }

  /** The pixels that share byte k. */
  function Run(mask: seq<byte>, k: nat): (r: seq<byte>)
    requires 8 * k <= |mask|
    ensures |r| <= 8
  {
    if 8 * k + 8 <= |mask| then mask[8 * k..8 * k + 8] else mask[8 * k..]
  }

  /** The bytes are those of the first runs. */
  ghost predicate RunsDone(out: seq<byte>, mask: seq<byte>) {
    8 * |out| <= |mask| + 7 && forall k :: 0 <= k < |out| ==> out[k] == ByteOf(Run(mask, k))
  }

  lemma RunsMore(out: seq<byte>, mask: seq<byte>, b: byte)
    requires RunsDone(out, mask) && 8 * |out| < |mask| && b == ByteOf(Run(mask, |out|))
    ensures RunsDone(out + [b], mask)
  {
    hide ByteOf;
    hide Run;
  }

  lemma RunAt(mask: seq<byte>, i: nat)
    requires i < |mask|
    ensures 8 * (i / 8) <= |mask| && i % 8 < |Run(mask, i / 8)| && Run(mask, i / 8)[i % 8] == mask[i]
    ensures i / 8 < BytesFor(1, |mask|)
  {
  }

  lemma PixelInRun(out: seq<byte>, mask: seq<byte>, i: nat)
    requires |out| == BytesFor(1, |mask|) && RunsDone(out, mask) && i < |mask|
    ensures BytesFor(1, i + 1) <= |out| && PixelAt(1, out, 0, i) == Quantised(1, mask[i])
  {
    hide Bit;
    hide ByteOf;
    hide Run;
    RunAt(mask, i);
    ByteOfBit(Run(mask, i / 8), i % 8);
    assert out[i / 8] == ByteOf(Run(mask, i / 8));
  }

  lemma RunsHold(out: seq<byte>, mask: seq<byte>)
    requires |out| == BytesFor(1, |mask|) && RunsDone(out, mask)
    ensures Holds(1, out, mask)
  {
    forall i | 0 <= i < |mask|
      ensures BytesFor(1, i + 1) <= |out| && PixelAt(1, out, 0, i) == Quantised(1, mask[i])
    {
      PixelInRun(out, mask, i);
    }
  }

  lemma AccumulatedMore(mask: seq<byte>, start: nat, n: nat)
    requires start <= n < |mask|
    ensures Accumulated(mask[start..n + 1]) == 2 * Accumulated(mask[start..n]) + Quantised(1, mask[n])
  {
    var run := mask[start..n + 1];
    assert run[..|run| - 1] == mask[start..n];
  }

  /** What is appended for the run that begins at byte k and of which pos pixels have been read. */
  lemma FlushedIs(mask: seq<byte>, k: nat, pos: nat)
    requires 0 < pos <= 8 && 8 * k + pos <= |mask| && (pos < 8 ==> 8 * k + pos == |mask|)
    ensures var acc := Accumulated(mask[8 * k..8 * k + pos]);
      acc * Pow2(8 - pos) == ByteOf(Run(mask, k)) && (pos == 8 ==> acc == ByteOf(Run(mask, k)))
  {
    assert Pow2(0) == 1;
    assert Run(mask, k) == mask[8 * k..8 * k + pos];
  }

  method PackBits(mask: seq<byte>) returns (out: seq<byte>)
    ensures Holds(1, out, mask)
  {
    hide Holds;
    hide ByteOf;
    hide Run;
    hide Pow2;
    hide RunsDone;
    out := [];
    var acc, pos := 0, 0;
    NothingYet(mask);
    hide Accumulated;
    for n := 0 to |mask|
      invariant 0 <= pos < 8 && n == 8 * |out| + pos && acc == Accumulated(mask[8 * |out|..n]) && RunsDone(out, mask)
    {
      AccumulatedMore(mask, 8 * |out|, n);
      acc := 2 * acc + (if mask[n] >= 128 then 1 else 0);
      pos := pos + 1;
      if pos == 8 {
        FlushedIs(mask, |out|, 8);
        RunsMore(out, mask, acc);
        out := out + [acc];
        NothingAt(mask, n + 1);
        acc, pos := 0, 0;
      }
    }
    if pos > 0 {
      FlushedIs(mask, |out|, pos);
      RunsMore(out, mask, acc * Pow2(8 - pos));
      out := out + [acc * Pow2(8 - pos)];
    }
    RunsHold(out, mask);
  }

  lemma NothingAt(mask: seq<byte>, n: nat)
    requires n <= |mask|
    ensures Accumulated(mask[n..n]) == 0
  {
  }

  lemma NothingYet(mask: seq<byte>)
    ensures Accumulated(mask[0..0]) == 0 && RunsDone([], mask)
  {
  }

  // ----- the atlas -----

  /** A glyph; a blank one has no mask. */
  class Glyph {
    const mask: Option<seq<byte>>
    var off: nat

    constructor (mask: Option<seq<byte>>)
      ensures this.mask == mask
    {
      this.mask := mask;
    }
  }

  function Size(bpp: nat, mask: Option<seq<byte>>): nat {
    if mask.None? then 0 else BytesFor(bpp, |mask.value|)
  }

  /** The pixels of a glyph are in the bytes from its offset on. */
  ghost predicate Placed(bpp: nat, bits: seq<byte>, off: nat, mask: Option<seq<byte>>) {
    && off + Size(bpp, mask) <= |bits|
    && (mask.Some? ==> Holds(bpp, bits[off..off + Size(bpp, mask)], mask.value))
  }

  /**
   The offsets cut the bytes into one range for each glyph, in order, without a gap or an overlap,
   and the range of a glyph holds its pixels.
   */
  method Pack(glyphs: seq<Glyph>, bpp: nat) returns (bits: seq<byte>)
    requires Distinct(glyphs)
    modifies glyphs`off
    ensures forall k :: 0 <= k < |glyphs| ==> Placed(bpp, bits, glyphs[k].off, glyphs[k].mask)
    ensures forall k :: 0 <= k < |glyphs| ==>
      glyphs[k].off + Size(bpp, glyphs[k].mask) == if k + 1 < |glyphs| then glyphs[k + 1].off else |bits|
    ensures if glyphs == [] then bits == [] else glyphs[0].off == 0
  {
    hide Holds;
    bits := [];
    for n := 0 to |glyphs|
      invariant forall k :: 0 <= k < n ==> Placed(bpp, bits, glyphs[k].off, glyphs[k].mask)
      invariant forall k :: 0 <= k < n ==>
        glyphs[k].off + Size(bpp, glyphs[k].mask) == if k + 1 < n then glyphs[k + 1].off else |bits|
      invariant if n == 0 then bits == [] else glyphs[0].off == 0
    {
      var g := glyphs[n];
      g.off := |bits|;
      ghost var before := bits;
      if g.mask.Some? {
        var packed: seq<byte>;
        if bpp == ANTIALIASED {
          packed := PackNibbles(g.mask.value);
        } else {
          packed := PackBits(g.mask.value);
          AnyOtherDepth(bpp, packed, g.mask.value);
        }
        HoldsSize(bpp, packed, g.mask.value);
        bits := bits + packed;
        assert bits[g.off..g.off + Size(bpp, g.mask)] == packed;
      }
      assert bits == before + bits[|before|..];
      forall k | 0 <= k < n
        ensures Placed(bpp, bits, glyphs[k].off, glyphs[k].mask)
      {
        PlacedStays(bpp, before, bits[|before|..], glyphs[k].off, glyphs[k].mask);
      }
    }
  }

  lemma PlacedStays(bpp: nat, bits: seq<byte>, more: seq<byte>, off: nat, mask: Option<seq<byte>>)
    requires Placed(bpp, bits, off, mask)
    ensures Placed(bpp, bits + more, off, mask)
  {
    hide Holds;
    var end := off + Size(bpp, mask);
    assert (bits + more)[off..end] == bits[off..end];
  }

  /** Every depth but four bits is packed as one bit. */
  lemma AnyOtherDepth(bpp: nat, out: seq<byte>, mask: seq<byte>)
    requires bpp != ANTIALIASED && Holds(1, out, mask)
    ensures Holds(bpp, out, mask)
  {
    hide Bit;
    forall i | 0 <= i < |mask|
      ensures PixelAt(bpp, out, 0, i) == Quantised(bpp, mask[i])
    {
      assert PixelAt(1, out, 0, i) == Quantised(1, mask[i]);
    }
  }

  lemma HoldsSize(bpp: nat, out: seq<byte>, mask: seq<byte>)
    requires Holds(bpp, out, mask)
    ensures |out| == BytesFor(bpp, |mask|)
  {
  }

  /** Random access: a pixel read at the offset of its glyph is the quantised pixel of the mask. */
  lemma PixelReadsBack(bpp: nat, bits: seq<byte>, off: nat, mask: seq<byte>, i: nat)
    requires Placed(bpp, bits, off, Some(mask)) && i < |mask|
    ensures off + BytesFor(bpp, i + 1) <= |bits| && PixelAt(bpp, bits, off, i) == Quantised(bpp, mask[i])
  {
    hide Bit;
    var range := bits[off..off + BytesFor(bpp, |mask|)];
    assert PixelAt(bpp, range, 0, i) == Quantised(bpp, mask[i]);
    if bpp == ANTIALIASED {
      assert range[i / 2] == bits[off + i / 2];
    } else {
      assert range[i / 8] == bits[off + i / 8];
    }
  }

  /**
   The same on the bytes themselves: at four bits the upper half of a mask byte is in the upper half of a
   byte for the first, third, .. pixel and in the lower half for the others; at one bit a pixel is set
   iff its mask byte is at least 128, the first one in the highest bit.
   */
  lemma PackedPixels(bpp: nat, bits: seq<byte>, off: nat, mask: seq<byte>, i: nat)
    requires Placed(bpp, bits, off, Some(mask)) && i < |mask|
    ensures bpp == 4 ==>
      && off + i / 2 < |bits|
      && mask[i] / 16 == if i % 2 == 0 then bits[off + i / 2] / 16 else bits[off + i / 2] % 16
    ensures bpp != 4 ==> off + i / 8 < |bits| && (Bit(bits[off + i / 8], 7 - i % 8) <==> mask[i] >= 128)
  {
    hide Bit;
    PixelReadsBack(bpp, bits, off, mask, i);
  }

  /** No byte is wasted, and none is used for a blank glyph. */
  lemma SizeIsLeast(bpp: nat, mask: Option<seq<byte>>)
    ensures mask.None? ==> Size(bpp, mask) == 0
    ensures mask.Some? && bpp == 4 ==> 2 * Size(bpp, mask) - 2 < |mask.value| <= 2 * Size(bpp, mask)
    ensures mask.Some? && bpp != 4 ==> 8 * Size(bpp, mask) - 8 < |mask.value| <= 8 * Size(bpp, mask)
  {
  }
}
