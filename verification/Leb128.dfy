/**
 The LEB128 readers of the unwinder (DWARF 5, section 7.6) on words of a given width, against the
 mathematical value of a byte string and against the standard encoders.
 */
module Leb128 {
  import opened Common
  import opened Bits

  /** The product by 2^k, modulo 2^w, is again a multiple of 2^k that leaves room for k low bits. */
  lemma ShiftedMultiple(x: nat, k: nat, w: nat) returns (m: nat)
    requires k <= w
    ensures x * Pow2(k) % Pow2(w) == m * Pow2(k) && m * Pow2(k) + Pow2(k) <= Pow2(w)
  {
    var top := Pow2(w - k);
    Pow2Add(w - k, k);
    m := x % top;
    var q := x / top;
    assert x == q * top + m;
    ShiftSplit(x, q, top, m, Pow2(k));
    RoomAbove(m, top, Pow2(k));
    DivModUnique(x * Pow2(k), Pow2(w), q, m * Pow2(k));
  }

  lemma ShiftSplit(x: int, q: int, top: int, m: int, p: int)
    requires x == q * top + m
    ensures x * p == q * (top * p) + m * p
  {
    MulAssoc(q, top, p);
  }

  lemma RoomAbove(m: nat, top: nat, p: nat)
    requires m < top
    ensures m * p + p <= top * p && 0 <= m * p
  {
    assert top * p == (m + 1) * p + (top - m - 1) * p;
  }

  // ----- the value of a byte string -----

  /** The position behind the first byte without a continuation bit. */
  function End(mem: seq<byte>, p: nat): (r: Option<nat>)
    ensures r.Some? ==> p < r.value <= |mem|
    decreases |mem| - p
  {
    if p >= |mem| then None
    else if mem[p] < 128 then Some(p + 1)
    else End(mem, p + 1)
  }

  /** The number spelt in base 128, least significant digit first. */
  function Value(mem: seq<byte>, p: nat): nat
    requires End(mem, p).Some?
    decreases |mem| - p
  {
    if mem[p] < 128 then mem[p] else mem[p] % 128 + 128 * Value(mem, p + 1)
  }

  /** The same in two's complement: bit 6 of the last byte is the sign. */
  function SignedValue(mem: seq<byte>, p: nat): int
    requires End(mem, p).Some?
    decreases |mem| - p
  {
    if mem[p] < 64 then mem[p]
    else if mem[p] < 128 then mem[p] - 128
    else mem[p] % 128 + 128 * SignedValue(mem, p + 1)
  }

  /** The string ends, and no byte of it is shifted out of a word of w bits. */
  predicate Readable(mem: seq<byte>, p: nat, w: nat) {
    End(mem, p).Some? && 7 * (End(mem, p).value - p - 1) < w
  }

  predicate LastIsNegative(mem: seq<byte>, p: nat)
    requires End(mem, p).Some?
  {
    mem[End(mem, p).value - 1] >= 64
  }

  lemma {:induction false} LastByte(mem: seq<byte>, p: nat)
    requires End(mem, p).Some?
    ensures mem[End(mem, p).value - 1] < 128
    decreases |mem| - p
  {
    if mem[p] >= 128 {
      LastByte(mem, p + 1);
    }
  }

  /** The signed value is the unsigned one, less 2^(7n) if the sign bit is set. */
  lemma {:induction false} SignedIsShifted(mem: seq<byte>, p: nat)
    requires End(mem, p).Some?
    ensures SignedValue(mem, p) == Value(mem, p)
         - (if LastIsNegative(mem, p) then Pow2(7 * (End(mem, p).value - p)) else 0)
    decreases |mem| - p
  {
    if mem[p] >= 128 {
      SignedIsShifted(mem, p + 1);
      Pow2Add(7, 7 * (End(mem, p).value - p - 1));
      assert Pow2(7) == 128;
    } else {
      assert Pow2(7) == 128;
    }
  }

  // ----- the readers -----

  function Signed(word: nat, w: nat): int
    requires w > 0
  {
    if word < Pow2(w - 1) then word else word - Pow2(w)
  }

  /** The number has a representation in w bits of two's complement. */
  predicate FitsSigned(v: int, w: nat)
    requires w > 0
  {
    v < Pow2(w - 1) && -v <= Pow2(w - 1)
  }

  /** What the loop has read: the digits before q are in result, the rest is still to be added. */
  ghost predicate ReadSoFar(mem: seq<byte>, p: nat, w: nat, q: nat, shift: nat, result: nat) {
    && Readable(mem, p, w) && p <= q && End(mem, q) == End(mem, p)
    && shift == 7 * (q - p) && shift < w && result < Pow2(shift)
    && Value(mem, p) == result + Pow2(shift) * Value(mem, q)
  }

  /** The digit in mem[q], shifted to its place in the word. */
  function Placed(mem: seq<byte>, q: nat, shift: nat, w: nat): nat
    requires q < |mem|
  {
    mem[q] % 128 * Pow2(shift) % Pow2(w)
  }

  /** One byte that is not the last. */
  lemma ReadMore(mem: seq<byte>, p: nat, w: nat, q: nat, shift: nat, result: nat)
    requires ReadSoFar(mem, p, w, q, shift, result) && mem[q] >= 128
    ensures ReadSoFar(mem, p, w, q + 1, shift + 7, BitOr(result, Placed(mem, q, shift, w)))
  {
    var digit, unit := mem[q] % 128, Pow2(shift);
    SevenMore(shift);
    Pow2Grows(shift + 7, w);
    DigitFits(digit, unit, Pow2(w));
    OrAdds(result, digit, shift);
    DigitRoom(digit, unit, result);
    Distribute(unit, digit, Value(mem, q + 1));
  }

  /** The last byte: what does not fit the word is cut off. */
  lemma ReadLast(mem: seq<byte>, p: nat, w: nat, q: nat, shift: nat, result: nat)
    requires ReadSoFar(mem, p, w, q, shift, result) && mem[q] < 128
    ensures BitOr(result, Placed(mem, q, shift, w)) == Value(mem, p) % Pow2(w)
    ensures End(mem, p) == Some(q + 1)
    ensures shift + 7 <= w ==> Value(mem, p) < Pow2(shift + 7)
  {
    var digit, unit := mem[q] % 128, Pow2(shift);
    var m := ShiftedMultiple(digit, shift, w);
    OrAdds(result, m, shift);
    ModuloSum(result, digit * unit, m * unit, Pow2(w));
    Commutes(digit, unit);
    SevenMore(shift);
    DigitRoom(digit, unit, result);
  }

  lemma SevenMore(k: nat)
    ensures Pow2(k + 7) == Pow2(k) * 128
  {
    Pow2Add(k, 7);
    assert Pow2(7) == 128;
  }

  lemma Commutes(a: int, b: int)
    ensures a * b == b * a
  {
  }

  lemma DigitRoom(digit: nat, p: nat, low: nat)
    requires digit < 128 && low < p
    ensures low + digit * p < p * 128
  {
    assert digit * p <= 127 * p;
  }

  lemma DigitFits(digit: nat, p: nat, n: nat)
    requires digit < 128 && p > 0 && p * 128 <= n
    ensures digit * p % n == digit * p
  {
    DigitRoom(digit, p, 0);
    SmallModulo(digit * p, n);
  }

  lemma SmallModulo(x: nat, n: nat)
    requires x < n
    ensures x % n == x && x / n == 0
  {
  }

  lemma Distribute(p: int, digit: int, rest: int)
    ensures p * (digit + 128 * rest) == digit * p + (p * 128) * rest
  {
    MulAssoc(p, 128, rest);
  }

  lemma ModuloSum(low: nat, x: nat, r: nat, n: nat)
    requires n > 0 && x % n == r && low + r < n
    ensures (low + x) % n == low + r
  {
    DivModUnique(low + x, n, x / n, low + r);
  }

  /** The loop both readers share: the bytes are gathered seven bits at a time. */
  method Gather(mem: seq<byte>, p: nat, w: nat) returns (result: nat, shift: nat, b: byte, q: nat)
    requires Readable(mem, p, w)
    ensures End(mem, p) == Some(q) && b == mem[q - 1] && shift == 7 * (q - p)
    ensures result == Value(mem, p) % Pow2(w)
    ensures shift <= w ==> Value(mem, p) < Pow2(shift)
  {
    hide Placed;
    hide BitOr;
    shift, result, q := 0, 0, p;
    while true
      invariant ReadSoFar(mem, p, w, q, shift, result)
      decreases |mem| - q
    {
      b := mem[q];
      if b >= 128 { ReadMore(mem, p, w, q, shift, result); } else { ReadLast(mem, p, w, q, shift, result); }
      result := BitOr(result, Placed(mem, q, shift, w));
      q := q + 1;
      shift := shift + 7;
      if b < 128 {
        break;
      }
    }
  }

  method ReadUleb128(mem: seq<byte>, p: nat, w: nat) returns (val: nat, next: nat)
    requires Readable(mem, p, w)
    ensures val == Value(mem, p) % Pow2(w)
    ensures next == End(mem, p).value
    ensures Value(mem, p) < Pow2(w) ==> val == Value(mem, p)
  {
    var shift, b;
    val, shift, b, next := Gather(mem, p, w);
    if Value(mem, p) < Pow2(w) {
      SmallModulo(Value(mem, p), Pow2(w));
    }
  }

  /** The bits of a word from shift on, all set: what negating 1 << shift gives. */
  function HighBits(shift: nat, w: nat): nat
    requires shift <= w
  {
    Pow2Grows(shift, w);
    Pow2(w) - Pow2(shift)
  }

  /** Sign extension of a word read so far, as the signed reader does it. */
  lemma SignExtended(mem: seq<byte>, p: nat, w: nat, shift: nat, result: nat)
    requires Readable(mem, p, w) && shift == 7 * (End(mem, p).value - p)
    requires result == Value(mem, p) % Pow2(w) && (shift <= w ==> Value(mem, p) < Pow2(shift))
    ensures var word := if shift < w && LastIsNegative(mem, p) then BitOr(result, HighBits(shift, w)) else result;
      word == SignedValue(mem, p) % Pow2(w)
  {
    SignedIsShifted(mem, p);
    var v := Value(mem, p);
    if shift < w {
      Pow2Grows(shift, w);
      DivModUnique(v, Pow2(w), 0, v);
      if LastIsNegative(mem, p) {
        Pow2Add(w - shift, shift);
        var m := Pow2(w - shift) - 1;
        assert m * Pow2(shift) == Pow2(w) - Pow2(shift) by { SubtractOne(Pow2(w - shift), Pow2(shift)); }
        OrAdds(result, m, shift);
        DivModUnique(v - Pow2(shift), Pow2(w), -1, v - Pow2(shift) + Pow2(w));
      }
    } else if LastIsNegative(mem, p) {
      Pow2Add(shift - w, w);
      ModuloMinus(v, Pow2(shift - w), Pow2(w));
    }
  }

  lemma SubtractOne(a: int, b: int)
    ensures (a - 1) * b == a * b - b
  {
  }

  lemma ModuloMinus(v: int, k: int, n: int)
    requires n > 0
    ensures (v - k * n) % n == v % n
  {
    var q := v / n;
    assert v == q * n + v % n;
    assert (q - k) * n == q * n - k * n;
    DivModUnique(v - k * n, n, q - k, v % n);
  }

  method ReadSleb128(mem: seq<byte>, p: nat, w: nat) returns (val: int, next: nat)
    requires Readable(mem, p, w)
    ensures val == Signed(SignedValue(mem, p) % Pow2(w), w)
    ensures next == End(mem, p).value
    ensures FitsSigned(SignedValue(mem, p), w) ==> val == SignedValue(mem, p)
  {
    var result, shift, b, q := Gather(mem, p, w);
    LastByte(mem, p);
    assert b / 64 % 2 == 1 <==> LastIsNegative(mem, p);
    hide LastIsNegative;
    SignExtended(mem, p, w, shift, result);
    if shift < w && b / 64 % 2 == 1 {
      result := BitOr(result, HighBits(shift, w));
    }
    if FitsSigned(SignedValue(mem, p), w) {
      SignedExact(SignedValue(mem, p), w);
    }
    return Signed(result, w), q;
  }

  lemma SignedExact(v: int, w: nat)
    requires w > 0 && FitsSigned(v, w)
    ensures Signed(v % Pow2(w), w) == v
  {
    if v >= 0 {
      DivModUnique(v, Pow2(w), 0, v);
    } else {
      DivModUnique(v, Pow2(w), -1, v + Pow2(w));
    }
  }

  // ----- the standard encoders -----

  function Encode(v: nat): (r: seq<byte>)
    ensures r != []
  {
    if v < 128 then [v] else [v % 128 + 128] + Encode(v / 128)
  }

  function EncodeSigned(v: int): (r: seq<byte>)
    ensures r != []
    decreases if v < 0 then -v else v
  {
    if -64 <= v < 64 then [v % 128] else [v % 128 + 128] + EncodeSigned(v / 128)
  }

  lemma {:induction false} EncodeDecodes(v: nat, before: seq<byte>, after: seq<byte>)
    ensures var mem := before + Encode(v) + after;
      End(mem, |before|) == Some(|before| + |Encode(v)|) && Value(mem, |before|) == v
  {
    var mem := before + Encode(v) + after;
    if v >= 128 {
      var digit: byte := v % 128 + 128;
      EncodeDecodes(v / 128, before + [digit], after);
      assert mem == before + [digit] + Encode(v / 128) + after;
    }
  }

  lemma {:induction false} EncodeSignedDecodes(v: int, before: seq<byte>, after: seq<byte>)
    ensures var mem := before + EncodeSigned(v) + after;
      End(mem, |before|) == Some(|before| + |EncodeSigned(v)|) && SignedValue(mem, |before|) == v
    decreases if v < 0 then -v else v
  {
    var mem := before + EncodeSigned(v) + after;
    if !(-64 <= v < 64) {
      var digit: byte := v % 128 + 128;
      EncodeSignedDecodes(v / 128, before + [digit], after);
      assert mem == before + [digit] + EncodeSigned(v / 128) + after;
    }
  }

  lemma {:induction false} EncodeLength(v: nat, w: nat)
    requires w > 0 && v < Pow2(w)
    ensures 7 * (|Encode(v)| - 1) < w
  {
    if v >= 128 {
      assert Pow2(7) == 128;
      if w <= 7 {
        Pow2Grows(w, 7);
      } else {
        SevenMore(w - 7);
        EncodeLength(v / 128, w - 7);
      }
    }
  }

  lemma {:induction false} EncodeSignedLength(v: int, w: nat)
    requires w > 0 && FitsSigned(v, w)
    ensures 7 * (|EncodeSigned(v)| - 1) < w
    decreases if v < 0 then -v else v
  {
    if !(-64 <= v < 64) {
      assert Pow2(6) == 64;
      if w <= 7 {
        Pow2Grows(w - 1, 6);
      } else {
        SevenMore(w - 8);
        EncodeSignedLength(v / 128, w - 7);
      }
    }
  }

  /** The unsigned reader inverts the standard encoder on every value of a word. */
  lemma RoundTrip(v: nat, w: nat, before: seq<byte>, after: seq<byte>)
    requires w > 0 && v < Pow2(w)
    ensures var mem := before + Encode(v) + after;
      && Readable(mem, |before|, w)
      && Value(mem, |before|) % Pow2(w) == v && End(mem, |before|) == Some(|before| + |Encode(v)|)
  {
    EncodeDecodes(v, before, after);
    EncodeLength(v, w);
    SmallModulo(v, Pow2(w));
  }

  /** The signed reader inverts the standard encoder on every value of a word. */
  lemma SignedRoundTrip(v: int, w: nat, before: seq<byte>, after: seq<byte>)
    requires w > 0 && FitsSigned(v, w)
    ensures var mem := before + EncodeSigned(v) + after;
      && Readable(mem, |before|, w)
      && Signed(SignedValue(mem, |before|) % Pow2(w), w) == v
        && End(mem, |before|) == Some(|before| + |EncodeSigned(v)|)
  {
    EncodeSignedDecodes(v, before, after);
    EncodeSignedLength(v, w);
    SignedExact(v, w);
  }
}
