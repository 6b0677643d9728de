/** Powers of two, bits and little-endian words: what shifting, masking and setting bits means. */
module Bits {
  import opened Common

  // ----- powers of two and bitwise or -----

  function Pow2(n: nat): (r: nat)
    ensures r >= 1
  {
    if n == 0 then 1 else 2 * Pow2(n - 1)
  }

  lemma {:induction false} Pow2Add(a: nat, b: nat)
    ensures Pow2(a + b) == Pow2(a) * Pow2(b)
  {
    if a == 0 {
    } else {
      Pow2Add(a - 1, b);
      MulAssoc(2, Pow2(a - 1), Pow2(b));
    }
  }

  lemma MulAssoc(a: int, b: int, c: int)
    ensures (a * b) * c == a * (b * c)
  {
  }

  lemma {:induction false} Pow2Grows(a: nat, b: nat)
    requires a <= b
    ensures Pow2(a) <= Pow2(b)
  {
    if a < b {
      Pow2Grows(a, b - 1);
    }
  }

  function BitOr(a: nat, b: nat): nat {
    if a == 0 then b
    else if b == 0 then a
    else 2 * BitOr(a / 2, b / 2) + (if a % 2 == 1 || b % 2 == 1 then 1 else 0)
  }

  /** Where the two words have no bit in common, bitwise or adds. */
  lemma {:induction false} OrAdds(a: nat, m: nat, k: nat)
    requires a < Pow2(k)
    ensures BitOr(a, m * Pow2(k)) == a + m * Pow2(k)
  {
    if k > 0 && a > 0 {
      OrAdds(a / 2, m, k - 1);
      Halve(m, Pow2(k - 1));
    }
  }

  lemma Halve(m: nat, p: nat)
    ensures m * (2 * p) == 2 * (m * p)
    ensures m * (2 * p) / 2 == m * p && m * (2 * p) % 2 == 0
  {
  }

  // ----- single bits -----

  /** Bit k of v: v & (1 << k). */
  predicate Bit(v: nat, k: nat) {
    if k == 0 then v % 2 == 1 else Bit(v / 2, k - 1)
  }

  lemma {:induction false} OrBit(a: nat, b: nat, k: nat)
    ensures Bit(BitOr(a, b), k) <==> Bit(a, k) || Bit(b, k)
  {
    if a == 0 {
      ZeroHasNoBit(k);
    } else if b == 0 {
      ZeroHasNoBit(k);
    } else if k > 0 {
      OrBit(a / 2, b / 2, k - 1);
    }
  }

  lemma {:induction false} ZeroHasNoBit(k: nat)
    ensures !Bit(0, k)
  {
    if k > 0 {
      ZeroHasNoBit(k - 1);
    }
  }

  /** A power of two has a single bit. */
  lemma {:induction false} PowerBit(n: nat, k: nat)
    ensures Bit(Pow2(n), k) <==> k == n
  {
    if n == 0 {
      if k > 0 {
        ZeroHasNoBit(k - 1);
      }
    } else if k > 0 {
      PowerBit(n - 1, k - 1);
    }
  }

  lemma {:induction false} BelowHasNoBit(a: nat, n: nat, k: nat)
    requires a < Pow2(n) && n <= k
    ensures !Bit(a, k)
  {
    if n == 0 {
      ZeroHasNoBit(k);
    } else {
      BelowHasNoBit(a / 2, n - 1, k - 1);
    }
  }

  lemma {:induction false} OrBelow(a: nat, b: nat, n: nat)
    requires a < Pow2(n) && b < Pow2(n)
    ensures BitOr(a, b) < Pow2(n)
  {
    if a > 0 && b > 0 {
      OrBelow(a / 2, b / 2, n - 1);
    }
  }

  /** b | (1 << k) in a byte. */
  function SetBit(b: byte, k: nat): (r: byte)
    requires k < 8
    ensures forall j :: 0 <= j ==> (Bit(r, j) <==> Bit(b, j) || j == k)
  {
    assert BitOr(b, Pow2(k)) < 256 by {
      ByteBound(k);
      OrBelow(b, Pow2(k), 8);
    }
    assert forall j: nat :: Bit(BitOr(b, Pow2(k)), j) <==> Bit(b, j) || j == k by {
      forall j: nat
        ensures Bit(BitOr(b, Pow2(k)), j) <==> Bit(b, j) || j == k
      {
        OrBit(b, Pow2(k), j);
        PowerBit(k, j);
      }
    }
    BitOr(b, Pow2(k))
  }

  lemma ByteBound(k: nat)
    requires k < 8
    ensures Pow2(k) < Pow2(8) == 256
  {
    Pow2Grows(k, 7);
    Pow2Add(4, 3);
    Pow2Add(4, 4);
    assert Pow2(3) == 8 && Pow2(4) == 16 && Pow2(7) == 128;
  }

  // ----- little-endian words -----

  /** n bytes, least significant first. */
  function Little(mem: seq<byte>, p: nat, n: nat): nat
    requires p + n <= |mem|
    decreases n
  {
    if n == 0 then 0 else mem[p] as int + 256 * Little(mem, p + 1, n - 1)
  }

  lemma LittleTwo(p: seq<byte>, at: nat)
    requires at + 2 <= |p|
    ensures Little(p, at, 2) == p[at] as int + 256 * p[at + 1] as int
  {
    assert Little(p, at + 1, 1) == p[at + 1] as int + 256 * Little(p, at + 2, 0);
  }

  lemma LittleFour(p: seq<byte>, at: nat)
    requires at + 4 <= |p|
    ensures Little(p, at, 4) == p[at] as int + 256 * p[at + 1] as int
          + 65536 * p[at + 2] as int + 16777216 * p[at + 3] as int
  {
    LittleTwo(p, at + 2);
    assert Little(p, at + 1, 3) == p[at + 1] as int + 256 * Little(p, at + 2, 2);
  }
}
