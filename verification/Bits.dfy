/** Unsigned machine words as naturals: C's bitwise operators, and the little-endian
    layout of a 32-bit word in four bytes. */
module Bits {
  type byte = x: int | 0 <= x < 256
  type word = x: int | 0 <= x < 0x1_0000_0000


  /** Is bit `k` of `x` set? */
  predicate Bit(x: nat, k: nat) {
    if k == 0 then x % 2 == 1 else Bit(x / 2, k - 1)
  }

  /** C's `1 << k`. */
  function Shift1(k: nat): (r: nat)
    ensures r > 0
  {
    if k == 0 then 1 else 2 * Shift1(k - 1)
  }

  /** C's `x | y`. */
  function Or(x: nat, y: nat): nat
    decreases x + y
  {
    if x == 0 && y == 0 then 0
    else 2 * Or(x / 2, y / 2) + (if x % 2 == 1 || y % 2 == 1 then 1 else 0)
  }

  /** C's `x & y`. */
  function And(x: nat, y: nat): nat
    decreases x + y
  {
    if x == 0 && y == 0 then 0
    else 2 * And(x / 2, y / 2) + (if x % 2 == 1 && y % 2 == 1 then 1 else 0)
  }

  /** C's `~x` on a 32-bit word. */
  function Not(x: word): word {
    0xffff_ffff - x
  }

  lemma {:induction false} OrBit(x: nat, y: nat, k: nat)
    ensures Bit(Or(x, y), k) <==> Bit(x, k) || Bit(y, k)
    decreases k
  {
    if x == 0 && y == 0 {
      ZeroHasNoBits(k);
    } else if k > 0 {
      OrBit(x / 2, y / 2, k - 1);
    }
  }

  lemma {:induction false} AndBit(x: nat, y: nat, k: nat)
    ensures Bit(And(x, y), k) <==> Bit(x, k) && Bit(y, k)
    decreases k
  {
    if x == 0 && y == 0 {
      ZeroHasNoBits(k);
    } else if k > 0 {
      AndBit(x / 2, y / 2, k - 1);
    }
  }

  lemma {:induction false} ZeroHasNoBits(k: nat)
    ensures !Bit(0, k)
  {
    if k > 0 { ZeroHasNoBits(k - 1); }
  }

  lemma {:induction false} Shift1Bit(k: nat, j: nat)
    ensures Bit(Shift1(k), j) <==> j == k
  {
    if j > 0 {
      if k > 0 {
        Shift1Bit(k - 1, j - 1);
      } else {
        ZeroHasNoBits(j - 1);
      }
    }
  }

  lemma {:induction false} BelowShift(x: nat, k: nat, n: nat)
    requires x < Shift1(n) && n <= k
    ensures !Bit(x, k)
    decreases k
  {
    if n == 0 { ZeroHasNoBits(k); } else { BelowShift(x / 2, k - 1, n - 1); }
  }

  lemma {:induction false} ComplementBit(x: nat, n: nat, k: nat)
    requires x < Shift1(n) && k < n
    ensures Bit(Shift1(n) - 1 - x, k) <==> !Bit(x, k)
    decreases k
  {
    if k > 0 {
      assert (Shift1(n) - 1 - x) / 2 == Shift1(n - 1) - 1 - x / 2;
      ComplementBit(x / 2, n - 1, k - 1);
    }
  }

  lemma {:induction false} OrBound(x: nat, y: nat, n: nat)
    requires x < Shift1(n) && y < Shift1(n)
    ensures Or(x, y) < Shift1(n)
    decreases n
  {
    if n > 0 { OrBound(x / 2, y / 2, n - 1); }
  }

  lemma {:induction false} AndBound(x: nat, y: nat)
    ensures And(x, y) <= x
    decreases x + y
  {
    if x != 0 || y != 0 { AndBound(x / 2, y / 2); }
  }

  lemma Shift1Word()
    ensures Shift1(32) == 0x1_0000_0000
  {
    assert Shift1(4) == 16;
    assert Shift1(8) == 0x100;
    assert Shift1(12) == 0x1000;
    assert Shift1(16) == 0x1_0000;
    assert Shift1(20) == 0x10_0000;
    assert Shift1(24) == 0x100_0000;
    assert Shift1(28) == 0x1000_0000;
  }

  lemma {:induction false} Shift1Monotone(k: nat, n: nat)
    requires k < n
    ensures Shift1(k) < Shift1(n)
  {
    if k > 0 { Shift1Monotone(k - 1, n - 1); } else if n > 1 { Shift1Monotone(0, n - 1); }
  }

  /** `w & (1 << k)` is non-zero exactly when bit `k` is set. */
  lemma {:induction false} TestMask(w: nat, k: nat)
    ensures And(w, Shift1(k)) != 0 <==> Bit(w, k)
    decreases k
  {
    if k == 0 {
      AndWithOne(w);
    } else {
      TestMask(w / 2, k - 1);
    }
  }

  lemma {:induction false} AndWithOne(w: nat)
    ensures And(w, 1) == w % 2
  {
    AndWithZero(w / 2);
  }

  lemma {:induction false} AndWithZero(w: nat)
    ensures And(w, 0) == 0
  {
    if w != 0 { AndWithZero(w / 2); }
  }

  /** `w |= 1 << k` sets bit `k` and no other. */
  lemma SetBit(w: word, k: nat)
    requires k < 32
    ensures 0 <= Or(w, Shift1(k)) < 0x1_0000_0000
    ensures forall j: nat | j < 32 :: Bit(Or(w, Shift1(k)), j) <==> (j == k || Bit(w, j))
  {
    Shift1Word();
    Shift1Monotone(k, 32);
    OrBound(w, Shift1(k), 32);
    forall j: nat | j < 32
      ensures Bit(Or(w, Shift1(k)), j) <==> (j == k || Bit(w, j))
    {
      OrBit(w, Shift1(k), j);
      Shift1Bit(k, j);
    }
  }

  /** `w &= ~(1 << k)` clears bit `k` and no other. */
  lemma ClearBit(w: word, k: nat)
    requires k < 32
    ensures Shift1(k) < 0x1_0000_0000
    ensures 0 <= And(w, Not(Shift1(k))) < 0x1_0000_0000
    ensures forall j: nat | j < 32 :: Bit(And(w, Not(Shift1(k))), j) <==> (j != k && Bit(w, j))
  {
    Shift1Word();
    Shift1Monotone(k, 32);
    AndBound(w, Not(Shift1(k)));
    forall j: nat | j < 32
      ensures Bit(And(w, Not(Shift1(k))), j) <==> (j != k && Bit(w, j))
    {
      AndBit(w, Not(Shift1(k)), j);
      ComplementBit(Shift1(k), 32, j);
      Shift1Bit(k, j);
    }
  }

  /** Byte `k` of a word as it lies in memory, least significant first. */
  function ByteOf(w: word, k: nat): byte
    requires k < 4
  {
    if k == 0 then w % 256
    else if k == 1 then w / 0x100 % 256
    else if k == 2 then w / 0x1_0000 % 256
    else w / 0x100_0000
  }

  function WordOf(b: seq<byte>): word
    requires |b| == 4
  {
    b[0] as int + 0x100 * (b[1] as int) + 0x1_0000 * (b[2] as int) + 0x100_0000 * (b[3] as int)
  }

  function BytesOf(w: word): seq<byte> {
    [ByteOf(w, 0), ByteOf(w, 1), ByteOf(w, 2), ByteOf(w, 3)]
  }

  lemma WordRoundTrip(w: word)
    ensures WordOf(BytesOf(w)) == w
  {
    assert w / 0x100_0000 == w / 0x1_0000 / 256;
    assert w / 0x1_0000 == w / 0x100 / 256;
  }

  /** A two's-complement integer of 32 bits. */
  type int32 = x: int | -0x8000_0000 <= x < 0x8000_0000

  /** What a sum or difference of two `int`s comes to where it wraps around. */
  function Wrapped(n: int): (r: int32)
    ensures (n - r) % 0x1_0000_0000 == 0
  {
    (n + 0x8000_0000) % 0x1_0000_0000 - 0x8000_0000
  }

  /** The word with the same bits. */
  function ToWord(n: int32): word {
    if n < 0 then n + 0x1_0000_0000 else n
  }

  function ToInt(w: word): int32 {
    if w < 0x8000_0000 then w else w - 0x1_0000_0000
  }

  /** `s` with `d` written over it from index `p` on. */
  function Splice(s: seq<byte>, p: nat, d: seq<byte>): (r: seq<byte>)
    requires p + |d| <= |s|
    ensures |r| == |s|
  {
    seq(|s|, i requires 0 <= i < |s| => if p <= i < p + |d| then d[i - p] else s[i])
  }

  lemma SpliceByte(s: seq<byte>, p: nat, d: seq<byte>, k: nat)
    requires p + |d| <= |s| && k < |s|
    ensures |Splice(s, p, d)| == |s|
    ensures Splice(s, p, d)[k] == if p <= k < p + |d| then d[k - p] else s[k]
  {
  }
}
