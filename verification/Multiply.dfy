/** machine/mipssim.cc, `Mult`: 32-bit multiplication by shifting and adding into two words. */
module Multiplication {
  import opened Bits

  /** Unsigned addition, `x += y`. */
  function Add(x: word, y: word): word {
    if x + y < 0x1_0000_0000 then x + y else x + y - 0x1_0000_0000
  }

  /** The two's complement of a machine integer; the smallest one is its own. */
  function Negate(x: int32): int32 {
    if x == -0x8000_0000 then x else -x
  }

  /** Two words as one unsigned number. */
  function DoubleWord(hi: word, lo: word): nat {
    hi * 0x1_0000_0000 + lo
  }

  /** The high and low words of the product, signed or unsigned. */
  method Mult(a: int32, b: int32, signedArith: bool) returns (hi: int32, lo: int32)
    ensures signedArith ==> hi * 0x1_0000_0000 + ToWord(lo) == a * b
    ensures !signedArith ==> DoubleWord(ToWord(hi), ToWord(lo)) == ToWord(a) * ToWord(b)
  {
    if a == 0 || b == 0 {
      return 0, 0;
    }
    var negative := false;
    var x, y := a, b;
    if signedArith {
      if x < 0 {
        negative := !negative;
        x := Negate(x);
      }
      if y < 0 {
        negative := !negative;
        y := Negate(y);
      }
    }
    WorthFits(ToWord(x), ToWord(y));
    var h, l := Accumulate(x, ToWord(y));
    if signedArith {
      SignedProduct(a, b, ToWord(x), ToWord(y));
    }
    if negative {
      h, l := Complement(h, l);
    }
    hi, lo := ToInt(h), ToInt(l);
  }

  /** The magnitudes multiply to at most 2^62, and their product has the sign of the operands'. */
  lemma SignedProduct(a: int, b: int, x: nat, y: nat)
    requires -0x8000_0000 <= a <= 0x8000_0000 && -0x8000_0000 <= b <= 0x8000_0000 && a != 0 && b != 0
    requires x == (if a < 0 then -a else a) && y == (if b < 0 then -b else b)
    ensures x * y == if (a < 0) != (b < 0) then -(a * b) else a * b
    ensures 0 < x * y <= 0x4000_0000_0000_0000
  {
    ProductAtMost(x, y, 0x8000_0000, 0x8000_0000);
    if a < 0 {
      assert (-a) * b == -(a * b) && (-a) * (-b) == a * b;
    } else {
      assert a * (-b) == -(a * b);
    }
  }

  /** The two's complement of a double word. */
  method Complement(hi: word, lo: word) returns (h: word, l: word)
    ensures DoubleWord(hi, lo) > 0 ==> DoubleWord(h, l) == 0x1_0000_0000_0000_0000 - DoubleWord(hi, lo)
    ensures DoubleWord(hi, lo) == 0 ==> DoubleWord(h, l) == 0
  {
    h, l := Not(hi), Add(Not(lo), 1);
    if l == 0 {
      h := Add(h, 1);
    }
  }

  /** Adds a double word, carrying from the low words to the high ones. */
  method AddWords(hi: word, lo: word, bHi: word, bLo: word) returns (h: word, l: word)
    requires DoubleWord(hi, lo) + DoubleWord(bHi, bLo) < 0x1_0000_0000_0000_0000
    ensures DoubleWord(h, l) == DoubleWord(hi, lo) + DoubleWord(bHi, bLo)
  {
    h, l := hi, Add(lo, bLo);
    if l < bLo {
      h := Add(h, 1);
    }
    h := Add(h, bHi);
  }

  /** Shifts a double word left by one bit. */
  method ShiftWords(hi: word, lo: word) returns (h: word, l: word)
    requires 2 * DoubleWord(hi, lo) < 0x1_0000_0000_0000_0000
    ensures DoubleWord(h, l) == 2 * DoubleWord(hi, lo)
  {
    h := Add(hi, hi);
    if lo >= 0x8000_0000 {
      h := h + 1;
    }
    l := Add(lo, lo);
  }

  /** Long multiplication: what the bits of `rest` are worth when the lowest one is worth `addend`. */
  function Worth(addend: nat, rest: nat): nat
    decreases rest, addend
  {
    if rest == 0 then 0
    else (if rest % 2 == 1 then addend else 0) + Worth(2 * addend, rest / 2)
  }

  lemma {:induction false} WorthIsProduct(addend: nat, rest: nat)
    ensures Worth(addend, rest) == addend * rest
    decreases rest
  {
    if rest > 0 {
      WorthIsProduct(2 * addend, rest / 2);
      TimesHalf(addend, rest / 2, rest % 2);
    }
  }

  lemma TimesHalf(a: nat, half: nat, bit: nat)
    requires bit < 2
    ensures (if bit == 1 then a else 0) + (2 * a) * half == a * (2 * half + bit)
  {
    assert a * (2 * half) == (2 * a) * half;
    assert a * (2 * half + bit) == a * (2 * half) + a * bit;
  }

  /** The low bit of the shifted multiplier, and what is left of it after the shift. */
  lemma ShiftedSign(x: int, rest: nat, r: nat, negative: bool)
    requires r % 2 == 0 && x == rest - (if negative then r else 0)
    ensures x % 2 == rest % 2 && x / 2 == rest / 2 - (if negative then r / 2 else 0)
    ensures rest < r && -0x8000_0000 <= x < 0x8000_0000 && x % 2 == 1 ==>
      (ToWord(x) / 2 == 0 <==> rest == 1 && !negative)
  {
  }

  lemma WorthFits(a: word, b: word)
    ensures Worth(b, a) == a * b < 0x1_0000_0000_0000_0000
  {
    WorthIsProduct(b, a);
    ProductAtMost(b, a, 0xffff_ffff, 0xffff_ffff);
  }

  lemma ProductAtMost(x: nat, y: nat, m: nat, n: nat)
    requires x <= m && y <= n
    ensures 0 <= x * y <= m * n
  {
    assert 0 <= x * y && 0 <= (m - x) * y && 0 <= m * (n - y);
    assert m * n - x * y == (m - x) * y + m * (n - y);
  }

  /** The shifted multiplicand has room for one more bit in every round. */
  lemma RoomToShift(i: nat)
    requires i < 32
    ensures 2 * Shift1(32 + i) == Shift1(33 + i) <= 0x1_0000_0000_0000_0000
  {
    Shift1Word();
    assert Shift1(40) == 0x100_0000_0000;
    assert Shift1(48) == 0x1_0000_0000_0000;
    assert Shift1(56) == 0x100_0000_0000_0000;
    assert Shift1(64) == 0x1_0000_0000_0000_0000;
    if i < 31 { Shift1Monotone(33 + i, 64); }
  }

  /** The main loop: one bit of `a` at a time, with `a` shifted arithmetically. */
  method Accumulate(a: int32, b: word) returns (hi: word, lo: word)
    requires Worth(b, ToWord(a)) < 0x1_0000_0000_0000_0000
    ensures DoubleWord(hi, lo) == Worth(b, ToWord(a))
  {
    var x := a;
    var bLo, bHi := b, 0;
    lo, hi := 0, 0;
    // `rest` are the bits of the multiplier still in `x`, below copies of the sign bit worth `-r`.
    ghost var rest: nat, r: nat := ToWord(a), 0x1_0000_0000;
    ghost var product := Worth(b, rest);
    Shift1Word();
    for i := 0 to 32
      invariant 0 <= rest < r == Shift1(32 - i)
      invariant x == rest - (if a < 0 then r else 0)
      invariant DoubleWord(bHi, bLo) < Shift1(32 + i)
      invariant DoubleWord(hi, lo) + Worth(DoubleWord(bHi, bLo), rest) == product
    {
      RoomToShift(i);
      assert r == 2 * Shift1(31 - i);
      ShiftedSign(x, rest, r, a < 0);
      assert Worth(DoubleWord(bHi, bLo), rest)
          == (if rest % 2 == 1 then DoubleWord(bHi, bLo) else 0) + Worth(2 * DoubleWord(bHi, bLo), rest / 2);
      if x % 2 == 1 {
        hi, lo := AddWords(hi, lo, bHi, bLo);
        if ToWord(x) / 2 == 0 {
          assert rest == 1;
          return;
        }
      }
      bHi, bLo := ShiftWords(bHi, bLo);
      x := x / 2;
      rest, r := rest / 2, r / 2;
    }
  }
}
