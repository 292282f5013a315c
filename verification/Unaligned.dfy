/** machine/mipssim.cc: the unaligned loads and stores LWL, LWR, SWL and SWR, in the `SIM_FIX`
    branches, and the delayed load that the first two go through. */
module Unaligned {
  import opened Bits

  // ---------- C's shifts on an `int`, seen as a word ----------

  /** `x << k`. */
  function Shl(x: word, k: nat): word {
    x * Shift1(k) % 0x1_0000_0000
  }

  /** `x >> k`, which copies the sign. */
  function Sar(x: word, k: nat): word {
    QuotientFits(ToInt(x), Shift1(k));
    ToWord(ToInt(x) / Shift1(k))
  }

  lemma AtLeast(s: nat, d: nat)
    requires d > 0
    ensures s * d >= s
  {
    assert s * d == s * (d - 1) + s && s * (d - 1) >= 0;
  }

  lemma QuotientFits(y: int, s: nat)
    requires s > 0 && -0x8000_0000 <= y < 0x8000_0000
    ensures -0x8000_0000 <= y / s < 0x8000_0000
  {
    var q := y / s;
    assert y == q * s + y % s;
    if q > 0 {
      AtLeast(q, s);
    } else if q < -1 {
      AtLeast(-(q + 1), s);
      assert -(q + 1) * s == -(q * s) - s;
    }
  }

  /** A remainder below the modulus is the remainder. */
  lemma Unique(s: nat, m: int, low: nat, h: int, l: nat)
    requires low < s && l < s && s * m + low == s * h + l
    ensures m == h && low == l
  {
    assert s * (m - h) == s * m - s * h && s * (h - m) == s * h - s * m;
    if m > h {
      AtLeast(s, m - h);
    } else if m < h {
      AtLeast(s, h - m);
    }
  }

  /** `x & y` and `x | y` on words. */
  function BitAnd(x: word, y: word): word {
    AndBound(x, y);
    And(x, y)
  }

  function BitOr(x: word, y: word): word {
    Shift1Word();
    OrBound(x, y, 32);
    Or(x, y)
  }

  // ---------- masks and unions as arithmetic ----------

  /** The `k` low bits of a number, and the number without them. */
  function Low(x: nat, k: nat): nat {
    if k == 0 then 0 else 2 * Low(x / 2, k - 1) + x % 2
  }

  function High(x: nat, k: nat): nat {
    if k == 0 then x else High(x / 2, k - 1)
  }

  lemma {:induction false} LowAndHigh(x: nat, k: nat)
    ensures x == Shift1(k) * High(x, k) + Low(x, k)
    ensures Low(x, k) < Shift1(k)
  {
    if k > 0 {
      LowAndHigh(x / 2, k - 1);
      Twice(Shift1(k - 1), High(x / 2, k - 1));
    }
  }

  lemma Twice(s: nat, h: nat)
    ensures (2 * s) * h == 2 * (s * h)
  {
  }

  /** `x & 0x0...f` keeps the low bits. */
  lemma {:induction false} AndLow(x: nat, k: nat)
    ensures And(x, Shift1(k) - 1) == Low(x, k)
    decreases k
  {
    if k == 0 {
      AndWithZero(x);
    } else {
      AndLow(x / 2, k - 1);
    }
  }

  /** `x & 0xf...0` keeps the others. */
  lemma {:induction false} AndHigh(x: nat, k: nat, n: nat)
    requires k <= n && x < Shift1(n)
    ensures Shift1(k) <= Shift1(n) && And(x, Shift1(n) - Shift1(k)) == x - Low(x, k)
    decreases n
  {
    if k < n { Shift1Monotone(k, n); }
    if k == 0 {
      AndLow(x, n);
      LowIsAll(x, n);
    } else {
      AndHigh(x / 2, k - 1, n - 1);
      var y := Shift1(n) - Shift1(k);
      assert y == 2 * (Shift1(n - 1) - Shift1(k - 1));
      assert And(x, y) == 2 * And(x / 2, y / 2);
    }
  }

  lemma {:induction false} LowIsAll(x: nat, n: nat)
    requires x < Shift1(n)
    ensures Low(x, n) == x
    decreases n
  {
    if n > 0 { LowIsAll(x / 2, n - 1); }
  }

  /** `|` adds words that have no bit in common. */
  lemma {:induction false} OrAdds(x: nat, y: nat, k: nat)
    requires x < Shift1(k) && Low(y, k) == 0
    ensures Or(x, y) == Or(y, x) == x + y
    decreases k
  {
    if k == 0 {
      OrZero(y);
    } else {
      OrAdds(x / 2, y / 2, k - 1);
    }
  }

  lemma {:induction false} OrZero(y: nat)
    ensures Or(0, y) == Or(y, 0) == y
  {
    if y > 0 { OrZero(y / 2); }
  }

  /** `k` bits of `x` below `m` shifted up by as many. */
  lemma {:induction false} LowZero(m: nat, k: nat)
    ensures Low(Shift1(k) * m, k) == 0
  {
    if k > 0 {
      Twice(Shift1(k - 1), m);
      LowZero(m, k - 1);
    }
  }

  lemma Powers()
    ensures Shift1(8) == 0x100 && Shift1(16) == 0x1_0000 && Shift1(24) == 0x100_0000 && Shift1(32) == 0x1_0000_0000
  {
    Shift1Word();
    assert Shift1(4) == 16 && Shift1(12) == 0x1000 && Shift1(20) == 0x10_0000;
  }

  // ---------- words by their bytes ----------

  function Word4(b0: byte, b1: byte, b2: byte, b3: byte): word {
    b0 as int + 0x100 * (b1 as int) + 0x1_0000 * (b2 as int) + 0x100_0000 * (b3 as int)
  }

  /** The low `k` bits of a number that is `low` plus a multiple of `1 << k`, and the others. */
  lemma Masked(x: word, k: nat, low: nat, m: nat)
    requires k == 8 || k == 16 || k == 24
    requires low < Shift1(k) && x == Shift1(k) * m + low
    ensures Shift1(k) <= 0x1_0000_0000
    ensures And(x, Shift1(k) - 1) == low && And(x, 0x1_0000_0000 - Shift1(k)) == x - low
  {
    Powers();
    LowAndHigh(x, k);
    Unique(Shift1(k), m, low, High(x, k), Low(x, k));
    AndLow(x, k);
    AndHigh(x, k, 32);
  }

  lemma ShlBytes(b0: byte, b1: byte, b2: byte, b3: byte)
    ensures Shl(Word4(b0, b1, b2, b3), 8) == 0x100 * Word4(b0, b1, b2, 0)
    ensures Shl(Word4(b0, b1, b2, b3), 16) == 0x1_0000 * Word4(b0, b1, 0, 0)
    ensures Shl(Word4(b0, b1, b2, b3), 24) == 0x100_0000 * Word4(b0, 0, 0, 0)
  {
    Powers();
    var x: int := Word4(b0, b1, b2, b3);
    Overflow(x * 0x100, b3, 0x100 * Word4(b0, b1, b2, 0));
    Overflow(x * 0x1_0000, Word4(b2, b3, 0, 0), 0x1_0000 * Word4(b0, b1, 0, 0));
    Overflow(x * 0x100_0000, Word4(b1, b2, b3, 0), 0x100_0000 * Word4(b0, 0, 0, 0));
  }

  lemma Overflow(x: nat, q: nat, r: nat)
    requires x == 0x1_0000_0000 * q + r && r < 0x1_0000_0000
    ensures x % 0x1_0000_0000 == r
  {
  }

  lemma SarBytes(b0: byte, b1: byte, b2: byte, b3: byte)
    ensures Sar(Word4(b0, b1, b2, b3), 8) == Word4(b1, b2, b3, 0) + 0x100_0000 * (if b3 < 0x80 then 0 else 0xff)
    ensures Sar(Word4(b0, b1, b2, b3), 16) == Word4(b2, b3, 0, 0) + 0x1_0000 * (if b3 < 0x80 then 0 else 0xffff)
    ensures Sar(Word4(b0, b1, b2, b3), 24) == b3 + 0x100 * (if b3 < 0x80 then 0 else 0xff_ffff)
  {
    Powers();
  }

  lemma Union(low: nat, k: nat, m: nat)
    requires low < Shift1(k)
    ensures Or(low, Shift1(k) * m) == Or(Shift1(k) * m, low) == low + Shift1(k) * m
  {
    LowZero(m, k);
    OrAdds(low, Shift1(k) * m, k);
  }

  /** The low bits of `x` below `m` shifted up. */
  lemma LowUnder(x: word, k: nat, low: nat, xm: nat, m: nat)
    requires k == 8 || k == 16 || k == 24
    requires low < Shift1(k) && x == Shift1(k) * xm + low && 0 <= Shift1(k) * m < 0x1_0000_0000
    requires Shift1(k) <= 0x1_0000_0000
    ensures BitOr(BitAnd(x, Shift1(k) - 1), Shift1(k) * m) == low + Shift1(k) * m
  {
    Masked(x, k, low, xm);
    Union(low, k, m);
  }

  /** The high bits of `x` above the low bits of `y`. */
  lemma HighOver(x: word, k: nat, low: nat, m: nat, y: word, yLow: nat, ym: nat)
    requires k == 8 || k == 16 || k == 24
    requires low < Shift1(k) && x == Shift1(k) * m + low
    requires yLow < Shift1(k) && y == Shift1(k) * ym + yLow
    ensures Shift1(k) <= 0x1_0000_0000
    ensures BitOr(BitAnd(x, 0x1_0000_0000 - Shift1(k)), BitAnd(y, Shift1(k) - 1)) == Shift1(k) * m + yLow
  {
    Masked(x, k, low, m);
    Masked(y, k, yLow, ym);
    Union(yLow, k, m);
    var high := Shift1(k) * m;
    assert And(x, 0x1_0000_0000 - Shift1(k)) == high && And(y, Shift1(k) - 1) == yLow;
    assert Or(high, yLow) == high + yLow;
  }

  // ---------- the merges of the four instructions ----------

  /** The low bytes of `a` below those of `b` shifted up. */
  lemma Up(a0: byte, a1: byte, a2: byte, a3: byte, b0: byte, b1: byte, b2: byte, b3: byte)
    ensures BitOr(BitAnd(Word4(a0, a1, a2, a3), 0xff), Shl(Word4(b0, b1, b2, b3), 8)) == Word4(a0, b0, b1, b2)
    ensures BitOr(BitAnd(Word4(a0, a1, a2, a3), 0xffff), Shl(Word4(b0, b1, b2, b3), 16)) == Word4(a0, a1, b0, b1)
    ensures BitOr(BitAnd(Word4(a0, a1, a2, a3), 0xff_ffff), Shl(Word4(b0, b1, b2, b3), 24)) == Word4(a0, a1, a2, b0)
  {
    Powers();
    ShlBytes(b0, b1, b2, b3);
    LowUnder(Word4(a0, a1, a2, a3), 8, a0, Word4(a1, a2, a3, 0), Word4(b0, b1, b2, 0));
    LowUnder(Word4(a0, a1, a2, a3), 16, Word4(a0, a1, 0, 0), Word4(a2, a3, 0, 0), Word4(b0, b1, 0, 0));
    LowUnder(Word4(a0, a1, a2, a3), 24, Word4(a0, a1, a2, 0), a3, b0);
  }

  /** The high bytes of `a` above those of `b` shifted down. */
  lemma Down(a0: byte, a1: byte, a2: byte, a3: byte, b0: byte, b1: byte, b2: byte, b3: byte)
    ensures BitOr(BitAnd(Word4(a0, a1, a2, a3), 0xffff_ff00), BitAnd(Sar(Word4(b0, b1, b2, b3), 24), 0xff)) ==
      Word4(b3, a1, a2, a3)
    ensures BitOr(BitAnd(Word4(a0, a1, a2, a3), 0xffff_0000), BitAnd(Sar(Word4(b0, b1, b2, b3), 16), 0xffff)) ==
      Word4(b2, b3, a2, a3)
    ensures BitOr(BitAnd(Word4(a0, a1, a2, a3), 0xff00_0000), BitAnd(Sar(Word4(b0, b1, b2, b3), 8), 0xff_ffff)) ==
      Word4(b1, b2, b3, a3)
  {
    Powers();
    SarBytes(b0, b1, b2, b3);
    var x, y, sign := Word4(a0, a1, a2, a3), Word4(b0, b1, b2, b3), if b3 < 0x80 then 0 else 0xff_ffff;
    HighOver(x, 8, a0, Word4(a1, a2, a3, 0), Sar(y, 24), b3, sign);
    HighOver(x, 16, Word4(a0, a1, 0, 0), Word4(a2, a3, 0, 0), Sar(y, 16), Word4(b2, b3, 0, 0), sign / 0x100);
    HighOver(x, 24, Word4(a0, a1, a2, 0), a3, Sar(y, 8), Word4(b1, b2, b3, 0), sign / 0x1_0000);
  }

  // ---------- the four instructions; `byte` is the address modulo 4 ----------

  /** What LWL makes of a register that held `old_`. */
  function Lwl(old_: word, value: word, lane: nat): word
    requires lane < 4
  {
    match 3 - lane
    case 0 => value
    case 1 => BitOr(BitAnd(old_, 0xff), Shl(value, 8))
    case 2 => BitOr(BitAnd(old_, 0xffff), Shl(value, 16))
    case _ => BitOr(BitAnd(old_, 0xff_ffff), Shl(value, 24))
  }

  function Lwr(old_: word, value: word, lane: nat): word
    requires lane < 4
  {
    match 3 - lane
    case 0 => BitOr(BitAnd(old_, 0xffff_ff00), BitAnd(Sar(value, 24), 0xff))
    case 1 => BitOr(BitAnd(old_, 0xffff_0000), BitAnd(Sar(value, 16), 0xffff))
    case 2 => BitOr(BitAnd(old_, 0xff00_0000), BitAnd(Sar(value, 8), 0xff_ffff))
    case _ => value
  }

  /** What SWL makes of an aligned word in memory. */
  function Swl(value: word, rt: word, lane: nat): word
    requires lane < 4
  {
    match 3 - lane
    case 0 => rt
    case 1 => BitOr(BitAnd(value, 0xff00_0000), BitAnd(Sar(rt, 8), 0xff_ffff))
    case 2 => BitOr(BitAnd(value, 0xffff_0000), BitAnd(Sar(rt, 16), 0xffff))
    case _ => BitOr(BitAnd(value, 0xffff_ff00), BitAnd(Sar(rt, 24), 0xff))
  }

  function Swr(value: word, rt: word, lane: nat): word
    requires lane < 4
  {
    match 3 - lane
    case 0 => BitOr(BitAnd(value, 0xff_ffff), Shl(rt, 24))
    case 1 => BitOr(BitAnd(value, 0xffff), Shl(rt, 16))
    case 2 => BitOr(BitAnd(value, 0xff), Shl(rt, 8))
    case _ => rt
  }

  lemma BytesOfWord(b: seq<byte>)
    requires |b| == 4
    ensures WordOf(b) == Word4(b[0], b[1], b[2], b[3]) && BytesOf(WordOf(b)) == b
  {
    var c := BytesOf(WordOf(b));
    WordRoundTrip(WordOf(b));
    Unique(0x100, Word4(b[1], b[2], b[3], 0), b[0], Word4(c[1], c[2], c[3], 0), c[0]);
    Unique(0x100, Word4(b[2], b[3], 0, 0), b[1], Word4(c[2], c[3], 0, 0), c[1]);
    Unique(0x100, b[3], b[2], c[3], c[2]);
  }

  /** LWL loads the bytes up to the addressed one into the top of the register; the rest stays. */
  lemma LwlBytes(a: seq<byte>, b: seq<byte>, lane: nat)
    requires |a| == |b| == 4 && lane < 4
    ensures Lwl(WordOf(a), WordOf(b), lane) == WordOf(a[..3 - lane] + b[..lane + 1])
  {
    Up(a[0], a[1], a[2], a[3], b[0], b[1], b[2], b[3]);
    BytesOfWord(a);
    BytesOfWord(b);
    BytesOfWord(a[..3 - lane] + b[..lane + 1]);
    if lane == 3 {
      assert a[..3 - lane] + b[..lane + 1] == b;
    }
  }

  /** LWR loads the bytes from the addressed one on into the bottom of the register. */
  lemma LwrBytes(a: seq<byte>, b: seq<byte>, lane: nat)
    requires |a| == |b| == 4 && lane < 4
    ensures Lwr(WordOf(a), WordOf(b), lane) == WordOf(b[lane..] + a[4 - lane..])
  {
    Down(a[0], a[1], a[2], a[3], b[0], b[1], b[2], b[3]);
    BytesOfWord(a);
    BytesOfWord(b);
    BytesOfWord(b[lane..] + a[4 - lane..]);
    if lane == 0 {
      assert b[lane..] + a[4 - lane..] == b;
    }
  }

  /** SWL stores the top bytes of the register up to the addressed byte of the word. */
  lemma SwlBytes(a: seq<byte>, b: seq<byte>, lane: nat)
    requires |a| == |b| == 4 && lane < 4
    ensures Swl(WordOf(a), WordOf(b), lane) == WordOf(b[3 - lane..] + a[lane + 1..])
  {
    Down(a[0], a[1], a[2], a[3], b[0], b[1], b[2], b[3]);
    BytesOfWord(a);
    BytesOfWord(b);
    BytesOfWord(b[3 - lane..] + a[lane + 1..]);
    if lane == 3 {
      assert b[3 - lane..] + a[lane + 1..] == b;
    }
  }

  /** SWR stores the bottom bytes of the register from the addressed byte of the word on. */
  lemma SwrBytes(a: seq<byte>, b: seq<byte>, lane: nat)
    requires |a| == |b| == 4 && lane < 4
    ensures Swr(WordOf(a), WordOf(b), lane) == WordOf(a[..lane] + b[..4 - lane])
  {
    Up(a[0], a[1], a[2], a[3], b[0], b[1], b[2], b[3]);
    BytesOfWord(a);
    BytesOfWord(b);
    BytesOfWord(a[..lane] + b[..4 - lane]);
    if lane == 0 {
      assert a[..lane] + b[..4 - lane] == b;
    }
  }

  // ---------- pairs of instructions on memory ----------

  /** The word at any address, as LW would load it from an aligned one. */
  function WordAt(mem: seq<byte>, p: nat): word
    requires p + 4 <= |mem|
  {
    WordOf(mem[p..p + 4])
  }

  /** Address `tmp` is byte `lane` of the aligned word at `p`. */
  predicate Aligned(tmp: nat, p: nat, lane: nat) {
    tmp == p + lane && lane < 4 && p % 4 == 0
  }

  lemma AlignedAt(tmp: nat)
    ensures tmp % 4 <= tmp && Aligned(tmp, tmp - tmp % 4, tmp % 4)
  {
  }

  /** The aligned words that hold the last byte and the first byte of the word at `a`. */
  lemma Neighbours(a: nat, p: nat, l: nat, q: nat, r: nat)
    requires Aligned(a + 3, p, l) && Aligned(a, q, r)
    ensures if r == 0 then l == 3 && p == q else l == r - 1 && p == q + 4
  {
  }

  /** Merging in both halves, in either order, leaves nothing of the old register. */
  lemma MergeHalves(o: seq<byte>, left: seq<byte>, right: seq<byte>, l: nat, r: nat)
    requires |o| == |left| == |right| == 4 && r < 4 && (if r == 0 then l == 3 && left == right else l == r - 1)
    ensures Lwr(Lwl(WordOf(o), WordOf(left), l), WordOf(right), r) == WordOf(right[r..] + left[..r])
    ensures Lwl(Lwr(WordOf(o), WordOf(right), r), WordOf(left), l) == WordOf(right[r..] + left[..r])
  {
    var mid, mid' := o[..3 - l] + left[..l + 1], right[r..] + o[4 - r..];
    assert right[r..] + mid[4 - r..] == right[r..] + left[..r] == mid'[..3 - l] + left[..l + 1];
    LwlBytes(o, left, l);
    LwrBytes(mid, right, r);
    LwrBytes(o, right, r);
    LwlBytes(mid', left, l);
  }

  lemma JoinHalves(mem: seq<byte>, p: nat, q: nat, r: nat)
    requires p + 4 <= |mem| && q + r + 4 <= |mem| && r < 4 && p == (if r == 0 then q else q + 4)
    ensures mem[q..q + 4][r..] + mem[p..p + 4][..r] == mem[q + r..q + r + 4]
  {
  }

  /** LWL at `a + 3` and LWR at `a`, in either order, together load the word at `a`. */
  lemma LoadBothHalves(mem: seq<byte>, a: nat, p: nat, l: nat, q: nat, r: nat, old_: word)
    requires Aligned(a + 3, p, l) && Aligned(a, q, r) && p + 4 <= |mem|
    ensures q + 4 <= |mem| && a + 4 <= |mem|
    ensures Lwr(Lwl(old_, WordAt(mem, p), l), WordAt(mem, q), r) == WordAt(mem, a)
    ensures Lwl(Lwr(old_, WordAt(mem, q), r), WordAt(mem, p), l) == WordAt(mem, a)
  {
    Neighbours(a, p, l, q, r);
    WordRoundTrip(old_);
    JoinHalves(mem, p, q, r);
    MergeHalves(BytesOf(old_), mem[p..p + 4], mem[q..q + 4], l, r);
  }

  /** The memory after SWL and SWR have been applied to the aligned words at `p` and `q`. */
  function Stored(mem: seq<byte>, p: nat, l: nat, q: nat, r: nat, v: word): seq<byte>
    requires p + 4 <= |mem| && q + 4 <= |mem| && l < 4 && r < 4
  {
    var mid := Splice(mem, p, BytesOf(Swl(WordAt(mem, p), v, l)));
    Splice(mid, q, BytesOf(Swr(WordAt(mid, q), v, r)))
  }

  /** Splicing both halves in writes the word, wherever it lies across its aligned words. */
  lemma SpliceHalves(mem: seq<byte>, p: nat, l: nat, q: nat, r: nat, b: seq<byte>)
    requires |b| == 4 && r < 4 && (if r == 0 then l == 3 && p == q else l == r - 1 && p == q + 4)
    requires p + 4 <= |mem|
    ensures var mid := Splice(mem, p, b[3 - l..] + mem[p..p + 4][l + 1..]);
            Splice(mid, q, mid[q..q + 4][..r] + b[..4 - r]) == Splice(mem, q + r, b)
  {
    var mid := Splice(mem, p, b[3 - l..] + mem[p..p + 4][l + 1..]);
    var end, want := Splice(mid, q, mid[q..q + 4][..r] + b[..4 - r]), Splice(mem, q + r, b);
    forall k | 0 <= k < |mem| ensures end[k] == want[k] {
      SpliceByte(mem, p, b[3 - l..] + mem[p..p + 4][l + 1..], k);
      SpliceByte(mid, q, mid[q..q + 4][..r] + b[..4 - r], k);
      SpliceByte(mem, q + r, b, k);
    }
  }

  lemma StoredBytes(mem: seq<byte>, p: nat, l: nat, q: nat, r: nat, b: seq<byte>)
    requires p + 4 <= |mem| && q + 4 <= |mem| && l < 4 && r < 4 && |b| == 4
    ensures var mid := Splice(mem, p, b[3 - l..] + mem[p..p + 4][l + 1..]);
            Stored(mem, p, l, q, r, WordOf(b)) == Splice(mid, q, mid[q..q + 4][..r] + b[..4 - r])
  {
    var left := mem[p..p + 4];
    SwlBytes(left, b, l);
    BytesOfWord(b[3 - l..] + left[l + 1..]);
    var mid := Splice(mem, p, b[3 - l..] + left[l + 1..]);
    SwrBytes(mid[q..q + 4], b, r);
    BytesOfWord(mid[q..q + 4][..r] + b[..4 - r]);
  }

  /** SWL at `a + 3` and then SWR at `a` together store the word at `a` and touch nothing else. */
  lemma StoreBothHalves(mem: seq<byte>, a: nat, p: nat, l: nat, q: nat, r: nat, v: word)
    requires Aligned(a + 3, p, l) && Aligned(a, q, r) && p + 4 <= |mem|
    ensures q + 4 <= |mem| && a + 4 <= |mem|
    ensures Stored(mem, p, l, q, r, v) == Splice(mem, a, BytesOf(v))
  {
    Neighbours(a, p, l, q, r);
    WordRoundTrip(v);
    StoredBytes(mem, p, l, q, r, BytesOf(v));
    SpliceHalves(mem, p, l, q, r, BytesOf(v));
  }

  // ---------- the registers and the delayed load ----------

  const LOAD_REG := 37
  const LOAD_VALUE_REG := 38
  const NUM_TOTAL_REGS := 40

  /** The delayed load, if any, is for a general register, and register 0 is 0. */
  predicate RegsOk(regs: seq<word>) {
    |regs| == NUM_TOTAL_REGS && regs[LOAD_REG] < 32 && regs[0] == 0
  }

  /** `DelayedLoad`: lets the pending load land and puts another one in its place. */
  function Delayed(regs: seq<word>, nextReg: nat, nextValue: word): (r: seq<word>)
    requires RegsOk(regs) && nextReg < 32
    ensures RegsOk(r)
  {
    regs[regs[LOAD_REG] := regs[LOAD_VALUE_REG]][LOAD_REG := nextReg][LOAD_VALUE_REG := nextValue][0 := 0]
  }

  /** The pending load lands whatever comes next, and nothing else changes but what is pending. */
  lemma Lands(regs: seq<word>, nextReg: nat, nextValue: word)
    requires RegsOk(regs) && nextReg < 32
    ensures var r := Delayed(regs, nextReg, nextValue);
            && r[LOAD_REG] == nextReg && r[LOAD_VALUE_REG] == nextValue
            && forall k :: 0 <= k < NUM_TOTAL_REGS && k != LOAD_REG && k != LOAD_VALUE_REG ==> r[k] == Landed(regs, k)
  {
  }

  /** Register `k` once the pending load has landed; register 0 stays 0. */
  function Landed(regs: seq<word>, k: nat): word
    requires RegsOk(regs) && k < NUM_TOTAL_REGS
  {
    if k != 0 && k == regs[LOAD_REG] then regs[LOAD_VALUE_REG] else regs[k]
  }

  /** What LWL and LWR take register `rt` to hold: a load on the way there is not waited for. */
  function Pending(regs: seq<word>, rt: nat): word
    requires RegsOk(regs) && rt < 32
  {
    if regs[LOAD_REG] == rt then regs[LOAD_VALUE_REG] else regs[rt]
  }

  function Address(regs: seq<word>, rs: nat, extra: word): word
    requires RegsOk(regs) && rs < 32
  {
    (regs[rs] + extra) % 0x1_0000_0000
  }

  /** LWL of byte `lane` of an aligned word, with its delayed load. */
  function LwlStep(regs: seq<word>, value: word, rt: nat, lane: nat): (r: seq<word>)
    requires RegsOk(regs) && rt < 32 && lane < 4
    ensures RegsOk(r)
  {
    Delayed(regs, rt, Lwl(Pending(regs, rt), value, lane))
  }

  function LwrStep(regs: seq<word>, value: word, rt: nat, lane: nat): (r: seq<word>)
    requires RegsOk(regs) && rt < 32 && lane < 4
    ensures RegsOk(r)
  {
    Delayed(regs, rt, Lwr(Pending(regs, rt), value, lane))
  }

  /** The base address is the same for both instructions unless a load into the base register is on
      its way. */
  /** The address is the sum of the base register and the offset, as `int`s. */
  lemma AddressIs(regs: seq<word>, rs: nat, extra: word)
    requires RegsOk(regs) && rs < 32
    ensures ToInt(Address(regs, rs, extra)) == Wrapped(ToInt(regs[rs]) + ToInt(extra))
    ensures regs[rs] + extra < 0x1_0000_0000 ==> Address(regs, rs, extra) == regs[rs] + extra
  {
  }

  lemma SameBase(regs: seq<word>, rs: nat, rt: nat, value: word, extra: word)
    requires RegsOk(regs) && rs < 32 && rt < 32 && (regs[LOAD_REG] == rs ==> rs == 0)
    ensures Address(Delayed(regs, rt, value), rs, extra) == Address(regs, rs, extra)
    ensures rt != rs || rs == 0 ==>
      Address(Delayed(Delayed(regs, rt, value), 0, 0), rs, extra) == Address(regs, rs, extra)
  {
  }

  /** A load into `rt`, perhaps an interrupt, then another one into `rt`: the second one merges with
      the first whether or not that has landed, and wins. */
  lemma TwoLoads(regs: seq<word>, rt: nat, v1: word, interrupted: bool, v2: word)
    requires RegsOk(regs) && 0 < rt < 32
    ensures var one := Delayed(regs, rt, v1); var two := if interrupted then Delayed(one, 0, 0) else one;
            && Pending(two, rt) == v1
            && var three := Delayed(Delayed(two, rt, v2), 0, 0);
            && three[rt] == v2
            && forall k :: 0 <= k < 32 && k != rt ==> three[k] == Landed(regs, k)
  {
  }

  /** LWL then LWR of two halves leaves the bytes of both in `rt` once the load has landed, whether or
      not an interrupt has let the first load land in between; the load that was pending before lands too, and
      no other register changes. */
  lemma LoadHalves(regs: seq<word>, rt: nat, left: seq<byte>, l: nat, right: seq<byte>, r: nat, interrupted: bool)
    requires RegsOk(regs) && 0 < rt < 32
    requires |left| == |right| == 4 && r < 4 && (if r == 0 then l == 3 && left == right else l == r - 1)
    ensures var one := LwlStep(regs, WordOf(left), rt, l);
            var two := if interrupted then Delayed(one, 0, 0) else one;
            var three := Delayed(LwrStep(two, WordOf(right), rt, r), 0, 0);
            && three[rt] == WordOf(right[r..] + left[..r])
            && forall k :: 0 <= k < 32 && k != rt ==> three[k] == Landed(regs, k)
  {
    var old_ := Pending(regs, rt);
    WordRoundTrip(old_);
    MergeHalves(BytesOf(old_), left, right, l, r);
    TwoLoads(regs, rt, Lwl(old_, WordOf(left), l), interrupted, WordOf(right[r..] + left[..r]));
  }
}
