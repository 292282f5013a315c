/** lib/bitmap.cc: a bitmap over an array of 32-bit words. */
module Bitmaps {
  import opened Bits

  /** `words` holds `bits`: bit `32 * w + j` sits in word `w` at position `j`. */
  ghost predicate Holds(words: seq<word>, bits: seq<bool>) {
    forall w: nat, j: nat {:trigger Bit(words[w], j)} ::
      w < |words| && j < 32 && 32 * w + j < |bits| ==> bits[32 * w + j] == Bit(words[w], j)
  }

  /** Writing bit `k` of the word that holds it updates exactly that bit. */
  lemma HoldsUpdate(words: seq<word>, bits: seq<bool>, k: nat, v: word, b: bool)
    requires k < |bits| <= 32 * |words| && Holds(words, bits)
    requires forall j: nat | j < 32 :: Bit(v, j) == if j == k % 32 then b else Bit(words[k / 32], j)
    ensures Holds(words[k / 32 := v], bits[k := b])
  {
  }

  /** All the words hold the bits, so the bits are determined by the words. */
  lemma HoldsUnique(words: seq<word>, a: seq<bool>, b: seq<bool>)
    requires Holds(words, a) && Holds(words, b) && |a| == |b| <= 32 * |words|
    ensures a == b
  {
    forall i | 0 <= i < |a| ensures a[i] == b[i] {
      assert Bit(words[i / 32], i % 32) == a[i];
    }
  }

  /** The index of the first clear bit; `|bits|` when every bit is set. */
  function FirstClear(bits: seq<bool>): (k: nat)
    ensures k <= |bits|
  {
    if bits == [] || !bits[0] then 0 else 1 + FirstClear(bits[1..])
  }

  /** `FirstClear` is the only index with a clear bit (or the end) and set bits before it. */
  lemma {:induction false} FirstClearIs(bits: seq<bool>, k: nat)
    requires k <= |bits|
    ensures FirstClear(bits) == k <==>
              (k < |bits| ==> !bits[k]) && (forall i :: 0 <= i < k ==> bits[i])
  {
    if bits != [] && bits[0] {
      if k > 0 {
        FirstClearIs(bits[1..], k - 1);
        assert forall i :: 1 <= i < k ==> bits[i] == bits[1..][i - 1];
      }
    }
  }

  /** How many bits are clear. */
  function ClearCount(bits: seq<bool>): nat {
    if bits == [] then 0
    else ClearCount(bits[..|bits| - 1]) + (if bits[|bits| - 1] then 0 else 1)
  }

  lemma {:induction false} ClearCountUpdate(bits: seq<bool>, k: nat, b: bool)
    requires k < |bits|
    ensures ClearCount(bits[k := b])
         == ClearCount(bits) + (if bits[k] then 1 else 0) - (if b then 1 else 0)
  {
    var n := |bits| - 1;
    assert bits[k := b][n] == if k == n then b else bits[n];
    if k == n {
      assert bits[k := b][..n] == bits[..n];
    } else {
      assert bits[k := b][..n] == bits[..n][k := b];
      ClearCountUpdate(bits[..n], k, b);
    }
  }

  lemma {:induction false} ClearCountPositive(bits: seq<bool>, k: nat)
    requires k < |bits| && !bits[k]
    ensures ClearCount(bits) > 0
  {
    if k < |bits| - 1 { ClearCountPositive(bits[..|bits| - 1], k); }
  }

  lemma {:induction false} ClearCountZero(bits: seq<bool>)
    requires forall i :: 0 <= i < |bits| ==> bits[i]
    ensures ClearCount(bits) == 0
  {
    if bits != [] { ClearCountZero(bits[..|bits| - 1]); }
  }

  /** A clear bit is found exactly when there is one to count. */
  lemma FoundIffClear(bits: seq<bool>)
    ensures FirstClear(bits) < |bits| <==> ClearCount(bits) > 0
  {
    FirstClearIs(bits, FirstClear(bits));
    if FirstClear(bits) < |bits| {
      ClearCountPositive(bits, FirstClear(bits));
    } else {
      ClearCountZero(bits);
    }
  }

  class Bitmap {
    const numBits: nat
    const words: array<word>
    /** The abstract value: one boolean per bit. */
    ghost var bits: seq<bool>

    ghost predicate Valid()
      reads this, words
    {
      && numBits > 0
      && words.Length == numBits / 32 + (if numBits % 32 > 0 then 1 else 0)
      && |bits| == numBits
      && Holds(words[..], bits)
    }

    constructor (numItems: nat)
      requires numItems > 0
      ensures Valid() && fresh(words) && numBits == numItems
      ensures bits == seq(numItems, _ => false)
    {
      numBits := numItems;
      var n := numItems / 32 + (if numItems % 32 > 0 then 1 else 0);
      words := new word[n];
      new;
      for i := 0 to words.Length
        invariant forall j :: 0 <= j < i ==> words[j] == 0
      {
        words[i] := 0;
      }
      bits := seq(numBits, _ => false);
      forall j: nat ensures !Bit(0, j) { ZeroHasNoBits(j); }
      for i := 0 to numBits
        invariant Valid() && bits == seq(numBits, _ => false)
      {
        Clear(i);
      }
    }

    method Mark(which: nat)
      requires Valid() && which < numBits
      modifies this, words
      ensures Valid() && bits == old(bits)[which := true]
    {
      SetBit(words[which / 32], which % 32);
      HoldsUpdate(words[..], bits, which, Or(words[which / 32], Shift1(which % 32)), true);
      words[which / 32] := Or(words[which / 32], Shift1(which % 32));
      bits := bits[which := true];
      assert Test(which);
    }

    method Clear(which: nat)
      requires Valid() && which < numBits
      modifies this, words
      ensures Valid() && bits == old(bits)[which := false]
    {
      ClearBit(words[which / 32], which % 32);
      HoldsUpdate(words[..], bits, which, And(words[which / 32], Not(Shift1(which % 32))), false);
      words[which / 32] := And(words[which / 32], Not(Shift1(which % 32)));
      bits := bits[which := false];
      assert !Test(which);
    }

    predicate Test(which: nat)
      requires Valid() && which < numBits
      reads this, words
      ensures Test(which) == bits[which]
    {
      TestMask(words[which / 32], which % 32);
      And(words[which / 32], Shift1(which % 32)) != 0
    }

    method FindAndSet() returns (k: int)
      requires Valid()
      modifies this, words
      ensures Valid()
      ensures FirstClear(old(bits)) == numBits ==> k == -1 && bits == old(bits)
      ensures FirstClear(old(bits)) < numBits ==> k == FirstClear(old(bits)) && bits == old(bits)[k := true]
    {
      for i := 0 to numBits
        invariant Valid() && bits == old(bits)
        invariant forall j :: 0 <= j < i ==> bits[j]
      {
        if !Test(i) {
          FirstClearIs(bits, i);
          Mark(i);
          return i;
        }
      }
      FirstClearIs(bits, numBits);
      return -1;
    }

    method NumClear() returns (count: nat)
      requires Valid()
      ensures count == ClearCount(bits)
    {
      count := 0;
      for i := 0 to numBits
        invariant count == ClearCount(bits[..i])
      {
        assert bits[..i + 1][..i] == bits[..i];
        if !Test(i) {
          count := count + 1;
        }
      }
      assert bits[..numBits] == bits;
    }
  }
}
