/** Short programs on the machine: the pairs of instructions for words that may lie across two aligned
    ones, and writes that are read back. */
module MachinePrograms {
  import opened Bits
  import opened Unaligned
  import opened Machines

  /** The offset of LWL and SWL in a pair: that of the word's last byte. */
  function LastByte(extra: word): word {
    (extra + 3) % 0x1_0000_0000
  }

  /** The four bytes from `a` on do not wrap around the address space. */
  lemma LastByteAddress(regs: seq<word>, rs: nat, extra: word)
    requires RegsOk(regs) && rs < 32 && Address(regs, rs, extra) + 3 < 0x1_0000_0000
    ensures Address(regs, rs, LastByte(extra)) == Address(regs, rs, extra) + 3
  {
  }

  /** What the two accesses come to: the first one that fails, or the second. */
  function BothAccesses(mmu: Mmu, a: word, writing: bool): Outcome
    requires a + 3 < 0x1_0000_0000
  {
    var left := AlignedAccess(mmu, a + 3, writing);
    if left.Fault? then left else AlignedAccess(mmu, a, writing)
  }

  lemma SameAccess(mmu: Mmu, mmu': Mmu, tmp: word, writing: bool)
    requires SameMap(mmu, mmu')
    ensures AlignedAccess(mmu', tmp, writing) == AlignedAccess(mmu, tmp, writing)
  {
  }

  /** No load is on its way to register `r`. */
  ghost predicate NotComing(regs: seq<word>, r: nat)
    requires RegsOk(regs)
  {
    regs[LOAD_REG] == r ==> r == 0
  }

  /** The base register is the same for both loads. */
  ghost predicate BaseStays(regs: seq<word>, rs: nat, rt: nat, interrupted: bool)
    requires RegsOk(regs)
  {
    NotComing(regs, rs) && (interrupted ==> rt != rs)
  }

  /** The registers after LWL of the word that ends at `last`, and after LWR too and the beginning of the
      next instruction. */
  ghost function AfterLeft(mmu: Mmu, mem: seq<byte>, regs: seq<word>, rt: nat, last: word,
                           interrupted: bool): (r: seq<word>)
    requires |mem| == MEMORY_SIZE && RegsOk(regs) && rt < 32 && AlignedAccess(mmu, last, false).At?
    ensures RegsOk(r)
  {
    var one := LwlStep(regs, WordOf(WordIn(mmu, mem, AlignedPart(last))), rt, last % 4);
    if interrupted then Delayed(one, 0, 0) else one
  }

  lemma SameAddress(mmu: Mmu, mem: seq<byte>, regs: seq<word>, rs: nat, rt: nat, extra: word, interrupted: bool)
    requires |mem| == MEMORY_SIZE && RegsOk(regs) && rs < 32 && rt < 32 && BaseStays(regs, rs, rt, interrupted)
    requires Address(regs, rs, extra) + 3 < 0x1_0000_0000 && AlignedAccess(mmu, Address(regs, rs, extra) + 3, false).At?
    ensures var r := AfterLeft(mmu, mem, regs, rt, Address(regs, rs, extra) + 3, interrupted);
            Address(r, rs, extra) == Address(regs, rs, extra)
  {
    var a := Address(regs, rs, extra);
    SameBase(regs, rs, rt, Lwl(Pending(regs, rt), WordOf(WordIn(mmu, mem, AlignedPart(a + 3))), (a + 3) % 4), extra);
  }

  ghost function AfterRight(mmu: Mmu, mem: seq<byte>, regs: seq<word>, rt: nat, a: word): (r: seq<word>)
    requires |mem| == MEMORY_SIZE && RegsOk(regs) && rt < 32 && AlignedAccess(mmu, a, false).At?
    ensures RegsOk(r)
  {
    Delayed(LwrStep(regs, WordOf(WordIn(mmu, mem, AlignedPart(a))), rt, a % 4), 0, 0)
  }

  ghost function AfterLoads(mmu: Mmu, mem: seq<byte>, regs: seq<word>, rt: nat, a: word,
                            interrupted: bool): (r: seq<word>)
    requires |mem| == MEMORY_SIZE && RegsOk(regs) && rt < 32 && a + 3 < 0x1_0000_0000 && BothAccesses(mmu, a, false).At?
    ensures RegsOk(r)
  {
    AfterRight(mmu, mem, AfterLeft(mmu, mem, regs, rt, a + 3, interrupted), rt, a)
  }

  lemma LoadsMeaning(mmu: Mmu, mem: seq<byte>, regs: seq<word>, rt: nat, a: word, interrupted: bool)
    returns (b: seq<byte>)
    requires |mem| == MEMORY_SIZE && RegsOk(regs) && 0 < rt < 32
    requires a + 3 < 0x1_0000_0000 && BothAccesses(mmu, a, false).At?
    ensures |b| == 4 && forall k: nat :: k < 4 ==> Reads(mmu, mem, a, k, b[k])
    ensures var r := AfterLoads(mmu, mem, regs, rt, a, interrupted);
            && r[rt] == WordOf(b)
            && forall k :: 0 <= k < 32 && k != rt ==> r[k] == Landed(regs, k)
  {
    AlignedAt(a);
    AlignedAt(a + 3);
    b := VirtualLoad(mmu, mem, regs, rt, a, AlignedPart(a + 3), (a + 3) % 4, AlignedPart(a), a % 4, interrupted);
  }

  /** The first of the two, and what it leaves for the second. */
  method RunLeft(m: Machine, rs: nat, rt: nat, extra: word, interrupted: bool) returns (t: Outcome)
    requires m.Valid() && rs < 32 && 0 < rt < 32
    modifies m.registers, m.pageTable, m.tlb
    ensures var mmu, regs := old(m.Table()), old(m.registers[..]);
            var last := Address(regs, rs, extra);
            && m.Valid() && SameMap(mmu, m.Table()) && t == AlignedAccess(mmu, last, false)
            && (t.At? ==> m.registers[..] == AfterLeft(mmu, m.mainMemory[..], regs, rt, last, interrupted))
  {
    t := m.LoadWordLeft(rs, rt, extra);
    if t.At? && interrupted {
      m.DelayedLoad(0, 0);
    }
  }

  method RunLoads(m: Machine, rs: nat, rt: nat, extra: word, interrupted: bool) returns (t: Outcome)
    requires m.Valid() && rs < 32 && 0 < rt < 32 && BaseStays(m.registers[..], rs, rt, interrupted)
    requires Address(m.registers[..], rs, extra) + 3 < 0x1_0000_0000
    modifies m.registers, m.pageTable, m.tlb
    ensures var mmu, regs := old(m.Table()), old(m.registers[..]);
            var a := Address(regs, rs, extra);
            && m.Valid() && SameMap(mmu, m.Table()) && t == BothAccesses(mmu, a, false)
            && (t.At? ==> m.registers[..] == AfterLoads(mmu, m.mainMemory[..], regs, rt, a, interrupted))
  {
    ghost var mmu, regs := m.Table(), m.registers[..];
    ghost var a := Address(regs, rs, extra);
    LastByteAddress(regs, rs, extra);
    t := RunLeft(m, rs, rt, LastByte(extra), interrupted);
    if t.Fault? {
      return;
    }
    SameAddress(mmu, m.mainMemory[..], regs, rs, rt, extra, interrupted);
    t := RunRight(m, mmu, rs, rt, extra);
  }

  /** LWR and the beginning of the next instruction, on a table that translates like `mmu`. */
  method RunRight(m: Machine, ghost mmu: Mmu, rs: nat, rt: nat, extra: word) returns (t: Outcome)
    requires m.Valid() && rs < 32 && rt < 32 && SameMap(mmu, m.Table())
    modifies m.registers, m.pageTable, m.tlb
    ensures var regs := old(m.registers[..]);
            var a := Address(regs, rs, extra);
            && m.Valid() && SameMap(mmu, m.Table()) && t == AlignedAccess(mmu, a, false)
            && (t.At? ==> m.registers[..] == AfterRight(mmu, m.mainMemory[..], regs, rt, a))
  {
    SameAccess(mmu, m.Table(), Address(m.registers[..], rs, extra), false);
    t := m.LoadWordRight(rs, rt, extra);
    if t.At? {
      m.DelayedLoad(0, 0);
    }
  }

  /** `LWL rt, extra + 3(rs)` and `LWR rt, extra(rs)`, perhaps with an interrupt in between, and the
      beginning of the next instruction: `rt` holds the word at that address, aligned or not, even
      across two pages; a load that was pending before has landed, and no other register has changed. */
  method LoadUnaligned(m: Machine, rs: nat, rt: nat, extra: word, interrupted: bool)
    returns (t: Outcome, ghost b: seq<byte>)
    requires m.Valid() && rs < 32 && 0 < rt < 32 && BaseStays(m.registers[..], rs, rt, interrupted)
    requires Address(m.registers[..], rs, extra) + 3 < 0x1_0000_0000
    modifies m.registers, m.pageTable, m.tlb
    ensures m.Valid() && SameMap(old(m.Table()), m.Table())
    ensures t == BothAccesses(old(m.Table()), Address(old(m.registers[..]), rs, extra), false)
    ensures t.At? ==> |b| == 4 && m.registers[rt] == WordOf(b)
    ensures t.At? ==> forall k: nat :: k < 4 ==>
      Reads(old(m.Table()), m.mainMemory[..], Address(old(m.registers[..]), rs, extra), k, b[k])
    ensures t.At? ==> forall k :: 0 <= k < 32 && k != rt ==> m.registers[k] == Landed(old(m.registers[..]), k)
  {
    ghost var regs, mmu, mem := m.registers[..], m.Table(), m.mainMemory[..];
    ghost var a := Address(regs, rs, extra);
    t := RunLoads(m, rs, rt, extra, interrupted);
    b := [];
    if t.At? {
      b := LoadsMeaning(mmu, mem, regs, rt, a, interrupted);
    }
  }

  /** Memory after SWL of `v` with its last byte at `last`, and after SWR too. */
  ghost function AfterStoreLeft(mmu: Mmu, mem: seq<byte>, v: word, last: word): (r: seq<byte>)
    requires |mem| == MEMORY_SIZE && AlignedAccess(mmu, last, true).At?
    ensures |r| == MEMORY_SIZE
  {
    var p := AlignedPart(last);
    WriteWord(mmu, mem, p, BytesOf(Swl(WordOf(WordIn(mmu, mem, p)), v, last % 4)))
  }

  ghost function AfterStoreRight(mmu: Mmu, mem: seq<byte>, v: word, a: word): (r: seq<byte>)
    requires |mem| == MEMORY_SIZE && AlignedAccess(mmu, a, true).At?
    ensures |r| == MEMORY_SIZE
  {
    var q := AlignedPart(a);
    WriteWord(mmu, mem, q, BytesOf(Swr(WordOf(WordIn(mmu, mem, q)), v, a % 4)))
  }

  ghost function AfterStores(mmu: Mmu, mem: seq<byte>, v: word, a: word): (r: seq<byte>)
    requires |mem| == MEMORY_SIZE && a + 3 < 0x1_0000_0000 && BothAccesses(mmu, a, true).At?
    ensures |r| == MEMORY_SIZE
  {
    AfterStoreRight(mmu, AfterStoreLeft(mmu, mem, v, a + 3), v, a)
  }

  /** Memory after the pair, whether or not both accesses pass. */
  ghost function AfterPair(mmu: Mmu, mem: seq<byte>, v: word, a: word): (r: seq<byte>)
    requires |mem| == MEMORY_SIZE && a + 3 < 0x1_0000_0000
    ensures |r| == MEMORY_SIZE
  {
    if BothAccesses(mmu, a, true).At? then AfterStores(mmu, mem, v, a)
    else if AlignedAccess(mmu, a + 3, true).At? then AfterStoreLeft(mmu, mem, v, a + 3)
    else mem
  }

  /** The one or two pages of the four bytes from `a` on share their frames with no other page. */
  ghost predicate PagesAlone(mmu: Mmu, a: word)
    requires a + 3 < 0x1_0000_0000
  {
    Alone(mmu, a / PAGE_SIZE) && Alone(mmu, (a + 3) / PAGE_SIZE)
  }

  /** An aligned word is in one page with each of its bytes. */
  lemma SamePage(tmp: word)
    ensures AlignedPart(tmp) / PAGE_SIZE == tmp / PAGE_SIZE
  {
    InOnePage(AlignedPart(tmp), 4, tmp);
  }

  lemma StoresMeaning(mmu: Mmu, mem: seq<byte>, v: word, a: word)
    requires |mem| == MEMORY_SIZE && a + 3 < 0x1_0000_0000 && BothAccesses(mmu, a, true).At?
    requires PagesAlone(mmu, a)
    ensures WroteAll(mmu, mem, AfterStores(mmu, mem, v, a), a, a, v)
  {
    AlignedAt(a);
    AlignedAt(a + 3);
    SamePage(a);
    SamePage(a + 3);
    forall u: word | Translation(mmu, u, 1, false).At?
      ensures Wrote(mmu, mem, AfterStores(mmu, mem, v, a), a, a, v, u)
    {
      VirtualStore(mmu, mem, v, a, AlignedPart(a + 3), (a + 3) % 4, AlignedPart(a), a % 4, u);
    }
  }

  /** What SWL alone leaves: the bytes that lie in the aligned word of the last one. */
  lemma StoreLeftMeaning(mmu: Mmu, mem: seq<byte>, v: word, a: word)
    requires |mem| == MEMORY_SIZE && a + 3 < 0x1_0000_0000 && AlignedAccess(mmu, a + 3, true).At?
    requires Alone(mmu, (a + 3) / PAGE_SIZE)
    ensures a <= AlignedPart(a + 3) && WroteAll(mmu, mem, AfterStoreLeft(mmu, mem, v, a + 3), a, AlignedPart(a + 3), v)
  {
    var p, l := AlignedPart(a + 3), (a + 3) % 4;
    SamePage(a + 3);
    var left := WordIn(mmu, mem, p);
    MergedWord(left, v, l);
    forall u: word | Translation(mmu, u, 1, false).At?
      ensures Wrote(mmu, mem, AfterStoreLeft(mmu, mem, v, a + 3), a, p, v, u)
    {
      WordWritten(mmu, mem, p, BytesOf(v)[3 - l..] + left[l + 1..], u);
    }
  }

  method RunStoreLeft(m: Machine, rs: nat, rt: nat, extra: word, interrupted: bool) returns (t: Outcome)
    requires m.Valid() && rs < 32 && rt < 32
    modifies m.registers, m.pageTable, m.tlb, m.mainMemory
    ensures var mmu, regs, mem := old(m.Table()), old(m.registers[..]), old(m.mainMemory[..]);
            var last := Address(regs, rs, extra);
            && m.Valid() && SameMap(mmu, m.Table()) && t == AlignedAccess(mmu, last, true)
            && (t.At? ==> m.registers[..] == Delayed(regs, 0, 0))
            && m.mainMemory[..] == if t.At? then AfterStoreLeft(mmu, mem, regs[rt], last) else mem
  {
    ghost var mmu, last := m.Table(), Address(m.registers[..], rs, extra);
    t := m.StoreWordLeft(rs, rt, extra);
    if t.At? {
      ReadableIfWritable(mmu, AlignedPart(last), 4);
      if interrupted {
        m.DelayedLoad(0, 0);
      }
    }
  }

  /** A pending load that has landed does so no more. */
  lemma LandedOnce(regs: seq<word>, rs: nat, rt: nat, extra: word)
    requires RegsOk(regs) && rs < 32 && rt < 32 && NotComing(regs, rs) && NotComing(regs, rt)
    ensures var r := Delayed(regs, 0, 0);
            Delayed(r, 0, 0) == r && r[rt] == regs[rt] && Address(r, rs, extra) == Address(regs, rs, extra)
  {
  }

  /** SWR, on a table that translates like `mmu`. */
  method RunStoreRight(m: Machine, ghost mmu: Mmu, rs: nat, rt: nat, extra: word) returns (t: Outcome)
    requires m.Valid() && rs < 32 && rt < 32 && SameMap(mmu, m.Table())
    modifies m.registers, m.pageTable, m.tlb, m.mainMemory
    ensures var regs, mem := old(m.registers[..]), old(m.mainMemory[..]);
            var a := Address(regs, rs, extra);
            && m.Valid() && SameMap(mmu, m.Table()) && t == AlignedAccess(mmu, a, true)
            && (t.At? ==> m.registers[..] == Delayed(regs, 0, 0))
            && m.mainMemory[..] == if t.At? then AfterStoreRight(mmu, mem, regs[rt], a) else mem
  {
    ghost var a := Address(m.registers[..], rs, extra);
    SameAccess(mmu, m.Table(), a, true);
    t := m.StoreWordRight(rs, rt, extra);
    if t.At? {
      ReadableIfWritable(mmu, AlignedPart(a), 4);
    }
  }

  method RunStores(m: Machine, rs: nat, rt: nat, extra: word, interrupted: bool) returns (t: Outcome)
    requires m.Valid() && rs < 32 && rt < 32 && NotComing(m.registers[..], rs) && NotComing(m.registers[..], rt)
    requires Address(m.registers[..], rs, extra) + 3 < 0x1_0000_0000
    modifies m.registers, m.pageTable, m.tlb, m.mainMemory
    ensures var mmu, regs, mem := old(m.Table()), old(m.registers[..]), old(m.mainMemory[..]);
            var a := Address(regs, rs, extra);
            && m.Valid() && SameMap(mmu, m.Table()) && t == BothAccesses(mmu, a, true)
            && (t.At? ==> m.registers[..] == Delayed(regs, 0, 0))
            && m.mainMemory[..] == AfterPair(mmu, mem, regs[rt], a)
  {
    ghost var mmu, regs := m.Table(), m.registers[..];
    ghost var a := Address(regs, rs, extra);
    LastByteAddress(regs, rs, extra);
    LandedOnce(regs, rs, rt, extra);
    t := RunStoreLeft(m, rs, rt, LastByte(extra), interrupted);
    if t.Fault? {
      return;
    }
    t := RunStoreRight(m, mmu, rs, rt, extra);
  }

  /** `SWL rt, extra + 3(rs)` and `SWR rt, extra(rs)`: the four virtual bytes from that address on are
      those of `rt`, and no other virtual byte has changed. */
  method StoreUnaligned(m: Machine, rs: nat, rt: nat, extra: word, interrupted: bool) returns (t: Outcome)
    requires m.Valid() && rs < 32 && rt < 32 && NotComing(m.registers[..], rs) && NotComing(m.registers[..], rt)
    requires Address(m.registers[..], rs, extra) + 3 < 0x1_0000_0000
    requires PagesAlone(m.Table(), Address(m.registers[..], rs, extra))
    modifies m.registers, m.pageTable, m.tlb, m.mainMemory
    ensures m.Valid() && SameMap(old(m.Table()), m.Table())
    ensures t == BothAccesses(old(m.Table()), Address(old(m.registers[..]), rs, extra), true)
    ensures t.At? ==> forall k :: 0 <= k < 32 ==> m.registers[k] == Landed(old(m.registers[..]), k)
    ensures t.At? ==> m.registers[..] == Delayed(old(m.registers[..]), 0, 0)
    ensures PairStored(old(m.Table()), old(m.mainMemory[..]), m.mainMemory[..],
                       Address(old(m.registers[..]), rs, extra), old(m.registers[rt]))
  {
    ghost var mmu, regs, mem := m.Table(), m.registers[..], m.mainMemory[..];
    t := RunStores(m, rs, rt, extra, interrupted);
    PairMeaning(mmu, mem, regs[rt], Address(regs, rs, extra));
  }

  /** What the pair has stored in virtual memory: all four bytes of `v`; or, after an exception in SWR, those
      that SWL writes; or nothing, after one in SWL. */
  ghost predicate PairStored(mmu: Mmu, before: seq<byte>, after: seq<byte>, a: word, v: word)
    requires |before| == |after| == MEMORY_SIZE && a + 3 < 0x1_0000_0000
  {
    if BothAccesses(mmu, a, true).At? then WroteAll(mmu, before, after, a, a, v)
    else if AlignedAccess(mmu, a + 3, true).At? then
      a <= AlignedPart(a + 3) && WroteAll(mmu, before, after, a, AlignedPart(a + 3), v)
    else after == before
  }

  lemma PairMeaning(mmu: Mmu, mem: seq<byte>, v: word, a: word)
    requires |mem| == MEMORY_SIZE && a + 3 < 0x1_0000_0000 && PagesAlone(mmu, a)
    ensures PairStored(mmu, mem, AfterPair(mmu, mem, v, a), a, v)
  {
    if BothAccesses(mmu, a, true).At? {
      StoresMeaning(mmu, mem, v, a);
    } else if AlignedAccess(mmu, a + 3, true).At? {
      StoreLeftMeaning(mmu, mem, v, a);
    }
  }

  /** Virtual byte `u` after those bytes of `v`, which starts at `a`, have been written that lie at `lo` and
      after. */
  ghost predicate Wrote(mmu: Mmu, before: seq<byte>, after: seq<byte>, a: word, lo: word, v: word, u: word)
    requires |before| == |after| == MEMORY_SIZE && Translation(mmu, u, 1, false).At? && a <= lo
  {
    ByteAt(mmu, after, u) == if lo <= u < a + 4 then BytesOf(v)[u - a] else ByteAt(mmu, before, u)
  }

  /** `Wrote` everywhere. */
  ghost predicate WroteAll(mmu: Mmu, before: seq<byte>, after: seq<byte>, a: word, lo: word, v: word)
    requires |before| == |after| == MEMORY_SIZE && a <= lo
  {
    forall u: word :: Translation(mmu, u, 1, false).At? ==> Wrote(mmu, before, after, a, lo, v, u)
  }

  /** Bytes read at `a` where the bytes of `v` have been written. */
  lemma ReadBack(mmu: Mmu, mmu': Mmu, before: seq<byte>, mem: seq<byte>, a: word, v: word, b: seq<byte>)
    requires |before| == |mem| == MEMORY_SIZE && SameMap(mmu, mmu') && |b| == 4
    requires WroteAll(mmu, before, mem, a, a, v)
    requires forall k: nat :: k < 4 ==> Reads(mmu', mem, a, k, b[k])
    ensures WordOf(b) == v
  {
    forall k: nat | k < 4 ensures b[k] == BytesOf(v)[k] {
      assert Reads(mmu', mem, a, k, b[k]);
      assert Wrote(mmu, before, mem, a, a, v, a + k);
    }
    assert b == BytesOf(v);
    WordRoundTrip(v);
  }

  /** What can be written can be read, still after the write. */
  lemma BothReadable(mmu: Mmu, mmu': Mmu, a: word)
    requires SameMap(mmu, mmu') && a + 3 < 0x1_0000_0000 && BothAccesses(mmu, a, true).At?
    ensures BothAccesses(mmu', a, false).At?
  {
    SameAccess(mmu, mmu', a, false);
    SameAccess(mmu, mmu', a + 3, false);
  }

  /** The store pair from `rt`, then the load pair into `rd`: the word arrives, wherever it lies. */
  method StoreThenLoad(m: Machine, rs: nat, rt: nat, rd: nat, extra: word, interrupts: (bool, bool))
    returns (t: Outcome)
    requires m.Valid() && rs < 32 && rt < 32 && NotComing(m.registers[..], rs) && NotComing(m.registers[..], rt)
    requires 0 < rd < 32 && (interrupts.1 ==> rd != rs)
    requires Address(m.registers[..], rs, extra) + 3 < 0x1_0000_0000
    requires PagesAlone(m.Table(), Address(m.registers[..], rs, extra))
    modifies m.registers, m.pageTable, m.tlb, m.mainMemory
    ensures m.Valid()
    ensures t.At? <==> BothAccesses(old(m.Table()), Address(old(m.registers[..]), rs, extra), true).At?
    ensures t.At? ==> m.registers[rd] == old(m.registers[rt])
  {
    ghost var mmu, regs, mem := m.Table(), m.registers[..], m.mainMemory[..];
    ghost var a := Address(regs, rs, extra);
    t := StoreUnaligned(m, rs, rt, extra, interrupts.0);
    if t.At? {
      ghost var mmu' := m.Table();
      LandedOnce(regs, rs, rt, extra);
      BothReadable(mmu, mmu', a);
      ghost var b;
      t, b := LoadUnaligned(m, rs, rd, extra, interrupts.1);
      ReadBack(mmu, mmu', mem, m.mainMemory[..], a, regs[rt], b);
    }
  }

  /** `WriteMem`, then `ReadMem` at the same address: the low bytes come back, one as a signed `char`. */
  method WriteThenRead(m: Machine, addr: word, size: int, value: word) returns (t: Outcome, back: word)
    requires m.Valid() && Size(size)
    modifies m.registers, m.pageTable, m.tlb, m.mainMemory
    ensures m.Valid() && (t.At? <==> Translation(old(m.Table()), addr, size, true).At?)
    ensures t.At? ==> BytesOf(back)[..size] == BytesOf(value)[..size]
    ensures t.At? && size == 4 ==> back == value
    ensures t.At? && size == 2 ==> back == value % 0x1_0000
    ensures t.At? && size == 1 ==> ToInt(back) == (value + 0x80) % 0x100 - 0x80
  {
    back := 0;
    t := m.WriteMem(addr, size, value);
    if t.At? {
      ReadableIfWritable(old(m.Table()), addr, size);
      ghost var phys, mem := t.phys, old(m.mainMemory[..]);
      SlicedBack(mem, phys, BytesOf(value)[..size]);
      LoadedBack(value, size);
      t, back := m.ReadMem(addr, size);
    }
  }

  lemma SlicedBack(mem: seq<byte>, p: nat, d: seq<byte>)
    requires p + |d| <= |mem|
    ensures Splice(mem, p, d)[p..p + |d|] == d
  {
  }

  /** What `ReadMem` makes of the low bytes of a word. */
  lemma LoadedBack(value: word, size: nat)
    requires Size(size)
    ensures var back := Loaded(BytesOf(value)[..size]);
            && BytesOf(back)[..size] == BytesOf(value)[..size]
            && (size == 4 ==> back == value)
            && (size == 2 ==> back == value % 0x1_0000)
            && (size == 1 ==> ToInt(back) == (value + 0x80) % 0x100 - 0x80)
  {
    LoadedLowBytes(value, size);
    if size == 4 {
      WordRoundTrip(value);
      assert BytesOf(value)[..size] == BytesOf(value);
    } else if size == 2 {
      LowHalf(value);
    } else {
      SignedByte(value);
    }
  }

  lemma SignedByte(value: word)
    ensures (value + 0x80) % 0x100 - 0x80 == if value % 0x100 < 0x80 then value % 0x100 else value % 0x100 - 0x100
  {
  }

  lemma LowHalf(value: word)
    ensures value % 0x1_0000 == value % 0x100 + 0x100 * (value / 0x100 % 0x100)
  {
    var q := value / 0x1_0000;
    assert value / 0x100 / 0x100 == q;
  }
}
