/** machine/translate.cc and the memory side of machine/mipssim.cc: address translation through a page
    table or a TLB, memory accesses, and the unaligned loads and stores on the machine's registers. */
module Machines {
  import opened Bits
  import opened Unaligned

  const PAGE_SIZE := 128
  const NUM_PHYS_PAGES := 128
  const MEMORY_SIZE := PAGE_SIZE * NUM_PHYS_PAGES
  const TLB_SIZE := 4
  const BAD_VADDR_REG := 39

  datatype Entry = Entry(virtualPage: int32, physicalPage: int32, valid: bool, readOnly: bool, use: bool, dirty: bool)

  datatype Exception = PageFault | ReadOnly | BusError | AddressError

  /** A translation yields a physical address, by way of one entry of the table, or fails. */
  datatype Outcome = Fault(e: Exception) | At(phys: int, entry: nat)

  /** The table in use: a page table, indexed by page number, or a TLB, searched. */
  datatype Mmu = PageTable(table: seq<Entry>) | Tlb(table: seq<Entry>)

  /** The first valid entry for a page; `|tlb|` if there is none. */
  function TlbIndex(tlb: seq<Entry>, vpn: int): (i: nat)
    ensures i <= |tlb|
  {
    if tlb == [] || (tlb[0].valid && tlb[0].virtualPage == vpn) then 0 else 1 + TlbIndex(tlb[1..], vpn)
  }

  lemma {:induction false} TlbIndexIs(tlb: seq<Entry>, vpn: int, i: nat)
    requires i <= |tlb|
    ensures TlbIndex(tlb, vpn) == i <==>
              && (i < |tlb| ==> tlb[i].valid && tlb[i].virtualPage == vpn)
              && (forall j :: 0 <= j < i ==> !(tlb[j].valid && tlb[j].virtualPage == vpn))
  {
    if tlb != [] && !(tlb[0].valid && tlb[0].virtualPage == vpn) && i > 0 {
      TlbIndexIs(tlb[1..], vpn, i - 1);
      assert forall j :: 1 <= j < i ==> tlb[j] == tlb[1..][j - 1];
    }
  }

  /** Why page `vpn` has no entry, if it has none. */
  function Missing(mmu: Mmu, vpn: nat): Exception {
    if mmu.PageTable? && vpn >= |mmu.table| then AddressError else PageFault
  }

  /** The number of the entry for page `vpn`; past the end of the table if there is none. */
  function EntryOf(mmu: Mmu, vpn: nat): nat {
    match mmu
    case PageTable(table) => if vpn < |table| && table[vpn].valid then vpn else |table|
    case Tlb(table) => TlbIndex(table, vpn)
  }

  /** What an access to page `vpn` comes to. */
  function PageAt(mmu: Mmu, vpn: nat, writing: bool): Outcome {
    var i := EntryOf(mmu, vpn);
    if i >= |mmu.table| then Fault(Missing(mmu, vpn))
    else if mmu.table[i].readOnly && writing then Fault(ReadOnly)
    else if ToWord(mmu.table[i].physicalPage) >= NUM_PHYS_PAGES then Fault(BusError)
    else At(mmu.table[i].physicalPage, i)
  }

  /** `Translate`, on an unsigned virtual address. */
  function Translation(mmu: Mmu, v: word, size: nat, writing: bool): Outcome {
    if (size == 4 && v % 4 != 0) || (size == 2 && v % 2 != 0) then Fault(AddressError)
    else
      var page := PageAt(mmu, v / PAGE_SIZE, writing);
      if page.Fault? then page else At(page.phys * PAGE_SIZE + v % PAGE_SIZE, page.entry)
  }

  /** Entry `i` is the one that serves page `vpn`: its own in a page table, the first valid one in a TLB. */
  ghost predicate Serves(mmu: Mmu, vpn: nat, i: nat) {
    && i < |mmu.table| && mmu.table[i].valid
    && match mmu
       case PageTable(_) => i == vpn
       case Tlb(table) =>
         && table[i].virtualPage == vpn
         && forall j :: 0 <= j < i ==> !(table[j].valid && table[j].virtualPage == vpn)
  }

  /** Entry `i` forbids the access. */
  ghost predicate Protected(mmu: Mmu, i: nat, writing: bool) {
    i < |mmu.table| && mmu.table[i].readOnly && writing
  }

  /** Entry `i` names a page of physical memory. */
  ghost predicate HasFrame(mmu: Mmu, i: nat) {
    i < |mmu.table| && 0 <= mmu.table[i].physicalPage < NUM_PHYS_PAGES
  }

  lemma ServesIff(mmu: Mmu, vpn: nat)
    ensures forall i: nat :: Serves(mmu, vpn, i) <==> i == EntryOf(mmu, vpn) < |mmu.table|
    ensures EntryOf(mmu, vpn) < |mmu.table| ==> Serves(mmu, vpn, EntryOf(mmu, vpn))
  {
    if mmu.Tlb? {
      forall i: nat | i < |mmu.table| {
        TlbIndexIs(mmu.table, vpn, i);
      }
    }
  }

  /** Which exception comes when; an access passes exactly when none does. */
  lemma WhichException(mmu: Mmu, v: word, size: int, writing: bool)
    requires Size(size)
    ensures var t, vpn := Translation(mmu, v, size, writing), v / PAGE_SIZE;
            var misaligned := v % size != 0;
            && (t == Fault(AddressError) <==> misaligned || (mmu.PageTable? && vpn >= |mmu.table|))
            && (t == Fault(PageFault) <==>
                  !misaligned && !(mmu.PageTable? && vpn >= |mmu.table|) && forall i: nat :: !Serves(mmu, vpn, i))
            && (t == Fault(ReadOnly) <==>
                  !misaligned && exists i: nat :: Serves(mmu, vpn, i) && Protected(mmu, i, writing))
            && (t == Fault(BusError) <==>
                  !misaligned
                  && exists i: nat :: Serves(mmu, vpn, i) && !Protected(mmu, i, writing) && !HasFrame(mmu, i))
            && (t.At? <==>
                  !misaligned
                  && exists i: nat :: Serves(mmu, vpn, i) && !Protected(mmu, i, writing) && HasFrame(mmu, i))
            && (t.At? ==> Serves(mmu, vpn, t.entry)
                          && t.phys == mmu.table[t.entry].physicalPage * PAGE_SIZE + v % PAGE_SIZE)
  {
    ServesIff(mmu, v / PAGE_SIZE);
  }

  predicate Size(size: int) {
    size == 1 || size == 2 || size == 4
  }

  lemma Offset(v: word, size: int, k: nat)
    requires Size(size) && (size == 4 ==> v % 4 == 0) && (size == 2 ==> v % 2 == 0) && k < size
    ensures v % 128 + size <= 128
    ensures v + k < 0x1_0000_0000 && (v + k) / 128 == v / 128 && (v + k) % 128 == v % 128 + k
  {
    var q, r := v / 128, v % 128;
    if size == 4 {
      assert r == 4 * (v / 4 - 32 * q);
    } else if size == 2 {
      assert r == 2 * (v / 2 - 64 * q);
    }
    assert v + k == 128 * q + (r + k);
  }

  lemma InOnePage(v: word, size: int, u: word)
    requires Size(size) && (size == 4 ==> v % 4 == 0) && (size == 2 ==> v % 2 == 0)
    ensures v <= u < v + size ==> u / PAGE_SIZE == v / PAGE_SIZE
  {
    if v <= u < v + size {
      Offset(v, size, u - v);
    }
  }

  /** A successful translation stays inside one page and inside memory, so the closing ASSERT holds;
      and each byte of the access translates to its place after the first. */
  lemma TranslationInPage(mmu: Mmu, v: word, size: int, writing: bool, k: nat)
    requires Size(size) && Translation(mmu, v, size, writing).At? && k < size
    ensures v % PAGE_SIZE + size <= PAGE_SIZE
    ensures var t := Translation(mmu, v, size, writing);
            && 0 <= t.phys && t.phys + size <= MEMORY_SIZE
            && v + k < 0x1_0000_0000 && Translation(mmu, v + k, 1, writing) == At(t.phys + k, t.entry)
  {
    Offset(v, size, k);
  }

  // ---------- the TLB as a cache of the page table ----------

  /** Every valid entry of the TLB says what the page table says. */
  ghost predicate Agrees(tlb: seq<Entry>, table: seq<Entry>) {
    forall i :: 0 <= i < |tlb| && tlb[i].valid ==>
      && 0 <= tlb[i].virtualPage < |table|
      && table[tlb[i].virtualPage].valid
      && table[tlb[i].virtualPage].physicalPage == tlb[i].physicalPage
      && table[tlb[i].virtualPage].readOnly == tlb[i].readOnly
  }

  /** A TLB that agrees with the page table gives the same address or the same exception, or else a
      page fault where it has no entry. */
  lemma TlbAgrees(tlb: seq<Entry>, table: seq<Entry>, v: word, size: nat, writing: bool)
    requires Agrees(tlb, table)
    ensures var t, p := Translation(Tlb(tlb), v, size, writing), Translation(PageTable(table), v, size, writing);
            || t == Fault(PageFault)
            || (t.Fault? && p == t)
            || (t.At? && p.At? && p.phys == t.phys)
  {
    TlbIndexIs(tlb, v / PAGE_SIZE, TlbIndex(tlb, v / PAGE_SIZE));
  }

  // ---------- virtual memory ----------

  const NUM_PAGES := 0x200_0000

  /** Pages `p` and `q` both have an entry, for the same frame. */
  ghost predicate Shares(mmu: Mmu, p: nat, q: nat) {
    && EntryOf(mmu, p) < |mmu.table| && EntryOf(mmu, q) < |mmu.table|
    && mmu.table[EntryOf(mmu, p)].physicalPage == mmu.table[EntryOf(mmu, q)].physicalPage
  }

  /** Page `p` has no frame, or one that no other page has. */
  ghost predicate Alone(mmu: Mmu, p: nat) {
    forall q: nat :: q < NUM_PAGES && Shares(mmu, p, q) ==> q == p
  }

  /** No other virtual address has the place of one in a page that is alone. */
  lemma SamePlace(mmu: Mmu, u: word, v: word, wu: bool, wv: bool)
    requires Alone(mmu, u / PAGE_SIZE)
    requires Translation(mmu, u, 1, wu).At? && Translation(mmu, v, 1, wv).At?
    requires Translation(mmu, u, 1, wu).phys == Translation(mmu, v, 1, wv).phys
    ensures u == v
  {
    assert Shares(mmu, u / PAGE_SIZE, v / PAGE_SIZE);
  }

  /** What an access does to the table: it marks the entry as used, and as dirty if it writes. */
  function Touched(mmu: Mmu, entry: nat, writing: bool): Mmu
    requires entry < |mmu.table|
  {
    var e := mmu.table[entry];
    mmu.(table := mmu.table[entry := e.(use := true, dirty := e.dirty || writing)])
  }

  /** The entry used says so afterwards, and whether it has ever been written through; it is otherwise the
      same, and so are all others. */
  lemma Marks(mmu: Mmu, entry: nat, writing: bool)
    requires entry < |mmu.table|
    ensures var before, after := mmu.table, Touched(mmu, entry, writing).table;
            && |after| == |before|
            && after[entry].use && (after[entry].dirty <==> before[entry].dirty || writing)
            && (forall i :: 0 <= i < |before| && i != entry ==> after[i] == before[i])
            && after[entry].(use := false, dirty := false) == before[entry].(use := false, dirty := false)
    ensures Touched(mmu, entry, writing).PageTable? == mmu.PageTable?
  {
  }

  /** The marks have no influence on translation. */
  lemma TouchedSame(mmu: Mmu, entry: nat, writing: bool, v: word, size: nat, w: bool)
    requires entry < |mmu.table|
    ensures Translation(Touched(mmu, entry, writing), v, size, w) == Translation(mmu, v, size, w)
  {
    if mmu.Tlb? {
      var vpn := v / PAGE_SIZE;
      TlbIndexIs(mmu.table, vpn, TlbIndex(mmu.table, vpn));
      TlbIndexIs(Touched(mmu, entry, writing).table, vpn, TlbIndex(mmu.table, vpn));
    }
  }

  /** Every access comes to the same in both. */
  ghost predicate SameMap(a: Mmu, b: Mmu) {
    forall v: word, size: nat, w: bool :: Translation(a, v, size, w) == Translation(b, v, size, w)
  }

  lemma TouchedMap(mmu: Mmu, entry: nat, writing: bool)
    requires entry < |mmu.table|
    ensures SameMap(mmu, Touched(mmu, entry, writing))
  {
    forall v: word, size: nat, w: bool
      ensures Translation(mmu, v, size, w) == Translation(Touched(mmu, entry, writing), v, size, w)
    {
      TouchedSame(mmu, entry, writing, v, size, w);
    }
  }

  /** The byte at virtual address `v`. */
  function ByteAt(mmu: Mmu, mem: seq<byte>, v: word): byte
    requires |mem| == MEMORY_SIZE && Translation(mmu, v, 1, false).At?
  {
    TranslationInPage(mmu, v, 1, false, 0);
    mem[Translation(mmu, v, 1, false).phys]
  }

  /** A place that a write covers is the place of only one virtual address: one that the write names. */
  lemma OnlyPlace(mmu: Mmu, v: word, size: int, u: word, k: nat)
    requires Size(size) && Alone(mmu, v / PAGE_SIZE) && k < size
    requires Translation(mmu, v, size, true).At? && Translation(mmu, u, 1, false).At?
    requires Translation(mmu, u, 1, false).phys == Translation(mmu, v, size, true).phys + k
    ensures u == v + k
  {
    TranslationInPage(mmu, v, size, true, k);
    SamePlace(mmu, v + k, u, true, false);
  }

  /** Where a byte of a write goes, and that nothing else goes there. */
  lemma PlaceOfWrite(mmu: Mmu, v: word, size: int, u: word)
    requires Size(size) && Alone(mmu, v / PAGE_SIZE)
    requires Translation(mmu, v, size, true).At? && Translation(mmu, u, 1, false).At?
    ensures var phys, at := Translation(mmu, v, size, true).phys, Translation(mmu, u, 1, false).phys;
            if v <= u < v + size then at == phys + (u - v) else !(phys <= at < phys + size)
  {
    var phys, at := Translation(mmu, v, size, true).phys, Translation(mmu, u, 1, false).phys;
    if v <= u < v + size {
      TranslationInPage(mmu, v, size, true, u - v);
      ReadableIfWritable(mmu, u, 1);
    }
    if phys <= at < phys + size {
      OnlyPlace(mmu, v, size, u, at - phys);
    }
  }

  /** After `d` has been written at virtual address `v`, byte `u` is the byte of `d` that was meant for it,
      and otherwise as before. */
  ghost predicate StaysLocal(mmu: Mmu, mem: seq<byte>, v: word, d: seq<byte>, u: word)
    requires |mem| == MEMORY_SIZE && Size(|d|)
    requires Translation(mmu, v, |d|, true).At? && Translation(mmu, u, 1, false).At?
  {
    TranslationInPage(mmu, v, |d|, true, 0);
    ByteAt(mmu, Splice(mem, Translation(mmu, v, |d|, true).phys, d), u)
    == if v <= u < v + |d| then d[u - v] else ByteAt(mmu, mem, u)
  }

  /** A write to a page that is alone puts its bytes at the virtual addresses it names and changes no other
      virtual byte. */
  lemma WriteIsLocal(mmu: Mmu, mem: seq<byte>, v: word, d: seq<byte>, u: word)
    requires |mem| == MEMORY_SIZE && Size(|d|) && Alone(mmu, v / PAGE_SIZE)
    requires Translation(mmu, v, |d|, true).At? && Translation(mmu, u, 1, false).At?
    ensures StaysLocal(mmu, mem, v, d, u)
  {
    var phys, at := Translation(mmu, v, |d|, true).phys, Translation(mmu, u, 1, false).phys;
    TranslationInPage(mmu, v, |d|, true, 0);
    TranslationInPage(mmu, u, 1, false, 0);
    PlaceOfWrite(mmu, v, |d|, u);
    SpliceByte(mem, phys, d, at);
  }

  lemma ReadableIfWritable(mmu: Mmu, v: word, size: nat)
    requires Translation(mmu, v, size, true).At?
    ensures Translation(mmu, v, size, false) == Translation(mmu, v, size, true)
  {
  }

  /** A write to a page that shares its frame shows in the other page. */
  lemma SharedFrame(mmu: Mmu, mem: seq<byte>, v: word, d: seq<byte>, q: nat) returns (u: word)
    requires |mem| == MEMORY_SIZE && Size(|d|) && Translation(mmu, v, |d|, true).At?
    requires q < NUM_PAGES && Shares(mmu, v / PAGE_SIZE, q) && q != v / PAGE_SIZE
    requires 0 <= Translation(mmu, v, |d|, true).phys < |mem| && mem[Translation(mmu, v, |d|, true).phys] != d[0]
    ensures Translation(mmu, u, 1, false).At? && !StaysLocal(mmu, mem, v, d, u)
  {
    var phys := Translation(mmu, v, |d|, true).phys;
    u := q * 128 + v % 128;
    assert u / PAGE_SIZE == q && u % PAGE_SIZE == v % PAGE_SIZE;
    TranslationInPage(mmu, v, |d|, true, 0);
    assert Translation(mmu, u, 1, false).At? && Translation(mmu, u, 1, false).phys == phys;
    SpliceByte(mem, phys, d, phys);
    InOnePage(v, |d|, u);
  }

  /** That the page is alone is the exact condition for every write at `v` to keep to its place. */
  lemma LocalIff(mmu: Mmu, v: word, size: int)
    requires Size(size) && Translation(mmu, v, size, true).At?
    ensures Alone(mmu, v / PAGE_SIZE)
       <==> forall mem: seq<byte>, d: seq<byte>, u: word ::
              |mem| == MEMORY_SIZE && |d| == size && Translation(mmu, u, 1, false).At? ==> StaysLocal(mmu, mem, v, d, u)
  {
    if Alone(mmu, v / PAGE_SIZE) {
      forall mem: seq<byte>, d: seq<byte>, u: word
        | |mem| == MEMORY_SIZE && |d| == size && Translation(mmu, u, 1, false).At?
        ensures StaysLocal(mmu, mem, v, d, u)
      {
        WriteIsLocal(mmu, mem, v, d, u);
      }
    } else {
      var q: nat :| q < NUM_PAGES && Shares(mmu, v / PAGE_SIZE, q) && q != v / PAGE_SIZE;
      var mem: seq<byte>, d: seq<byte> := seq(MEMORY_SIZE, i => 0), seq(size, i => 1);
      TranslationInPage(mmu, v, size, true, 0);
      var u := SharedFrame(mmu, mem, v, d, q);
    }
  }

  // ---------- what ReadMem makes of the bytes ----------

  /** One byte is a signed `char`, two are an unsigned short, four a word. */
  function Loaded(b: seq<byte>): word
    requires Size(|b|)
  {
    if |b| == 1 then (if b[0] < 0x80 then b[0] else b[0] + 0xffff_ff00)
    else if |b| == 2 then b[0] as int + 0x100 * (b[1] as int)
    else WordOf(b)
  }

  /** Reading back what has been written gives its low bytes. */
  lemma LoadedLowBytes(value: word, size: nat)
    requires Size(size)
    ensures BytesOf(Loaded(BytesOf(value)[..size]))[..size] == BytesOf(value)[..size]
  {
    var b := BytesOf(value);
    WordRoundTrip(value);
    if size == 4 {
      assert b[..size] == b;
    }
  }

  // ---------- the pairs of unaligned instructions, across pages ----------

  /** Byte `k` from `v` on can be read, and is `b`. */
  ghost predicate Reads(mmu: Mmu, mem: seq<byte>, v: nat, k: nat, b: byte)
    requires |mem| == MEMORY_SIZE
  {
    v + k < 0x1_0000_0000 && Translation(mmu, v + k, 1, false).At? && ByteAt(mmu, mem, v + k) == b
  }

  /** The physical bytes of a word that can be read. */
  ghost function WordIn(mmu: Mmu, mem: seq<byte>, p: word): (b: seq<byte>)
    requires |mem| == MEMORY_SIZE && Translation(mmu, p, 4, false).At?
    ensures |b| == 4
  {
    TranslationInPage(mmu, p, 4, false, 0);
    mem[Translation(mmu, p, 4, false).phys..Translation(mmu, p, 4, false).phys + 4]
  }

  lemma ReadsAligned(mmu: Mmu, mem: seq<byte>, p: word, k: nat)
    requires |mem| == MEMORY_SIZE && Translation(mmu, p, 4, false).At? && k < 4
    ensures Reads(mmu, mem, p, k, WordIn(mmu, mem, p)[k])
  {
    TranslationInPage(mmu, p, 4, false, k);
  }

  /** Each byte from `a` on lies in one of the two aligned words. */
  lemma ReadsUnaligned(mmu: Mmu, mem: seq<byte>, a: nat, p: word, q: word, r: nat, k: nat)
    requires |mem| == MEMORY_SIZE && Translation(mmu, p, 4, false).At? && Translation(mmu, q, 4, false).At?
    requires a == q + r && r < 4 && p == (if r == 0 then q else q + 4) && k < 4
    ensures Reads(mmu, mem, a, k, (WordIn(mmu, mem, q)[r..] + WordIn(mmu, mem, p)[..r])[k])
  {
    if r + k < 4 {
      ReadsAligned(mmu, mem, q, r + k);
    } else {
      ReadsAligned(mmu, mem, p, r + k - 4);
    }
  }

  /** LWL at `a + 3` then LWR at `a` load the four bytes of virtual memory from `a` on, even when they
      lie across two pages, and with or without an interrupt in between. */
  lemma VirtualLoad(mmu: Mmu, mem: seq<byte>, regs: seq<word>, rt: nat, a: nat, p: nat, l: nat, q: nat, r: nat,
                    interrupted: bool)
    returns (b: seq<byte>)
    requires |mem| == MEMORY_SIZE && RegsOk(regs) && 0 < rt < 32 && a + 3 < 0x1_0000_0000
    requires Aligned(a + 3, p, l) && Aligned(a, q, r)
    requires Translation(mmu, p, 4, false).At? && Translation(mmu, q, 4, false).At?
    ensures |b| == 4 && forall k: nat :: k < 4 ==> Reads(mmu, mem, a, k, b[k])
    ensures var one := LwlStep(regs, WordOf(WordIn(mmu, mem, p)), rt, l);
            var two := if interrupted then Delayed(one, 0, 0) else one;
            var three := Delayed(LwrStep(two, WordOf(WordIn(mmu, mem, q)), rt, r), 0, 0);
            && three[rt] == WordOf(b)
            && forall k :: 0 <= k < 32 && k != rt ==> three[k] == Landed(regs, k)
  {
    Neighbours(a, p, l, q, r);
    var left, right := WordIn(mmu, mem, p), WordIn(mmu, mem, q);
    b := right[r..] + left[..r];
    LoadHalves(regs, rt, left, l, right, r, interrupted);
    forall k: nat | k < 4 ensures Reads(mmu, mem, a, k, b[k]) {
      ReadsUnaligned(mmu, mem, a, p, q, r, k);
    }
  }

  /** Memory after four bytes have been written at a virtual address. */
  ghost function WriteWord(mmu: Mmu, mem: seq<byte>, p: word, d: seq<byte>): (r: seq<byte>)
    requires |mem| == MEMORY_SIZE && Translation(mmu, p, 4, true).At? && |d| == 4
    ensures |r| == |mem|
  {
    TranslationInPage(mmu, p, 4, true, 0);
    Splice(mem, Translation(mmu, p, 4, true).phys, d)
  }

  /** What SWL and then SWR leave in virtual memory at `u`, byte by byte. */
  lemma StoredByte(mmu: Mmu, mem: seq<byte>, b: seq<byte>, a: nat, p: word, l: nat, q: word, r: nat, u: word)
    requires |mem| == MEMORY_SIZE && |b| == 4 && a == q + r
    requires Alone(mmu, p / PAGE_SIZE) && Alone(mmu, q / PAGE_SIZE)
    requires r < 4 && (if r == 0 then l == 3 && p == q else l == r - 1 && p == q + 4)
    requires Translation(mmu, p, 4, true).At? && Translation(mmu, q, 4, true).At?
    requires Translation(mmu, p, 4, false).At? && Translation(mmu, q, 4, false).At?
    requires Translation(mmu, u, 1, false).At?
    ensures var mid := WriteWord(mmu, mem, p, b[3 - l..] + WordIn(mmu, mem, p)[l + 1..]);
            var end := WriteWord(mmu, mid, q, WordIn(mmu, mid, q)[..r] + b[..4 - r]);
            ByteAt(mmu, end, u) == if a <= u < a + 4 then b[u - a] else ByteAt(mmu, mem, u)
  {
    var left := WordIn(mmu, mem, p);
    var mid := WriteWord(mmu, mem, p, b[3 - l..] + left[l + 1..]);
    var right := WordIn(mmu, mid, q);
    WordWritten(mmu, mem, p, b[3 - l..] + left[l + 1..], u);
    WordWritten(mmu, mid, q, right[..r] + b[..4 - r], u);
  }

  /** A word written at a virtual address, together with what was there before. */
  lemma WordWritten(mmu: Mmu, mem: seq<byte>, p: word, d: seq<byte>, u: word)
    requires |mem| == MEMORY_SIZE && Alone(mmu, p / PAGE_SIZE) && |d| == 4
    requires Translation(mmu, p, 4, true).At? && Translation(mmu, u, 1, false).At?
    requires Translation(mmu, p, 4, false).At?
    ensures ByteAt(mmu, WriteWord(mmu, mem, p, d), u)
         == if p <= u < p + 4 then d[u - p] else ByteAt(mmu, mem, u)
    ensures p <= u < p + 4 ==> ByteAt(mmu, mem, u) == WordIn(mmu, mem, p)[u - p]
  {
    WriteIsLocal(mmu, mem, p, d, u);
    if p <= u < p + 4 { ReadsAligned(mmu, mem, p, u - p); }
  }

  /** SWL at `a + 3` then SWR at `a` store the register in the four bytes of virtual memory from `a` on,
      even across two pages, and change no other virtual byte. */
  lemma VirtualStore(mmu: Mmu, mem: seq<byte>, v: word, a: nat, p: nat, l: nat, q: nat, r: nat, u: word)
    requires |mem| == MEMORY_SIZE && a + 3 < 0x1_0000_0000
    requires Alone(mmu, p / PAGE_SIZE) && Alone(mmu, q / PAGE_SIZE)
    requires Aligned(a + 3, p, l) && Aligned(a, q, r)
    requires Translation(mmu, p, 4, true).At? && Translation(mmu, q, 4, true).At?
    requires Translation(mmu, u, 1, false).At?
    ensures Translation(mmu, p, 4, false).At? && Translation(mmu, q, 4, false).At?
    ensures var mid := WriteWord(mmu, mem, p, BytesOf(Swl(WordOf(WordIn(mmu, mem, p)), v, l)));
            var end := WriteWord(mmu, mid, q, BytesOf(Swr(WordOf(WordIn(mmu, mid, q)), v, r)));
            ByteAt(mmu, end, u) == if a <= u < a + 4 then BytesOf(v)[u - a] else ByteAt(mmu, mem, u)
  {
    var b := BytesOf(v);
    Neighbours(a, p, l, q, r);
    ReadableIfWritable(mmu, p, 4);
    ReadableIfWritable(mmu, q, 4);
    var left := WordIn(mmu, mem, p);
    MergedWord(left, v, l);
    var right := WordIn(mmu, WriteWord(mmu, mem, p, b[3 - l..] + left[l + 1..]), q);
    MergedWord(right, v, r);
    StoredByte(mmu, mem, b, a, p, l, q, r, u);
  }

  /** The bytes of what SWL and SWR write. */
  lemma MergedWord(a: seq<byte>, v: word, lane: nat)
    requires |a| == 4 && lane < 4
    ensures BytesOf(Swl(WordOf(a), v, lane)) == BytesOf(v)[3 - lane..] + a[lane + 1..]
    ensures BytesOf(Swr(WordOf(a), v, lane)) == a[..lane] + BytesOf(v)[..4 - lane]
  {
    var b := BytesOf(v);
    WordRoundTrip(v);
    SwlBytes(a, b, lane);
    BytesOfWord(b[3 - lane..] + a[lane + 1..]);
    SwrBytes(a, b, lane);
    BytesOfWord(a[..lane] + b[..4 - lane]);
  }

  /** The address of the aligned word that holds `tmp`. */
  function AlignedPart(tmp: word): word {
    tmp - tmp % 4
  }

  /** The access of an unaligned instruction at `tmp`: a read of the aligned word, then perhaps a write. */
  function AlignedAccess(mmu: Mmu, tmp: word, writing: bool): Outcome {
    var read := Translation(mmu, AlignedPart(tmp), 4, false);
    if read.Fault? then read else Translation(mmu, AlignedPart(tmp), 4, writing)
  }

  /** An exception notes the bad address and lets the pending load land; nothing is pending then. */
  lemma Raises(regs: seq<word>, badVAddr: word)
    requires RegsOk(regs)
    ensures var r := Raised(regs, badVAddr);
            && r[BAD_VADDR_REG] == badVAddr && r[LOAD_REG] == 0
            && forall k :: 0 <= k < LOAD_REG ==> r[k] == Landed(regs, k)
  {
  }

  /** The registers after an exception at `badVAddr`: the pending load has landed. */
  function Raised(regs: seq<word>, badVAddr: word): seq<word>
    requires RegsOk(regs)
  {
    Delayed(regs[BAD_VADDR_REG := badVAddr], 0, 0)
  }

  class Machine {
    const registers: array<word>
    const mainMemory: array<byte>
    // exactly one of the two tables exists
    const pageTable: array?<Entry>
    const tlb: array?<Entry>

    ghost predicate Valid()
      reads this, registers, mainMemory
    {
      && mainMemory.Length == MEMORY_SIZE
      && registers.Length == NUM_TOTAL_REGS && RegsOk(registers[..])
      && (pageTable == null <==> tlb != null) && (tlb != null ==> tlb.Length == TLB_SIZE)
    }

    /** A machine with all registers and all memory zero, and the page table given or, without one, a TLB
        without a valid entry. */
    constructor (pageTable: array?<Entry>)
      ensures Valid() && this.pageTable == pageTable
      ensures fresh(registers) && fresh(mainMemory) && (tlb != null ==> fresh(tlb))
      ensures forall i :: 0 <= i < NUM_TOTAL_REGS ==> registers[i] == 0
      ensures forall i :: 0 <= i < MEMORY_SIZE ==> mainMemory[i] == 0
      ensures tlb != null ==> forall v: word, size: nat, w: bool :: Translation(Table(), v, size, w).Fault?
    {
      registers := new word[NUM_TOTAL_REGS](i => 0);
      mainMemory := new byte[MEMORY_SIZE](i => 0);
      this.pageTable := pageTable;
      if pageTable == null {
        var entries := new Entry[TLB_SIZE](i => Entry(0, 0, false, false, false, false));
        tlb := entries;
      } else {
        tlb := null;
      }
      new;
      if tlb != null {
        forall v: word, size: nat, w: bool ensures Translation(Table(), v, size, w).Fault? {
          TlbIndexIs(tlb[..], v / PAGE_SIZE, TLB_SIZE);
        }
      }
    }

    ghost function Table(): Mmu
      reads this, pageTable, tlb
    {
      if tlb != null then Tlb(tlb[..]) else if pageTable != null then PageTable(pageTable[..]) else PageTable([])
    }

    /** Translates a virtual address, and marks the entry it used. */
    method Translate(virtAddr: word, size: int, writing: bool) returns (r: Outcome)
      requires Valid() && Size(size)
      modifies pageTable, tlb
      ensures Valid() && r == Translation(old(Table()), virtAddr, size, writing)
      ensures r.At? ==> r.entry < |old(Table()).table| && Table() == Touched(old(Table()), r.entry, writing)
      ensures r.Fault? ==> Table() == old(Table())
      ensures r.At? ==> 0 <= r.phys && r.phys + size <= MEMORY_SIZE
    {
      if (size == 4 && virtAddr % 4 != 0) || (size == 2 && virtAddr % 2 != 0) {
        return Fault(AddressError);
      }
      var vpn, offset := virtAddr / PAGE_SIZE, virtAddr % PAGE_SIZE;
      Offset(virtAddr, size, 0);
      var table, index;
      if tlb == null {
        if vpn >= pageTable.Length {
          return Fault(AddressError);
        } else if !pageTable[vpn].valid {
          return Fault(PageFault);
        }
        table, index := pageTable, vpn;
      } else {
        var i := SearchTlb(vpn);
        if i == TLB_SIZE {
          return Fault(PageFault);
        }
        table, index := tlb, i;
      }
      if table[index].readOnly && writing {
        return Fault(ReadOnly);
      }
      var pageFrame := ToWord(table[index].physicalPage);
      if pageFrame >= NUM_PHYS_PAGES {
        return Fault(BusError);
      }
      table[index] := table[index].(use := true, dirty := table[index].dirty || writing);
      return At(pageFrame * PAGE_SIZE + offset, index);
    }

    /** The loop of `Translate` over the TLB. */
    method SearchTlb(vpn: nat) returns (i: nat)
      requires tlb != null
      ensures i == TlbIndex(tlb[..], vpn)
    {
      i := 0;
      while i < tlb.Length
        invariant i <= tlb.Length
        invariant forall j :: 0 <= j < i ==> !(tlb[j].valid && tlb[j].virtualPage == vpn)
      {
        if tlb[i].valid && tlb[i].virtualPage == vpn {
          break;
        }
        i := i + 1;
      }
      TlbIndexIs(tlb[..], vpn, i);
    }

    method ReadMem(addr: word, size: int) returns (t: Outcome, value: word)
      requires Valid() && Size(size)
      modifies registers, pageTable, tlb
      ensures Valid() && t == Translation(old(Table()), addr, size, false) && SameMap(old(Table()), Table())
      ensures t.Fault? ==> registers[..] == Raised(old(registers[..]), addr)
      ensures t.At? ==> registers[..] == old(registers[..]) && 0 <= t.phys && t.phys + size <= MEMORY_SIZE
      ensures t.At? ==> value == Loaded(mainMemory[..][t.phys..t.phys + size])
    {
      value := 0;
      t := Translate(addr, size, false);
      if t.At? {
        TouchedMap(old(Table()), t.entry, false);
        var data := mainMemory[t.phys..t.phys + size];
        value := Loaded(data);
      } else {
        RaiseException(addr);
      }
    }

    method WriteMem(addr: word, size: int, value: word) returns (t: Outcome)
      requires Valid() && Size(size)
      modifies registers, pageTable, tlb, mainMemory
      ensures Valid() && t == Translation(old(Table()), addr, size, true) && SameMap(old(Table()), Table())
      ensures t.Fault? ==> registers[..] == Raised(old(registers[..]), addr) && mainMemory[..] == old(mainMemory[..])
      ensures t.At? ==> registers[..] == old(registers[..]) && 0 <= t.phys && t.phys + size <= MEMORY_SIZE
      ensures t.At? ==> mainMemory[..] == Splice(old(mainMemory[..]), t.phys, BytesOf(value)[..size])
    {
      t := Translate(addr, size, true);
      if t.At? {
        TouchedMap(old(Table()), t.entry, true);
        forall k | 0 <= k < size {
          mainMemory[t.phys + k] := BytesOf(value)[k];
        }
      } else {
        RaiseException(addr);
      }
    }

    /** Lets the pending load land and puts another one in its place. */
    method DelayedLoad(nextReg: nat, nextValue: word)
      requires Valid() && nextReg < 32
      modifies registers
      ensures Valid() && registers[..] == Delayed(old(registers[..]), nextReg, nextValue)
      ensures forall k :: 0 <= k < LOAD_REG ==> registers[k] == Landed(old(registers[..]), k)
      ensures registers[LOAD_REG] == nextReg && registers[LOAD_VALUE_REG] == nextValue
    {
      registers[registers[LOAD_REG]] := registers[LOAD_VALUE_REG];
      registers[LOAD_REG] := nextReg;
      registers[LOAD_VALUE_REG] := nextValue;
      registers[0] := 0;
    }

    /** The register part of a trap: the pending load lands first. */
    method RaiseException(badVAddr: word)
      requires Valid()
      modifies registers
      ensures Valid() && registers[..] == Raised(old(registers[..]), badVAddr)
    {
      registers[BAD_VADDR_REG] := badVAddr;
      DelayedLoad(0, 0);
    }

    /** The beginning of the four unaligned instructions: the read of the aligned word. */
    method ReadAligned(tmp: word) returns (t: Outcome, value: word)
      requires Valid()
      modifies registers, pageTable, tlb
      ensures Valid() && t == Translation(old(Table()), AlignedPart(tmp), 4, false) && SameMap(old(Table()), Table())
      ensures t.Fault? ==> registers[..] == Raised(old(registers[..]), AlignedPart(tmp))
      ensures t.At? ==> registers[..] == old(registers[..]) && 0 <= t.phys && t.phys + 4 <= MEMORY_SIZE
      ensures t.At? ==> value == WordAt(mainMemory[..], t.phys)
      ensures t.At? ==> Translation(Table(), AlignedPart(tmp), 4, true) == AlignedAccess(old(Table()), tmp, true)
      ensures t.At? && AlignedAccess(old(Table()), tmp, true).At? ==> AlignedAccess(old(Table()), tmp, true) == t
      ensures t.Fault? ==> AlignedAccess(old(Table()), tmp, true) == t
    {
      t, value := ReadMem(AlignedPart(tmp), 4);
    }

    /** LWL. */
    method LoadWordLeft(rs: nat, rt: nat, extra: word) returns (t: Outcome)
      requires Valid() && rs < 32 && rt < 32
      modifies registers, pageTable, tlb
      ensures Valid() && t == AlignedAccess(old(Table()), Address(old(registers[..]), rs, extra), false)
      ensures SameMap(old(Table()), Table())
      ensures t.Fault? ==>
        registers[..] == Raised(old(registers[..]), AlignedPart(Address(old(registers[..]), rs, extra)))
      ensures t.At? ==> 0 <= t.phys && t.phys + 4 <= MEMORY_SIZE
      ensures t.At? ==> registers[..] == LwlStep(old(registers[..]), WordAt(mainMemory[..], t.phys), rt,
                                                 Address(old(registers[..]), rs, extra) % 4)
    {
      var tmp := Address(registers[..], rs, extra);
      var lane := tmp % 4;
      var value;
      t, value := ReadAligned(tmp);
      if t.Fault? {
        return;
      }
      var nextLoadValue := if registers[LOAD_REG] == rt then registers[LOAD_VALUE_REG] else registers[rt];
      DelayedLoad(rt, Lwl(nextLoadValue, value, lane));
    }

    /** LWR. */
    method LoadWordRight(rs: nat, rt: nat, extra: word) returns (t: Outcome)
      requires Valid() && rs < 32 && rt < 32
      modifies registers, pageTable, tlb
      ensures Valid() && t == AlignedAccess(old(Table()), Address(old(registers[..]), rs, extra), false)
      ensures SameMap(old(Table()), Table())
      ensures t.Fault? ==>
        registers[..] == Raised(old(registers[..]), AlignedPart(Address(old(registers[..]), rs, extra)))
      ensures t.At? ==> 0 <= t.phys && t.phys + 4 <= MEMORY_SIZE
      ensures t.At? ==> registers[..] == LwrStep(old(registers[..]), WordAt(mainMemory[..], t.phys), rt,
                                                 Address(old(registers[..]), rs, extra) % 4)
    {
      var tmp := Address(registers[..], rs, extra);
      var lane := tmp % 4;
      var value;
      t, value := ReadAligned(tmp);
      if t.Fault? {
        return;
      }
      var nextLoadValue := if registers[LOAD_REG] == rt then registers[LOAD_VALUE_REG] else registers[rt];
      DelayedLoad(rt, Lwr(nextLoadValue, value, lane));
    }

    /** The end of SWL and SWR: the write, and the delayed load or the trap. */
    method StoreBack(addr: word, value: word) returns (t: Outcome)
      requires Valid()
      modifies registers, pageTable, tlb, mainMemory
      ensures Valid() && t == Translation(old(Table()), addr, 4, true) && SameMap(old(Table()), Table())
      ensures t.Fault? ==> mainMemory[..] == old(mainMemory[..])
      ensures t.Fault? ==> registers[..] == Raised(old(registers[..]), addr)
      ensures t.At? ==> 0 <= t.phys && t.phys + 4 <= MEMORY_SIZE && registers[..] == Delayed(old(registers[..]), 0, 0)
      ensures t.At? ==> mainMemory[..] == Splice(old(mainMemory[..]), t.phys, BytesOf(value))
    {
      t := WriteMem(addr, 4, value);
      assert BytesOf(value)[..4] == BytesOf(value);
      if t.At? {
        DelayedLoad(0, 0);
      }
    }

    /** SWL. */
    method StoreWordLeft(rs: nat, rt: nat, extra: word) returns (t: Outcome)
      requires Valid() && rs < 32 && rt < 32
      modifies registers, pageTable, tlb, mainMemory
      ensures Valid() && t == AlignedAccess(old(Table()), Address(old(registers[..]), rs, extra), true)
      ensures SameMap(old(Table()), Table())
      ensures t.Fault? ==> mainMemory[..] == old(mainMemory[..])
      ensures t.Fault? ==>
        registers[..] == Raised(old(registers[..]), AlignedPart(Address(old(registers[..]), rs, extra)))
      ensures t.At? ==> 0 <= t.phys && t.phys + 4 <= MEMORY_SIZE && registers[..] == Delayed(old(registers[..]), 0, 0)
      ensures t.At? ==> mainMemory[..] == Splice(old(mainMemory[..]), t.phys,
        BytesOf(Swl(WordAt(old(mainMemory[..]), t.phys), old(registers[rt]),
                    Address(old(registers[..]), rs, extra) % 4)))
    {
      var tmp := Address(registers[..], rs, extra);
      var lane := tmp % 4;
      var value;
      t, value := ReadAligned(tmp);
      if t.Fault? {
        return;
      }
      value := Swl(value, registers[rt], lane);
      t := StoreBack(AlignedPart(tmp), value);
    }

    /** SWR. */
    method StoreWordRight(rs: nat, rt: nat, extra: word) returns (t: Outcome)
      requires Valid() && rs < 32 && rt < 32
      modifies registers, pageTable, tlb, mainMemory
      ensures Valid() && t == AlignedAccess(old(Table()), Address(old(registers[..]), rs, extra), true)
      ensures SameMap(old(Table()), Table())
      ensures t.Fault? ==> mainMemory[..] == old(mainMemory[..])
      ensures t.Fault? ==>
        registers[..] == Raised(old(registers[..]), AlignedPart(Address(old(registers[..]), rs, extra)))
      ensures t.At? ==> 0 <= t.phys && t.phys + 4 <= MEMORY_SIZE && registers[..] == Delayed(old(registers[..]), 0, 0)
      ensures t.At? ==> mainMemory[..] == Splice(old(mainMemory[..]), t.phys,
        BytesOf(Swr(WordAt(old(mainMemory[..]), t.phys), old(registers[rt]),
                    Address(old(registers[..]), rs, extra) % 4)))
    {
      var tmp := Address(registers[..], rs, extra);
      var lane := tmp % 4;
      var value;
      t, value := ReadAligned(tmp);
      if t.Fault? {
        return;
      }
      value := Swr(value, registers[rt], lane);
      t := StoreBack(AlignedPart(tmp), value);
    }
  }
}
