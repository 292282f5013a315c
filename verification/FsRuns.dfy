/** Whole runs of the file system: the ownership invariant in every state, and the flat view of the
    disk as a map from names to byte strings, which every operation refines. */
module FsRuns {
  import opened Bits
  import opened Bitmaps
  import opened SectorDisk
  import opened FileHeaders
  import opened OpenFiles
  import opened Directories
  import opened FlatFiles
  import opened FsModel
  import opened FsInvariant
  import opened FsImage
  import opened FileSystems

  datatype State = State(image: Image, fs: Fs)

  /** What the system asks of its callers. A write has to be in range for its file besides. */
  predicate Legal(op: Op) {
    |op.key| == FILE_NAME_MAX_LEN && (op.Create? ==> op.size <= MAX_FILE_SIZE)
  }

  /** One operation on the disk, as the methods that carry it out specify it. */
  ghost predicate Step(s: State, op: Op, s': State) {
    && s.fs.Shape() && s'.fs.Shape()
    && match op
       case Create(key, size) =>
         CreateFs(s.fs, key, size).0 == s'.fs && Rep(s'.image, s'.fs) && SameContents(s.image, s.fs, s'.image, s'.fs)
       case Remove(key) =>
         RemoveFs(s.fs, key).0 == s'.fs && Rep(s'.image, s'.fs) && SameContents(s.image, s.fs, s'.image, s'.fs)
       case Write(key, position, data) =>
         var k := FindKey(s.fs.slots, key);
         && s'.fs == s.fs
         && (k == |s.fs.slots| ==> s'.image == s.image)
         && (k < |s.fs.slots| && s.fs.slots[k].File? ==>
               && InRange(s.fs.slots[k].inode.size, |data|, position)
               && Written(s.image, s'.image, s.fs.slots[k].inode, position, data))
  }

  /** Position and count are `int`s, and the request is empty or its end is one too: what the code clips
      right. */
  predicate InRange(size: nat, n: nat, position: nat) {
    position < 0x8000_0000 && n < 0x8000_0000 && EndFits(size, n, position)
  }

  /** `data`, clipped to the file, has been written to file `f` at `position`, and to nothing else. */
  ghost predicate Written(before: Image, after: Image, f: Inode, position: nat, data: seq<byte>)
    requires f.Ok()
  {
    var n := Clip(f.size, |data|, position);
    && SameOutside(before, after, f.data)
    && Content(after, f) == if n == 0 then Content(before, f) else Splice(Content(before, f), position, data[..n])
  }

  // ---------- every sector is accounted for ----------

  /** How many sectors the files own. */
  function Cost(slots: seq<Slot>): nat {
    if slots == [] then 0 else Cost(slots[..|slots| - 1]) + |slots[|slots| - 1].Sectors()|
  }

  lemma {:induction false} CostUpdate(slots: seq<Slot>, k: nat, s: Slot)
    requires k < |slots|
    ensures Cost(slots[k := s]) == Cost(slots) - |slots[k].Sectors()| + |s.Sectors()|
  {
    var n := |slots| - 1;
    if k == n {
      assert slots[k := s][..n] == slots[..n];
    } else {
      assert slots[k := s][..n] == slots[..n][k := s];
      CostUpdate(slots[..n], k, s);
    }
  }

  /** The sectors that a fresh disk has left after the format, less what the files own, are free. */
  ghost predicate Balanced(fs: Fs) {
    ClearCount(fs.used) + Cost(fs.slots) == NUM_SECTORS - 5
  }

  lemma {:induction false} ClearAllCount(bits: seq<bool>, data: seq<int>)
    requires forall i :: 0 <= i < |data| ==> 0 <= data[i] < |bits| && bits[data[i]]
    requires Distinct(data)
    ensures ClearCount(ClearAll(bits, data)) == ClearCount(bits) + |data|
  {
    if data != [] {
      var n := |data| - 1;
      var d := data[..n];
      assert Distinct(d) by {
        forall i, j | 0 <= i < j < |d| ensures Nth(d, i) != Nth(d, j) {
          assert Nth(data, i) != Nth(data, j);
        }
      }
      ClearAllCount(bits, d);
      ClearAllBits(bits, d);
      DistinctAt(data, n);
      assert data[n] !in d;
      ClearCountUpdate(ClearAll(bits, d), data[n], false);
    }
  }

  lemma CreateKeepsBalance(fs: Fs, key: seq<byte>, size: nat)
    requires fs.Inv() && Balanced(fs)
    ensures Balanced(CreateFs(fs, key, size).0)
  {
    CreateOutcome(fs, key, size);
    if CreateFs(fs, key, size).1 {
      Created(fs, key, size);
      FreeSlotIs(fs.slots, FreeSlot(fs.slots));
      CostUpdate(fs.slots, FreeSlot(fs.slots), NewFile(fs, key, size));
    }
  }

  lemma RemoveKeepsBalance(fs: Fs, key: seq<byte>)
    requires fs.Inv() && Balanced(fs)
    ensures Balanced(RemoveFs(fs, key).0)
  {
    var k := FindKey(fs.slots, key);
    RemoveOutcome(fs, key);
    if k < |fs.slots| {
      var f := fs.slots[k];
      FileMarked(fs, k);
      ClearAllCount(fs.used, f.inode.data);
      ClearAllBits(fs.used, f.inode.data);
      HeaderApart(fs, k);
      ClearCountUpdate(ClearAll(fs.used, f.inode.data), f.sector, false);
      CostUpdate(fs.slots, k, Free);
    }
  }

  lemma HeaderApart(fs: Fs, k: nat)
    requires fs.Inv() && k < |fs.slots| && fs.slots[k].File?
    ensures fs.used[fs.slots[k].sector] && fs.slots[k].sector !in fs.slots[k].inode.data
  {
    var s := fs.slots[k].Sectors();
    assert s[0] in s && fs.Owned(s[0]);
    DistinctAt(s, 0);
    forall i | 0 <= i < |fs.slots[k].inode.data| ensures fs.slots[k].inode.data[i] != s[0] {
      assert s[i + 1] == fs.slots[k].inode.data[i];
    }
  }

  lemma FormattedBalanced()
    ensures Balanced(Formatted())
  {
    UpToCount(5);
    FreeCost(Formatted().slots);
  }

  lemma {:induction false} FreeCost(slots: seq<Slot>)
    requires forall i :: 0 <= i < |slots| ==> slots[i].Free?
    ensures Cost(slots) == 0
  {
    if slots != [] { FreeCost(slots[..|slots| - 1]); }
  }

  /** Ten files of the largest size leave sectors to spare. */
  lemma {:induction false} CostBound(slots: seq<Slot>)
    requires forall i :: 0 <= i < |slots| ==> slots[i].Ok()
    ensures Cost(slots) <= |slots| * (1 + NUM_DIRECT)
  {
    if slots != [] { CostBound(slots[..|slots| - 1]); }
  }

  lemma {:induction false} CostBoundFree(slots: seq<Slot>, k: nat)
    requires k < |slots| && slots[k].Free? && forall i :: 0 <= i < |slots| ==> slots[i].Ok()
    ensures Cost(slots) <= (|slots| - 1) * (1 + NUM_DIRECT)
  {
    if k == |slots| - 1 {
      CostBound(slots[..|slots| - 1]);
    } else {
      CostBoundFree(slots[..|slots| - 1], k);
    }
  }

  /** The disk never fills up: the directory is full long before. */
  lemma SpaceToSpare(fs: Fs, k: nat, size: nat)
    requires fs.Inv() && Balanced(fs) && k < |fs.slots| && fs.slots[k].Free? && size <= MAX_FILE_SIZE
    ensures ClearCount(fs.used) >= 1 + SectorsFor(size)
  {
    CostBoundFree(fs.slots, k);
    SectorsForFits(size);
  }

  // ---------- the flat view ----------

  ghost predicate AllOk(slots: seq<Slot>) {
    forall i :: 0 <= i < |slots| ==> slots[i].Ok()
  }

  ghost function RowAt(image: Image, slot: Slot): Row
    requires slot.Ok()
  {
    if slot.Free? then Blank else Row(slot.key, Content(image, slot.inode))
  }

  /** The directory with the contents of every file in place of its sectors. */
  ghost function Rows(image: Image, slots: seq<Slot>): (rows: seq<Row>)
    requires AllOk(slots)
  {
    seq(|slots|, i requires 0 <= i < |slots| => RowAt(image, slots[i]))
  }

  /** The files on the disk, by name. */
  ghost function View(s: State): map<seq<byte>, seq<byte>>
    requires AllOk(s.fs.slots)
  {
    ViewOf(Rows(s.image, s.fs.slots))
  }

  lemma RowsUnique(image: Image, slots: seq<Slot>)
    requires AllOk(slots) && UniqueNames(slots)
    ensures Unique(Rows(image, slots))
  {
  }

  /** A name is in the view exactly when the directory has it. */
  lemma Known(image: Image, slots: seq<Slot>, key: seq<byte>)
    requires AllOk(slots) && UniqueNames(slots)
    ensures var k := FindKey(slots, key);
            && (key in ViewOf(Rows(image, slots)) <==> k < |slots|)
            && (k < |slots| ==>
                  slots[k].Named(key) && ViewOf(Rows(image, slots))[key] == Content(image, slots[k].inode))
  {
    var rows, k := Rows(image, slots), FindKey(slots, key);
    RowsUnique(image, slots);
    FindKeyIs(slots, key, k);
    if k < |slots| {
      RowIn(rows, k);
    } else {
      NoRow(rows, key);
    }
  }

  /** What holds in every state of every run. */
  ghost predicate Good(s: State)
    ensures Good(s) ==> AllOk(s.fs.slots) && UniqueNames(s.fs.slots)
  {
    s.fs.Inv() && Rep(s.image, s.fs) && Balanced(s.fs)
  }

  /** On a disk of this size `Create` fails only for a name that is taken or a directory that is full. */
  lemma CreateSucceeds(s: State, key: seq<byte>, size: nat)
    requires Good(s) && size <= MAX_FILE_SIZE
    ensures CreateFs(s.fs, key, size).1 <==> key !in View(s) && |View(s)| < NUM_DIR_ENTRIES
  {
    var rows := Rows(s.image, s.fs.slots);
    CreateOutcome(s.fs, key, size);
    RowsUnique(s.image, s.fs.slots);
    ViewCount(rows);
    Known(s.image, s.fs.slots, key);
    FindKeyIs(s.fs.slots, key, FindKey(s.fs.slots, key));
    FreeRow(s.image, s.fs.slots);
    if i :| 0 <= i < |s.fs.slots| && s.fs.slots[i].Free? {
      SpaceToSpare(s.fs, i, size);
    }
  }

  lemma FreeRow(image: Image, slots: seq<Slot>)
    requires AllOk(slots)
    ensures (exists i :: 0 <= i < |slots| && slots[i].Free?) <==>
      (exists i :: 0 <= i < |slots| && Rows(image, slots)[i].Blank?)
  {
    if i :| 0 <= i < |slots| && slots[i].Free? { assert Rows(image, slots)[i].Blank?; }
    if i :| 0 <= i < |slots| && Rows(image, slots)[i].Blank? { assert slots[i].Free?; }
  }

  // ---------- what each operation does to the view ----------

  /** All files but the one in slot `k` keep their contents. */
  ghost predicate OthersKept(before: Image, after: Image, slots: seq<Slot>, k: nat)
    requires AllOk(slots)
  {
    forall i :: 0 <= i < |slots| && i != k && slots[i].File? ==>
      Content(after, slots[i].inode) == Content(before, slots[i].inode)
  }

  /** A change to slot `k` and its contents only is a change to row `k` only. */
  lemma RowsPut(before: Image, slots: seq<Slot>, after: Image, k: nat, s: Slot)
    requires AllOk(slots) && k < |slots| && s.Ok() && OthersKept(before, after, slots, k)
    ensures AllOk(slots[k := s])
    ensures Rows(after, slots[k := s]) == Rows(before, slots)[k := RowAt(after, s)]
  {
  }

  lemma CreatedView(before: Image, slots: seq<Slot>, after: Image, slots': seq<Slot>, k: nat, file: Slot)
    requires AllOk(slots) && UniqueNames(slots) && AllOk(slots') && UniqueNames(slots')
    requires k < |slots| && slots[k].Free? && file.File? && slots' == slots[k := file]
    requires OthersKept(before, after, slots, k)
    ensures file.Ok() && file.key !in ViewOf(Rows(before, slots))
    ensures ViewOf(Rows(after, slots')) == ViewOf(Rows(before, slots))[file.key := Content(after, file.inode)]
  {
    assert slots'[k] == file;
    RowsUnique(before, slots);
    RowsUnique(after, slots');
    RowsPut(before, slots, after, k, file);
    PutRow(Rows(before, slots), k, RowAt(after, file));
  }

  lemma RemovedView(before: Image, slots: seq<Slot>, after: Image, slots': seq<Slot>, key: seq<byte>)
    requires AllOk(slots) && UniqueNames(slots) && AllOk(slots')
    requires var k := FindKey(slots, key);
             if k < |slots| then slots' == slots[k := Free] && OthersKept(before, after, slots, k)
             else slots' == slots && OthersKept(before, after, slots, |slots|)
    ensures FlatStep(ViewOf(Rows(before, slots)), Remove(key), ViewOf(Rows(after, slots')))
  {
    var k := FindKey(slots, key);
    Known(before, slots, key);
    if k < |slots| {
      RowsUnique(before, slots);
      RowsPut(before, slots, after, k, Free);
      TakeRow(Rows(before, slots), k);
    } else {
      SameView(before, slots, after);
    }
  }

  lemma WrittenView(before: Image, slots: seq<Slot>, after: Image, op: Op)
    requires op.Write? && AllOk(slots) && UniqueNames(slots)
    requires var k := FindKey(slots, op.key);
             && OthersKept(before, after, slots, k)
             && (k < |slots| && slots[k].File? ==> Written(before, after, slots[k].inode, op.position, op.data))
    ensures FlatStep(ViewOf(Rows(before, slots)), op, ViewOf(Rows(after, slots)))
  {
    var k := FindKey(slots, op.key);
    Known(before, slots, op.key);
    if k < |slots| {
      RowsUnique(before, slots);
      assert slots[k := slots[k]] == slots;
      RowsPut(before, slots, after, k, slots[k]);
      WriteRow(Rows(before, slots), k, op, Content(after, slots[k].inode));
    } else {
      SameView(before, slots, after);
    }
  }

  lemma SameView(before: Image, slots: seq<Slot>, after: Image)
    requires AllOk(slots) && OthersKept(before, after, slots, |slots|)
    ensures ViewOf(Rows(after, slots)) == ViewOf(Rows(before, slots))
  {
    assert Rows(after, slots) == Rows(before, slots);
  }

  lemma CreateIsGood(s: State, op: Op, s': State)
    requires op.Create? && Legal(op) && Good(s) && Step(s, op, s')
    ensures Good(s')
  {
    CreateKeepsInv(s.fs, op.key, op.size);
    CreateKeepsBalance(s.fs, op.key, op.size);
  }

  lemma CreateStep(s: State, op: Op, s': State)
    requires op.Create? && Legal(op) && Good(s) && Good(s') && Step(s, op, s')
    ensures FlatStep(View(s), op, View(s'))
  {
    CreateSucceeds(s, op.key, op.size);
    CreateOutcome(s.fs, op.key, op.size);
    if CreateFs(s.fs, op.key, op.size).1 {
      Created(s.fs, op.key, op.size);
      FreeSlotIs(s.fs.slots, FreeSlot(s.fs.slots));
      CreatedView(s.image, s.fs.slots, s'.image, s'.fs.slots, FreeSlot(s.fs.slots), NewFile(s.fs, op.key, op.size));
    } else {
      SameView(s.image, s.fs.slots, s'.image);
    }
  }

  lemma RemoveIsGood(s: State, op: Op, s': State)
    requires op.Remove? && Good(s) && Step(s, op, s')
    ensures Good(s')
  {
    RemoveKeepsInv(s.fs, op.key);
    RemoveKeepsBalance(s.fs, op.key);
  }

  lemma RemoveStep(s: State, op: Op, s': State)
    requires op.Remove? && Good(s) && Good(s') && Step(s, op, s')
    ensures FlatStep(View(s), op, View(s'))
  {
    RemoveOutcome(s.fs, op.key);
    FindKeyIs(s.fs.slots, op.key, FindKey(s.fs.slots, op.key));
    RemovedView(s.image, s.fs.slots, s'.image, s'.fs.slots, op.key);
  }

  lemma WriteIsGood(s: State, op: Op, s': State)
    requires op.Write? && Good(s) && Step(s, op, s')
    ensures Good(s') && s'.fs == s.fs && OthersKept(s.image, s'.image, s.fs.slots, FindKey(s.fs.slots, op.key))
  {
    var k := FindKey(s.fs.slots, op.key);
    FindKeyIs(s.fs.slots, op.key, k);
    if k < |s.fs.slots| {
      WriteKeepsRep(s.image, s.fs, s'.image, k);
    }
  }

  lemma WriteStep(s: State, op: Op, s': State)
    requires op.Write? && Good(s) && Good(s') && Step(s, op, s')
    ensures FlatStep(View(s), op, View(s'))
  {
    WriteIsGood(s, op, s');
    WrittenView(s.image, s.fs.slots, s'.image, op);
  }

  /** Every operation leaves the disk sound. */
  lemma StaysGood(s: State, op: Op, s': State)
    requires Good(s) && Legal(op) && Step(s, op, s')
    ensures Good(s')
  {
    match op
    case Create(_, _) => CreateIsGood(s, op, s');
    case Remove(_) => RemoveIsGood(s, op, s');
    case Write(_, _, _) => WriteIsGood(s, op, s');
  }

  /** Every operation does to the files what it should. */
  lemma StepIsFlat(s: State, op: Op, s': State)
    requires Good(s) && Good(s') && Legal(op) && Step(s, op, s')
    ensures FlatStep(View(s), op, View(s'))
  {
    match op
    case Create(_, _) => CreateStep(s, op, s');
    case Remove(_) => RemoveStep(s, op, s');
    case Write(_, _, _) => WriteStep(s, op, s');
  }

  // ---------- runs ----------

  /** A disk that has just been formatted. */
  ghost predicate Fresh(s: State) {
    s.fs == Formatted() && s.fs.Shape() && Rep(s.image, s.fs)
  }

  lemma FreshGood(s: State)
    requires Fresh(s)
    ensures Good(s) && View(s) == map[]
  {
    FormattedInv();
    FormattedBalanced();
    forall key ensures key !in View(s) {
      NoRow(Rows(s.image, s.fs.slots), key);
    }
  }

  /** A run: the states of a formatted disk and what `ops` make of it, one after the other. */
  ghost predicate Run(states: seq<State>, ops: seq<Op>) {
    && |states| == |ops| + 1
    && Fresh(states[0])
    && forall i :: 0 <= i < |ops| ==> Legal(ops[i]) && Step(states[i], ops[i], states[i + 1])
  }

  /** The files after `ops`, on a disk that has none to begin with. */
  ghost predicate FlatRun(views: seq<map<seq<byte>, seq<byte>>>, ops: seq<Op>) {
    && |views| == |ops| + 1
    && views[0] == map[]
    && forall i :: 0 <= i < |ops| ==> FlatStep(views[i], ops[i], views[i + 1])
  }

  lemma {:induction false} StateGood(states: seq<State>, ops: seq<Op>, n: nat, s: State)
    requires Run(states, ops) && n < |states| && s == states[n]
    ensures Good(s)
  {
    if n == 0 {
      FreshGood(s);
    } else {
      var before, op := states[n - 1], ops[n - 1];
      StateGood(states, ops, n - 1, before);
      assert Step(before, op, states[n - 1 + 1]);
      StaysGood(before, op, s);
    }
  }

  /** In every state of every run the bitmap marks exactly the owned sectors, no sector has two owners,
      no name occurs twice and the image holds all of this. */
  lemma EveryStateGood(states: seq<State>, ops: seq<Op>, n: nat)
    requires Run(states, ops) && n < |states|
    ensures Good(states[n])
  {
    StateGood(states, ops, n, states[n]);
  }

  ghost predicate AllGood(states: seq<State>) {
    forall i :: 0 <= i < |states| ==> Good(states[i])
  }

  ghost function Views(states: seq<State>): (views: seq<map<seq<byte>, seq<byte>>>)
    requires AllGood(states)
  {
    seq(|states|, i requires 0 <= i < |states| => View(states[i]))
  }

  /** Seen as a map from names to byte strings, every run of the disk is a run of the flat files. */
  lemma EveryRunIsFlat(states: seq<State>, ops: seq<Op>)
    requires Run(states, ops)
    ensures AllGood(states) && FlatRun(Views(states), ops)
  {
    forall i | 0 <= i < |states| ensures Good(states[i]) {
      EveryStateGood(states, ops, i);
    }
    FreshGood(states[0]);
    forall i | 0 <= i < |ops| ensures FlatStep(View(states[i]), ops[i], View(states[i + 1])) {
      StepIsFlat(states[i], ops[i], states[i + 1]);
    }
  }

  // ---------- the methods take the steps of a run ----------

  method CreateFile(system: FileSystem, name: seq<byte>, size: nat) returns (ok: bool)
    requires system.Valid() && size <= MAX_FILE_SIZE
    modifies system, system.disk
    ensures system.Valid()
    ensures Step(State(old(system.disk.image), old(system.fs)), Create(Key(name), size),
                 State(system.disk.image, system.fs))
  {
    ok := system.Create(name, size);
  }

  method RemoveFile(system: FileSystem, name: seq<byte>) returns (ok: bool)
    requires system.Valid()
    modifies system, system.disk
    ensures system.Valid()
    ensures Step(State(old(system.disk.image), old(system.fs)), Remove(Key(name)),
                 State(system.disk.image, system.fs))
  {
    ok := system.Remove(name);
  }

  /** The first `n` bytes of `b`; none if `n` is negative. */
  function Prefix(b: seq<byte>, n: int): (r: seq<byte>)
    requires n <= |b|
    ensures |r| == if n < 0 then 0 else n
  {
    if n <= 0 then [] else b[..n]
  }

  /** A write through the open file in slot `k`. */
  method WriteFile(system: FileSystem, file: OpenFile, ghost k: nat, from: array<byte>, numBytes: int32,
                   position: int32)
    returns (n: nat)
    requires system.Valid() && k < NUM_DIR_ENTRIES && system.fs.slots[k].File?
    requires file.Valid() && file.file == system.fs.slots[k].inode && numBytes <= from.Length
    requires 0 <= position && EndFits(file.file.size, numBytes, position)
    modifies system.disk
    ensures system.Valid()
    ensures Step(State(old(system.disk.image), old(system.fs)),
                 Write(system.fs.slots[k].key, position, Prefix(from[..], numBytes)),
                 State(system.disk.image, system.fs))
  {
    ghost var before, data := system.disk.image, Prefix(from[..], numBytes);
    n := file.WriteAt(system.disk, from, numBytes, position);
    assert from[..n] == data[..n];
    WriteIsStep(before, system.fs, system.disk.image, k, position, data);
  }

  lemma WriteIsStep(before: Image, fs: Fs, after: Image, k: nat, position: nat, data: seq<byte>)
    requires fs.Inv() && Rep(before, fs) && k < NUM_DIR_ENTRIES && fs.slots[k].File?
    requires InRange(fs.slots[k].inode.size, |data|, position)
    requires Written(before, after, fs.slots[k].inode, position, data)
    ensures Rep(after, fs) && Step(State(before, fs), Write(fs.slots[k].key, position, data), State(after, fs))
  {
    FindKeyIs(fs.slots, fs.slots[k].key, k);
    WriteKeepsRep(before, fs, after, k);
  }
}
