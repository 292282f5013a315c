/** The file system in the abstract: which sectors are in use and which files own them
    (filesys/filesys.cc). */
module FsModel {
  import opened Bits
  import opened Bitmaps
  import opened SectorDisk
  import opened FileHeaders
  import opened Directories

  const FREE_MAP_SECTOR := 0
  const DIRECTORY_SECTOR := 1
  const FREE_MAP_FILE_SIZE := NUM_SECTORS / 8
  const DIRECTORY_FILE_SIZE := ENTRY_SIZE * NUM_DIR_ENTRIES

  datatype Slot = Free | File(key: seq<byte>, sector: int, inode: Inode) {
    /** The header sector of a file and its data sectors. */
    function Sectors(): seq<int> {
      if Free? then [] else [sector] + inode.data
    }

    ghost predicate Ok() {
      File? ==> |key| == FILE_NAME_MAX_LEN && 0 <= sector < NUM_SECTORS && inode.Ok() && Distinct(Sectors())
    }

    predicate Named(k: seq<byte>) {
      File? && key == k
    }
  }

  /** `freeMap` and `directory` are the two files the file system keeps for itself. */
  datatype Fs = Fs(freeMap: Inode, directory: Inode, used: seq<bool>, slots: seq<Slot>) {
    /** The sectors that no file in the directory owns. */
    function SystemSectors(): seq<int> {
      [FREE_MAP_SECTOR, DIRECTORY_SECTOR] + freeMap.data + directory.data
    }

    ghost predicate Shape() {
      && freeMap.Ok() && freeMap.size == FREE_MAP_FILE_SIZE
      && directory.Ok() && directory.size == DIRECTORY_FILE_SIZE
      && |used| == NUM_SECTORS
      && |slots| == NUM_DIR_ENTRIES
      && forall i :: 0 <= i < |slots| ==> slots[i].Ok()
    }

    /** Some part of the file system owns sector `t`. */
    ghost predicate Owned(t: int) {
      t in SystemSectors() || exists i :: 0 <= i < |slots| && t in slots[i].Sectors()
    }

    /** No sector has two owners. */
    ghost predicate Exclusive() {
      && Distinct(SystemSectors())
      && (forall i :: 0 <= i < |slots| ==> Disjoint(SystemSectors(), slots[i].Sectors()))
      && (forall i, j :: 0 <= i < j < |slots| ==> Disjoint(slots[i].Sectors(), slots[j].Sectors()))
    }

    /** The bitmap marks exactly the owned sectors. */
    ghost predicate Accounted() {
      forall t {:trigger Owned(t)} :: 0 <= t < |used| ==> (used[t] <==> Owned(t))
    }

    /** The invariant of the whole disk. */
    ghost predicate Inv() {
      Shape() && Exclusive() && Accounted() && UniqueNames(slots)
    }
  }

  /** No two files go by the same name. */
  ghost predicate UniqueNames(slots: seq<Slot>) {
    forall i, j {:trigger slots[i].key, slots[j].key} ::
      0 <= i < j < |slots| && slots[i].File? && slots[j].File? ==> slots[i].key != slots[j].key
  }

  ghost predicate Disjoint(a: seq<int>, b: seq<int>) {
    forall t :: t in a ==> t !in b
  }

  /** The first slot that holds a file named `key`; `|slots|` if there is none. */
  function FindKey(slots: seq<Slot>, key: seq<byte>): (k: nat)
    ensures k <= |slots|
  {
    if slots == [] || slots[0].Named(key) then 0 else 1 + FindKey(slots[1..], key)
  }

  lemma {:induction false} FindKeyIs(slots: seq<Slot>, key: seq<byte>, k: nat)
    requires k <= |slots|
    ensures FindKey(slots, key) == k <==>
              (k < |slots| ==> slots[k].Named(key)) && (forall i :: 0 <= i < k ==> !slots[i].Named(key))
  {
    if slots != [] && !slots[0].Named(key) && k > 0 {
      FindKeyIs(slots[1..], key, k - 1);
      assert forall i :: 1 <= i < k ==> slots[i] == slots[1..][i - 1];
    }
  }

  /** The first free slot; `|slots|` if there is none. */
  function FreeSlot(slots: seq<Slot>): (k: nat)
    ensures k <= |slots|
  {
    if slots == [] || slots[0].Free? then 0 else 1 + FreeSlot(slots[1..])
  }

  lemma {:induction false} FreeSlotIs(slots: seq<Slot>, k: nat)
    requires k <= |slots|
    ensures FreeSlot(slots) == k <==>
              (k < |slots| ==> slots[k].Free?) && (forall i :: 0 <= i < k ==> slots[i].File?)
  {
    if slots != [] && slots[0].File? && k > 0 {
      FreeSlotIs(slots[1..], k - 1);
      assert forall i :: 1 <= i < k ==> slots[i] == slots[1..][i - 1];
    }
  }

  /** `Create`: the new state and whether it succeeded. */
  function CreateFs(fs: Fs, key: seq<byte>, size: nat): (r: (Fs, bool)) {
    var sector, k := FirstClear(fs.used), FreeSlot(fs.slots);
    if FindKey(fs.slots, key) < |fs.slots| || sector == |fs.used| || k == |fs.slots| then (fs, false)
    else
      var used := fs.used[sector := true];
      var n := SectorsFor(size);
      if ClearCount(used) < n then (fs, false)
      else
        var file := File(key, sector, Inode(size, Taken(used, n)));
        (fs.(used := Filled(used, n), slots := fs.slots[k := file]), true)
  }

  /** `Remove`: the new state and whether there was such a file. */
  ghost function RemoveFs(fs: Fs, key: seq<byte>): (r: (Fs, bool))
    requires fs.Shape()
  {
    var k := FindKey(fs.slots, key);
    if k == |fs.slots| then (fs, false)
    else
      FindKeyIs(fs.slots, key, k);
      var f := fs.slots[k];
      (fs.(used := ClearAll(fs.used, f.inode.data)[f.sector := false], slots := fs.slots[k := Free]), true)
  }

  // ---------- what allocation hands out ----------

  /** `d` are sectors that were clear in `bits`, each listed once, and `r` is `bits` with them marked. */
  ghost predicate HandedOut(bits: seq<bool>, d: seq<int>, r: seq<bool>) {
    && |r| == |bits|
    && (forall t :: t in d ==> 0 <= t < |bits| && !bits[t])
    && (forall t :: 0 <= t < |bits| ==> (r[t] <==> bits[t] || t in d))
    && Distinct(d)
  }

  lemma HandOutOne(bits: seq<bool>, d: seq<int>, r: seq<bool>, k: nat)
    requires HandedOut(bits, d, r) && k < |bits| && !r[k]
    ensures HandedOut(bits, d + [k], r[k := true])
  {
    DistinctAppend(d, k);
  }

  /** First-fit allocation of `n` sectors marks exactly the sectors it hands out, all of which were
      clear, and hands out no sector twice. */
  lemma {:induction false} TakenAndFilled(bits: seq<bool>, n: nat)
    requires n <= ClearCount(bits)
    ensures HandedOut(bits, Taken(bits, n), Filled(bits, n))
  {
    if n > 0 {
      TakenAndFilled(bits, n - 1);
      FilledCount(bits, n - 1);
      var r, d := Filled(bits, n - 1), Taken(bits, n - 1);
      var k := FirstClear(r);
      FirstClearIs(r, k);
      HandOutOne(bits, d, r, k);
    }
  }

  lemma DistinctAppend(s: seq<int>, x: int)
    requires Distinct(s) && x !in s
    ensures Distinct(s + [x])
  {
    forall i, j | 0 <= i < j < |s + [x]| ensures Nth(s + [x], i) != Nth(s + [x], j) {
      if j < |s| { assert Nth(s, i) != Nth(s, j); }
    }
  }

  lemma DistinctPrepend(x: int, s: seq<int>)
    requires Distinct(s) && x !in s
    ensures Distinct([x] + s)
  {
    forall i, j | 0 <= i < j < |[x] + s| ensures Nth([x] + s, i) != Nth([x] + s, j) {
      if i > 0 { assert Nth(s, i - 1) != Nth(s, j - 1); }
    }
  }

  /** Clearing a list of sectors clears exactly those. */
  lemma {:induction false} ClearAllBits(bits: seq<bool>, data: seq<int>)
    requires forall i :: 0 <= i < |data| ==> 0 <= data[i] < |bits|
    ensures forall t :: 0 <= t < |bits| ==> (ClearAll(bits, data)[t] <==> bits[t] && t !in data)
  {
    if data != [] {
      var d := data[..|data| - 1];
      ClearAllBits(bits, d);
      assert data == d + [data[|data| - 1]];
    }
  }
}
