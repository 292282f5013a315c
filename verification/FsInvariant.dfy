/** What every operation of the file system keeps, and what one undoes of another. */
module FsInvariant {
  import opened Bits
  import opened Bitmaps
  import opened SectorDisk
  import opened FileHeaders
  import opened Directories
  import opened FsModel

  /** The file that a successful `Create` makes, and the slot it goes to. */
  function NewFile(fs: Fs, key: seq<byte>, size: nat): Slot {
    File(key, FirstClear(fs.used), Inode(size, Taken(Marked(fs), SectorsFor(size))))
  }

  /** The bitmap once the header sector of a new file is taken. */
  function Marked(fs: Fs): (used: seq<bool>)
    ensures |used| == |fs.used|
  {
    var k := FirstClear(fs.used);
    if k < |fs.used| then fs.used[k := true] else fs.used
  }

  /** When `Create` succeeds. */
  ghost predicate Creatable(fs: Fs, key: seq<byte>, size: nat) {
    && (forall i :: 0 <= i < |fs.slots| ==> !fs.slots[i].Named(key))
    && (exists i :: 0 <= i < |fs.slots| && fs.slots[i].Free?)
    && ClearCount(fs.used) >= 1 + SectorsFor(size)
  }

  /** `Create` succeeds exactly when the name is new, a directory entry is free and there are enough
      free sectors for the header and the data; then it uses exactly those many. Otherwise nothing
      changes. */
  lemma CreateOutcome(fs: Fs, key: seq<byte>, size: nat)
    ensures CreateFs(fs, key, size).1 <==> Creatable(fs, key, size)
    ensures !CreateFs(fs, key, size).1 ==> CreateFs(fs, key, size).0 == fs
    ensures CreateFs(fs, key, size).1 ==>
      ClearCount(CreateFs(fs, key, size).0.used) == ClearCount(fs.used) - 1 - SectorsFor(size)
  {
    var sector, k, f := FirstClear(fs.used), FreeSlot(fs.slots), FindKey(fs.slots, key);
    FirstClearIs(fs.used, sector);
    FreeSlotIs(fs.slots, k);
    FindKeyIs(fs.slots, key, f);
    FoundIffClear(fs.used);
    if sector < |fs.used| {
      ClearCountUpdate(fs.used, sector, true);
      if SectorsFor(size) <= ClearCount(fs.used[sector := true]) {
        FilledCount(fs.used[sector := true], SectorsFor(size));
      }
    }
  }

  lemma SectorsForFits(size: nat)
    ensures var n := SectorsFor(size); SECTOR_SIZE * n - SECTOR_SIZE < size <= SECTOR_SIZE * n
  {
  }

  /** The state after a successful `Create`, in terms of the file it makes. */
  lemma Created(fs: Fs, key: seq<byte>, size: nat)
    requires |fs.used| == NUM_SECTORS && CreateFs(fs, key, size).1
    ensures FreeSlot(fs.slots) < |fs.slots| && FirstClear(fs.used) < |fs.used|
    ensures SectorsFor(size) <= ClearCount(Marked(fs))
    ensures var fs' := CreateFs(fs, key, size).0;
            fs' == fs.(used := Filled(Marked(fs), SectorsFor(size)),
                       slots := fs.slots[FreeSlot(fs.slots) := NewFile(fs, key, size)])
  {
  }

  /** A created file is well formed, and the sectors it owns were clear and are the ones now marked. */
  lemma NewFileOk(fs: Fs, key: seq<byte>, size: nat)
    requires |fs.used| == NUM_SECTORS && FirstClear(fs.used) < |fs.used|
    requires SectorsFor(size) <= ClearCount(Marked(fs))
    requires size <= MAX_FILE_SIZE && |key| == FILE_NAME_MAX_LEN
    ensures NewFile(fs, key, size).Ok()
    ensures forall t :: t in NewFile(fs, key, size).Sectors() ==> 0 <= t < |fs.used| && !fs.used[t]
    ensures forall t :: 0 <= t < |fs.used| ==>
      (Filled(Marked(fs), SectorsFor(size))[t] <==> fs.used[t] || t in NewFile(fs, key, size).Sectors())
  {
    var sector, n := FirstClear(fs.used), SectorsFor(size);
    FirstClearIs(fs.used, sector);
    var used := Marked(fs);
    var data := Taken(used, n);
    TakenAndFilled(used, n);
    DistinctPrepend(sector, data);
    TakenOk(used, size);
    NewFileSectors(fs, key, size);
  }

  /** What first-fit allocation hands out makes a well-formed inode. */
  lemma TakenOk(used: seq<bool>, size: nat)
    requires |used| == NUM_SECTORS && SectorsFor(size) <= ClearCount(used) && size <= MAX_FILE_SIZE
    ensures Inode(size, Taken(used, SectorsFor(size))).Ok()
  {
    var data := Taken(used, SectorsFor(size));
    TakenAndFilled(used, SectorsFor(size));
    SectorsForFits(size);
    forall i | 0 <= i < |data| ensures 0 <= data[i] < NUM_SECTORS {
      assert data[i] in data;
    }
  }

  lemma NewFileSectors(fs: Fs, key: seq<byte>, size: nat)
    ensures NewFile(fs, key, size).Sectors() == [FirstClear(fs.used)] + Taken(Marked(fs), SectorsFor(size))
  {
  }

  lemma CreateKeepsInv(fs: Fs, key: seq<byte>, size: nat)
    requires fs.Inv() && size <= MAX_FILE_SIZE && |key| == FILE_NAME_MAX_LEN
    ensures CreateFs(fs, key, size).0.Inv()
  {
    if CreateFs(fs, key, size).1 {
      var fs' := CreateFs(fs, key, size).0;
      var k, file := FreeSlot(fs.slots), NewFile(fs, key, size);
      Created(fs, key, size);
      NewFileOk(fs, key, size);
      FreeSlotIs(fs.slots, k);
      FindKeyIs(fs.slots, key, |fs.slots|);
      PutFile(fs, fs', k, file);
    }
  }

  /** Putting a file that owns clear sectors only into a free slot keeps the invariant. */
  lemma PutFile(fs: Fs, fs': Fs, k: nat, file: Slot)
    requires fs.Inv() && k < |fs.slots| && fs.slots[k].Free? && file.File? && file.Ok()
    requires fs' == fs.(used := fs'.used, slots := fs.slots[k := file]) && |fs'.used| == |fs.used|
    requires forall t :: t in file.Sectors() ==> 0 <= t < |fs.used| && !fs.used[t]
    requires forall t :: 0 <= t < |fs.used| ==> (fs'.used[t] <==> fs.used[t] || t in file.Sectors())
    requires forall i :: 0 <= i < |fs.slots| ==> !fs.slots[i].Named(file.key)
    ensures fs'.Inv()
  {
    forall t | 0 <= t < |fs.used|
      ensures fs'.Owned(t) <==> fs.Owned(t) || t in file.Sectors()
    {
      OwnedAfterPut(fs, fs', k, file, t);
    }
    assert fs'.Exclusive() by {
      forall i | 0 <= i < |fs.slots| && i != k
        ensures Disjoint(fs.slots[i].Sectors(), file.Sectors()) && Disjoint(file.Sectors(), fs.slots[i].Sectors())
      {
        forall t | t in fs.slots[i].Sectors() ensures t !in file.Sectors() {
          SectorInRange(fs.slots[i], t);
          assert fs.Owned(t);
        }
      }
      forall t | t in fs.SystemSectors() ensures t !in file.Sectors() {
        assert fs.Owned(t);
      }
    }
  }

  lemma SectorInRange(s: Slot, t: int)
    requires s.Ok() && t in s.Sectors()
    ensures 0 <= t < NUM_SECTORS
  {
  }

  lemma OwnedAfterPut(fs: Fs, fs': Fs, k: nat, file: Slot, t: int)
    requires k < |fs.slots| && fs.slots[k].Free?
    requires fs' == fs.(used := fs'.used, slots := fs.slots[k := file])
    ensures fs'.Owned(t) <==> fs.Owned(t) || t in file.Sectors()
  {
    if fs.Owned(t) && t !in fs.SystemSectors() {
      var i :| 0 <= i < |fs.slots| && t in fs.slots[i].Sectors();
      assert t in fs'.slots[i].Sectors();
    }
    if t in file.Sectors() {
      assert t in fs'.slots[k].Sectors();
    }
    if fs'.Owned(t) && t !in fs.SystemSectors() {
      var i :| 0 <= i < |fs'.slots| && t in fs'.slots[i].Sectors();
      assert i == k || t in fs.slots[i].Sectors();
    }
  }

  /** `Remove` frees exactly the sectors of the file. */
  lemma RemoveOutcome(fs: Fs, key: seq<byte>)
    requires fs.Inv()
    ensures var (fs', ok) := RemoveFs(fs, key); var k := FindKey(fs.slots, key);
            && (ok <==> exists i :: 0 <= i < |fs.slots| && fs.slots[i].Named(key))
            && (!ok ==> fs' == fs)
            && (ok ==>
                && k < |fs.slots| && fs.slots[k].Named(key)
                && fs' == fs.(used := fs'.used, slots := fs.slots[k := Free])
                && |fs'.used| == |fs.used|
                && forall t :: 0 <= t < |fs.used| ==> (fs'.used[t] <==> fs.used[t] && t !in fs.slots[k].Sectors()))
  {
    var k := FindKey(fs.slots, key);
    FindKeyIs(fs.slots, key, k);
    if k < |fs.slots| {
      ClearAllBits(fs.used, fs.slots[k].inode.data);
    }
  }

  lemma RemoveKeepsInv(fs: Fs, key: seq<byte>)
    requires fs.Inv()
    ensures RemoveFs(fs, key).0.Inv()
  {
    RemoveOutcome(fs, key);
    var (fs', ok) := RemoveFs(fs, key);
    if ok {
      var k := FindKey(fs.slots, key);
      forall t | 0 <= t < |fs.used|
        ensures fs'.used[t] <==> fs'.Owned(t)
      {
        OwnedAfterRemove(fs, fs', k, t);
      }
    }
  }

  lemma OwnedAfterRemove(fs: Fs, fs': Fs, k: nat, t: int)
    requires fs.Exclusive() && k < |fs.slots|
    requires fs' == fs.(used := fs'.used, slots := fs.slots[k := Free])
    ensures fs'.Owned(t) <==> fs.Owned(t) && t !in fs.slots[k].Sectors()
  {
    if fs.Owned(t) && t !in fs.SystemSectors() && t !in fs.slots[k].Sectors() {
      var i :| 0 <= i < |fs.slots| && t in fs.slots[i].Sectors();
      assert t in fs'.slots[i].Sectors();
    }
    if fs'.Owned(t) && t !in fs.SystemSectors() {
      var i :| 0 <= i < |fs'.slots| && t in fs'.slots[i].Sectors();
      assert i != k && t in fs.slots[i].Sectors();
    }
  }

  /** `Remove` undoes `Create` exactly: the bitmap, the directory and everything else are as before. */
  lemma RemoveUndoesCreate(fs: Fs, key: seq<byte>, size: nat)
    requires fs.Inv() && size <= MAX_FILE_SIZE && |key| == FILE_NAME_MAX_LEN && CreateFs(fs, key, size).1
    ensures CreateFs(fs, key, size).0.Shape()
    ensures RemoveFs(CreateFs(fs, key, size).0, key) == (fs, true)
  {
    CreateKeepsInv(fs, key, size);
    var fs' := CreateFs(fs, key, size).0;
    var k, file := FreeSlot(fs.slots), NewFile(fs, key, size);
    Created(fs, key, size);
    NewFileOk(fs, key, size);
    FreeSlotIs(fs.slots, k);
    FindKeyIs(fs.slots, key, |fs.slots|);
    FindKeyIs(fs'.slots, key, k);
    RemoveOutcome(fs', key);
    var fs'' := RemoveFs(fs', key).0;
    assert fs''.used == fs.used;
    assert fs''.slots == fs.slots;
  }

  // ---------- the freshly formatted disk ----------

  /** The bitmap with the first `k` sectors in use. */
  function UpTo(k: nat): (bits: seq<bool>)
    ensures |bits| == NUM_SECTORS
  {
    seq(NUM_SECTORS, t => t < k)
  }

  /** Headers in sectors 0 and 1, the free map in sector 2, an empty directory in sectors 3 and 4. */
  function Formatted(): Fs {
    Fs(Inode(FREE_MAP_FILE_SIZE, [2]), Inode(DIRECTORY_FILE_SIZE, [3, 4]), UpTo(5), seq(NUM_DIR_ENTRIES, _ => Free))
  }

  lemma {:induction false} AllClear(bits: seq<bool>)
    requires forall t :: 0 <= t < |bits| ==> !bits[t]
    ensures ClearCount(bits) == |bits|
  {
    if bits != [] { AllClear(bits[..|bits| - 1]); }
  }

  lemma {:induction false} UpToCount(k: nat)
    requires k <= NUM_SECTORS
    ensures ClearCount(UpTo(k)) == NUM_SECTORS - k
    ensures FirstClear(UpTo(k)) == k
  {
    FirstClearIs(UpTo(k), k);
    if k == 0 {
      AllClear(UpTo(0));
    } else {
      UpToCount(k - 1);
      ClearCountUpdate(UpTo(k - 1), k - 1, true);
      assert UpTo(k - 1)[k - 1 := true] == UpTo(k);
    }
  }

  /** The `n` sectors from number `k` on. */
  function Run(k: nat, n: nat): seq<int> {
    seq(n, i => k + i)
  }

  /** First-fit allocation on a disk whose first `k` sectors are in use takes the next ones in order. */
  lemma {:induction false} AllocateRun(k: nat, n: nat)
    requires k + n <= NUM_SECTORS
    ensures n <= ClearCount(UpTo(k))
    ensures Filled(UpTo(k), n) == UpTo(k + n) && Taken(UpTo(k), n) == Run(k, n)
  {
    UpToCount(k);
    if n > 0 {
      AllocateRun(k, n - 1);
      UpToCount(k + n - 1);
    }
  }

  lemma FormattedInv()
    ensures Formatted().Inv()
  {
    var fs := Formatted();
    assert fs.SystemSectors() == [0, 1, 2, 3, 4];
    assert Inode(FREE_MAP_FILE_SIZE, [2]).Ok() && Inode(DIRECTORY_FILE_SIZE, [3, 4]).Ok();
    forall t | 0 <= t < NUM_SECTORS
      ensures fs.used[t] <==> fs.Owned(t)
    {
    }
  }
}
