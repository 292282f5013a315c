/** How a disk image represents a state of the file system: every piece of it is stored on the disk
    itself, the free map and the directory as ordinary files (filesys/filesys.cc). */
module FsImage {
  import opened Bits
  import opened Bitmaps
  import opened SectorDisk
  import opened FileHeaders
  import opened OpenFiles
  import opened Directories
  import opened PersistentBitmaps
  import opened FsModel
  import opened FsInvariant

  /** Directory entry `e` and the header it points to describe `slot`. */
  ghost predicate SlotRep(image: Image, e: Entry, slot: Slot)
    requires slot.Ok()
  {
    match slot
    case Free => !e.inUse
    case File(key, sector, inode) => e.Named(key) && e.sector == sector && ParseHeader(image[sector]).Describes(inode)
  }

  /** The image holds the state `fs`. */
  ghost predicate Rep(image: Image, fs: Fs)
    requires fs.Shape()
  {
    && ParseHeader(image[FREE_MAP_SECTOR]).Describes(fs.freeMap)
    && ParseHeader(image[DIRECTORY_SECTOR]).Describes(fs.directory)
    && Holds(WordsOf(Content(image, fs.freeMap)), fs.used)
    && TableRep(image, EntriesOf(Content(image, fs.directory)), fs.slots)
  }

  ghost predicate TableRep(image: Image, table: seq<Entry>, slots: seq<Slot>)
    requires forall i :: 0 <= i < |slots| ==> slots[i].Ok()
  {
    |table| == |slots| && forall i :: 0 <= i < |slots| ==> SlotRep(image, table[i], slots[i])
  }

  /** An image holds at most one state: nothing about `fs` is free to choose. */
  lemma RepUnique(image: Image, a: Fs, b: Fs)
    requires a.Shape() && b.Shape() && Rep(image, a) && Rep(image, b)
    ensures a == b
  {
    assert a.freeMap == b.freeMap && a.directory == b.directory;
    HoldsUnique(WordsOf(Content(image, a.freeMap)), a.used, b.used);
    var table := EntriesOf(Content(image, a.directory));
    forall i | 0 <= i < NUM_DIR_ENTRIES ensures a.slots[i] == b.slots[i] {
      assert SlotRep(image, table[i], a.slots[i]) && SlotRep(image, table[i], b.slots[i]);
    }
  }

  // ---------- looking things up in the directory ----------

  lemma {:induction false} IndexOfIsFindKey(image: Image, table: seq<Entry>, slots: seq<Slot>, key: seq<byte>)
    requires forall i :: 0 <= i < |slots| ==> slots[i].Ok()
    requires TableRep(image, table, slots)
    ensures IndexOf(table, key) == FindKey(slots, key)
  {
    if slots != [] {
      assert SlotRep(image, table[0], slots[0]);
      IndexOfIsFindKey(image, table[1..], slots[1..], key);
    }
  }

  /** What `Directory::Find` answers on the directory of an image. */
  lemma Lookup(image: Image, table: seq<Entry>, slots: seq<Slot>, key: seq<byte>)
    requires forall i :: 0 <= i < |slots| ==> slots[i].Ok()
    requires TableRep(image, table, slots)
    ensures var k := FindKey(slots, key);
            && IndexOf(table, key) == k
            && (k < |slots| ==>
                && slots[k].Named(key)
                && table[k].sector == slots[k].sector
                && 0 <= slots[k].sector < NUM_SECTORS
                && ParseHeader(image[slots[k].sector]).Describes(slots[k].inode))
  {
    var k := FindKey(slots, key);
    IndexOfIsFindKey(image, table, slots, key);
    FindKeyIs(slots, key, k);
    if k < |slots| {
      assert SlotRep(image, table[k], slots[k]);
    }
  }

  lemma {:induction false} FirstFreeIsFreeSlot(image: Image, table: seq<Entry>, slots: seq<Slot>)
    requires forall i :: 0 <= i < |slots| ==> slots[i].Ok()
    requires TableRep(image, table, slots)
    ensures FirstFree(table) == FreeSlot(slots)
  {
    if slots != [] {
      assert SlotRep(image, table[0], slots[0]);
      FirstFreeIsFreeSlot(image, table[1..], slots[1..]);
    }
  }

  // ---------- what the writes of an operation leave alone ----------

  /** The sectors that rewriting the free map and the directory touches. */
  function Metadata(fs: Fs): seq<int> {
    fs.directory.data + fs.freeMap.data
  }

  /** The files that both states have, in the same slot, keep their contents. */
  ghost predicate SameContents(before: Image, fs: Fs, after: Image, fs': Fs)
    requires fs.Shape() && fs'.Shape()
  {
    forall i :: 0 <= i < NUM_DIR_ENTRIES && fs.slots[i].File? && fs'.slots[i] == fs.slots[i] ==>
      Content(after, fs.slots[i].inode) == Content(before, fs.slots[i].inode)
  }

  /** The headers of the two system files are not among the data sectors of either, and these do
      not overlap. */
  lemma SystemApart(fs: Fs)
    requires fs.Inv()
    ensures FREE_MAP_SECTOR !in Metadata(fs) && DIRECTORY_SECTOR !in Metadata(fs)
    ensures forall t :: t in fs.directory.data ==> t !in fs.freeMap.data
  {
    var s, m := fs.SystemSectors(), |fs.freeMap.data|;
    forall k: nat | k < |fs.directory.data|
      ensures fs.directory.data[k] !in [FREE_MAP_SECTOR, DIRECTORY_SECTOR] && fs.directory.data[k] !in fs.freeMap.data
    {
      DistinctAt(s, 2 + m + k);
      assert s[2 + m + k] == fs.directory.data[k] && s[0] == FREE_MAP_SECTOR && s[1] == DIRECTORY_SECTOR;
      forall j: nat | j < m ensures fs.freeMap.data[j] != fs.directory.data[k] {
        assert s[2 + j] == fs.freeMap.data[j];
      }
    }
    forall k: nat | k < m
      ensures fs.freeMap.data[k] !in [FREE_MAP_SECTOR, DIRECTORY_SECTOR]
    {
      DistinctAt(s, 2 + k);
      assert s[2 + k] == fs.freeMap.data[k] && s[0] == FREE_MAP_SECTOR && s[1] == DIRECTORY_SECTOR;
    }
  }

  /** No file owns a sector of the free map or the directory. */
  lemma FilesApart(fs: Fs, i: nat, t: int)
    requires fs.Inv() && i < |fs.slots| && t in fs.slots[i].Sectors()
    ensures t !in Metadata(fs) && t != FREE_MAP_SECTOR && t != DIRECTORY_SECTOR
  {
    assert Disjoint(fs.SystemSectors(), fs.slots[i].Sectors());
    assert t !in fs.SystemSectors();
  }

  /** Writing only to metadata and to sectors that no one owned leaves every file's header and
      contents alone. */
  lemma FileUntouched(before: Image, after: Image, fs: Fs, fresh_: seq<int>, i: nat)
    requires fs.Inv() && i < |fs.slots| && fs.slots[i].File?
    requires SameOutside(before, after, fresh_ + Metadata(fs))
    requires forall t :: t in fresh_ ==> !fs.Owned(t)
    ensures after[fs.slots[i].sector] == before[fs.slots[i].sector]
    ensures Content(after, fs.slots[i].inode) == Content(before, fs.slots[i].inode)
  {
    forall t | t in fs.slots[i].Sectors() ensures t !in fresh_ + Metadata(fs) {
      FilesApart(fs, i, t);
      assert fs.Owned(t);
    }
    assert fs.slots[i].sector in fs.slots[i].Sectors();
    ContentFrame(before, after, fresh_ + Metadata(fs), fs.slots[i].inode);
  }

  /** After the new free map and directory have been written, and any new header to a sector that was
      free, the image holds the new state and all surviving files have kept their contents. */
  lemma Rewritten(before: Image, fs: Fs, after: Image, fs': Fs, fresh_: seq<int>, k: nat)
    requires fs.Inv() && Rep(before, fs) && fs'.Shape() && k < NUM_DIR_ENTRIES
    requires fs'.freeMap == fs.freeMap && fs'.directory == fs.directory
    requires SameOutside(before, after, fresh_ + Metadata(fs))
    requires forall t :: t in fresh_ ==> !fs.Owned(t)
    requires Holds(WordsOf(Content(after, fs.freeMap)), fs'.used)
    requires var table, table' := EntriesOf(Content(before, fs.directory)), EntriesOf(Content(after, fs.directory));
             && (forall i :: 0 <= i < NUM_DIR_ENTRIES && i != k ==>
               table'[i] == table[i] && fs'.slots[i] == fs.slots[i])
             && SlotRep(after, table'[k], fs'.slots[k])
    ensures Rep(after, fs') && SameContents(before, fs, after, fs')
  {
    SystemApart(fs);
    assert fs.Owned(FREE_MAP_SECTOR) && fs.Owned(DIRECTORY_SECTOR);
    var table, table' := EntriesOf(Content(before, fs.directory)), EntriesOf(Content(after, fs.directory));
    forall i | 0 <= i < NUM_DIR_ENTRIES
      ensures SlotRep(after, table'[i], fs'.slots[i])
      ensures fs.slots[i].File? ==> Content(after, fs.slots[i].inode) == Content(before, fs.slots[i].inode)
    {
      assert SlotRep(before, table[i], fs.slots[i]);
      if fs.slots[i].File? {
        FileUntouched(before, after, fs, fresh_, i);
      }
    }
  }

  /** Writing to one file leaves the state and all other files as they are. */
  lemma WriteKeepsRep(before: Image, fs: Fs, after: Image, k: nat)
    requires fs.Inv() && Rep(before, fs) && k < NUM_DIR_ENTRIES && fs.slots[k].File?
    requires SameOutside(before, after, fs.slots[k].inode.data)
    ensures Rep(after, fs)
    ensures forall i :: 0 <= i < NUM_DIR_ENTRIES && i != k && fs.slots[i].File? ==>
      Content(after, fs.slots[i].inode) == Content(before, fs.slots[i].inode)
  {
    var data := fs.slots[k].inode.data;
    forall t | t in data ensures t !in fs.SystemSectors() {
      assert t in fs.slots[k].Sectors();
      assert Disjoint(fs.SystemSectors(), fs.slots[k].Sectors());
    }
    assert FREE_MAP_SECTOR in fs.SystemSectors() && DIRECTORY_SECTOR in fs.SystemSectors();
    ContentFrame(before, after, data, fs.freeMap);
    ContentFrame(before, after, data, fs.directory);
    var table := EntriesOf(Content(before, fs.directory));
    forall i | 0 <= i < NUM_DIR_ENTRIES
      ensures SlotRep(after, table[i], fs.slots[i])
      ensures i != k && fs.slots[i].File? ==> Content(after, fs.slots[i].inode) == Content(before, fs.slots[i].inode)
    {
      assert SlotRep(before, table[i], fs.slots[i]);
      if fs.slots[i].File? {
        OtherFileUntouched(before, after, fs, k, i);
      }
    }
  }

  lemma OtherFileUntouched(before: Image, after: Image, fs: Fs, k: nat, i: nat)
    requires fs.Inv() && k < |fs.slots| && i < |fs.slots| && fs.slots[k].File? && fs.slots[i].File?
    requires SameOutside(before, after, fs.slots[k].inode.data)
    ensures after[fs.slots[i].sector] == before[fs.slots[i].sector]
    ensures i != k ==> Content(after, fs.slots[i].inode) == Content(before, fs.slots[i].inode)
  {
    var data, s := fs.slots[k].inode.data, fs.slots[i].sector;
    assert s in fs.slots[i].Sectors();
    if i == k {
      DistinctAt(fs.slots[k].Sectors(), 0);
      forall j: nat | j < |data| ensures data[j] != s {
        assert fs.slots[k].Sectors()[j + 1] == data[j];
      }
    } else {
      if i < k {
        assert Disjoint(fs.slots[i].Sectors(), fs.slots[k].Sectors());
      } else {
        assert Disjoint(fs.slots[k].Sectors(), fs.slots[i].Sectors());
      }
      assert forall t :: t in data ==> t in fs.slots[k].Sectors();
      ContentFrame(before, after, data, fs.slots[i].inode);
    }
  }

  /** `table` is the directory on the image plus an entry for a new file. */
  ghost predicate NewEntry(image: Image, fs: Fs, table: seq<Entry>, key: seq<byte>, sector: int)
    requires fs.Shape()
  {
    var k := FreeSlot(fs.slots);
    && k < NUM_DIR_ENTRIES == |table|
    && table[k].Named(key) && table[k].sector == sector
    && table == EntriesOf(Content(image, fs.directory))[k := table[k]]
  }

  /** Two files written one after the other. */
  lemma WrittenInTurn(before: Image, mid: Image, after: Image, a: Inode, b: Inode)
    requires a.Ok() && b.Ok() && SameOutside(before, mid, a.data) && SameOutside(mid, after, b.data)
    requires forall t :: t in a.data ==> t !in b.data
    ensures SameOutside(before, after, a.data + b.data)
    ensures Content(after, a) == Content(mid, a)
  {
    ContentFrame(mid, after, b.data, a);
  }

  /** The three writes of a successful `Create` - header, directory, free map - leave the image with
      the created state on it, and every other file as it was. */
  lemma Committed(before: Image, fs: Fs, one: Image, two: Image, after: Image,
                  h: Header, table: seq<Entry>, key: seq<byte>, size: nat)
    requires fs.Inv() && Rep(before, fs) && size <= MAX_FILE_SIZE && |key| == FILE_NAME_MAX_LEN
    requires CreateFs(fs, key, size).1
    requires h.Describes(NewFile(fs, key, size).inode)
    requires NewEntry(before, fs, table, key, NewFile(fs, key, size).sector)
    requires 0 <= NewFile(fs, key, size).sector < NUM_SECTORS
    requires one == before[NewFile(fs, key, size).sector := HeaderBytes(h)]
    requires SameOutside(one, two, fs.directory.data) && EntriesOf(Content(two, fs.directory)) == table
    requires SameOutside(two, after, fs.freeMap.data)
    requires Holds(WordsOf(Content(after, fs.freeMap)), CreateFs(fs, key, size).0.used)
    ensures var fs' := CreateFs(fs, key, size).0;
            fs'.Inv() && Rep(after, fs') && SameContents(before, fs, after, fs')
  {
    CreateKeepsInv(fs, key, size);
    Created(fs, key, size);
    NewFileOk(fs, key, size);
    FreeSlotIs(fs.slots, FreeSlot(fs.slots));
    assert NewFile(fs, key, size).sector in NewFile(fs, key, size).Sectors();
    CommittedImage(before, fs, one, two, after, h, table,
                   CreateFs(fs, key, size).0, FreeSlot(fs.slots), NewFile(fs, key, size));
  }

  /** The three writes put `file` into slot `k` if its header sector was free. */
  lemma CommittedImage(before: Image, fs: Fs, one: Image, two: Image, after: Image,
                       h: Header, table: seq<Entry>, fs': Fs, k: nat, file: Slot)
    requires fs.Inv() && Rep(before, fs) && fs'.Shape() && k < NUM_DIR_ENTRIES && file.File? && file.Ok()
    requires fs' == fs.(used := fs'.used, slots := fs.slots[k := file])
    requires fs.slots[k].Free? && !fs.Owned(file.sector) && h.Describes(file.inode)
    requires |table| == NUM_DIR_ENTRIES && table[k].Named(file.key) && table[k].sector == file.sector
    requires table == EntriesOf(Content(before, fs.directory))[k := table[k]]
    requires one == before[file.sector := HeaderBytes(h)]
    requires SameOutside(one, two, fs.directory.data) && EntriesOf(Content(two, fs.directory)) == table
    requires SameOutside(two, after, fs.freeMap.data)
    requires Holds(WordsOf(Content(after, fs.freeMap)), fs'.used)
    ensures Rep(after, fs') && SameContents(before, fs, after, fs')
  {
    HeaderWritten(before, fs, one, two, after, HeaderBytes(h), file.sector);
    HeaderRoundTrip(h);
    Rewritten(before, fs, after, fs', [file.sector], k);
  }

  /** A header written to a free sector survives the two writes after it. */
  lemma HeaderWritten(before: Image, fs: Fs, one: Image, two: Image, after: Image, bytes: Sector, sector: nat)
    requires fs.Inv() && sector < NUM_SECTORS && !fs.Owned(sector)
    requires one == before[sector := bytes]
    requires SameOutside(one, two, fs.directory.data) && SameOutside(two, after, fs.freeMap.data)
    ensures after[sector] == bytes && SameOutside(before, after, [sector] + Metadata(fs))
    ensures Content(after, fs.directory) == Content(two, fs.directory)
  {
    SystemApart(fs);
    WrittenInTurn(one, two, after, fs.directory, fs.freeMap);
    assert sector !in fs.SystemSectors();
  }

  /** The two writes of a successful `Remove` - free map, directory - leave the image with slot `k`
      empty, and every other file as it was. */
  lemma Removed(before: Image, fs: Fs, one: Image, after: Image, table: seq<Entry>, fs': Fs, k: nat)
    requires fs.Inv() && Rep(before, fs) && fs'.Shape() && k < NUM_DIR_ENTRIES
    requires fs' == fs.(used := fs'.used, slots := fs.slots[k := Free])
    requires |table| == NUM_DIR_ENTRIES && !table[k].inUse
    requires table == EntriesOf(Content(before, fs.directory))[k := table[k]]
    requires SameOutside(before, one, fs.freeMap.data)
    requires Holds(WordsOf(Content(one, fs.freeMap)), fs'.used)
    requires SameOutside(one, after, fs.directory.data) && EntriesOf(Content(after, fs.directory)) == table
    ensures Rep(after, fs') && SameContents(before, fs, after, fs')
  {
    SystemApart(fs);
    WrittenInTurn(before, one, after, fs.freeMap, fs.directory);
    Rewritten(before, fs, after, fs', [], k);
  }

  /** Every sector of a file is marked in the free map, so deallocating it meets no clear bit. */
  lemma FileMarked(fs: Fs, k: nat)
    requires fs.Inv() && k < |fs.slots| && fs.slots[k].File?
    ensures var f := fs.slots[k].inode;
            && Distinct(f.data)
            && forall i :: 0 <= i < |f.data| ==> 0 <= f.data[i] < NUM_SECTORS && fs.used[f.data[i]]
  {
    var f := fs.slots[k].inode;
    forall i | 0 <= i < |f.data| ensures fs.used[f.data[i]] {
      assert f.data[i] in fs.slots[k].Sectors();
      assert fs.Owned(f.data[i]);
    }
  }

  /** The headers of the two system files as the format writes them. */
  ghost predicate HeadersOn(image: Image) {
    && ParseHeader(image[FREE_MAP_SECTOR]).Describes(Formatted().freeMap)
    && ParseHeader(image[DIRECTORY_SECTOR]).Describes(Formatted().directory)
  }

  /** What the format leaves on the disk is the empty file system. */
  lemma FormattedRep(one: Image, two: Image, after: Image, table: seq<Entry>)
    requires Formatted().Inv() && HeadersOn(one)
    requires SameOutside(one, two, Formatted().freeMap.data)
    requires Holds(WordsOf(Content(two, Formatted().freeMap)), Formatted().used)
    requires SameOutside(two, after, Formatted().directory.data)
    requires EntriesOf(Content(after, Formatted().directory)) == table
    requires forall i :: 0 <= i < |table| ==> !table[i].inUse
    ensures Rep(after, Formatted())
  {
    SystemApart(Formatted());
    ContentFrame(two, after, Formatted().directory.data, Formatted().freeMap);
  }
}
