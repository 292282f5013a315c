/** filesys/directory.cc: a fixed table of (name, header sector) entries. */
module Directories {
  import opened Bits
  import opened SectorDisk
  import opened FileHeaders
  import opened OpenFiles

  const NUM_DIR_ENTRIES := 10
  const FILE_NAME_MAX_LEN := 9
  /** `sizeof(DirectoryEntry)`: a flag, an int and ten characters, each aligned. */
  const ENTRY_SIZE := 20

  /** A character of the C string held in `s`; the end of `s` stands for the terminating NUL. */
  function CharAt(s: seq<byte>, i: nat): byte {
    if i < |s| then s[i] else 0
  }

  /** `strncmp(a, b, n) == 0`. */
  predicate StrnEq(a: seq<byte>, b: seq<byte>, n: nat)
    decreases n, a, b
  {
    if n == 0 then true
    else if CharAt(a, 0) != CharAt(b, 0) then false
    else if CharAt(a, 0) == 0 then true
    else StrnEq(a[1..], b[1..], n - 1)
  }

  /** What `strncpy(_, s, n)` stores: the string cut to `n` characters or padded with NULs. */
  function StrnCpy(s: seq<byte>, n: nat): (r: seq<byte>)
    ensures |r| == n
    decreases n, s
  {
    if n == 0 then []
    else if CharAt(s, 0) == 0 then seq(n, _ => 0)
    else [s[0]] + StrnCpy(s[1..], n - 1)
  }

  /** Two names are the same to `strncmp` exactly when `strncpy` stores the same characters. */
  lemma {:induction false} SameNameIffSameCopy(a: seq<byte>, b: seq<byte>, n: nat)
    ensures StrnEq(a, b, n) <==> StrnCpy(a, n) == StrnCpy(b, n)
    decreases n
  {
    if n > 0 {
      assert StrnCpy(a, n)[0] == CharAt(a, 0) && StrnCpy(b, n)[0] == CharAt(b, 0);
      if CharAt(a, 0) == CharAt(b, 0) != 0 {
        SameNameIffSameCopy(a[1..], b[1..], n - 1);
        assert StrnCpy(a, n)[1..] == StrnCpy(a[1..], n - 1);
        assert StrnCpy(b, n)[1..] == StrnCpy(b[1..], n - 1);
      }
    }
  }

  /** Copying a stored name again changes nothing, whatever byte follows it. */
  lemma {:induction false} CopyTwice(s: seq<byte>, n: nat, rest: seq<byte>)
    ensures StrnCpy(StrnCpy(s, n) + rest, n) == StrnCpy(s, n)
    decreases n
  {
    if n > 0 && CharAt(s, 0) != 0 {
      CopyTwice(s[1..], n - 1, rest);
      assert (StrnCpy(s, n) + rest)[1..] == StrnCpy(s[1..], n - 1) + rest;
    }
  }

  /** What identifies a file: the first nine characters of its name. */
  function Key(name: seq<byte>): (k: seq<byte>)
    ensures |k| == FILE_NAME_MAX_LEN == 9
  {
    StrnCpy(name, FILE_NAME_MAX_LEN)
  }

  /** A stored name has the key of the name it was stored from. */
  lemma StoredKey(name: seq<byte>, last: byte)
    ensures Key(Key(name) + [last]) == Key(name)
  {
    CopyTwice(name, FILE_NAME_MAX_LEN, [last]);
  }

  datatype Entry = Entry(inUse: bool, sector: int32, name: seq<byte>) {
    ghost predicate Named(key: seq<byte>) {
      inUse && Key(name) == key
    }
  }

  /** The entry that starts at byte `20 * i` of a directory file. */
  ghost function EntryAt(c: seq<byte>, i: nat): Entry
    requires ENTRY_SIZE * i + ENTRY_SIZE <= |c|
  {
    Entry(c[ENTRY_SIZE * i] != 0, IntAt(c, 5 * i + 1), c[ENTRY_SIZE * i + 8..ENTRY_SIZE * i + 18])
  }

  /** The bytes at `20 * i` hold entry `e`; the padding bytes between its fields are anything. */
  ghost predicate Stored(c: seq<byte>, i: nat, e: Entry)
    requires ENTRY_SIZE * i + ENTRY_SIZE <= |c|
  {
    && c[ENTRY_SIZE * i] == (if e.inUse then 1 else 0)
    && c[ENTRY_SIZE * i + 4..ENTRY_SIZE * i + 8] == BytesOf(ToWord(e.sector))
    && c[ENTRY_SIZE * i + 8..ENTRY_SIZE * i + 18] == e.name
  }

  lemma StoredEntry(c: seq<byte>, i: nat, e: Entry)
    requires ENTRY_SIZE * i + ENTRY_SIZE <= |c| && Stored(c, i, e)
    ensures EntryAt(c, i) == e
  {
    assert 4 * (5 * i + 1) == ENTRY_SIZE * i + 4;
    WordRoundTrip(ToWord(e.sector));
  }

  lemma SameEntry(a: seq<byte>, b: seq<byte>, i: nat)
    requires |a| == |b| && ENTRY_SIZE * i + ENTRY_SIZE <= |a|
    requires forall k :: ENTRY_SIZE * i <= k < ENTRY_SIZE * i + ENTRY_SIZE ==> a[k] == b[k]
    ensures EntryAt(a, i) == EntryAt(b, i)
  {
    SameSlice(a, b, ENTRY_SIZE * i + 4, ENTRY_SIZE * i + 8);
    SameSlice(a, b, ENTRY_SIZE * i + 8, ENTRY_SIZE * i + 18);
    assert 4 * (5 * i + 1) == ENTRY_SIZE * i + 4;
  }

  lemma SameSlice(a: seq<byte>, b: seq<byte>, i: nat, j: nat)
    requires i <= j <= |a| == |b| && forall k :: i <= k < j ==> a[k] == b[k]
    ensures a[i..j] == b[i..j]
  {
  }

  /** All entries of a directory file. */
  ghost function EntriesOf(c: seq<byte>): (t: seq<Entry>)
    requires |c| == ENTRY_SIZE * NUM_DIR_ENTRIES
    ensures |t| == NUM_DIR_ENTRIES
  {
    seq(NUM_DIR_ENTRIES, i requires 0 <= i < NUM_DIR_ENTRIES => EntryAt(c, i))
  }

  /** The first entry in use under `key`; `|t|` if there is none. */
  ghost function IndexOf(t: seq<Entry>, key: seq<byte>): (k: nat)
    ensures k <= |t|
  {
    if t == [] || t[0].Named(key) then 0 else 1 + IndexOf(t[1..], key)
  }

  lemma {:induction false} IndexOfIs(t: seq<Entry>, key: seq<byte>, k: nat)
    requires k <= |t|
    ensures IndexOf(t, key) == k <==>
              (k < |t| ==> t[k].Named(key)) && (forall i :: 0 <= i < k ==> !t[i].Named(key))
  {
    if t != [] && !t[0].Named(key) && k > 0 {
      IndexOfIs(t[1..], key, k - 1);
      assert forall i :: 1 <= i < k ==> t[i] == t[1..][i - 1];
    }
  }

  /** The first entry not in use; `|t|` if there is none. */
  ghost function FirstFree(t: seq<Entry>): (k: nat)
    ensures k <= |t|
  {
    if t == [] || !t[0].inUse then 0 else 1 + FirstFree(t[1..])
  }

  lemma {:induction false} FirstFreeIs(t: seq<Entry>, k: nat)
    requires k <= |t|
    ensures FirstFree(t) == k <==> (k < |t| ==> !t[k].inUse) && (forall i :: 0 <= i < k ==> t[i].inUse)
  {
    if t != [] && t[0].inUse && k > 0 {
      FirstFreeIs(t[1..], k - 1);
      assert forall i :: 1 <= i < k ==> t[i] == t[1..][i - 1];
    }
  }

  class Directory {
    const table: array<Entry>

    ghost predicate Valid()
      reads this, table
    {
      && table.Length == NUM_DIR_ENTRIES
      && forall i :: 0 <= i < table.Length ==> |table[i].name| == FILE_NAME_MAX_LEN + 1
    }

    /** Every entry is free; its other fields are left as they come. */
    constructor ()
      ensures Valid() && fresh(table)
      ensures forall i :: 0 <= i < NUM_DIR_ENTRIES ==> !table[i].inUse
    {
      var garbage: Entry :| |garbage.name| == FILE_NAME_MAX_LEN + 1 by {
        assert |Entry(true, 0, seq(FILE_NAME_MAX_LEN + 1, _ => 0)).name| == FILE_NAME_MAX_LEN + 1;
      }
      table := new Entry[NUM_DIR_ENTRIES](_ => garbage);
      new;
      for i := 0 to NUM_DIR_ENTRIES
        invariant Valid() && forall j :: 0 <= j < i ==> !table[j].inUse
      {
        table[i] := table[i].(inUse := false);
      }
    }

    method FetchFrom(disk: Disk, file: OpenFile)
      requires Valid() && file.Valid() && file.file.size == ENTRY_SIZE * NUM_DIR_ENTRIES
      modifies table
      ensures Valid() && table[..] == EntriesOf(Content(disk.image, file.file))
    {
      var raw := new byte[ENTRY_SIZE * NUM_DIR_ENTRIES];
      var n := file.ReadAt(disk, raw, 0, ENTRY_SIZE * NUM_DIR_ENTRIES, 0);
      var c := raw[..];
      assert c == Content(disk.image, file.file);
      ParseTable(c);
    }

    /** The bytes of a directory file, read as the table. */
    method ParseTable(c: seq<byte>)
      requires Valid() && |c| == ENTRY_SIZE * NUM_DIR_ENTRIES
      modifies table
      ensures Valid() && table[..] == EntriesOf(c)
    {
      for i := 0 to NUM_DIR_ENTRIES
        invariant Valid() && forall j :: 0 <= j < i ==> table[j] == EntryAt(c, j)
      {
        table[i] := Entry(c[ENTRY_SIZE * i] != 0, IntAt(c, 5 * i + 1), c[ENTRY_SIZE * i + 8..ENTRY_SIZE * i + 18]);
      }
    }

    method WriteBack(disk: Disk, file: OpenFile)
      requires Valid() && file.Valid() && file.file.size == ENTRY_SIZE * NUM_DIR_ENTRIES
      modifies disk
      ensures Valid() && file.Valid()
      ensures EntriesOf(Content(disk.image, file.file)) == table[..]
      ensures SameOutside(old(disk.image), disk.image, file.file.data)
    {
      var raw := StoreTable();
      var n := file.WriteAt(disk, raw, ENTRY_SIZE * NUM_DIR_ENTRIES, 0);
      assert Content(disk.image, file.file) == raw[..];
    }

    /** The table as it lies in memory. */
    method StoreTable() returns (raw: array<byte>)
      requires Valid()
      ensures fresh(raw) && raw.Length == ENTRY_SIZE * NUM_DIR_ENTRIES && EntriesOf(raw[..]) == table[..]
    {
      raw := new byte[ENTRY_SIZE * NUM_DIR_ENTRIES];
      for i := 0 to NUM_DIR_ENTRIES
        invariant forall j :: 0 <= j < i ==> EntryAt(raw[..], j) == table[j]
      {
        ghost var before := raw[..];
        StoreEntry(raw, i, table[i]);
        forall j | 0 <= j < i
          ensures EntryAt(raw[..], j) == table[j]
        {
          SameEntry(before, raw[..], j);
        }
      }
    }

    /** One entry of the table as it lies in memory. */
    method StoreEntry(raw: array<byte>, i: nat, e: Entry)
      requires i < NUM_DIR_ENTRIES && raw.Length == ENTRY_SIZE * NUM_DIR_ENTRIES
      requires |e.name| == FILE_NAME_MAX_LEN + 1
      modifies raw
      ensures EntryAt(raw[..], i) == e
      // the flag, the sector and the name, each where the compiler aligns it
      ensures raw[20 * i] == if e.inUse then 1 else 0
      ensures raw[..][20 * i + 4..20 * i + 8] == BytesOf(ToWord(e.sector))
      ensures raw[..][20 * i + 8..20 * i + 18] == e.name
      ensures forall k :: 0 <= k < raw.Length && !(ENTRY_SIZE * i <= k < ENTRY_SIZE * i + ENTRY_SIZE) ==>
        raw[k] == old(raw[k])
    {
      raw[ENTRY_SIZE * i] := if e.inUse then 1 else 0;
      forall k | 0 <= k < 4 {
        raw[ENTRY_SIZE * i + 4 + k] := ByteOf(ToWord(e.sector), k);
      }
      forall k | 0 <= k < FILE_NAME_MAX_LEN + 1 {
        raw[ENTRY_SIZE * i + 8 + k] := e.name[k];
      }
      StoredEntry(raw[..], i, e);
    }

    /** The place of `name` in the table, or -1. */
    method FindIndex(name: seq<byte>) returns (k: int)
      requires Valid()
      ensures var i := IndexOf(table[..], Key(name)); k == if i < NUM_DIR_ENTRIES then i else -1
    {
      ghost var key := Key(name);
      for i := 0 to NUM_DIR_ENTRIES
        invariant forall j :: 0 <= j < i ==> !table[j].Named(key)
      {
        SameNameIffSameCopy(table[i].name, name, FILE_NAME_MAX_LEN);
        if table[i].inUse && StrnEq(table[i].name, name, FILE_NAME_MAX_LEN) {
          IndexOfIs(table[..], key, i);
          return i;
        }
      }
      IndexOfIs(table[..], key, NUM_DIR_ENTRIES);
      return -1;
    }

    /** The header sector of `name`, or -1. */
    method Find(name: seq<byte>) returns (sector: int)
      requires Valid()
      ensures var i := IndexOf(table[..], Key(name)); sector == if i < NUM_DIR_ENTRIES then table[i].sector else -1
    {
      var i := FindIndex(name);
      if i != -1 {
        return table[i].sector;
      }
      return -1;
    }

    /** Puts `name` in the first free entry; fails if the name is there or no entry is free. */
    method Add(name: seq<byte>, newSector: int32) returns (ok: bool)
      requires Valid()
      modifies table
      ensures Valid()
      ensures ok == (&& IndexOf(old(table[..]), Key(name)) == NUM_DIR_ENTRIES
                     && FirstFree(old(table[..])) < NUM_DIR_ENTRIES)
      ensures ok ==>
        var k := FirstFree(old(table[..]));
        table[..] == old(table[..])[k := Entry(true, newSector, Key(name) + [old(table[k]).name[FILE_NAME_MAX_LEN]])]
      ensures !ok ==> table[..] == old(table[..])
    {
      var found := FindIndex(name);
      if found != -1 {
        return false;
      }
      for i := 0 to NUM_DIR_ENTRIES
        invariant table[..] == old(table[..])
        invariant forall j :: 0 <= j < i ==> table[j].inUse
      {
        if !table[i].inUse {
          FirstFreeIs(table[..], i);
          table[i] := Entry(true, newSector, Key(name) + [table[i].name[FILE_NAME_MAX_LEN]]);
          return true;
        }
      }
      FirstFreeIs(table[..], NUM_DIR_ENTRIES);
      return false;
    }

    /** Frees the entry of `name`. */
    method Remove(name: seq<byte>) returns (ok: bool)
      requires Valid()
      modifies table
      ensures Valid()
      ensures var i := IndexOf(old(table[..]), Key(name));
              ok == (i < NUM_DIR_ENTRIES) &&
              table[..] == if ok then old(table[..])[i := old(table[i]).(inUse := false)] else old(table[..])
    {
      var i := FindIndex(name);
      if i == -1 {
        return false;
      }
      table[i] := table[i].(inUse := false);
      return true;
    }
  }
}
