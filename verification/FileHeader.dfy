/** filesys/filehdr.cc: the i-node of a file, kept in one sector: its length in bytes, its
    length in sectors, and the table of the sectors that hold its data. */
module FileHeaders {
  import opened Bits
  import opened Bitmaps
  import opened SectorDisk

  const NUM_DIRECT := 30
  const MAX_FILE_SIZE := NUM_DIRECT * SECTOR_SIZE

  /** The number of sectors that `n` bytes take up. */
  function SectorsFor(n: nat): nat {
    n / SECTOR_SIZE + (if n % SECTOR_SIZE > 0 then 1 else 0)
  }

  /** A file as the file system means it: its length and its data sectors in order. */
  datatype Inode = Inode(size: nat, data: seq<int>) {
    ghost predicate Ok() {
      && size <= MAX_FILE_SIZE
      // no more sectors than it takes
      && SECTOR_SIZE * |data| - SECTOR_SIZE < size <= SECTOR_SIZE * |data|
      && (forall i :: 0 <= i < |data| ==> 0 <= data[i] < NUM_SECTORS)
      && Distinct(data)
    }
  }

  function Nth(s: seq<int>, i: nat): int
    requires i < |s|
  {
    s[i]
  }

  /** No value occurs twice. */
  ghost predicate Distinct(s: seq<int>) {
    forall i, j :: 0 <= i < j < |s| ==> Nth(s, i) != Nth(s, j)
  }

  lemma DistinctAt(s: seq<int>, k: nat)
    requires Distinct(s) && k < |s|
    ensures forall i :: 0 <= i < |s| && i != k ==> s[i] != s[k]
  {
    forall i | 0 <= i < |s| && i != k ensures s[i] != s[k] {
      assert Nth(s, if i < k then i else k) != Nth(s, if i < k then k else i);
    }
  }

  /** A header as it lies in its sector: 32 two's-complement words. */
  datatype Header = Header(numBytes: int32, numSectors: int32, dataSectors: seq<int32>) {
    predicate Ok() {
      |dataSectors| == NUM_DIRECT
    }

    predicate Describes(f: Inode) {
      && Ok()
      && numBytes == f.size
      && numSectors == |f.data| <= NUM_DIRECT
      && dataSectors[..|f.data|] == f.data
    }

    function Field(k: nat): int32
      requires Ok() && k < SECTOR_SIZE / 4
    {
      if k == 0 then numBytes else if k == 1 then numSectors else dataSectors[k - 2]
    }
  }

  /** The `k`th word of a byte sequence, read as a C `int`. */
  function IntAt(s: seq<byte>, k: nat): int32
    requires 4 * k + 4 <= |s|
  {
    ToInt(WordOf(s[4 * k..4 * k + 4]))
  }

  /** The bytes of a header in memory. */
  function HeaderBytes(h: Header): Sector
    requires h.Ok()
  {
    seq(SECTOR_SIZE, i requires 0 <= i < SECTOR_SIZE => ByteOf(ToWord(h.Field(i / 4)), i % 4))
  }

  function ParseHeader(s: Sector): (h: Header)
    ensures h.Ok()
  {
    Header(IntAt(s, 0), IntAt(s, 1), seq(NUM_DIRECT, i requires 0 <= i < NUM_DIRECT => IntAt(s, 2 + i)))
  }

  /** Where the fields lie: the length in bytes first, the number of sectors after it, then the table. */
  lemma HeaderLayout(h: Header, k: nat)
    requires h.Ok() && k < 30
    ensures HeaderBytes(h)[0..4] == BytesOf(ToWord(h.numBytes))
    ensures HeaderBytes(h)[4..8] == BytesOf(ToWord(h.numSectors))
    ensures HeaderBytes(h)[8 + 4 * k..12 + 4 * k] == BytesOf(ToWord(h.dataSectors[k]))
  {
    FieldBytes(h, 0);
    FieldBytes(h, 1);
    FieldBytes(h, k + 2);
  }

  lemma FieldBytes(h: Header, k: nat)
    requires h.Ok() && k < SECTOR_SIZE / 4
    ensures HeaderBytes(h)[4 * k..4 * k + 4] == BytesOf(ToWord(h.Field(k)))
  {
  }

  /** A header survives the trip through its sector. */
  lemma HeaderRoundTrip(h: Header)
    requires h.Ok()
    ensures ParseHeader(HeaderBytes(h)) == h
  {
    forall k: nat | k < SECTOR_SIZE / 4
      ensures IntAt(HeaderBytes(h), k) == h.Field(k)
    {
      HeaderFieldRoundTrip(h, k);
    }
    assert ParseHeader(HeaderBytes(h)).dataSectors == h.dataSectors;
  }

  lemma HeaderFieldRoundTrip(h: Header, k: nat)
    requires h.Ok() && k < SECTOR_SIZE / 4
    ensures IntAt(HeaderBytes(h), k) == h.Field(k)
  {
    var w := ToWord(h.Field(k));
    FieldBytes(h, k);
    WordRoundTrip(w);
  }

  /** The bitmap after the first clear bit has been set `n` times over. */
  function Filled(bits: seq<bool>, n: nat): (r: seq<bool>)
    ensures |r| == |bits|
  {
    if n == 0 then bits
    else
      var r := Filled(bits, n - 1);
      var k := FirstClear(r);
      if k < |r| then r[k := true] else r
  }

  /** The sectors that first-fit allocation of `n` sectors hands out, in order. */
  function Taken(bits: seq<bool>, n: nat): (data: seq<int>)
    ensures |data| == n
  {
    if n == 0 then [] else Taken(bits, n - 1) + [FirstClear(Filled(bits, n - 1))]
  }

  /** Each of the first `ClearCount(bits)` allocations finds a clear bit and uses it up. */
  lemma {:induction false} FilledCount(bits: seq<bool>, n: nat)
    requires n <= ClearCount(bits)
    ensures ClearCount(Filled(bits, n)) == ClearCount(bits) - n
    ensures n < ClearCount(bits) ==> FirstClear(Filled(bits, n)) < |bits|
  {
    if n > 0 {
      FilledCount(bits, n - 1);
      var r := Filled(bits, n - 1);
      FirstClearIs(r, FirstClear(r));
      ClearCountUpdate(r, FirstClear(r), true);
    }
    FoundIffClear(Filled(bits, n));
  }

  /** Clears the bit of every sector in `data`. */
  function ClearAll(bits: seq<bool>, data: seq<int>): (r: seq<bool>)
    requires forall i :: 0 <= i < |data| ==> 0 <= data[i] < |bits|
    ensures |r| == |bits|
  {
    if data == [] then bits else ClearAll(bits, data[..|data| - 1])[data[|data| - 1] := false]
  }

  class FileHeader {
    var numBytes: int32
    var numSectors: int32
    var dataSectors: seq<int32>

    constructor ()
      ensures Valid()
    {
      var garbage: seq<int32> :| |garbage| == NUM_DIRECT by { assert |seq(NUM_DIRECT, _ => 0 as int32)| == NUM_DIRECT; }
      dataSectors := garbage;
    }

    ghost predicate Valid()
      reads this
    {
      |dataSectors| == NUM_DIRECT
    }

    ghost function Contents(): (h: Header)
      requires Valid()
      reads this
      ensures h.Ok()
    {
      Header(numBytes, numSectors, dataSectors)
    }

    method Allocate(freeMap: Bitmap, fileSize: nat) returns (ok: bool)
      requires Valid() && freeMap.Valid() && freeMap.numBits <= 0x8000_0000
      requires fileSize <= MAX_FILE_SIZE
      modifies this, freeMap, freeMap.words
      ensures freeMap.Valid()
      ensures Valid()
      ensures var before := old(freeMap.bits); var n := SectorsFor(fileSize);
              if ClearCount(before) < n then !ok && freeMap.bits == before
              else ok && freeMap.bits == Filled(before, n)
                   && Contents().Describes(Inode(fileSize, Taken(before, n)))
    {
      numBytes := fileSize;
      numSectors := fileSize / SECTOR_SIZE + (if fileSize % SECTOR_SIZE > 0 then 1 else 0);
      var clear := freeMap.NumClear();
      if clear < numSectors {
        return false;
      }
      TakeSectors(freeMap);
      return true;
    }

    /** The loop of `Allocate`: fills the sector table, taking free sectors in order. */
    method TakeSectors(freeMap: Bitmap)
      requires Valid() && freeMap.Valid() && freeMap.numBits <= 0x8000_0000
      requires 0 <= numSectors <= NUM_DIRECT && numSectors <= ClearCount(freeMap.bits)
      modifies `dataSectors, freeMap, freeMap.words
      ensures Valid() && freeMap.Valid()
      ensures freeMap.bits == Filled(old(freeMap.bits), numSectors)
      ensures dataSectors[..numSectors] == Taken(old(freeMap.bits), numSectors)
    {
      ghost var before := freeMap.bits;
      for i := 0 to numSectors
        invariant Valid() && freeMap.Valid()
        invariant freeMap.bits == Filled(before, i)
        invariant dataSectors[..i] == Taken(before, i)
      {
        FilledCount(before, i);
        var k := freeMap.FindAndSet();
        dataSectors := dataSectors[i := k];
        assert dataSectors[i] >= 0;
      }
    }

    method Deallocate(freeMap: Bitmap, ghost f: Inode)
      requires Valid() && freeMap.Valid() && Contents().Describes(f)
      requires Distinct(f.data)
      requires forall i :: 0 <= i < |f.data| ==> 0 <= f.data[i] < freeMap.numBits && freeMap.bits[f.data[i]]
      modifies freeMap, freeMap.words
      ensures freeMap.Valid()
      ensures freeMap.bits == ClearAll(old(freeMap.bits), f.data)
    {
      for i := 0 to numSectors
        invariant freeMap.Valid()
        invariant freeMap.bits == ClearAll(old(freeMap.bits), f.data[..i])
        invariant forall j :: i <= j < |f.data| ==> freeMap.bits[f.data[j]]
      {
        DistinctAt(f.data, i);
        assert freeMap.Test(dataSectors[i]);
        freeMap.Clear(dataSectors[i]);
        assert f.data[..i + 1][..i] == f.data[..i];
      }
      assert f.data[..numSectors] == f.data;
    }

    method FetchFrom(disk: Disk, sector: nat)
      requires Valid() && sector < NUM_SECTORS
      modifies this
      ensures Valid() && Contents() == ParseHeader(disk.image[sector])
    {
      var raw := new byte[SECTOR_SIZE];
      disk.ReadSector(sector, raw, 0);
      var bytes := raw[..];
      assert bytes == disk.image[sector];
      numBytes, numSectors := IntAt(bytes, 0), IntAt(bytes, 1);
      dataSectors := seq(NUM_DIRECT, i requires 0 <= i < NUM_DIRECT => IntAt(bytes, 2 + i));
    }

    method WriteBack(disk: Disk, sector: nat)
      requires Valid() && sector < NUM_SECTORS
      modifies disk
      ensures disk.image == old(disk.image)[sector := HeaderBytes(Contents())]
    {
      var h := Header(numBytes, numSectors, dataSectors);
      var raw := new byte[SECTOR_SIZE](i requires 0 <= i < SECTOR_SIZE => HeaderBytes(h)[i]);
      assert raw[0..SECTOR_SIZE] == HeaderBytes(h);
      disk.WriteSector(sector, raw, 0);
    }

    /** The sector that holds the byte at `offset` in the file. */
    function ByteToSector(offset: nat): int32
      requires Valid() && offset < MAX_FILE_SIZE
      reads this
    {
      dataSectors[offset / SECTOR_SIZE]
    }
  }
}
