/** filesys/openfile.cc: byte-granular reads and writes over whole sectors. */
module OpenFiles {
  import opened Bits
  import opened SectorDisk
  import opened FileHeaders

  /** The byte of file `f` at offset `p`. */
  ghost function ByteAt(image: Image, f: Inode, p: nat): byte
    requires f.Ok() && p < f.size
  {
    image[f.data[p / SECTOR_SIZE]][p % SECTOR_SIZE]
  }

  /** A file as the flat byte string its users see. */
  ghost function Content(image: Image, f: Inode): (c: seq<byte>)
    requires f.Ok()
    ensures |c| == f.size
  {
    seq(f.size, p requires 0 <= p < f.size => ByteAt(image, f, p))
  }

  /** How many bytes a request for `n` bytes at `position` transfers. */
  function Clip(size: nat, n: int, position: nat): nat {
    if n <= 0 || position >= size then 0
    else if position + n > size then size - position
    else n
  }

  /** How many bytes the code transfers: the sum it compares with the length is an `int`. */
  function ClipInt(size: nat, n: int32, position: int32): int {
    if n <= 0 || position >= size then 0
    else if Wrapped(position + n) > size then size - position
    else n
  }

  /** The request is empty, or its end is an `int`. */
  predicate EndFits(size: nat, n: int32, position: int32) {
    n <= 0 || position >= size || position + n < 0x8000_0000
  }

  /** The code clips a request right exactly when its end does not overflow. */
  lemma ClippedRight(size: nat, n: int32, position: int32)
    requires 0 <= position && size < 0x8000_0000
    ensures ClipInt(size, n, position) == Clip(size, n, position) <==> EndFits(size, n, position)
  {
  }

  /** A request that overflows: at position 1 of a file of 100 bytes, for as many bytes as an `int` can
      say, where only 99 are left. */
  lemma ClippedWrong()
    ensures ClipInt(100, 0x7fff_ffff, 1) == 0x7fff_ffff && Clip(100, 0x7fff_ffff, 1) == 99
  {
  }

  /** What a read of `n` bytes at `p` yields. */
  function Part(c: seq<byte>, n: int, p: nat): (r: seq<byte>)
    ensures |r| == Clip(|c|, n, p)
  {
    if Clip(|c|, n, p) == 0 then [] else c[p..p + Clip(|c|, n, p)]
  }

  /** `first` and `last` are the first and last sector that `[position, position + n)` touches. */
  predicate Spans(first: nat, last: nat, position: nat, n: nat) {
    && SECTOR_SIZE * first <= position < SECTOR_SIZE * first + SECTOR_SIZE
    && SECTOR_SIZE * last < position + n <= SECTOR_SIZE * last + SECTOR_SIZE
    && first <= last
  }

  /** `buf` holds sectors `first`, `first + 1`, ... of `f`, as many as fit in `n` sectors. */
  ghost predicate Gathered(image: Image, f: Inode, first: nat, n: nat, buf: seq<byte>)
    requires f.Ok() && first + n <= |f.data|
  {
    && SECTOR_SIZE * n <= |buf|
    && forall s :: 0 <= s < n ==> Chunk(buf, s) == image[f.data[first + s]]
  }

  lemma GatherStep(image: Image, f: Inode, first: nat, n: nat, buf: seq<byte>)
    requires f.Ok() && first + n < |f.data| && SECTOR_SIZE * n + SECTOR_SIZE <= |buf|
    requires Gathered(image, f, first, n, buf)
    ensures Gathered(image, f, first, n + 1, Splice(buf, SECTOR_SIZE * n, image[f.data[first + n]]))
  {
    forall s: nat | s < n + 1 {
      ChunkSplice(buf, n, image[f.data[first + n]], s);
    }
  }

  lemma GatheredByte(image: Image, f: Inode, first: nat, n: nat, buf: seq<byte>, p: nat)
    requires f.Ok() && first + n <= |f.data| && Gathered(image, f, first, n, buf)
    requires SECTOR_SIZE * first <= p < SECTOR_SIZE * (first + n) && p < f.size
    ensures buf[p - SECTOR_SIZE * first] == ByteAt(image, f, p)
  {
    var s := p / SECTOR_SIZE - first;
    assert Chunk(buf, s)[p % SECTOR_SIZE] == ByteAt(image, f, p);
  }

  /** The wanted part of the gathered sectors is the wanted part of the file. */
  lemma GatheredPart(image: Image, f: Inode, first: nat, n: nat, buf: seq<byte>, p: nat, len: nat)
    requires f.Ok() && first + n <= |f.data| && Gathered(image, f, first, n, buf)
    requires SECTOR_SIZE * first <= p && p + len <= SECTOR_SIZE * (first + n) && p + len <= f.size
    ensures buf[p - SECTOR_SIZE * first..p - SECTOR_SIZE * first + len] == Content(image, f)[p..p + len]
  {
    var off := p - SECTOR_SIZE * first;
    var part, want := buf[off..off + len], Content(image, f)[p..p + len];
    forall k | 0 <= k < len
      ensures part[k] == want[k]
    {
      GatheredByte(image, f, first, n, buf, p + k);
    }
  }

  /** Only sectors listed in `touched` differ. */
  ghost predicate SameOutside(before: Image, after: Image, touched: seq<int>) {
    forall t :: 0 <= t < NUM_SECTORS && t !in touched ==> after[t] == before[t]
  }

  /** A file none of whose sectors is touched keeps its contents. */
  lemma ContentFrame(before: Image, after: Image, touched: seq<int>, f: Inode)
    requires f.Ok() && SameOutside(before, after, touched)
    requires forall t :: t in f.data ==> t !in touched
    ensures Content(after, f) == Content(before, f)
  {
    forall p | 0 <= p < f.size ensures Content(after, f)[p] == Content(before, f)[p] {
      assert f.data[p / SECTOR_SIZE] in f.data;
    }
  }

  /** Reading back a write gives what was written; reading elsewhere gives what was there before. */
  lemma ReadBack(c: seq<byte>, p: nat, d: seq<byte>, q: nat, n: nat)
    requires p + |d| <= |c|
    ensures |d| > 0 ==> Part(Splice(c, p, d), |d|, p) == d
    ensures q + n <= p || p + |d| <= q ==> Part(Splice(c, p, d), n, q) == Part(c, n, q)
  {
  }

  /** `after` is `before` with `n` sectors of `f`, from number `first` on, overwritten from `buf`. */
  ghost predicate Scattered(before: Image, after: Image, f: Inode, first: nat, n: nat, buf: seq<byte>)
    requires f.Ok() && first + n <= |f.data|
  {
    && Gathered(after, f, first, n, buf)
    && SameOutside(before, after, f.data[first..first + n])
  }

  lemma ScatterStep(before: Image, mid: Image, f: Inode, first: nat, n: nat, buf: seq<byte>, after: Image)
    requires f.Ok() && first + n < |f.data| && SECTOR_SIZE * n + SECTOR_SIZE <= |buf|
    requires Scattered(before, mid, f, first, n, buf)
    requires after == mid[f.data[first + n] := Chunk(buf, n)]
    ensures Scattered(before, after, f, first, n + 1, buf)
  {
    DistinctAt(f.data, first + n);
    var s := f.data[first + n];
    assert f.data[first..first + n + 1] == f.data[first..first + n] + [s];
  }

  lemma ScatteredByte(before: Image, after: Image, f: Inode, first: nat, n: nat, buf: seq<byte>, p: nat)
    requires f.Ok() && first + n <= |f.data| && p < f.size
    requires Scattered(before, after, f, first, n, buf)
    ensures ByteAt(after, f, p)
         == if SECTOR_SIZE * first <= p < SECTOR_SIZE * (first + n) then buf[p - SECTOR_SIZE * first]
            else ByteAt(before, f, p)
  {
    if SECTOR_SIZE * first <= p < SECTOR_SIZE * (first + n) {
      GatheredByte(after, f, first, n, buf, p);
    } else {
      DistinctAt(f.data, p / SECTOR_SIZE);
    }
  }

  /** What the buffer of a write must hold where the file has bytes: the new data in place,
      the old bytes around it. Beyond the end of the file anything goes. */
  ghost predicate Prepared(c: seq<byte>, first: nat, n: nat, buf: seq<byte>, position: nat, d: seq<byte>)
    requires position + |d| <= |c| && |buf| == SECTOR_SIZE * n
  {
    forall k :: 0 <= k < |buf| && SECTOR_SIZE * first + k < |c| ==>
      buf[k] == Splice(c, position, d)[SECTOR_SIZE * first + k]
  }

  /** Writing a prepared buffer replaces exactly the requested range of the file. */
  lemma ScatterSplices(before: Image, after: Image, f: Inode, first: nat, n: nat, buf: seq<byte>,
                       position: nat, d: seq<byte>)
    requires f.Ok() && first + n <= |f.data| && |buf| == SECTOR_SIZE * n
    requires Scattered(before, after, f, first, n, buf)
    requires SECTOR_SIZE * first <= position && position + |d| <= SECTOR_SIZE * (first + n)
    requires position + |d| <= f.size
    requires Prepared(Content(before, f), first, n, buf, position, d)
    ensures Content(after, f) == Splice(Content(before, f), position, d)
  {
    var c, c' := Splice(Content(before, f), position, d), Content(after, f);
    forall p | 0 <= p < f.size
      ensures c'[p] == c[p]
    {
      ScatteredByte(before, after, f, first, n, buf, p);
    }
  }

  /** The buffer of a write after its first sector has been read in, if only partly overwritten. */
  function HeadRead(c: seq<byte>, buf: seq<byte>, first: nat, position: nat): (r: seq<byte>)
    requires SECTOR_SIZE * first <= position < |c| && SECTOR_SIZE <= |buf|
    ensures |r| == |buf|
  {
    if position == SECTOR_SIZE * first then buf else Splice(buf, 0, Part(c, SECTOR_SIZE, SECTOR_SIZE * first))
  }

  /** The same after its last sector has been read in, if that is needed too. */
  function TailRead(c: seq<byte>, buf: seq<byte>, first: nat, last: nat, position: nat, n: nat): (r: seq<byte>)
    requires first <= last && SECTOR_SIZE * last < |c| && SECTOR_SIZE * (last - first) + SECTOR_SIZE <= |buf|
    ensures |r| == |buf|
  {
    if position + n == SECTOR_SIZE * last + SECTOR_SIZE || (first == last && position != SECTOR_SIZE * first) then buf
    else Splice(buf, SECTOR_SIZE * (last - first), Part(c, SECTOR_SIZE, SECTOR_SIZE * last))
  }

  /** The two conditional reads leave every old byte around the new data in the buffer. */
  lemma EdgesKept(c: seq<byte>, buf: seq<byte>, first: nat, last: nat, position: nat, d: seq<byte>)
    requires 0 < |d| && position + |d| <= |c| && Spans(first, last, position, |d|)
    requires |buf| == SECTOR_SIZE * (1 + last - first)
    ensures var edges := TailRead(c, HeadRead(c, buf, first, position), first, last, position, |d|);
            Prepared(c, first, 1 + last - first, Splice(edges, position - SECTOR_SIZE * first, d), position, d)
  {
    var off := position - SECTOR_SIZE * first;
    var edges := TailRead(c, HeadRead(c, buf, first, position), first, last, position, |d|);
    var r, want := Splice(edges, off, d), Splice(c, position, d);
    forall k | 0 <= k < |r| && SECTOR_SIZE * first + k < |c|
      ensures r[k] == want[SECTOR_SIZE * first + k]
    {
      SpliceByte(edges, off, d, k);
      SpliceByte(c, position, d, SECTOR_SIZE * first + k);
      if !(off <= k < off + |d|) {
        EdgeByte(c, buf, first, last, position, |d|, k);
      }
    }
  }

  lemma EdgeByte(c: seq<byte>, buf: seq<byte>, first: nat, last: nat, position: nat, n: nat, k: nat)
    requires 0 < n && position + n <= |c| && Spans(first, last, position, n)
    requires |buf| == SECTOR_SIZE * (1 + last - first) && k < |buf| && SECTOR_SIZE * first + k < |c|
    requires !(position <= SECTOR_SIZE * first + k < position + n)
    ensures TailRead(c, HeadRead(c, buf, first, position), first, last, position, n)[k] == c[SECTOR_SIZE * first + k]
  {
    var b1 := HeadRead(c, buf, first, position);
    if position != SECTOR_SIZE * first {
      SpliceByte(buf, 0, Part(c, SECTOR_SIZE, SECTOR_SIZE * first), k);
    }
    if TailRead(c, b1, first, last, position, n) != b1 {
      SpliceByte(b1, SECTOR_SIZE * (last - first), Part(c, SECTOR_SIZE, SECTOR_SIZE * last), k);
    }
  }

  /** The first and last sector of a clipped request are sectors of the file. */
  lemma RequestInFile(f: Inode, n: nat, position: nat)
    requires f.Ok() && 0 < n && position + n <= f.size
    ensures (position + n - 1) / SECTOR_SIZE < |f.data|
    ensures Spans(position / SECTOR_SIZE, (position + n - 1) / SECTOR_SIZE, position, n)
  {
  }

  /** `bcopy`: `n` bytes of `src` from index `i` on to `dst` at index `j`. */
  method Copy(src: array<byte>, i: nat, dst: array<byte>, j: nat, n: nat)
    requires i + n <= src.Length && j + n <= dst.Length && src != dst
    modifies dst
    ensures dst[..] == Splice(old(dst[..]), j, src[..][i..i + n])
  {
    forall k | 0 <= k < n {
      dst[j + k] := src[i + k];
    }
  }

  class OpenFile {
    const hdr: FileHeader
    var seekPosition: int32
    /** The file that the header describes. */
    ghost const file: Inode

    /** Brings the header into memory. */
    constructor (disk: Disk, sector: nat, ghost f: Inode)
      requires sector < NUM_SECTORS && ParseHeader(disk.image[sector]).Describes(f) && f.Ok()
      ensures Valid() && file == f && fresh(hdr) && seekPosition == 0
    {
      hdr := new FileHeader();
      seekPosition := 0;
      file := f;
      new;
      hdr.FetchFrom(disk, sector);
    }

    ghost predicate Valid()
      reads this, hdr
    {
      hdr.Valid() && file.Ok() && hdr.Contents().Describes(file)
    }

    /** Fills `buf` with sectors `first` to `first + n - 1` of the file. */
    method Gather(disk: Disk, buf: array<byte>, first: nat, n: nat)
      requires Valid() && first + n <= |file.data| && buf.Length == SECTOR_SIZE * n
      modifies buf
      ensures Gathered(disk.image, file, first, n, buf[..])
    {
      for i := first to first + n
        invariant Gathered(disk.image, file, first, i - first, buf[..])
      {
        assert hdr.ByteToSector(i * SECTOR_SIZE) == file.data[i];
        GatherStep(disk.image, file, first, i - first, buf[..]);
        disk.ReadSector(hdr.ByteToSector(i * SECTOR_SIZE), buf, (i - first) * SECTOR_SIZE);
      }
    }

    /** Reads up to `numBytes` bytes at `position` into `into`, from its index `at` on. */
    method ReadAt(disk: Disk, into: array<byte>, at: nat, numBytes: int32, position: int32) returns (n: nat)
      requires 0 <= position && EndFits(file.size, numBytes, position)
      requires Valid() && at + Clip(file.size, numBytes, position) <= into.Length
      modifies into
      ensures n == Clip(file.size, numBytes, position)
      ensures into[..] == Splice(old(into[..]), at, Part(Content(disk.image, file), numBytes, position))
    {
      var fileLength := hdr.numBytes;
      if numBytes <= 0 || position >= fileLength {
        return 0;
      }
      ClippedRight(fileLength, numBytes, position);
      n := if Wrapped(position + numBytes) > fileLength then fileLength - position else numBytes;
      ReadSectors(disk, into, at, n, position);
    }

    /** The end of `ReadAt`: reads in all sectors that the clipped request touches, and copies the part asked
        for. */
    method ReadSectors(disk: Disk, into: array<byte>, at: nat, n: nat, position: nat)
      requires Valid() && 0 < n && position + n <= file.size && at + n <= into.Length
      modifies into
      ensures into[..] == Splice(old(into[..]), at, Content(disk.image, file)[position..position + n])
    {
      RequestInFile(file, n, position);
      var firstSector := position / SECTOR_SIZE;
      var lastSector := (position + n - 1) / SECTOR_SIZE;
      var numSectors := 1 + lastSector - firstSector;
      var buf := new byte[numSectors * SECTOR_SIZE];
      Gather(disk, buf, firstSector, numSectors);
      var off := position - firstSector * SECTOR_SIZE;
      GatheredPart(disk.image, file, firstSector, numSectors, buf[..], position, n);
      assert buf[..][off..off + n] == Content(disk.image, file)[position..position + n];
      Copy(buf, off, into, at, n);
    }

    /** Writes the sectors `first` to `first + n - 1` of the file from `buf`. */
    method Scatter(disk: Disk, buf: array<byte>, first: nat, n: nat)
      requires Valid() && first + n <= |file.data| && buf.Length == SECTOR_SIZE * n
      modifies disk
      ensures Valid()
      ensures Scattered(old(disk.image), disk.image, file, first, n, buf[..])
    {
      ghost var f, b, before := file, buf[..], disk.image;
      for i := first to first + n
        invariant Valid()
        invariant Scattered(before, disk.image, f, first, i - first, b)
      {
        ghost var mid := disk.image;
        var sector, at := hdr.ByteToSector(i * SECTOR_SIZE), (i - first) * SECTOR_SIZE;
        assert sector == f.data[i];
        disk.WriteSector(sector, buf, at);
        assert disk.image == mid[sector := Chunk(b, i - first)];
        ScatterStep(before, mid, f, first, i - first, b, disk.image);
      }
    }

    /** Writes up to `numBytes` bytes of `from` at `position`. */
    method WriteAt(disk: Disk, from: array<byte>, numBytes: int32, position: int32) returns (n: nat)
      requires 0 <= position && EndFits(file.size, numBytes, position)
      requires Valid() && Clip(file.size, numBytes, position) <= from.Length
      modifies disk
      ensures Valid()
      ensures n == Clip(file.size, numBytes, position)
      ensures n == 0 ==> disk.image == old(disk.image)
      ensures n > 0 ==>
        Content(disk.image, file) == Splice(Content(old(disk.image), file), position, from[..n])
      ensures SameOutside(old(disk.image), disk.image, file.data)
    {
      var fileLength := hdr.numBytes;
      if numBytes <= 0 || position >= fileLength {
        return 0;
      }
      ClippedRight(fileLength, numBytes, position);
      n := if Wrapped(position + numBytes) > fileLength then fileLength - position else numBytes;
      RequestInFile(file, n, position);
      var firstSector := position / SECTOR_SIZE;
      var lastSector := (position + n - 1) / SECTOR_SIZE;
      var numSectors := 1 + lastSector - firstSector;
      var buf := new byte[numSectors * SECTOR_SIZE];
      Prepare(disk, buf, from, n, position, firstSector, lastSector);
      ghost var f, c, d := file, Content(disk.image, file), from[..n];
      Scatter(disk, buf, firstSector, numSectors);
      ScatterSplices(old(disk.image), disk.image, f, firstSector, numSectors, buf[..], position, d);
    }

    /** The middle of `WriteAt`: the edge sectors, then the new bytes over them. */
    method Prepare(disk: Disk, buf: array<byte>, from: array<byte>, n: nat, position: nat,
                   firstSector: nat, lastSector: nat)
      requires Valid() && buf != from && 0 < n <= from.Length && position + n <= file.size
      requires Spans(firstSector, lastSector, position, n)
      requires buf.Length == SECTOR_SIZE * (1 + lastSector - firstSector)
      modifies buf
      ensures Prepared(Content(disk.image, file), firstSector, 1 + lastSector - firstSector, buf[..],
                       position, from[..n])
    {
      ghost var c, d := Content(disk.image, file), from[..n];
      EdgesKept(c, buf[..], firstSector, lastSector, position, d);
      ReadEdges(disk, buf, n, position, firstSector, lastSector);
      ghost var edges := buf[..];
      assert from[..][0..n] == d;
      var off := position - firstSector * SECTOR_SIZE;
      Copy(from, 0, buf, off, n);
      assert buf[..] == Splice(edges, off, d);
    }

    /** Reads in the edge sectors that are only partly overwritten. */
    method ReadEdges(disk: Disk, buf: array<byte>, n: nat, position: nat, firstSector: nat, lastSector: nat)
      requires Valid() && 0 < n && position + n <= file.size
      requires Spans(firstSector, lastSector, position, n)
      requires buf.Length == SECTOR_SIZE * (1 + lastSector - firstSector)
      modifies buf
      ensures var c := Content(disk.image, file);
              buf[..] == TailRead(c, HeadRead(c, old(buf[..]), firstSector, position),
                                  firstSector, lastSector, position, n)
    {
      ReadHead(disk, buf, position, firstSector);
      ReadTail(disk, buf, n, position, firstSector, lastSector);
    }

    /** Reads in the first sector if it is only partly overwritten. */
    method ReadHead(disk: Disk, buf: array<byte>, position: nat, firstSector: nat)
      requires Valid() && SECTOR_SIZE * firstSector <= position < file.size && SECTOR_SIZE <= buf.Length
      modifies buf
      ensures buf[..] == HeadRead(Content(disk.image, file), old(buf[..]), firstSector, position)
    {
      var firstAligned := position == firstSector * SECTOR_SIZE;
      if !firstAligned {
        ReadEdge(disk, buf, 0, firstSector);
      }
    }

    /** Reads in the last sector if it is only partly overwritten and not yet there. */
    method ReadTail(disk: Disk, buf: array<byte>, n: nat, position: nat, firstSector: nat, lastSector: nat)
      requires Valid() && 0 < n && position + n <= file.size
      requires Spans(firstSector, lastSector, position, n)
      requires buf.Length == SECTOR_SIZE * (1 + lastSector - firstSector)
      modifies buf
      ensures buf[..] == TailRead(Content(disk.image, file), old(buf[..]), firstSector, lastSector, position, n)
    {
      var firstAligned := position == firstSector * SECTOR_SIZE;
      var lastAligned := position + n == (lastSector + 1) * SECTOR_SIZE;
      if !lastAligned && (firstSector != lastSector || firstAligned) {
        ReadEdge(disk, buf, (lastSector - firstSector) * SECTOR_SIZE, lastSector);
      }
    }

    /** Reads sector `s` of the file into `buf`, from its index `at` on. */
    method ReadEdge(disk: Disk, buf: array<byte>, at: nat, s: nat)
      requires Valid() && SECTOR_SIZE * s < file.size && at + SECTOR_SIZE <= buf.Length
      modifies buf
      ensures buf[..] == Splice(old(buf[..]), at, Part(Content(disk.image, file), SECTOR_SIZE, SECTOR_SIZE * s))
    {
      var m := ReadAt(disk, buf, at, SECTOR_SIZE, s * SECTOR_SIZE);
    }

    /** Any position; reads and writes ask for one from 0 on. */
    method Seek(position: int32)
      modifies `seekPosition
      ensures seekPosition == position
    {
      seekPosition := position;
    }

    /** Reads on from the seek position, and moves it past what was read. */
    method Read(disk: Disk, into: array<byte>, numBytes: int32) returns (n: nat)
      requires 0 <= seekPosition && EndFits(file.size, numBytes, seekPosition)
      requires Valid() && Clip(file.size, numBytes, seekPosition) <= into.Length
      modifies `seekPosition, into
      ensures Valid()
      ensures n == Clip(file.size, numBytes, old(seekPosition)) && seekPosition == old(seekPosition) + n
      ensures into[..] == Splice(old(into[..]), 0, Part(Content(disk.image, file), numBytes, old(seekPosition)))
    {
      n := ReadAt(disk, into, 0, numBytes, seekPosition);
      seekPosition := seekPosition + n;
    }

    /** Writes on from the seek position, and moves it past what was written. */
    method Write(disk: Disk, from: array<byte>, numBytes: int32) returns (n: nat)
      requires 0 <= seekPosition && EndFits(file.size, numBytes, seekPosition)
      requires Valid() && Clip(file.size, numBytes, seekPosition) <= from.Length
      modifies `seekPosition, disk
      ensures Valid()
      ensures n == Clip(file.size, numBytes, old(seekPosition)) && seekPosition == old(seekPosition) + n
      ensures n == 0 ==> disk.image == old(disk.image)
      ensures n > 0 ==>
        Content(disk.image, file) == Splice(Content(old(disk.image), file), old(seekPosition), from[..n])
      ensures SameOutside(old(disk.image), disk.image, file.data)
    {
      n := WriteAt(disk, from, numBytes, seekPosition);
      seekPosition := seekPosition + n;
    }
  }
}
