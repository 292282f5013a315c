/** The simulated disk as its synchronous clients see it (filesys/synchdisk.cc,
    machine/disk.h): 1024 sectors of 128 bytes, read and written one sector at a time. */
module SectorDisk {
  import opened Bits

  const SECTOR_SIZE := 128
  const NUM_SECTORS := 1024

  const ZERO_SECTOR: seq<byte> := seq(SECTOR_SIZE, _ => 0)

  type Sector = s: seq<byte> | |s| == SECTOR_SIZE witness ZERO_SECTOR
  type Image = d: seq<Sector> | |d| == NUM_SECTORS
    witness seq<Sector>(NUM_SECTORS, _ => ZERO_SECTOR)

  /** Sector-sized piece number `s` of a buffer. */
  function Chunk(buf: seq<byte>, s: nat): Sector
    requires SECTOR_SIZE * s + SECTOR_SIZE <= |buf|
  {
    buf[SECTOR_SIZE * s..SECTOR_SIZE * s + SECTOR_SIZE]
  }

  lemma ChunkSplice(buf: seq<byte>, n: nat, d: Sector, s: nat)
    requires SECTOR_SIZE * n + SECTOR_SIZE <= |buf| && SECTOR_SIZE * s + SECTOR_SIZE <= |buf|
    ensures Chunk(Splice(buf, SECTOR_SIZE * n, d), s) == if s == n then d else Chunk(buf, s)
  {
    var r, want := Chunk(Splice(buf, SECTOR_SIZE * n, d), s), if s == n then d else Chunk(buf, s);
    forall k | 0 <= k < SECTOR_SIZE
      ensures r[k] == want[k]
    {
      SpliceByte(buf, SECTOR_SIZE * n, d, SECTOR_SIZE * s + k);
    }
  }

  class Disk {
    var image: Image

    /** Copies a sector into `data`, starting at index `at`. */
    method ReadSector(sector: nat, data: array<byte>, at: nat)
      requires sector < NUM_SECTORS && at + SECTOR_SIZE <= data.Length
      modifies data
      ensures data[..] == Splice(old(data[..]), at, image[sector])
    {
      forall i | 0 <= i < SECTOR_SIZE {
        data[at + i] := image[sector][i];
      }
    }

    /** Overwrites a sector with the 128 bytes of `data` from index `at` on. */
    method WriteSector(sector: nat, data: array<byte>, at: nat)
      requires sector < NUM_SECTORS && at + SECTOR_SIZE <= data.Length
      modifies this
      ensures image == old(image)[sector := data[at..at + SECTOR_SIZE]]
    {
      image := image[sector := data[at..at + SECTOR_SIZE]];
    }
  }
}
