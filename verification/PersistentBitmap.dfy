/** filesys/pbitmap.cc: the bitmap of free sectors, kept in a file. */
module PersistentBitmaps {
  import opened Bits
  import opened Bitmaps
  import opened SectorDisk
  import opened OpenFiles

  /** A byte string read as an array of words. */
  ghost function WordsOf(c: seq<byte>): (w: seq<word>)
    ensures |w| == |c| / 4
  {
    seq(|c| / 4, k requires 0 <= k < |c| / 4 => WordOf(c[4 * k..4 * k + 4]))
  }

  /** Words laid out in memory and read back are the same words. */
  lemma WordsRoundTrip(words: seq<word>, c: seq<byte>)
    requires |c| == 4 * |words|
    requires forall k :: 0 <= k < |words| ==> c[4 * k..4 * k + 4] == BytesOf(words[k])
    ensures WordsOf(c) == words
  {
    forall k | 0 <= k < |words| ensures WordsOf(c)[k] == words[k] {
      WordRoundTrip(words[k]);
    }
  }

  /** Overwrites the bitmap with the one in `file`, which holds `bits`. */
  method FetchFrom(map_: Bitmap, disk: Disk, file: OpenFile, ghost bits: seq<bool>)
    requires map_.Valid() && file.Valid() && file.file.size == 4 * map_.words.Length
    requires |bits| == map_.numBits && Holds(WordsOf(Content(disk.image, file.file)), bits)
    modifies map_, map_.words
    ensures map_.Valid() && map_.bits == bits
  {
    var raw := new byte[4 * map_.words.Length];
    var n := file.ReadAt(disk, raw, 0, 4 * map_.words.Length, 0);
    assert raw[..] == Content(disk.image, file.file);
    LoadWords(map_.words, raw);
    map_.bits := bits;
  }

  /** Fills the words from the bytes that were read into them. */
  method LoadWords(words: array<word>, raw: array<byte>)
    requires raw.Length == 4 * words.Length
    modifies words
    ensures words[..] == WordsOf(raw[..])
  {
    ghost var all := WordsOf(raw[..]);
    for i := 0 to words.Length
      invariant forall k :: 0 <= k < i ==> words[k] == all[k]
    {
      words[i] := WordOf(raw[4 * i..4 * i + 4]);
      assert raw[..][4 * i..4 * i + 4] == raw[4 * i..4 * i + 4];
    }
  }

  /** Stores the bitmap in `file`. */
  method WriteBack(map_: Bitmap, disk: Disk, file: OpenFile)
    requires map_.Valid() && file.Valid() && file.file.size == 4 * map_.words.Length
    modifies disk
    ensures map_.Valid() && file.Valid()
    ensures Holds(WordsOf(Content(disk.image, file.file)), map_.bits)
    ensures SameOutside(old(disk.image), disk.image, file.file.data)
  {
    var raw := StoreWords(map_);
    var n := file.WriteAt(disk, raw, 4 * map_.words.Length, 0);
    assert Content(disk.image, file.file) == raw[..];
  }

  /** The words of the bitmap as they lie in memory. */
  method StoreWords(map_: Bitmap) returns (raw: array<byte>)
    requires map_.Valid()
    ensures fresh(raw) && raw.Length == 4 * map_.words.Length && WordsOf(raw[..]) == map_.words[..]
  {
    var words := map_.words[..];
    raw := new byte[4 * map_.words.Length](i requires 0 <= i < 4 * |words| => ByteOf(words[i / 4], i % 4));
    forall k | 0 <= k < |words| ensures raw[..][4 * k..4 * k + 4] == BytesOf(words[k]) {
      assert forall j :: 0 <= j < 4 ==> raw[4 * k + j] == ByteOf(words[k], j);
    }
    WordsRoundTrip(words, raw[..]);
  }
}
