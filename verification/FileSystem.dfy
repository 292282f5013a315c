/** filesys/filesys.cc: format, create, open and remove. */
module FileSystems {
  import opened Bits
  import opened Bitmaps
  import opened SectorDisk
  import opened FileHeaders
  import opened OpenFiles
  import opened Directories
  import PersistentBitmaps
  import opened FsModel
  import opened FsInvariant
  import opened FsImage

  class FileSystem {
    const disk: Disk
    const freeMapFile: OpenFile
    const directoryFile: OpenFile
    /** The state that the disk holds. */
    ghost var fs: Fs

    ghost predicate Valid()
      reads this, disk, freeMapFile, freeMapFile.hdr, directoryFile, directoryFile.hdr
    {
      && fs.Inv() && Rep(disk.image, fs)
      && freeMapFile.Valid() && freeMapFile.file == fs.freeMap
      && directoryFile.Valid() && directoryFile.file == fs.directory
    }

    /** Opens the file system that is on the disk. */
    constructor Mount(disk: Disk, ghost fs: Fs)
      requires fs.Inv() && Rep(disk.image, fs)
      ensures Valid() && this.disk == disk && this.fs == fs
    {
      this.disk := disk;
      this.fs := fs;
      freeMapFile := new OpenFile(disk, FREE_MAP_SECTOR, fs.freeMap);
      directoryFile := new OpenFile(disk, DIRECTORY_SECTOR, fs.directory);
    }

    /** Formats the disk: whatever was on it, it now holds an empty file system. */
    constructor Format(disk: Disk)
      modifies disk
      ensures Valid() && this.disk == disk && fs == Formatted()
    {
      var freeMap := FormatHeaders(disk);
      this.disk := disk;
      FormattedInv();
      freeMapFile := new OpenFile(disk, FREE_MAP_SECTOR, Formatted().freeMap);
      directoryFile := new OpenFile(disk, DIRECTORY_SECTOR, Formatted().directory);
      fs := Formatted();
      new;
      FormatTables(freeMap);
    }

    /** The first half of the format: allocates and writes the headers of the two system files. */
    static method FormatHeaders(disk: Disk) returns (freeMap: Bitmap)
      modifies disk
      ensures fresh(freeMap) && fresh(freeMap.words) && freeMap.Valid() && freeMap.numBits == NUM_SECTORS
      ensures freeMap.bits == UpTo(5)
      ensures HeadersOn(disk.image)
    {
      freeMap := new Bitmap(NUM_SECTORS);
      freeMap.Mark(FREE_MAP_SECTOR);
      freeMap.Mark(DIRECTORY_SECTOR);
      assert freeMap.bits == UpTo(2);
      var mapHdr, dirHdr := AllocateHeaders(freeMap, 2);
      assert Run(2, 1) == [2] && Run(3, 2) == [3, 4];
      WriteHeaders(disk, mapHdr, dirHdr);
    }

    /** Allocates the sectors of the two system files; there is room for both. */
    static method AllocateHeaders(freeMap: Bitmap, ghost k: nat) returns (mapHdr: FileHeader, dirHdr: FileHeader)
      requires freeMap.Valid() && freeMap.numBits == NUM_SECTORS && freeMap.bits == UpTo(k) && k + 3 <= NUM_SECTORS
      modifies freeMap, freeMap.words
      ensures freeMap.Valid() && freeMap.bits == UpTo(k + 3)
      ensures fresh(mapHdr) && mapHdr.Valid() && mapHdr.Contents().Describes(Inode(FREE_MAP_FILE_SIZE, Run(k, 1)))
      ensures fresh(dirHdr) && dirHdr.Valid() && dirHdr.Contents().Describes(Inode(DIRECTORY_FILE_SIZE, Run(k + 1, 2)))
    {
      AllocateRun(k, 1);
      AllocateRun(k + 1, 2);
      mapHdr := new FileHeader();
      var enough := mapHdr.Allocate(freeMap, FREE_MAP_FILE_SIZE);
      assert enough;
      dirHdr := new FileHeader();
      enough := dirHdr.Allocate(freeMap, DIRECTORY_FILE_SIZE);
      assert enough;
    }

    /** Writes both headers to their sectors. */
    static method WriteHeaders(disk: Disk, mapHdr: FileHeader, dirHdr: FileHeader)
      requires mapHdr.Valid() && mapHdr.Contents().Describes(Formatted().freeMap)
      requires dirHdr.Valid() && dirHdr.Contents().Describes(Formatted().directory)
      modifies disk
      ensures HeadersOn(disk.image)
    {
      HeaderRoundTrip(mapHdr.Contents());
      HeaderRoundTrip(dirHdr.Contents());
      mapHdr.WriteBack(disk, FREE_MAP_SECTOR);
      dirHdr.WriteBack(disk, DIRECTORY_SECTOR);
    }

    /** The second half of the format: writes the free map and an empty directory. */
    method FormatTables(freeMap: Bitmap)
      requires Formatted().Inv() && fs == Formatted() && HeadersOn(disk.image)
      requires freeMapFile.Valid() && freeMapFile.file == fs.freeMap
      requires directoryFile.Valid() && directoryFile.file == fs.directory
      requires freeMap.Valid() && freeMap.numBits == NUM_SECTORS && freeMap.bits == UpTo(5)
      modifies disk
      ensures Valid()
    {
      ghost var one := disk.image;
      var directory := new Directory();
      ghost var two := StoreFreeMapFirst(directory, freeMap);
      FormattedRep(one, two, disk.image, directory.table[..]);
    }

    /** The directory as it is on disk. */
    method FetchDirectory() returns (directory: Directory)
      requires Valid()
      ensures fresh(directory) && fresh(directory.table) && directory.Valid()
      ensures directory.table[..] == EntriesOf(Content(disk.image, fs.directory))
    {
      directory := new Directory();
      directory.FetchFrom(disk, directoryFile);
    }

    /** The free map as it is on disk. */
    method FetchFreeMap() returns (freeMap: Bitmap)
      requires Valid()
      ensures fresh(freeMap) && fresh(freeMap.words) && freeMap.Valid() && freeMap.numBits == NUM_SECTORS
      ensures freeMap.bits == fs.used
    {
      freeMap := new Bitmap(NUM_SECTORS);
      PersistentBitmaps.FetchFrom(freeMap, disk, freeMapFile, fs.used);
    }

    /** Creates a file; on failure nothing on the disk changes. */
    method Create(name: seq<byte>, initialSize: nat) returns (success: bool)
      requires Valid() && initialSize <= MAX_FILE_SIZE
      modifies this, disk
      ensures Valid()
      ensures (fs, success) == CreateFs(old(fs), Key(name), initialSize)
      ensures !success ==> disk.image == old(disk.image)
      ensures SameContents(old(disk.image), old(fs), disk.image, fs)
    {
      ghost var key := Key(name);
      var directory := FetchDirectory();
      Lookup(disk.image, directory.table[..], fs.slots, key);
      FirstFreeIsFreeSlot(disk.image, directory.table[..], fs.slots);
      var found := directory.Find(name);
      if found != -1 {
        return false;
      }
      success := Fill(directory, name, initialSize);
    }

    /** `Create` once the name is known to be new. */
    method Fill(directory: Directory, name: seq<byte>, initialSize: nat) returns (success: bool)
      requires Valid() && initialSize <= MAX_FILE_SIZE
      requires directory.Valid() && directory.table[..] == EntriesOf(Content(disk.image, fs.directory))
      requires IndexOf(directory.table[..], Key(name)) == FindKey(fs.slots, Key(name)) == NUM_DIR_ENTRIES
      requires FirstFree(directory.table[..]) == FreeSlot(fs.slots)
      modifies this, disk, directory.table
      ensures Valid()
      ensures (fs, success) == CreateFs(old(fs), Key(name), initialSize)
      ensures !success ==> disk.image == old(disk.image)
      ensures SameContents(old(disk.image), old(fs), disk.image, fs)
    {
      ghost var table := directory.table[..];
      var freeMap := FetchFreeMap();
      var sector := freeMap.FindAndSet();
      if sector == -1 {
        return false;
      }
      var added := directory.Add(name, sector);
      if !added {
        return false;
      }
      StoredKey(name, table[FirstFree(table)].name[FILE_NAME_MAX_LEN]);
      success := Finish(directory, freeMap, sector, Key(name), initialSize);
    }

    /** `Create` once the header has a sector and the name has a directory entry. */
    method Finish(directory: Directory, freeMap: Bitmap, sector: nat, ghost key: seq<byte>, initialSize: nat)
      returns (success: bool)
      requires Valid() && initialSize <= MAX_FILE_SIZE && |key| == FILE_NAME_MAX_LEN
      requires FindKey(fs.slots, key) == NUM_DIR_ENTRIES && sector == FirstClear(fs.used) < NUM_SECTORS
      requires EntryOf(directory, fs, key, sector)
      requires freeMap.Valid() && freeMap.bits == Marked(fs)
      modifies this, disk, freeMap, freeMap.words
      ensures Valid()
      ensures (fs, success) == CreateFs(old(fs), key, initialSize)
      ensures !success ==> disk.image == old(disk.image)
      ensures SameContents(old(disk.image), old(fs), disk.image, fs)
    {
      var hdr := new FileHeader();
      success := hdr.Allocate(freeMap, initialSize);
      if success {
        Commit(sector, hdr, directory, freeMap, key, initialSize);
      }
    }

    /** The end of `Create`: everything worked, so all changes go to the disk. */
    method Commit(sector: nat, hdr: FileHeader, directory: Directory, freeMap: Bitmap,
                  ghost key: seq<byte>, ghost size: nat)
      requires Valid() && size <= MAX_FILE_SIZE && |key| == FILE_NAME_MAX_LEN && CreateFs(fs, key, size).1
      requires hdr.Valid() && freeMap.Valid()
      requires var file := NewFile(fs, key, size); sector == file.sector && hdr.Contents().Describes(file.inode)
      requires freeMap.bits == CreateFs(fs, key, size).0.used
      requires EntryOf(directory, fs, key, sector)
      modifies `fs, disk
      ensures Valid() && fs == CreateFs(old(fs), key, size).0
      ensures SameContents(old(disk.image), old(fs), disk.image, fs)
    {
      ghost var before := disk.image;
      hdr.WriteBack(disk, sector);
      ghost var one := disk.image;
      ghost var two := StoreDirectoryFirst(directory, freeMap);
      Committed(before, fs, one, two, disk.image, hdr.Contents(), directory.table[..], key, size);
      fs := CreateFs(fs, key, size).0;
    }

    /** The two system files are open and of the right size. */
    ghost predicate FilesOpen()
      reads freeMapFile, freeMapFile.hdr, directoryFile, directoryFile.hdr
    {
      && freeMapFile.Valid() && freeMapFile.file.size == FREE_MAP_FILE_SIZE
      && directoryFile.Valid() && directoryFile.file.size == DIRECTORY_FILE_SIZE
    }

    /** Writes back the directory, then the free map; `mid` is the disk in between. */
    method StoreDirectoryFirst(directory: Directory, freeMap: Bitmap) returns (ghost mid: Image)
      requires FilesOpen() && directory.Valid() && freeMap.Valid() && freeMap.numBits == NUM_SECTORS
      modifies disk
      ensures SameOutside(old(disk.image), mid, directoryFile.file.data)
      ensures EntriesOf(Content(mid, directoryFile.file)) == directory.table[..]
      ensures SameOutside(mid, disk.image, freeMapFile.file.data)
      ensures Holds(PersistentBitmaps.WordsOf(Content(disk.image, freeMapFile.file)), freeMap.bits)
    {
      directory.WriteBack(disk, directoryFile);
      mid := disk.image;
      PersistentBitmaps.WriteBack(freeMap, disk, freeMapFile);
    }

    /** Writes back the free map, then the directory; `mid` is the disk in between. */
    method StoreFreeMapFirst(directory: Directory, freeMap: Bitmap) returns (ghost mid: Image)
      requires FilesOpen() && directory.Valid() && freeMap.Valid() && freeMap.numBits == NUM_SECTORS
      modifies disk
      ensures SameOutside(old(disk.image), mid, freeMapFile.file.data)
      ensures Holds(PersistentBitmaps.WordsOf(Content(mid, freeMapFile.file)), freeMap.bits)
      ensures SameOutside(mid, disk.image, directoryFile.file.data)
      ensures EntriesOf(Content(disk.image, directoryFile.file)) == directory.table[..]
    {
      PersistentBitmaps.WriteBack(freeMap, disk, freeMapFile);
      mid := disk.image;
      directory.WriteBack(disk, directoryFile);
    }

    /** Opens a file by name; no file, no answer. */
    method Open(name: seq<byte>) returns (file: OpenFile?)
      requires Valid()
      ensures var k := FindKey(fs.slots, Key(name));
              && (file == null <==> k == NUM_DIR_ENTRIES)
              && (file != null ==> fresh(file) && file.Valid() && file.seekPosition == 0
                                   && fs.slots[k].Named(Key(name)) && file.file == fs.slots[k].inode)
    {
      file := null;
      var directory := FetchDirectory();
      Lookup(disk.image, directory.table[..], fs.slots, Key(name));
      var sector := directory.Find(name);
      if sector >= 0 {
        file := new OpenFile(disk, sector, fs.slots[FindKey(fs.slots, Key(name))].inode);
      }
    }

    /** Deletes a file. */
    method Remove(name: seq<byte>) returns (success: bool)
      requires Valid()
      modifies this, disk
      ensures Valid()
      ensures (fs, success) == RemoveFs(old(fs), Key(name))
      ensures !success ==> disk.image == old(disk.image)
      ensures SameContents(old(disk.image), old(fs), disk.image, fs)
    {
      var directory := FetchDirectory();
      Lookup(disk.image, directory.table[..], fs.slots, Key(name));
      var sector := directory.Find(name);
      if sector == -1 {
        return false;
      }
      Erase(directory, sector, name);
      return true;
    }

    /** `Remove` once the name is known to be there and the header to be in `sector`. */
    method Erase(directory: Directory, sector: nat, name: seq<byte>)
      requires Valid() && RemoveFs(fs, Key(name)).1
      requires directory.Valid() && directory.table[..] == EntriesOf(Content(disk.image, fs.directory))
      requires var k := FindKey(fs.slots, Key(name));
               && IndexOf(directory.table[..], Key(name)) == k < NUM_DIR_ENTRIES
               && fs.slots[k].File? && fs.slots[k].sector == sector
               && ParseHeader(disk.image[sector]).Describes(fs.slots[k].inode)
      modifies `fs, disk, directory.table
      ensures Valid() && fs == RemoveFs(old(fs), Key(name)).0
      ensures SameContents(old(disk.image), old(fs), disk.image, fs)
    {
      ghost var k, after := FindKey(fs.slots, Key(name)), RemoveFs(fs, Key(name)).0;
      RemoveOutcome(fs, Key(name));
      RemoveKeepsInv(fs, Key(name));
      var freeMap := ReleaseSectors(sector, k);
      var removed := directory.Remove(name);
      Unlink(directory, freeMap, after, k);
    }

    /** The free map without the sectors of the file whose header is in `sector`. */
    method ReleaseSectors(sector: nat, ghost k: nat) returns (freeMap: Bitmap)
      requires Valid() && k < NUM_DIR_ENTRIES && fs.slots[k].File? && sector == fs.slots[k].sector
      requires ParseHeader(disk.image[sector]).Describes(fs.slots[k].inode)
      ensures fresh(freeMap) && fresh(freeMap.words) && freeMap.Valid() && freeMap.numBits == NUM_SECTORS
      ensures (forall i :: 0 <= i < |fs.slots[k].inode.data| ==> 0 <= fs.slots[k].inode.data[i] < |fs.used|)
           && freeMap.bits == ClearAll(fs.used, fs.slots[k].inode.data)[sector := false]
    {
      var fileHdr := new FileHeader();
      fileHdr.FetchFrom(disk, sector);
      freeMap := FetchFreeMap();
      FileMarked(fs, k);
      fileHdr.Deallocate(freeMap, fs.slots[k].inode);
      freeMap.Clear(sector);
    }

    /** The end of `Remove`: writes the free map and the directory back without the file in slot `k`. */
    method Unlink(directory: Directory, freeMap: Bitmap, ghost after: Fs, ghost k: nat)
      requires Valid() && after.Inv() && k < NUM_DIR_ENTRIES
      requires after == fs.(used := after.used, slots := fs.slots[k := Free])
      requires var table := EntriesOf(Content(disk.image, fs.directory));
               directory.Valid() && directory.table[..] == table[k := table[k].(inUse := false)]
      requires freeMap.Valid() && freeMap.numBits == NUM_SECTORS && freeMap.bits == after.used
      modifies `fs, disk
      ensures Valid() && fs == after
      ensures SameContents(old(disk.image), old(fs), disk.image, fs)
    {
      ghost var before := disk.image;
      ghost var one := StoreFreeMapFirst(directory, freeMap);
      Removed(before, fs, one, disk.image, directory.table[..], after, k);
      fs := after;
    }

    /** The table in memory is the one on disk plus an entry for the new file. */
    ghost predicate EntryOf(directory: Directory, fs: Fs, key: seq<byte>, sector: int)
      requires fs.Shape()
      reads disk, directory, directory.table
    {
      directory.Valid() && NewEntry(disk.image, fs, directory.table[..], key, sector)
    }
  }
}
