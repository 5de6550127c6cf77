/** What a caller of the file system sees: appended bytes are read back, and files do not disturb one another. */
module FileRuns {
  import opened NorFlash
  import opened FileTable
  import opened FileSystem

  /** Bytes appended across any number of blocks are read back from where they were written. */
  method AppendAndReadBack(fs: MicroBitFileSystem, file: FileDescriptor, buffer: seq<Byte>) returns (data: seq<Byte>)
    requires fs.Valid() && fs.Open(file) && file.seek == file.length && buffer != []
    requires CountUnused(fs.Entries(), fs.lastBlockAllocated + 1) + BlocksFor(file.length) >= BlocksFor(file.length + |buffer|)
    modifies fs, fs.flash, file
    ensures fs.Valid() && fs.Open(file) && data == buffer
    ensures file.seek == file.length == old(file.length) + |buffer|
  {
    hide MicroBitFileSystem.Valid, MicroBitFileSystem.Held, BlocksFor, CountUnused;
    var start := file.seek;
    ghost var text := fs.Bytes(file);
    var _ := fs.WriteBuffer(file, buffer);
    var _ := fs.Seek(file, start, MB_SEEK_SET);
    assert fs.Bytes(file) == text + buffer && fs.Bytes(file)[start..start + |buffer|] == buffer;
    var _, d := fs.Read(file, |buffer|);
    data := d;
  }

  /** Reading some bytes and then some more gives what reading all of them at once does. */
  method ReadTwice(fs: MicroBitFileSystem, file: FileDescriptor, n: nat, m: nat) returns (both: seq<Byte>, once: seq<Byte>)
    requires fs.Valid() && fs.Open(file) && n > 0 && m > 0
    modifies file
    ensures fs.Valid() && fs.Open(file) && fs.Bytes(file) == old(fs.Bytes(file))
    ensures both == once && |once| == if n + m < old(file.length - file.seek) then n + m else old(file.length - file.seek)
    ensures once == old(fs.Bytes(file))[old(file.seek)..old(file.seek) + |once|]
  {
    hide MicroBitFileSystem.Valid, MicroBitFileSystem.Bytes, BlocksFor;
    var start := file.seek;
    var _, first := fs.Read(file, n);
    var _, second := fs.Read(file, m);
    both := first + second;
    var _ := fs.Seek(file, start, MB_SEEK_SET);
    var _, all := fs.Read(file, n + m);
    once := all;
  }

  /** A new file holds what is written to it; what the other files hold stays as it was. */
  method CreateAndFill(fs: MicroBitFileSystem, e: Dirent, name: seq<Byte>, buffer: seq<Byte>) returns (file: FileDescriptor)
    requires fs.Valid() && InDirectory(e, fs.directories) && e !in fs.chains && |name| == 16
    requires CountUnused(fs.Entries(), fs.lastBlockAllocated + 1) >= BlocksFor(|buffer|)
    modifies fs, fs.flash
    ensures fs.Valid() && fresh(file) && file.dirent == e && fs.Open(file) && fs.Bytes(file) == buffer
    ensures fs.chains - {e} == old(fs.chains) && fs.Held() - {e} == old(fs.Held())
  {
    hide MicroBitFileSystem.Valid, MicroBitFileSystem.Held, MicroBitFileSystem.Listed, BlocksFor, CountUnused, WithNewEntry;
    OneBlock();
    var _ := fs.CreateFile(e, name);
    file := new FileDescriptor(e, 0, false);
    assert fs.Bytes(file) + buffer == buffer;
    var _ := fs.WriteBuffer(file, buffer);
  }

  /** Removed again, it leaves all the files there were. */
  method FillAndRemove(fs: MicroBitFileSystem, e: Dirent, name: seq<Byte>, buffer: seq<Byte>)
    requires fs.Valid() && InDirectory(e, fs.directories) && e !in fs.chains && |name| == 16
    requires CountUnused(fs.Entries(), fs.lastBlockAllocated + 1) >= BlocksFor(|buffer|)
    modifies fs, fs.flash
    ensures fs.Valid() && fs.chains == old(fs.chains) && fs.Held() == old(fs.Held())
  {
    hide MicroBitFileSystem.Valid, MicroBitFileSystem.Held, MicroBitFileSystem.Bytes, BlocksFor, CountUnused;
    var _ := CreateAndFill(fs, e, name, buffer);
    fs.Remove(e);
  }

  /** A file created and written back at once leaves a directory in which another one can be created. */
  method CreateAndFlush(fs: MicroBitFileSystem, firstBlock: nat, ghost dc: seq<nat>, name: seq<Byte>)
    returns (created: bool, e: Dirent)
    requires fs.Valid() && fs.Directory(dc) && firstBlock == dc[0] && |name| == 16
    requires AllFlushed(fs.Data(), dc, fs.chains) && CountUnused(fs.Entries(), fs.lastBlockAllocated + 1) > 0
    modifies fs, fs.flash
    ensures fs.Valid() && fs.Directory(dc) && AllFlushed(fs.Data(), dc, fs.chains)
    ensures created ==> e !in old(fs.chains) && e in fs.chains && fs.chains - {e} == old(fs.chains)
    ensures created ==> fs.Held() - {e} == old(fs.Held())
  {
    hide Files, CountUnused, NoneFree, IsFree, AllFlushed, WithNewEntry, WithFlushed, IsDirectory, FirstBlock, Flags, Length;
    hide MicroBitFileSystem.Held, MicroBitFileSystem.Region, MicroBitFileSystem.Entries, MicroBitFileSystem.Data;
    ghost var t, bs, chains := fs.Entries(), fs.Data(), fs.chains;
    fs.OffsetsAligned();
    DirectoryBlocks(t, bs, fs.directories, dc);
    var first;
    ghost var k;
    created, e, first, k := fs.CreateInDirectory(firstBlock, name, dc);
    if created {
      OneBlock();
      NewEntryIsNew(bs, e, name, first);
      AllFlushedAgain(bs, dc, chains, fs.directories, e, name, first, 0);
      var file := new FileDescriptor(e, 0, false);
      fs.Flush(file);
      DirectoryKept(t, bs, fs.Data(), fs.directories, dc, first);
    }
  }

  /** A state in which a file is lost: two files created in a directory, the first not written back in between. The
      second one is given the directory entry of the first, whose block no entry names any more. */
  method CreateTwice(fs: MicroBitFileSystem, firstBlock: nat, ghost dc: seq<nat>, name: seq<Byte>, name': seq<Byte>)
    returns (e: Dirent, first: nat, second: nat)
    requires fs.Valid() && fs.Directory(dc) && firstBlock == dc[0] && |name| == |name'| == 16
    requires AllFlushed(fs.Data(), dc, fs.chains) && !NoneFree(fs.Data(), dc, |dc|, 0)
    requires CountUnused(fs.Entries(), fs.lastBlockAllocated + 1) > 1
    modifies fs, fs.flash
    ensures fs.Attached() && e.block < |fs.Data()| && e.offset + ENTRY_SIZE <= |fs.Data()[e.block]|
    ensures e in fs.chains && fs.chains[e] == [first]
    ensures FirstBlock(fs.Data(), e) == second != first && first < |fs.Entries()| && fs.Entries()[first] == EOF
    ensures forall f | f in fs.chains ::
              f.block < |fs.Data()| && f.offset + ENTRY_SIZE <= |fs.Data()[f.block]| && FirstBlock(fs.Data(), f) != first
    ensures !fs.Valid()
  {
    hide Files, Table, Blocks, TableSize, CountUnused, NoneFree, IsFree, AllFlushed, WithNewEntry, FirstBlock, MicroBitFileSystem.Held;
    ghost var t, bs := fs.Entries(), fs.Data();
    var created, found, e';
    ghost var k, k';
    created, e, first, k := fs.CreateInDirectory(firstBlock, name, dc);
    NewEntryIsFirstFree(t, bs, fs.directories, dc, k, e, name, first);
    EntriesAfterCreate(bs, e, name, first);
    DirectoryKept(t, bs, fs.Data(), fs.directories, dc, first);
    found, e', k' := fs.FindFreeEntry(firstBlock, dc);
    FirstFreeExists(fs.Data(), dc, k, e);
    FirstFreeUnique(fs.Entries(), fs.Data(), fs.directories, dc, k, e, k', e');
    bs := fs.Data();
    ghost var ts, dirs, chains := TableSize(fs.fileSystemSize), fs.directories, fs.chains;
    t := fs.Entries();
    second := fs.WriteNewFile(e', name');
    NamedNoMore(t, bs, ts, dirs, chains, e, first, name', second);
    EntriesAfterCreate(bs, e, name', second);
    fs.Misnamed(e);
  }

  lemma OneBlock()
    ensures BlocksFor(0) == 1
  {
  }
}
