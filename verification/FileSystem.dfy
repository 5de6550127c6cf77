/** MicroBitFileSystem: files as chains of blocks in the flash of the processor. */
module FileSystem {
  import opened NorFlash
  import Arithmetic = Blocks
  import Chip = OnChipFlash
  import opened FileTable

  const MB_SEEK_SET: nat := 1
  const MB_SEEK_END: nat := 2
  const MB_SEEK_CUR: nat := 4

  /** An open file. Its write-back cache has no bytes. */
  class FileDescriptor {
    const dirent: Dirent
    var seek: nat
    var length: nat

    constructor (dirent: Dirent, length: nat, append: bool)
      ensures this.dirent == dirent && this.length == length && seek == if append then length else 0
    {
      this.dirent, this.length := dirent, length;
      seek := if append then length else 0;
    }
  }

  class MicroBitFileSystem {
    const flash: Chip.MicroBitFlash

    /** The address of the table, and the number of blocks. */
    const fileSystemTable: nat
    const fileSystemSize: nat

    var lastBlockAllocated: nat

    /** The blocks of each file, and the blocks that hold directory entries. */
    ghost var chains: map<Dirent, seq<nat>>
    ghost var directories: set<nat>

    /** The file system takes whole pages of the flash, the scratch page is another one, and a word follows. */
    ghost predicate Attached()
      reads flash
    {
      && fileSystemTable % Chip.CODEPAGESIZE == 0 && fileSystemSize % 16 == 0 && 0 < fileSystemSize <= EOF
      && fileSystemTable + BLOCK * fileSystemSize + 4 <= |flash.device| && |flash.device| % Chip.CODEPAGESIZE == 0
      && var scratch := flash.defaultScratchPage;
         scratch % Chip.CODEPAGESIZE == 0 && scratch + Chip.CODEPAGESIZE <= |flash.device| &&
         (scratch + Chip.CODEPAGESIZE <= fileSystemTable || fileSystemTable + BLOCK * fileSystemSize <= scratch)
    }

    /** The bytes of the file system. */
    ghost function Region(): (r: seq<Byte>)
      reads flash
      requires Attached()
      ensures |r| == BLOCK * fileSystemSize
    {
      flash.device[fileSystemTable..fileSystemTable + BLOCK * fileSystemSize]
    }

    /** The rest of the flash, which holds the scratch page. */
    ghost function Elsewhere(): seq<Byte>
      reads flash
      requires Attached()
    {
      flash.device[..fileSystemTable] + flash.device[fileSystemTable + BLOCK * fileSystemSize..]
    }

    ghost function Entries(): (t: seq<nat>)
      reads flash
      requires Attached()
      ensures |t| == fileSystemSize
    {
      Table(Region(), fileSystemSize)
    }

    ghost function Data(): (bs: seq<seq<Byte>>)
      reads flash
      requires Attached()
      ensures |bs| == fileSystemSize && forall b | TableSize(fileSystemSize) <= b < |bs| :: |bs[b]| == BLOCK
    {
      Blocks(Region(), fileSystemSize)
    }

    ghost predicate Valid()
      reads this, flash
    {
      && Attached() && lastBlockAllocated < fileSystemSize
      && Files(Entries(), Data(), TableSize(fileSystemSize), directories, chains)
    }

    constructor (flash: Chip.MicroBitFlash, flashStart: nat, flashPages: nat)
      ensures this.flash == flash && fileSystemTable == flashStart
      ensures fileSystemSize == flashPages * (Chip.CODEPAGESIZE / BLOCK) && lastBlockAllocated == 0
      ensures chains == map[] && directories == {}
    {
      this.flash, fileSystemTable := flash, flashStart;
      fileSystemSize := flashPages * (Chip.CODEPAGESIZE / BLOCK);
      lastBlockAllocated, chains, directories := 0, map[], {};
    }

    // ---------------------------------------------------------------- access to the flash

    /** Writes bytes within a block, in place or by way of the scratch page: to the file system it is the same. */
    method WriteIn(at: nat, data: seq<Byte>)
      requires Attached() && data != [] && at % BLOCK + |data| <= BLOCK && at + |data| <= BLOCK * fileSystemSize
      modifies flash
      ensures Attached() && Region() == Put(old(Region()), at, data)
      ensures Writable(old(Region()), at, data) ==> Elsewhere() == old(Elsewhere())
    {
      hide Put, Writable, Chip.Within, Chip.Saved, Chip.WordAddr;
      ghost var device := flash.device;
      WithinPage(fileSystemTable, fileSystemSize, at, |data|);
      assert Chip.Within(data, (fileSystemTable + at) % Chip.CODEPAGESIZE) == data by {
        WholeWithin(data, (fileSystemTable + at) % Chip.CODEPAGESIZE);
      }
      SameWritable(device, fileSystemTable, BLOCK * fileSystemSize, at, data);
      var _ := flash.FlashWrite(fileSystemTable + at, data, 0);
      RegionAfter(device, fileSystemTable, BLOCK * fileSystemSize, at, data,
                  (fileSystemTable + at) - (fileSystemTable + at) % Chip.CODEPAGESIZE, flash.defaultScratchPage);
    }

    method FileTableWrite(block: nat, value: nat)
      requires Attached() && block < fileSystemSize && value < 0x1_0000
      modifies flash
      ensures Attached() && Entries() == old(Entries())[block := value] && Data() == old(Data())
      ensures old(Entries())[block] == UNUSED || (old(Entries())[block] == EOF && (value / 4096) % 2 == 0) ==>
                Elsewhere() == old(Elsewhere())
    {
      hide Put, Table, Blocks, Bytes16, Writable, MicroBitFileSystem.Elsewhere;
      EntryTakes(Region(), fileSystemSize, block, value);
      EntrySet(Region(), fileSystemSize, block, value);
      EntryInBlock(block);
      WriteIn(2 * block, Bytes16(value));
    }

    method BlockWrite(block: nat, offset: nat, data: seq<Byte>)
      requires Attached() && TableSize(fileSystemSize) <= block < fileSystemSize && offset + |data| <= BLOCK && data != []
      modifies flash
      ensures Attached() && Entries() == old(Entries())
      ensures Data() == old(Data())[block := Put(old(Data())[block], offset, data)]
    {
      hide Put, Table, Blocks, TableSize;
      BlockSet(Region(), fileSystemSize, block, offset, data);
      OffsetInBlock(block, offset);
      WriteIn(BLOCK * block + offset, data);
    }

    method GetNextFileBlock(block: nat) returns (next: nat)
      requires Attached() && block < fileSystemSize
      ensures next == Entries()[block]
    {
      EntryBytes(flash.device, fileSystemTable, fileSystemSize, block);
      next := EntryAt(flash.device, fileSystemTable, block);
    }
  
    // ---------------------------------------------------------------- formatting

    /** Makes an empty file system of erased flash: the table, and a root directory that a later start recognises. */
    method Format()
      requires Attached() && TableSize(fileSystemSize) < fileSystemSize && lastBlockAllocated < fileSystemSize
      requires Region() == Blank(BLOCK * fileSystemSize)
      modifies this`chains, this`directories, flash
      ensures Valid() && chains == map[] && directories == {TableSize(fileSystemSize)}
      ensures EmptyTable(Entries(), TableSize(fileSystemSize), TableSize(fileSystemSize) + 1)
      ensures EntryAt(flash.device, fileSystemTable, 0) == TableSize(fileSystemSize)
      ensures var ts, e := TableSize(fileSystemSize), Dirent(TableSize(fileSystemSize), 0);
              Data()[ts][..16] == MAGIC && FirstBlock(Data(), e) == ts && Flags(Data(), e) == 0x4000 && Length(Data(), e) == fileSystemSize
      ensures LooksFormatted(flash.device, fileSystemTable) && StoredSize(flash.device, fileSystemTable) == fileSystemSize
    {
      hide Files, Table, Blocks, TableSize, Blank, Put, EntryAt, LooksFormatted, StoredSize, RootEntry, FirstBlock, Flags, Length;
      hide MicroBitFileSystem.Entries, MicroBitFileSystem.Data;
      var fileSystemTableSize := TableSize(fileSystemSize);
      SomeTable(fileSystemSize);
      assert EmptyTable(Entries(), fileSystemTableSize, 0) by { EmptyAtFirst(); }
      for block := 0 to fileSystemTableSize
        invariant Attached() && EmptyTable(Entries(), fileSystemTableSize, block)
      {
        FileTableWrite(block, fileSystemTableSize);
      }
      FileTableWrite(fileSystemTableSize, EOF);
      ghost var bs := Data();
      BlockWrite(fileSystemTableSize, 0, RootEntry(fileSystemTableSize, fileSystemSize));
      chains, directories := map[], {fileSystemTableSize};
      FormattedNow(bs);
    }

    lemma EmptyAtFirst()
      requires Attached() && TableSize(fileSystemSize) < fileSystemSize && Region() == Blank(BLOCK * fileSystemSize)
      ensures EmptyTable(Entries(), TableSize(fileSystemSize), 0)
    {
      BlankTable(Region(), fileSystemSize);
    }

    lemma FormattedNow(bs: seq<seq<Byte>>)
      requires Attached() && 0 < TableSize(fileSystemSize) < fileSystemSize && lastBlockAllocated < fileSystemSize
      requires var ts := TableSize(fileSystemSize);
               && chains == map[] && directories == {ts} && EmptyTable(Entries(), ts, ts + 1)
               && |bs| == fileSystemSize && |bs[ts]| == BLOCK
               && Data() == bs[ts := Put(bs[ts], 0, RootEntry(ts, fileSystemSize))]
      ensures Valid()
      ensures EntryAt(flash.device, fileSystemTable, 0) == TableSize(fileSystemSize)
      ensures var ts, e := TableSize(fileSystemSize), Dirent(TableSize(fileSystemSize), 0);
              Data()[ts][..16] == MAGIC && FirstBlock(Data(), e) == ts && Flags(Data(), e) == 0x4000 && Length(Data(), e) == fileSystemSize
      ensures LooksFormatted(flash.device, fileSystemTable) && StoredSize(flash.device, fileSystemTable) == fileSystemSize
    {
      hide Put, EntryAt, LooksFormatted, StoredSize, RootEntry, Table;
      var ts := TableSize(fileSystemSize);
      assert Put(bs[ts], 0, RootEntry(ts, fileSystemSize))[0..ENTRY_SIZE] == RootEntry(ts, fileSystemSize);
      RootDescribed(Data(), ts, fileSystemSize);
      hide FirstBlock, Flags, Length;
      EmptyIsValid(Entries(), Data(), ts);
      FormattedIsFound(flash.device, fileSystemTable, fileSystemSize);
    }

    // ---------------------------------------------------------------- blocks

    /** The next unused block behind the one allocated last. */
    method GetFreeBlock() returns (block: nat)
      requires Valid() && CountUnused(Entries(), lastBlockAllocated + 1) > 0
      modifies this`lastBlockAllocated
      ensures Valid() && lastBlockAllocated == block < fileSystemSize && Entries()[block] == UNUSED
      ensures CountUnused(Entries(), old(lastBlockAllocated) + 1) == 1 + CountUnused(Entries(), block + 1)
    {
      hide Files, Table, CountUnused, NextIndex, MicroBitFileSystem.Region, MicroBitFileSystem.Entries, MicroBitFileSystem.Data;
      CountTells(Entries(), lastBlockAllocated + 1);
      ghost var free :| lastBlockAllocated < free < fileSystemSize && Entries()[free] == UNUSED;
      NextIndexIs(lastBlockAllocated, fileSystemSize);
      block := NextIndex(lastBlockAllocated, fileSystemSize);
      while block != lastBlockAllocated
        invariant lastBlockAllocated == old(lastBlockAllocated) < block <= free
        invariant forall b | lastBlockAllocated < b < block :: Entries()[b] != UNUSED
        decreases free - block
      {
        var next := GetNextFileBlock(block);
        if next == UNUSED {
          ghost var t := Entries();
          CountFirst(t, lastBlockAllocated + 1, block);
          lastBlockAllocated := block;
          assert Entries() == t;
          return;
        }
        block := block + 1;
      }
    }

    /** What the blocks of each file hold. */
    ghost function Held(): (m: map<Dirent, seq<Byte>>)
      reads this, flash
      requires Valid()
      ensures m.Keys == chains.Keys
      ensures forall e | e in chains :: chains[e] != [] && |m[e]| == BLOCK * |chains[e]|
    {
      ChainsInRange(Entries(), Data(), TableSize(fileSystemSize), directories, chains);
      Contents(Data(), chains)
    }

    /** What the directory blocks hold. */
    ghost function Listed(): (m: map<nat, seq<Byte>>)
      reads this, flash
      requires Attached()
    {
      map d | d in directories && d < fileSystemSize :: Data()[d]
    }

    /** Appends a new block to a file: it is marked as the end before it is linked. Neither needs an erase, and so the
        scratch page, if bit 12 of the block number is clear. */
    method ExtendFile(ghost e: Dirent, block: nat) returns (newBlock: nat)
      requires Valid() && e in chains && block == Last(e) && CountUnused(Entries(), lastBlockAllocated + 1) > 0
      modifies this`lastBlockAllocated, this`chains, flash
      ensures Valid() && chains == old(chains)[e := old(chains)[e] + [newBlock]]
      ensures Held() - {e} == old(Held()) - {e} && old(Held())[e] <= Held()[e] && Listed() == old(Listed())
      ensures CountUnused(old(Entries()), old(lastBlockAllocated) + 1) == 1 + CountUnused(Entries(), lastBlockAllocated + 1)
      ensures (newBlock / 4096) % 2 == 0 ==> Elsewhere() == old(Elsewhere())
    {
      hide Files, Table, Blocks, TableSize, CountUnused, Contents, MicroBitFileSystem.Elsewhere;
      newBlock := GetFreeBlock();
      ghost var t, bs := Entries(), Data();
      FilesAfterExtend(t, bs, TableSize(fileSystemSize), directories, chains, e, newBlock);
      ContentsAfterExtend(t, bs, TableSize(fileSystemSize), directories, chains, e, newBlock);
      ChainBlocks(t, bs, TableSize(fileSystemSize), directories, chains, e);
      assert block in chains[e];
      LastIsEnd(t, chains[e]);
      CountAfterExtend(t, newBlock, block);
      FileTableWrite(newBlock, EOF);
      FileTableWrite(block, newBlock);
      chains := chains[e := chains[e] + [newBlock]];
    }

    ghost function Last(e: Dirent): nat
      reads this`chains
      requires e in chains && chains[e] != []
    {
      chains[e][|chains[e]| - 1]
    }

    /** Writes bytes in the last block of a file, behind its end. */
    method AppendChunk(ghost e: Dirent, block: nat, offset: nat, chunk: seq<Byte>)
      requires Valid() && e in chains && block == Last(e) && chunk != [] && offset + |chunk| <= BLOCK
      modifies flash
      ensures Valid() && Entries() == old(Entries()) && Listed() == old(Listed())
      ensures Held() - {e} == old(Held()) - {e}
      ensures var len := BLOCK * (|chains[e]| - 1) + offset;
              len + |chunk| <= |Held()[e]| && Held()[e][..len + |chunk|] == old(Held())[e][..len] + chunk
    {
      hide Files, Table, Blocks, TableSize, Contents, Put;
      ghost var t, bs, ts := Entries(), Data(), TableSize(fileSystemSize);
      FilesAfterAppend(t, bs, ts, directories, chains, e, offset, chunk);
      ContentsAfterAppend(t, bs, ts, directories, chains, e, offset, chunk, WrittenLast(bs, chains[e], offset, chunk));
      BlockWrite(block, offset, chunk);
    }
  
    // ---------------------------------------------------------------- files

    /** The first block that a directory entry names. */
    method GetFirstBlock(e: Dirent) returns (block: nat)
      requires Valid() && e in chains
      ensures block == chains[e][0]
    {
      hide IsChain, Table, Apart;
      var at := fileSystemTable + BLOCK * e.block + e.offset + FIRST_BLOCK;
      var r := Region();
      assert Data()[e.block] == Region()[BLOCK * e.block..BLOCK * e.block + BLOCK];
      block := U16(flash.device[at], flash.device[at + 1]);
    }

    /** The block that holds a position, or ends at it. */
    method FindBlock(e: Dirent, seek: nat) returns (block: nat, position: nat, ghost k: nat)
      requires Valid() && e in chains && seek <= BLOCK * |chains[e]|
      ensures k < |chains[e]| && block == chains[e][k] && position == BLOCK * k
      ensures position <= seek <= position + BLOCK && (k > 0 ==> position < seek)
    {
      hide Files, Table, Blocks, IsChain;
      ChainBlocks(Entries(), Data(), TableSize(fileSystemSize), directories, chains, e);
      block := GetFirstBlock(e);
      position, k := 0, 0;
      while seek - position > BLOCK
        invariant k < |chains[e]| && block == chains[e][k] && position == BLOCK * k
        invariant position <= seek && (k > 0 ==> position < seek)
      {
        EndIsLast(Entries(), chains[e], k);
        block := GetNextFileBlock(block);
        position := position + BLOCK;
        k := k + 1;
      }
    }

    /** A file whose blocks are as many as its length needs. */
    ghost predicate Open(file: FileDescriptor)
      reads this`chains, file
    {
      file.dirent in chains && |chains[file.dirent]| == BlocksFor(file.length) && file.seek <= file.length
    }

    /** The bytes of a file. */
    ghost function Bytes(file: FileDescriptor): (bytes: seq<Byte>)
      reads this, flash, file
      requires Valid() && Open(file)
      ensures |bytes| == file.length
    {
      Held()[file.dirent][..file.length]
    }

    /** Appends to a file, when there is room for it behind the block allocated last. */
    method WriteBuffer(file: FileDescriptor, buffer: seq<Byte>) returns (bytesCopied: nat)
      requires Valid() && Open(file) && file.seek == file.length
      requires CountUnused(Entries(), lastBlockAllocated + 1) + BlocksFor(file.length) >= BlocksFor(file.length + |buffer|)
      modifies this`lastBlockAllocated, this`chains, flash, file
      ensures Valid() && Open(file) && bytesCopied == |buffer|
      ensures file.length == old(file.length) + |buffer| == file.seek
      ensures Bytes(file) == old(Bytes(file)) + buffer
      ensures chains - {file.dirent} == old(chains) - {file.dirent} && old(chains)[file.dirent] <= chains[file.dirent]
      ensures Held() - {file.dirent} == old(Held()) - {file.dirent} && Listed() == old(Listed())
    {
      hide Files, Table, Blocks, TableSize, Contents, CountUnused, MicroBitFileSystem.Region, MicroBitFileSystem.Entries, MicroBitFileSystem.Data, MicroBitFileSystem.Held, MicroBitFileSystem.Attached, MicroBitFileSystem.Growing, MicroBitFileSystem.Valid, BlocksFor;
      var block, position, i := FindBlock(file.dirent, file.seek);
      var offset := file.seek - position;
      LastBlockIs(file.length, i, |chains[file.dirent]|);
      ghost var g, k, text := StartGrowth(file.dirent, block, offset);
      assert text == old(Bytes(file));
      ghost var lastBlock: nat, lastOffset: nat;
      bytesCopied, k, lastBlock, lastOffset := CopySegments(g, k, block, offset, text, buffer);
      EndGrowth(g, k, lastBlock, lastOffset, text + buffer);
      ghost var held := Held();
      file.length := if file.length < file.seek + bytesCopied then file.seek + bytesCopied else file.length;
      file.seek := file.seek + bytesCopied;
      assert Held() == held;
      assert Bytes(file) == text + buffer;
    }

    /** Copies a buffer to the end of a file, segment by segment. */
    method CopySegments(ghost g: Growth, ghost k0: nat, lastBlock: nat, lastOffset: nat, ghost text: seq<Byte>, buffer: seq<Byte>)
      returns (bytesCopied: nat, ghost k: nat, ghost lastBlock': nat, ghost lastOffset': nat)
      requires Growing(g, k0, lastBlock, lastOffset, text)
      requires lastOffset <= BLOCK && k0 >= 1 && BLOCK * (k0 - 1) + lastOffset == |text| && (lastOffset == 0 ==> k0 == 1)
      requires g.room >= BlocksFor(|text| + |buffer|)
      modifies this`lastBlockAllocated, this`chains, flash
      ensures bytesCopied == |buffer| && Growing(g, k, lastBlock', lastOffset', text + buffer)
      ensures k >= 1 && (lastOffset' > 0 || k == 1)
    {
      hide MicroBitFileSystem.Valid, MicroBitFileSystem.Growing;
      var block: nat, offset: nat := lastBlock, lastOffset;
      bytesCopied, k := 0, k0;
      assert text + buffer[..0] == text;
      while bytesCopied < |buffer|
        invariant bytesCopied <= |buffer| && offset <= BLOCK && k >= 1 && BLOCK * (k - 1) + offset == |text| + bytesCopied
        invariant Growing(g, k, block, offset, text + buffer[..bytesCopied])
        invariant offset == BLOCK ==> bytesCopied == 0 || bytesCopied == |buffer|
        invariant offset == 0 ==> bytesCopied < |buffer| || k == 1
        decreases |buffer| - bytesCopied, if offset == BLOCK then 1 else 0
      {
        var segmentLength := if |buffer| - bytesCopied < BLOCK - offset then |buffer| - bytesCopied else BLOCK - offset;
        var segment := buffer[bytesCopied..bytesCopied + segmentLength];
        NextSegment(text, buffer, bytesCopied, segmentLength);
        ghost var soFar := text + buffer[..bytesCopied];
        bytesCopied := bytesCopied + segmentLength;
        block, offset, k := WriteSegment(g, k, block, offset, soFar, segment, offset + segmentLength == BLOCK && bytesCopied < |buffer|);
      }
      assert buffer[..bytesCopied] == buffer;
      lastBlock', lastOffset' := block, offset;
    }

    /** The position in a file of an offset in its last block. */
    ghost function End(e: Dirent, offset: nat): nat
      reads this`chains
      requires e in chains && chains[e] != []
    {
      BLOCK * (|chains[e]| - 1) + offset
    }

    /** A file has k blocks by now and holds a text up to an offset of the last one. Nothing else has changed. */
    ghost predicate Growing(g: Growth, k: nat, block: nat, offset: nat, text: seq<Byte>)
      reads this, flash
    {
      && Valid() && g.e in chains && chains - {g.e} == g.chains && Held() - {g.e} == g.held && Listed() == g.listed
      && g.chain <= chains[g.e] && |chains[g.e]| == k && block == Last(g.e)
      && CountUnused(Entries(), lastBlockAllocated + 1) + k == g.room
      && offset <= BLOCK && |text| == End(g.e, offset) && Held()[g.e][..|text|] == text
    }

    lemma StartGrowth(e: Dirent, block: nat, offset: nat) returns (g: Growth, k: nat, text: seq<Byte>)
      requires Valid() && e in chains && block == Last(e) && offset <= BLOCK
      ensures g == Growth(e, chains[e], chains - {e}, Held() - {e}, Listed(), CountUnused(Entries(), lastBlockAllocated + 1) + |chains[e]|)
      ensures k == |chains[e]| >= 1 && text == Held()[e][..End(e, offset)] && |text| == End(e, offset)
      ensures Growing(g, k, block, offset, text)
    {
      hide Files, Table, Blocks, CountUnused, Contents, MicroBitFileSystem.Entries, MicroBitFileSystem.Data, MicroBitFileSystem.Held, MicroBitFileSystem.Attached;
      g := Growth(e, chains[e], chains - {e}, Held() - {e}, Listed(), CountUnused(Entries(), lastBlockAllocated + 1) + |chains[e]|);
      k, text := |chains[e]|, Held()[e][..End(e, offset)];
    }

    lemma EndGrowth(g: Growth, k: nat, block: nat, offset: nat, text: seq<Byte>)
      requires Growing(g, k, block, offset, text)
      requires k >= 1 && (offset > 0 || k == 1)
      ensures Valid() && g.e in chains && chains - {g.e} == g.chains && g.chain <= chains[g.e]
      ensures Held() - {g.e} == g.held && Listed() == g.listed && |chains[g.e]| == BlocksFor(|text|) == k
      ensures |text| <= |Held()[g.e]| && Held()[g.e][..|text|] == text
    {
      hide Files, Table, Blocks, CountUnused, Contents, MicroBitFileSystem.Entries, MicroBitFileSystem.Data, MicroBitFileSystem.Held, MicroBitFileSystem.Attached;
    }

    /** Writes a segment that fits in the last block, and goes on to a new block if that is full and more is to come. */
    method WriteSegment(ghost g: Growth, ghost k: nat, block: nat, offset: nat, ghost text: seq<Byte>, segment: seq<Byte>, more: bool)
      returns (nextBlock: nat, nextOffset: nat, ghost k': nat)
      requires Growing(g, k, block, offset, text) && offset + |segment| <= BLOCK
      requires more ==> offset + |segment| == BLOCK && g.room > k
      modifies this`lastBlockAllocated, this`chains, flash
      ensures Growing(g, k', nextBlock, nextOffset, text + segment)
      ensures if more then nextOffset == 0 && k' == k + 1 else nextOffset == offset + |segment| && k' == k
    {
      hide Files, Table, Blocks, TableSize, Contents, CountUnused, MicroBitFileSystem.Region, MicroBitFileSystem.Entries, MicroBitFileSystem.Data, MicroBitFileSystem.Held, MicroBitFileSystem.Attached;
      nextBlock, nextOffset, k' := block, offset, k;
      if |segment| != 0 {
        AppendChunk(g.e, block, offset, segment);
      }
      nextOffset := nextOffset + |segment|;
      ghost var held := Held()[g.e];
      assert held[..End(g.e, nextOffset)] == text + segment;
      if nextOffset == BLOCK && more {
        nextBlock := ExtendFile(g.e, block);
        nextOffset, k' := 0, k + 1;
        assert Held()[g.e][..|held|] == held;
      }
    }
  
    /** Looks through a directory for an entry that is marked as free: the first one, if there is any. */
    method FindFreeEntry(firstBlock: nat, ghost dc: seq<nat>) returns (found: bool, e: Dirent, ghost k: nat)
      requires Attached() && IsDirectory(Entries(), Data(), directories, dc) && firstBlock == dc[0]
      ensures found ==> IsFirstFree(Data(), dc, k, e)
      ensures !found ==> NoneFree(Data(), dc, |dc|, 0)
    {
      hide Table, Blocks, NoneFree, IsFree, Precedes, MicroBitFileSystem.Region, MicroBitFileSystem.Entries, MicroBitFileSystem.Data;
      ghost var t, bs := Entries(), Data();
      var block, offset: nat := firstBlock, 0;
      k := 0;
      NothingBefore(bs, dc);
      while true
        invariant k < |dc| && block == dc[k] && offset <= BLOCK && offset % ENTRY_SIZE == 0
        invariant NoneFree(bs, dc, k, offset)
        decreases |dc| - k, BLOCK - offset
      {
        if offset + ENTRY_SIZE > BLOCK {
          NoneFreeInBlock(bs, t, dc, k, offset);
          EndIsLast(t, dc, k);
          block := GetNextFileBlock(block);
          k := k + 1;
          if block == EOF {
            return false, Dirent(0, 0), k;
          }
          offset := 0;
        }
        var free := GetFree(Dirent(block, offset));
        if free {
          return true, Dirent(block, offset), k;
        }
        NoneFreeNext(bs, t, dc, k, offset);
        offset := offset + ENTRY_SIZE;
      }
    }

    /** Whether the flags of an entry mark it as free. */
    method GetFree(e: Dirent) returns (free: bool)
      requires Attached() && e.block < fileSystemSize && |Data()[e.block]| == BLOCK && e.offset + ENTRY_SIZE <= BLOCK
      ensures free == IsFree(Data(), e)
    {
      hide TableSize, U16;
      var at := fileSystemTable + BLOCK * e.block + e.offset + FLAGS;
      assert Data()[e.block] == Region()[BLOCK * e.block..BLOCK * e.block + BLOCK];
      free := HasFlag(U16(flash.device[at], flash.device[at + 1]), ENTRY_FREE);
    }

    /** Writes the entry of a new file: a block is taken for it and marked as the end. */
    method WriteNewFile(e: Dirent, name: seq<Byte>) returns (first: nat)
      requires Valid() && InDirectory(e, directories) && |name| == 16
      requires CountUnused(Entries(), lastBlockAllocated + 1) > 0
      modifies this`lastBlockAllocated, flash
      ensures Attached() && lastBlockAllocated == first < fileSystemSize && old(Entries())[first] == UNUSED
      ensures e.block < fileSystemSize && |old(Data())[e.block]| == BLOCK
      ensures Entries() == old(Entries())[first := EOF]
      ensures Data() == WithNewEntry(old(Data()), e, name, first)
      ensures CountUnused(old(Entries()), old(lastBlockAllocated) + 1) == 1 + CountUnused(Entries(), lastBlockAllocated + 1)
    {
      hide Table, Blocks, TableSize, CountUnused, U16, NewEntry, Apart, Linked, Named;
      EntryUsable(Entries(), Data(), TableSize(fileSystemSize), directories, e);
      first := GetFreeBlock();
      CountKept(Entries(), first, EOF, first + 1);
      BlockWrite(e.block, e.offset, NewEntry(name, first));
      FileTableWrite(first, EOF);
    }

    /** Creates an empty file under a directory entry that no file has. */
    method CreateFile(e: Dirent, name: seq<Byte>) returns (first: nat)
      requires Valid() && InDirectory(e, directories) && e !in chains && |name| == 16
      requires CountUnused(Entries(), lastBlockAllocated + 1) > 0
      modifies this`lastBlockAllocated, this`chains, flash
      ensures Valid() && chains == old(chains)[e := [first]]
      ensures first < fileSystemSize && old(Entries())[first] == UNUSED && Entries() == old(Entries())[first := EOF]
      ensures Data() == WithNewEntry(old(Data()), e, name, first)
      ensures Held() - {e} == old(Held())
      ensures CountUnused(old(Entries()), old(lastBlockAllocated) + 1) == 1 + CountUnused(Entries(), lastBlockAllocated + 1)
    {
      hide Files, Table, Blocks, TableSize, CountUnused, Contents, U16, NewEntry;
      ghost var t, bs := Entries(), Data();
      first := WriteNewFile(e, name);
      FilesAfterCreate(t, bs, TableSize(fileSystemSize), directories, chains, e, name, first);
      chains := chains[e := [first]];
    }

    /** The blocks of a directory of this file system. */
    ghost predicate Directory(dc: seq<nat>)
      reads this, flash
    {
      Attached() && IsDirectory(Entries(), Data(), directories, dc)
    }

    /** Creates a file in a directory all of whose files have been written back: under an entry that no file has. */
    method CreateInDirectory(firstBlock: nat, name: seq<Byte>, ghost dc: seq<nat>)
      returns (created: bool, e: Dirent, first: nat, ghost k: nat)
      requires Valid() && Directory(dc) && firstBlock == dc[0] && |name| == 16
      requires AllFlushed(Data(), dc, chains) && CountUnused(Entries(), lastBlockAllocated + 1) > 0
      modifies this`lastBlockAllocated, this`chains, flash
      ensures Valid()
      ensures created ==> IsFirstFree(old(Data()), dc, k, e) && e !in old(chains)
      ensures created ==> chains == old(chains)[e := [first]] && Held() - {e} == old(Held())
      ensures created ==> e.block < |old(Data())| && |old(Data())[e.block]| == BLOCK && e.offset + ENTRY_SIZE <= BLOCK && first < fileSystemSize
      ensures created ==> Data() == WithNewEntry(old(Data()), e, name, first)
      ensures created ==> old(Entries())[first] == UNUSED && Entries() == old(Entries())[first := EOF]
      ensures created ==> CountUnused(old(Entries()), old(lastBlockAllocated) + 1) == 1 + CountUnused(Entries(), lastBlockAllocated + 1)
      ensures !created ==> NoneFree(Data(), dc, |dc|, 0)
      ensures !created ==> chains == old(chains) && Entries() == old(Entries()) && Data() == old(Data())
    {
      hide Files, Table, Blocks, TableSize, CountUnused, Contents, NoneFree, WithNewEntry, MicroBitFileSystem.Held, IsFree, AllFlushed;
      created, e, k := FindFreeEntry(firstBlock, dc);
      first := 0;
      if created {
        FlushedUpTo(Data(), directories, chains, Entries(), dc, k, e);
        first := CreateFile(e, name);
      }
    }

    /** Writes back the entry of a new file once its length is known; it is not marked as free any more. */
    method Flush(file: FileDescriptor)
      requires Valid() && Open(file) && file.length < 0x1_0000_0000 && CanFlush(file)
      modifies flash
      ensures Valid() && Open(file) && Entries() == old(Entries()) && Held() == old(Held()) && Flushed(file)
      ensures Data() == AfterFlush(old(Data()), file.dirent, file.length)
    {
      hide Files, Table, Blocks, TableSize, CountUnused, Contents, U16, WithFlushed, IsFree, Length, MicroBitFileSystem.Held;
      Lists(file.dirent);
      var length, flags := GetLengthAndFlags(file.dirent);
      EntryFlushed(Data(), file.dirent, file.length);
      if length != file.length && flags == ENTRY_NEW {
        FlushEntry(file.dirent, file.length);
      }
    }

    method GetLengthAndFlags(e: Dirent) returns (length: nat, flags: nat)
      requires Attached() && e.block < fileSystemSize && |Data()[e.block]| == BLOCK && e.offset + ENTRY_SIZE <= BLOCK
      ensures length == Length(Data(), e) && flags == Flags(Data(), e)
    {
      hide TableSize, U16, Blocks;
      var at := fileSystemTable + BLOCK * e.block + e.offset;
      ListedBlock(e.block);
      BlockBytes(flash.device, fileSystemTable, fileSystemSize, e.block, e.offset, ENTRY_SIZE);
      var entry := flash.device[at..at + ENTRY_SIZE];
      assert forall i | 0 <= i < ENTRY_SIZE :: Data()[e.block][e.offset + i] == entry[i];
      length := U16(entry[LENGTH], entry[LENGTH + 1]) + 0x1_0000 * U16(entry[LENGTH + 2], entry[LENGTH + 3]);
      flags := U16(entry[FLAGS], entry[FLAGS + 1]);
    }

    lemma ListedBlock(b: nat)
      requires Attached() && b < fileSystemSize && |Data()[b]| == BLOCK
      ensures TableSize(fileSystemSize) <= b
    {
    }

    /** Rewrites an entry with its flags and length. */
    method FlushEntry(e: Dirent, length: nat)
      requires Valid() && e in chains && length < 0x1_0000_0000
      requires e.block < |Data()| && |Data()[e.block]| == BLOCK && e.offset + ENTRY_SIZE <= BLOCK
      modifies flash
      ensures Valid() && Entries() == old(Entries()) && Data() == WithFlushed(old(Data()), e, length)
      ensures Held() == old(Held())
    {
      hide Files, Table, Blocks, TableSize, CountUnused, Contents, FlushedFields, WithFlushed, IsFree, Length;
      ghost var t, bs := Entries(), Data();
      FilesAfterFlush(t, bs, TableSize(fileSystemSize), directories, chains, e, length);
      BlockWrite(e.block, e.offset + FLAGS, FlushedFields(length));
    }

    /** The entry of a file names its length, or has not been written back at all. */
    ghost predicate CanFlush(file: FileDescriptor)
      reads this, flash, file
      requires Valid() && Open(file)
    {
      && file.dirent.block < |Data()| && |Data()[file.dirent.block]| == BLOCK && file.dirent.offset + ENTRY_SIZE <= BLOCK
      && (Length(Data(), file.dirent) == file.length || Flags(Data(), file.dirent) == ENTRY_NEW)
    }

    /** The entry of a file names its length. */
    ghost predicate Flushed(file: FileDescriptor)
      reads this, flash, file
      requires Valid() && Open(file)
    {
      && file.dirent.block < |Data()| && |Data()[file.dirent.block]| == BLOCK && file.dirent.offset + ENTRY_SIZE <= BLOCK
      && Length(Data(), file.dirent) == file.length
    }

    /** A file whose entry names another block breaks the file system. */
    lemma Misnamed(e: Dirent)
      requires Attached() && e in chains && chains[e] != [] && e.block < |Data()| && e.offset + ENTRY_SIZE <= |Data()[e.block]|
      requires FirstBlock(Data(), e) != chains[e][0]
      ensures !Valid()
    {
    }

    lemma OffsetsAligned()
      requires Valid()
      ensures forall e | e in chains :: e.offset % ENTRY_SIZE == 0
    {
    }

    lemma Lists(e: Dirent)
      requires Valid() && e in chains
      ensures e.block < |Data()| && |Data()[e.block]| == BLOCK && e.offset + ENTRY_SIZE <= BLOCK
      ensures e.block in directories && e.offset % ENTRY_SIZE == 0
    {
    }

    /** Removes a file: exactly the blocks of its chain are marked as deleted, and its directory entry is invalidated. */
    method Remove(e: Dirent)
      requires Valid() && e in chains
      modifies this`chains, flash
      ensures Valid() && chains == old(chains) - {e}
      ensures Freed(old(Entries()), old(chains)[e], Entries())
      ensures |Entries()| == |old(Entries())| && forall b | 0 <= b < |Entries()| ::
                Entries()[b] == if b in old(chains)[e] then 0 else old(Entries())[b]
      ensures Data() == Invalidated(old(Data()), e)
      ensures e.block < |Data()| && e.offset + ENTRY_SIZE <= |Data()[e.block]| && Flags(Data(), e) == 0
      ensures Held() == old(Held()) - {e}
    {
      hide Files, Table, Blocks, TableSize, Contents, CountUnused;
      ghost var t, bs, ts, c := Entries(), Data(), TableSize(fileSystemSize), chains[e];
      ChainBlocks(t, bs, ts, directories, chains, e);
      EntryInRange(t, bs, ts, directories, chains, e);
      FreeChain(e);
      FilesAfterRemove(t, bs, ts, directories, chains, e, Entries());
      ContentsAfterRemove(t, bs, ts, directories, chains, e, Entries());
      EntryInvalidated(Data(), e);
      BlockWrite(e.block, e.offset + FLAGS, Zeros(2));
      chains := chains - {e};
    }

    /** Marks the blocks of a chain as deleted, each after its link has been read. */
    method FreeChain(e: Dirent)
      requires Valid() && e in chains
      modifies flash
      ensures Attached() && Freed(old(Entries()), chains[e], Entries()) && Data() == old(Data())
    {
      hide Files, Table, Blocks, TableSize, IsChain, MicroBitFileSystem.Region, MicroBitFileSystem.Entries, MicroBitFileSystem.Data;
      ghost var t, c, k := Entries(), chains[e], 0;
      ChainBlocks(t, Data(), TableSize(fileSystemSize), directories, chains, e);
      var block := GetFirstBlock(e);
      while block != EOF
        invariant Attached() && Data() == old(Data()) && |Entries()| == |t|
        invariant k <= |c| && block == (if k < |c| then c[k] else EOF)
        invariant Freed(t, c[..k], Entries())
        decreases |c| - k
      {
        assert c[k] in c;
        NextToFree(t, c, k, Entries());
        var nextBlock := GetNextFileBlock(block);
        FileTableWrite(block, DELETED);
        block := nextBlock;
        k := k + 1;
      }
      InChain(t, c, k);
      assert c[..k] == c;
    }

    /** Reads bytes of block k of a file. */
    method ReadSegment(ghost e: Dirent, ghost k: nat, block: nat, offset: nat, len: nat) returns (segment: seq<Byte>)
      requires Valid() && e in chains && k < |chains[e]| && block == chains[e][k] && offset + len <= BLOCK
      ensures BLOCK * k + offset + len <= |Held()[e]|
      ensures segment == Held()[e][BLOCK * k + offset..BLOCK * k + offset + len]
    {
      hide Files, Table, TableSize, IsChain, Blocks, Contents, MicroBitFileSystem.Held;
      HeldBlock(e, k, offset, len);
      ChainBlocks(Entries(), Data(), TableSize(fileSystemSize), directories, chains, e);
      assert block in chains[e];
      var at := fileSystemTable + BLOCK * block + offset;
      segment := flash.device[at..at + len];
      BlockBytes(flash.device, fileSystemTable, fileSystemSize, block, offset, len);
    }

    /** Where the bytes of block k are in what a file holds. */
    lemma HeldBlock(e: Dirent, k: nat, offset: nat, len: nat)
      requires Valid() && e in chains && k < |chains[e]| && offset + len <= BLOCK
      ensures BLOCK * k + offset + len <= |Held()[e]|
      ensures chains[e][k] < |Data()| && |Data()[chains[e][k]]| == BLOCK
      ensures Held()[e][BLOCK * k + offset..BLOCK * k + offset + len] == Data()[chains[e][k]][offset..offset + len]
    {
      hide Files, Table, TableSize, IsChain, Blocks, MicroBitFileSystem.Entries, MicroBitFileSystem.Data, MicroBitFileSystem.Attached;
      ChainBlocks(Entries(), Data(), TableSize(fileSystemSize), directories, chains, e);
      ContentBlock(Data(), chains[e], k);
      SliceOfSlice(Held()[e], BLOCK * k, BLOCK * k + BLOCK, offset, offset + len);
    }

    /** The block behind block k of a file, if there is one. */
    method NextInFile(ghost e: Dirent, ghost k: nat, block: nat) returns (next: nat)
      requires Valid() && e in chains && k < |chains[e]| && block == chains[e][k]
      ensures next == if k + 1 < |chains[e]| then chains[e][k + 1] else EOF
    {
      hide Files, Table, TableSize, IsChain;
      ChainBlocks(Entries(), Data(), TableSize(fileSystemSize), directories, chains, e);
      EndIsLast(Entries(), chains[e], k);
      next := GetNextFileBlock(block);
    }

    /** Moves the position of a file, within its length. */
    method Seek(file: FileDescriptor, offset: int, flags: nat) returns (result: Result)
      modifies file`seek
      ensures var position := if flags == MB_SEEK_SET then offset
                              else if flags == MB_SEEK_END then file.length + offset
                              else if flags == MB_SEEK_CUR then old(file.seek) + offset
                              else old(file.seek);
              if 0 <= position <= file.length then file.seek == position && result == Ok(position)
              else file.seek == old(file.seek) && result == InvalidParameter
    {
      var position: int := file.seek;
      if flags == MB_SEEK_SET {
        position := offset;
      }
      if flags == MB_SEEK_END {
        position := file.length + offset;
      }
      if flags == MB_SEEK_CUR {
        position := file.seek + offset;
      }
      if position < 0 || position > file.length {
        return InvalidParameter;
      }
      file.seek := position;
      return Ok(position);
    }

    /** Reads from the position of a file, up to its end. */
    method Read(file: FileDescriptor, size: nat) returns (result: Result, data: seq<Byte>)
      requires Valid() && Open(file)
      modifies file`seek
      ensures Valid() && Open(file)
      ensures size == 0 ==> result == InvalidParameter && data == []
      ensures size > 0 ==>
                && result == Ok(|data|)
                && |data| == if size < old(file.length - file.seek) then size else old(file.length - file.seek)
      ensures old(file.seek) + |data| <= file.length && data == old(Bytes(file))[old(file.seek)..old(file.seek) + |data|]
      ensures file.seek == old(file.seek) + |data| && file.length == old(file.length) && Bytes(file) == old(Bytes(file))
    {
      hide MicroBitFileSystem.Valid, MicroBitFileSystem.Part, MicroBitFileSystem.Held;
      data := [];
      if size == 0 {
        return InvalidParameter, data;
      }
      var n := if size < file.length - file.seek then size else file.length - file.seek;
      PartOf(file, n);
      data := CopyFromFile(file, n);
      file.seek := file.seek + n;
      result := Ok(n);
    }

    lemma PartOf(file: FileDescriptor, size: nat)
      requires Valid() && Open(file) && file.seek + size <= file.length
      ensures Part(file, size) == Bytes(file)[file.seek..file.seek + size]
    {
      hide MicroBitFileSystem.Valid, MicroBitFileSystem.Bytes;
    }

    /** The next bytes of a file. */
    ghost function Part(file: FileDescriptor, size: nat): (part: seq<Byte>)
      reads this, flash, file
      requires Valid() && Open(file) && file.seek + size <= file.length
      ensures |part| == size
    {
      hide *;
      Bytes(file)[file.seek..file.seek + size]
    }

    /** Copies bytes from the position of a file. */
    method CopyFromFile(file: FileDescriptor, size: nat) returns (data: seq<Byte>)
      requires Valid() && Open(file) && file.seek + size <= file.length
      ensures data == Part(file, size)
    {
      hide Files, Table, TableSize, CountUnused, IsChain;
      hide MicroBitFileSystem.Region, MicroBitFileSystem.Entries, MicroBitFileSystem.Data, MicroBitFileSystem.Attached;
      ghost var held := Held()[file.dirent];
      var block, position, k := FindBlock(file.dirent, file.seek);
      data := CopySegmentsFrom(file.dirent, k, block, file.seek - position, size, held);
      assert held[..file.length][file.seek..file.seek + size] == held[file.seek..file.seek + size];
    }

    /** Copies bytes from an offset of block k on, segment by segment. */
    method CopySegmentsFrom(ghost e: Dirent, ghost k0: nat, firstBlock: nat, firstOffset: nat, size: nat, ghost held: seq<Byte>)
      returns (data: seq<Byte>)
      requires Valid() && e in chains && k0 < |chains[e]| && firstBlock == chains[e][k0] && firstOffset <= BLOCK
      requires held == Held()[e] && |held| == BLOCK * |chains[e]| && BLOCK * k0 + firstOffset + size <= |held|
      ensures data == held[BLOCK * k0 + firstOffset..BLOCK * k0 + firstOffset + size]
    {
      hide MicroBitFileSystem.Valid, MicroBitFileSystem.Held, Files;
      ghost var seek, k := BLOCK * k0 + firstOffset, k0;
      var block: nat, offset: nat, bytesCopied: nat := firstBlock, firstOffset, 0;
      data := [];
      while bytesCopied < size
        invariant bytesCopied <= size && offset <= BLOCK && BLOCK * k + offset == seek + bytesCopied
        invariant k <= |chains[e]| && (k < |chains[e]| ==> block == chains[e][k])
        invariant offset == BLOCK ==> bytesCopied == 0
        invariant data == held[seek..seek + bytesCopied]
        decreases size - bytesCopied, if offset == BLOCK then 1 else 0
      {
        var segmentLength := if size - bytesCopied < BLOCK - offset then size - bytesCopied else BLOCK - offset;
        if segmentLength > 0 {
          var segment := ReadSegment(e, k, block, offset, segmentLength);
          assert data + segment == held[seek..seek + bytesCopied + segmentLength];
          data := data + segment;
        }
        bytesCopied := bytesCopied + segmentLength;
        offset := offset + segmentLength;
        if offset == BLOCK {
          block := NextInFile(e, k, block);
          k := k + 1;
          offset := 0;
        }
      }
    }
  }

  datatype Result = Ok(value: int) | InvalidParameter

  /** A file that is being appended to: its blocks at first, the other files and what they hold, the directories, and
      the number of blocks that it can have. */
  datatype Growth = Growth(e: Dirent, chain: seq<nat>, chains: map<Dirent, seq<nat>>, held: map<Dirent, seq<Byte>>,
                           listed: map<nat, seq<Byte>>, room: nat)

  /** Block k of a partly freed chain still has its link. */
  lemma NextToFree(t: seq<nat>, c: seq<nat>, k: nat, t': seq<nat>)
    requires IsChain(t, c) && k < |c| && |t| <= EOF && Freed(t, c[..k], t')
    ensures c[k] < |t| && t'[c[k]] == if k + 1 < |c| then c[k + 1] else EOF
    ensures Freed(t, c[..k + 1], t'[c[k] := DELETED])
  {
    assert c[k] !in c[..k];
    EndIsLast(t, c, k);
    assert c[..k + 1] == c[..k] + [c[k]];
  }

  lemma InChain(t: seq<nat>, c: seq<nat>, k: nat)
    requires IsChain(t, c) && k <= |c| && |t| <= EOF && (k < |c| ==> c[k] == EOF)
    ensures k == |c|
  {
  }

  lemma NextSegment(text: seq<Byte>, buffer: seq<Byte>, done: nat, n: nat)
    requires done + n <= |buffer|
    ensures text + buffer[..done + n] == text + buffer[..done] + buffer[done..done + n]
  {
    assert buffer[..done + n] == buffer[..done] + buffer[done..done + n];
  }

  lemma LastBlockIs(len: nat, i: nat, k: nat)
    requires k == BlocksFor(len) && i < k && BLOCK * i <= len <= BLOCK * i + BLOCK && (i > 0 ==> BLOCK * i < len)
    ensures i == k - 1 && (len == BLOCK * i ==> k == 1)
  {
  }

  function NextIndex(last: nat, size: nat): nat
    requires size > 0
  {
    (last + 1) % size
  }

  lemma NextIndexIs(last: nat, size: nat)
    requires last < size
    ensures NextIndex(last, size) == if last + 1 < size then last + 1 else 0
  {
    if last + 1 < size {
      Arithmetic.OffsetSmall(last + 1, size);
    } else {
      Arithmetic.OffsetOfSelf(size);
    }
  }

  lemma CountAfterExtend(t: seq<nat>, newBlock: nat, block: nat)
    requires newBlock < |t| && block < |t| && block != newBlock && t[block] != UNUSED && newBlock != UNUSED
    ensures CountUnused(t[newBlock := EOF][block := newBlock], newBlock + 1) == CountUnused(t, newBlock + 1)
  {
    hide CountUnused;
    CountKept(t, newBlock, EOF, newBlock + 1);
    CountKept(t[newBlock := EOF], block, newBlock, newBlock + 1);
  }

  /** Looks for a file system, and reads its size. The table must name a block in the flash. */
  method Load(flash: Chip.MicroBitFlash, fileSystemTable: nat) returns (found: bool, fileSystemSize: nat)
    requires fileSystemTable + 2 <= |flash.device|
    requires fileSystemTable + BLOCK * (EntryAt(flash.device, fileSystemTable, 0) + 1) <= |flash.device|
    ensures found == LooksFormatted(flash.device, fileSystemTable)
    ensures found <==>
              var root := EntryAt(flash.device, fileSystemTable, 0);
              && (forall i | 0 <= i < root :: EntryAt(flash.device, fileSystemTable, i) == root < 0xEFFF)
              && flash.device[fileSystemTable + BLOCK * root..fileSystemTable + BLOCK * root + |MAGIC|] == MAGIC
    ensures found ==> fileSystemSize == StoredSize(flash.device, fileSystemTable)
  {
    hide EntryAt, StoredSize;
    var rootOffset := EntryAt(flash.device, fileSystemTable, 0);
    fileSystemSize := 0;
    for i := 0 to rootOffset
      invariant forall j | 0 <= j < i :: EntryAt(flash.device, fileSystemTable, j) == rootOffset
      invariant i > 0 ==> rootOffset < EOF
    {
      var entry := EntryAt(flash.device, fileSystemTable, i);
      if entry >= EOF || entry != rootOffset {
        return false, 0;
      }
    }
    var root := fileSystemTable + BLOCK * rootOffset;
    if flash.device[root..root + |MAGIC|] != MAGIC {
      return false, 0;
    }
    found, fileSystemSize := true, StoredSize(flash.device, fileSystemTable);
  }

  lemma SomeTable(n: nat)
    requires n > 0
    ensures TableSize(n) > 0
  {
  }

  lemma SameWritable(mem: seq<Byte>, start: nat, size: nat, at: nat, data: seq<Byte>)
    requires start + size <= |mem| && at + |data| <= size
    ensures Writable(mem, start + at, data) <==> Writable(mem[start..start + size], at, data)
    ensures Writable(mem, start + at, data) ==>
              var mem' := Put(mem, start + at, data);
              mem'[..start] + mem'[start + size..] == mem[..start] + mem[start + size..]
  {
    hide Clears;
    var r := mem[start..start + size];
    assert forall j | 0 <= j < size :: r[j] == mem[start + j];
  }

  lemma WholeWithin(data: seq<Byte>, offset: nat)
    requires offset + |data| <= Chip.CODEPAGESIZE
    ensures Chip.Within(data, offset) == data
  {
  }

  lemma EntryInBlock(b: nat)
    ensures (2 * b) % BLOCK + 2 <= BLOCK
  {
  }

  lemma OffsetInBlock(b: nat, off: nat)
    requires off < BLOCK
    ensures (BLOCK * b + off) % BLOCK == off
  {
  }

  /** Bytes of a block lie within one page of the file system. */
  lemma WithinPage(start: nat, n: nat, at: nat, length: nat)
    requires start % Chip.CODEPAGESIZE == 0 && n % 16 == 0 && at % BLOCK + length <= BLOCK
    requires 0 < length && at + length <= BLOCK * n
    ensures (start + at) % Chip.CODEPAGESIZE + length <= Chip.CODEPAGESIZE
    ensures start <= start + at - (start + at) % Chip.CODEPAGESIZE <= start + BLOCK * n - Chip.CODEPAGESIZE
  {
    SamePageOffset(start, at);
    BlockOfPage(at);
    PageInside(at, n / 16);
  }

  lemma SamePageOffset(start: nat, at: nat)
    requires start % Chip.CODEPAGESIZE == 0
    ensures (start + at) % Chip.CODEPAGESIZE == at % Chip.CODEPAGESIZE
  {
  }

  lemma PageInside(at: nat, pages: nat)
    requires at < Chip.CODEPAGESIZE * pages
    ensures at - at % Chip.CODEPAGESIZE + Chip.CODEPAGESIZE <= Chip.CODEPAGESIZE * pages
  {
  }

  lemma BlockOfPage(at: nat)
    ensures (at % Chip.CODEPAGESIZE) % BLOCK == at % BLOCK
    ensures at % Chip.CODEPAGESIZE <= at % BLOCK + Chip.CODEPAGESIZE - BLOCK
  {
    var q, r := at / Chip.CODEPAGESIZE, at % Chip.CODEPAGESIZE;
    assert at == BLOCK * (16 * q + r / BLOCK) + r % BLOCK;
    Arithmetic.DivUnique(at, BLOCK, 16 * q + r / BLOCK);
  }

  lemma RegionAfter(mem: seq<Byte>, start: nat, size: nat, at: nat, data: seq<Byte>, page: nat, scratch: nat)
    requires start + size <= |mem| && at + |data| <= size && page + Chip.CODEPAGESIZE <= |mem|
    requires scratch + Chip.CODEPAGESIZE <= |mem|
    requires scratch + Chip.CODEPAGESIZE <= start || start + size <= scratch
    ensures Put(mem, start + at, data)[start..start + size] == Put(mem[start..start + size], at, data)
    ensures Put(Chip.Saved(mem, page, scratch), start + at, data)[start..start + size] == Put(mem[start..start + size], at, data)
  {
  }
}
