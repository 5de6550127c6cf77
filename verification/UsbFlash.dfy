/** MicroBitUSBFlashManager: a NOR flash behind the USB interface chip, reached by read, write and page-erase
    transactions that are taken to succeed. */
module UsbFlash {
  import opened NorFlash
  import opened Blocks

  const MAX_FLASH_STORAGE := 0x1F000
  const WORD := 4

  datatype Status = OK | I2C_ERROR | INVALID_PARAMETER | INVALID_STATE | NOT_SUPPORTED | NO_RESOURCES

  /** Addresses are computed in 32 bits. */
  function U32(n: int): nat {
    n % 0x1_0000_0000
  }

  lemma Fits32(n: nat)
    requires n < 0x1_0000_0000
    ensures U32(n) == n
  {
  }

  /** What an erase of words makes of the flash. An empty range at address 0 ends one block before that: page by page,
      everything is erased up to the end of the flash, where the chip refuses. */
  function Erased(mem: seq<Byte>, address: nat, words: nat, singlePageErase: bool): (mem': seq<Byte>)
    requires address + words * WORD <= |mem|
    ensures |mem'| == |mem|
  {
    if words == 0 && address == 0 && singlePageErase then Blank(|mem|) else Put(mem, address, Blank(words * WORD))
  }

  /** Page by page, exactly the range is erased, whatever it holds, if and only if it is not the empty one at address 0. */
  lemma ErasesExactly(size: nat, address: nat, words: nat)
    requires 0 < size && address + words * WORD <= size
    ensures (forall mem: seq<Byte> | |mem| == size :: Erased(mem, address, words, true) == Put(mem, address, Blank(words * WORD)))
       <==> words > 0 || address > 0
  {
    if words == 0 && address == 0 {
      var mem := Zeros(size);
      assert Erased(mem, 0, 0, true)[0] == ERASED && Put(mem, 0, Blank(0))[0] == 0;
    }
  }

  class MicroBitUSBFlashManager {
    /** The geometry as reported by the chip, with the number of blocks capped. */
    const blockSize: nat
    const blockCount: nat
    const maxWriteLength: nat
    const singlePageErase: bool

    /** The bytes on the device. */
    var device: seq<Byte>

    ghost predicate Valid()
      reads this
    {
      && 0 < blockSize && blockSize % WORD == 0
      && 0 < maxWriteLength && maxWriteLength % WORD == 0
      && |device| == FlashEnd() <= MAX_FLASH_STORAGE && Offset(|device|, blockSize) == 0
    }

    /** The device can report more blocks than are used. */
    constructor (blockSize: nat, reportedBlocks: nat, singlePageErase: bool, content: seq<Byte>)
      requires 0 < blockSize && blockSize % WORD == 0
      requires |content| == blockSize * UsedBlocks(blockSize, reportedBlocks)
      ensures Valid() && device == content && |device| <= MAX_FLASH_STORAGE
      ensures this.blockSize == blockSize && this.singlePageErase == singlePageErase
      ensures blockCount <= reportedBlocks && |device| == blockSize * blockCount
      ensures blockCount == reportedBlocks || |device| + blockSize > MAX_FLASH_STORAGE
    {
      hide Offset, UsedBlocks;
      this.blockSize := blockSize;
      blockCount := UsedBlocks(blockSize, reportedBlocks);
      maxWriteLength := 64;
      this.singlePageErase := singlePageErase;
      device := content;
      new;
      Capped(blockSize, reportedBlocks);
    }

    function FlashEnd(): nat {
      blockSize * blockCount
    }

    method Read(address: nat, length: nat) returns (data: seq<Byte>)
      requires Valid() && address + length * WORD <= |device|
      ensures data == device[address..address + length * WORD]
    {
      data := device[address..address + length * WORD];
    }

    /** One write transaction. */
    method TransactWrite(address: nat, data: seq<Byte>)
      requires Valid() && |data| <= maxWriteLength && address + |data| <= |device|
      modifies this
      ensures Valid() && device == Burn(old(device), address, data)
    {
      device := Burn(device, address, data);
    }

    /** One erase transaction: every block from the one at `first` to the one at `last`. The chip is taken to refuse
        blocks that it does not have. */
    method TransactErase(first: nat, last: nat) returns (ok: bool)
      requires Valid()
      modifies this
      ensures Valid() && ok == (first <= last && last + blockSize <= |device|)
      ensures device == if ok then Put(old(device), first, Blank(last + blockSize - first)) else old(device)
    {
      ok := first <= last && last + blockSize <= |device|;
      if ok {
        device := Put(device, first, Blank(last + blockSize - first));
      }
    }

    /** Writes words in transactions of bounded length, which together are one write. */
    method Write(address: nat, data: seq<Byte>)
      requires Valid() && |data| % WORD == 0 && address + |data| <= |device|
      modifies this
      ensures Valid() && device == Burn(old(device), address, data)
    {
      hide Burn;
      var bytesWritten := 0;
      assert Burn(device, address, data[..0]) == device;
      while bytesWritten < |data|
        invariant bytesWritten <= |data|
        invariant Valid() && |device| == |old(device)|
        invariant device == Burn(old(device), address, data[..bytesWritten])
      {
        var segmentLength := if maxWriteLength < |data| - bytesWritten then maxWriteLength else |data| - bytesWritten;
        var segment := data[bytesWritten..bytesWritten + segmentLength];
        TransactWrite(address + bytesWritten, segment);
        assert device == Burn(old(device), address, data[..bytesWritten] + segment) by {
          BurnsJoin(old(device), address, data[..bytesWritten], segment);
        }
        assert data[..bytesWritten] + segment == data[..bytesWritten + segmentLength];
        bytesWritten := bytesWritten + segmentLength;
      }
      assert data[..bytesWritten] == data;
    }

    /** Erases exactly the given words: blocks only partly in the range are read, erased and rewritten. An empty range of
        whole blocks is refused by a chip that erases all blocks at once. */
    method EraseRange(address: nat, words: nat) returns (status: Status)
      requires Valid() && address % WORD == 0 && address + words * WORD < 0x1_0000_0000
      modifies this
      ensures Valid()
      ensures if address + words * WORD > |device| then status == INVALID_PARAMETER && device == old(device)
              else device == Erased(old(device), address, words, singlePageErase)
      ensures address + words * WORD <= |device| ==>
                status == if words == 0 && (if singlePageErase then address == 0 else Offset(address, blockSize) == 0)
                          then I2C_ERROR else OK
    {
      hide Floor, Offset, Put, Burn, Blank, U32, EraseEnd;
      var length := words * WORD;
      if address + length > FlashEnd() {
        return INVALID_PARAMETER;
      }
      var eraseStart := Floor(address, blockSize);
      var eraseEnd := EraseEnd(address + length, blockSize);
      Bounds(address, length);
      PutNothing(device, address);
      ErasedOrBlank(device, address, words);
      hide Erased;
      status := EraseBetween(address, length, eraseStart, eraseEnd);
    }

    lemma Bounds(address: nat, length: nat)
      requires Valid() && address % WORD == 0 && length % WORD == 0 && address + length <= |device|
      ensures var start, end, last := Floor(address, blockSize), address + length, EraseEnd(address + length, blockSize);
              && start <= address && Offset(start, blockSize) == 0
              && if end == 0 then
                   last >= |device| && U32(last - start + blockSize) == 0 && Offset(address, blockSize) == 0
                 else
                   && Offset(last, blockSize) == 0 && start <= last + blockSize
                   && last < end <= last + blockSize <= |device|
                   && (address - start) % WORD == 0 && (last + blockSize - end) % WORD == 0
                   && Offset(blockSize - Offset(end, blockSize), blockSize) == last + blockSize - end
                   && (last < start <==> length == 0 && Offset(address, blockSize) == 0)
    {
      hide Floor, Offset, EraseEnd, U32;
      if address + length == 0 {
        EmptyRange(blockSize, |device|);
      } else {
        EraseBounds(address, length, blockSize, |device|);
      }
    }

    /** Saves the edges, erases, and restores, unless the erase has been refused. */
    method EraseBetween(address: nat, length: nat, eraseStart: nat, eraseEnd: nat) returns (status: Status)
      requires Valid() && eraseStart <= address && address + length <= |device| && Offset(eraseStart, blockSize) == 0
      requires if address + length == 0 then eraseEnd >= |device| && U32(eraseEnd - eraseStart + blockSize) == 0 else
                 && Offset(eraseEnd, blockSize) == 0 && eraseStart <= eraseEnd + blockSize
                 && eraseEnd < address + length <= eraseEnd + blockSize <= |device|
                 && (address - eraseStart) % WORD == 0 && (eraseEnd + blockSize - (address + length)) % WORD == 0
                 && Offset(blockSize - Offset(address + length, blockSize), blockSize) == eraseEnd + blockSize - (address + length)
      modifies this
      ensures Valid()
      ensures if address + length == 0 then
                && status == I2C_ERROR
                && device == if singlePageErase then Blank(|device|) else old(device)
              else if eraseEnd < eraseStart && !singlePageErase then
                status == I2C_ERROR && device == old(device)
              else
                status == OK && device == Put(old(device), address, Blank(length))
    {
      hide Offset, Put, Burn, Blank, FlashEnd, U32;
      var restore1, restore2 := SaveEdges(address, length, eraseStart, eraseEnd);
      var ok := ErasePages(eraseStart, eraseEnd);
      if !ok {
        PutAll(old(device));
        return I2C_ERROR;
      }
      if eraseEnd < eraseStart {
        MultiplesApart(eraseEnd, eraseStart, blockSize);
        PutNothing(device, eraseStart);
      }
      assert device == Put(old(device), eraseStart, Blank(eraseEnd + blockSize - eraseStart));
      RestoreEdges(old(device), eraseStart, address, address + length, eraseEnd + blockSize, restore1, restore2);
      return OK;
    }

    method RestoreEdges(ghost before: seq<Byte>, start: nat, from: nat, end: nat, ghost limit: nat,
                        restore1: seq<Byte>, restore2: seq<Byte>)
      requires Valid() && start <= from <= end <= limit <= |before| == |device|
      requires device == Put(before, start, Blank(limit - start))
      requires restore1 == before[start..from] && restore2 == before[end..limit]
      requires |restore1| % WORD == 0 && |restore2| % WORD == 0
      modifies this
      ensures Valid() && device == Put(before, from, Blank(end - from))
    {
      hide Offset, Put, Burn, Blank, FlashEnd;
      Restore(start, restore1);
      Restore(end, restore2);
      RestoreAfterErase(before, start, from, end, limit);
    }

    /** The bytes of the first and last block that lie outside the range. */
    method SaveEdges(address: nat, length: nat, eraseStart: nat, eraseEnd: nat) returns (restore1: seq<Byte>, restore2: seq<Byte>)
      requires Valid() && eraseStart <= address && address + length <= |device|
      requires if address + length == 0 then U32(eraseEnd - eraseStart + blockSize) == 0 else
                 && eraseEnd < address + length <= eraseEnd + blockSize <= |device|
                 && (address - eraseStart) % WORD == 0 && (eraseEnd + blockSize - (address + length)) % WORD == 0
                 && Offset(blockSize - Offset(address + length, blockSize), blockSize) == eraseEnd + blockSize - (address + length)
      ensures restore1 == device[eraseStart..address]
      ensures address + length > 0 ==> restore2 == device[address + length..eraseEnd + blockSize]
    {
      hide Offset, FlashEnd, U32;
      restore1, restore2 := [], [];
      if address + length > 0 {
        Fits32(eraseEnd - eraseStart + blockSize);
      }
      if eraseStart != address || length != U32(eraseEnd - eraseStart + blockSize) {
        var restoreLength1 := address - eraseStart;
        var restoreLength2 := Offset(blockSize - Offset(address + length, blockSize), blockSize);
        if restoreLength1 > 0 {
          restore1 := Read(eraseStart, restoreLength1 / WORD);
        }
        if restoreLength2 > 0 {
          restore2 := Read(address + length, restoreLength2 / WORD);
        }
      }
    }

    /** Writes back saved bytes, if there are any. */
    method Restore(address: nat, saved: seq<Byte>)
      requires Valid() && |saved| % WORD == 0 && address + |saved| <= |device|
      modifies this
      ensures Valid() && device == Burn(old(device), address, saved)
    {
      if |saved| > 0 {
        Write(address, saved);
      }
    }

    /** Erases the blocks from `first` to `last`, one transaction each or all at once, until one is refused. */
    method ErasePages(first: nat, last: nat) returns (ok: bool)
      requires Valid() && Offset(first, blockSize) == 0 && first <= |device|
      requires Offset(last, blockSize) == 0 || last >= |device|
      modifies this
      ensures Valid()
      ensures ok == if last < first then singlePageErase else last + blockSize <= |device|
      ensures device == if last < first then old(device)
                        else if last + blockSize <= |device| then Put(old(device), first, Blank(last + blockSize - first))
                        else if singlePageErase then Put(old(device), first, Blank(|device| - first))
                        else old(device)
    {
      hide Offset, Put, FlashEnd;
      if !singlePageErase {
        ok := TransactErase(first, last);
        return;
      }
      var page := first;
      OffsetOfSelf(blockSize);
      assert device == Put(device, first, Blank(0)) by { PutNothing(device, first); }
      while page <= last
        invariant first <= page <= |device| && Offset(page, blockSize) == 0
        invariant page > first ==> first <= last && page <= last + blockSize
        invariant Valid() && |device| == |old(device)|
        invariant device == Put(old(device), first, Blank(page - first))
        decreases |device| - page
      {
        ok := TransactErase(page, page);
        PageEnds(page, |device|, blockSize);
        if !ok {
          return;
        }
        PutsJoin(old(device), first, Blank(page - first), Blank(blockSize));
        assert Blank(page - first) + Blank(blockSize) == Blank(page + blockSize - first);
        page := page + blockSize;
      }
      ok := true;
      if first <= last {
        PageEnds(last, |device|, blockSize);
        MultiplesApart(last, page, blockSize);
      }
    }

    /** Erases the block at a block address. */
    method Erase(page: nat)
      requires Valid() && Offset(page, blockSize) == 0 && page + blockSize <= |device|
      modifies this
      ensures Valid() && device == Put(old(device), page, Blank(blockSize))
    {
      WordMultiple(page, blockSize);
      var _ := EraseRange(page, blockSize / WORD);
    }
  }

  /** The last block to be erased is the one that the range ends in or with. */
  lemma LastErased(end: nat, n: nat, size: nat)
    requires 0 < n && 0 < end <= size < 0x1_0000_0000 && Offset(size, n) == 0
    ensures var last := EraseEnd(end, n);
            && Offset(last, n) == 0 && last < end <= last + n <= size
            && Offset(n - Offset(end, n), n) == last + n - end
  {
    hide Floor, Offset;
    FloorBounds(end, n);
    OffsetOfSelf(n);
    if Offset(end, n) == 0 {
      MultiplesApart(0, end, n);
      SumOfMultiples(end, n, n);
      Fits32(end - n);
    } else {
      MultiplesApart(Floor(end, n), size, n);
      OffsetSmall(n - Offset(end, n), n);
      Fits32(Floor(end, n));
    }
  }

  /** The blocks an erase touches: they enclose the range, and the parts to restore are whole words. */
  lemma EraseBounds(address: nat, length: nat, n: nat, size: nat)
    requires n > 0 && n % WORD == 0 && address % WORD == 0 && length % WORD == 0 && (length > 0 || address > 0)
    requires address + length <= size < 0x1_0000_0000 && Offset(size, n) == 0
    ensures var start, end := Floor(address, n), address + length;
            var last := EraseEnd(end, n);
            && start <= address && Offset(start, n) == 0 && Offset(last, n) == 0
            && start <= last + n <= size && (start <= last <==> length > 0 || Offset(address, n) != 0)
            && last < end <= last + n
            && Offset(n - Offset(end, n), n) == last + n - end
            && (address - start) % WORD == 0 && (last + n - end) % WORD == 0
  {
    hide Floor, Offset, EraseEnd;
    var start, end := Floor(address, n), address + length;
    var last := EraseEnd(end, n);
    FloorBounds(address, n);
    LastErased(end, n, size);
    OffsetOfSelf(n);
    SumOfMultiples(last, n, n);
    if start < last + n { MultiplesApart(start, last + n, n); }
    if start > last { MultiplesApart(last, start, n); }
    WordMultiple(start, n);
    WordMultiple(last, n);
  }

  /** The last block of a range that ends at `end`. */
  function EraseEnd(end: nat, n: nat): nat
    requires n > 0
  {
    U32(Floor(end, n) - if Offset(end, n) == 0 then n else 0)
  }

  /** The empty range at address 0 seems to end behind the flash, and to need no block to be restored. */
  lemma EmptyRange(n: nat, size: nat)
    requires 0 < n && Offset(size, n) == 0 && size <= MAX_FLASH_STORAGE
    ensures Floor(0, n) == 0 && Offset(0, n) == 0
    ensures EraseEnd(0, n) >= size && U32(EraseEnd(0, n) + n) == 0
  {
    hide Floor, Offset;
    FloorBounds(0, n);
    OffsetOfSelf(n);
    WrapsBelow(n);
    if size > 0 {
      MultiplesApart(0, size, n);
    }
  }

  lemma WrapsBelow(n: nat)
    ensures U32(U32(0 - n) + n) == 0
    ensures 0 < n < 0x1_0000_0000 ==> U32(0 - n) == 0x1_0000_0000 - n
  {
  }

  /** A page address is the end of the flash, or a whole page lies there. */
  lemma PageEnds(page: nat, size: nat, n: nat)
    requires n > 0 && Offset(page, n) == 0 && Offset(size, n) == 0 && page <= size
    ensures page + n <= size <==> page < size
    ensures Offset(page + n, n) == 0
  {
    hide Offset;
    OffsetOfSelf(n);
    SumOfMultiples(page, n, n);
    if page < size {
      MultiplesApart(page, size, n);
    }
  }

  /** As many blocks as are reported, but no more than the storage limit allows. */
  function UsedBlocks(blockSize: nat, reportedBlocks: nat): nat
    requires blockSize > 0
  {
    if reportedBlocks * blockSize > MAX_FLASH_STORAGE then MAX_FLASH_STORAGE / blockSize else reportedBlocks
  }

  lemma Capped(blockSize: nat, reportedBlocks: nat)
    requires blockSize > 0
    ensures var size := blockSize * UsedBlocks(blockSize, reportedBlocks);
            size <= MAX_FLASH_STORAGE && Offset(size, blockSize) == 0
            && UsedBlocks(blockSize, reportedBlocks) <= reportedBlocks
            && (UsedBlocks(blockSize, reportedBlocks) == reportedBlocks || size + blockSize > MAX_FLASH_STORAGE)
  {
    hide Floor, Offset;
    var most, count := MAX_FLASH_STORAGE / blockSize, UsedBlocks(blockSize, reportedBlocks);
    assert most * blockSize <= MAX_FLASH_STORAGE < most * blockSize + blockSize by { FloorOf(MAX_FLASH_STORAGE, blockSize); }
    assert blockSize * count == count * blockSize;
    Multiple(count, blockSize);
    if reportedBlocks < most { MulOrder(reportedBlocks, most, blockSize); }
  }

  lemma ErasedOrBlank(mem: seq<Byte>, address: nat, words: nat)
    requires address + words * WORD <= |mem|
    ensures Erased(mem, address, words, true) == if words == 0 && address == 0 then Blank(|mem|) else Put(mem, address, Blank(words * WORD))
    ensures Erased(mem, address, words, false) == Put(mem, address, Blank(words * WORD))
  {
  }

  lemma FloorOf(a: nat, n: nat)
    requires n > 0
    ensures (a / n) * n <= a < (a / n) * n + n
  {
    FloorBounds(a, n);
  }

  lemma PutAll(mem: seq<Byte>)
    ensures Put(mem, 0, Blank(|mem|)) == Blank(|mem|)
  {
  }

  lemma PutNothing(mem: seq<Byte>, at: nat)
    requires at <= |mem|
    ensures Put(mem, at, Blank(0)) == mem
  {
  }

  lemma WordMultiple(a: nat, n: nat)
    requires n > 0 && n % WORD == 0 && Offset(a, n) == 0
    ensures a % WORD == 0
  {
    MultipleOfDivisor(a, n, WORD);
  }

  lemma RestoreAfterErase(mem: seq<Byte>, start: nat, from: nat, to: nat, limit: nat)
    requires start <= from <= to <= limit <= |mem|
    ensures Burn(Burn(Put(mem, start, Blank(limit - start)), start, mem[start..from]), to, mem[to..limit])
            == Put(mem, from, Blank(to - from))
  {
  }
}
