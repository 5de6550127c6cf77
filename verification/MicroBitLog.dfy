/** MicroBitLog: an append-only text log on flash, behind a write-through cache, with a journal of its length. */
module Log {
  import opened NorFlash
  import opened Blocks
  import opened UsbFlash
  import opened RecentlyUsed
  import opened FsCache
  import opened LogText
  import opened LogRows
  import opened LogImage
  import opened LogFile

  /** The number of blocks that the cache holds, and bounds for the accesses of a clear and of one move of the journal. */
  const CACHE_ENTRIES: nat := 4
  const CLEAR_TICKS: nat := 2 * META_LENGTH + 2 * JOURNAL_ENTRY
  const JOURNAL_TICKS: nat := 2 + 4 * JOURNAL_ENTRY

  datatype ColumnEntry = ColumnEntry(key: seq<Byte>, value: seq<Byte>)

  function Keys(rowData: seq<ColumnEntry>): (k: seq<seq<Byte>>)
    ensures |k| == |rowData|
  {
    seq(|rowData|, i requires 0 <= i < |rowData| => rowData[i].key)
  }

  function Values(rowData: seq<ColumnEntry>): (v: seq<seq<Byte>>)
    ensures |v| == |rowData|
  {
    seq(|rowData|, i requires 0 <= i < |rowData| => rowData[i].value)
  }

  /** The row with a cell set: in the column of the key, or in a new last column. */
  function WithEntry(rowData: seq<ColumnEntry>, key: seq<Byte>, value: seq<Byte>): (r: seq<ColumnEntry>)
    ensures |rowData| <= |r|
  {
    if rowData == [] then [ColumnEntry(key, value)]
    else if rowData[0].key == key then [ColumnEntry(key, value)] + rowData[1..]
    else [rowData[0]] + WithEntry(rowData[1..], key, value)
  }

  lemma KeysOf(rowData: seq<ColumnEntry>)
    requires rowData != []
    ensures Keys(rowData) == [rowData[0].key] + Keys(rowData[1..])
  {
  }

  /** Setting a cell keeps the columns in place and the other cells as they are. */
  lemma WithEntrySets(rowData: seq<ColumnEntry>, key: seq<Byte>, value: seq<Byte>)
    ensures var r := WithEntry(rowData, key, value);
            && Keys(r) == (if key in Keys(rowData) then Keys(rowData) else Keys(rowData) + [key])
            && ColumnEntry(key, value) in r
            && forall i | 0 <= i < |r| :: r[i] == ColumnEntry(key, value) || (i < |rowData| && r[i] == rowData[i])
  {
    WithEntryKeys(rowData, key, value);
    WithEntryCells(rowData, key, value);
  }

  lemma {:induction false} WithEntryCells(rowData: seq<ColumnEntry>, key: seq<Byte>, value: seq<Byte>)
    ensures var r := WithEntry(rowData, key, value);
            && ColumnEntry(key, value) in r
            && forall i | 0 <= i < |r| :: r[i] == ColumnEntry(key, value) || (i < |rowData| && r[i] == rowData[i])
  {
    if rowData == [] || rowData[0].key == key {
      assert WithEntry(rowData, key, value)[0] == ColumnEntry(key, value);
    } else {
      WithEntryCells(rowData[1..], key, value);
      assert WithEntry(rowData, key, value)[1..] == WithEntry(rowData[1..], key, value);
    }
  }

  lemma {:induction false} WithEntryKeys(rowData: seq<ColumnEntry>, key: seq<Byte>, value: seq<Byte>)
    ensures Keys(WithEntry(rowData, key, value)) == if key in Keys(rowData) then Keys(rowData) else Keys(rowData) + [key]
  {
    if rowData == [] {
      assert Keys(WithEntry(rowData, key, value)) == [key];
    } else {
      var rest, r := rowData[1..], WithEntry(rowData, key, value);
      KeysOf(rowData);
      if rowData[0].key != key {
        WithEntryKeys(rest, key, value);
        KeysOf(r);
        assert r[1..] == WithEntry(rest, key, value);
        hide Keys, WithEntry;
        assert key in Keys(rowData) <==> key in Keys(rest);
        assert r[1..] + [] == r[1..];
        assert [rowData[0].key] + (Keys(rest) + [key]) == Keys(rowData) + [key];
      } else {
        assert Keys(r) == Keys(rowData);
      }
    }
  }

  /** The entry of the first column with the key. */
  lemma {:induction false} WithEntryAt(rowData: seq<ColumnEntry>, key: seq<Byte>, value: seq<Byte>, k: nat)
    requires k <= |rowData| && forall i | 0 <= i < k :: rowData[i].key != key
    requires k < |rowData| ==> rowData[k].key == key
    ensures WithEntry(rowData, key, value)
            == if k < |rowData| then rowData[k := ColumnEntry(key, value)] else rowData + [ColumnEntry(key, value)]
  {
    if k == 0 {
    } else {
      WithEntryAt(rowData[1..], key, value, k - 1);
      assert WithEntry(rowData, key, value) == [rowData[0]] + WithEntry(rowData[1..], key, value);
      hide WithEntry;
      assert k < |rowData| ==> rowData[k := ColumnEntry(key, value)] == [rowData[0]] + rowData[1..][k - 1 := ColumnEntry(key, value)];
    }
  }

  lemma HasKey(rowData: seq<ColumnEntry>, key: seq<Byte>, k: nat)
    requires k <= |rowData| && forall i | 0 <= i < k :: rowData[i].key != key
    ensures k < |rowData| && rowData[k].key == key ==> key in Keys(rowData)
    ensures k == |rowData| ==> key !in Keys(rowData)
  {
    if k < |rowData| && rowData[k].key == key { assert Keys(rowData)[k] == key; }
  }

  lemma WithEntryIsClean(rowData: seq<ColumnEntry>, key: seq<Byte>, value: seq<Byte>)
    requires Printable(Keys(rowData)) && AllClean(Values(rowData)) && Clean(key) && ERASED !in key && Clean(value)
    ensures Printable(Keys(WithEntry(rowData, key, value))) && AllClean(Values(WithEntry(rowData, key, value)))
  {
    hide Clean;
    WithEntrySets(rowData, key, value);
    var r := WithEntry(rowData, key, value);
    forall i | 0 <= i < |r| ensures Clean(r[i].key) && ERASED !in r[i].key && Clean(r[i].value) {
      if i < |rowData| {
        assert Clean(Keys(rowData)[i]) && ERASED !in Keys(rowData)[i] && Clean(Values(rowData)[i]);
      }
    }
  }

  lemma CleanedIsCell(s: seq<Byte>)
    requires NUL !in s
    ensures Clean(Cleaned(s, true)) && (ERASED !in s ==> ERASED !in Cleaned(s, true))
  {
    CleanedIsClean(s, true);
    CleaningKeepsText(s, true, NUL);
    if ERASED !in s {
      CleaningKeepsText(s, true, ERASED);
    }
  }

  lemma EmptiedIsClean(rowData: seq<ColumnEntry>)
    ensures AllClean(Values(Emptied(rowData)))
  {
  }

  function Emptied(rowData: seq<ColumnEntry>): (r: seq<ColumnEntry>)
    ensures Keys(r) == Keys(rowData)
    ensures forall i | 0 <= i < |r| :: r[i].value == []
  {
    seq(|rowData|, i requires 0 <= i < |rowData| => ColumnEntry(rowData[i].key, []))
  }

  /** A row without any value is not logged. */
  function RowLine(rowData: seq<ColumnEntry>): seq<Byte> {
    if forall i | 0 <= i < |rowData| :: rowData[i].value == [] then [] else Line(Values(rowData))
  }

  ghost predicate EndsOnce(line: seq<Byte>) {
    line != [] && line[|line| - 1] == NEWLINE && forall i | 0 <= i < |line| - 1 :: line[i] != NEWLINE
  }

  /** The text is one line, whose fields are the values of the columns, in order. */
  ghost predicate TellsValues(line: seq<Byte>, rowData: seq<ColumnEntry>) {
    && EndsOnce(line) && |Fields(line, [])| == |rowData|
    && forall i | 0 <= i < |rowData| :: Fields(line, [])[i] == rowData[i].value
  }

  /** The text is one line, whose fields are the keys of the columns, in order. */
  ghost predicate TellsKeys(line: seq<Byte>, rowData: seq<ColumnEntry>) {
    && EndsOnce(line) && |Fields(line, [])| == |rowData|
    && forall i | 0 <= i < |rowData| :: Fields(line, [])[i] == rowData[i].key
  }

  /** The line of a row has the value of each column in its place; there is none exactly if no cell is set. */
  lemma RowTells(rowData: seq<ColumnEntry>)
    requires AllClean(Values(rowData))
    ensures if forall i | 0 <= i < |rowData| :: rowData[i].value == [] then RowLine(rowData) == []
            else TellsValues(RowLine(rowData), rowData)
  {
    hide Clean;
    if exists i :: 0 <= i < |rowData| && rowData[i].value != [] {
      LineReadsBack(Values(rowData));
      LineIsClean(Values(rowData));
    }
  }

  /** The line of headings has the key of each column in its place. */
  lemma HeadingsTell(rowData: seq<ColumnEntry>)
    requires rowData != [] && Printable(Keys(rowData))
    ensures TellsKeys(Line(Keys(rowData)), rowData)
  {
    hide Clean;
    LineReadsBack(Keys(rowData));
    LineIsClean(Keys(rowData));
  }

  class MicroBitLog {
    const flash: MicroBitUSBFlashManager
    const cache: FSCache

    /** The page shown to users, and the version of the interface chip. */
    const header: seq<Byte>
    const daplinkVersion: seq<Byte>

    var initialized: bool
    var full: bool
    var rowStarted: bool
    var dataStart: nat
    var logEnd: nat
    var journalHead: nat
    var dataEnd: nat
    var headingStart: nat
    var headingLength: nat
    var headingsChanged: bool
    var rowData: seq<ColumnEntry>
    var rowCount: nat

    /** The headings as last written to flash. */
    ghost var saved: seq<seq<Byte>>

    constructor (flash: MicroBitUSBFlashManager, header: seq<Byte>, daplinkVersion: seq<Byte>)
      requires flash.Valid() && Geometry(flash.blockSize, |flash.device|)
      requires |header| == HEADER_SIZE && |daplinkVersion| == 5
      ensures Attached() && Fresh() && this.flash == flash
      ensures this.header == header && this.daplinkVersion == daplinkVersion
      ensures fresh(cache) && fresh(cache.cache)
    {
      hide Offset, Floor;
      this.flash, this.header, this.daplinkVersion := flash, header, daplinkVersion;
      initialized, full, rowStarted, headingsChanged := false, false, false, false;
      dataStart, logEnd, journalHead, dataEnd := 0, 0, 0, 0;
      headingStart, headingLength, rowData, rowCount, saved := 0, 0, [], 0, [];
      MultipleOfDivisor(|flash.device|, flash.blockSize, CACHE_BLOCK);
      cache := new FSCache(flash, CACHE_BLOCK, CACHE_ENTRIES);
    }

    /** The flash, the cache over it and the geometry fit together. */
    ghost predicate Attached()
      reads flash, cache, cache.cache
    {
      && cache.flash == flash && cache.blockSize == CACHE_BLOCK && cache.cache.Length == CACHE_ENTRIES
      && cache.Valid()
      && Geometry(flash.blockSize, |flash.device|)
      && |header| == HEADER_SIZE && |daplinkVersion| == 5
    }

    /** Nothing has been read or written yet. */
    ghost predicate Fresh()
      reads this, cache
    {
      && !initialized && !full && !rowStarted && !headingsChanged
      && headingStart == 0 && headingLength == 0 && rowData == [] && cache.history == [] && cache.stale == {}
    }

    /** The last block of the flash, which takes the mark of a full log, and the page it lies in. */
    ghost function Tail(): nat
      reads flash
    {
      if |flash.device| < CACHE_BLOCK then 0 else |flash.device| - CACHE_BLOCK
    }

    ghost function LastPage(): int
      reads flash
    {
      |flash.device| - flash.blockSize
    }

    /** No block has been accessed that reaches beyond an address. */
    ghost predicate CleanBelow(limit: nat)
      reads cache
    {
      cache.stale == {} && forall b | b in cache.history :: b + CACHE_BLOCK <= limit
    }

    /** None but the last one, which is not blank then, and stale at most once the last page has been entered. */
    ghost predicate CachedBelow(limit: nat)
      reads flash, cache
    {
      && (forall b | b in cache.history :: b + CACHE_BLOCK <= limit || b == Tail())
      && (forall b | b in cache.stale :: b == Tail() && limit == |flash.device|)
      && (limit < |flash.device| && Tail() in cache.history ==> flash.device[Tail()..] != Blank(CACHE_BLOCK))
    }

    /** If the last block is stale, text that ends at `end` has not reached it, and every block from the page before the
        last one up to there has been accessed since. */
    ghost predicate Overtaken(end: nat)
      reads flash, cache
    {
      Tail() in cache.stale ==>
        && LastPage() <= end <= Tail()
        && forall b: nat | Offset(b, CACHE_BLOCK) == 0 && LastPage() - CACHE_BLOCK <= b < end :: b in Recent(cache.history, Tail())
    }

    /** Access to other blocks has left the last one alone. */
    twostate predicate TailKept(limit: nat)
      reads flash, cache
    {
      && cache.stale == old(cache.stale)
      && (old(CleanBelow(limit)) ==> CleanBelow(limit))
      && (forall end: nat :: old(Overtaken(end)) ==> Overtaken(end))
      && (limit < |flash.device| && Tail() in cache.history ==> Tail() in old(cache.history))
    }

    /** Data can be appended at the end. */
    ghost predicate Ready()
      reads this`logEnd, this`dataEnd, flash, cache, cache.cache
    {
      && Attached() && logEnd == LogEnd(|flash.device|)
      && ErasedAhead(flash.device, flash.blockSize, dataEnd)
      && CachedBelow(PageEnd(dataEnd, flash.blockSize))
      && Overtaken(dataEnd)
    }

    /** The cache may hold the last block as it was before its page is erased for data. */
    ghost predicate AtRisk()
      reads this`dataEnd, flash, cache
    {
      Tail() in cache.stale
      || (Tail() in cache.history && flash.blockSize > 0 && PageEnd(dataEnd, flash.blockSize) < |flash.device|)
    }

    /** If so, more text of some length does not reach that block; or else pages have at least as many blocks as the
        cache, and its counter does not wrap round for as many accesses. */
    ghost predicate Safe(len: nat, ticks: nat)
      reads this`dataEnd, flash, cache
    {
      AtRisk() && dataEnd + len > Tail() ==>
        flash.blockSize >= CACHE_ENTRIES * CACHE_BLOCK && |cache.history| + ticks < COUNTER
    }

    /** The next page may be erased: the cache holds nothing of it, but for the last block. That one becomes stale
        exactly if it is still held. */
    method EraseAhead(page: nat)
      requires Attached() && CachedBelow(page)
      requires Offset(page, flash.blockSize) == 0 && page + flash.blockSize <= |flash.device|
      modifies flash, cache`stale
      ensures Attached() && flash.device == Put(old(flash.device), page, Blank(flash.blockSize))
      ensures CachedBelow(page + flash.blockSize) && (old(CleanBelow(page)) ==> CleanBelow(page))
      ensures Tail() in cache.stale ==> page == LastPage() && Tail() in cache.history
      ensures page == LastPage() && |cache.history| < COUNTER ==>
                (Tail() in cache.stale <==> Tail() in cache.history && |Recent(cache.history, Tail())| < CACHE_ENTRIES)
    {
      hide Put, Offset, FSCache.ValidFor, Recent, Holds;
      if |cache.history| < COUNTER { cache.HeldAre(Tail()); }
      WhatIsOutdated(page);
      flash.Erase(page);
      cache.PageErased(old(flash.device), page, flash.blockSize);
    }

    lemma WhatIsOutdated(page: nat)
      requires Attached() && CachedBelow(page)
      requires Offset(page, flash.blockSize) == 0 && page + flash.blockSize <= |flash.device|
      ensures Offset(page, CACHE_BLOCK) == 0 && Offset(page + flash.blockSize, CACHE_BLOCK) == 0
      ensures page + flash.blockSize < |flash.device| ==> page + flash.blockSize <= Tail()
      ensures Outdated(cache.cache[..], page, flash.blockSize, CACHE_BLOCK)
           == if page == LastPage() && Holds(cache.cache[..], Tail()) then {Tail()} else {}
      ensures Holds(cache.cache[..], Tail()) ==> Tail() in cache.history
    {
      hide Offset, MostRecentlyUsed, CountsOrder, Blank;
      var ps, size, entries := flash.blockSize, |flash.device|, cache.cache[..];
      PageIsWide(ps);
      OffsetOfSelf(ps);
      OffsetOfSelf(CACHE_BLOCK);
      SumOfMultiples(page, ps, ps);
      MultipleOfDivisor(page, ps, CACHE_BLOCK);
      MultipleOfDivisor(page + ps, ps, CACHE_BLOCK);
      MultipleOfDivisor(size, ps, CACHE_BLOCK);
      if page + ps < size { MultiplesApart(page + ps, size, CACHE_BLOCK); }
      forall i | 0 <= i < |entries| && entries[i].page.Loaded?
        ensures entries[i].address in cache.history
        ensures page <= entries[i].address ==> entries[i].address == Tail() && entries[i].page.bytes != Blank(CACHE_BLOCK)
      {
        assert Copies(entries[i], flash.device, CACHE_BLOCK, {});
        assert entries[i] == cache.cache[i];
        assert flash.device[Tail()..size] == flash.device[Tail()..];
      }
    }

    /** Writes through the cache, below a block address, and not to a stale block. */
    method WriteBelow(address: nat, data: seq<Byte>, ghost limit: nat)
      requires Attached() && CachedBelow(limit) && Offset(limit, CACHE_BLOCK) == 0
      requires address + |data| <= limit <= |flash.device| && Writable(flash.device, address, data)
      requires address + |data| <= Tail()
      modifies flash, cache, cache.cache
      ensures Attached() && CachedBelow(limit) && flash.device == Put(old(flash.device), address, data)
      ensures TailKept(limit)
      ensures Accesses(old(cache.history), cache.history, Used(BlocksOf(address, address + |data|, CACHE_BLOCK)), 2 * |data|)
    {
      hide Offset, Put, Writable, FSCache.ValidFor, BlocksOf, Recent, UsedFrom;
      ghost var blocks := BlocksOf(address, address + |data|, CACHE_BLOCK);
      BlocksBelow(address, address + |data|, limit);
      BlocksOfAre(address, address + |data|, CACHE_BLOCK);
      BlocksCount(address, address + |data|, CACHE_BLOCK);
      PutBefore(flash.device, address, data, Tail());
      var _ := cache.Write(address, data);
      assert cache.history == old(cache.history) + (blocks + blocks);
      UsedMore(old(cache.history), blocks + blocks, |old(cache.history)|);
      AccessesOf(old(cache.history), blocks + blocks, Used(blocks));
      OthersAccessed(old(cache.history), blocks + blocks, Tail(), limit);
    }

    /** Reads through the cache, below a block address, and not from a stale block. */
    method ReadBelow(address: nat, len: nat, ghost limit: nat) returns (data: seq<Byte>)
      requires Attached() && CachedBelow(limit) && Offset(limit, CACHE_BLOCK) == 0
      requires address + len <= limit <= |flash.device| && (Tail() in cache.stale ==> address + len <= Tail())
      modifies cache, cache.cache
      ensures Attached() && CachedBelow(limit) && data == flash.device[address..address + len]
      ensures TailKept(limit)
    {
      hide Offset, FSCache.ValidFor, BlocksOf, Recent, UsedFrom;
      ghost var blocks := BlocksOf(address, address + len, CACHE_BLOCK);
      BlocksBelow(address, address + len, limit);
      BlocksOfAre(address, address + len, CACHE_BLOCK);
      var _, d := cache.Read(address, len);
      OthersAccessed(old(cache.history), blocks, Tail(), limit);
      return d;
    }

    /** What every operation keeps. */
    ghost predicate Valid()
      reads this, flash, cache, cache.cache
    {
      && initialized && dataStart == DATA_START && Ready() && (AtRisk() ==> full)
      && Front(flash.device, journalHead, dataEnd, SavedStart(), saved)
      && headingLength == |HeadingLine(saved)| && (headingStart == 0 ==> saved == [])
      && (if headingsChanged then rowData != [] else saved == Keys(rowData))
      && Printable(Keys(rowData)) && AllClean(Values(rowData))
    }

    /** What a valid log has on flash is an image that a later start accepts. */
    lemma OnFlash()
      requires Valid()
      ensures DATA_START <= dataEnd <= logEnd == LogEnd(|flash.device|) == |flash.device| - 4
      ensures Image(flash.device, flash.blockSize, journalHead, dataEnd, SavedStart(), saved)
      ensures Present(flash.device, flash.blockSize)
    {
      hide Floor, Offset, FSCache.Valid, HasHeadings, HasJournal, Present, Printable, AllClean;
      MetadataAccepted(flash.device, flash.blockSize);
    }

    /** Where the headings are on flash: none have been written while headingStart is 0. */
    ghost function SavedStart(): nat
      reads this`headingStart
    {
      if headingStart == 0 then HEADINGS_START else headingStart
    }

    /** The text logged so far. */
    ghost function Text(): seq<Byte>
      reads this`dataEnd, flash
      requires DATA_START <= dataEnd <= |flash.device|
    {
      flash.device[DATA_START..dataEnd]
    }

    // ---------------------------------------------------------------- starting

    /** Reads the metadata, past the cache. */
    method IsPresent() returns (present: bool)
      requires Attached() && !initialized
      modifies this`dataStart, this`logEnd
      ensures present == Present(flash.device, flash.blockSize)
      ensures present <==> JOURNAL_START + flash.blockSize <= dataStart < logEnd < |flash.device|
                           && flash.device[START_ADDRESS..START_ADDRESS + 14] == VERSION[..14]
      ensures dataStart == StrToUl(flash.device[START_ADDRESS + 29..START_ADDRESS + 39] + [NUL])
      ensures logEnd == StrToUl(flash.device[START_ADDRESS + 18..START_ADDRESS + 28] + [NUL])
      ensures HasMetadata(flash.device) ==> present && dataStart == DATA_START && logEnd == LogEnd(|flash.device|)
    {
      hide StrToUl, Offset, FSCache.ValidFor;
      ghost var device := flash.device;
      if HasMetadata(device) {
        MetadataAccepted(device, flash.blockSize);
      }
      var metadata := flash.Read(START_ADDRESS, META_LENGTH / WORD);
      SliceOfSlice(device, START_ADDRESS, START_ADDRESS + 44, 0, 14);
      SliceOfSlice(device, START_ADDRESS, START_ADDRESS + 44, 18, 28);
      SliceOfSlice(device, START_ADDRESS, START_ADDRESS + 44, 29, 39);
      dataStart := StrToUl(metadata[29..39] + [NUL]);
      logEnd := StrToUl(metadata[18..28] + [NUL]);
      present := JOURNAL_START + flash.blockSize <= dataStart < logEnd < flash.FlashEnd() && metadata[..14] == VERSION[..14];
    }

    /** Reads the journal up to the first unused entry behind one that is in use. */
    method LoadJournal(ghost head: nat, ghost end: nat, ghost limit: nat)
      requires Attached() && CleanBelow(limit) && Offset(limit, CACHE_BLOCK) == 0 && DATA_START <= limit <= |flash.device|
      requires HasJournal(flash.device, head, end) && end < 0x1F000 && dataStart == DATA_START
      modifies this`journalHead, this`dataEnd, cache, cache.cache
      ensures Attached() && CleanBelow(limit)
      ensures journalHead == head && dataEnd == DATA_START + JournalOffset(end)
    {
      hide Offset, FSCache.Valid, HasJournal, JournalOffset, StrToUl, ContainsOnly;
      JournalRange(flash.device, head, end);
      journalHead, dataEnd := JOURNAL_START, dataStart;
      var journalEntryAddress, valid := journalHead, false;
      while journalEntryAddress < dataStart
        invariant Attached() && CleanBelow(limit)
        invariant JOURNAL_START <= journalEntryAddress <= DATA_START && (journalEntryAddress - JOURNAL_START) % JOURNAL_ENTRY == 0
        invariant valid <==> head < journalEntryAddress
        invariant valid ==> journalHead == head && dataEnd == DATA_START + JournalOffset(end)
      {
        Slots(flash.device, head, end, journalEntryAddress);
        var j := ReadBelow(journalEntryAddress, JOURNAL_ENTRY, limit);
        if ContainsOnly(j, ERASED) && valid {
          break;
        }
        if !ContainsOnly(j, NUL) {
          journalHead := journalEntryAddress;
          dataEnd := dataStart + StrToUl(j);
          valid := true;
        }
        journalEntryAddress := journalEntryAddress + JOURNAL_ENTRY;
      }
    }

    /** Moves the end of the data on to the first unused byte. */
    method FindEnd(ghost end: nat, ghost limit: nat)
      requires Attached() && CleanBelow(limit) && Offset(limit, CACHE_BLOCK) == 0 && limit <= |flash.device|
      requires logEnd == LogEnd(|flash.device|) && dataEnd <= end <= logEnd && end < limit
      requires FirstErased(flash.device, dataEnd, logEnd) <= end
      modifies this`dataEnd, cache, cache.cache
      ensures Attached() && CleanBelow(limit)
      ensures dataEnd == FirstErased(flash.device, old(dataEnd), logEnd)
    {
      hide Offset, FSCache.Valid;
      while dataEnd < logEnd
        invariant Attached() && CleanBelow(limit) && dataEnd <= end
        invariant FirstErased(flash.device, dataEnd, logEnd) == FirstErased(flash.device, old(dataEnd), logEnd)
      {
        var d := ReadBelow(dataEnd, 1, limit);
        if d[0] == ERASED {
          break;
        }
        dataEnd := dataEnd + 1;
      }
    }

    /** Reads the live headings. */
    method LoadHeadings(ghost from: nat, ghost keys: seq<seq<Byte>>, ghost limit: nat)
      requires Attached() && CleanBelow(limit) && Offset(limit, CACHE_BLOCK) == 0 && DATA_START <= limit <= |flash.device|
      requires HasHeadings(flash.device, from, HeadingLine(keys)) && Printable(keys)
      requires headingStart == 0 && headingLength == 0 && rowData == []
      modifies this`headingStart, this`headingLength, this`rowData, cache, cache.cache
      ensures Attached() && CleanBelow(limit)
      ensures headingStart == (if keys == [] then 0 else from) && headingLength == |HeadingLine(keys)|
      ensures Keys(rowData) == keys && forall i | 0 <= i < |rowData| :: rowData[i].value == []
    {
      hide Offset, FSCache.Valid, Printable, HasHeadings, Fields, HeadingLine;
      HeadingText(keys);
      HeadingBytes(flash.device, from, HeadingLine(keys));
      var start, end := FindHeadings(from, HeadingLine(keys), limit);
      headingLength := end - start;
      if headingLength > 0 {
        headingStart := start;
        var headers := ReadBelow(start, headingLength, limit);
        var names := ParseHeadings(headers);
        rowData := seq(|names|, i requires 0 <= i < |names| => ColumnEntry(names[i], []));
        assert Keys(rowData) == names;
      }
    }

    /** Skips cleared headings, then moves up to the first unused byte. */
    method FindHeadings(ghost from: nat, ghost line: seq<Byte>, ghost limit: nat) returns (start: nat, end: nat)
      requires Attached() && CleanBelow(limit) && Offset(limit, CACHE_BLOCK) == 0 && DATA_START <= limit <= |flash.device|
      requires HasHeadings(flash.device, from, line) && NUL !in line && ERASED !in line
      modifies cache, cache.cache
      ensures Attached() && CleanBelow(limit)
      ensures start == from && end == from + |line|
    {
      hide Offset, FSCache.Valid, HasHeadings;
      HeadingBytes(flash.device, from, line);
      start := START_ADDRESS + META_LENGTH;
      var c := ReadBelow(start, 1, limit);
      while c[0] == NUL
        invariant Attached() && CleanBelow(limit)
        invariant HEADINGS_START <= start <= from && c == [flash.device[start]]
        decreases from - start
      {
        start := start + 1;
        c := ReadBelow(start, 1, limit);
      }
      end := start;
      while c[0] != ERASED
        invariant Attached() && CleanBelow(limit)
        invariant from <= end <= from + |line| && c == [flash.device[end]]
        decreases from + |line| - end
      {
        end := end + 1;
        c := ReadBelow(end, 1, limit);
      }
    }

    /** What is found of a log whose data end at `end`: all of it, exactly if its last block holds no byte 0xFF. */
    ghost predicate Recovered(head: nat, end: nat, keys: seq<seq<Byte>>)
      reads this, flash, cache, cache.cache
      requires Attached() && DATA_START <= end <= LogEnd(|flash.device|)
    {
      var from := DATA_START + JournalOffset(end);
      && journalHead == head && saved == keys == Keys(rowData)
      && dataEnd == FirstErased(flash.device, from, LogEnd(|flash.device|)) <= end
      && dataEnd - from < CACHE_BLOCK
      && (dataEnd == end <==> ERASED !in flash.device[from..end])
    }

    /** Loads the log that the flash holds, as a run on another object left it; or else starts an empty one. */
    method Init(ghost head: nat, ghost end: nat, ghost start: nat, ghost keys: seq<seq<Byte>>)
      requires Attached() && (initialized || Fresh())
      requires Present(flash.device, flash.blockSize) ==> Image(flash.device, flash.blockSize, head, end, start, keys)
      modifies this, flash, cache, cache.cache
      ensures Attached() && initialized
      ensures old(initialized) ==>
                flash.device == old(flash.device) && dataEnd == old(dataEnd) && journalHead == old(journalHead) && rowData == old(rowData)
      ensures !old(initialized) && Present(old(flash.device), flash.blockSize) ==>
                flash.device == old(flash.device) && Recovered(head, end, keys) && (dataEnd == end ==> Valid() && !AtRisk())
      ensures !old(initialized) && !Present(old(flash.device), flash.blockSize) ==>
                Valid() && dataEnd == DATA_START && !AtRisk()
    {
      hide Offset, Floor, FSCache.Valid, Front, ErasedAhead, HeadingLine, Printable, AllClean, HasMetadata, JournalOffset, FirstErased;
      if initialized {
        return;
      }
      if Present(flash.device, flash.blockSize) {
        ImageRange(flash.device, flash.blockSize, head, end, start, keys);
      }
      var present := IsPresent();
      if present {
        Load(head, end, start, keys);
      } else {
        Clear(false);
      }
    }

    /** Loads the journal, the end of the data and the headings. */
    method Load(ghost head: nat, ghost end: nat, ghost start: nat, ghost keys: seq<seq<Byte>>)
      requires Attached() && Fresh() && dataStart == DATA_START && logEnd == LogEnd(|flash.device|)
      requires DATA_START <= end <= LogEnd(|flash.device|)
      requires Image(flash.device, flash.blockSize, head, end, start, keys)
      modifies this, cache, cache.cache
      ensures Attached() && initialized && Recovered(head, end, keys)
      ensures dataEnd == end ==> Valid() && !AtRisk()
    {
      hide Offset, Floor, FSCache.Valid, Front, ErasedAhead, HeadingLine, Printable, AllClean, HasMetadata, JournalOffset, FirstErased;
      ghost var limit := PageEnd(end, flash.blockSize);
      PageFacts(end, flash.blockSize, |flash.device|);
      FrontParts(flash.device, head, end, start, keys);
      EndIsFound(flash.device, flash.blockSize, head, end, start, keys);
      LoadJournal(head, end, limit);
      FindEnd(end, limit);
      LoadHeadings(start, keys, limit);
      saved := keys;
      EmptiedValues(rowData);
      initialized := true;
    }

    // ---------------------------------------------------------------- clearing

    /** Starts an empty log. Unless everything is to be erased, only its first page of data is. */
    method Clear(fullErase: bool)
      requires Attached()
      modifies this, flash, cache, cache.cache
      ensures Valid() && |flash.device| == |old(flash.device)|
      ensures dataEnd == DATA_START && journalHead == JOURNAL_START && rowCount == 0 && !full
      ensures rowData == [] && saved == [] && rowStarted == false
      ensures !AtRisk() && |cache.history| <= CLEAR_TICKS
      ensures PageEnd(dataEnd, flash.blockSize) < |flash.device| ==> Tail() !in cache.history
      ensures flash.device[..HEADER_SIZE] == header
      ensures var firstPage := DATA_START + flash.blockSize;
              if fullErase then AllErased(flash.device, DATA_START, |flash.device|)
              else firstPage <= logEnd ==> flash.device[firstPage..] == old(flash.device)[firstPage..logEnd] + Zeros(WORD)
    {
      hide Offset, Floor, Front, ErasedAhead, FSCache.ValidFor, HeadingLine, AllClean, Printable;
      Reset();
      Format(fullErase);
      initialized := true;
    }

    /** The fields of an empty log. */
    method Reset()
      requires Attached()
      modifies this
      ensures dataStart == DATA_START == dataEnd && logEnd == LogEnd(|flash.device|) && journalHead == JOURNAL_START
      ensures !headingsChanged && SavedStart() == HEADINGS_START && headingLength == |HeadingLine(saved)|
      ensures Printable(Keys(rowData)) && AllClean(Values(rowData))
      ensures rowData == [] && saved == [] && rowCount == 0 && !full && !rowStarted
    {
      hide FSCache.ValidFor, Offset, Printable, AllClean, HeadingLine, Keys, Values;
      dataStart, logEnd := DATA_START, flash.FlashEnd() - WORD;
      journalHead, dataEnd := JOURNAL_START, DATA_START;
      headingsChanged, headingStart, headingLength, rowCount, rowData := false, 0, 0, 0, [];
      full, rowStarted, saved := false, false, [];
      NothingSaved();
    }

    /** Erases and writes what an empty log needs. */
    method Format(fullErase: bool)
      requires Attached() && journalHead == JOURNAL_START && dataStart == DATA_START && logEnd == LogEnd(|flash.device|)
      modifies flash, cache, cache.cache
      ensures Attached() && CleanBelow(PageEnd(DATA_START, flash.blockSize)) && |flash.device| == |old(flash.device)|
      ensures |cache.history| <= CLEAR_TICKS
      ensures Image(flash.device, flash.blockSize, journalHead, DATA_START, HEADINGS_START, [])
      ensures flash.device[..HEADER_SIZE] == header
      ensures var firstPage := DATA_START + flash.blockSize;
              if fullErase then AllErased(flash.device, DATA_START, |flash.device|)
              else firstPage <= logEnd ==> flash.device[firstPage..] == old(flash.device)[firstPage..logEnd] + Zeros(WORD)
    {
      hide Offset, Floor, Put, Burn, Writable, Front, ErasedAhead, Formatted, Metadata, FSCache.Valid;
      ghost var device, ps := flash.device, flash.blockSize;
      ghost var marked := Burn(device, |device| - WORD, Zeros(WORD));
      var end := EraseLog(fullErase);
      FormattedIsImage(flash.device, ps, header, daplinkVersion);
      FormattedKeeps(device, marked, end, header, Metadata(logEnd, dataStart, daplinkVersion));
      WriteFront();
    }

    /** Clears the mark of a full log, and erases. */
    method EraseLog(fullErase: bool) returns (end: nat)
      requires Attached() && dataStart == DATA_START && logEnd == LogEnd(|flash.device|)
      modifies flash, cache, cache.cache
      ensures Attached() && cache.history == [] && cache.stale == {}
      ensures end == if fullErase then |flash.device| else DATA_START + flash.blockSize
      ensures |flash.device| == |old(flash.device)| && end <= |flash.device|
      ensures flash.device == Put(Burn(old(flash.device), |flash.device| - WORD, Zeros(WORD)), 0, Blank(end))
    {
      hide Offset, Floor, Put, Burn;
      flash.Write(logEnd, Zeros(WORD));
      MultipleOfDivisor(|flash.device|, flash.blockSize, CACHE_BLOCK);
      cache.Clear();
      end := ErasePages(if fullErase then logEnd else dataStart);
      ErasedPages(|flash.device|, flash.blockSize, fullErase, end);
    }

    /** Writes the header, past the cache, the metadata and the first journal entry. */
    method WriteFront()
      requires Attached() && cache.history == [] && cache.stale == {}
      requires journalHead == JOURNAL_START && dataStart == DATA_START && logEnd == LogEnd(|flash.device|)
      requires PageEnd(DATA_START, flash.blockSize) == DATA_START + flash.blockSize
      requires var mem, metadata := flash.device, Metadata(logEnd, DATA_START, daplinkVersion);
               && Writable(mem, 0, header)
               && Writable(Put(mem, 0, header), START_ADDRESS, metadata)
               && Writable(Put(Put(mem, 0, header), START_ADDRESS, metadata), JOURNAL_START, seq(JOURNAL_ENTRY, _ => ZERO))
      modifies flash, cache, cache.cache
      ensures Attached() && CleanBelow(PageEnd(DATA_START, flash.blockSize))
      ensures |cache.history| <= CLEAR_TICKS
      ensures flash.device == Formatted(old(flash.device), header, Metadata(logEnd, DATA_START, daplinkVersion))
    {
      hide Offset, Floor, Put, Burn, Writable, Metadata, FSCache.ValidFor;
      ghost var device, limit := flash.device, PageEnd(DATA_START, flash.blockSize);
      PageIsWide(flash.blockSize);
      PageFacts(DATA_START, flash.blockSize, |device|);
      BurnStores(device, 0, header);
      flash.Write(0, header);
      cache.ChangedElsewhere(device, flash.device, 0, |device|);
      WriteBelow(START_ADDRESS, Metadata(logEnd, dataStart, daplinkVersion), limit);
      WriteBelow(journalHead, seq(JOURNAL_ENTRY, _ => ZERO), limit);
    }

    /** Erases the pages from the start of the flash up to the one that holds an address. */
    method ErasePages(last: nat) returns (end: nat)
      requires Attached() && cache.history == [] && cache.stale == {} && last < |flash.device|
      modifies flash, cache`stale
      ensures Attached() && cache.history == [] && cache.stale == {} && last < end <= |flash.device| && Offset(end, flash.blockSize) == 0
      ensures end <= last + flash.blockSize
      ensures flash.device == Put(old(flash.device), 0, Blank(end))
    {
      hide Offset, Floor, Put;
      end := 0;
      OffsetOfSelf(flash.blockSize);
      while end <= last
        invariant Attached() && cache.history == [] && cache.stale == {} && |flash.device| == |old(flash.device)|
        invariant end <= |flash.device| && Offset(end, flash.blockSize) == 0 && end <= last + flash.blockSize
        invariant flash.device == Put(old(flash.device), 0, Blank(end))
      {
        MultiplesApart(end, |flash.device|, flash.blockSize);
        PutsJoin(old(flash.device), 0, Blank(end), Blank(flash.blockSize));
        assert Blank(end) + Blank(flash.blockSize) == Blank(end + flash.blockSize);
        EraseAhead(end);
        SumOfMultiples(end, flash.blockSize, flash.blockSize);
        end := end + flash.blockSize;
      }
    }

    // ---------------------------------------------------------------- appending text

    /** One round of the loop: as much as the current page takes, after erasing the next one if that is needed. The last
        block becomes stale if it is still held when its page is erased, and is dropped when the text gets there. */
    method AppendToPage(rest: seq<Byte>) returns (n: nat)
      requires Ready() && rest != [] && dataEnd + |rest| <= logEnd && Safe(|rest|, 2 * |rest|)
      modifies this`dataEnd, flash, cache, cache.cache
      ensures Ready() && 0 < n <= |rest| && dataEnd == old(dataEnd) + n
      ensures Grown(old(flash.device), old(dataEnd), rest[..n], flash.device)
      ensures n < |rest| ==> Offset(dataEnd, flash.blockSize) == 0
      ensures var page, page' := PageEnd(old(dataEnd), flash.blockSize), PageEnd(dataEnd, flash.blockSize);
              dataEnd <= page && (page' == page || (dataEnd == page && page' == page + flash.blockSize))
      ensures var blocks := BlocksOf(old(dataEnd), dataEnd, CACHE_BLOCK); cache.history == old(cache.history) + (blocks + blocks)
      ensures AtRisk() ==> old(AtRisk())
      ensures var page := PageEnd(old(dataEnd), flash.blockSize);
              if page == |flash.device| then cache.stale == (if dataEnd > Tail() then {} else old(cache.stale))
              else if PageEnd(dataEnd, flash.blockSize) < |flash.device| then cache.stale == {}
              else |old(cache.history)| < COUNTER ==> (Tail() in cache.stale <==> old(TailHeld()))
    {
      hide Offset, Floor, Put, Writable, FSCache.Valid, ErasedAhead, Grown, Overtaken, BlocksOf, Recent;
      var ps := flash.blockSize;
      ghost var device := flash.device;
      EndInRange(device, ps, dataEnd);
      PageFacts(dataEnd, ps, |device|);
      var spaceOnPage := ps - Offset(dataEnd, ps);
      n := if |rest| < spaceOnPage then |rest| else spaceOnPage;
      ghost var page := PageEnd(dataEnd, ps);
      PageWritten(device, ps, dataEnd, rest[..n]);
      PageFacts(dataEnd + n, ps, |device|);
      TailIsBlock();
      PageBeforeLast(dataEnd + n);
      if spaceOnPage <= |rest| && dataEnd + spaceOnPage < logEnd {
        EraseAhead(PageEnd(dataEnd, ps));
      }
      WriteText(rest[..n], PageEnd(dataEnd + n, ps));
    }

    /** The cache holds the last block, as it counts its accesses. */
    ghost predicate TailHeld()
      reads flash, cache
    {
      Tail() in cache.history && |Recent(cache.history, Tail())| < CACHE_ENTRIES
    }

    /** Writes text behind the data, up to the end of its page at most. */
    method WriteText(chunk: seq<Byte>, ghost limit: nat)
      requires Attached() && CachedBelow(limit) && Offset(limit, CACHE_BLOCK) == 0
      requires chunk != [] && DATA_START <= dataEnd && dataEnd + |chunk| <= limit <= |flash.device|
      requires Writable(flash.device, dataEnd, chunk)
      requires Tail() in cache.stale ==> Overtaken(dataEnd) || (dataEnd < LastPage() == dataEnd + |chunk| && Offset(LastPage(), CACHE_BLOCK) == 0)
      requires Tail() in cache.stale && dataEnd + |chunk| > Tail() ==>
                 flash.blockSize >= CACHE_ENTRIES * CACHE_BLOCK && |cache.history| + |chunk| <= COUNTER
      modifies this`dataEnd, flash, cache, cache.cache
      ensures Attached() && CachedBelow(limit) && Overtaken(dataEnd) && dataEnd == old(dataEnd) + |chunk|
      ensures flash.device == Put(old(flash.device), old(dataEnd), chunk)
      ensures var blocks := BlocksOf(old(dataEnd), dataEnd, CACHE_BLOCK); cache.history == old(cache.history) + (blocks + blocks)
      ensures cache.stale == if dataEnd > Tail() then {} else old(cache.stale)
      ensures dataEnd <= Tail() && Tail() in cache.history ==> Tail() in old(cache.history)
    {
      hide Offset, Put, Writable, FSCache.Valid, BlocksOf, Recent, UsedFrom;
      ghost var history, blocks := cache.history, BlocksOf(dataEnd, dataEnd + |chunk|, CACHE_BLOCK);
      TailIsBlock();
      if limit < |flash.device| { MultiplesApart(limit, |flash.device|, CACHE_BLOCK); }
      BlocksBelow(dataEnd, dataEnd + |chunk|, limit);
      BlocksOfAre(dataEnd, dataEnd + |chunk|, CACHE_BLOCK);
      DropsInTime(|chunk|);
      var _ := cache.Write(dataEnd, chunk);
      dataEnd := dataEnd + |chunk|;
      assert cache.history == history + (blocks + blocks);
      UsedMore(history, blocks + blocks, |history|);
      if dataEnd <= Tail() {
        PutBefore(old(flash.device), old(dataEnd), chunk, Tail());
        RecentGrows(history, blocks + blocks, Tail());
        if Tail() in cache.stale {
          BlocksPassed(history, blocks + blocks, Tail(), LastPage() - CACHE_BLOCK, old(dataEnd), dataEnd);
        }
      } else {
        assert Tail() in blocks + blocks;
        assert cache.stale == {};
      }
    }

    /** The cache does not hold a stale block any more by the time that text gets to it. */
    lemma DropsInTime(len: nat)
      requires Attached() && forall b | b in cache.stale :: b == Tail()
      requires Tail() in cache.stale && dataEnd + len > Tail() ==>
                 && Overtaken(dataEnd)
                 && flash.blockSize >= CACHE_ENTRIES * CACHE_BLOCK && |cache.history| + len <= COUNTER
      ensures cache.Overtakes(dataEnd, len)
    {
      hide Offset, FSCache.ValidFor, BlocksOf, Recent;
      TailIsBlock();
      BlocksOfAre(dataEnd, dataEnd + len, CACHE_BLOCK);
      BlocksCount(dataEnd, dataEnd + len, CACHE_BLOCK);
      if Tail() in cache.stale && dataEnd + len > Tail() {
        EnoughBlocks(cache.history, LastPage() - CACHE_BLOCK, dataEnd, Tail());
      }
    }

    lemma PageBeforeLast(end: nat)
      requires Attached() && end <= LogEnd(|flash.device|)
      ensures PageEnd(end, flash.blockSize) <= |flash.device|
      ensures PageEnd(end, flash.blockSize) < |flash.device| ==> end < PageEnd(end, flash.blockSize) <= LastPage() <= Tail()
    {
      hide Offset, Floor;
      var ps, size := flash.blockSize, |flash.device|;
      TailIsBlock();
      PageFacts(end, ps, size);
      if PageEnd(end, ps) < size { MultiplesApart(PageEnd(end, ps), size, ps); }
    }

    lemma TailIsBlock()
      requires Attached()
      ensures Offset(Tail(), CACHE_BLOCK) == 0 == Offset(|flash.device|, CACHE_BLOCK)
      ensures Tail() + CACHE_BLOCK == |flash.device| && LastPage() <= Tail()
      ensures Offset(LastPage(), CACHE_BLOCK) == 0 && LastPage() >= DATA_START
    {
      hide Offset;
      PageIsWide(flash.blockSize);
      OffsetOfSelf(CACHE_BLOCK);
      MultipleOfDivisor(|flash.device|, flash.blockSize, CACHE_BLOCK);
      SumOfMultiples(|flash.device|, CACHE_BLOCK, CACHE_BLOCK);
      SumOfMultiples(|flash.device|, flash.blockSize, CACHE_BLOCK);
    }

    /** Appends bytes that fit. The cache refuses none of them. */
    method AppendText(data: seq<Byte>)
      requires Ready() && dataEnd + |data| <= logEnd && Safe(|data|, 2 * |data|)
      modifies this`dataEnd, flash, cache, cache.cache
      ensures Ready() && dataEnd == old(dataEnd) + |data|
      ensures Grown(old(flash.device), old(dataEnd), data, flash.device)
      ensures Accesses(old(cache.history), cache.history, Used(BlocksOf(old(dataEnd), dataEnd, CACHE_BLOCK)), 2 * |data|)
      ensures AtRisk() ==> old(AtRisk())
      ensures |old(cache.history)| + 2 * |data| < COUNTER ==>
                StaleAfter(old(cache.history), old(dataEnd), dataEnd, cache.stale, flash.blockSize, |flash.device|)
    {
      hide FSCache.Valid, ErasedAhead, Offset, Floor, Grown, Overtaken, BlocksOf, Recent, StaleAfter, AccessedSince, CachedBelow;
      ghost var device, start, history := flash.device, dataEnd, cache.history;
      var l: nat, done: nat := |data|, 0;
      EndInRange(device, flash.blockSize, dataEnd);
      NothingPassed(cache.history, dataEnd, cache.stale, flash.blockSize, |flash.device|);
      assert Grown(device, start, data[..0], device) by { NotGrown(device, start, flash.blockSize); }
      while l > 0
        invariant done + l == |data| && dataEnd == start + done
        invariant Ready() && Grown(device, start, data[..done], flash.device)
        invariant Accesses(history, cache.history, Used(BlocksOf(start, dataEnd, CACHE_BLOCK)), 2 * done)
        invariant AtRisk() ==> old(AtRisk())
        invariant l == 0 || done == 0 || Offset(dataEnd, flash.blockSize) == 0
        invariant |history| + 2 * |data| < COUNTER ==>
                    && (PageEnd(dataEnd, flash.blockSize) < |flash.device| ==> AccessedSince(history, cache.history, start, dataEnd, Tail()))
                    && StaleAfter(history, start, dataEnd, cache.stale, flash.blockSize, |flash.device|)
      {
        ghost var h, before, stale := cache.history, dataEnd, cache.stale;
        EndInRange(flash.device, flash.blockSize, dataEnd);
        PageBeforeLast(dataEnd);
        var n := AppendToPage(data[done..]);
        TextAccesses(history, h, start, before, dataEnd, flash.blockSize, done, n);
        EndInRange(flash.device, flash.blockSize, dataEnd);
        TailIsBlock();
        if |history| + 2 * |data| < COUNTER {
          PageStep(history, start, h, before, stale, dataEnd, cache.stale, flash.blockSize, |flash.device|);
        }
        GrownTwice(device, start, data[..done], data[done..][..n]);
        assert data[..done + n] == data[..done] + data[done..][..n];
        done, l := done + n, l - n;
      }
      assert data[..done] == data;
    }

    /** Records the block of the end of the data, if it has changed: in the next slot of the journal, whose page is
        erased when it is entered. There always is a next slot. */
    method UpdateJournal(oldDataEnd: nat, ghost keys: seq<seq<Byte>>)
      requires Ready() && dataStart == DATA_START <= oldDataEnd <= dataEnd
      requires Front(flash.device, journalHead, oldDataEnd, SavedStart(), keys)
      modifies this`journalHead, flash, cache, cache.cache
      ensures Ready() && Front(flash.device, journalHead, dataEnd, SavedStart(), keys)
      ensures |flash.device| == |old(flash.device)| && flash.device[DATA_START..] == old(flash.device[DATA_START..])
      ensures TailKept(PageEnd(dataEnd, flash.blockSize))
      ensures journalHead == old(journalHead) || journalHead == old(journalHead) + JOURNAL_ENTRY
      ensures Accesses(old(cache.history), cache.history, SlotBlocks(old(journalHead)), JOURNAL_TICKS)
    {
      hide Offset, Floor, Put, Writable, FSCache.Valid, ErasedAhead, Front, HasJournal, JournalOffset, NextEntry, Hex, Overtaken, CleanBelow;
      ghost var device, ps, limit := flash.device, flash.blockSize, PageEnd(dataEnd, flash.blockSize);
      EndInRange(device, ps, dataEnd);
      PageFacts(dataEnd, ps, |device|);
      FrontHasJournal(device, journalHead, oldDataEnd, SavedStart(), keys);
      JournalRange(device, journalHead, oldDataEnd);
      if dataEnd / CACHE_BLOCK == oldDataEnd / CACHE_BLOCK {
        JournalStays(device, journalHead, oldDataEnd, dataEnd, SavedStart(), keys);
        assert cache.history + [] == cache.history;
        AccessesOf(cache.history, [], SlotBlocks(journalHead));
        AccessesGrow(cache.history, cache.history, SlotBlocks(journalHead), 0, SlotBlocks(journalHead), JOURNAL_TICKS);
      } else {
        JournalMoves(device, journalHead, oldDataEnd, dataEnd, SavedStart(), keys);
        MoveJournal(oldDataEnd, limit);
        AheadKept(device, flash.device, ps, dataEnd);
      }
    }

    /** Goes on to the next slot, whose page is erased when it is entered, and writes the entry there. */
    method MoveJournal(ghost oldDataEnd: nat, ghost limit: nat)
      requires Attached() && CachedBelow(limit) && Offset(limit, CACHE_BLOCK) == 0 && DATA_START <= limit <= |flash.device|
      requires HasJournal(flash.device, journalHead, oldDataEnd) && journalHead + 2 * JOURNAL_ENTRY <= DATA_START
      requires dataStart == DATA_START <= dataEnd < 0x1F000
      requires var next := Hex(JournalOffset(dataEnd), JOURNAL_ENTRY);
               && Writable(flash.device, journalHead + JOURNAL_ENTRY, next)
               && Writable(Put(flash.device, journalHead + JOURNAL_ENTRY, next), journalHead, Zeros(JOURNAL_ENTRY))
      modifies this`journalHead, flash, cache, cache.cache
      ensures Attached() && CachedBelow(limit) && journalHead == old(journalHead) + JOURNAL_ENTRY
      ensures flash.device == NextEntry(old(flash.device), old(journalHead), Hex(JournalOffset(dataEnd), JOURNAL_ENTRY))
      ensures TailKept(limit) && Accesses(old(cache.history), cache.history, SlotBlocks(old(journalHead)), JOURNAL_TICKS)
    {
      hide Offset, Floor, Put, Writable, FSCache.Valid, HasJournal, JournalOffset, NextEntry, Hex, Overtaken, CleanBelow, Accesses;
      TailIsBlock();
      JournalRange(flash.device, journalHead, oldDataEnd);
      ghost var before := cache.history;
      var oldJournalHead := journalHead;
      journalHead := journalHead + JOURNAL_ENTRY;
      SlotInBlock(journalHead);
      assert before + [] == before;
      AccessesOf(before, [], {});
      AccessesGrow(before, before, {}, 0, SlotBlocks(oldJournalHead), 2);
      if Offset(journalHead, flash.blockSize) == 0 {
        journalHead := Cycled(journalHead, dataStart);
        JournalPageBlank(flash.device, flash.blockSize, oldJournalHead, oldDataEnd);
        EraseJournalPage(journalHead, limit);
        AccessesGrow(before, cache.history, {journalHead}, 2, SlotBlocks(oldJournalHead), 2);
      }
      ghost var between := cache.history;
      WriteEntry(oldJournalHead, limit);
      AccessesJoin(before, between, cache.history, SlotBlocks(oldJournalHead), 2, SlotBlocks(oldJournalHead), 4 * JOURNAL_ENTRY);
      assert SlotBlocks(oldJournalHead) + SlotBlocks(oldJournalHead) == SlotBlocks(oldJournalHead);
    }

    /** Writes the head of the journal, then clears the entry before it. */
    method WriteEntry(oldJournalHead: nat, ghost limit: nat)
      requires Attached() && CachedBelow(limit) && Offset(limit, CACHE_BLOCK) == 0 && DATA_START <= limit <= |flash.device|
      requires journalHead == oldJournalHead + JOURNAL_ENTRY <= DATA_START - JOURNAL_ENTRY && oldJournalHead % JOURNAL_ENTRY == 0
      requires dataStart == DATA_START <= dataEnd < 0x1F000
      requires var next := Hex(JournalOffset(dataEnd), JOURNAL_ENTRY);
               && Writable(flash.device, journalHead, next)
               && Writable(Put(flash.device, journalHead, next), oldJournalHead, Zeros(JOURNAL_ENTRY))
      modifies flash, cache, cache.cache
      ensures Attached() && CachedBelow(limit)
      ensures TailKept(limit)
      ensures Accesses(old(cache.history), cache.history, SlotBlocks(oldJournalHead), 4 * JOURNAL_ENTRY)
      ensures flash.device == NextEntry(old(flash.device), oldJournalHead, Hex(JournalOffset(dataEnd), JOURNAL_ENTRY))
    {
      hide Offset, Put, Writable, FSCache.Valid, Hex, Overtaken, CleanBelow;
      TailIsBlock();
      var je := WriteNum(((dataEnd - dataStart) / CACHE_BLOCK) * CACHE_BLOCK);
      SlotInBlock(journalHead);
      SlotInBlock(oldJournalHead);
      ghost var before := cache.history;
      WriteBelow(journalHead, je, limit);
      ghost var between := cache.history;
      WriteBelow(oldJournalHead, Zeros(JOURNAL_ENTRY), limit);
      AccessesJoin(before, between, cache.history, {Floor(journalHead, CACHE_BLOCK)}, 2 * JOURNAL_ENTRY,
                   {Floor(oldJournalHead, CACHE_BLOCK)}, 2 * JOURNAL_ENTRY);
    }

    /** The cache blocks of an earlier journal entry and of the present one. */
    ghost function SlotBlocks(oldJournalHead: nat): set<nat>
      reads this`journalHead
    {
      {Floor(journalHead, CACHE_BLOCK)} + {Floor(oldJournalHead, CACHE_BLOCK)}
    }

    /** Enters a page of the journal that is blank already. */
    method EraseJournalPage(page: nat, ghost limit: nat)
      requires Attached() && CachedBelow(limit) && page + CACHE_BLOCK <= limit && page < Tail()
      requires Offset(page, CACHE_BLOCK) == 0 && Offset(page, flash.blockSize) == 0
      requires page + CACHE_BLOCK <= page + flash.blockSize <= |flash.device|
      requires Put(flash.device, page, Blank(flash.blockSize)) == flash.device
      requires Put(flash.device, page, Blank(CACHE_BLOCK)) == flash.device
      modifies flash, cache, cache.cache
      ensures Attached() && CachedBelow(limit) && flash.device == old(flash.device)
      ensures TailKept(limit) && Accesses(old(cache.history), cache.history, {page}, 2)
    {
      hide Offset, Put, Blank, Recent, FSCache.ValidFor;
      cache.Erase(page);
      flash.Erase(page);
      OthersAccessed(old(cache.history), [page, page], Tail(), limit);
      AccessesOf(old(cache.history), [page, page], {page});
    }

    /** The last block of the flash is in the cache, and not blank. */
    ghost predicate TailMarked()
      reads flash, cache, cache.cache
    {
      && CACHE_BLOCK <= |flash.device|
      && Holds(cache.cache[..], |flash.device| - CACHE_BLOCK)
      && flash.device[|flash.device| - CACHE_BLOCK..] != Blank(CACHE_BLOCK)
    }

    /** Marks the end of the flash, unless the cache refuses to because something is there already. Either way the last
        block is in the cache afterwards, accessed last of all, and not blank. */
    method MarkFull()
      requires Valid() && !full
      modifies this`full, flash, cache, cache.cache
      ensures Valid() && full && flash.device == Marked(old(flash.device)) && TailMarked()
      ensures Tail() in cache.history && Recent(cache.history, Tail()) == {} && cache.stale == {}
      ensures |cache.history| <= |old(cache.history)| + 2 && (AtRisk() ==> PageEnd(dataEnd, flash.blockSize) < |flash.device|)
    {
      hide Offset, Floor, Put, Writable, FSCache.Valid, ErasedAhead, Front, Printable, AllClean, HeadingLine, Holds, Marked, Recent;
      ghost var device := flash.device;
      EndInRange(device, flash.blockSize, dataEnd);
      PageFacts(dataEnd, flash.blockSize, |device|);
      StaleIsUsed();
      WriteTail();
      full := true;
      FrontKept(device, flash.device, journalHead, dataEnd, SavedStart(), saved);
      AheadIgnoresTail(device, flash.device, flash.blockSize, dataEnd);
    }

    lemma StaleIsUsed()
      requires Attached()
      ensures forall b | b in cache.stale :: b in cache.history
    {
      hide MostRecentlyUsed, CountsOrder, Coherent, Offset;
    }

    method WriteTail()
      requires Attached() && logEnd == LogEnd(|flash.device|) && cache.stale == {}
      modifies flash, cache, cache.cache
      ensures Attached() && cache.stale == {}
      ensures flash.device == Marked(old(flash.device)) && TailMarked()
      ensures Tail() in cache.history && Recent(cache.history, Tail()) == {}
      ensures forall b | b in cache.history :: b in old(cache.history) || b == Tail()
      ensures |cache.history| <= |old(cache.history)| + 2
    {
      hide Offset, Put, Writable, FSCache.Valid, BlocksOf, Holds, Recent;
      ghost var device := flash.device;
      MultipleOfDivisor(|device|, flash.blockSize, CACHE_BLOCK);
      TailBlock(|device|);
      var _ := cache.Write(logEnd + 1, FUL);
      TailNotBlank(device, flash.device);
      LastAccess(old(cache.history), cache.history, Tail());
      RecentAfterUse(cache.history[..|cache.history| - 1], Tail());
      assert cache.history == cache.history[..|cache.history| - 1] + [Tail()];
    }

    /** The cache is a copy of the flash exactly if it does not hold the last block as a stale one. */
    lemma CopyOfFlash()
      requires Valid() && |cache.history| < COUNTER
      ensures Coherent(cache.cache[..], flash.device, CACHE_BLOCK, {}) <==> !(Tail() in cache.stale && TailHeld())
    {
      hide Offset, MostRecentlyUsed, CountsOrder, Recent, Front, ErasedAhead, Printable, AllClean, Overtaken, Floor;
      var entries := cache.cache[..];
      cache.HeldAre(Tail());
      forall i | 0 <= i < |entries| && entries[i].page.Loaded?
        ensures Copies(entries[i], flash.device, CACHE_BLOCK, {}) <==> entries[i].address !in cache.stale
      {
        assert Copies(entries[i], flash.device, CACHE_BLOCK, cache.stale);
      }
    }

    /** Logs a line of text. A line that does not fit is refused, and the log marked as full the first time. The log goes
        on either way: also the text that enters the last page, and reaches its last block, is stored as it is. */
    method LogString(s: seq<Byte>) returns (status: Status)
      requires Valid() && NUL !in s && Safe(|s|, 2 * |s|)
      modifies this, flash, cache, cache.cache
      ensures Valid() && |flash.device| == |old(flash.device)|
      ensures DATA_START <= old(dataEnd) <= dataEnd <= |flash.device| && logEnd == old(logEnd)
      ensures if old(dataEnd) + |s| <= logEnd then
                && status == OK && full == old(full)
                && Text() == old(Text()) + Cleaned(s, false) && rowCount == old(rowCount) + 1
                && (|old(cache.history)| + 2 * |s| < COUNTER ==>
                      StaleAfter(old(cache.history), old(dataEnd), dataEnd, cache.stale, flash.blockSize, |flash.device|))
                && (journalHead == old(journalHead) || journalHead == old(journalHead) + JOURNAL_ENTRY)
                && Accesses(old(cache.history), cache.history,
                            Used(BlocksOf(old(dataEnd), dataEnd, CACHE_BLOCK)) + SlotBlocks(old(journalHead)), 2 * |s| + JOURNAL_TICKS)
              else
                && status == NO_RESOURCES && full && dataEnd == old(dataEnd)
                && Text() == old(Text()) && rowCount == old(rowCount) && journalHead == old(journalHead)
                && flash.device == (if old(full) then old(flash.device) else Marked(old(flash.device)))
                && (!old(full) ==> TailMarked() && Tail() in cache.history && Recent(cache.history, Tail()) == {})
                && |cache.history| <= |old(cache.history)| + 2
      ensures AtRisk() ==> old(AtRisk()) || (!old(full) && full && PageEnd(dataEnd, flash.blockSize) < |flash.device|)
      ensures |cache.history| <= |old(cache.history)| + 2 * |s| + JOURNAL_TICKS
      ensures rowData == old(rowData) && headingsChanged == old(headingsChanged) && rowStarted == old(rowStarted)
      ensures headingStart == old(headingStart) && headingLength == old(headingLength) && saved == old(saved)
    {
      hide Offset, Floor, Put, Writable, FSCache.Valid, ErasedAhead, Front, Printable, AllClean, HeadingLine, Cleaned, Marked, Recent, Overtaken, CachedBelow, StaleAfter, BlocksOf;
      EndInRange(flash.device, flash.blockSize, dataEnd);
      if |s| > logEnd - dataEnd {
        if !full {
          MarkFull();
        }
        return NO_RESOURCES;
      }
      var data := s;
      var cleaned := CleanBuffer(data, false);
      if |cleaned| > 0 {
        data := cleaned;
      }
      StoreLine(data);
      rowCount := rowCount + 1;
      return OK;
    }

    /** Appends a text that fits, and records its end in the journal. */
    method StoreLine(data: seq<Byte>)
      requires Valid() && dataEnd + |data| <= logEnd && Safe(|data|, 2 * |data|)
      modifies this`dataEnd, this`journalHead, flash, cache, cache.cache
      ensures Valid() && dataEnd == old(dataEnd) + |data| && |flash.device| == |old(flash.device)|
      ensures DATA_START <= old(dataEnd) <= dataEnd <= |flash.device|
      ensures Text() == old(Text()) + data
      ensures AtRisk() ==> old(AtRisk())
      ensures journalHead == old(journalHead) || journalHead == old(journalHead) + JOURNAL_ENTRY
      ensures Accesses(old(cache.history), cache.history,
                       Used(BlocksOf(old(dataEnd), dataEnd, CACHE_BLOCK)) + SlotBlocks(old(journalHead)), 2 * |data| + JOURNAL_TICKS)
      ensures |old(cache.history)| + 2 * |data| < COUNTER ==>
                StaleAfter(old(cache.history), old(dataEnd), dataEnd, cache.stale, flash.blockSize, |flash.device|)
    {
      hide Offset, Floor, Put, Writable, FSCache.Valid, ErasedAhead, Front, Grown, Printable, AllClean, HeadingLine, Recent, Overtaken, CleanBelow, CachedBelow, StaleAfter, BlocksOf;
      ghost var device := flash.device;
      EndInRange(device, flash.blockSize, dataEnd);
      var oldDataEnd := dataEnd;
      ghost var before, jh := cache.history, journalHead;
      AppendText(data);
      ghost var between := cache.history;
      GrownFront(device, oldDataEnd, data, flash.device);
      FrontKept(device, flash.device, journalHead, oldDataEnd, SavedStart(), saved);
      EndInRange(flash.device, flash.blockSize, dataEnd);
      UpdateJournal(oldDataEnd, saved);
      AccessesJoin(before, between, cache.history, Used(BlocksOf(oldDataEnd, dataEnd, CACHE_BLOCK)), 2 * |data|,
                   SlotBlocks(jh), JOURNAL_TICKS);
      assert Text() == flash.device[DATA_START..][..dataEnd - DATA_START];
    }

    // ---------------------------------------------------------------- rows

    /** Adds a column, in front or at the end, unless there is one with that key. */
    method AddHeading(key: seq<Byte>, value: seq<Byte>, head: bool)
      modifies this`rowData, this`headingsChanged
      ensures if key in Keys(old(rowData)) then rowData == old(rowData) && headingsChanged == old(headingsChanged)
              else headingsChanged
                   && rowData == if head then [ColumnEntry(key, value)] + old(rowData) else old(rowData) + [ColumnEntry(key, value)]
    {
      for i := 0 to |rowData|
        invariant rowData == old(rowData) && headingsChanged == old(headingsChanged)
        invariant forall j | 0 <= j < i :: rowData[j].key != key
      {
        if rowData[i].key == key {
          assert Keys(rowData)[i] == key;
          return;
        }
      }
      rowData := if head then [ColumnEntry(key, value)] + rowData else rowData + [ColumnEntry(key, value)];
      headingsChanged := true;
    }

    /** Starts a row when none is open. */
    method StartRow()
      requires Valid() && !rowStarted
      modifies this`rowData, this`rowStarted
      ensures Valid() && rowStarted && rowData == Emptied(old(rowData))
    {
      hide FSCache.Valid, ErasedAhead, Front, HeadingLine, AllClean, Printable, CachedBelow, Overtaken, AtRisk;
      ghost var before := rowData;
      for i := 0 to |rowData|
        invariant |rowData| == |before| && Keys(rowData) == Keys(before)
        invariant forall j | 0 <= j < |before| :: rowData[j] == if j < i then ColumnEntry(before[j].key, []) else before[j]
      {
        rowData := rowData[i := rowData[i].(value := [])];
      }
      rowStarted := true;
      assert rowData == Emptied(before);
      EmptiedIsClean(before);
    }

    /** Sets a cell of the open row, opening one if there is none. */
    method LogData(key: seq<Byte>, value: seq<Byte>)
      requires Valid() && NUL !in key && ERASED !in key && NUL !in value
      modifies this`rowData, this`rowStarted, this`headingsChanged
      ensures Valid() && rowStarted
      ensures rowData == WithEntry(if old(rowStarted) then old(rowData) else Emptied(old(rowData)),
                                   Cleaned(key, true), Cleaned(value, true))
      ensures headingsChanged == (old(headingsChanged) || Cleaned(key, true) !in Keys(old(rowData)))
    {
      hide FSCache.Valid, ErasedAhead, Front, HeadingLine, Cleaned, Emptied, Clean, AllClean, Printable, CachedBelow, Overtaken, AtRisk;
      if !rowStarted {
        StartRow();
      }
      var k, v := key, value;
      var cleaned := CleanBuffer(key, true);
      if |cleaned| > 0 {
        k := cleaned;
      }
      cleaned := CleanBuffer(value, true);
      if |cleaned| > 0 {
        v := cleaned;
      }
      CleanedIsCell(key);
      CleanedIsCell(value);
      SetCell(k, v);
    }

    /** Sets the cell of the first column with the key, or of a new column. */
    method SetCell(key: seq<Byte>, value: seq<Byte>)
      requires Valid() && Clean(key) && ERASED !in key && Clean(value)
      modifies this`rowData, this`headingsChanged
      ensures Valid() && rowData == WithEntry(old(rowData), key, value)
      ensures headingsChanged == (old(headingsChanged) || key !in Keys(old(rowData)))
    {
      hide FSCache.Valid, ErasedAhead, Front, HeadingLine, Clean, AllClean, Printable, CachedBelow, Overtaken, AtRisk, Keys, Values, WithEntry;
      ghost var before := rowData;
      WithEntrySets(before, key, value);
      WithEntryIsClean(before, key, value);
      var added := false;
      for i := 0 to |rowData|
        invariant !added && rowData == before && headingsChanged == old(headingsChanged)
        invariant forall j | 0 <= j < i :: rowData[j].key != key
      {
        if rowData[i].key == key {
          HasKey(before, key, i);
          rowData := rowData[i := rowData[i].(value := value)];
          WithEntryAt(before, key, value, i);
          added := true;
          break;
        }
      }
      if !added {
        HasKey(before, key, |before|);
        WithEntryAt(before, key, value, |before|);
        AddHeading(key, value, false);
      }
    }
  
    /** Clears the headings on flash and writes the present ones behind them. */
    method SaveHeadings()
      requires Valid() && headingsChanged
      requires SavedStart() + headingLength + |Line(Keys(rowData))| < JOURNAL_START
      modifies this`headingStart, this`headingLength, this`saved, flash, cache, cache.cache
      ensures initialized && dataStart == DATA_START && Ready()
      ensures Front(flash.device, journalHead, dataEnd, SavedStart(), saved)
      ensures saved == Keys(rowData) && headingLength == |HeadingLine(saved)| && headingStart != 0
      ensures |flash.device| == |old(flash.device)| && flash.device[DATA_START..] == old(flash.device[DATA_START..])
      ensures |cache.history| <= |old(cache.history)| + 2 * (old(headingLength) + |Line(Keys(rowData))|)
      ensures AtRisk() ==> old(AtRisk())
    {
      hide Offset, Floor, Put, Writable, FSCache.Valid, ErasedAhead, Front, AllClean, Printable, Line, Overtaken, CleanBelow, NextHeadings;
      ghost var device, ps, limit := flash.device, flash.blockSize, PageEnd(dataEnd, flash.blockSize);
      var keys := Keys(rowData);
      EndInRange(device, ps, dataEnd);
      PageFacts(dataEnd, ps, |device|);
      FrontRange(device, journalHead, dataEnd, SavedStart(), saved);
      HeadingsMove(device, journalHead, dataEnd, SavedStart(), saved, keys);
      if headingStart == 0 {
        headingStart := HEADINGS_START;
      }
      var h := WriteLine(keys);
      ReplaceHeadings(headingStart, headingLength, h, limit);
      headingStart := headingStart + headingLength;
      headingLength := |h|;
      saved := keys;
      AheadKept(device, flash.device, ps, dataEnd);
    }

    /** Clears some bytes and writes a line behind them. */
    method ReplaceHeadings(start: nat, length: nat, line: seq<Byte>, ghost limit: nat)
      requires Attached() && CachedBelow(limit) && Offset(limit, CACHE_BLOCK) == 0 && DATA_START <= limit <= |flash.device|
      requires start + length + |line| < JOURNAL_START && Writable(flash.device, start, Zeros(length))
      requires Writable(Put(flash.device, start, Zeros(length)), start + length, line)
      modifies flash, cache, cache.cache
      ensures Attached() && CachedBelow(limit) && flash.device == NextHeadings(old(flash.device), start, length, line)
      ensures TailKept(limit) && old(cache.history) <= cache.history
      ensures |cache.history| <= |old(cache.history)| + 2 * (length + |line|)
    {
      hide Offset, Put, Writable, FSCache.Valid, Overtaken, CleanBelow;
      TailIsBlock();
      WriteBelow(start, Zeros(length), limit);
      WriteBelow(start + length, line, limit);
    }

    /** New headings fit before the journal. */
    ghost predicate HeadingsFit()
      reads this
    {
      headingsChanged ==> SavedStart() + headingLength + |Line(Keys(rowData))| < JOURNAL_START
    }

    /** Ending the row is safe: its lines do not reach the last block, or the cache does not hold that from before, or it
        drops it in time. New headings that are refused count as well, as they put the last block at risk. */
    ghost predicate SafeToEnd()
      reads this, flash, cache
    {
      var h, r := |NewHeadings()|, |RowLine(rowData)|;
      var harmless := full || dataEnd + h <= logEnd || (flash.blockSize > 0 && PageEnd(dataEnd, flash.blockSize) == |flash.device|);
      dataEnd + h + r > Tail() && (AtRisk() || !harmless) ==>
        flash.blockSize >= CACHE_ENTRIES * CACHE_BLOCK
        && |cache.history| + 2 * (headingLength + h) + 2 * (h + r) + JOURNAL_TICKS < COUNTER
    }

    /** The line of new headings that ending the row logs first. */
    ghost function NewHeadings(): seq<Byte>
      reads this
    {
      if headingsChanged then Line(Keys(rowData)) else []
    }

    /** A line, if it fits behind the data and `before` more bytes. */
    ghost function Fitting(before: nat, line: seq<Byte>): seq<Byte>
      reads this
    {
      if dataEnd + before + |line| <= logEnd then line else []
    }

    /** Nothing has changed but the row. */
    twostate predicate Unmoved()
      reads this, cache
    {
      && headingsChanged == old(headingsChanged) && full == old(full)
      && headingStart == old(headingStart) && headingLength == old(headingLength)
      && cache.history == old(cache.history) && cache.stale == old(cache.stale)
    }

    /** Starts a row, ending one that is open. */
    method BeginRow()
      requires Valid() && (rowStarted ==> HeadingsFit() && SafeToEnd())
      modifies this, flash, cache, cache.cache
      ensures Valid() && rowStarted && rowData == Emptied(old(rowData))
      ensures |flash.device| == |old(flash.device)| && DATA_START <= dataEnd <= |flash.device| && logEnd == old(logEnd)
      ensures !old(rowStarted) ==>
                && flash.device == old(flash.device) && dataEnd == old(dataEnd) && Unmoved()
      ensures old(rowStarted) ==>
                var h := old(Fitting(0, NewHeadings()));
                Text() == old(Text()) + h + old(Fitting(|h|, RowLine(rowData)))
    {
      hide FSCache.Valid, ErasedAhead, Front, AllClean, Printable, Line, Floor, Offset, RowLine, HeadingLine, Emptied, Overtaken, Recent, CachedBelow, AtRisk;
      EndInRange(flash.device, flash.blockSize, dataEnd);
      if rowStarted {
        var _ := EndRow();
      }
      StartRow();
    }

    /** Ends the row: logs the headings if there are new ones, then the row if it has a value, each if it fits. */
    method EndRow() returns (status: Status)
      requires Valid() && HeadingsFit() && SafeToEnd()
      modifies this, flash, cache, cache.cache
      ensures Valid() && |flash.device| == |old(flash.device)|
      ensures DATA_START <= dataEnd <= |flash.device| && logEnd == old(logEnd) && rowData == old(rowData)
      ensures !rowStarted
      ensures !old(rowStarted) ==>
                status == INVALID_STATE && flash.device == old(flash.device) && dataEnd == old(dataEnd)
      ensures old(rowStarted) ==>
                var h, row := old(Fitting(0, NewHeadings())), RowLine(rowData);
                var r := old(Fitting(|h|, RowLine(rowData)));
                && Text() == old(Text()) + h + r && !headingsChanged
                && full == (old(full) || h != old(NewHeadings()) || r != row)
                && status == (if full then NO_RESOURCES else OK)
                && (AtRisk() ==> old(AtRisk()) || (!old(full) && full))
      ensures old(rowStarted && headingsChanged) ==> TellsKeys(old(NewHeadings()), rowData)
      ensures old(rowStarted) ==>
                if forall i | 0 <= i < |rowData| :: rowData[i].value == [] then RowLine(rowData) == []
                else TellsValues(RowLine(rowData), rowData)
    {
      hide FSCache.Valid, ErasedAhead, Front, AllClean, Printable, Line, Floor, Offset, RowLine, HeadingLine, Overtaken, Recent, CachedBelow, TellsKeys, TellsValues;
      EndInRange(flash.device, flash.blockSize, dataEnd);
      if !rowStarted {
        return INVALID_STATE;
      }
      RowTells(rowData);
      if headingsChanged {
        HeadingsTell(rowData);
        LogHeadings();
      }
      EndInRange(flash.device, flash.blockSize, dataEnd);
      LogRow();
      rowStarted := false;
      status := if full then NO_RESOURCES else OK;
    }

    /** Logs new headings. */
    method LogHeadings()
      requires Valid() && headingsChanged && HeadingsFit()
      requires Safe(|Line(Keys(rowData))|, 2 * headingLength + 4 * |Line(Keys(rowData))|)
      modifies this, flash, cache, cache.cache
      ensures Valid() && !headingsChanged && |flash.device| == |old(flash.device)|
      ensures DATA_START <= old(dataEnd) <= dataEnd <= |flash.device| && logEnd == old(logEnd)
      ensures rowData == old(rowData) && rowStarted == old(rowStarted)
      ensures var line := Line(Keys(rowData));
              if old(dataEnd) + |line| <= logEnd then
                Text() == old(Text()) + line && dataEnd == old(dataEnd) + |line| && full == old(full)
              else
                Text() == old(Text()) && dataEnd == old(dataEnd) && full
      ensures AtRisk() ==> old(AtRisk()) || (!old(full) && full && PageEnd(dataEnd, flash.blockSize) < |flash.device|)
      ensures |cache.history| <= |old(cache.history)| + 2 * old(headingLength) + 4 * |Line(Keys(rowData))| + JOURNAL_TICKS
    {
      hide FSCache.Valid, ErasedAhead, Front, AllClean, Printable, Line, Floor, Offset, HeadingLine, Overtaken, Recent, CachedBelow;
      EndInRange(flash.device, flash.blockSize, dataEnd);
      ghost var device := flash.device;
      SaveHeadings();
      SameText(device, flash.device, dataEnd);
      var h := WriteLine(Keys(rowData));
      PrintableLine(Keys(rowData));
      var _ := LogString(h);
      headingsChanged := false;
    }

    /** Logs the row, unless it is empty. */
    method LogRow()
      requires Valid() && !headingsChanged && Safe(|RowLine(rowData)|, 2 * |RowLine(rowData)|)
      modifies this, flash, cache, cache.cache
      ensures Valid() && |flash.device| == |old(flash.device)|
      ensures DATA_START <= old(dataEnd) <= dataEnd <= |flash.device| && logEnd == old(logEnd)
      ensures rowData == old(rowData) && !headingsChanged
      ensures if old(dataEnd) + |RowLine(rowData)| <= logEnd then
                Text() == old(Text()) + RowLine(rowData) && full == old(full)
              else
                Text() == old(Text()) && dataEnd == old(dataEnd) && full
      ensures AtRisk() ==> old(AtRisk()) || (!old(full) && full)
    {
      hide FSCache.Valid, ErasedAhead, Front, AllClean, Printable, Line, Floor, Offset, HeadingLine, Overtaken, Recent, CachedBelow;
      EndInRange(flash.device, flash.blockSize, dataEnd);
      var row := WriteLine(Values(rowData));
      var empty := true;
      for i := 0 to |rowData|
        invariant empty <==> forall j | 0 <= j < i :: rowData[j].value == []
      {
        if |rowData[i].value| > 0 {
          empty := false;
        }
      }
      if !empty {
        LineIsClean(Values(rowData));
        var _ := LogString(row);
      }
    }
  
    // ---------------------------------------------------------------- reading rows

    /** The text of a row, when each logged string has been one line. */
    method GetRow(index: int, ghost rows: seq<seq<Byte>>) returns (row: seq<Byte>)
      requires Valid()
      requires Written(rows) && rowCount == |rows|
      modifies cache, cache.cache
      ensures Valid() && row == RowFor(rows, index)
    {
      hide FSCache.Valid, ErasedAhead, Front, AllClean, Printable, Floor, Offset, HeadingLine, Start, Lines, RowText, RowFor, CachedBelow, Overtaken, AtRisk;
      var negativeIndex := index - rowCount;
      var fromRowIndex := if index > 0 && -negativeIndex < index then negativeIndex else index;
      RowForNearer(rows, index);
      EndInRange(flash.device, flash.blockSize, dataEnd);
      TextIsLonger(rows);
      if dataEnd == dataStart {
        return [];
      }
      var startRowFound, startOfRow, endOfDataChunk;
      if fromRowIndex < 0 {
        startRowFound, startOfRow, endOfDataChunk := ScanBack(fromRowIndex, rows);
      } else {
        startRowFound, startOfRow, endOfDataChunk := ScanForward(fromRowIndex, rows);
      }
      if !startRowFound {
        return [];
      }
      row := ReadData(startOfRow, endOfDataChunk - startOfRow);
    }

    /** The text consists of these rows. */
    ghost predicate Written(rows: seq<seq<Byte>>)
      reads this`dataEnd, flash
      requires DATA_START <= dataEnd <= |flash.device|
    {
      Text() == Lines(rows) && RowText(rows)
    }

    /** Reads logged text. */
    method ReadData(address: nat, len: nat) returns (data: seq<Byte>)
      requires Valid() && DATA_START <= address && address + len <= dataEnd
      modifies cache, cache.cache
      ensures Valid() && data == Text()[address - DATA_START..address - DATA_START + len]
    {
      hide FSCache.Valid, ErasedAhead, Front, AllClean, Printable, Floor, Offset, HeadingLine;
      EndInRange(flash.device, flash.blockSize, dataEnd);
      PageFacts(dataEnd, flash.blockSize, |flash.device|);
      SliceOfSlice(flash.device, DATA_START, dataEnd, address - DATA_START, address - DATA_START + len);
      data := ReadBelow(address, len, PageEnd(dataEnd, flash.blockSize));
    }

    /** The length of what the host sees. */
    method GetDataLength(format: DataFormat) returns (length: nat)
      requires Valid() && DATA_START <= dataEnd <= |flash.device|
      ensures length == |HostFile(format, header, logEnd, daplinkVersion, Text())|
    {
      hide FSCache.Valid, ErasedAhead, Front, AllClean, Printable, Floor, Offset, HeadingLine, Metadata;
      var csv := dataEnd - dataStart;
      match format
      case HTMLHeader => length := HEADER_SIZE + META_LENGTH + 1;
      case HTML => length := HEADER_SIZE + META_LENGTH + csv + 1;
      case CSV => length := csv;
    }

    /** Reads a window of what the host sees, with as much of the text as was there when it asked for the length. */
    method HostRead(index: nat, len: nat, format: DataFormat, length: nat) returns (status: Status, data: seq<Byte>)
      requires Valid() && DATA_START <= dataEnd <= |flash.device| && length < 0x1_0000_0000
      modifies cache, cache.cache
      ensures Valid() && Text() == old(Text())
      ensures var textLen := TextLength(format, length);
              if textLen > |Text()| then status == INVALID_PARAMETER
              else status == OK && data == Window(HostFile(format, header, logEnd, daplinkVersion, Text()[..textLen]), index, len)
    {
      hide FSCache.Valid, ErasedAhead, Front, AllClean, Printable, Floor, Offset, HeadingLine, Metadata, Window, Reads, CachedBelow, Overtaken, AtRisk;
      EndInRange(flash.device, flash.blockSize, dataEnd);
      var dataMax := dataEnd - dataStart;
      var dataLen := dataMax;
      match format {
        case HTML => dataLen := (length - HEADER_SIZE - META_LENGTH - 1) % 0x1_0000_0000;
        case CSV => dataLen := length;
        case HTMLHeader =>
      }
      if dataLen > dataMax {
        return INVALID_PARAMETER, [];
      }
      var hdr, mtr := HEADER_SIZE, META_LENGTH;
      var meta := Metadata(logEnd - (dataStart - hdr - mtr), hdr + mtr, daplinkVersion);
      ghost var text := Text()[..dataLen];
      var r := Reading([], index, len, 0);
      NothingRead(index, len);
      assert [] + header == header && [] + text == text;
      match format {
        case HTMLHeader =>
          r := ReadSource(r, Local(header), [], index, len);
          r := ReadSource(r, Local(meta), header, index, len);
          r := ReadSource(r, Local([ERASED]), header + meta, index, len);
        case HTML =>
          r := ReadSource(r, Local(header), [], index, len);
          r := ReadSource(r, Local(meta), header, index, len);
          r := ReadSource(r, Logged(dataStart, dataLen), header + meta, index, len);
          r := ReadSource(r, Local([ERASED]), header + meta + text, index, len);
        case CSV =>
          r := ReadSource(r, Logged(dataStart, dataLen), [], index, len);
      }
      AllRead(r, HostFile(format, header, logEnd, daplinkVersion, text), index, len);
      return OK, r.data;
    }

    /** The text that a file of a given length shows, computed in 32 bits. */
    function TextLength(format: DataFormat, length: nat): nat
      reads this`dataEnd
      requires DATA_START <= dataEnd
    {
      match format
      case HTMLHeader => dataEnd - DATA_START
      case HTML => (length - HEADER_SIZE - META_LENGTH - 1) % 0x1_0000_0000
      case CSV => length
    }

    /** The length asked for just before shows all of the text; a shorter one, as long as it has room for what surrounds
        the text, shows less of it. */
    lemma LengthShows(format: DataFormat, length: nat)
      requires Valid() && DATA_START <= dataEnd <= |flash.device| && length < 0x1_0000_0000
      ensures length == |HostFile(format, header, logEnd, daplinkVersion, Text())| ==> TextLength(format, length) == |Text()|
      ensures format == HTML ==>
                (TextLength(format, length) <= |Text()| <==>
                 HEADER_SIZE + META_LENGTH + 1 <= length <= HEADER_SIZE + META_LENGTH + 1 + |Text()|)
    {
      hide FSCache.Valid, ErasedAhead, Front, AllClean, Printable, Floor, Offset, HeadingLine, Metadata, CachedBelow, Overtaken, AtRisk;
      EndInRange(flash.device, flash.blockSize, dataEnd);
    }

    lemma LengthFits(format: DataFormat)
      requires Valid() && DATA_START <= dataEnd <= |flash.device|
      ensures DATA_START <= logEnd < 0x1_0000_0000 && |header| == HEADER_SIZE && |daplinkVersion| == 5
      ensures |HostFile(format, header, logEnd, daplinkVersion, Text())| < 0x1_0000_0000
    {
      hide FSCache.Valid, ErasedAhead, Front, AllClean, Printable, Floor, Offset, HeadingLine, Metadata, CachedBelow, Overtaken, AtRisk;
      EndInRange(flash.device, flash.blockSize, dataEnd);
    }

    ghost function SourceBytes(source: Source): seq<Byte>
      reads this`dataEnd, flash
      requires DATA_START <= dataEnd <= |flash.device|
      requires source.Logged? ==> DATA_START <= source.address && source.address + source.len <= dataEnd
    {
      match source
      case Local(bytes) => bytes
      case Logged(address, len) => Text()[address - DATA_START..address - DATA_START + len]
    }

    /** Takes what a window still wants from the next part of a file. */
    method ReadSource(r: Reading, source: Source, ghost file: seq<Byte>, ghost index: nat, ghost len: nat) returns (r': Reading)
      requires Valid() && DATA_START <= dataEnd <= |flash.device| && Reads(r, file, index, len)
      requires source.Logged? ==> DATA_START <= source.address && source.address + source.len <= dataEnd
      modifies cache, cache.cache
      ensures Valid() && Reads(r', file + SourceBytes(source), index, len)
    {
      hide FSCache.Valid, ErasedAhead, Front, AllClean, Printable, Floor, Offset, HeadingLine, Window, Reads, CachedBelow, Overtaken, AtRisk;
      ReadsOn(r, file, SourceBytes(source), index, len);
      var srcLen := if source.Local? then |source.bytes| else source.len;
      var next := r.srcIndex + srcLen;
      var length := if r.index < next then next - r.index else 0;
      if length > r.len {
        length := r.len;
      }
      var data := [];
      if length > 0 {
        var offset := r.index - r.srcIndex;
        match source
        case Local(bytes) => data := bytes[offset..offset + length];
        case Logged(address, _) =>
          SliceOfSlice(Text(), address - DATA_START, address - DATA_START + source.len, offset, offset + length);
          data := ReadData(address + offset, length);
      }
      assert length == 0 ==> r.data + data == r.data;
      r' := Reading(r.data + data, r.index + length, r.len - length, next);
    }

    /** Looks for a row from the end of the text. */
    method ScanBack(fromRowIndex: int, ghost rows: seq<seq<Byte>>) returns (found: bool, startOfRow: nat, endOfDataChunk: nat)
      requires Valid() && Written(rows) && rows != [] && fromRowIndex < 0
      modifies cache, cache.cache
      ensures Valid() && (found <==> -|rows| < fromRowIndex)
      ensures found ==> DATA_START <= startOfRow <= endOfDataChunk <= dataEnd
                        && Text()[startOfRow - DATA_START..endOfDataChunk - DATA_START] == rows[|rows| + fromRowIndex]
    {
      hide FSCache.Valid, ErasedAhead, Front, AllClean, Printable, Floor, Offset, HeadingLine, Start, Lines, RowText, CachedBelow, Overtaken, AtRisk;
      startOfRow, endOfDataChunk := dataStart, dataEnd;
      var currentPos := dataEnd - 1;
      var rowIndex: int := 0;
      ghost var k: nat := |rows|;
      EndInRange(flash.device, flash.blockSize, dataEnd);
      StartLast(rows);
      while currentPos >= dataStart
        invariant Valid() && DATA_START - 1 <= currentPos < dataEnd
        invariant k <= |rows| && rowIndex == k - |rows| && fromRowIndex <= rowIndex
        invariant Start(rows, k) - 1 <= currentPos - DATA_START
        invariant if k < |rows| then endOfDataChunk == DATA_START + Start(rows, k + 1) - 1 > currentPos else endOfDataChunk == dataEnd
      {
        BackStep(rows, k, currentPos - DATA_START);
        var c := ReadData(currentPos, 1);
        if c[0] == NEWLINE {
          if rowIndex == fromRowIndex {
            RowSlice(rows, k);
            return true, currentPos + 1, endOfDataChunk;
          }
          endOfDataChunk := currentPos;
          rowIndex := rowIndex - 1;
          k := k - 1;
        }
        currentPos := currentPos - 1;
      }
      StartGrows(rows, k);
      found := false;
    }

    /** Looks for a row from the start of the text. */
    method ScanForward(fromRowIndex: nat, ghost rows: seq<seq<Byte>>) returns (found: bool, startOfRow: nat, endOfDataChunk: nat)
      requires Valid() && Written(rows) && rows != []
      modifies cache, cache.cache
      ensures Valid() && (found <==> fromRowIndex <= |rows|)
      ensures found ==> DATA_START <= startOfRow <= endOfDataChunk <= dataEnd
                        && Text()[startOfRow - DATA_START..endOfDataChunk - DATA_START]
                           == if fromRowIndex < |rows| then rows[fromRowIndex] else []
    {
      hide FSCache.Valid, ErasedAhead, Front, AllClean, Printable, Floor, Offset, HeadingLine, Start, Lines, RowText, CachedBelow, Overtaken, AtRisk;
      startOfRow, endOfDataChunk := dataStart, dataEnd;
      found := fromRowIndex == 0;
      var currentPos: nat, rowSeparatorCount: nat := dataStart, 0;
      var c: Byte := 0;
      EndInRange(flash.device, flash.blockSize, dataEnd);
      StartLast(rows);
      RowPlace(rows, 0);
      while c != ERASED && currentPos < dataEnd
        invariant Valid() && DATA_START <= currentPos <= dataEnd && c != ERASED
        invariant rowSeparatorCount <= |rows| && rowSeparatorCount <= fromRowIndex
        invariant found <==> rowSeparatorCount == fromRowIndex
        invariant found ==> startOfRow == DATA_START + Start(rows, fromRowIndex)
        invariant endOfDataChunk == dataEnd && Start(rows, rowSeparatorCount) <= currentPos - DATA_START
        invariant if rowSeparatorCount < |rows|
                  then currentPos - DATA_START < Start(rows, rowSeparatorCount + 1) <= |Lines(rows)|
                  else currentPos == dataEnd
        decreases dataEnd - currentPos
      {
        RowChar(rows, rowSeparatorCount, currentPos - DATA_START);
        RowPlace(rows, rowSeparatorCount);
        assert Text()[currentPos - DATA_START] == Lines(rows)[currentPos - DATA_START] != ERASED;
        var d := ReadData(currentPos, 1);
        c := d[0];
        if c == NEWLINE {
          if rowSeparatorCount + 1 < |rows| {
            RowPlace(rows, rowSeparatorCount + 1);
          }
          rowSeparatorCount := rowSeparatorCount + 1;
          if !found && rowSeparatorCount == fromRowIndex {
            startOfRow := currentPos + 1;
            found := true;
          } else if found && rowSeparatorCount == fromRowIndex + 1 {
            RowSlice(rows, fromRowIndex);
            endOfDataChunk := currentPos;
            break;
          }
        }
        currentPos := currentPos + 1;
      }
    }
  }

  lemma SameText(mem: seq<Byte>, mem': seq<Byte>, dataEnd: nat)
    requires DATA_START <= dataEnd <= |mem| == |mem'| && mem'[DATA_START..] == mem[DATA_START..]
    ensures mem'[DATA_START..dataEnd] == mem[DATA_START..dataEnd]
  {
    SliceOfSlice(mem, DATA_START, |mem|, 0, dataEnd - DATA_START);
    SliceOfSlice(mem', DATA_START, |mem|, 0, dataEnd - DATA_START);
    assert mem[DATA_START..|mem|] == mem[DATA_START..] && mem'[DATA_START..|mem|] == mem'[DATA_START..];
  }

  lemma PrintableLine(keys: seq<seq<Byte>>)
    requires Printable(keys)
    ensures NUL !in Line(keys) && Cleaned(Line(keys), false) == Line(keys)
  {
    LineIsClean(keys);
  }

  /** The flash holds data from `at` on, and what it held before that. */
  ghost predicate Grown(mem: seq<Byte>, at: nat, data: seq<Byte>, mem': seq<Byte>) {
    && |mem'| == |mem| && at + |data| <= |mem|
    && mem'[..at] == mem[..at] && mem'[at..at + |data|] == data
  }

  lemma GrownFront(mem: seq<Byte>, at: nat, data: seq<Byte>, mem': seq<Byte>)
    requires DATA_START <= at && Grown(mem, at, data, mem')
    ensures DATA_START <= |mem'| == |mem| && mem'[..DATA_START] == mem[..DATA_START]
    ensures at + |data| <= |mem|
    ensures mem'[DATA_START..][..at + |data| - DATA_START] == mem[DATA_START..at] + data
  {
    assert mem'[..DATA_START] == mem'[..at][..DATA_START] && mem[..DATA_START] == mem[..at][..DATA_START];
    assert mem'[DATA_START..at] == mem'[..at][DATA_START..] && mem[DATA_START..at] == mem[..at][DATA_START..];
    assert mem'[DATA_START..at + |data|] == mem'[DATA_START..at] + mem'[at..at + |data|];
    assert mem'[DATA_START..][..at + |data| - DATA_START] == mem'[DATA_START..at + |data|];
  }

  /** Filling a page, and erasing the next one if it gets full, leaves the rest of the page erased. */
  lemma PageWritten(mem: seq<Byte>, ps: nat, at: nat, data: seq<Byte>)
    requires Geometry(ps, |mem|) && ErasedAhead(mem, ps, at)
    requires at + |data| <= LogEnd(|mem|) && at + |data| <= PageEnd(at, ps)
    ensures var page, full := PageEnd(at, ps), at + |data| == PageEnd(at, ps);
            && PageEnd(at + |data|, ps) == (if full then page + ps else page)
            && (full ==> page + ps <= |mem|)
            && var erased := if full then Put(mem, page, Blank(ps)) else mem;
            && Writable(erased, at, data)
            && Grown(mem, at, data, Put(erased, at, data))
            && ErasedAhead(Put(erased, at, data), ps, at + |data|)
  {
    hide Offset, Floor, Writable, PageEnd, Put;
    EndInRange(mem, ps, at);
    PageFacts(at, ps, |mem|);
    PageAfter(at, |data|, ps);
    var page := PageEnd(at, ps);
    var erased := if at + |data| == page then Put(mem, page, Blank(ps)) else mem;
    ErasedIsWritable(erased, at, data);
    if at + |data| == page {
      PageFacts(at + |data|, ps, |mem|);
    }
  }

  lemma EndInRange(mem: seq<Byte>, ps: nat, dataEnd: nat)
    requires ps > 0 && ErasedAhead(mem, ps, dataEnd)
    ensures DATA_START <= dataEnd <= LogEnd(|mem|)
  {
  }

  lemma FrontHasJournal(mem: seq<Byte>, head: nat, dataEnd: nat, headingStart: nat, keys: seq<seq<Byte>>)
    requires Front(mem, head, dataEnd, headingStart, keys)
    ensures HasJournal(mem, head, dataEnd) && DATA_START <= |mem|
  {
  }

  lemma AheadKept(mem: seq<Byte>, mem': seq<Byte>, ps: nat, dataEnd: nat)
    requires ps > 0 && ErasedAhead(mem, ps, dataEnd) && DATA_START <= |mem'| == |mem|
    requires mem'[DATA_START..] == mem[DATA_START..]
    ensures ErasedAhead(mem', ps, dataEnd)
  {
    assert forall i | DATA_START <= i < |mem| :: mem'[i] == mem'[DATA_START..][i - DATA_START] == mem[i];
  }

  /** The mark of a full log. */
  const FUL: seq<Byte> := [0x46, 0x55, 0x4C]

  /** The flash with the mark at its end, unless something there is in the way. */
  function Marked(mem: seq<Byte>): (mem': seq<Byte>)
    requires |FUL| <= |mem|
    ensures |mem'| == |mem| && forall i | 0 <= i < |mem| - |FUL| :: mem'[i] == mem[i]
  {
    if Writable(mem, |mem| - |FUL|, FUL) then Put(mem, |mem| - |FUL|, FUL) else mem
  }

  /** The last bytes of the flash lie in its last block. */
  lemma TailBlock(size: nat)
    requires CACHE_BLOCK <= size && Offset(size, CACHE_BLOCK) == 0
    ensures BlocksOf(size - |FUL|, size, CACHE_BLOCK) == [size - CACHE_BLOCK]
  {
    hide Offset, Floor;
    OffsetOfSelf(CACHE_BLOCK);
    SumOfMultiples(size, CACHE_BLOCK, CACHE_BLOCK);
    FloorUnique(size - |FUL|, size - CACHE_BLOCK, CACHE_BLOCK);
    NoBlocks(size, CACHE_BLOCK);
  }

  /** Whether the mark was stored or refused, the end of the flash is not blank. */
  lemma TailNotBlank(mem: seq<Byte>, mem': seq<Byte>)
    requires CACHE_BLOCK <= |mem|
    requires mem' == Marked(mem)
    ensures mem'[|mem| - CACHE_BLOCK..] != Blank(CACHE_BLOCK)
  {
    hide Put, Writable;
    var at, tail := |mem| - |FUL|, mem'[|mem| - CACHE_BLOCK..];
    if AllErased(mem, at, |mem|) {
      ErasedIsWritable(mem, at, FUL);
      assert mem'[at] == FUL[0] && tail[CACHE_BLOCK - |FUL|] == mem'[at];
    } else if Writable(mem, at, FUL) {
      assert mem'[at] == FUL[0] && tail[CACHE_BLOCK - |FUL|] == mem'[at];
    } else {
      var i :| at <= i < |mem| && mem[i] != ERASED;
      assert tail[i - (|mem| - CACHE_BLOCK)] == mem[i];
    }
  }

  /** A block accessed once or twice is the only new one. */
  lemma LastAccess(before: seq<nat>, now: seq<nat>, b: nat)
    requires before < now && (now <= before + [b] || now == before + [b] + [b])
    ensures now[|now| - 1] == b && forall x | x in now :: x in before || x == b
  {
    assert now[|before|] == b;
    forall x | x in now ensures x in before || x == b {
      var i :| 0 <= i < |now| && now[i] == x;
      assert i < |before| ==> now[i] == before[i];
    }
  }

  lemma AheadIgnoresTail(mem: seq<Byte>, mem': seq<Byte>, ps: nat, dataEnd: nat)
    requires ps > 0 && ErasedAhead(mem, ps, dataEnd) && |mem'| == |mem|
    requires forall i | 0 <= i < LogEnd(|mem|) :: mem'[i] == mem[i]
    ensures ErasedAhead(mem', ps, dataEnd)
  {
  }

  lemma FrontRange(mem: seq<Byte>, head: nat, dataEnd: nat, headingStart: nat, keys: seq<seq<Byte>>)
    requires Front(mem, head, dataEnd, headingStart, keys)
    ensures DATA_START <= |mem| && HEADINGS_START <= headingStart && headingStart + |HeadingLine(keys)| < JOURNAL_START
  {
  }

  /** The pages erased by a clear: those before the data and the first one of the data, or all. */
  lemma ErasedPages(size: nat, ps: nat, fullErase: bool, end: nat)
    requires Geometry(ps, size) && end <= size && Offset(end, ps) == 0
    requires var last := if fullErase then LogEnd(size) else DATA_START;
             last < end <= last + ps
    ensures end == if fullErase then size else DATA_START + ps
  {
    hide Offset;
    PageIsWide(ps);
    OffsetOfSelf(ps);
    SumOfMultiples(JOURNAL_SIZE, JOURNAL_SIZE, ps);
    if fullErase {
      if end < size { MultiplesApart(end, size, ps); }
    } else {
      MultiplesApart(DATA_START, end, ps);
    }
  }

  lemma FormattedKeeps(device: seq<Byte>, marked: seq<Byte>, end: nat, header: seq<Byte>, metadata: seq<Byte>)
    requires |header| == HEADER_SIZE && |metadata| == META_LENGTH && DATA_START <= end <= |device| == |marked|
    requires |device| >= WORD && marked == Burn(device, |device| - WORD, Zeros(WORD))
    ensures var mem := Formatted(Put(marked, 0, Blank(end)), header, metadata);
            && mem[..HEADER_SIZE] == header && AllErased(mem, DATA_START, end)
            && (end <= |device| - WORD ==> mem[end..] == device[end..|device| - WORD] + Zeros(WORD))
  {
    hide Formatted, Put, Burn;
  }

  lemma NothingSaved()
    ensures HeadingLine([]) == [] && Printable(Keys([])) && AllClean(Values([]))
  {
  }

  lemma ImageRange(mem: seq<Byte>, ps: nat, head: nat, end: nat, start: nat, keys: seq<seq<Byte>>)
    requires Image(mem, ps, head, end, start, keys)
    ensures DATA_START <= end <= LogEnd(|mem|) && HasMetadata(mem)
  {
  }

  lemma FrontParts(mem: seq<Byte>, head: nat, end: nat, start: nat, keys: seq<seq<Byte>>)
    requires Front(mem, head, end, start, keys)
    ensures HasJournal(mem, head, end) && HasHeadings(mem, start, HeadingLine(keys)) && Printable(keys)
    ensures keys == [] ==> start == HEADINGS_START
  {
  }

  lemma EmptiedValues(rowData: seq<ColumnEntry>)
    requires forall i | 0 <= i < |rowData| :: rowData[i].value == []
    ensures AllClean(Values(rowData))
  {
  }

  lemma JournalRange(mem: seq<Byte>, head: nat, end: nat)
    requires HasJournal(mem, head, end)
    ensures DATA_START <= end && DATA_START <= |mem|
    ensures JOURNAL_START <= head && head + JOURNAL_ENTRY <= DATA_START && (head - JOURNAL_START) % JOURNAL_ENTRY == 0
  {
  }

  lemma HeadingBytes(mem: seq<Byte>, start: nat, line: seq<Byte>)
    requires HasHeadings(mem, start, line)
    ensures HEADINGS_START <= start && start + |line| < JOURNAL_START && DATA_START <= |mem|
    ensures forall i | HEADINGS_START <= i < start :: mem[i] == NUL
    ensures forall i | start <= i < start + |line| :: mem[i] == line[i - start]
    ensures mem[start..start + |line|] == line && mem[start + |line|] == ERASED
    ensures line != [] ==> mem[start] in line
  {
  }

  lemma NotGrown(mem: seq<Byte>, dataEnd: nat, ps: nat)
    requires ps > 0 && ErasedAhead(mem, ps, dataEnd)
    ensures Grown(mem, dataEnd, [], mem)
  {
  }

  lemma GrownTwice(mem: seq<Byte>, at: nat, a: seq<Byte>, b: seq<Byte>)
    ensures forall now, next :: Grown(mem, at, a, now) && Grown(now, at + |a|, b, next) ==> Grown(mem, at, a + b, next)
  {
    forall now, next | Grown(mem, at, a, now) && Grown(now, at + |a|, b, next) ensures Grown(mem, at, a + b, next) {
      assert next[..at] == next[..at + |a|][..at] && now[..at] == now[..at + |a|][..at];
      assert next[at..at + |a|] == next[..at + |a|][at..] && now[at..at + |a|] == now[..at + |a|][at..];
      assert next[at..at + |a + b|] == next[at..at + |a|] + next[at + |a|..at + |a| + |b|];
    }
  }

  /** A journal entry lies in one cache block. */
  lemma SlotInBlock(at: nat)
    requires at % JOURNAL_ENTRY == 0
    ensures Used(BlocksOf(at, at + JOURNAL_ENTRY, CACHE_BLOCK)) == {Floor(at, CACHE_BLOCK)}
    ensures Offset(at, CACHE_BLOCK) == 0 ==> Floor(at, CACHE_BLOCK) == at
  {
    hide Offset, Floor;
    var b := Floor(at, CACHE_BLOCK);
    FloorBounds(at, CACHE_BLOCK);
    SlotEnds(at);
    assert BlocksOf(at, at + JOURNAL_ENTRY, CACHE_BLOCK) == [b] + BlocksOf(b + CACHE_BLOCK, at + JOURNAL_ENTRY, CACHE_BLOCK);
    assert BlocksOf(b + CACHE_BLOCK, at + JOURNAL_ENTRY, CACHE_BLOCK) == [];
    if Offset(at, CACHE_BLOCK) == 0 { FloorUnique(at, at, CACHE_BLOCK); }
  }

  lemma SlotEnds(at: nat)
    requires at % JOURNAL_ENTRY == 0
    ensures at + JOURNAL_ENTRY <= Floor(at, CACHE_BLOCK) + CACHE_BLOCK
  {
    var b := Floor(at, CACHE_BLOCK);
    FloorBounds(at, CACHE_BLOCK);
    MultipleOfDivisor(b, CACHE_BLOCK, JOURNAL_ENTRY);
    SumOfMultiples(at, b, JOURNAL_ENTRY);
    hide Floor;
    MultiplesApart(at - b, CACHE_BLOCK, JOURNAL_ENTRY);
  }

  // ---------------------------------------------------------------- when the last block becomes stale

  /** From an earlier history on, nothing has been accessed but the blocks of text appended from `start` to `end`. */
  ghost predicate AccessedSince(history: seq<nat>, now: seq<nat>, start: nat, end: nat, tail: nat) {
    && (tail in now <==> tail in history)
    && Recent(now, tail) == Recent(history, tail) + Used(BlocksOf(start, end, CACHE_BLOCK))
  }

  /** The blocks of text from `start` on up to the page before the last. */
  function Passed(start: nat, ps: nat, size: nat): set<nat> {
    Used(BlocksOf(start, if size < 2 * ps then 0 else size - 2 * ps, CACHE_BLOCK))
  }

  /** Once text from `start` to `end` has entered the last page, the last block is stale exactly if the text has not
      reached it, and if it had been accessed, and fewer others since than the cache has entries, when its page was
      erased for the text. */
  ghost predicate StaleAfter(history: seq<nat>, start: nat, end: nat, stale: set<nat>, ps: nat, size: nat)
    requires 0 < ps && CACHE_BLOCK <= size
  {
    var tail: nat := size - CACHE_BLOCK;
    PageEnd(start, ps) < size == PageEnd(end, ps) ==>
      (tail in stale <==> end <= tail && tail in history && |Recent(history, tail) + Passed(start, ps, size)| < CACHE_ENTRIES)
  }

  lemma NothingPassed(history: seq<nat>, start: nat, stale: set<nat>, ps: nat, size: nat)
    requires 0 < ps && CACHE_BLOCK <= size
    ensures AccessedSince(history, history, start, start, size - CACHE_BLOCK)
    ensures StaleAfter(history, start, start, stale, ps, size)
  {
    NoBlocks(start, CACHE_BLOCK);
  }

  /** One round of appending keeps both. */
  lemma PageStep(history: seq<nat>, start: nat, h: seq<nat>, end: nat, stale: set<nat>, end': nat, stale': set<nat>, ps: nat, size: nat)
    requires Geometry(ps, size) && Offset(size, CACHE_BLOCK) == 0 && CACHE_BLOCK <= ps
    requires DATA_START <= start <= end < end' <= LogEnd(size) && (end == start || Offset(end, ps) == 0)
    requires var page, page' := PageEnd(end, ps), PageEnd(end', ps);
             end' <= page <= size && (page' == page || (end' == page && page' == page + ps))
    requires var tail: nat := size - CACHE_BLOCK;
             && (PageEnd(end, ps) < size ==> AccessedSince(history, h, start, end, tail))
             && StaleAfter(history, start, end, stale, ps, size)
             && (PageEnd(end, ps) == size ==> (tail in stale' <==> end' <= tail && tail in stale))
             && (PageEnd(end, ps) < size == PageEnd(end', ps) ==>
                   (tail in stale' <==> tail in h && |Recent(h, tail)| < CACHE_ENTRIES))
    ensures var tail: nat := size - CACHE_BLOCK;
            var blocks := BlocksOf(end, end', CACHE_BLOCK);
            && (PageEnd(end', ps) < size ==> AccessedSince(history, h + (blocks + blocks), start, end', tail))
            && StaleAfter(history, start, end', stale', ps, size)
  {
    hide Offset, Floor, Recent, BlocksOf, AccessedSince, Geometry;
    var page := PageEnd(end, ps);
    if page < size {
      EnteredFrom(start, end, ps, size);
      if PageEnd(end', ps) < size {
        AccessedOn(history, h, start, end, end', size - CACHE_BLOCK);
      } else {
        AccessedBefore(history, h, start, end, ps, size);
      }
    }
  }

  lemma EnteredFrom(start: nat, end: nat, ps: nat, size: nat)
    requires Geometry(ps, size) && Offset(size, CACHE_BLOCK) == 0 && CACHE_BLOCK <= ps
    requires start <= end <= LogEnd(size) && PageEnd(end, ps) < size && (end == start || Offset(end, ps) == 0)
    ensures end == start || Offset(end, CACHE_BLOCK) == 0
    ensures PageEnd(end, ps) + ps <= size && PageEnd(start, ps) < size
    ensures PageEnd(end, ps) + ps == size ==> size >= 2 * ps && end >= size - 2 * ps && (end == start || end == size - 2 * ps)
  {
    hide Offset, Floor;
    PageFacts(end, ps, size);
    PageFacts(start, ps, size);
    FloorBounds(end, ps);
    if end != start {
      MultipleOfDivisor(end, ps, CACHE_BLOCK);
      FloorUnique(end, end, ps);
    }
    MultiplesApart(PageEnd(end, ps), size, ps);
    FloorBounds(start, ps);
  }

  lemma AccessedOn(history: seq<nat>, h: seq<nat>, start: nat, end: nat, end': nat, tail: nat)
    requires start <= end <= end' <= tail && (end == start || Offset(end, CACHE_BLOCK) == 0)
    requires AccessedSince(history, h, start, end, tail)
    ensures var blocks := BlocksOf(end, end', CACHE_BLOCK); AccessedSince(history, h + (blocks + blocks), start, end', tail)
  {
    hide Offset, Recent, BlocksOf;
    var blocks := BlocksOf(end, end', CACHE_BLOCK);
    BlocksOfAre(end, end', CACHE_BLOCK);
    RecentGrows(h, blocks + blocks, tail);
    if end == start { NoBlocks(start, CACHE_BLOCK); } else { BlocksSplit(start, end, end', CACHE_BLOCK); }
    assert Used(blocks + blocks) == Used(blocks);
    assert Used(BlocksOf(start, end', CACHE_BLOCK)) == Used(BlocksOf(start, end, CACHE_BLOCK)) + Used(blocks);
  }

  lemma TextAccesses(history: seq<nat>, h: seq<nat>, start: nat, end: nat, end': nat, ps: nat, done: nat, n: nat)
    requires 0 < ps && Offset(ps, CACHE_BLOCK) == 0 && start <= end && end' == end + n && (end == start || Offset(end, ps) == 0)
    requires Accesses(history, h, Used(BlocksOf(start, end, CACHE_BLOCK)), 2 * done)
    ensures var blocks := BlocksOf(end, end', CACHE_BLOCK);
            Accesses(history, h + (blocks + blocks), Used(BlocksOf(start, end', CACHE_BLOCK)), 2 * (done + n))
  {
    hide Offset, BlocksOf, Accesses;
    var blocks := BlocksOf(end, end', CACHE_BLOCK);
    if end == start {
      NoBlocks(start, CACHE_BLOCK);
    } else {
      MultipleOfDivisor(end, ps, CACHE_BLOCK);
      BlocksSplit(start, end, end', CACHE_BLOCK);
    }
    BlocksCount(end, end', CACHE_BLOCK);
    AccessesOf(h, blocks + blocks, Used(blocks));
    AccessesJoin(history, h, h + (blocks + blocks), Used(BlocksOf(start, end, CACHE_BLOCK)), 2 * done, Used(blocks), |blocks + blocks|);
    assert Used(BlocksOf(start, end', CACHE_BLOCK)) == Used(BlocksOf(start, end, CACHE_BLOCK)) + Used(blocks);
    var all := Used(BlocksOf(start, end', CACHE_BLOCK));
    AccessesGrow(history, h + (blocks + blocks), all, 2 * done + |blocks + blocks|, all, 2 * (done + n));
  }

  lemma AccessedBefore(history: seq<nat>, h: seq<nat>, start: nat, end: nat, ps: nat, size: nat)
    requires 0 < ps && 2 * ps <= size && CACHE_BLOCK <= size && start <= end && (end == size - 2 * ps || (end == start && size - 2 * ps <= end))
    requires AccessedSince(history, h, start, end, size - CACHE_BLOCK)
    ensures Recent(h, size - CACHE_BLOCK) == Recent(history, size - CACHE_BLOCK) + Passed(start, ps, size)
    ensures size - CACHE_BLOCK in h <==> size - CACHE_BLOCK in history
  {
    hide Recent, Floor;
  }

  /** Access to blocks below the limit keeps what there is to say about the last block. */
  lemma OthersAccessed(history: seq<nat>, more: seq<nat>, tail: nat, limit: nat)
    requires forall b | b in more :: b + CACHE_BLOCK <= limit
    ensures forall b | b in history + more :: b in history || b + CACHE_BLOCK <= limit
    ensures tail !in more ==> forall b | b in Recent(history, tail) :: b in Recent(history + more, tail)
  {
    hide Recent;
    if tail !in more { RecentGrows(history, more, tail); }
  }

  lemma PutBefore(mem: seq<Byte>, at: nat, data: seq<Byte>, from: nat)
    requires at + |data| <= from <= |mem|
    ensures Put(mem, at, data)[from..] == mem[from..]
  {
  }

  /** Text that is written through the cache accesses its blocks. */
  lemma BlocksPassed(history: seq<nat>, more: seq<nat>, tail: nat, from: int, start: nat, end: nat)
    requires tail !in more
    requires forall b: nat | Offset(b, CACHE_BLOCK) == 0 && from <= b && b + CACHE_BLOCK <= start :: b in Recent(history, tail)
    requires forall b: nat | Offset(b, CACHE_BLOCK) == 0 && start < b + CACHE_BLOCK && b < end :: b in more
    ensures forall b: nat | Offset(b, CACHE_BLOCK) == 0 && from <= b < end :: b in Recent(history + more, tail)
  {
    hide Offset, Recent;
    RecentGrows(history, more, tail);
  }

  /** Text that reaches the last block through as many others as there are cache entries has dropped it. */
  lemma EnoughBlocks(history: seq<nat>, from: int, start: nat, tail: nat)
    requires Offset(tail, CACHE_BLOCK) == 0 && 0 <= from <= tail - CACHE_ENTRIES * CACHE_BLOCK && start <= tail
    requires forall b: nat | Offset(b, CACHE_BLOCK) == 0 && from <= b < start :: b in Recent(history, tail)
    ensures |Recent(history + BlocksOf(start, tail, CACHE_BLOCK), tail)| >= CACHE_ENTRIES
  {
    hide Offset, Recent, BlocksOf;
    var n, more := CACHE_BLOCK, BlocksOf(start, tail, CACHE_BLOCK);
    BlocksOfAre(start, tail, n);
    RecentGrows(history, more, tail);
    OffsetOfSelf(n);
    SumOfMultiples(tail, n, n);
    SumOfMultiples(tail - n, n, n);
    SumOfMultiples(tail - 2 * n, n, n);
    SumOfMultiples(tail - 3 * n, n, n);
    var four: set<nat> := {tail - n, tail - 2 * n, tail - 3 * n, tail - 4 * n};
    assert forall b | b in four :: b in Recent(history + more, tail);
    SubsetCount(four, Recent(history + more, tail));
  }

  /** The cache blocks of a range that ends within a page end there too. */
  lemma BlocksBelow(lo: nat, hi: nat, limit: nat)
    requires hi <= limit && Offset(limit, CACHE_BLOCK) == 0
    ensures forall b | b in BlocksOf(lo, hi, CACHE_BLOCK) :: b + CACHE_BLOCK <= limit
  {
    hide Offset, BlocksOf;
    BlocksOfAre(lo, hi, CACHE_BLOCK);
    forall b | b in BlocksOf(lo, hi, CACHE_BLOCK) ensures b + CACHE_BLOCK <= limit {
      MultiplesApart(b, limit, CACHE_BLOCK);
    }
  }
}
