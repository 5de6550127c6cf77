/** Whole runs of the log: what was logged since the last clear is what the next start finds. */
module LogRuns {
  import opened NorFlash
  import opened Blocks
  import opened UsbFlash
  import opened RecentlyUsed
  import opened FsCache
  import opened LogText
  import opened LogRows
  import opened LogImage
  import opened LogFile
  import opened Log

  /** Text without a newline, string end or unused byte. */
  ghost predicate OneLine(row: seq<Byte>) {
    NEWLINE !in row && NUL !in row && ERASED !in row
  }

  function CleanedRows(rows: seq<seq<Byte>>): (r: seq<seq<Byte>>)
    ensures |r| == |rows| && forall i | 0 <= i < |r| :: r[i] == Cleaned(rows[i], false)
  {
    seq(|rows|, i requires 0 <= i < |rows| => Cleaned(rows[i], false))
  }

  /** A row is cleaned as its line is, and stays one line. */
  lemma LineCleaned(row: seq<Byte>)
    requires OneLine(row)
    ensures Cleaned(row + [NEWLINE], false) == Cleaned(row, false) + [NEWLINE]
    ensures OneLine(Cleaned(row, false)) && NUL !in row + [NEWLINE]
  {
    var line := row + [NEWLINE];
    forall i ensures ArrowAt(line, i) == ArrowAt(row, i) {
    }
    CleaningKeepsText(row, false, NEWLINE);
    CleaningKeepsText(row, false, NUL);
    CleaningKeepsText(row, false, ERASED);
  }

  lemma {:induction false} LinesOfPrefix(rows: seq<seq<Byte>>, k: nat)
    requires k < |rows|
    ensures Lines(rows[..k + 1]) == Lines(rows[..k]) + rows[k] + [NEWLINE]
    ensures |Lines(rows[..k])| + |rows[k]| + 1 <= |Lines(rows)|
  {
    assert rows[..k + 1][..k] == rows[..k];
    RowPlace(rows, k);
  }

  lemma {:induction false} NoUnusedBytes(rows: seq<seq<Byte>>)
    requires RowText(rows)
    ensures ERASED !in Lines(rows)
  {
    if rows == [] {
    } else {
      NoUnusedBytes(rows[..|rows| - 1]);
    }
  }

  /** Logs rows that fit, one after the other. */
  method LogAll(log: MicroBitLog, rows: seq<seq<Byte>>)
    requires log.Valid() && !log.AtRisk() && log.dataEnd == DATA_START && log.rowCount == 0
    requires forall i | 0 <= i < |rows| :: OneLine(rows[i])
    requires DATA_START + |Lines(CleanedRows(rows))| <= log.logEnd
    modifies log, log.flash, log.cache, log.cache.cache
    ensures log.Valid() && DATA_START <= log.dataEnd <= |log.flash.device| == |old(log.flash.device)|
    ensures log.Written(CleanedRows(rows)) && log.rowCount == |rows|
    ensures log.rowData == old(log.rowData) && log.saved == old(log.saved)
  {
    hide MicroBitLog.Attached, MicroBitLog.Valid, MicroBitLog.AtRisk, StaleAfter, Image, Present, PageEnd, Cleaned, Lines, RowText, OneLine;
    ghost var cleaned := CleanedRows(rows);
    CleanedAreRows(rows);
    log.OnFlash();
    TextIsLonger(cleaned[..0]);
    for k := 0 to |rows|
      invariant log.Valid() && !log.AtRisk() && DATA_START <= log.dataEnd <= |log.flash.device| == |old(log.flash.device)|
      invariant log.Text() == Lines(cleaned[..k]) && log.rowCount == k && log.logEnd == old(log.logEnd)
      invariant log.rowData == old(log.rowData) && log.saved == old(log.saved)
    {
      log.OnFlash();
      LinesOfPrefix(cleaned, k);
      LineCleaned(rows[k]);
      var _ := log.LogString(rows[k] + [NEWLINE]);
    }
    log.OnFlash();
    assert cleaned[..|rows|] == cleaned;
  }

  lemma CleanedAreRows(rows: seq<seq<Byte>>)
    requires forall i | 0 <= i < |rows| :: OneLine(rows[i])
    ensures RowText(CleanedRows(rows))
  {
    forall k | 0 <= k < |rows| ensures OneLine(CleanedRows(rows)[k]) {
      LineCleaned(rows[k]);
    }
  }

  /** A log whose text holds no unused byte is found again by a new object on the same flash: the same text and
      headings, the same place in the journal, and a log that can go on. */
  method Restart(log: MicroBitLog) returns (found: MicroBitLog)
    requires log.Valid() && DATA_START <= log.dataEnd <= |log.flash.device| && ERASED !in log.Text()
    modifies log.flash
    ensures fresh(found) && found.flash == log.flash && log.flash.device == old(log.flash.device)
    ensures found.Valid() && found.dataEnd == log.dataEnd && found.journalHead == log.journalHead
    ensures Keys(found.rowData) == found.saved == log.saved
  {
    hide FSCache.ValidFor, Offset, Floor, Front, ErasedAhead, Present, FirstErased, HeadingLine, Printable, AllClean, JournalOffset;
    log.OnFlash();
    found := new MicroBitLog(log.flash, log.header, log.daplinkVersion);
    ghost var end, device := log.dataEnd, log.flash.device;
    found.Init(log.journalHead, end, log.SavedStart(), log.saved);
    LastBlock(device, DATA_START + JournalOffset(end), end);
  }

  lemma LastBlock(device: seq<Byte>, from: nat, end: nat)
    requires DATA_START <= from && end <= |device|
    requires DATA_START <= end && ERASED !in device[DATA_START..end]
    ensures from <= end ==> ERASED !in device[from..end]
  {
    if from <= end {
      assert device[from..end] == device[DATA_START..end][from - DATA_START..];
    }
  }

  /** In particular, rows logged since a clear are found by the next start. */
  method LogAndRestart(log: MicroBitLog, rows: seq<seq<Byte>>) returns (found: MicroBitLog)
    requires log.Attached() && log.flash.Valid()
    requires forall i | 0 <= i < |rows| :: OneLine(rows[i])
    requires DATA_START + |Lines(CleanedRows(rows))| <= LogEnd(|log.flash.device|)
    modifies log, log.flash, log.cache, log.cache.cache
    ensures found.Valid() && DATA_START <= found.dataEnd <= |found.flash.device|
    ensures found.Written(CleanedRows(rows))
  {
    hide FSCache.Valid, Cleaned, Lines, Offset, Floor, Geometry, Front, ErasedAhead;
    log.Clear(false);
    log.OnFlash();
    LogAll(log, rows);
    NoUnusedBytes(CleanedRows(rows));
    found := Restart(log);
  }

  /** A string that does not fit, logged to an empty log of several pages. The mark is stored after a full erase only, as
      a clear otherwise leaves zeros where it belongs; the last block is in the cache all the same. */
  method RefuseAfterClear(log: MicroBitLog, fullErase: bool, s: seq<Byte>)
    requires log.Attached() && DATA_START + log.flash.blockSize < |log.flash.device|
    requires NUL !in s && DATA_START + |s| > LogEnd(|log.flash.device|)
    modifies log, log.flash, log.cache, log.cache.cache
    ensures log.Valid() && |log.flash.device| == |old(log.flash.device)| && log.dataEnd == DATA_START
    ensures log.AtRisk() && log.Tail() in log.cache.history && Recent(log.cache.history, log.Tail()) == {}
    ensures |log.cache.history| <= CLEAR_TICKS + 2
    ensures log.flash.device[|log.flash.device| - WORD..] == if fullErase then [ERASED] + FUL else Zeros(WORD)
  {
    hide FSCache.Valid, Front, ErasedAhead, Recent, Offset, Floor, StaleAfter, Accesses, BlocksOf, MicroBitLog.Overtaken, AllErased;
    log.Clear(fullErase);
    log.OnFlash();
    ghost var device, ps := log.flash.device, log.flash.blockSize;
    FirstPageEnd(ps, |device|);
    MarkedTail(device, DATA_START + ps, old(log.flash.device)[DATA_START + ps..|device| - WORD], fullErase);
    var _ := log.LogString(s);
  }

  /** After the refusal, text that goes on into the last page is stored as ever. Erasing that page for it makes the last
      block stale in the cache exactly if the log has two pages of data: with more, the text has dropped it before. */
  method RefuseAndGoOn(log: MicroBitLog, fullErase: bool, s: seq<Byte>, t: seq<Byte>)
    requires log.Attached() && log.flash.blockSize >= CACHE_ENTRIES * CACHE_BLOCK
    requires DATA_START + 2 * log.flash.blockSize <= |log.flash.device|
    requires NUL !in s && DATA_START + |s| > LogEnd(|log.flash.device|)
    requires NUL !in t && CLEAR_TICKS + 2 + 2 * |t| < COUNTER
    requires |log.flash.device| - log.flash.blockSize <= DATA_START + |t| <= |log.flash.device| - CACHE_BLOCK
    modifies log, log.flash, log.cache, log.cache.cache
    ensures log.Valid() && DATA_START <= log.dataEnd <= |log.flash.device| == |old(log.flash.device)|
    ensures log.Text() == Cleaned(t, false)
    ensures log.Tail() in log.cache.stale <==> |log.flash.device| == DATA_START + 2 * log.flash.blockSize
  {
    hide FSCache.Valid, Front, ErasedAhead, Recent, Passed, BlocksOf, Cleaned, Offset, Floor, Accesses, StaleAfter, Marked, MicroBitLog.Overtaken, MicroBitLog.CachedBelow, MicroBitLog.AtRisk;
    ghost var ps, size := log.flash.blockSize, |log.flash.device|;
    RefuseAfterClear(log, fullErase, s);
    FirstPageEnd(ps, size);
    PagesPassed(ps, size);
    ghost var history := log.cache.history;
    var _ := log.LogString(t);
    log.OnFlash();
    log.PageBeforeLast(log.dataEnd);
    HeldAtErase(history, DATA_START, log.dataEnd, log.cache.stale, ps, size);
  }

  /** Text that ends in the last block of the page before the last, and a string refused there. */
  method FillAndRefuse(log: MicroBitLog, fullErase: bool, u: seq<Byte>, s: seq<Byte>)
    requires log.Attached() && |log.flash.device| == DATA_START + 2 * log.flash.blockSize
    requires NUL !in u && NUL !in s
    requires log.flash.blockSize - CACHE_BLOCK <= |u| < log.flash.blockSize
    requires DATA_START + |u| + |s| > LogEnd(|log.flash.device|)
    modifies log, log.flash, log.cache, log.cache.cache
    ensures log.Valid() && |log.flash.device| == |old(log.flash.device)| && log.dataEnd == DATA_START + |u|
    ensures log.Text() == Cleaned(u, false)
    ensures log.Tail() in log.cache.history && Recent(log.cache.history, log.Tail()) == {}
    ensures JOURNAL_START <= log.journalHead <= JOURNAL_START + JOURNAL_ENTRY
    ensures |log.cache.history| <= CLEAR_TICKS + 2 * |u| + JOURNAL_TICKS + 2
  {
    hide FSCache.Valid, Front, ErasedAhead, Recent, StaleAfter, BlocksOf, Cleaned, Offset, Floor, Accesses, MicroBitLog.Overtaken;
    ghost var ps, size := log.flash.blockSize, |log.flash.device|;
    log.Clear(fullErase);
    log.OnFlash();
    FirstPageEnd(ps, size);
    var _ := log.LogString(u);
    log.OnFlash();
    EndOfFirstPage(log.dataEnd, ps, size);
    var _ := log.LogString(s);
  }

  /** Short text that then goes on into the last page leaves the cache with a block that differs from the flash, if the
      next slot of the journal is in the same block as the present one. */
  method EnterStale(log: MicroBitLog, t: seq<Byte>)
    requires log.Valid() && log.flash.blockSize >= 2 * CACHE_BLOCK && DATA_START <= log.dataEnd <= |log.flash.device|
    requires |log.flash.device| == DATA_START + 2 * log.flash.blockSize && NUL !in t
    requires var page := |log.flash.device| - log.flash.blockSize;
             page - CACHE_BLOCK <= log.dataEnd < page <= log.dataEnd + |t| <= page + CACHE_BLOCK
    requires log.Tail() in log.cache.history && Recent(log.cache.history, log.Tail()) == {}
    requires JOURNAL_START <= log.journalHead <= JOURNAL_START + JOURNAL_ENTRY
    requires |log.cache.history| + 2 * |t| + JOURNAL_TICKS < COUNTER
    modifies log, log.flash, log.cache, log.cache.cache
    ensures log.Valid() && DATA_START <= log.dataEnd <= |log.flash.device| == |old(log.flash.device)|
    ensures log.Text() == old(log.Text()) + Cleaned(t, false)
    ensures !Coherent(log.cache.cache[..], log.flash.device, CACHE_BLOCK, {})
  {
    hide FSCache.Valid, Front, ErasedAhead, Recent, Passed, BlocksOf, Cleaned, Offset, Floor, Coherent, Accesses, StaleAfter, Marked, MicroBitLog.Overtaken, MicroBitLog.CachedBelow, MicroBitLog.AtRisk;
    ghost var ps, size := log.flash.blockSize, |log.flash.device|;
    ghost var history, start, slot := log.cache.history, log.dataEnd, log.journalHead;
    log.OnFlash();
    EndOfFirstPage(start, ps, size);
    var _ := log.LogString(t);
    log.OnFlash();
    log.PageBeforeLast(log.dataEnd);
    FewBlocks(start, log.dataEnd, ps, size);
    FirstSlots(slot, log.journalHead);
    assert log.SlotBlocks(slot) == {JOURNAL_START};
    FewAccesses(history, log.cache.history, start, log.dataEnd, 2 * |t| + JOURNAL_TICKS, ps, size);
    HeldAtErase(history, start, log.dataEnd, log.cache.stale, ps, size);
    log.CopyOfFlash();
  }

  lemma HeldAtErase(history: seq<nat>, start: nat, end: nat, stale: set<nat>, ps: nat, size: nat)
    requires 0 < ps && CACHE_BLOCK <= size && StaleAfter(history, start, end, stale, ps, size)
    requires PageEnd(start, ps) < size == PageEnd(end, ps) && end <= size - CACHE_BLOCK
    requires size - CACHE_BLOCK in history && Recent(history, size - CACHE_BLOCK) == {}
    ensures size - CACHE_BLOCK in stale <==> |Passed(start, ps, size)| < CACHE_ENTRIES
  {
    hide Recent, Passed;
    assert {} + Passed(start, ps, size) == Passed(start, ps, size);
  }

  lemma FewAccesses(history: seq<nat>, now: seq<nat>, start: nat, end: nat, ticks: nat, ps: nat, size: nat)
    requires Geometry(ps, size) && ps >= 2 * CACHE_BLOCK && size == DATA_START + 2 * ps
    requires DATA_START + ps - CACHE_BLOCK <= start <= DATA_START + ps <= end <= DATA_START + ps + CACHE_BLOCK
    requires Accesses(history, now, Used(BlocksOf(start, end, CACHE_BLOCK)) + {JOURNAL_START}, ticks)
    requires size - CACHE_BLOCK in history && Recent(history, size - CACHE_BLOCK) == {}
    ensures size - CACHE_BLOCK in now && |Recent(now, size - CACHE_BLOCK)| < CACHE_ENTRIES
  {
    hide Recent, BlocksOf, Offset, Accesses;
    var three: set<nat> := {DATA_START + ps - CACHE_BLOCK, DATA_START + ps, JOURNAL_START};
    var blocks := Used(BlocksOf(start, end, CACHE_BLOCK)) + {JOURNAL_START};
    FewBlocks(start, end, ps, size);
    RecentWithin(history, now, blocks, ticks, size - CACHE_BLOCK);
    SubsetCount(Recent(now, size - CACHE_BLOCK), three);
  }

  /** A run that leaves the cache stale: the two in sequence, on a log with two pages of data. */
  method GoStale(log: MicroBitLog, fullErase: bool, u: seq<Byte>, s: seq<Byte>, t: seq<Byte>)
    requires log.Attached() && log.flash.blockSize >= 2 * CACHE_BLOCK
    requires |log.flash.device| == DATA_START + 2 * log.flash.blockSize
    requires NUL !in u && NUL !in s && NUL !in t && CLEAR_TICKS + 2 * |u| + 2 * |t| + 2 * JOURNAL_TICKS + 2 < COUNTER
    requires log.flash.blockSize - CACHE_BLOCK <= |u| < log.flash.blockSize
    requires DATA_START + |u| + |s| > LogEnd(|log.flash.device|)
    requires log.flash.blockSize <= |u| + |t| <= log.flash.blockSize + CACHE_BLOCK
    modifies log, log.flash, log.cache, log.cache.cache
    ensures log.Valid() && DATA_START <= log.dataEnd <= |log.flash.device| == |old(log.flash.device)|
    ensures log.Text() == Cleaned(u, false) + Cleaned(t, false)
    ensures !Coherent(log.cache.cache[..], log.flash.device, CACHE_BLOCK, {})
  {
    hide MicroBitLog.Attached, Recent, Cleaned, Coherent;
    FillAndRefuse(log, fullErase, u, s);
    EnterStale(log, t);
  }

  /** Text within the last block of the first page and the first one of the next takes these two only. */
  lemma FewBlocks(start: nat, end: nat, ps: nat, size: nat)
    requires Geometry(ps, size)
    requires DATA_START + ps - CACHE_BLOCK <= start <= DATA_START + ps <= end <= DATA_START + ps + CACHE_BLOCK
    ensures Used(BlocksOf(start, end, CACHE_BLOCK)) <= {DATA_START + ps - CACHE_BLOCK, DATA_START + ps}
    ensures size == DATA_START + 2 * ps ==> Passed(start, ps, size) == {}
  {
    hide Offset, Floor, BlocksOf;
    var n, page := CACHE_BLOCK, DATA_START + ps;
    BlocksOfAre(start, end, n);
    SumOfMultiples(DATA_START, ps, n) by { FourAligned(); }
    OffsetOfSelf(n);
    SumOfMultiples(page, n, n);
    forall b | b in BlocksOf(start, end, n) ensures b == page - n || b == page {
      if b < page - n {
        MultiplesApart(b, page - n, n);
      } else if b > page {
        MultiplesApart(page, b, n);
      } else if page - n < b < page {
        MultiplesApart(b, page, n);
      }
    }
    PageIsWide(ps);
    NothingBehind(start, DATA_START);
  }

  lemma NothingBehind(start: nat, end: nat)
    requires end <= start
    ensures BlocksOf(start, end, CACHE_BLOCK) == []
  {
  }

  /** The first entries of the journal lie in its first block. */
  lemma FirstSlots(a: nat, b: nat)
    requires JOURNAL_START <= a < JOURNAL_START + CACHE_BLOCK && JOURNAL_START <= b < JOURNAL_START + CACHE_BLOCK
    ensures Floor(a, CACHE_BLOCK) == Floor(b, CACHE_BLOCK) == JOURNAL_START
  {
    FloorUnique(a, JOURNAL_START, CACHE_BLOCK);
    FloorUnique(b, JOURNAL_START, CACHE_BLOCK);
  }

  /** The number of blocks that text from the start of the data fills before the page before the last. */
  lemma PagesPassed(ps: nat, size: nat)
    requires Geometry(ps, size) && ps >= CACHE_ENTRIES * CACHE_BLOCK && DATA_START + 2 * ps <= size
    ensures |Passed(DATA_START, ps, size)| < CACHE_ENTRIES <==> size == DATA_START + 2 * ps
  {
    hide Offset, Floor;
    var n, end := CACHE_BLOCK, size - 2 * ps;
    if size == DATA_START + 2 * ps {
      NoBlocks(DATA_START, n);
    } else {
      OffsetOfSelf(ps);
      SumOfMultiples(JOURNAL_SIZE, JOURNAL_SIZE, ps);
      SumOfMultiples(size, ps, ps);
      SumOfMultiples(size - ps, ps, ps);
      MultiplesApart(DATA_START, end, ps);
      var blocks := BlocksOf(DATA_START, end, n);
      BlocksOfAre(DATA_START, end, n);
      FourAligned();
      var four: set<nat> := {DATA_START, DATA_START + n, DATA_START + 2 * n, DATA_START + 3 * n};
      assert forall b | b in four :: b in blocks;
      SubsetCount(four, Used(blocks));
    }
  }

  lemma FourAligned()
    ensures Offset(DATA_START, CACHE_BLOCK) == 0 && Offset(DATA_START + CACHE_BLOCK, CACHE_BLOCK) == 0
    ensures Offset(DATA_START + 2 * CACHE_BLOCK, CACHE_BLOCK) == 0 && Offset(DATA_START + 3 * CACHE_BLOCK, CACHE_BLOCK) == 0
  {
  }

  lemma EndOfFirstPage(end: nat, ps: nat, size: nat)
    requires Geometry(ps, size) && DATA_START <= end < DATA_START + ps
    ensures PageEnd(end, ps) == DATA_START + ps
  {
    hide Offset, Floor;
    SumOfMultiples(JOURNAL_SIZE, JOURNAL_SIZE, ps);
    FloorUnique(end, DATA_START, ps);
  }

  lemma FirstPageEnd(ps: nat, size: nat)
    requires Geometry(ps, size) && DATA_START + ps < size
    ensures PageEnd(DATA_START, ps) == DATA_START + ps <= LogEnd(size)
  {
    hide Offset, Floor;
    SumOfMultiples(JOURNAL_SIZE, JOURNAL_SIZE, ps);
    FloorUnique(DATA_START, DATA_START, ps);
    PageIsWide(ps);
    PageFacts(DATA_START, ps, size);
    MultiplesApart(DATA_START + ps, size, ps);
  }

  /** Where a clear leaves blank bytes at the end of the flash the mark is stored, over zeros it is not. */
  lemma MarkedTail(mem: seq<Byte>, page: nat, rest: seq<Byte>, fullErase: bool)
    requires page <= |mem| - WORD && DATA_START <= |mem| - WORD
    requires if fullErase then AllErased(mem, DATA_START, |mem|) else mem[page..] == rest + Zeros(WORD)
    ensures Marked(mem)[|mem| - WORD..] == if fullErase then [ERASED] + FUL else Zeros(WORD)
  {
    if fullErase {
      MarkOnBlank(mem);
    } else {
      assert |rest| == |mem| - WORD - page;
      assert mem[|mem| - WORD..] == mem[page..][|rest|..] == Zeros(WORD);
      MarkOnZeros(mem);
    }
  }

  lemma MarkOnBlank(mem: seq<Byte>)
    requires DATA_START <= |mem| - WORD && AllErased(mem, DATA_START, |mem|)
    ensures Marked(mem)[|mem| - WORD..] == [ERASED] + FUL
  {
    hide Writable;
    ErasedIsWritable(mem, |mem| - |FUL|, FUL);
    assert Marked(mem)[|mem| - WORD] == mem[|mem| - WORD] == ERASED;
  }

  lemma MarkOnZeros(mem: seq<Byte>)
    requires WORD <= |mem| && mem[|mem| - WORD..] == Zeros(WORD)
    ensures Marked(mem) == mem
  {
    hide Put, Clears;
    var at := |mem| - |FUL|;
    assert mem[at + 0] == mem[|mem| - WORD..][1] == 0;
    ClearsIsAnd(0, FUL[0]);
    assert !Clears(mem[at + 0], FUL[0]);
  }

  /** The host asks for the length of a file and reads it: it gets all of it. */
  method ReadFile(log: MicroBitLog, format: DataFormat) returns (file: seq<Byte>)
    requires log.Valid() && DATA_START <= log.dataEnd <= |log.flash.device|
    modifies log.cache, log.cache.cache
    ensures log.Valid() && log.Text() == old(log.Text())
    ensures file == HostFile(format, log.header, log.logEnd, log.daplinkVersion, log.Text())
  {
    hide MicroBitLog.Valid, MicroBitLog.TextLength, HostFile, Window;
    log.LengthFits(format);
    ghost var text := log.Text();
    ghost var goal := HostFile(format, log.header, log.logEnd, log.daplinkVersion, text);
    var length := log.GetDataLength(format);
    log.LengthShows(format, length);
    assert text[..|text|] == text;
    var _, data := log.HostRead(0, length, format, length);
    file := data;
    assert Window(goal, 0, |goal|) == goal[0..|goal|] == goal;
  }

  /** In the page, the text is where the metadata say, whole. */
  method ReadPage(log: MicroBitLog) returns (page: seq<Byte>)
    requires log.Valid() && DATA_START <= log.dataEnd <= |log.flash.device|
    modifies log.cache, log.cache.cache
    ensures log.Valid() && log.Text() == old(log.Text())
    ensures HEADER_SIZE + META_LENGTH < |page| && page[..HEADER_SIZE] == log.header
    ensures var start, end := NumberAt(page, 29), NumberAt(page, 18);
            && end - start == log.logEnd - DATA_START
            && start + |log.Text()| + 1 == |page| && page[start..start + |log.Text()|] == log.Text() && page[|page| - 1] == ERASED
  {
    hide MicroBitLog.Valid, HostFile, NumberAt;
    log.LengthFits(HTML);
    page := ReadFile(log, HTML);
    TextInPlace(HTML, log.header, log.logEnd, log.daplinkVersion, log.Text());
  }
}
