/** Whole runs of the fast log: a table of values that fits is saved cell by cell under its headings. */
module FastRuns {
  import Blocks
  import opened RingLayout
  import opened Promotion
  import opened SegmentedBytes
  import opened CircularBuffer
  import opened FastLog

  /** Headings are not empty, and no two are the same. */
  ghost predicate DistinctKeys(keys: seq<string>) {
    && (forall i | 0 <= i < |keys| :: keys[i] != "")
    && forall i, j | 0 <= i < j < |keys| :: keys[i] != keys[j]
  }

  /** A key is found in the column of its place, if the columns before it have the keys before it. */
  lemma {:induction false} FoundInPlace(cols: seq<LogColumnEntry>, key: string, i: nat)
    requires i < |cols| && (cols[i].key == key || cols[i].key == "")
    requires forall j | 0 <= j < i :: cols[j].key != "" && cols[j].key != key
    ensures FindColumn(cols, key) == i
  {
    if i == 0 {
    } else {
      FoundInPlace(cols[1..], key, i - 1);
    }
  }

  /** The first k columns hold the cells of a row under their keys; the others have their keys, or none yet. */
  ghost predicate FilledUpTo(cols: seq<LogColumnEntry>, keys: seq<string>, row: seq<Cell>, k: nat, named: bool) {
    && |cols| == |keys| == |row| && k <= |keys|
    && (forall j | 0 <= j < k :: cols[j] == LogColumnEntry(keys[j], row[j]))
    && forall j | k <= j < |keys| :: cols[j].key == if named then keys[j] else ""
  }

  lemma NextFilled(cols: seq<LogColumnEntry>, keys: seq<string>, row: seq<Cell>, k: nat, named: bool)
    requires DistinctKeys(keys) && FilledUpTo(cols, keys, row, k, named) && k < |keys|
    ensures FilledUpTo(WithValue(cols, keys[k], row[k], true), keys, row, k + 1, named)
  {
    hide FindColumn;
    FoundInPlace(cols, keys[k], k);
  }

  /** Cells that a table may hold: integers below 2147483647. */
  ghost predicate Plain(row: seq<Cell>) {
    forall i | 0 <= i < |row| :: row[i].Ok() && !row[i].Flt? && row[i] != Unset && Number(row[i]) < 0x7FFF_FFFF
  }

  /** A log with given columns and without times, between two rows. Before the first row its columns have no names. */
  ghost predicate Between(log: MicroBitFastLog, keys: seq<string>)
    reads log, log.logger, if log.logger == null then {} else {log.logger.store},
          if log.logger == null then [] else log.logger.store.dataBuffers
  {
    && log.Valid() && log.userSetCols && log.columnCount == |keys| && !log.timestampEnabled && !log.rowStarted
    && (log.logger != null ==> !log.logger.Drained())
    && |log.OpenRow()| == |keys|
    && forall j | 0 <= j < |keys| :: log.OpenRow()[j].key == if log.firstRowLogged then keys[j] else ""
  }

  /** What logging a row of cells does to the rows, the type of the ring and the room in it. */
  twostate predicate RowAdded(log: MicroBitFastLog, row: seq<Cell>)
    reads log, log.logger, if log.logger == null then {} else {log.logger.store}
  {
    var g, free := old(log.RingState()).0, old(log.RingState()).1;
    log.rows == old(log.rows) + [ReadBacks(g, row, log.toFloat)] && log.RingState() == (TypesAfter(g, row), FreeAfter(free, g, row))
  }

  /** Stores the values of a row under their keys. */
  method StoreRow(log: MicroBitFastLog, keys: seq<string>, row: seq<Cell>, now: nat)
    requires Between(log, keys) && keys != [] && DistinctKeys(keys) && |row| == |keys|
    requires forall i | 0 <= i < |row| :: row[i].Ok() && row[i] != Unset
    requires log.logStartTime <= now
    modifies log.Footprint()
    ensures log.Valid() && log.rowStarted && log.initialized && !log.logger.Drained() && log.logStartTime <= now
    ensures log.userSetCols && !log.timestampEnabled && log.columnCount == |keys| && log.firstRowLogged == old(log.firstRowLogged)
    ensures FilledUpTo(log.Columns(), keys, row, |keys|, log.firstRowLogged)
    ensures log.rows == old(log.rows) && log.RingState() == old(log.RingState()) && fresh(log.Footprint() - old(log.Footprint()))
  {
    hide MicroBitCircularBuffer.Valid, MicroBitCircularBuffer.Free, MicroBitCircularBuffer.Drained, Flatten, AllOfWidth, WithValue, DistinctKeys;
    for k := 0 to |keys|
      invariant log.Valid() && log.userSetCols && !log.timestampEnabled && log.columnCount == |keys| && log.logStartTime <= now
      invariant log.firstRowLogged == old(log.firstRowLogged) && (log.logger != null ==> !log.logger.Drained())
      invariant k > 0 ==> log.rowStarted && log.initialized
      invariant FilledUpTo(log.OpenRow(), keys, row, k, log.firstRowLogged)
      invariant log.rows == old(log.rows) && log.RingState() == old(log.RingState()) && fresh(log.Footprint() - old(log.Footprint()))
    {
      NextFilled(log.OpenRow(), keys, row, k, log.firstRowLogged);
      log.StoreValue(keys[k], row[k], now);
    }
  }

  /** Stores a row and ends it. */
  method LogRow(log: MicroBitFastLog, keys: seq<string>, row: seq<Cell>, now: nat)
    requires Between(log, keys) && keys != [] && DistinctKeys(keys) && |row| == |keys|
    requires forall i | 0 <= i < |row| :: row[i].Ok() && row[i] != Unset
    requires log.logStartTime <= now
    modifies log.Footprint()
    ensures Between(log, keys) && RowAdded(log, row) && log.firstRowLogged && log.initialized && log.logStartTime <= now
    ensures fresh(log.Footprint() - old(log.Footprint()))
  {
    hide MicroBitCircularBuffer.Valid, MicroBitCircularBuffer.Free, MicroBitCircularBuffer.Drained, MicroBitCircularBuffer.Filled;
    hide Flatten, AllOfWidth, ReadBacks, TypesAfter, FreeAfter, DistinctKeys, MicroBitFastLog.Valid;
    log.Shape();
    StoreRow(log, keys, row, now);
    log.Shape();
    ghost var cols := log.Columns();
    assert log.RowCells(cols, now) == row;
    ColumnsAre(cols, keys, row, log.firstRowLogged);
    hide FilledUpTo;
    log.EndRow(now);
    log.Shape();
    assert log.Columns() == cols;
  }

  lemma ColumnsAre(cols: seq<LogColumnEntry>, keys: seq<string>, row: seq<Cell>, named: bool)
    requires FilledUpTo(cols, keys, row, |keys|, named)
    ensures |cols| == |keys| && CellsOf(cols) == row && forall j | 0 <= j < |keys| :: Blanked(cols)[j].key == keys[j]
  {
  }

  /** A row of integers reads back as those integers. */
  ghost predicate Same(row: seq<Elem>, cells: seq<Cell>) {
    |row| == |cells| && forall i | 0 <= i < |row| :: row[i] == U32(Number(cells[i])) || row[i] == I32(Number(cells[i]))
  }

  /** Each value takes four bytes at most. */
  lemma {:induction false} RoomEnough(free: int, g: RingType, cells: seq<Cell>)
    requires free >= 4 * |cells|
    ensures FreeAfter(free, g, cells) >= free - 4 * |cells|
  {
    hide TypesAfter;
    if cells == [] {
    } else {
      RoomEnough(free, g, cells[..|cells| - 1]);
    }
  }

  /** Logs a table of integers row by row. */
  method LogTable(log: MicroBitFastLog, keys: seq<string>, table: seq<seq<Cell>>, now: nat)
    requires Between(log, keys) && keys != [] && DistinctKeys(keys) && log.logStartTime <= now
    requires forall j | 0 <= j < |table| :: |table[j]| == |keys| && Plain(table[j])
    requires log.rows == [] && log.RingState().0 < FLOAT
    modifies log.Footprint()
    ensures Between(log, keys) && (table != [] ==> log.initialized && log.firstRowLogged) && log.logStartTime <= now
    ensures |log.rows| == |table| && forall j | 0 <= j < |table| :: Same(log.rows[j], table[j])
    ensures var free := old(log.RingState()).1;
            free >= 4 * |keys| * |table| ==> log.RingState().1 >= free - 4 * |keys| * |table|
    ensures fresh(log.Footprint() - old(log.Footprint()))
  {
    hide MicroBitFastLog.Valid, MicroBitFastLog.RingState, Between, Same, Plain, DistinctKeys, FreeAfter, TypesAfter, ReadBacks;
    ghost var free := log.RingState().1;
    for k := 0 to |table|
      invariant Between(log, keys) && log.logStartTime <= now && fresh(log.Footprint() - old(log.Footprint()))
      invariant |log.rows| == k && forall j | 0 <= j < k :: Same(log.rows[j], table[j])
      invariant log.RingState().0 < FLOAT && (k > 0 ==> log.initialized && log.firstRowLogged)
      invariant free >= 4 * |keys| * |table| ==> log.RingState().1 >= free - 4 * |keys| * k
    {
      ghost var state := log.RingState();
      RowReadsBack(state.0, state.1, table[k], log.toFloat);
      assert 4 * |keys| * (k + 1) == 4 * |keys| * k + 4 * |keys|;
      RowsLeft(|keys|, k, |table|);
      LogRow(log, keys, table[k], now);
    }
  }

  lemma RowsLeft(w: nat, k: nat, n: nat)
    requires k < n
    ensures 4 * w * k + 4 * w <= 4 * w * n
  {
    if w > 0 {
      Blocks.MulOrder(k + 1, n, 4 * w);
      assert (k + 1) * (4 * w) == 4 * w * k + 4 * w;
    }
  }

  lemma RowReadsBack(g: RingType, free: int, row: seq<Cell>, toFloat: int -> Float)
    requires g < FLOAT && Plain(row)
    ensures Same(ReadBacks(g, row, toFloat), row) && TypesAfter(g, row) < FLOAT
    ensures free >= 4 * |row| ==> FreeAfter(free, g, row) >= free - 4 * |row|
    ensures forall i | 0 <= i < |row| :: row[i].Ok() && row[i] != Unset
  {
    IntegersReadBack(g, row, toFloat);
    if free >= 4 * |row| { RoomEnough(free, g, row); }
  }

  /** The cells of a saved row are those of the table, under their headings and in order. */
  ghost predicate SavedRowIs(saved: SavedRow, keys: seq<string>, row: seq<Cell>) {
    && saved.time == NoElem && |saved.cells| == |keys| == |row|
    && forall i | 0 <= i < |keys| ::
         saved.cells[i].0 == keys[i] && (saved.cells[i].1 == U32(Number(row[i])) || saved.cells[i].1 == I32(Number(row[i])))
  }

  /** A log with a buffer of its own, a table of integers logged into it, and all of the table saved, if it fits. */
  method SaveTable(loggerBytes: int, granted: nat -> bool, toFloat: int -> Float, keys: seq<string>, table: seq<seq<Cell>>, now: nat)
    returns (saved: seq<SavedRow>)
    requires loggerBytes == -1 || loggerBytes >= 7
    requires keys != [] && DistinctKeys(keys) && forall j | 0 <= j < |table| :: |table[j]| == |keys| && Plain(table[j])
    requires HeapLasts(granted) && 4 * |keys| * |table| <= Limit(loggerBytes)
    ensures |saved| == |table| && forall j | 0 <= j < |table| :: SavedRowIs(saved[j], keys, table[j])
  {
    hide MicroBitFastLog.Valid, MicroBitFastLog.RingState, Same, Plain, DistinctKeys, Between, AllOfWidth;
    var log := new MicroBitFastLog.WithBuffer(|keys|, loggerBytes, granted, toFloat);
    StartsBetween(log, keys);
    LogTable(log, keys, table, now);
    saved := SaveAll(log, keys, table);
  }

  lemma StartsBetween(log: MicroBitFastLog, keys: seq<string>)
    requires log.Valid() && log.userSetCols && log.columnCount == |keys| && !log.timestampEnabled && !log.rowStarted
    requires log.logger != null && !log.logger.Drained() && !log.initialized && !log.firstRowLogged
    ensures Between(log, keys)
  {
  }

  lemma SavedCells(log: MicroBitFastLog, keys: seq<string>, row: seq<Elem>, cells: seq<Cell>)
    requires 0 <= log.columnCount == |keys| <= |log.rowData| && !log.timestampEnabled && Same(row, cells) && |row| == |keys|
    requires forall j | 0 <= j < |keys| :: log.rowData[j].key == keys[j]
    ensures SavedRowIs(log.SavedAs(row), keys, cells)
  {
  }

  /** Saves a table that is held whole. */
  method SaveAll(log: MicroBitFastLog, keys: seq<string>, table: seq<seq<Cell>>) returns (saved: seq<SavedRow>)
    requires Between(log, keys) && keys != [] && (table != [] ==> log.initialized && log.firstRowLogged)
    requires |log.rows| == |table| && forall j | 0 <= j < |table| :: Same(log.rows[j], table[j])
    requires log.RingState().1 >= 0
    modifies if log.logger == null then {} else {log.logger}
    ensures |saved| == |table| && forall j | 0 <= j < |table| :: SavedRowIs(saved[j], keys, table[j])
  {
    hide MicroBitFastLog.Valid, MicroBitFastLog.Pending, MicroBitFastLog.SavedAs, Flatten, Same, SavedRowIs;
    hide MicroBitCircularBuffer.Filled, AllOfWidth;
    log.Shape();
    if log.initialized { log.NothingLost(); }
    ghost var cols := if log.initialized then log.Columns() else [];
    var _, rows := log.SaveLog();
    saved := rows;
    forall j | 0 <= j < |table| ensures SavedRowIs(saved[j], keys, table[j]) {
      assert saved[j] == log.SavedAs(log.rows[j]);
      SavedCells(log, keys, log.rows[j], table[j]);
    }
  }

  // ---------------------------------------------------------------- a row with its time

  /** The first k columns hold the cells of a row under their keys; the others are free. */
  ghost predicate FreeFrom(cols: seq<LogColumnEntry>, keys: seq<string>, row: seq<Cell>, k: nat) {
    && k <= |cols| && k <= |keys| == |row|
    && (forall j | 0 <= j < k :: cols[j] == LogColumnEntry(keys[j], row[j]))
    && forall j | k <= j < |cols| :: cols[j] == LogColumnEntry("", Unset)
  }

  /** Without a given number of columns, there always is one for the next key. */
  lemma NextFree(cols: seq<LogColumnEntry>, keys: seq<string>, row: seq<Cell>, k: nat)
    requires DistinctKeys(keys) && FreeFrom(cols, keys, row, k) && k < |keys|
    ensures FreeFrom(WithValue(cols, keys[k], row[k], false), keys, row, k + 1)
  {
    hide FindColumn;
    if k < |cols| {
      FoundInPlace(cols, keys[k], k);
    } else {
      FoundNowhere(cols, keys[k]);
    }
  }

  lemma {:induction false} FoundNowhere(cols: seq<LogColumnEntry>, key: string)
    requires forall j | 0 <= j < |cols| :: cols[j].key != "" && cols[j].key != key
    ensures FindColumn(cols, key) == |cols|
  {
    if cols == [] {
    } else {
      FoundNowhere(cols[1..], key);
    }
  }

  /** A new log by default keeps times and takes as many columns as its first row has values. */
  ghost predicate Unfixed(log: MicroBitFastLog)
    reads log, log.logger, if log.logger == null then {} else {log.logger.store},
          if log.logger == null then [] else log.logger.store.dataBuffers
  {
    && log.Valid() && !log.userSetCols && !log.firstRowLogged && log.timestampEnabled && log.timeStampFormat == Milliseconds
    && log.rowStarted && log.initialized && !log.logger.Drained() && log.rows == []
  }

  /** Fills the first row of such a log, of as many columns as there are keys. */
  method FillFirstRow(log: MicroBitFastLog, keys: seq<string>, row: seq<Cell>, now: nat)
    requires Unfixed(log) && DistinctKeys(keys) && |row| == |keys| && FreeFrom(log.Columns(), keys, row, 0)
    requires forall i | 0 <= i < |row| :: row[i].Ok() && row[i] != Unset
    requires log.logStartTime <= now
    modifies log.Footprint()
    ensures Unfixed(log) && FreeFrom(log.Columns(), keys, row, |keys|) && log.logStartTime == old(log.logStartTime)
    ensures log.RingState() == old(log.RingState()) && fresh(log.Footprint() - old(log.Footprint()))
  {
    hide MicroBitCircularBuffer.Valid, MicroBitCircularBuffer.Free, MicroBitCircularBuffer.Drained, Flatten, AllOfWidth, WithValue, DistinctKeys;
    for k := 0 to |keys|
      invariant Unfixed(log) && FreeFrom(log.Columns(), keys, row, k) && log.logStartTime == old(log.logStartTime)
      invariant log.RingState() == old(log.RingState()) && fresh(log.Footprint() - old(log.Footprint()))
    {
      NextFree(log.Columns(), keys, row, k);
      log.StoreValue(keys[k], row[k], now);
    }
  }

  lemma CountFilled(cols: seq<LogColumnEntry>, keys: seq<string>, row: seq<Cell>, count: nat)
    requires FreeFrom(cols, keys, row, |keys|) && forall i | 0 <= i < |row| :: row[i] != Unset
    requires count <= |cols| && (forall i | 0 <= i < count :: cols[i].cell != Unset)
    requires count < |cols| ==> cols[count].cell == Unset
    ensures count == |keys|
  {
    assert |keys| < |cols| ==> cols[|keys|].cell == Unset;
    forall i | 0 <= i < |keys| ensures cols[i].cell != Unset {
      assert cols[i] == LogColumnEntry(keys[i], row[i]);
    }
  }

  /** Ends it: the columns are those that have been filled. */
  method EndFirstRow(log: MicroBitFastLog, keys: seq<string>, row: seq<Cell>, now: nat)
    requires Unfixed(log) && FreeFrom(log.Columns(), keys, row, |keys|) && log.logStartTime <= now < log.logStartTime + 1_000_000_000
    requires forall i | 0 <= i < |row| :: row[i] != Unset
    modifies log.Footprint()
    ensures log.Valid() && log.initialized && log.timestampEnabled && log.timeStampFormat == Milliseconds
    ensures log.columnCount == |keys| <= |log.rowData| && forall j | 0 <= j < |keys| :: log.rowData[j].key == keys[j]
    ensures var state, cells := old(log.RingState()), [Int(now - old(log.logStartTime))] + row;
            && log.rows == [ReadBacks(state.0, cells, log.toFloat)]
            && log.RingState().1 == FreeAfter(state.1, state.0, cells)
    ensures fresh(log.Footprint() - old(log.Footprint()))
  {
    hide MicroBitCircularBuffer.Valid, MicroBitCircularBuffer.Free, MicroBitCircularBuffer.Drained, MicroBitCircularBuffer.Filled;
    hide Flatten, AllOfWidth, ReadBacks, TypesAfter, FreeAfter, MicroBitFastLog.Valid;
    log.Shape();
    ghost var cols := log.Columns();
    log.EndRow(now);
    log.Shape();
    assert forall j | 0 <= j < |cols| :: log.rowData[j] == cols[j];
    CountFilled(cols, keys, row, log.columnCount);
    assert CellsOf(log.rowData[..|keys|]) == row;
  }

  /** The first row logged, some time after the start, is saved with that time and with its values under their headings. */
  method SaveStamped(granted: nat -> bool, toFloat: int -> Float, keys: seq<string>, row: seq<Cell>, start: nat, now: nat)
    returns (saved: seq<SavedRow>)
    requires keys != [] && DistinctKeys(keys) && |row| == |keys| && Plain(row)
    requires start <= now < start + 1_000_000_000
    requires HeapLasts(granted) && 4 * (|keys| + 1) <= Limit(-1)
    ensures |saved| == 1 && (saved[0].time == U32(now - start) || saved[0].time == I32(now - start))
    ensures SavedRowIs(saved[0].(time := NoElem), keys, row)
  {
    hide MicroBitFastLog.Valid, Plain, DistinctKeys, AllOfWidth, ReadBacks, FreeAfter, TypesAfter, Same, FreeFrom, Unfixed;
    var log := new MicroBitFastLog(granted, toFloat);
    StampedReadsBack(now - start, Limit(-1), row, toFloat);
    BeginFirstRow(log, keys, row, start);
    FillFirstRow(log, keys, row, now);
    EndFirstRow(log, keys, row, now);
    saved := SaveFirst(log, keys, row, now - start);
  }

  method BeginFirstRow(log: MicroBitFastLog, keys: seq<string>, row: seq<Cell>, start: nat)
    requires log.Valid() && log.rows == [] && log.timestampEnabled && log.timeStampFormat == Milliseconds && |row| == |keys|
    requires !log.userSetCols && log.logger == null && !log.rowStarted && !log.firstRowLogged && log.logStartTime == 0 && !log.initialized
    modifies log.Footprint()
    ensures Unfixed(log) && FreeFrom(log.Columns(), keys, row, 0) && log.logStartTime == start
    ensures log.RingState() == old(log.RingState()) && fresh(log.Footprint() - old(log.Footprint()))
  {
    hide MicroBitCircularBuffer.Valid, MicroBitCircularBuffer.Free, MicroBitCircularBuffer.Drained, Flatten, AllOfWidth;
    log.BeginRow(start);
  }

  lemma StampedReadsBack(time: nat, free: int, row: seq<Cell>, toFloat: int -> Float)
    requires Plain(row) && time < 1_000_000_000
    ensures Same(ReadBacks(-1, [Int(time)] + row, toFloat), [Int(time)] + row)
    ensures free >= 4 * (|row| + 1) ==> FreeAfter(free, -1, [Int(time)] + row) >= 0
    ensures forall i | 0 <= i < |row| :: row[i].Ok() && row[i] != Unset
  {
    RowReadsBack(-1, free, [Int(time)] + row, toFloat);
  }

  method SaveFirst(log: MicroBitFastLog, keys: seq<string>, row: seq<Cell>, time: nat) returns (saved: seq<SavedRow>)
    requires log.Valid() && log.initialized && log.timestampEnabled && log.timeStampFormat == Milliseconds
    requires log.columnCount == |keys| == |row| <= |log.rowData| && forall j | 0 <= j < |keys| :: log.rowData[j].key == keys[j]
    requires |log.rows| == 1 && Same(log.rows[0], [Int(time)] + row) && keys != []
    requires log.RingState().1 >= 0
    modifies if log.logger == null then {} else {log.logger}
    ensures |saved| == 1 && (saved[0].time == U32(time) || saved[0].time == I32(time))
    ensures SavedRowIs(saved[0].(time := NoElem), keys, row)
  {
    hide MicroBitFastLog.Valid, MicroBitFastLog.Pending, MicroBitFastLog.SavedAs, Flatten, AllOfWidth;
    log.Shape();
    log.NothingLost();
    var _, rows := log.SaveLog();
    saved := rows;
    assert saved[0] == log.SavedAs(log.rows[0]);
    StampedCells(log, keys, log.rows[0], row, time);
  }

  lemma StampedCells(log: MicroBitFastLog, keys: seq<string>, row: seq<Elem>, cells: seq<Cell>, time: nat)
    requires 0 <= log.columnCount == |keys| == |cells| <= |log.rowData| && log.timestampEnabled && log.timeStampFormat != None
    requires Same(row, [Int(time)] + cells) && forall j | 0 <= j < |keys| :: log.rowData[j].key == keys[j]
    ensures |row| == log.Width()
    ensures log.SavedAs(row).time == U32(time) || log.SavedAs(row).time == I32(time)
    ensures SavedRowIs(log.SavedAs(row).(time := NoElem), keys, cells)
  {
    var all := [Int(time)] + cells;
    assert all[0] == Int(time);
    forall i | 0 <= i < |keys| ensures row[1..][i] == row[i + 1] && all[i + 1] == cells[i] {
    }
  }

  // ---------------------------------------------------------------- the ring alone

  /** Values pushed into a new ring of some size read back as the promotion of each requires, and all of them are held if
      and only if they fit within the size, or within 50 segments of 2000 bytes. */
  method PushAll(size: int, granted: nat -> bool, toFloat: int -> Float, cells: seq<Cell>) returns (ring: MicroBitCircularBuffer)
    requires size == -1 || size >= 7
    requires forall i | 0 <= i < |cells| :: cells[i].Ok()
    ensures ring.Valid() && ring.pushed == ReadBacks(-1, cells, toFloat)
    ensures HeapLasts(granted) ==> (ring.Contents() == ring.pushed <==> FreeAfter(Limit(size), -1, cells) >= 0)
  {
    hide MicroBitCircularBuffer.Valid, MicroBitCircularBuffer.Filled, MicroBitCircularBuffer.Drained, MicroBitCircularBuffer.Free, TypeAfter, ReadBack, Width;
    ring := new MicroBitCircularBuffer(size, granted, toFloat);
    assert cells[..0] == [];
    for i := 0 to |cells|
      invariant ring.Valid() && !ring.Drained() && ring.toFloat == toFloat && ring.store.granted == granted
      invariant fresh(ring.Footprint())
      invariant ring.globalType == TypesAfter(-1, cells[..i]) && ring.pushed == ReadBacks(-1, cells[..i], toFloat)
      invariant HeapLasts(granted) ==> ring.Free() == FreeAfter(Limit(size), -1, cells[..i])
    {
      assert cells[..i + 1][..i] == cells[..i];
      ghost var _ := PushCell(ring, cells[i]);
    }
    assert cells[..|cells|] == cells;
    if HeapLasts(granted) { FreeTells(ring); }
  }

  lemma FreeTells(ring: MicroBitCircularBuffer)
    requires ring.Valid() && HeapLasts(ring.store.granted)
    ensures ring.Free() >= 0 <==> ring.Contents() == ring.pushed
  {
    hide MicroBitCircularBuffer.RingValid, MicroBitCircularBuffer.Contents, MicroBitCircularBuffer.Slots, Bytes;
    ring.SlotCount();
    if ring.Whole() { ring.RoomLeft(0); }
  }
}
