/** From the fast log to the text log: what a save of buffered rows adds to the text. How values and times are printed
    is a parameter. */
module SaveRuns {
  import opened NorFlash
  import opened UsbFlash
  import opened FsCache
  import opened LogText
  import opened LogRows
  import opened LogImage
  import opened Log
  import Promotion
  import FastLog

  // ---------------------------------------------------------------- rows of keys and values

  /** The columns after a row of keys and values has been logged into them, all as strings that are cleaned first. */
  function Filled(rowData: seq<ColumnEntry>, row: seq<ColumnEntry>): seq<ColumnEntry> {
    if row == [] then rowData
    else
      var front, last := row[..|row| - 1], row[|row| - 1];
      WithEntry(Filled(rowData, front), Cleaned(last.key, true), Cleaned(last.value, true))
  }

  /** The headings after rows with these keys have been logged under the given ones. */
  function Headings(keys: seq<seq<Byte>>, row: seq<ColumnEntry>): seq<seq<Byte>> {
    if row == [] then keys
    else
      var front, k := Headings(keys, row[..|row| - 1]), Cleaned(row[|row| - 1].key, true);
      if k in front then front else front + [k]
  }

  lemma {:induction false} FilledKeys(rowData: seq<ColumnEntry>, row: seq<ColumnEntry>)
    ensures Keys(Filled(rowData, row)) == Headings(Keys(rowData), row)
  {
    if row == [] {
    } else {
      var front, last := row[..|row| - 1], row[|row| - 1];
      FilledKeys(rowData, front);
      WithEntrySets(Filled(rowData, front), Cleaned(last.key, true), Cleaned(last.value, true));
    }
  }

  ghost predicate SameKeys(a: seq<ColumnEntry>, b: seq<ColumnEntry>) {
    Keys(a) == Keys(b)
  }

  /** Headings are kept, and include the keys of the row. */
  lemma {:induction false} HeadingsGrow(keys: seq<seq<Byte>>, row: seq<ColumnEntry>)
    ensures |keys| <= |Headings(keys, row)| && Headings(keys, row)[..|keys|] == keys
    ensures forall i | 0 <= i < |row| :: Cleaned(row[i].key, true) in Headings(keys, row)
  {
    hide Cleaned;
    if row == [] {
    } else {
      HeadingsGrow(keys, row[..|row| - 1]);
    }
  }

  lemma {:induction false} HeadingsStay(keys: seq<seq<Byte>>, row: seq<ColumnEntry>)
    requires forall i | 0 <= i < |row| :: Cleaned(row[i].key, true) in keys
    ensures Headings(keys, row) == keys
  {
    hide Cleaned;
    if row == [] {
    } else {
      HeadingsStay(keys, row[..|row| - 1]);
    }
  }

  /** A second row with the same keys brings no new headings. */
  lemma HeadingsSettle(keys: seq<seq<Byte>>, first: seq<ColumnEntry>, row: seq<ColumnEntry>)
    requires SameKeys(first, row)
    ensures Headings(Headings(keys, first), row) == Headings(keys, first)
  {
    HeadingsGrow(keys, first);
    forall i | 0 <= i < |row| ensures Cleaned(row[i].key, true) in Headings(keys, first) {
      assert Keys(first)[i] == Keys(row)[i];
    }
    HeadingsStay(Headings(keys, first), row);
  }

  // ---------------------------------------------------------------- the text of rows

  /** What logging rows adds to the text: a line of headings whenever there are new ones, and a line for each row. */
  function RowsText(rowData: seq<ColumnEntry>, changed: bool, rows: seq<seq<ColumnEntry>>): (text: seq<Byte>)
    decreases |rows|
  {
    if rows == [] then []
    else
      var filled := Filled(Emptied(rowData), rows[0]);
      (if changed || Keys(filled) != Keys(rowData) then Line(Keys(filled)) else []) + RowLine(filled)
      + RowsText(filled, false, rows[1..])
  }

  function CleanRow(row: seq<ColumnEntry>): (r: seq<ColumnEntry>)
    ensures |r| == |row|
  {
    seq(|row|, i requires 0 <= i < |row| => ColumnEntry(Cleaned(row[i].key, true), Cleaned(row[i].value, true)))
  }

  ghost predicate DistinctKeys(row: seq<ColumnEntry>) {
    forall i, j | 0 <= i < j < |row| :: Cleaned(row[i].key, true) != Cleaned(row[j].key, true)
  }

  /** Logged into columns with its own keys, a row replaces all the values ... */
  lemma {:induction false} FilledOver(base: seq<ColumnEntry>, row: seq<ColumnEntry>, k: nat)
    requires DistinctKeys(row) && Keys(base) == Keys(CleanRow(row)) && k <= |row|
    ensures Filled(base, row[..k]) == CleanRow(row)[..k] + base[k..]
  {
    hide Cleaned;
    if k == 0 {
    } else {
      FilledOver(base, row, k - 1);
      NextOver(base, row, k);
      hide CleanRow, Keys, DistinctKeys;
      EntryOver(CleanRow(row), base, k);
      assert row[..k][..k - 1] == row[..k - 1];
      hide WithEntry;
    }
  }

  lemma EntryOver(clean: seq<ColumnEntry>, base: seq<ColumnEntry>, k: nat)
    requires 0 < k <= |clean| == |base| && base[k - 1].key == clean[k - 1].key
    requires forall i | 0 <= i < k - 1 :: clean[i].key != clean[k - 1].key
    ensures WithEntry(clean[..k - 1] + base[k - 1..], clean[k - 1].key, clean[k - 1].value) == clean[..k] + base[k..]
  {
    hide WithEntry;
    var cols := clean[..k - 1] + base[k - 1..];
    WithEntryAt(cols, clean[k - 1].key, clean[k - 1].value, k - 1);
    assert clean[..k] + base[k..] == cols[k - 1 := clean[k - 1]];
  }

  lemma NextOver(base: seq<ColumnEntry>, row: seq<ColumnEntry>, k: nat)
    requires DistinctKeys(row) && Keys(base) == Keys(CleanRow(row)) && 0 < k <= |row|
    ensures |base| == |row|
    ensures var clean := CleanRow(row);
            && clean[k - 1] == ColumnEntry(Cleaned(row[k - 1].key, true), Cleaned(row[k - 1].value, true))
            && base[k - 1].key == clean[k - 1].key && forall i | 0 <= i < k - 1 :: clean[i].key != clean[k - 1].key
  {
    hide Cleaned;
    SameLength(base, CleanRow(row));
    assert Keys(base)[k - 1] == Keys(CleanRow(row))[k - 1];
  }

  /** ... and into no columns at all it makes them. */
  lemma {:induction false} FilledFresh(row: seq<ColumnEntry>)
    requires DistinctKeys(row)
    ensures Filled([], row) == CleanRow(row)
  {
    hide Cleaned;
    if row == [] {
    } else {
      var front := row[..|row| - 1];
      CleanRowLast(row);
      FilledFresh(front);
      hide CleanRow, WithEntry, DistinctKeys;
      var last := CleanRow(row)[|row| - 1];
      WithEntryAt(CleanRow(front), last.key, last.value, |front|);
    }
  }

  lemma CleanRowLast(row: seq<ColumnEntry>)
    requires row != [] && DistinctKeys(row)
    ensures var front, last := CleanRow(row[..|row| - 1]), CleanRow(row)[|row| - 1];
            && CleanRow(row) == front + [last] && DistinctKeys(row[..|row| - 1])
            && last == ColumnEntry(Cleaned(row[|row| - 1].key, true), Cleaned(row[|row| - 1].value, true))
            && forall i | 0 <= i < |front| :: front[i].key != last.key
  {
    hide Cleaned;
    var front, last := CleanRow(row[..|row| - 1]), CleanRow(row)[|row| - 1];
    forall i | 0 <= i < |front| ensures front[i].key != last.key {
      assert front[i].key == Cleaned(row[i].key, true);
    }
  }

  /** The row has exactly these headings. */
  ghost predicate Under(row: seq<ColumnEntry>, keys: seq<seq<Byte>>) {
    DistinctKeys(row) && Keys(CleanRow(row)) == keys
  }

  /** The lines of rows, each of its own values. */
  function Table(rows: seq<seq<ColumnEntry>>): seq<Byte> {
    if rows == [] then [] else RowLine(CleanRow(rows[0])) + Table(rows[1..])
  }

  lemma {:induction false} TableText(base: seq<ColumnEntry>, rows: seq<seq<ColumnEntry>>, keys: seq<seq<Byte>>)
    requires Keys(base) == keys && forall i | 0 <= i < |rows| :: Under(rows[i], keys)
    ensures RowsText(base, false, rows) == Table(rows)
    decreases |rows|
  {
    hide RowLine, Cleaned, CleanRow, DistinctKeys, Keys;
    if rows == [] {
    } else {
      var row := rows[0];
      assert Under(row, keys);
      assert |CleanRow(row)| == |Emptied(base)| by { SameLength(CleanRow(row), Emptied(base)); }
      FilledOver(Emptied(base), row, |row|);
      assert row[..|row|] == row;
      assert Filled(Emptied(base), row) == CleanRow(row);
      TableText(CleanRow(row), rows[1..], keys);
    }
  }

  lemma SameLength(a: seq<ColumnEntry>, b: seq<ColumnEntry>)
    requires Keys(a) == Keys(b)
    ensures |a| == |b|
  {
  }

  /** Rows with the same distinct keys, logged without any columns before, are a line of headings and a line for each row. */
  lemma TableOfRows(rows: seq<seq<ColumnEntry>>, keys: seq<seq<Byte>>)
    requires rows != [] && keys != [] && forall i | 0 <= i < |rows| :: Under(rows[i], keys)
    ensures RowsText([], false, rows) == Line(keys) + Table(rows)
  {
    hide RowLine, Cleaned, DistinctKeys, Line, CleanRow, Filled, Table, RowsText, Keys;
    var clean, rest := CleanRow(rows[0]), rows[1..];
    assert Under(rows[0], keys);
    FilledFresh(rows[0]);
    FirstOfTable(rows);
    hide Under;
    TableText(clean, rest, keys);
    assert Line(keys) + RowLine(clean) + Table(rest) == Line(keys) + (RowLine(clean) + Table(rest));
  }

  lemma FirstOfTable(rows: seq<seq<ColumnEntry>>)
    requires rows != [] && Keys(CleanRow(rows[0])) != [] && Filled([], rows[0]) == CleanRow(rows[0])
    ensures var clean := CleanRow(rows[0]);
            && RowsText([], false, rows) == Line(Keys(clean)) + RowLine(clean) + RowsText(clean, false, rows[1..])
            && Table(rows) == RowLine(clean) + Table(rows[1..])
  {
    hide RowLine, Line, Filled, CleanRow;
    assert Emptied([]) == [];
    assert |Keys([])| == 0;
  }

  /** Keys and values are strings, and no key holds an unused byte. */
  ghost predicate Plain(row: seq<ColumnEntry>) {
    forall j | 0 <= j < |row| :: NUL !in row[j].key && ERASED !in row[j].key && NUL !in row[j].value
  }

  /** New headings that a row brings still fit before the journal. */
  ghost predicate HeadingsFitFor(log: MicroBitLog, row: seq<ColumnEntry>)
    reads log
  {
    var keys := Headings(Keys(log.rowData), row);
    log.headingsChanged || keys != Keys(log.rowData) ==>
      log.SavedStart() + log.headingLength + |Line(keys)| < JOURNAL_START
  }

  /** Logs one row. */
  method SaveRow(log: MicroBitLog, row: seq<ColumnEntry>)
    requires log.Valid() && !log.rowStarted && !log.AtRisk() && DATA_START <= log.dataEnd <= |log.flash.device|
    requires Plain(row) && HeadingsFitFor(log, row)
    requires log.dataEnd + |RowsText(log.rowData, log.headingsChanged, [row])| <= log.logEnd
    modifies log, log.flash, log.cache, log.cache.cache
    ensures log.Valid() && !log.rowStarted && !log.AtRisk() && !log.headingsChanged
    ensures DATA_START <= log.dataEnd <= |log.flash.device| == |old(log.flash.device)| && log.logEnd == old(log.logEnd)
    ensures log.rowData == Filled(Emptied(old(log.rowData)), row)
    ensures log.Text() == old(log.Text()) + old(RowsText(log.rowData, log.headingsChanged, [row]))
  {
    hide MicroBitLog.Valid, MicroBitLog.SafeToEnd, Front, Cleaned, Line, WithEntry, RowLine, Emptied;
    ghost var before, changed := log.rowData, log.headingsChanged;
    FilledKeys(Emptied(before), row);
    OneRow(before, changed, row);
    log.BeginRow();
    SetCells(log, row, before);
    EndWhole(log);
  }

  /** Ends a row that fits as a whole. */
  method EndWhole(log: MicroBitLog)
    requires log.Valid() && log.rowStarted && !log.AtRisk() && log.HeadingsFit()
    requires log.dataEnd + |log.NewHeadings()| + |RowLine(log.rowData)| <= log.logEnd
    modifies log, log.flash, log.cache, log.cache.cache
    ensures log.Valid() && !log.rowStarted && !log.AtRisk() && !log.headingsChanged
    ensures DATA_START <= log.dataEnd <= |log.flash.device| == |old(log.flash.device)| && log.logEnd == old(log.logEnd)
    ensures log.rowData == old(log.rowData)
    ensures log.Text() == old(log.Text()) + old(log.NewHeadings()) + RowLine(log.rowData)
  {
    hide MicroBitLog.Valid, MicroBitLog.AtRisk, Line, RowLine, MicroBitLog.HeadingsFit, MicroBitLog.NewHeadings, TellsKeys, TellsValues;
    assert log.SafeToEnd();
    var _ := log.EndRow();
  }

  /** Sets the cells of a row that has just been begun. */
  method SetCells(log: MicroBitLog, row: seq<ColumnEntry>, ghost before: seq<ColumnEntry>)
    requires log.Valid() && log.rowStarted && log.rowData == Emptied(before) && Plain(row)
    modifies log`rowData, log`rowStarted, log`headingsChanged
    ensures log.Valid() && log.rowStarted && log.rowData == Filled(Emptied(before), row)
    ensures log.headingsChanged == (old(log.headingsChanged) || Keys(log.rowData) != Keys(before))
  {
    hide MicroBitLog.Attached, MicroBitLog.Ready, Front, Printable, AllClean, Cleaned, WithEntry, Emptied, MicroBitLog.AtRisk;
    assert row[..0] == [];
    for k := 0 to |row|
      invariant log.Valid() && log.rowStarted && log.rowData == Filled(Emptied(before), row[..k])
      invariant log.headingsChanged == (old(log.headingsChanged) || Keys(log.rowData) != Keys(before))
    {
      FilledKeys(Emptied(before), row[..k]);
      HeadingsGrow(Keys(before), row[..k]);
      WithEntrySets(log.rowData, Cleaned(row[k].key, true), Cleaned(row[k].value, true));
      log.LogData(row[k].key, row[k].value);
      assert row[..k + 1][..k] == row[..k];
    }
    assert row[..|row|] == row;
  }

  lemma OneRow(rowData: seq<ColumnEntry>, changed: bool, row: seq<ColumnEntry>)
    ensures var filled := Filled(Emptied(rowData), row);
            RowsText(rowData, changed, [row])
            == (if changed || Keys(filled) != Keys(rowData) then Line(Keys(filled)) else []) + RowLine(filled)
  {
    assert [row][1..] == [];
  }

  /** Logs rows that all have the same keys: new headings once, and then line after line. */
  method SaveRows(log: MicroBitLog, rows: seq<seq<ColumnEntry>>)
    requires log.Valid() && !log.rowStarted && !log.AtRisk() && DATA_START <= log.dataEnd <= |log.flash.device|
    requires forall i | 0 <= i < |rows| :: Plain(rows[i]) && SameKeys(rows[0], rows[i])
    requires rows != [] ==> HeadingsFitFor(log, rows[0])
    requires log.dataEnd + |RowsText(log.rowData, log.headingsChanged, rows)| <= log.logEnd
    modifies log, log.flash, log.cache, log.cache.cache
    ensures log.Valid() && DATA_START <= log.dataEnd <= |log.flash.device|
    ensures log.Text() == old(log.Text()) + old(RowsText(log.rowData, log.headingsChanged, rows))
  {
    hide MicroBitLog.Valid, Cleaned, Line, RowLine, Emptied, Filled, Headings, MicroBitLog.AtRisk, RowsText;
    ghost var keys, goal := Keys(log.rowData), log.Text() + RowsText(log.rowData, log.headingsChanged, rows);
    for k := 0 to |rows|
      invariant log.Valid() && !log.rowStarted && !log.AtRisk() && log.logEnd == old(log.logEnd)
      invariant DATA_START <= log.dataEnd <= |log.flash.device|
      invariant log.Text() + RowsText(log.rowData, log.headingsChanged, rows[k..]) == goal
      invariant k == 0 && rows != [] ==> Keys(log.rowData) == keys && HeadingsFitFor(log, rows[0])
      invariant k > 0 ==> !log.headingsChanged && Keys(log.rowData) == Headings(keys, rows[0])
    {
      SplitRows(log.rowData, log.headingsChanged, rows[k..]);
      if k > 0 { HeadingsSettle(keys, rows[0], rows[k]); }
      FilledKeys(Emptied(log.rowData), rows[k]);
      ghost var text := log.Text();
      SaveRow(log, rows[k]);
    }
    NoRows(log.rowData, log.headingsChanged);
  }

  lemma NoRows(rowData: seq<ColumnEntry>, changed: bool)
    ensures RowsText(rowData, changed, []) == []
  {
  }

  lemma SplitRows(rowData: seq<ColumnEntry>, changed: bool, rows: seq<seq<ColumnEntry>>)
    requires rows != []
    ensures RowsText(rowData, changed, rows)
         == RowsText(rowData, changed, [rows[0]]) + RowsText(Filled(Emptied(rowData), rows[0]), false, rows[1..])
  {
    OneRow(rowData, changed, rows[0]);
  }

  // ---------------------------------------------------------------- saving the fast log

  /** How headings, times and values are printed. */
  datatype Printing = Printing(
    heading: string -> seq<Byte>,
    value: Promotion.Elem -> seq<Byte>,
    timeHeading: FastLog.TimeStampFormat -> seq<Byte>,
    time: (FastLog.TimeStampFormat, nat, Promotion.Elem) -> seq<Byte>)
  {
    ghost predicate Ok() {
      && (forall k :: NUL !in heading(k) && ERASED !in heading(k))
      && (forall f :: NUL !in timeHeading(f) && ERASED !in timeHeading(f))
      && (forall e :: NUL !in value(e))
      && forall f, t, e :: NUL !in time(f, t, e)
    }
  }

  /** A saved row as keys and values for the log. */
  function Printed(p: Printing, format: FastLog.TimeStampFormat, start: nat, stamped: bool, row: FastLog.SavedRow): seq<ColumnEntry>
  {
    (if stamped then [ColumnEntry(p.timeHeading(format), p.time(format, start, row.time))] else [])
    + seq(|row.cells|, i requires 0 <= i < |row.cells| => ColumnEntry(p.heading(row.cells[i].0), p.value(row.cells[i].1)))
  }

  lemma PrintedIsPlain(p: Printing, format: FastLog.TimeStampFormat, start: nat, stamped: bool, row: FastLog.SavedRow)
    requires p.Ok()
    ensures Plain(Printed(p, format, start, stamped, row))
  {
    var r := Printed(p, format, start, stamped, row);
    forall j | 0 <= j < |r| ensures NUL !in r[j].key && ERASED !in r[j].key && NUL !in r[j].value {
      if stamped && j == 0 {
        assert r[j] == ColumnEntry(p.timeHeading(format), p.time(format, start, row.time));
      } else {
        var cell := row.cells[if stamped then j - 1 else j];
        assert r[j] == ColumnEntry(p.heading(cell.0), p.value(cell.1));
      }
    }
  }

  /** In the lines for a saved row, the time comes first, if there is one, and then field by field the printed headings over
      the printed values of the cells. */
  lemma PrintedFields(p: Printing, format: FastLog.TimeStampFormat, start: nat, stamped: bool, row: FastLog.SavedRow)
    requires p.Ok()
    ensures var cols, at := CleanRow(Printed(p, format, start, stamped, row)), if stamped then 1 else 0;
            && |cols| == at + |row.cells|
            && (stamped ==> cols[0] == ColumnEntry(Cleaned(p.timeHeading(format), true), Cleaned(p.time(format, start, row.time), true)))
            && (forall i | 0 <= i < |row.cells| ::
                  cols[at + i] == ColumnEntry(Cleaned(p.heading(row.cells[i].0), true), Cleaned(p.value(row.cells[i].1), true)))
            && (cols != [] ==> TellsKeys(Line(Keys(cols)), cols))
            && if forall i | 0 <= i < |cols| :: cols[i].value == [] then RowLine(cols) == [] else TellsValues(RowLine(cols), cols)
  {
    hide Cleaned, Clean, TellsKeys, TellsValues, RowLine, Line;
    var r := Printed(p, format, start, stamped, row);
    var cols := CleanRow(r);
    PrintedIsPlain(p, format, start, stamped, row);
    forall i | 0 <= i < |cols|
      ensures Clean(cols[i].key) && ERASED !in cols[i].key && Clean(cols[i].value)
    {
      CleanedIsCell(r[i].key);
      CleanedIsCell(r[i].value);
    }
    if cols != [] { HeadingsTell(cols); }
    RowTells(cols);
  }

  lemma PrintedKeys(p: Printing, format: FastLog.TimeStampFormat, start: nat, stamped: bool, a: FastLog.SavedRow, b: FastLog.SavedRow)
    requires |a.cells| == |b.cells| && forall i | 0 <= i < |a.cells| :: a.cells[i].0 == b.cells[i].0
    ensures SameKeys(Printed(p, format, start, stamped, a), Printed(p, format, start, stamped, b))
  {
  }

  function PrintedRows(p: Printing, format: FastLog.TimeStampFormat, start: nat, stamped: bool, saved: seq<FastLog.SavedRow>): (rows: seq<seq<ColumnEntry>>)
    ensures |rows| == |saved|
    ensures forall i | 0 <= i < |rows| :: rows[i] == Printed(p, format, start, stamped, saved[i])
  {
    seq(|saved|, i requires 0 <= i < |saved| => Printed(p, format, start, stamped, saved[i]))
  }

  /** The rows that a save hands to the log. */
  ghost function ToPrint(fast: FastLog.MicroBitFastLog, p: Printing): seq<seq<ColumnEntry>>
    reads fast, fast.logger, if fast.logger == null then {} else {fast.logger.store},
          if fast.logger == null then [] else fast.logger.store.dataBuffers
    requires fast.Valid()
  {
    if fast.NoColumns() then []
    else PrintedRows(p, fast.timeStampFormat, fast.logStartTime, Stamped(fast), fast.Pending())
  }

  lemma PrintedAlike(fast: FastLog.MicroBitFastLog, p: Printing)
    requires fast.Valid() && p.Ok()
    ensures forall i | 0 <= i < |ToPrint(fast, p)| :: Plain(ToPrint(fast, p)[i]) && SameKeys(ToPrint(fast, p)[0], ToPrint(fast, p)[i])
  {
    hide FastLog.MicroBitFastLog.Valid, Printed, Plain, SameKeys;
    if !fast.NoColumns() {
      var saved := fast.Pending();
      forall i | 0 <= i < |saved|
        ensures Plain(ToPrint(fast, p)[i]) && SameKeys(ToPrint(fast, p)[0], ToPrint(fast, p)[i])
      {
        PrintedIsPlain(p, fast.timeStampFormat, fast.logStartTime, Stamped(fast), saved[i]);
        PrintedKeys(p, fast.timeStampFormat, fast.logStartTime, Stamped(fast), saved[0], saved[i]);
      }
    }
  }

  predicate Stamped(fast: FastLog.MicroBitFastLog)
    reads fast
  {
    fast.timestampEnabled && fast.timeStampFormat != FastLog.None
  }

  /** A save adds to the text the headings, if they are new, and exactly the lines of the rows that the ring holds whole. */
  method SaveToLog(fast: FastLog.MicroBitFastLog, log: MicroBitLog, p: Printing) returns (divides: bool)
    requires fast.Valid() && log.Valid() && !log.rowStarted && !log.AtRisk()
    requires DATA_START <= log.dataEnd <= |log.flash.device| && p.Ok()
    requires ToPrint(fast, p) != [] ==> HeadingsFitFor(log, ToPrint(fast, p)[0])
    requires log.dataEnd + |RowsText(log.rowData, log.headingsChanged, ToPrint(fast, p))| <= log.logEnd
    modifies if fast.logger == null then {} else {fast.logger}
    modifies log, log.flash, log.cache, log.cache.cache
    ensures log.Valid() && DATA_START <= log.dataEnd <= |log.flash.device|
    ensures divides == !old(fast.NoColumns())
    ensures log.Text() == old(log.Text()) + old(RowsText(log.rowData, log.headingsChanged, ToPrint(fast, p)))
  {
    hide FastLog.MicroBitFastLog.Valid, FastLog.MicroBitFastLog.Pending, FastLog.MicroBitFastLog.SavedAs;
    hide MicroBitLog.Valid, MicroBitLog.AtRisk, RowsText, HeadingsFitFor, Plain, SameKeys, Printed;
    ghost var rows := ToPrint(fast, p);
    PrintedAlike(fast, p);
    NoRows(log.rowData, log.headingsChanged);
    var d, saved := fast.SaveLog();
    divides := d;
    var printed := PrintedRows(p, fast.timeStampFormat, fast.logStartTime, Stamped(fast), saved);
    if divides {
      assert printed == rows;
    }
    SaveRows(log, printed);
  }
}
