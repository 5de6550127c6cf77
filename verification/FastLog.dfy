/** MicroBitFastLog: rows of a fixed width, buffered in the typed ring and written out on request. */
module FastLog {
  import opened RingLayout
  import opened Promotion
  import Blocks
  import opened SegmentedBytes
  import opened CircularBuffer

  const DEFAULT_COLUMNS := 3

  datatype TimeStampFormat = None | Milliseconds | Seconds | Minutes | Hours | Days

  /** A value of the row being filled in. */
  datatype Cell = Unset | UInt(u: int) | Int(n: int) | Flt(bits: Float) {
    predicate Ok() {
      match this
      case UInt(u) => 0 <= u < 0x1_0000_0000
      case Int(n) => -0x8000_0000 <= n < 0x8000_0000
      case _ => true
    }
  }

  datatype LogColumnEntry = LogColumnEntry(key: string, cell: Cell)

  /** A row as handed to the log: the time stamp, if one is kept, and a value for every column. */
  datatype SavedRow = SavedRow(time: Elem, cells: seq<(string, Elem)>)

  // ---------------------------------------------------------------- rows and cells

  function Flatten<T>(rows: seq<seq<T>>): seq<T> {
    if rows == [] then [] else rows[0] + Flatten(rows[1..])
  }

  ghost predicate AllOfWidth<T>(rows: seq<seq<T>>, w: nat) {
    forall i | 0 <= i < |rows| :: |rows[i]| == w
  }

  lemma FlattenNone<T>()
    ensures Flatten<T>([]) == []
  {
  }

  lemma WidthKept<T>(rows: seq<seq<T>>, row: seq<T>, w: nat)
    requires AllOfWidth(rows, w) && |row| == w
    ensures AllOfWidth(rows + [row], w)
  {
  }

  lemma {:induction false} FlattenConcat<T>(a: seq<seq<T>>, b: seq<seq<T>>)
    ensures Flatten(a + b) == Flatten(a) + Flatten(b)
  {
    if a == [] {
      assert a + b == b;
    } else {
      assert (a + b)[1..] == a[1..] + b;
      FlattenConcat(a[1..], b);
    }
  }

  lemma {:induction false} FlattenLength<T>(rows: seq<seq<T>>, w: nat)
    requires AllOfWidth(rows, w)
    ensures |Flatten(rows)| == |rows| * w
  {
    if rows == [] {
    } else {
      FlattenLength(rows[1..], w);
    }
  }

  lemma QuotientBound(a: nat, n: nat, w: nat)
    requires w > 0 && a <= n * w
    ensures 0 <= a / w <= n && 0 <= a % w && a == (a / w) * w + a % w
  {
    var m := a / w;
    assert a == m * w + a % w;
    if m > n {
      assert false;
    }
  }

  lemma QuotientOf(n: nat, w: nat)
    requires w > 0
    ensures (n * w) / w == n && (n * w == 0 <==> n == 0)
  {
    Blocks.Multiple(n, w);
    if n > 0 { Blocks.MulAtLeast(n, w); }
  }

  lemma RemainderBound(a: nat, w: nat)
    requires w > 0
    ensures 0 <= a / w && 0 <= a % w <= a
  {
  }

  /** Dropping the incomplete row at the front of a suffix of the cells leaves a suffix of the rows. */
  lemma WholeRowsRemain<T>(rows: seq<seq<T>>, w: nat, held: seq<T>)
    requires w > 0 && AllOfWidth(rows, w)
    requires |held| <= |Flatten(rows)| && held == Flatten(rows)[|Flatten(rows)| - |held|..]
    ensures |held| / w <= |rows|
    ensures held[|held| % w..] == Flatten(rows[|rows| - |held| / w..])
  {
    var m, r := |held| / w, |held| % w;
    FlattenLength(rows, w);
    QuotientBound(|held|, |rows|, w);
    assert m >= 0 && r >= 0;
    SuffixOfRows(rows, w, held, m, r);
  }

  lemma SuffixOfRows<T>(rows: seq<seq<T>>, w: nat, held: seq<T>, m: nat, r: nat)
    requires AllOfWidth(rows, w) && m <= |rows| && |held| == m * w + r
    requires |held| <= |Flatten(rows)| && held == Flatten(rows)[|Flatten(rows)| - |held|..]
    ensures held[r..] == Flatten(rows[|rows| - m..])
  {
    var k := |rows| - m;
    assert rows == rows[..k] + rows[k..];
    FlattenConcat(rows[..k], rows[k..]);
    FlattenLength(rows[k..], w);
    var all, tail := Flatten(rows), Flatten(rows[k..]);
    assert |held[r..]| == |tail| && all[|all| - |tail|..] == tail;
    assert held[r..] == all[|all| - |tail|..];
  }

  lemma FlattenAppend<T>(rows: seq<seq<T>>, row: seq<T>)
    ensures Flatten(rows + [row]) == Flatten(rows) + row
  {
    FlattenConcat(rows, [row]);
    assert Flatten([row]) == row + Flatten([]);
  }

  // ---------------------------------------------------------------- the row being filled in

  /** The first column that carries the key or is still free. */
  function FindColumn(cols: seq<LogColumnEntry>, key: string): (i: nat)
    ensures i <= |cols|
    ensures forall j | 0 <= j < i :: cols[j].key != "" && cols[j].key != key
    ensures i < |cols| ==> cols[i].key == "" || cols[i].key == key
  {
    if cols == [] || cols[0].key == "" || cols[0].key == key then 0 else 1 + FindColumn(cols[1..], key)
  }

  /** The same columns with no cell set. */
  function Blanked(cols: seq<LogColumnEntry>): (r: seq<LogColumnEntry>)
    ensures |r| == |cols| && forall i | 0 <= i < |r| :: r[i] == LogColumnEntry(cols[i].key, Unset)
  {
    seq(|cols|, i requires 0 <= i < |cols| => cols[i].(cell := Unset))
  }

  /** What storing a value under a key makes of the columns: the key's column takes the value, or the first free
      one does; otherwise columns are added, or the value is dropped if the number of columns is fixed. */
  function WithValue(cols: seq<LogColumnEntry>, key: string, cell: Cell, fixed: bool): seq<LogColumnEntry> {
    var i := FindColumn(cols, key);
    if i < |cols| then cols[i := LogColumnEntry(key, cell)]
    else if fixed then cols
    else cols + [LogColumnEntry(key, cell)] + seq(4, _ => LogColumnEntry("", Unset))
  }

  /** The integer that a cell is logged as, zero if it was never set. */
  function Number(cell: Cell): int {
    match cell
    case UInt(u) => u
    case Int(n) => n
    case _ => 0
  }

  /** The type of the ring after a cell has been logged into a ring of type g, -1 for none: an integer takes the first
      type from there on that keeps it. */
  function TypeAfter(g: RingType, cell: Cell): (ty: ValueType)
  {
    if cell.Flt? then FLOAT else LeastFrom(Max(g, 0), Number(cell))
  }

  /** What it reads back as. */
  function ReadBack(g: RingType, cell: Cell, toFloat: int -> Float): Elem
  {
    if cell.Flt? then F32(cell.bits) else Stored(TypeAfter(g, cell), Number(cell), toFloat)
  }

  function TypesAfter(g: RingType, cells: seq<Cell>): RingType  {
    if cells == [] then g else TypeAfter(TypesAfter(g, cells[..|cells| - 1]), cells[|cells| - 1])
  }

  /** What cells read back as that are logged one after the other. */
  function ReadBacks(g: RingType, cells: seq<Cell>, toFloat: int -> Float): (row: seq<Elem>)
    ensures |row| == |cells|
  {
    if cells == [] then []
    else
      var front := cells[..|cells| - 1];
      ReadBacks(g, front, toFloat) + [ReadBack(TypesAfter(g, front), cells[|cells| - 1], toFloat)]
  }

  /** An integer turns the ring to floats exactly if it is one already, or holds signed integers of 32 bits and is given
      one from 2147483647 on. */
  lemma TurnsToFloat(g: RingType, cell: Cell)
    requires cell.Ok() && !cell.Flt?
    ensures TypeAfter(g, cell) == FLOAT <==> g == FLOAT || (g == INT32 && Number(cell) >= 0x7FFF_FFFF)
  {
    var n, ty := Number(cell), TypeAfter(g, cell);
    assert g <= UINT32 ==> Keeps(if n >= 0 then UINT32 else INT32, n);
    assert g == INT32 && n < 0x7FFF_FFFF ==> Keeps(INT32, n);
    assert g == INT32 && n >= 0x7FFF_FFFF ==> !Keeps(INT32, n);
  }

  /** As long as no float has been logged and no integer reaches 2147483647, every integer reads back as itself. */
  lemma {:induction false} IntegersReadBack(g: RingType, cells: seq<Cell>, toFloat: int -> Float)
    requires g < FLOAT
    requires forall i | 0 <= i < |cells| :: cells[i].Ok() && !cells[i].Flt? && Number(cells[i]) < 0x7FFF_FFFF
    ensures TypesAfter(g, cells) < FLOAT
    ensures forall i | 0 <= i < |cells| ::
              ReadBacks(g, cells, toFloat)[i] == U32(Number(cells[i])) || ReadBacks(g, cells, toFloat)[i] == I32(Number(cells[i]))
  {
    hide TypeAfter;
    if cells == [] {
    } else {
      var front, last := cells[..|cells| - 1], cells[|cells| - 1];
      IntegersReadBack(g, front, toFloat);
      TurnsToFloat(TypesAfter(g, front), last);
    }
  }

  /** Every cell reads back as its number, or as the float of it, exactly once the ring holds floats; a float as its bits,
      and a cell never set as zero. */
  lemma {:induction false} EachReadsBack(g: RingType, cells: seq<Cell>, toFloat: int -> Float, i: nat)
    requires i < |cells| && forall j | 0 <= j < |cells| :: cells[j].Ok()
    ensures var x, ty := ReadBacks(g, cells, toFloat)[i], TypesAfter(g, cells[..i + 1]);
            match cells[i]
            case Flt(bits) => x == F32(bits)
            case UInt(u) => x == if ty == FLOAT then F32(toFloat(u)) else if ty in {INT16, INT32} then I32(u) else U32(u)
            case Int(n) => x == if ty == FLOAT then F32(toFloat(n)) else if ty in {INT16, INT32} then I32(n) else U32(n)
            case Unset => x == if ty == FLOAT then F32(toFloat(0)) else if ty in {INT16, INT32} then I32(0) else U32(0)
    decreases |cells|
  {
    var front := cells[..|cells| - 1];
    if i < |front| {
      EachReadsBack(g, front, toFloat, i);
      assert front[..i + 1] == cells[..i + 1];
    } else {
      assert cells[..i + 1] == cells;
    }
  }

  /** The room in the ring after cells have been logged, -1 once something has been lost. */
  function FreeAfter(free: int, g: RingType, cells: seq<Cell>): int
  {
    if cells == [] then free
    else
      var before, w := FreeAfter(free, g, cells[..|cells| - 1]), RingLayout.Width(TypesAfter(g, cells));
      if before >= w then before - w else -1
  }

  /** Cells logged in two parts are logged as one. */
  lemma {:induction false} LoggedTogether(g: RingType, free: int, a: seq<Cell>, b: seq<Cell>, toFloat: int -> Float)
    ensures TypesAfter(g, a + b) == TypesAfter(TypesAfter(g, a), b)
    ensures ReadBacks(g, a + b, toFloat) == ReadBacks(g, a, toFloat) + ReadBacks(TypesAfter(g, a), b, toFloat)
    ensures FreeAfter(free, g, a + b) == FreeAfter(FreeAfter(free, g, a), TypesAfter(g, a), b)
  {
    hide TypeAfter, ReadBack, RingLayout.Width;
    if b == [] {
      assert a + b == a;
    } else {
      LoggedTogether(g, free, a, b[..|b| - 1], toFloat);
      assert (a + b)[..|a + b| - 1] == a + b[..|b| - 1];
    }
  }

  function CellsOf(cols: seq<LogColumnEntry>): (cells: seq<Cell>)
    ensures |cells| == |cols| && forall i | 0 <= i < |cells| :: cells[i] == cols[i].cell
  {
    seq(|cols|, i requires 0 <= i < |cols| => cols[i].cell)
  }

  function UnderHeadings(cols: seq<LogColumnEntry>, cells: seq<Elem>): (r: seq<(string, Elem)>)
    requires |cols| == |cells|
    ensures |r| == |cols| && forall i | 0 <= i < |r| :: r[i] == (cols[i].key, cells[i])
  {
    seq(|cols|, i requires 0 <= i < |cols| => (cols[i].key, cells[i]))
  }

  /** Pushes one cell of a row; a cell never set is logged as zero. */
  method PushCell(ring: MicroBitCircularBuffer, cell: Cell) returns (ghost e: Elem)
    requires ring.Valid() && !ring.Drained() && cell.Ok()
    modifies ring.Footprint()
    ensures ring.Valid() && !ring.Drained() && fresh(ring.Footprint() - old(ring.Footprint()))
    ensures ring.pushed == old(ring.pushed) + [e]
    ensures e == old(ReadBack(ring.globalType, cell, ring.toFloat)) && ring.globalType == old(TypeAfter(ring.globalType, cell))
    ensures ring.Free() == if old(ring.Free()) >= RingLayout.Width(ring.globalType)
                           then old(ring.Free()) - RingLayout.Width(ring.globalType) else -1
    ensures ring.Filled()
  {
    hide MicroBitCircularBuffer.RingValid, MicroBitCircularBuffer.Contents, MicroBitCircularBuffer.Slots, MicroBitCircularBuffer.Newest;
    hide Append, Laid, Evicted, Keeps, LeastFrom, Stored, RingLayout.Width, MicroBitCircularBuffer.Free;
    e := ReadBack(ring.globalType, cell, ring.toFloat);
    match cell {
      case UInt(u) => ring.PushUInt(u);
      case Int(n) => ring.PushInt(n);
      case Flt(bits) => ring.PushFloat(bits);
      case Unset => ring.PushInt(0);
    }
  }

  class MicroBitFastLog {
    /** The conversion of integers to floats, and what the heap grants to the ring, both given from outside. */
    const toFloat: int -> Float
    const granted: nat -> bool

    var initialized: bool
    var rowStarted: bool
    var firstRowLogged: bool
    var userSetCols: bool
    var timestampEnabled: bool
    var columnCount: int
    var rowData: seq<LogColumnEntry>
    var logger: MicroBitCircularBuffer?
    var timeStampFormat: TimeStampFormat
    var logStartTime: nat

    /** Every row logged, as the cells will be read back. */
    ghost var rows: seq<seq<Elem>>

    ghost function Footprint(): set<object>
      reads this, if logger == null then {} else {logger.store}
    {
      {this} + if logger == null then {} else logger.Footprint()
    }

    /** The type of the ring, and the room in it before a value is lost; those of a ring of full size before there is one. */
    ghost function RingState(): (RingType, int)
      reads this, logger, if logger == null then {} else {logger.store}
    {
      if logger == null then (-1, if HeapLasts(granted) then Limit(-1) else -1) else (logger.globalType, logger.Free())
    }

    function Width(): int
      reads this
    {
      columnCount + if timestampEnabled then 1 else 0
    }

    /** The ring holds a suffix of the cells of the logged rows; the width of a row is fixed by the first. */
    ghost predicate Valid()
      reads this, logger, if logger == null then {} else {logger.store}, if logger == null then [] else logger.store.dataBuffers
    {
      && 0 <= columnCount
      && (initialized ==> logger != null && columnCount <= |rowData|)
      && (rowStarted ==> initialized)
      && (forall i | 0 <= i < |rowData| :: rowData[i].cell.Ok())
      && (if logger == null then rows == []
          else logger.Valid() && logger.toFloat == toFloat && logger.pushed == Flatten(rows))
      && (logger != null ==> logger.store.granted == granted)
      && (!firstRowLogged ==> rows == [])
      && AllOfWidth(rows, Width())
    }

    lemma Shape()
      requires Valid()
      ensures AllOfWidth(rows, Width())
      ensures 0 <= columnCount && (initialized ==> logger != null && columnCount <= |rowData|) && (rowStarted ==> initialized)
    {
    }

    /** Columns and ring size chosen by the user; -1 columns for the default number. */
    constructor WithBuffer(columns: int, loggerBytes: int, granted: nat -> bool, toFloat: int -> Float)
      requires columns >= -1 && (loggerBytes == -1 || loggerBytes >= 7)
      ensures Valid() && rows == [] && logger != null && !logger.Drained() && !timestampEnabled && fresh(Footprint())
      ensures logger.store.size == loggerBytes && this.granted == granted && this.toFloat == toFloat
      ensures RingState() == (-1, if HeapLasts(granted) then Limit(loggerBytes) else -1)
      ensures timeStampFormat == None && !initialized && !rowStarted && !firstRowLogged && logStartTime == 0
      ensures userSetCols == (columns != -1) && columnCount == if columns == -1 then DEFAULT_COLUMNS else columns
    {
      hide MicroBitCircularBuffer.Valid, MicroBitCircularBuffer.Drained, Flatten, MicroBitCircularBuffer.Free;
      this.toFloat, this.granted := toFloat, granted;
      initialized, rowStarted, firstRowLogged, timestampEnabled := false, false, false, false;
      userSetCols := columns != -1;
      columnCount := if columns != -1 then columns else DEFAULT_COLUMNS;
      timeStampFormat := None;
      rowData := [];
      logger := new MicroBitCircularBuffer(loggerBytes, granted, toFloat);
      logStartTime := 0;
      rows := [];
      FlattenNone<Elem>();
    }

    constructor (granted: nat -> bool, toFloat: int -> Float)
      ensures this.granted == granted && this.toFloat == toFloat
      ensures Valid() && rows == [] && timestampEnabled && timeStampFormat == Milliseconds
      ensures !userSetCols && columnCount == DEFAULT_COLUMNS && logger == null
      ensures !rowStarted && !firstRowLogged && logStartTime == 0 && !initialized
    {
      this.toFloat, this.granted := toFloat, granted;
      initialized, rowStarted, firstRowLogged, userSetCols, timestampEnabled := false, false, false, false, true;
      columnCount := DEFAULT_COLUMNS;
      timeStampFormat := Milliseconds;
      rowData := [];
      logger := null;
      logStartTime := 0;
      rows := [];
    }

    method Init(now: nat)
      requires Valid()
      modifies this
      ensures Valid() && initialized && fresh(Footprint() - old(Footprint()))
      ensures old(initialized) ==> rowData == old(rowData) && logStartTime == old(logStartTime)
      ensures !old(initialized) ==> logStartTime == now && |rowData| == columnCount && forall i | 0 <= i < columnCount :: rowData[i] == LogColumnEntry("", Unset)
      ensures rows == old(rows) && columnCount == old(columnCount) && rowStarted == old(rowStarted)
      ensures firstRowLogged == old(firstRowLogged) && userSetCols == old(userSetCols)
      ensures timestampEnabled == old(timestampEnabled) && timeStampFormat == old(timeStampFormat)
      ensures if old(initialized) || old(logger) != null then logger == old(logger)
              else !logger.Drained() && logger.store.size == -1
      ensures RingState() == old(RingState())
    {
      hide MicroBitCircularBuffer.Valid, MicroBitCircularBuffer.Drained, Flatten, AllOfWidth, MicroBitCircularBuffer.Free, MicroBitCircularBuffer.Whole;
      FlattenNone<Elem>();
      if initialized {
        return;
      }
      rowData := seq(columnCount, _ => LogColumnEntry("", Unset));
      if logger == null {
        logger := new MicroBitCircularBuffer(-1, granted, toFloat);
      }
      logStartTime := now;
      initialized := true;
    }

    /** Pushes the cells of the columns in use, in order. */
    method PushCells() returns (ghost row: seq<Elem>)
      requires logger != null && logger.Valid() && !logger.Drained() && logger.toFloat == toFloat
      requires 0 <= columnCount <= |rowData| && forall i | 0 <= i < |rowData| :: rowData[i].cell.Ok()
      modifies logger.Footprint()
      ensures logger.Valid() && !logger.Drained() && fresh(logger.Footprint() - old(logger.Footprint()))
      ensures logger.pushed == old(logger.pushed) + row
      ensures row == old(ReadBacks(logger.globalType, CellsOf(rowData[..columnCount]), toFloat))
      ensures logger.globalType == old(TypesAfter(logger.globalType, CellsOf(rowData[..columnCount])))
      ensures logger.Free() == old(FreeAfter(logger.Free(), logger.globalType, CellsOf(rowData[..columnCount])))
      ensures old(logger.Filled()) || columnCount > 0 ==> logger.Filled()
    {
      hide MicroBitCircularBuffer.Valid, MicroBitCircularBuffer.Filled, MicroBitCircularBuffer.Free, TypeAfter, ReadBack, RingLayout.Width;
      row := [];
      ghost var cells := CellsOf(rowData[..columnCount]);
      assert cells[..0] == [];
      for i := 0 to columnCount
        invariant logger.Valid() && !logger.Drained() && fresh(logger.Footprint() - old(logger.Footprint()))
        invariant old(logger.Filled()) || i > 0 ==> logger.Filled()
        invariant logger.pushed == old(logger.pushed) + row
        invariant row == ReadBacks(old(logger.globalType), cells[..i], toFloat)
        invariant logger.globalType == TypesAfter(old(logger.globalType), cells[..i])
        invariant logger.Free() == FreeAfter(old(logger.Free()), old(logger.globalType), cells[..i])
      {
        ghost var e := PushCell(logger, rowData[i].cell);
        row := row + [e];
        assert cells[..i + 1][..i] == cells[..i];
      }
      assert cells[..columnCount] == cells;
    }

    /** The columns filled at the front of the row, which become the columns of the log. */
    method CountLeading() returns (count: int)
      requires 0 <= columnCount <= |rowData|
      ensures 0 <= count <= columnCount
      ensures forall i | 0 <= i < count :: rowData[i].cell != Unset
      ensures count < columnCount ==> rowData[count].cell == Unset
    {
      count := 0;
      while count < columnCount && rowData[count].cell != Unset
        invariant 0 <= count <= columnCount
        invariant forall i | 0 <= i < count :: rowData[i].cell != Unset
      {
        count := count + 1;
      }
    }

    /** The cells that a row is logged as: the time since the start, if times are kept, then those of the columns. */
    ghost function RowCells(cols: seq<LogColumnEntry>, now: nat): (cells: seq<Cell>)
      reads this
    {
      (if timestampEnabled then [Int((now - logStartTime) % 1_000_000_000)] else []) + CellsOf(cols)
    }

    /** The row begun before is logged: its time stamp, if one is kept, and its cells in column order, each as the
        promotion from the type of the ring requires. */
    twostate predicate RowLogged(now: nat)
      reads this, logger, if logger == null then {} else {logger.store}
    {
      && old(logger) != null && logger == old(logger)
      && 0 <= columnCount <= |rowData| == |old(rowData)|
      && var g, cells := old(logger.globalType), RowCells(old(rowData)[..columnCount], now);
      && rows == old(rows) + [ReadBacks(g, cells, toFloat)] && |ReadBacks(g, cells, toFloat)| == Width()
      && RingState() == (TypesAfter(g, cells), FreeAfter(old(logger.Free()), g, cells))
    }

    /** Logs the row. The first row fixes the number of columns: those filled, unless the user chose. */
    method EndRow(now: nat)
      requires Valid() && (logger != null ==> !logger.Drained()) && logStartTime <= now
      modifies Footprint()
      ensures Valid() && !rowStarted && fresh(Footprint() - old(Footprint()))
      ensures !old(rowStarted) ==> rows == old(rows) && rowData == old(rowData) && columnCount == old(columnCount)
      ensures old(rowStarted) ==> logger == old(logger) && !logger.Drained() && (Width() > 0 ==> logger.Filled())
      ensures old(rowStarted) ==> RowLogged(now) && firstRowLogged
      ensures rowData == old(rowData) && logStartTime == old(logStartTime) && initialized == old(initialized)
      ensures timestampEnabled == old(timestampEnabled) && userSetCols == old(userSetCols) && timeStampFormat == old(timeStampFormat)
      ensures old(firstRowLogged || userSetCols) ==> columnCount == old(columnCount)
      ensures old(rowStarted && !firstRowLogged && !userSetCols) ==>
                && columnCount <= old(columnCount)
                && (forall i | 0 <= i < columnCount :: rowData[i].cell != Unset)
                && (columnCount < old(columnCount) ==> rowData[columnCount].cell == Unset)
    {
      hide MicroBitCircularBuffer.Valid, MicroBitCircularBuffer.Filled, ReadBacks, FreeAfter, TypesAfter, Flatten, MicroBitCircularBuffer.Free, MicroBitCircularBuffer.Whole;
      if !rowStarted {
        return;
      }
      if !firstRowLogged {
        FixColumns();
      }
      LogCells(now);
    }

    /** With the first row the columns are fixed: those filled at its front, unless the user chose. */
    method FixColumns()
      requires Valid() && initialized && !firstRowLogged
      modifies this`columnCount, this`firstRowLogged
      ensures Valid() && firstRowLogged
      ensures if userSetCols then columnCount == old(columnCount) else
                && 0 <= columnCount <= old(columnCount)
                && (forall i | 0 <= i < columnCount :: rowData[i].cell != Unset)
                && (columnCount < old(columnCount) ==> rowData[columnCount].cell == Unset)
    {
      hide MicroBitCircularBuffer.Valid, Flatten;
      if !userSetCols {
        columnCount := CountLeading();
      }
      firstRowLogged := true;
    }

    /** Pushes the time since the start, if times are kept. */
    method PushTime(now: nat) returns (ghost stamp: seq<Elem>)
      requires logger != null && logger.Valid() && !logger.Drained() && logger.toFloat == toFloat && logStartTime <= now
      modifies logger.Footprint()
      ensures logger.Valid() && !logger.Drained() && fresh(logger.Footprint() - old(logger.Footprint()))
      ensures logger.pushed == old(logger.pushed) + stamp
      ensures stamp == old(ReadBacks(logger.globalType, RowCells([], now), toFloat))
      ensures logger.globalType == old(TypesAfter(logger.globalType, RowCells([], now)))
      ensures logger.Free() == old(FreeAfter(logger.Free(), logger.globalType, RowCells([], now)))
      ensures timestampEnabled || old(logger.Filled()) ==> logger.Filled()
    {
      hide MicroBitCircularBuffer.Valid, MicroBitCircularBuffer.Filled, MicroBitCircularBuffer.Free, TypeAfter, ReadBack, RingLayout.Width;
      stamp := [];
      if timestampEnabled {
        var msTime := (now - logStartTime) % 1_000_000_000;
        ghost var e := PushCell(logger, Int(msTime));
        stamp := [e];
        assert RowCells([], now) == [Int(msTime)] && [Int(msTime)][..0] == [];
      } else {
        assert RowCells([], now) == [];
      }
    }

    method LogCells(now: nat)
      requires Valid() && rowStarted && firstRowLogged && !logger.Drained() && logStartTime <= now
      modifies logger.Footprint(), this`rows, this`rowStarted
      ensures Valid() && !rowStarted && fresh(Footprint() - old(Footprint()))
      ensures RowLogged(now) && !logger.Drained() && (Width() > 0 ==> logger.Filled())
    {
      hide MicroBitCircularBuffer.Valid, MicroBitCircularBuffer.Filled, MicroBitCircularBuffer.Free, Flatten, AllOfWidth, TypesAfter, ReadBacks, FreeAfter;
      ghost var g, free, cols := logger.globalType, logger.Free(), CellsOf(rowData[..columnCount]);
      ghost var stamp := PushTime(now);
      ghost var cells := PushCells();
      LoggedTogether(g, free, RowCells([], now), cols, toFloat);
      assert RowCells([], now) + cols == RowCells(rowData[..columnCount], now);
      FlattenAppend(rows, stamp + cells);
      WidthKept(rows, stamp + cells, Width());
      rows := rows + [stamp + cells];
      rowStarted := false;
    }

    /** Starts a row, after ending the one in progress. */
    method BeginRow(now: nat)
      requires Valid() && (logger != null ==> !logger.Drained()) && logStartTime <= now
      modifies Footprint()
      ensures Valid() && initialized && rowStarted && fresh(Footprint() - old(Footprint()))
      ensures !logger.Drained() && logStartTime <= now && logStartTime == if old(initialized) then old(logStartTime) else now
      ensures if old(rowStarted) then RowLogged(now) && firstRowLogged
              else rows == old(rows) && Columns() == old(OpenRow()) && firstRowLogged == old(firstRowLogged)
                   && RingState() == old(RingState())
      ensures forall i | 0 <= i < columnCount :: rowData[i].cell == Unset
      ensures userSetCols == old(userSetCols) && timestampEnabled == old(timestampEnabled) && timeStampFormat == old(timeStampFormat)
    {
      hide MicroBitCircularBuffer.Valid, MicroBitCircularBuffer.Filled, ReadBacks, FreeAfter, TypesAfter, Flatten, FindColumn, AllOfWidth, MicroBitCircularBuffer.Free, MicroBitCircularBuffer.Whole;
      Init(now);
      if rowStarted {
        EndRow(now);
      }
      BlankRow();
    }

    method BlankRow()
      requires Valid() && initialized
      modifies this`rowData, this`rowStarted
      ensures Valid() && rowStarted && |rowData| == |old(rowData)|
      ensures Columns() == Blanked(old(Columns()))
      ensures forall i | 0 <= i < columnCount :: rowData[i].cell == Unset
    {
      hide MicroBitCircularBuffer.Valid, Flatten, AllOfWidth, MicroBitCircularBuffer.Free, MicroBitCircularBuffer.Whole;
      rowData := Blanked(rowData[..columnCount]) + rowData[columnCount..];
      rowStarted := true;
    }

    /** The columns in use, in order. */
    function Columns(): seq<LogColumnEntry>
      reads this
      requires 0 <= columnCount <= |rowData|
    {
      rowData[..columnCount]
    }

    /** The columns of the row in progress, or of the one that would be begun. */
    ghost function OpenRow(): seq<LogColumnEntry>
      reads this
      requires 0 <= columnCount && (initialized ==> columnCount <= |rowData|) && (rowStarted ==> initialized)
    {
      if rowStarted then Columns()
      else if initialized then Blanked(Columns())
      else seq(columnCount, _ => LogColumnEntry("", Unset))
    }

    /** Stores a value under a key in the current row, beginning one if necessary. */
    method StoreValue(key: string, cell: Cell, now: nat)
      requires Valid() && cell.Ok() && cell != Unset && (logger != null ==> !logger.Drained()) && logStartTime <= now
      modifies Footprint()
      ensures Valid() && initialized && rowStarted && fresh(Footprint() - old(Footprint()))
      ensures !logger.Drained() && rows == old(rows) && firstRowLogged == old(firstRowLogged)
      ensures Columns() == old(WithValue(OpenRow(), key, cell, firstRowLogged || userSetCols))
      ensures RingState() == old(RingState())
      ensures logStartTime <= now && logStartTime == if old(initialized) then old(logStartTime) else now
      ensures userSetCols == old(userSetCols) && timestampEnabled == old(timestampEnabled) && timeStampFormat == old(timeStampFormat)
    {
      hide MicroBitCircularBuffer.Valid, MicroBitCircularBuffer.Drained, MicroBitCircularBuffer.Filled, Flatten, AllOfWidth, ReadBacks, FreeAfter, TypesAfter, MicroBitCircularBuffer.Free, MicroBitCircularBuffer.Whole, WithValue;
      ghost var open := OpenRow();
      Init(now);
      if !rowStarted {
        BeginRow(now);
      }
      assert Columns() == open;
      PlaceValue(key, cell);
    }

    method PlaceValue(key: string, cell: Cell)
      requires Valid() && initialized && cell.Ok()
      modifies this`rowData, this`columnCount
      ensures Valid() && Columns() == WithValue(old(Columns()), key, cell, firstRowLogged || userSetCols)
    {
      hide MicroBitCircularBuffer.Valid, Flatten, MicroBitCircularBuffer.Free, MicroBitCircularBuffer.Whole;
      ghost var cols := Columns();
      var i := FindColumn(rowData[..columnCount], key);
      if i < columnCount {
        rowData := rowData[i := LogColumnEntry(key, cell)];
        assert Columns() == cols[i := LogColumnEntry(key, cell)];
      } else if !firstRowLogged && !userSetCols {
        rowData := rowData[..columnCount] + [LogColumnEntry(key, cell)] + seq(4, _ => LogColumnEntry("", Unset));
        columnCount := columnCount + 5;
      }
    }

    /** The format can always change; whether a time is kept per row only until the first row is logged. */
    method SetTimeStamp(format: TimeStampFormat, now: nat)
      requires Valid()
      modifies this
      ensures Valid() && initialized && rows == old(rows) && firstRowLogged == old(firstRowLogged)
      ensures var ignored := (old(timeStampFormat) == format == None) || (!old(timestampEnabled) && firstRowLogged);
              if ignored then timeStampFormat == old(timeStampFormat) && timestampEnabled == old(timestampEnabled)
              else timeStampFormat == format && timestampEnabled == (format != None || firstRowLogged)
      ensures columnCount == old(columnCount) && rowStarted == old(rowStarted) && userSetCols == old(userSetCols)
      ensures old(firstRowLogged) ==> Width() == old(Width())
      ensures if old(initialized) || old(logger) != null then logger == old(logger)
              else !logger.Drained() && logger.store.size == -1
      ensures RingState() == old(RingState())
    {
      hide MicroBitCircularBuffer.Valid, Flatten, MicroBitCircularBuffer.Free, MicroBitCircularBuffer.Whole;
      Init(now);
      if timeStampFormat == format && timeStampFormat == None {
        return;
      }
      if !timestampEnabled {
        if firstRowLogged {
          return;
        }
        timestampEnabled := true;
      }
      timeStampFormat := format;
      if format == None {
        if !firstRowLogged {
          timestampEnabled := false;
        }
      }
    }

    // -------------------------------------------------------------- saving

    /** A logged row under the headings of the columns. */
    ghost function SavedAs(row: seq<Elem>): SavedRow
      reads this
      requires 0 <= columnCount <= |rowData| && |row| == Width()
    {
      var time := if timestampEnabled && timeStampFormat != None then row[0] else NoElem;
      SavedRow(time, UnderHeadings(rowData[..columnCount], if timestampEnabled then row[1..] else row))
    }

    /** Removes the given number of oldest cells. */
    method DropCells(n: nat)
      requires logger != null && logger.Valid() && n <= |logger.Contents()|
      modifies logger`typeMetas
      ensures logger.Valid() && logger.Contents() == old(logger.Contents())[n..]
    {
      hide MicroBitCircularBuffer.RingValid, MicroBitCircularBuffer.Contents, MicroBitCircularBuffer.Free, MicroBitCircularBuffer.Whole;
      for i := 0 to n
        invariant logger.Valid() && logger.Contents() == old(logger.Contents())[i..]
      {
        var _ := logger.Pop();
      }
    }

    /** Takes the cells of one row off the ring and puts them under the headings. */
    method SaveRow(ghost row: seq<Elem>, ghost rest: seq<Elem>) returns (saved: SavedRow)
      requires logger != null && logger.Valid() && 0 <= columnCount <= |rowData|
      requires |row| == Width() && logger.Contents() == row + rest
      modifies logger`typeMetas
      ensures logger.Valid() && logger.Contents() == rest
      ensures saved == SavedAs(row)
    {
      hide MicroBitCircularBuffer.RingValid, MicroBitCircularBuffer.Contents, MicroBitCircularBuffer.Free, MicroBitCircularBuffer.Whole;
      var time := NoElem;
      ghost var at := if timestampEnabled then 1 else 0;
      if timestampEnabled {
        var elem := logger.Pop();
        if timeStampFormat != None {
          time := elem;
        }
      }
      var cells: seq<(string, Elem)> := [];
      for cell := 0 to columnCount
        invariant logger.Valid() && logger.Contents() == (row + rest)[at + cell..]
        invariant |cells| == cell && forall i | 0 <= i < cell :: cells[i] == (rowData[i].key, row[at + i])
      {
        var elem := logger.Pop();
        cells := cells + [(rowData[cell].key, elem)];
      }
      saved := SavedRow(time, cells);
      assert cells == UnderHeadings(rowData[..columnCount], row[at..]);
    }

    /** The logged rows from the k-th on, as they are saved. */
    ghost function SavedFrom(k: nat): (saved: seq<SavedRow>)
      reads this
      requires 0 <= columnCount <= |rowData| && AllOfWidth(rows, Width())
      ensures |saved| == if k < |rows| then |rows| - k else 0
      ensures forall j | 0 <= j < |saved| :: saved[j] == SavedAs(rows[k + j])
      decreases |rows| - k
    {
      if k >= |rows| then [] else [SavedAs(rows[k])] + SavedFrom(k + 1)
    }

    /** As long as nothing has been lost, the ring holds all the rows. */
    lemma NothingLost()
      requires Valid() && initialized && RingState().1 >= 0 && Width() > 0
      ensures |logger.Contents()| == |rows| * Width() && |logger.Contents()| / Width() == |rows|
      ensures |logger.Contents()| == 0 <==> rows == []
    {
      hide MicroBitCircularBuffer.Contents, MicroBitCircularBuffer.Slots;
      FlattenLength(rows, Width());
      logger.SlotCount();
      QuotientOf(|rows|, Width());
    }

    /** The rows that the ring holds whole, as they are saved. */
    ghost function Pending(): (saved: seq<SavedRow>)
      reads this, logger, if logger == null then {} else {logger.store}, if logger == null then [] else logger.store.dataBuffers
      requires Valid()
      ensures forall i, k | 0 <= i < |saved| && 0 <= k < |saved[i].cells| ::
                |saved[i].cells| == columnCount <= |rowData| && saved[i].cells[k].0 == rowData[k].key
      ensures forall i | 0 <= i < |saved| :: |saved[i].cells| == columnCount
    {
      hide MicroBitCircularBuffer.RingValid, MicroBitCircularBuffer.Contents, MicroBitCircularBuffer.Newest, Flatten;
      if !initialized || Width() == 0 then []
      else
        var n := |logger.Contents()| / Width();
        if n > |rows| then [] else SavedFrom(|rows| - n)
    }

    /** There are cells to save and no columns to divide them into. */
    ghost predicate NoColumns()
      reads this, logger, if logger == null then {} else {logger.store}, if logger == null then [] else logger.store.dataBuffers
      requires Valid()
    {
      initialized && logger.Filled() && columnCount == 0
    }

    /** Writes out the rows the ring still holds whole, oldest first: exactly the newest rows logged. The number of cells
        is divided by the number of columns, which is defined if and only if there are any. */
    method SaveLog() returns (divides: bool, saved: seq<SavedRow>)
      requires Valid()
      modifies if logger == null then {} else {logger}
      ensures Valid() && divides == !old(NoColumns())
      ensures !divides ==> saved == [] && logger.Contents() == old(logger.Contents())
      ensures divides ==> saved == old(Pending())
      ensures divides ==>
              if !initialized then saved == [] else
                && logger.Contents() == []
                && |saved| == (if old(logger.Contents()) == [] then 0 else |old(logger.Contents())| / Width())
                && |saved| <= |rows|
                && forall j | 0 <= j < |saved| :: saved[j] == SavedAs(rows[|rows| - |saved| + j])
    {
      hide MicroBitCircularBuffer.RingValid, MicroBitCircularBuffer.Contents, Flatten, AllOfWidth, SavedAs, MicroBitCircularBuffer.Free, MicroBitCircularBuffer.Whole;
      divides, saved := true, [];
      if !initialized {
        return;
      }
      var entries := logger.Count();
      if entries == 0 {
        return;
      }
      if columnCount == 0 {
        // a remainder by zero
        return false, saved;
      }
      var extraCells := entries % columnCount;
      if timestampEnabled {
        extraCells := entries % (columnCount + 1);
      }
      ghost var w := Width();
      WholeRowsRemain(rows, w, logger.Contents());
      RemainderBound(entries, w);
      ghost var k := |rows| - entries / w;
      DropCells(extraCells);
      saved := SaveRows(k);
    }

    /** Saves row after row until the ring is empty. */
    method SaveRows(ghost k: nat) returns (saved: seq<SavedRow>)
      requires Valid() && initialized && k <= |rows| && logger.Contents() == Flatten(rows[k..]) && Width() > 0
      modifies logger
      ensures Valid() && logger.Contents() == []
      ensures |saved| == |rows| - k && forall j | 0 <= j < |saved| :: saved[j] == SavedAs(rows[k + j])
    {
      hide MicroBitCircularBuffer.RingValid, MicroBitCircularBuffer.Contents, SavedAs, MicroBitCircularBuffer.Free, MicroBitCircularBuffer.Whole;
      saved := [];
      var left := logger.Count();
      while left != 0
        invariant Valid() && left == |logger.Contents()|
        invariant k + |saved| <= |rows|
        invariant logger.Contents() == Flatten(rows[k + |saved|..])
        invariant forall j | 0 <= j < |saved| :: saved[j] == SavedAs(rows[k + j])
        decreases left
      {
        ghost var n := k + |saved|;
        var row := SaveRow(rows[n], Flatten(rows[n + 1..]));
        saved := saved + [row];
        left := logger.Count();
      }
      FlattenLength(rows[k + |saved|..], Width());
    }
  }

  lemma NoneSet(cols: seq<LogColumnEntry>, n: int)
    requires 0 <= n <= |cols| && forall i | 0 <= i < n :: cols[i].cell != Unset
    requires |cols| > 0 ==> cols[0].cell == Unset
    ensures n == 0
  {
  }

  /** A run that has cells and no columns: a row without a value, logged with its time. */
  method LogEmptyRow(granted: nat -> bool, toFloat: int -> Float, now: nat, later: nat) returns (log: MicroBitFastLog, divides: bool)
    requires now <= later
    ensures log.Valid() && !divides
  {
    hide MicroBitCircularBuffer.Valid, MicroBitCircularBuffer.Filled, Flatten, AllOfWidth, ReadBacks, FreeAfter, TypesAfter;
    log := new MicroBitFastLog(granted, toFloat);
    log.BeginRow(now);
    ghost var cells := log.rowData;
    log.EndRow(later);
    NoneSet(cells, log.columnCount);
    var d, _ := log.SaveLog();
    divides := d;
  }
}
