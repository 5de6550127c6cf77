/** Rows of the log: lines of comma-separated cells, and where each line of a text lies. */
module LogRows {
  import opened NorFlash
  import opened LogText

  // ---------------------------------------------------------------- one line

  /** The cells, separated by commas and ended by a newline. */
  function Line(cells: seq<seq<Byte>>): (line: seq<Byte>)
    ensures line != []
  {
    if cells == [] then [NEWLINE]
    else if |cells| == 1 then cells[0] + [NEWLINE]
    else cells[0] + [COMMA] + Line(cells[1..])
  }

  predicate EndsCell(c: Byte) {
    c == COMMA || c == NEWLINE
  }

  /** The pieces of a text that end in a comma or newline, the first one preceded by `cell`. */
  function Fields(text: seq<Byte>, cell: seq<Byte>): seq<seq<Byte>> {
    if text == [] then []
    else if EndsCell(text[0]) then [cell] + Fields(text[1..], [])
    else Fields(text[1..], cell + [text[0]])
  }

  lemma {:induction false} FieldsSkip(a: seq<Byte>, rest: seq<Byte>, cell: seq<Byte>)
    requires forall i | 0 <= i < |a| :: !EndsCell(a[i])
    ensures Fields(a + rest, cell) == Fields(rest, cell + a)
    decreases |a|
  {
    if a == [] {
      assert a + rest == rest && cell + a == cell;
    } else {
      assert (a + rest)[1..] == a[1..] + rest;
      FieldsSkip(a[1..], rest, cell + [a[0]]);
      assert cell + [a[0]] + a[1..] == cell + a;
    }
  }

  lemma FirstField(a: seq<Byte>, c: Byte, rest: seq<Byte>)
    requires (forall i | 0 <= i < |a| :: !EndsCell(a[i])) && EndsCell(c)
    ensures Fields(a + [c] + rest, []) == [a] + Fields(rest, [])
  {
    FieldsSkip(a, [c] + rest, []);
    assert a + [c] + rest == a + ([c] + rest) && [] + a == a && ([c] + rest)[1..] == rest;
  }

  /** No separator, tab, string end or unused byte, and no end of a comment. */
  ghost predicate Clean(cell: seq<Byte>) {
    && (forall i | 0 <= i < |cell| :: !Separator(cell[i], true) && cell[i] != NUL)
    && forall i :: !ArrowAt(cell, i)
  }

  ghost predicate AllClean(cells: seq<seq<Byte>>) {
    forall i | 0 <= i < |cells| :: Clean(cells[i])
  }

  /** Clean cells can be read back from their line. */
  lemma {:induction false} LineReadsBack(cells: seq<seq<Byte>>)
    requires cells != [] && AllClean(cells)
    ensures Fields(Line(cells), []) == cells
  {
    assert Clean(cells[0]);
    if |cells| == 1 {
      FirstField(cells[0], NEWLINE, []);
      assert cells[0] + [NEWLINE] + [] == cells[0] + [NEWLINE];
    } else {
      LineReadsBack(cells[1..]);
      FirstField(cells[0], COMMA, Line(cells[1..]));
    }
  }

  /** A line of clean cells is stored as it is, and holds one newline, its last byte. */
  lemma {:induction false} LineIsClean(cells: seq<seq<Byte>>)
    requires AllClean(cells)
    ensures Cleaned(Line(cells), false) == Line(cells) && NUL !in Line(cells)
    ensures Line(cells)[|Line(cells)| - 1] == NEWLINE
    ensures forall i | 0 <= i < |Line(cells)| - 1 :: Line(cells)[i] != NEWLINE
  {
    LineHasNoMarks(cells);
  }

  lemma {:induction false} LineHasNoMarks(cells: seq<seq<Byte>>)
    requires AllClean(cells)
    ensures var line := Line(cells);
            && (forall i :: !ArrowAt(line, i))
            && (forall i | 0 <= i < |line| :: line[i] != TAB && line[i] != NUL && (line[i] == NEWLINE ==> i == |line| - 1))
            && line[|line| - 1] == NEWLINE
  {
    if cells == [] {
    } else {
      var a, line := cells[0], Line(cells);
      assert Clean(a);
      if |cells| > 1 {
        var rest := Line(cells[1..]);
        LineHasNoMarks(cells[1..]);
        forall i ensures !ArrowAt(line, i) {
          assert !ArrowAt(a, i) && !ArrowAt(rest, i - |a| - 1) && line[|a|] == COMMA;
        }
        forall i | |a| < i < |line|
          ensures line[i] != TAB && line[i] != NUL && (line[i] == NEWLINE ==> i == |line| - 1) {
          assert line[i] == rest[i - |a| - 1];
        }
      } else {
        forall i ensures !ArrowAt(line, i) {
          assert !ArrowAt(a, i);
        }
      }
    }
  }

  /** Unused bytes occur in a line only if they occur in a cell. */
  lemma {:induction false} LineBytes(cells: seq<seq<Byte>>, c: Byte)
    requires c != COMMA && c != NEWLINE && forall i | 0 <= i < |cells| :: c !in cells[i]
    ensures c !in Line(cells)
  {
    if |cells| <= 1 {
    } else {
      LineBytes(cells[1..], c);
    }
  }

  /** Builds the line of the cells. */
  method WriteLine(cells: seq<seq<Byte>>) returns (row: seq<Byte>)
    ensures row == Line(cells)
  {
    row := [];
    for i := 0 to |cells|
      invariant i < |cells| ==> row + Line(cells[i..]) == Line(cells)
      invariant i == |cells| ==> row + [NEWLINE] == Line(cells)
    {
      ghost var before := row;
      row := row + cells[i];
      if i + 1 != |cells| {
        row := row + [COMMA];
        assert row + Line(cells[i + 1..]) == before + Line(cells[i..]);
      } else {
        assert row + [NEWLINE] == before + Line(cells[i..]);
      }
    }
    row := row + [NEWLINE];
  }

  /** Reads a line of headings: each separator becomes the end of a string, and as many strings are taken. */
  method ParseHeadings(line: seq<Byte>) returns (keys: seq<seq<Byte>>)
    requires NUL !in line
    ensures keys == Fields(line, [])
  {
    hide Fields;
    var headers, headingCount := TerminateCells(line);
    assert line[0..] == line;
    keys := [];
    var i: nat := 0;
    for h := 0 to headingCount
      invariant i <= |line| && keys + Fields(line[i..], []) == Fields(line, [])
      invariant |keys| == h
    {
      FieldsNonEmpty(line[i..], []);
      var n := CString(headers, i, line);
      assert line[i..] == line[i..i + n] + [line[i + n]] + line[i + n + 1..];
      FirstField(line[i..i + n], line[i + n], line[i + n + 1..]);
      assert headers[i..i + n] == line[i..i + n];
      keys := keys + [headers[i..i + n]];
      i := i + n + 1;
    }
    assert |Fields(line[i..], [])| == 0;
  }

  /** Replaces and counts the separators. */
  method TerminateCells(line: seq<Byte>) returns (headers: seq<Byte>, headingCount: nat)
    ensures |headers| == |line|
    ensures forall j | 0 <= j < |line| :: headers[j] == if EndsCell(line[j]) then NUL else line[j]
    ensures headingCount == |Fields(line, [])|
  {
    hide Fields;
    headers, headingCount := line, 0;
    CountNone();
    for i := 0 to |line|
      invariant |headers| == |line|
      invariant forall j | 0 <= j < |line| :: headers[j] == if j < i && EndsCell(line[j]) then NUL else line[j]
      invariant headingCount == |Fields(line[..i], [])|
    {
      CountSnoc(line[..i], line[i], []);
      assert line[..i + 1] == line[..i] + [line[i]];
      if headers[i] == COMMA || headers[i] == NEWLINE {
        headers := headers[i := NUL];
        headingCount := headingCount + 1;
      }
    }
    assert line[..|line|] == line;
  }

  lemma CountNone()
    ensures Fields([], []) == []
  {
  }

  /** The length of the string that starts at i. */
  method CString(headers: seq<Byte>, i: nat, ghost line: seq<Byte>) returns (n: nat)
    requires i < |headers| == |line| && NUL !in line
    requires forall j | 0 <= j < |line| :: headers[j] == if EndsCell(line[j]) then NUL else line[j]
    requires exists j | i <= j < |line| :: EndsCell(line[j])
    ensures i + n < |line| && EndsCell(line[i + n])
    ensures forall j | i <= j < i + n :: !EndsCell(line[j]) && headers[j] == line[j]
  {
    n := 0;
    while headers[i + n] != NUL
      invariant i + n < |headers|
      invariant forall j | i <= j < i + n :: !EndsCell(line[j])
      invariant exists j | i + n <= j < |line| :: EndsCell(line[j])
      decreases |headers| - n
    {
      n := n + 1;
    }
  }

  lemma {:induction false} FieldsNonEmpty(text: seq<Byte>, cell: seq<Byte>)
    ensures Fields(text, cell) != [] <==> exists j | 0 <= j < |text| :: EndsCell(text[j])
    decreases |text|
  {
    if text != [] && !EndsCell(text[0]) {
      FieldsNonEmpty(text[1..], cell + [text[0]]);
      if j :| 0 <= j < |text| && EndsCell(text[j]) {
        assert text[1..][j - 1] == text[j];
      }
    }
  }

  lemma {:induction false} CountSnoc(text: seq<Byte>, c: Byte, cell: seq<Byte>)
    ensures |Fields(text + [c], cell)| == |Fields(text, cell)| + if EndsCell(c) then 1 else 0
    decreases |text|
  {
    if text == [] {
      assert (text + [c])[1..] == [];
    } else {
      assert (text + [c])[1..] == text[1..] + [c];
      CountSnoc(text[1..], c, if EndsCell(text[0]) then [] else cell + [text[0]]);
    }
  }

  // ---------------------------------------------------------------- the lines of a text

  /** Rows without their newlines. */
  function Lines(rows: seq<seq<Byte>>): seq<Byte> {
    if rows == [] then [] else Lines(rows[..|rows| - 1]) + rows[|rows| - 1] + [NEWLINE]
  }

  /** Where row k starts. */
  function Start(rows: seq<seq<Byte>>, k: nat): nat
    requires k <= |rows|
  {
    |Lines(rows[..k])|
  }

  ghost predicate RowText(rows: seq<seq<Byte>>) {
    forall k | 0 <= k < |rows| :: NEWLINE !in rows[k] && ERASED !in rows[k]
  }

  /** Row k and its newline, at their place in the text. */
  lemma {:induction false} RowPlace(rows: seq<seq<Byte>>, k: nat)
    requires k < |rows|
    ensures Start(rows, k + 1) == Start(rows, k) + |rows[k]| + 1 <= |Lines(rows)|
    ensures Lines(rows)[Start(rows, k)..Start(rows, k + 1)] == rows[k] + [NEWLINE]
    decreases |rows|
  {
    var n := |rows| - 1;
    assert rows[..k + 1][..k] == rows[..k] && rows[..k + 1][k] == rows[k];
    if k == n {
      assert rows[..n + 1] == rows;
    } else {
      RowPlace(rows[..n], k);
      assert rows[..n][..k] == rows[..k] && rows[..n][..k + 1] == rows[..k + 1];
      var lo, hi := Start(rows, k), Start(rows, k + 1);
      assert Lines(rows) == Lines(rows[..n]) + (rows[n] + [NEWLINE]);
      assert Lines(rows)[lo..hi] == Lines(rows[..n])[lo..hi];
    }
  }

  /** Within row k the only newline is its end. */
  lemma RowChar(rows: seq<seq<Byte>>, k: nat, p: nat)
    requires RowText(rows) && k < |rows| && Start(rows, k) <= p < Start(rows, k + 1)
    ensures p < |Lines(rows)| && Lines(rows)[p] != ERASED
    ensures Lines(rows)[p] == NEWLINE <==> p == Start(rows, k + 1) - 1
  {
    RowPlace(rows, k);
    var row := rows[k] + [NEWLINE];
    assert Lines(rows)[p] == Lines(rows)[Start(rows, k)..Start(rows, k + 1)][p - Start(rows, k)] == row[p - Start(rows, k)];
    assert p < Start(rows, k + 1) - 1 ==> row[p - Start(rows, k)] == rows[k][p - Start(rows, k)] && rows[k][p - Start(rows, k)] in rows[k];
  }

  /** What a lookup of a row returns: the row for each index from 0 on and, counting from the end, for each negative one
      but the last. Indices just above the number of rows start again at the first. */
  function RowFor(rows: seq<seq<Byte>>, index: int): seq<Byte> {
    var n := |rows|;
    if 0 <= index < n then rows[index]
    else if n <= index < 2 * n then rows[index - n]
    else if -n < index < 0 then rows[n + index]
    else []
  }

  /** The index that is scanned for: from the end, if that is nearer. */
  function Nearer(index: int, n: nat): int {
    if index > 0 && -(index - n) < index then index - n else index
  }

  lemma RowForNearer(rows: seq<seq<Byte>>, index: int)
    ensures var from, n := Nearer(index, |rows|), |rows|;
            RowFor(rows, index) == if -n < from < 0 then rows[n + from] else if 0 <= from < n then rows[from] else []
  {
  }

  /** For an index that a caller may expect to work: the rows from the first, or from the last backwards. */
  lemma RowForInRange(rows: seq<seq<Byte>>, index: int)
    ensures 0 <= index < |rows| ==> RowFor(rows, index) == rows[index]
    ensures -|rows| < index < 0 ==> RowFor(rows, index) == rows[|rows| + index]
    ensures |rows| <= index < 2 * |rows| ==> RowFor(rows, index) == rows[index - |rows|]
    ensures index >= 2 * |rows| || index <= -|rows| ==> RowFor(rows, index) == []
  {
  }

  /** A position between the ends of rows k - 1 and k: either it ends row k - 1, or it lies within row k. */
  lemma BackStep(rows: seq<seq<Byte>>, k: nat, q: nat)
    requires RowText(rows) && k <= |rows| && q < |Lines(rows)|
    requires Start(rows, k) - 1 <= q && (k < |rows| ==> q < Start(rows, k + 1) - 1)
    ensures Lines(rows)[q] == NEWLINE <==> q == Start(rows, k) - 1
    ensures q == Start(rows, k) - 1 ==> k > 0 && Start(rows, k - 1) < Start(rows, k)
  {
    StartLast(rows);
    if q >= Start(rows, k) {
      RowChar(rows, k, q);
    } else if k > 0 {
      RowPlace(rows, k - 1);
      RowChar(rows, k - 1, q);
    }
  }

  lemma RowSlice(rows: seq<seq<Byte>>, k: nat)
    requires k < |rows|
    ensures Start(rows, k) <= Start(rows, k + 1) - 1 <= |Lines(rows)|
    ensures Lines(rows)[Start(rows, k)..Start(rows, k + 1) - 1] == rows[k]
  {
    RowPlace(rows, k);
    var lo, hi := Start(rows, k), Start(rows, k + 1);
    assert Lines(rows)[lo..hi][..hi - 1 - lo] == Lines(rows)[lo..hi - 1];
  }

  lemma {:induction false} StartGrows(rows: seq<seq<Byte>>, k: nat)
    requires k <= |rows|
    ensures Start(rows, k) >= k
  {
    if k == 0 {
    } else {
      StartGrows(rows, k - 1);
      RowPlace(rows, k - 1);
    }
  }

  lemma StartLast(rows: seq<seq<Byte>>)
    ensures Start(rows, |rows|) == |Lines(rows)| && Start(rows, 0) == 0
  {
    assert rows[..|rows|] == rows;
  }

  lemma {:induction false} TextIsLonger(rows: seq<seq<Byte>>)
    ensures |Lines(rows)| == 0 <==> rows == []
  {
  }
}
