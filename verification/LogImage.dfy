/** What the log keeps on flash: a header, metadata, headings, a journal with one live entry, and the text. */
module LogImage {
  import opened NorFlash
  import opened Blocks
  import opened LogText
  import opened LogRows

  const HEADER_SIZE: nat := 2048
  const METADATA_SIZE: nat := 2048
  const JOURNAL_SIZE: nat := 4096
  const CACHE_BLOCK: nat := 256
  const JOURNAL_ENTRY: nat := 8

  const START_ADDRESS: nat := HEADER_SIZE
  const JOURNAL_START: nat := START_ADDRESS + METADATA_SIZE
  const DATA_START: nat := JOURNAL_START + JOURNAL_SIZE

  /** "UBIT_LOG_FS_V_002\n"; only the first fourteen characters are compared. */
  const VERSION: seq<Byte> := [0x55, 0x42, 0x49, 0x54, 0x5F, 0x4C, 0x4F, 0x47, 0x5F, 0x46, 0x53, 0x5F, 0x56, 0x5F, 0x30, 0x30, 0x32, 0x0A]

  /** Version, end of the log, start of the data and interface version. */
  const META_LENGTH: nat := 18 + 11 + 11 + 5
  const HEADINGS_START: nat := START_ADDRESS + META_LENGTH

  /** Devices the log can live on: whole pages, each of whole cache blocks and dividing the journal, with room for
      at least one page of data, and no larger than the flash manager allows. */
  predicate Geometry(ps: nat, size: nat) {
    && 0 < ps && Offset(ps, CACHE_BLOCK) == 0 && Offset(JOURNAL_SIZE, ps) == 0
    && Offset(size, ps) == 0
    && DATA_START + ps <= size <= 0x1F000
  }

  function LogEnd(size: nat): int { size - 4 }

  /** The address behind the page that dataEnd lies in. */
  function PageEnd(dataEnd: nat, ps: nat): nat
    requires ps > 0
  {
    Floor(dataEnd, ps) + ps
  }

  // ---------------------------------------------------------------- metadata

  /** A number as "0x" and eight digits, ended by a NUL. */
  function Field(n: nat): (s: seq<Byte>)
    ensures |s| == 11
  {
    [ZERO, LOWER_X] + Hex(n, 8) + [NUL]
  }

  function Metadata(logEnd: nat, dataStart: nat, daplinkVersion: seq<Byte>): (s: seq<Byte>)
    ensures |s| == 40 + |daplinkVersion|
  {
    VERSION + Field(logEnd) + Field(dataStart) + daplinkVersion
  }

  ghost predicate HasMetadata(mem: seq<Byte>) {
    && DATA_START <= |mem|
    && mem[START_ADDRESS..START_ADDRESS + 18] == VERSION
    && mem[START_ADDRESS + 18..START_ADDRESS + 29] == Field(LogEnd(|mem|))
    && mem[START_ADDRESS + 29..START_ADDRESS + 40] == Field(DATA_START)
  }

  /** Whether the metadata name a log that this flash can hold. */
  predicate Present(mem: seq<Byte>, ps: nat)
    requires DATA_START <= |mem|
  {
    var dataStart := StrToUl(mem[START_ADDRESS + 29..START_ADDRESS + 39] + [NUL]);
    var logEnd := StrToUl(mem[START_ADDRESS + 18..START_ADDRESS + 28] + [NUL]);
    JOURNAL_START + ps <= dataStart < logEnd < |mem| && mem[START_ADDRESS..START_ADDRESS + 14] == VERSION[..14]
  }

  /** The metadata that a clear writes are accepted, and name the start of the data and the end of the log. */
  lemma MetadataAccepted(mem: seq<Byte>, ps: nat)
    requires Geometry(ps, |mem|) && HasMetadata(mem)
    ensures StrToUl(mem[START_ADDRESS + 29..START_ADDRESS + 39] + [NUL]) == DATA_START
    ensures StrToUl(mem[START_ADDRESS + 18..START_ADDRESS + 28] + [NUL]) == LogEnd(|mem|)
    ensures Present(mem, ps)
  {
    hide StrToUl, Field, Hex, Offset;
    StoredField(mem, START_ADDRESS + 29, DATA_START);
    StoredField(mem, START_ADDRESS + 18, LogEnd(|mem|));
    SliceOfSlice(mem, START_ADDRESS, START_ADDRESS + 18, 0, 14);
    OffsetOfSelf(ps);
    MultiplesApart(0, JOURNAL_SIZE, ps);
    PageIsWide(ps);
  }

  /** A number is read back from its field, whose last byte is overwritten with a NUL when it is read. */
  lemma StoredField(mem: seq<Byte>, at: nat, n: nat)
    requires at + 11 <= |mem| && mem[at..at + 11] == Field(n) && n < 0x1_0000_0000
    ensures StrToUl(mem[at..at + 10] + [NUL]) == n
  {
    hide StrToUl, Hex;
    HexRoundTrip(n);
    SliceOfSlice(mem, at, at + 11, 0, 10);
    assert Field(n)[10] == NUL;
    assert mem[at..at + 10] + [NUL] == Field(n);
  }

  // ---------------------------------------------------------------- headings

  function HeadingLine(keys: seq<seq<Byte>>): seq<Byte> {
    if keys == [] then [] else Line(keys)
  }

  /** Headings can be told from one another and from unused flash. */
  ghost predicate Printable(keys: seq<seq<Byte>>) {
    AllClean(keys) && forall i | 0 <= i < |keys| :: ERASED !in keys[i]
  }

  /** The live line of headings lies behind zeros and before unused bytes. */
  ghost predicate HasHeadings(mem: seq<Byte>, start: nat, line: seq<Byte>) {
    && DATA_START <= |mem|
    && HEADINGS_START <= start && start + |line| < JOURNAL_START
    && (forall i | HEADINGS_START <= i < start :: mem[i] == NUL)
    && mem[start..start + |line|] == line
    && AllErased(mem, start + |line|, JOURNAL_START)
  }

  // ---------------------------------------------------------------- journal

  function JournalOffset(dataEnd: nat): (offset: nat)
    requires DATA_START <= dataEnd
    ensures offset <= dataEnd - DATA_START
  {
    ((dataEnd - DATA_START) / CACHE_BLOCK) * CACHE_BLOCK
  }

  /** Spent entries are zero, the head gives the block of the end of the data, what follows is erased. */
  ghost predicate HasJournal(mem: seq<Byte>, head: nat, dataEnd: nat) {
    && DATA_START <= dataEnd && DATA_START <= |mem|
    && JOURNAL_START <= head && head + JOURNAL_ENTRY <= DATA_START && (head - JOURNAL_START) % JOURNAL_ENTRY == 0
    && (forall i | JOURNAL_START <= i < head :: mem[i] == 0)
    && mem[head..head + JOURNAL_ENTRY] == Hex(JournalOffset(dataEnd), 8)
    && AllErased(mem, head + JOURNAL_ENTRY, DATA_START)
  }

  /** No more entries have been spent than blocks have been filled. */
  predicate JournalBound(head: nat, dataEnd: nat) {
    DATA_START <= dataEnd && JOURNAL_START <= head &&
    (head - JOURNAL_START) / JOURNAL_ENTRY <= (dataEnd - DATA_START) / CACHE_BLOCK
  }

  /** The slot behind the last one is the first one. */
  function Cycled(head: nat, dataStart: nat): nat {
    if head == dataStart then JOURNAL_START else head
  }

  /** With at most 0x1F000 bytes the journal never fills up. */
  lemma JournalHasRoom(head: nat, dataEnd: nat, size: nat)
    requires JournalBound(head, dataEnd) && dataEnd <= LogEnd(size) && size <= 0x1F000
    requires (head - JOURNAL_START) % JOURNAL_ENTRY == 0
    ensures head + 2 * JOURNAL_ENTRY <= DATA_START
  {
  }

  // ---------------------------------------------------------------- the text

  /** The rest of the page that the data end in is erased, as far as the log may use it. */
  ghost predicate ErasedAhead(mem: seq<Byte>, ps: nat, dataEnd: nat)
    requires ps > 0
  {
    && DATA_START <= dataEnd <= LogEnd(|mem|) && PageEnd(dataEnd, ps) <= |mem|
    && AllErased(mem, dataEnd, if PageEnd(dataEnd, ps) < LogEnd(|mem|) then PageEnd(dataEnd, ps) else LogEnd(|mem|))
  }

  /** What lies before the text. */
  ghost predicate Front(mem: seq<Byte>, head: nat, dataEnd: nat, headingStart: nat, keys: seq<seq<Byte>>) {
    && HasMetadata(mem)
    && HasHeadings(mem, headingStart, HeadingLine(keys)) && Printable(keys)
    && (keys == [] ==> headingStart == HEADINGS_START)
    && HasJournal(mem, head, dataEnd) && JournalBound(head, dataEnd)
  }

  /** The log on flash when its data end at dataEnd. */
  ghost predicate Image(mem: seq<Byte>, ps: nat, head: nat, dataEnd: nat, headingStart: nat, keys: seq<seq<Byte>>) {
    Geometry(ps, |mem|) && Front(mem, head, dataEnd, headingStart, keys) && ErasedAhead(mem, ps, dataEnd)
  }

  // ---------------------------------------------------------------- what is found again

  /** The first unused byte from lo on, or hi. */
  function FirstErased(mem: seq<Byte>, lo: nat, hi: nat): (e: nat)
    requires lo <= hi <= |mem|
    ensures lo <= e <= hi && (e < hi ==> mem[e] == ERASED)
    ensures forall i | lo <= i < e :: mem[i] != ERASED
    decreases hi - lo
  {
    if lo == hi || mem[lo] == ERASED then lo else FirstErased(mem, lo + 1, hi)
  }

  /** Starting from the block that the journal names, a scan finds the end of the data exactly when the data hold no
      byte 0xFF from there on, and it then moves less than a block. */
  lemma EndIsFound(mem: seq<Byte>, ps: nat, head: nat, dataEnd: nat, headingStart: nat, keys: seq<seq<Byte>>)
    requires Image(mem, ps, head, dataEnd, headingStart, keys)
    ensures var from := DATA_START + JournalOffset(dataEnd);
            && from <= dataEnd < from + CACHE_BLOCK
            && (FirstErased(mem, from, LogEnd(|mem|)) == dataEnd <==> ERASED !in mem[from..dataEnd])
            && FirstErased(mem, from, LogEnd(|mem|)) <= dataEnd
  {
    hide Floor, Offset, HasMetadata, HasHeadings, HasJournal;
    var from, end := DATA_START + JournalOffset(dataEnd), LogEnd(|mem|);
    FloorBounds(dataEnd, ps);
    var e := FirstErased(mem, from, end);
    if ERASED in mem[from..dataEnd] {
      var i :| 0 <= i < dataEnd - from && mem[from..dataEnd][i] == ERASED;
      assert mem[from + i] == ERASED;
    } else {
      assert forall i | from <= i < dataEnd :: mem[i] == mem[from..dataEnd][i - from];
      assert dataEnd < end ==> mem[dataEnd] == ERASED;
    }
  }

  predicate ContainsOnly(entry: seq<Byte>, value: Byte) {
    forall i | 0 <= i < |entry| :: entry[i] == value
  }

  /** What each slot of the journal reads as. */
  lemma Slots(mem: seq<Byte>, head: nat, dataEnd: nat, slot: nat)
    requires HasJournal(mem, head, dataEnd) && dataEnd < 0x1_0000_0000
    requires JOURNAL_START <= slot && slot + JOURNAL_ENTRY <= DATA_START && (slot - JOURNAL_START) % JOURNAL_ENTRY == 0
    ensures var entry := mem[slot..slot + JOURNAL_ENTRY];
            && (slot < head ==> ContainsOnly(entry, NUL))
            && (slot == head ==> !ContainsOnly(entry, NUL) && !ContainsOnly(entry, ERASED)
                                 && StrToUl(entry) == JournalOffset(dataEnd))
            && (slot > head ==> ContainsOnly(entry, ERASED))
  {
    hide JournalOffset, Hex, StrToUl;
    if slot == head {
      LiveEntry(JournalOffset(dataEnd));
      HexRoundTrip(JournalOffset(dataEnd));
      var entry := mem[slot..slot + JOURNAL_ENTRY];
      assert entry[0] != NUL && entry[0] != ERASED;
    }
  }

  /** A line of headings is made of text. */
  lemma HeadingText(keys: seq<seq<Byte>>)
    requires Printable(keys)
    ensures NUL !in HeadingLine(keys) && ERASED !in HeadingLine(keys)
    ensures Fields(HeadingLine(keys), []) == keys && (keys == [] <==> HeadingLine(keys) == [])
  {
    if keys != [] {
      LineIsClean(keys);
      LineReadsBack(keys);
      LineBytes(keys, ERASED);
    }
  }

  /** A journal entry in use is neither spent nor unused. */
  lemma LiveEntry(n: nat)
    ensures forall i | 0 <= i < JOURNAL_ENTRY :: Hex(n, JOURNAL_ENTRY)[i] != NUL && Hex(n, JOURNAL_ENTRY)[i] != ERASED
  {
    HexIsText(n, JOURNAL_ENTRY);
  }

  /** The page of the data lies before the end of the log, or is the last one. */
  lemma PageFacts(dataEnd: nat, ps: nat, size: nat)
    requires Geometry(ps, size) && dataEnd <= LogEnd(size)
    ensures dataEnd < PageEnd(dataEnd, ps) <= size && PageEnd(dataEnd, ps) - dataEnd == ps - Offset(dataEnd, ps)
    ensures Offset(PageEnd(dataEnd, ps), ps) == 0 && Offset(PageEnd(dataEnd, ps), CACHE_BLOCK) == 0
    ensures PageEnd(dataEnd, ps) < LogEnd(size) <==> PageEnd(dataEnd, ps) + ps <= size
    ensures PageEnd(dataEnd, ps) != LogEnd(size)
  {
    hide Offset, Floor;
    var page := PageEnd(dataEnd, ps);
    PageIsWide(ps);
    FloorBounds(dataEnd, ps);
    OffsetOfSelf(ps);
    SumOfMultiples(Floor(dataEnd, ps), ps, ps);
    MultipleOfDivisor(page, ps, CACHE_BLOCK);
    MultiplesApart(Floor(dataEnd, ps), size, ps);
    if page < size {
      MultiplesApart(page, size, ps);
    }
  }

  lemma PageIsWide(ps: nat)
    requires ps > 0 && Offset(ps, CACHE_BLOCK) == 0
    ensures ps >= CACHE_BLOCK
  {
    hide Offset;
    OffsetOfSelf(CACHE_BLOCK);
    MultiplesApart(0, ps, CACHE_BLOCK);
  }

  lemma PageAfter(dataEnd: nat, n: nat, ps: nat)
    requires ps > 0 && dataEnd + n <= PageEnd(dataEnd, ps)
    ensures PageEnd(dataEnd + n, ps)
            == if dataEnd + n < PageEnd(dataEnd, ps) then PageEnd(dataEnd, ps) else PageEnd(dataEnd, ps) + ps
  {
    hide Offset, Floor;
    FloorBounds(dataEnd, ps);
    OffsetOfSelf(ps);
    SumOfMultiples(Floor(dataEnd, ps), ps, ps);
    FloorUnique(dataEnd + n, if dataEnd + n < PageEnd(dataEnd, ps) then Floor(dataEnd, ps) else PageEnd(dataEnd, ps), ps);
  }

  /** What lies before the text does not depend on it. */
  lemma FrontKept(mem: seq<Byte>, mem': seq<Byte>, head: nat, dataEnd: nat, headingStart: nat, keys: seq<seq<Byte>>)
    requires DATA_START <= |mem| == |mem'| && mem'[..DATA_START] == mem[..DATA_START]
    requires Front(mem, head, dataEnd, headingStart, keys)
    ensures Front(mem', head, dataEnd, headingStart, keys)
  {
    hide HeadingLine, Printable, JournalOffset, JournalBound;
    forall i | 0 <= i < DATA_START ensures mem'[i] == mem[i] {
      assert mem'[i] == mem'[..DATA_START][i] && mem[i] == mem[..DATA_START][i];
    }
  }

  /** Within a block the journal stays true. */
  lemma JournalStays(mem: seq<Byte>, head: nat, dataEnd: nat, dataEnd': nat, headingStart: nat, keys: seq<seq<Byte>>)
    requires Front(mem, head, dataEnd, headingStart, keys) && DATA_START <= dataEnd'
    requires dataEnd / CACHE_BLOCK == dataEnd' / CACHE_BLOCK
    ensures Front(mem, head, dataEnd', headingStart, keys)
  {
    hide HasMetadata, HasHeadings, Printable, HeadingLine, Hex, JournalOffset;
    BlocksBehindStart(dataEnd);
    BlocksBehindStart(dataEnd');
  }

  /** The data start at a block. */
  lemma BlocksBehindStart(dataEnd: nat)
    requires DATA_START <= dataEnd
    ensures (dataEnd - DATA_START) / CACHE_BLOCK == dataEnd / CACHE_BLOCK - DATA_START / CACHE_BLOCK
    ensures JournalOffset(dataEnd) == (dataEnd / CACHE_BLOCK - DATA_START / CACHE_BLOCK) * CACHE_BLOCK
  {
  }

  /** The next entry written, then the live one cleared. */
  function NextEntry(mem: seq<Byte>, head: nat, next: seq<Byte>): (mem': seq<Byte>)
    requires |next| == JOURNAL_ENTRY && head + 2 * JOURNAL_ENTRY <= |mem|
    ensures |mem'| == |mem|
    ensures forall i | 0 <= i < |mem| ::
              mem'[i] == if head <= i < head + JOURNAL_ENTRY then NUL
                         else if head + JOURNAL_ENTRY <= i < head + 2 * JOURNAL_ENTRY then next[i - (head + JOURNAL_ENTRY)]
                         else mem[i]
  {
    Put(Put(mem, head + JOURNAL_ENTRY, next), head, Zeros(JOURNAL_ENTRY))
  }

  /** The journal moves on by two writes that need no erase. */
  lemma JournalMoves(mem: seq<Byte>, head: nat, dataEnd: nat, dataEnd': nat, headingStart: nat, keys: seq<seq<Byte>>)
    requires Front(mem, head, dataEnd, headingStart, keys) && DATA_START <= dataEnd <= dataEnd' <= LogEnd(|mem|)
    requires |mem| <= 0x1F000
    requires dataEnd / CACHE_BLOCK != dataEnd' / CACHE_BLOCK
    ensures JOURNAL_START <= head && head + 2 * JOURNAL_ENTRY <= DATA_START
    ensures var next := Hex(JournalOffset(dataEnd'), JOURNAL_ENTRY);
            && Writable(mem, head + JOURNAL_ENTRY, next)
            && Writable(Put(mem, head + JOURNAL_ENTRY, next), head, Zeros(JOURNAL_ENTRY))
            && Front(NextEntry(mem, head, next), head + JOURNAL_ENTRY, dataEnd', headingStart, keys)
            && NextEntry(mem, head, next)[DATA_START..] == mem[DATA_START..]
  {
    hide JournalOffset, HeadingLine, Printable, HasMetadata, HasHeadings, HasJournal, Writable, Put, NextEntry, Hex;
    EntryHasRoom(mem, head, dataEnd, Hex(JournalOffset(dataEnd'), JOURNAL_ENTRY));
    EntryReplaced(mem, head, dataEnd, dataEnd');
    FrontPartsKept(mem, NextEntry(mem, head, Hex(JournalOffset(dataEnd'), JOURNAL_ENTRY)), headingStart, HeadingLine(keys));
  }

  lemma EntryHasRoom(mem: seq<Byte>, head: nat, dataEnd: nat, next: seq<Byte>)
    requires HasJournal(mem, head, dataEnd) && JournalBound(head, dataEnd) && dataEnd <= LogEnd(|mem|) && |mem| <= 0x1F000
    requires |next| == JOURNAL_ENTRY
    ensures JOURNAL_START <= head && head + 2 * JOURNAL_ENTRY <= DATA_START <= |mem|
    ensures Writable(mem, head + JOURNAL_ENTRY, next)
    ensures Writable(Put(mem, head + JOURNAL_ENTRY, next), head, Zeros(JOURNAL_ENTRY))
    ensures NextEntry(mem, head, next)[DATA_START..] == mem[DATA_START..]
    ensures forall i | 0 <= i < JOURNAL_START :: NextEntry(mem, head, next)[i] == mem[i]
  {
    hide JournalOffset, Writable, Put, NextEntry;
    JournalHasRoom(head, dataEnd, |mem|);
    ErasedIsWritable(mem, head + JOURNAL_ENTRY, next);
    ZerosAreWritable(Put(mem, head + JOURNAL_ENTRY, next), head, JOURNAL_ENTRY);
  }

  lemma EntryReplaced(mem: seq<Byte>, head: nat, dataEnd: nat, dataEnd': nat)
    requires HasJournal(mem, head, dataEnd) && head + 2 * JOURNAL_ENTRY <= DATA_START <= dataEnd'
    ensures HasJournal(NextEntry(mem, head, Hex(JournalOffset(dataEnd'), JOURNAL_ENTRY)), head + JOURNAL_ENTRY, dataEnd')
  {
    hide JournalOffset, Hex, NextEntry;
  }

  lemma FrontPartsKept(mem: seq<Byte>, mem': seq<Byte>, headingStart: nat, line: seq<Byte>)
    requires DATA_START <= |mem| == |mem'| && HasMetadata(mem) && HasHeadings(mem, headingStart, line)
    requires forall i | 0 <= i < JOURNAL_START :: mem'[i] == mem[i]
    ensures HasMetadata(mem') && HasHeadings(mem', headingStart, line)
  {
  }

  /** Old headings cleared and the new line behind them. */
  function NextHeadings(mem: seq<Byte>, start: nat, length: nat, line: seq<Byte>): (mem': seq<Byte>)
    requires start + length + |line| <= |mem|
    ensures |mem'| == |mem|
    ensures forall i | 0 <= i < |mem| ::
              mem'[i] == if start <= i < start + length then NUL
                         else if start + length <= i < start + length + |line| then line[i - (start + length)]
                         else mem[i]
  {
    Put(Put(mem, start, Zeros(length)), start + length, line)
  }

  /** Headings are replaced by two writes that need no erase. */
  lemma HeadingsMove(mem: seq<Byte>, head: nat, dataEnd: nat, start: nat, keys: seq<seq<Byte>>, keys': seq<seq<Byte>>)
    requires Front(mem, head, dataEnd, start, keys) && Printable(keys')
    requires keys' != [] && start + |HeadingLine(keys)| + |HeadingLine(keys')| < JOURNAL_START
    ensures var line, line' := HeadingLine(keys), HeadingLine(keys');
            && DATA_START <= |mem|
            && Writable(mem, start, Zeros(|line|))
            && Writable(Put(mem, start, Zeros(|line|)), start + |line|, line')
            && Front(NextHeadings(mem, start, |line|, line'), head, dataEnd, start + |line|, keys')
            && NextHeadings(mem, start, |line|, line')[DATA_START..] == mem[DATA_START..]
  {
    hide JournalOffset, JournalBound, HeadingLine, Printable, Writable, Put, NextHeadings, HasMetadata, HasHeadings, HasJournal;
    var line, line' := HeadingLine(keys), HeadingLine(keys');
    HeadingsReplaced(mem, start, line, line');
    RestKept(mem, NextHeadings(mem, start, |line|, line'), head, dataEnd);
  }

  lemma HeadingsReplaced(mem: seq<Byte>, start: nat, line: seq<Byte>, line': seq<Byte>)
    requires HasHeadings(mem, start, line) && start + |line| + |line'| < JOURNAL_START
    ensures DATA_START <= |mem| && Writable(mem, start, Zeros(|line|))
    ensures Writable(Put(mem, start, Zeros(|line|)), start + |line|, line')
    ensures var mem' := NextHeadings(mem, start, |line|, line');
            && HasHeadings(mem', start + |line|, line')
            && mem'[DATA_START..] == mem[DATA_START..]
            && forall i | 0 <= i < |mem| && !(HEADINGS_START <= i < JOURNAL_START) :: mem'[i] == mem[i]
  {
    hide Writable, Put, NextHeadings;
    ZerosAreWritable(mem, start, |line|);
    ErasedIsWritable(Put(mem, start, Zeros(|line|)), start + |line|, line');
  }

  lemma RestKept(mem: seq<Byte>, mem': seq<Byte>, head: nat, dataEnd: nat)
    requires |mem'| == |mem| && HasMetadata(mem) && HasJournal(mem, head, dataEnd)
    requires forall i | 0 <= i < |mem| && !(HEADINGS_START <= i < JOURNAL_START) :: mem'[i] == mem[i]
    ensures HasMetadata(mem') && HasJournal(mem', head, dataEnd)
  {
    hide JournalOffset, Field, Hex;
  }

  // ---------------------------------------------------------------- an empty log

  /** Header, metadata and first journal entry written. */
  function Formatted(mem: seq<Byte>, header: seq<Byte>, metadata: seq<Byte>): (mem': seq<Byte>)
    requires |header| == HEADER_SIZE && |metadata| == META_LENGTH && DATA_START <= |mem|
    ensures |mem'| == |mem|
    ensures forall i | 0 <= i < |mem| ::
              mem'[i] == if i < HEADER_SIZE then header[i]
                         else if i < HEADINGS_START then metadata[i - START_ADDRESS]
                         else if JOURNAL_START <= i < JOURNAL_START + JOURNAL_ENTRY then ZERO
                         else mem[i]
  {
    Put(Put(Put(mem, 0, header), START_ADDRESS, metadata), JOURNAL_START, seq(JOURNAL_ENTRY, _ => ZERO))
  }

  lemma FormattedIsImage(mem: seq<Byte>, ps: nat, header: seq<Byte>, daplinkVersion: seq<Byte>)
    requires |header| == HEADER_SIZE && |daplinkVersion| == 5
    requires Geometry(ps, |mem|) && AllErased(mem, 0, DATA_START + ps)
    ensures var metadata := Metadata(LogEnd(|mem|), DATA_START, daplinkVersion);
            && Writable(mem, 0, header)
            && Writable(Put(mem, 0, header), START_ADDRESS, metadata)
            && Writable(Put(Put(mem, 0, header), START_ADDRESS, metadata), JOURNAL_START, seq(JOURNAL_ENTRY, _ => ZERO))
            && Image(Formatted(mem, header, metadata), ps, JOURNAL_START, DATA_START, HEADINGS_START, [])
    ensures PageEnd(DATA_START, ps) == DATA_START + ps
  {
    hide Offset, Floor, Put, Writable, Formatted, Metadata, HasMetadata, HasHeadings, HasJournal, ErasedAhead, Printable;
    var metadata := Metadata(LogEnd(|mem|), DATA_START, daplinkVersion);
    FormattedByWrites(mem, header, metadata);
    var mem' := Formatted(mem, header, metadata);
    MetadataFits(mem', LogEnd(|mem|), daplinkVersion);
    FirstPage(mem', ps);
    NoHeadings(mem');
    FirstEntry(mem');
  }

  lemma FormattedByWrites(mem: seq<Byte>, header: seq<Byte>, metadata: seq<Byte>)
    requires |header| == HEADER_SIZE && |metadata| == META_LENGTH
    requires DATA_START <= |mem| && AllErased(mem, 0, DATA_START)
    ensures Writable(mem, 0, header) && Writable(Put(mem, 0, header), START_ADDRESS, metadata)
    ensures Writable(Put(Put(mem, 0, header), START_ADDRESS, metadata), JOURNAL_START, seq(JOURNAL_ENTRY, _ => ZERO))
  {
    hide Put, Writable;
    ErasedIsWritable(mem, 0, header);
    ErasedIsWritable(Put(mem, 0, header), START_ADDRESS, metadata);
    ErasedIsWritable(Put(Put(mem, 0, header), START_ADDRESS, metadata), JOURNAL_START, seq(JOURNAL_ENTRY, _ => ZERO));
  }

  lemma FirstPage(mem: seq<Byte>, ps: nat)
    requires Geometry(ps, |mem|) && AllErased(mem, DATA_START, DATA_START + ps)
    ensures ErasedAhead(mem, ps, DATA_START) && PageEnd(DATA_START, ps) == DATA_START + ps
  {
    hide Offset, Floor;
    SumOfMultiples(JOURNAL_SIZE, JOURNAL_SIZE, ps);
    FloorUnique(DATA_START, DATA_START, ps);
    PageIsWide(ps);
    PageFacts(DATA_START, ps, |mem|);
  }

  lemma NoHeadings(mem: seq<Byte>)
    requires DATA_START <= |mem| && AllErased(mem, HEADINGS_START, JOURNAL_START)
    ensures HasHeadings(mem, HEADINGS_START, []) && HeadingLine([]) == [] && Printable([])
  {
  }

  lemma FirstEntry(mem: seq<Byte>)
    requires DATA_START <= |mem| && forall i | JOURNAL_START <= i < JOURNAL_START + JOURNAL_ENTRY :: mem[i] == ZERO
    requires AllErased(mem, JOURNAL_START + JOURNAL_ENTRY, DATA_START)
    ensures HasJournal(mem, JOURNAL_START, DATA_START) && JournalBound(JOURNAL_START, DATA_START)
  {
    ZeroDigits(JOURNAL_ENTRY);
    assert mem[JOURNAL_START..JOURNAL_START + JOURNAL_ENTRY] == Hex(0, JOURNAL_ENTRY);
  }

  lemma {:induction false} ZeroDigits(k: nat)
    ensures Hex(0, k) == seq(k, _ => ZERO)
    decreases k
  {
    if k == 0 {
    } else {
      ZeroDigits(k - 1);
    }
  }

  lemma MetadataFits(mem: seq<Byte>, logEnd: nat, daplinkVersion: seq<Byte>)
    requires |daplinkVersion| == 5 && DATA_START <= |mem| && logEnd == LogEnd(|mem|)
    requires forall i | START_ADDRESS <= i < HEADINGS_START :: mem[i] == Metadata(logEnd, DATA_START, daplinkVersion)[i - START_ADDRESS]
    ensures HasMetadata(mem)
  {
    hide Hex, Field;
    var metadata := Metadata(logEnd, DATA_START, daplinkVersion);
    assert mem[START_ADDRESS..HEADINGS_START] == metadata;
    assert mem[START_ADDRESS..START_ADDRESS + 18] == metadata[..18];
    assert mem[START_ADDRESS + 18..START_ADDRESS + 29] == metadata[18..29];
    assert mem[START_ADDRESS + 29..START_ADDRESS + 40] == metadata[29..40];
  }

  /** The page that the journal moves onto is erased already: nothing is lost when it is erased again. */
  lemma JournalPageBlank(mem: seq<Byte>, ps: nat, head: nat, dataEnd: nat)
    requires Geometry(ps, |mem|) && HasJournal(mem, head, dataEnd)
    requires head + 2 * JOURNAL_ENTRY <= DATA_START && Offset(head + JOURNAL_ENTRY, ps) == 0
    ensures var page := head + JOURNAL_ENTRY;
            && page + CACHE_BLOCK <= page + ps <= DATA_START && Offset(page, CACHE_BLOCK) == 0
            && Put(mem, page, Blank(ps)) == mem && Put(mem, page, Blank(CACHE_BLOCK)) == mem
  {
    hide Offset;
    var page := head + JOURNAL_ENTRY;
    PageIsWide(ps);
    SumOfMultiples(JOURNAL_SIZE, JOURNAL_SIZE, ps);
    MultiplesApart(page, DATA_START, ps);
    MultipleOfDivisor(page, ps, CACHE_BLOCK);
  }
}
