/** The file that the log presents to a host: the page, its metadata and the text, as one run of bytes that is read
    in windows. */
module LogFile {
  import opened NorFlash
  import opened LogText
  import opened LogImage

  datatype DataFormat = HTMLHeader | HTML | CSV

  /** The bytes from index on, at most len of them. */
  function Window(file: seq<Byte>, index: nat, len: nat): (w: seq<Byte>)
    ensures |w| == if index >= |file| then 0 else if |file| - index < len then |file| - index else len
    ensures index <= |file| ==> w == file[index..index + |w|]
  {
    var first := if index < |file| then index else |file|;
    var last := if index + len < |file| then index + len else |file|;
    file[first..last]
  }

  /** A window on two parts is a window on the first, continued on the second from where that one ended. */
  lemma WindowOfParts(a: seq<Byte>, b: seq<Byte>, index: nat, len: nat)
    ensures var w := Window(a, index, len);
            var at, rest := index + |w|, len - |w|;
            && Window(a + b, index, len) == w + (if at < |a| then [] else Window(b, at - |a|, rest))
            && (at < |a| ==> rest == 0)
  {
  }

  /** Where the bytes of one part come from: memory, or the logged text. */
  datatype Source = Local(bytes: seq<Byte>) | Logged(address: nat, len: nat)

  /** A window that is read part by part: so far the parts make up `file`. */
  datatype Reading = Reading(data: seq<Byte>, index: nat, len: nat, srcIndex: nat)

  ghost predicate Reads(r: Reading, file: seq<Byte>, index: nat, len: nat) {
    && r.data == Window(file, index, len) && r.srcIndex == |file|
    && r.index == index + |r.data| && r.len == len - |r.data|
  }

  lemma NothingRead(index: nat, len: nat)
    ensures Reads(Reading([], index, len, 0), [], index, len)
  {
  }

  lemma AllRead(r: Reading, file: seq<Byte>, index: nat, len: nat)
    requires Reads(r, file, index, len)
    ensures r.data == Window(file, index, len)
  {
  }

  /** Reading the next part. */
  lemma ReadsOn(r: Reading, file: seq<Byte>, part: seq<Byte>, index: nat, len: nat)
    requires Reads(r, file, index, len)
    ensures r.index < r.srcIndex ==> r.len == 0
    ensures var offset := r.index - r.srcIndex;
            var n := if r.index >= r.srcIndex + |part| then 0 else if |part| - offset < r.len then |part| - offset else r.len;
            && (n > 0 ==> 0 <= offset && offset + n <= |part|)
            && (n > 0 ==> Reads(Reading(r.data + part[offset..offset + n], r.index + n, r.len - n, r.srcIndex + |part|), file + part, index, len))
            && (n == 0 ==> Reads(Reading(r.data, r.index, r.len, r.srcIndex + |part|), file + part, index, len))
  {
    WindowOfParts(file, part, index, len);
    var offset := r.index - r.srcIndex;
    if 0 <= offset {
      WindowWithin(part, offset, r.len);
    }
    hide Window;
    assert r.data + [] == r.data;
  }

  lemma WindowWithin(part: seq<Byte>, offset: nat, len: nat)
    ensures var n := if offset >= |part| then 0 else if |part| - offset < len then |part| - offset else len;
            Window(part, offset, len) == if n == 0 then [] else part[offset..offset + n]
  {
  }

  /** What the host sees: the metadata it gets name the place of the text in the file. */
  function HostFile(format: DataFormat, header: seq<Byte>, logEnd: nat, daplinkVersion: seq<Byte>, text: seq<Byte>): seq<Byte>
    requires logEnd >= DATA_START
  {
    var textStart := HEADER_SIZE + META_LENGTH;
    var metadata := Metadata(logEnd - (DATA_START - textStart), textStart, daplinkVersion);
    match format
    case HTMLHeader => header + metadata + [ERASED]
    case HTML => header + metadata + text + [ERASED]
    case CSV => text
  }

  /** A number in the metadata of the file, from the given place on. */
  function NumberAt(file: seq<Byte>, at: nat): nat
    requires HEADER_SIZE + META_LENGTH <= |file| && at + 10 <= META_LENGTH
  {
    StrToUl(file[HEADER_SIZE + at..HEADER_SIZE + at + 10] + [NUL])
  }

  /** Both pages start with the header and the version. The start of the data that they name is where the text starts, and
      their end of the log is as far behind as on the flash. The text is followed by one unused byte, the last. */
  lemma TextInPlace(format: DataFormat, header: seq<Byte>, logEnd: nat, daplinkVersion: seq<Byte>, text: seq<Byte>)
    requires format != CSV && |header| == HEADER_SIZE && |daplinkVersion| == 5 && DATA_START <= logEnd < 0x1_0000_0000
    ensures var file := HostFile(format, header, logEnd, daplinkVersion, text);
            && HEADER_SIZE + META_LENGTH < |file| && file[..HEADER_SIZE] == header
            && file[HEADER_SIZE..HEADER_SIZE + 18] == VERSION
            && var start := NumberAt(file, 29);
            && start == HEADER_SIZE + META_LENGTH && file[start - 5..start] == daplinkVersion
            && NumberAt(file, 18) - start == logEnd - DATA_START
            && var shown := if format == HTML then text else [];
            && |file| == start + |shown| + 1 && file[start..start + |shown|] == shown && file[|file| - 1] == ERASED
  {
    hide StrToUl, Hex;
    var file, p, n := HostFile(format, header, logEnd, daplinkVersion, text), HEADER_SIZE + META_LENGTH, logEnd - (DATA_START - (HEADER_SIZE + META_LENGTH));
    var metadata, shown := Metadata(n, p, daplinkVersion), if format == HTML then text else [];
    assert file == header + metadata + shown + [ERASED];
    assert file[HEADER_SIZE..p] == metadata;
    SliceOfSlice(file, HEADER_SIZE, p, 0, 18);
    SliceOfSlice(file, HEADER_SIZE, p, 18, 29);
    SliceOfSlice(file, HEADER_SIZE, p, 29, 40);
    SliceOfSlice(file, HEADER_SIZE, p, 40, 45);
    assert metadata[..18] == VERSION && metadata[18..29] == Field(n) && metadata[29..40] == Field(p) && metadata[40..45] == daplinkVersion;
    StoredField(file, HEADER_SIZE + 18, n);
    StoredField(file, HEADER_SIZE + 29, p);
  }
}
