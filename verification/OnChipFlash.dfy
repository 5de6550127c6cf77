/** MicroBitFlash: byte-granular writes to the flash of the processor, which is written in words and erased in pages.
    Waiting for the controller is not modelled. */
module OnChipFlash {
  import opened NorFlash

  /** The page size that the processor reports. */
  const CODEPAGESIZE: nat := 4096

  datatype Status = OK | INVALID_PARAMETER

  function PageOffset(a: nat): nat {
    a % CODEPAGESIZE
  }

  function PageStart(a: nat): nat {
    (a / CODEPAGESIZE) * CODEPAGESIZE
  }

  function WordAddr(a: nat): (w: nat)
    ensures Aligned(w) && w <= a < w + 4
  {
    a - a % 4
  }

  predicate Aligned(a: nat) {
    a % 4 == 0
  }

  function ByteOffset(a: nat): nat {
    a % 4
  }

  // ---------------------------------------------------------------- words

  function Shifted(b: Byte, k: nat): bv32
    requires k < 4
  {
    var w := b as bv32;
    if k == 0 then w else if k == 1 then w << 8 else if k == 2 then w << 16 else w << 24
  }

  function Combined(word: bv32, more: bv32): bv32 {
    word | more
  }

  /** A word as put together from its bytes so far, the lowest first. */
  function Pack(bytes: seq<Byte>): bv32
    requires |bytes| <= 4
  {
    if bytes == [] then 0 else Combined(Pack(bytes[..|bytes| - 1]), Shifted(bytes[|bytes| - 1], |bytes| - 1))
  }

  function Unpack(word: bv32): (bytes: seq<Byte>)
    ensures |bytes| == 4
  {
    [(word & 0xFF) as Byte, ((word >> 8) & 0xFF) as Byte, ((word >> 16) & 0xFF) as Byte, ((word >> 24) & 0xFF) as Byte]
  }

  lemma WordOfBytes(a: Byte, b: Byte, c: Byte, d: Byte)
    ensures Unpack(Combined(Combined(Combined(Shifted(a, 0), Shifted(b, 1)), Shifted(c, 2)), Shifted(d, 3))) == [a, b, c, d]
  {
    var w, x, y, z := a as bv32, b as bv32, c as bv32, d as bv32;
    WordBytes(w, x, y, z);
  }

  lemma WordBytes(w: bv32, x: bv32, y: bv32, z: bv32)
    requires w <= 0xFF && x <= 0xFF && y <= 0xFF && z <= 0xFF
    ensures var word := w | (x << 8) | (y << 16) | (z << 24);
            word & 0xFF == w && (word >> 8) & 0xFF == x && (word >> 16) & 0xFF == y && (word >> 24) & 0xFF == z
  {
  }

  /** Bytes put together in a word come apart again. */
  lemma UnpackPack(bytes: seq<Byte>)
    requires |bytes| == 4
    ensures Unpack(Pack(bytes)) == bytes
  {
    hide Shifted, Unpack, Combined, Pack;
    var b0, b1, b2, b3 := bytes[0], bytes[1], bytes[2], bytes[3];
    PackOne(b0);
    PackMore([b0], b1);
    PackMore([b0, b1], b2);
    PackMore([b0, b1, b2], b3);
    WordOfBytes(b0, b1, b2, b3);
    assert [b0] + [b1] == [b0, b1] && [b0, b1] + [b2] == [b0, b1, b2] && [b0, b1, b2] + [b3] == bytes;
  }

  lemma PackMore(bytes: seq<Byte>, b: Byte)
    requires |bytes| < 4
    ensures Pack(bytes + [b]) == Combined(Pack(bytes), Shifted(b, |bytes|))
  {
    hide Shifted, Combined;
    assert (bytes + [b])[..|bytes|] == bytes;
  }

  lemma PackOne(b: Byte)
    ensures Pack([b]) == Shifted(b, 0)
  {
    PackMore([], b);
    OrZero(Shifted(b, 0));
  }

  lemma OrZero(w: bv32)
    ensures Combined(0, w) == w
  {
  }

  // ---------------------------------------------------------------- writing

  /** The bytes start..end of a page after a write: data from offset on, and around it what lies at `from`. */
  function Chosen(mem: seq<Byte>, from: nat, start: nat, end: nat, offset: nat, data: seq<Byte>): (s: seq<Byte>)
    requires start <= end && from + end <= |mem|
    ensures |s| == end - start
    ensures forall k | 0 <= k < |s| ::
              s[k] == if offset <= start + k < offset + |data| then data[start + k - offset] else mem[from + start + k]
  {
    seq(end - start, k requires 0 <= k < end - start =>
      if offset <= start + k < offset + |data| then data[start + k - offset] else mem[from + start + k])
  }

  /** A write in place burns the words around the data: over themselves where they are not covered. */
  lemma InPlace(mem: seq<Byte>, page: nat, start: nat, end: nat, offset: nat, data: seq<Byte>)
    requires start <= offset && offset + |data| <= end && page + end <= |mem|
    requires Writable(mem, page + offset, data)
    ensures Burn(mem, page + start, Chosen(mem, page, start, end, offset, data)) == Put(mem, page + offset, data)
  {
    hide Put, Burn, Writable, Chosen;
    BurnOverSelf(mem, page + start, Chosen(mem, page, start, end, offset, data), Put(mem, page + offset, data), page + offset, data);
  }

  /** The scratch page holding a copy of a page. */
  function Saved(mem: seq<Byte>, page: nat, scratch: nat): (saved: seq<Byte>)
    requires page + CODEPAGESIZE <= |mem| && scratch + CODEPAGESIZE <= |mem|
    ensures |saved| == |mem|
  {
    Put(mem, scratch, mem[page..page + CODEPAGESIZE])
  }

  lemma SavedBySteps(mem: seq<Byte>, page: nat, scratch: nat)
    requires PageOffset(page) == 0 && page + CODEPAGESIZE <= |mem|
    requires PageOffset(scratch) == 0 && scratch + CODEPAGESIZE <= |mem| && scratch != page
    ensures page + CODEPAGESIZE <= scratch || scratch + CODEPAGESIZE <= page
    ensures var erased := Put(mem, scratch, Blank(CODEPAGESIZE));
            Burn(erased, scratch, erased[page..page + CODEPAGESIZE]) == Saved(mem, page, scratch)
  {
    hide Put, Burn;
    var erased, content := Put(mem, scratch, Blank(CODEPAGESIZE)), mem[page..page + CODEPAGESIZE];
    assert erased[page..page + CODEPAGESIZE] == content;
    ErasedStores(erased, scratch, content);
    PutTwice(mem, scratch, Blank(CODEPAGESIZE), content);
  }

  /** An erased page, whose content has been saved, is rewritten with the data. */
  lemma Rewritten(mem: seq<Byte>, page: nat, scratch: nat, offset: nat, data: seq<Byte>)
    requires PageOffset(page) == 0 && page + CODEPAGESIZE <= |mem|
    requires PageOffset(scratch) == 0 && scratch + CODEPAGESIZE <= |mem| && scratch != page
    requires offset < CODEPAGESIZE
    ensures var saved := Saved(mem, page, scratch);
            var ready := Put(saved, page, Blank(CODEPAGESIZE));
            Burn(ready, page, Chosen(ready, scratch, 0, CODEPAGESIZE, offset, data)) == Put(saved, page + offset, Within(data, offset))
  {
    hide Put, Burn, Chosen;
    var saved := Saved(mem, page, scratch);
    SavedBySteps(mem, page, scratch);
    var ready := Put(saved, page, Blank(CODEPAGESIZE));
    var chosen := Chosen(ready, scratch, 0, CODEPAGESIZE, offset, data);
    ErasedStores(ready, page, chosen);
    PutTwice(saved, page, Blank(CODEPAGESIZE), chosen);
    var done, goal := Put(saved, page, chosen), Put(saved, page + offset, Within(data, offset));
    forall i | 0 <= i < |saved| ensures done[i] == goal[i] {
      if page <= i < page + CODEPAGESIZE {
        var k := i - page;
        assert saved[scratch + k] == mem[page + k] == saved[page + k];
        assert chosen[k] == if offset <= k < offset + |data| then data[k - offset] else saved[page + k];
      }
    }
  }

  /** The part of the data that lies in the page. */
  function Within(data: seq<Byte>, offset: nat): (part: seq<Byte>)
    requires offset <= CODEPAGESIZE
    ensures offset + |part| <= CODEPAGESIZE
  {
    if offset + |data| <= CODEPAGESIZE then data else data[..CODEPAGESIZE - offset]
  }

  /** What a write makes of the flash: in place only the data change; with an erase also the scratch page, and the data
      only as far as the page goes. */
  function Flashed(mem: seq<Byte>, address: nat, data: seq<Byte>, scratch: nat): (mem': seq<Byte>)
    requires address + |data| <= |mem|
    requires !Writable(mem, address, data) ==> address - PageOffset(address) + CODEPAGESIZE <= |mem| && scratch + CODEPAGESIZE <= |mem|
    ensures |mem'| == |mem|
  {
    if Writable(mem, address, data) then Put(mem, address, data)
    else Put(Saved(mem, address - PageOffset(address), scratch), address, Within(data, PageOffset(address)))
  }

  /** Apart from the data, nothing changes but the scratch page, which holds the old page after an erase and is left alone
      without one. */
  lemma FlashedElsewhere(mem: seq<Byte>, page: nat, offset: nat, data: seq<Byte>, scratch: nat, i: nat)
    requires page + CODEPAGESIZE <= |mem| && scratch + CODEPAGESIZE <= |mem| && i < |mem|
    requires offset < CODEPAGESIZE && page + offset + |data| <= |mem| && PageOffset(page + offset) == offset
    requires scratch + CODEPAGESIZE <= page || page + CODEPAGESIZE <= scratch
    requires !(page + offset <= i < page + offset + |data|)
    ensures Flashed(mem, page + offset, data, scratch)[i]
         == if Writable(mem, page + offset, data) || !(scratch <= i < scratch + CODEPAGESIZE) then mem[i]
            else mem[page + (i - scratch)]
  {
    hide Writable, PageOffset;
    assert scratch <= i < scratch + CODEPAGESIZE ==> mem[page..page + CODEPAGESIZE][i - scratch] == mem[page + (i - scratch)];
  }

  /** All the data are stored if and only if they can be written in place, or lie in the page, or what lies behind the page,
      with the copy in the scratch page, equals the rest of them already. */
  lemma StoredWhole(mem: seq<Byte>, page: nat, offset: nat, data: seq<Byte>, scratch: nat)
    requires page + CODEPAGESIZE <= |mem| && scratch + CODEPAGESIZE <= |mem|
    requires offset < CODEPAGESIZE && page + offset + |data| <= |mem| && PageOffset(page + offset) == offset
    ensures var address := page + offset;
            (Flashed(mem, address, data, scratch)[address..address + |data|] == data
             <==> || Writable(mem, address, data)
                  || offset + |data| <= CODEPAGESIZE
                  || Saved(mem, page, scratch)[page + CODEPAGESIZE..address + |data|] == data[CODEPAGESIZE - offset..])
  {
    hide Writable, Saved, PageOffset;
    var address := page + offset;
    if !Writable(mem, address, data) && offset + |data| > CODEPAGESIZE {
      var n, saved, now := CODEPAGESIZE - offset, Saved(mem, page, scratch), Flashed(mem, address, data, scratch);
      assert now == Put(saved, address, data[..n]);
      assert now[address..address + |data|] == data[..n] + saved[page + CODEPAGESIZE..address + |data|];
      assert data == data[..n] + data[n..];
    }
  }

  /** It fails, for instance, when a bit has to rise in the last byte of a page and another byte follows. */
  lemma NotStoredWhole(mem: seq<Byte>, page: nat, scratch: nat)
    requires PageOffset(page) == 0 == PageOffset(scratch) && page + 2 * CODEPAGESIZE <= |mem| && scratch + CODEPAGESIZE <= |mem|
    requires scratch != page && scratch != page + CODEPAGESIZE
    requires mem[page + CODEPAGESIZE - 1] == 0 && mem[page + CODEPAGESIZE] == ERASED
    ensures var address, data := page + CODEPAGESIZE - 1, [ERASED, 0];
            && PageOffset(address) == CODEPAGESIZE - 1
            && Flashed(mem, address, data, scratch)[address + 1] == ERASED
  {
    hide Saved, PageOffset, Put;
    var address, data := page + CODEPAGESIZE - 1, [ERASED, 0];
    LastOffset(page);
    ClearsIsAnd(0, ERASED);
    assert !Clears(mem[address + 0], data[0]);
    PagesApart(page, scratch);
    assert Saved(mem, page, scratch)[address + 1] == mem[address + 1] by { SavedElsewhere(mem, page, scratch, address + 1); }
    assert |Within(data, PageOffset(address))| == 1;
  }

  lemma LastOffset(page: nat)
    requires PageOffset(page) == 0
    ensures PageOffset(page + CODEPAGESIZE - 1) == CODEPAGESIZE - 1
  {
  }

  lemma PagesApart(page: nat, scratch: nat)
    requires PageOffset(page) == 0 == PageOffset(scratch)
    ensures scratch > page + CODEPAGESIZE ==> scratch >= page + 2 * CODEPAGESIZE
    ensures scratch < page + CODEPAGESIZE ==> scratch <= page
  {
  }

  lemma SavedElsewhere(mem: seq<Byte>, page: nat, scratch: nat, i: nat)
    requires page + CODEPAGESIZE <= |mem| && scratch + CODEPAGESIZE <= |mem| && i < |mem|
    requires !(scratch <= i < scratch + CODEPAGESIZE)
    ensures Saved(mem, page, scratch)[i] == mem[i]
  {
  }

  lemma PageOf(address: nat, n: nat)
    ensures var page, offset := PageStart(address), PageOffset(address);
            page + offset == address && PageOffset(page) == 0 && Aligned(page)
            && page + WordAddr(offset + n) == WordAddr(address + n)
  {
    PageAligned(address / CODEPAGESIZE);
    WordOfPage(PageStart(address), PageOffset(address) + n);
  }

  lemma PageInside(address: nat, size: nat)
    requires PageOffset(size) == 0 && address < size
    ensures PageStart(address) + CODEPAGESIZE <= size && PageOffset(address) < CODEPAGESIZE
  {
    var p, q := address / CODEPAGESIZE, size / CODEPAGESIZE;
    assert size == q * CODEPAGESIZE && p < q;
  }

  lemma PageIsWords(page: nat, content: seq<Byte>)
    requires PageOffset(page) == 0 && |content| == CODEPAGESIZE
    ensures Aligned(page) && Aligned(|content|)
  {
  }

  lemma PageAligned(p: nat)
    ensures PageOffset(p * CODEPAGESIZE) == 0 && Aligned(p * CODEPAGESIZE)
  {
  }

  lemma WordOfPage(page: nat, a: nat)
    requires Aligned(page)
    ensures page + WordAddr(a) == WordAddr(page + a)
  {
    assert page == 4 * (page / 4);
    assert (page + a) / 4 == page / 4 + a / 4;
  }

  /** Where byte i lies in its word, when the bytes burnt..i of it have been put together. */
  lemma WordStep(page: nat, start: nat, burnt: nat, i: nat)
    requires Aligned(page) && Aligned(start) && Aligned(burnt) && burnt <= i - start < burnt + 4
    ensures ByteOffset(i) == i - start - burnt && (ByteOffset(i + 1) == 0 <==> i + 1 - start == burnt + 4)
    ensures WordAddr(i) == start + burnt && Aligned(page + WordAddr(i)) && Aligned(burnt + 4)
  {
  }

  lemma WordsStart()
    ensures Aligned(0)
  {
  }

  lemma WholeWords(start: nat, end: nat, burnt: nat)
    requires Aligned(start) && Aligned(end) && Aligned(burnt) && burnt <= end - start < burnt + 4
    ensures burnt == end - start
  {
  }

  /** The device after the first k bytes of the goal have been burnt. */
  function BurntTo(before: seq<Byte>, at: nat, goal: seq<Byte>, k: nat): (mem: seq<Byte>)
    requires at + |goal| <= |before| && k <= |goal|
    ensures |mem| == |before| && forall j | 0 <= j < |mem| && !(at <= j < at + k) :: mem[j] == before[j]
  {
    Burn(before, at, goal[..k])
  }

  lemma BurntEnds(before: seq<Byte>, at: nat, goal: seq<Byte>)
    requires at + |goal| <= |before|
    ensures BurntTo(before, at, goal, 0) == before
    ensures BurntTo(before, at, goal, |goal|) == Burn(before, at, goal)
  {
    assert goal[..|goal|] == goal;
  }

  /** The word that the bytes burnt..k of the goal make. */
  function WordTo(goal: seq<Byte>, burnt: nat, k: nat): bv32
    requires burnt <= k <= |goal| && k <= burnt + 4
  {
    Pack(goal[burnt..k])
  }

  lemma NoBytes(goal: seq<Byte>, burnt: nat)
    requires burnt <= |goal|
    ensures WordTo(goal, burnt, burnt) == 0
  {
  }

  lemma NextByte(goal: seq<Byte>, burnt: nat, k: nat, b: Byte)
    requires burnt <= k < |goal| && k < burnt + 4 && b == goal[k]
    ensures WordTo(goal, burnt, k + 1) == Combined(WordTo(goal, burnt, k), Shifted(b, k - burnt))
  {
    hide Shifted, Combined, Pack;
    PackMore(goal[burnt..k], b);
    assert goal[burnt..k] + [b] == goal[burnt..k + 1];
  }

  lemma NextWord(mem: seq<Byte>, at: nat, goal: seq<Byte>, burnt: nat)
    requires at + |goal| <= |mem| && burnt + 4 <= |goal|
    ensures Burn(BurntTo(mem, at, goal, burnt), at + burnt, goal[burnt..burnt + 4]) == BurntTo(mem, at, goal, burnt + 4)
  {
    hide Burn;
    BurnsJoin(mem, at, goal[..burnt], goal[burnt..burnt + 4]);
    assert goal[..burnt] + goal[burnt..burnt + 4] == goal[..burnt + 4];
  }

  class MicroBitFlash {
    /** The page that is used as scratch when a caller names none. */
    const defaultScratchPage: nat

    var device: seq<Byte>

    constructor (defaultScratchPage: nat, content: seq<Byte>)
      ensures this.defaultScratchPage == defaultScratchPage && device == content
    {
      this.defaultScratchPage, device := defaultScratchPage, content;
    }

    /** Whether some bit would have to go from 0 to 1. */
    method NeedErase(source: seq<Byte>, address: nat) returns (need: bool)
      requires address + |source| <= |device|
      ensures need <==> !Writable(device, address, source)
    {
      for i := 0 to |source|
        invariant Writable(device, address, source[..i])
      {
        ClearsIsAnd(device[address + i], source[i]);
        if !device[address + i] & source[i] != 0 {
          assert !Clears(device[address + i], source[i]);
          return true;
        }
      }
      assert source[..|source|] == source;
      return false;
    }

    method ErasePage(page: nat)
      requires PageOffset(page) == 0 && page + CODEPAGESIZE <= |device|
      modifies this
      ensures device == Put(old(device), page, Blank(CODEPAGESIZE))
    {
      device := Put(device, page, Blank(CODEPAGESIZE));
    }

    /** Writes whole words. */
    method FlashBurn(address: nat, words: seq<Byte>)
      requires Aligned(address) && Aligned(|words|) && address + |words| <= |device|
      modifies this
      ensures device == Burn(old(device), address, words)
    {
      device := Burn(device, address, words);
    }

    /** Copies a page to the scratch page, and erases it. */
    method SaveAndErase(page: nat, scratch: nat)
      requires PageOffset(page) == 0 && page + CODEPAGESIZE <= |device|
      requires PageOffset(scratch) == 0 && scratch + CODEPAGESIZE <= |device| && scratch != page
      modifies this
      ensures device == Put(Saved(old(device), page, scratch), page, Blank(CODEPAGESIZE))
    {
      hide Put, Burn, Saved, Blank;
      SavedBySteps(device, page, scratch);
      ErasePage(scratch);
      var content := device[page..page + CODEPAGESIZE];
      PageIsWords(scratch, content);
      FlashBurn(scratch, content);
      ErasePage(page);
    }

    /** Burns the next word of the goal. */
    method BurnWord(address: nat, word: bv32, ghost before: seq<Byte>, ghost at: nat, ghost goal: seq<Byte>, ghost burnt: nat)
      requires address == at + burnt && Aligned(address) && burnt + 4 <= |goal| && at + |goal| <= |before|
      requires device == BurntTo(before, at, goal, burnt) && word == WordTo(goal, burnt, burnt + 4)
      modifies this
      ensures device == BurntTo(before, at, goal, burnt + 4)
    {
      hide Burn, Pack, Unpack;
      UnpackPack(goal[burnt..burnt + 4]);
      NextWord(before, at, goal, burnt);
      WordStep(address, 0, 0, 3);
      FlashBurn(address, Unpack(word));
    }

    /** Burns the bytes start..end of a page, word by word: from the data where they cover it, or else from `from`. */
    method BurnWords(page: nat, from: nat, start: nat, end: nat, offset: nat, data: seq<Byte>)
      requires Aligned(page) && Aligned(start) && Aligned(end) && start <= end
      requires page + end <= |device| && from + end <= |device|
      requires from == page || from + end <= page + start || page + end <= from + start
      modifies this
      ensures device == Burn(old(device), page + start, Chosen(old(device), from, start, end, offset, data))
    {
      hide Burn, BurntTo, WordTo, Chosen, Shifted, Combined, Aligned, ByteOffset, WordAddr;
      WordsStart();
      ghost var before, at := device, page + start;
      ghost var goal := Chosen(before, from, start, end, offset, data);
      BurntEnds(before, at, goal);
      var writeWord: bv32 := 0;
      ghost var burnt := 0;
      NoBytes(goal, burnt);
      for i := start to end
        invariant Aligned(burnt) && burnt <= i - start < burnt + 4
        invariant device == BurntTo(before, at, goal, burnt) && writeWord == WordTo(goal, burnt, i - start)
      {
        WordStep(page, start, burnt, i);
        var byteOffset := ByteOffset(i);
        var b: Byte;
        if i >= offset && i < offset + |data| {
          b := data[i - offset];
        } else {
          b := device[from + i];
        }
        writeWord := Combined(writeWord, Shifted(b, byteOffset));
        NextByte(goal, burnt, i - start, b);
        if ByteOffset(i + 1) == 0 {
          BurnWord(page + WordAddr(i), writeWord, before, at, goal, burnt);
          writeWord := 0;
          burnt := burnt + 4;
          NoBytes(goal, burnt);
        }
      }
      WholeWords(start, end, burnt);
    }

    /** Burns the words around the data. */
    method WriteInPlace(page: nat, offset: nat, data: seq<Byte>)
      requires Aligned(page) && page + WordAddr(offset + |data| + 4) <= |device|
      requires Writable(device, page + offset, data)
      modifies this
      ensures device == Put(old(device), page + offset, data)
    {
      hide Put, Burn, Chosen, Writable;
      var start, end := WordAddr(offset), WordAddr(offset + |data| + 4);
      InPlace(device, page, start, end, offset, data);
      BurnWords(page, page, start, end, offset, data);
    }

    /** Saves the page to the scratch page, erases it, and writes it back with the data. */
    method RewritePage(page: nat, offset: nat, data: seq<Byte>, scratch: nat)
      requires PageOffset(page) == 0 && page + CODEPAGESIZE <= |device| && offset < CODEPAGESIZE
      requires PageOffset(scratch) == 0 && scratch + CODEPAGESIZE <= |device| && scratch != page
      modifies this
      ensures device == Put(Saved(old(device), page, scratch), page + offset, Within(data, offset))
    {
      hide Put, Burn, Chosen, Within, Blank, Saved;
      Rewritten(device, page, scratch, offset, data);
      SavedBySteps(device, page, scratch);
      SaveAndErase(page, scratch);
      BurnWords(page, scratch, 0, CODEPAGESIZE, offset, data);
    }

    /** Writes bytes: in place if no bit has to go from 0 to 1, and then exactly these bytes change. Otherwise the page
        is saved to the scratch page, erased and rewritten, and only what lies in the page is stored. */
    method FlashWrite(address: nat, data: seq<Byte>, scratchAddr: nat) returns (status: Status)
      requires WordAddr(address + |data| + 4) <= |device| && PageOffset(|device|) == 0
      requires !Writable(device, address, data) ==>
                 var scratch := if scratchAddr == 0 then defaultScratchPage else scratchAddr;
                 PageOffset(scratch) == 0 ==>
                   scratch + CODEPAGESIZE <= |device| && scratch != address - PageOffset(address)
      modifies this
      ensures var scratch := if scratchAddr == 0 then defaultScratchPage else scratchAddr;
              if PageOffset(scratch) != 0 then
                status == INVALID_PARAMETER && device == old(device)
              else
                status == OK && device == Flashed(old(device), address, data, scratch)
    {
      hide Put, Burn, Writable, Chosen, Within, Blank, Saved, WordAddr, Aligned, PageOffset, PageStart;
      var scratch := if scratchAddr == 0 then defaultScratchPage else scratchAddr;
      if PageOffset(scratch) != 0 {
        return INVALID_PARAMETER;
      }
      var page := PageStart(address);
      var offset := PageOffset(address);
      assert page + offset == address && PageOffset(page) == 0 && Aligned(page) &&
        page + WordAddr(offset + |data| + 4) == WordAddr(address + |data| + 4) by { PageOf(address, |data| + 4); }
      PageInside(address, |device|);
      var erase := NeedErase(data, address);
      if erase {
        RewritePage(page, offset, data, scratch);
      } else {
        WriteInPlace(page, offset, data);
      }
      return OK;
    }
  }
}
