/** The file system in flash: a table with one 16-bit entry for each block, then the blocks. An entry is unused,
    deleted, the number of the next block of a file, or the end of one. */
module FileTable {
  import opened NorFlash

  const BLOCK: nat := 256
  const EOF: nat := 0xEFFF
  const UNUSED: nat := 0xFFFF
  const DELETED: nat := 0

  // ---------------------------------------------------------------- 16-bit numbers

  function U16(lo: Byte, hi: Byte): (v: nat)
    ensures v < 0x1_0000
  {
    (lo as int) + 256 * (hi as int)
  }

  /** The byte with a given value, counted up from zero. */
  function ByteOf(v: nat): (b: Byte)
    requires v < 256
    ensures b as int == v
  {
    if v == 0 then 0
    else
      var b := ByteOf(v - 1);
      Successor(b);
      b + 1
  }

  lemma Successor(b: Byte)
    requires b as int < 255
    ensures (b + 1) as int == b as int + 1
  {
    LastByte(b);
  }

  lemma LastByte(b: bv8)
    ensures b == 0xFF ==> b as int == 255
  {
  }

  function Low(v: nat): Byte {
    ByteOf(v % 256)
  }

  function High(v: nat): Byte
    requires v < 0x1_0000
  {
    ByteOf(v / 256)
  }

  /** The bytes of a number in memory order. */
  function Bytes16(v: nat): (s: seq<Byte>)
    requires v < 0x1_0000
    ensures |s| == 2
  {
    [Low(v), High(v)]
  }

  lemma ReadsBack(v: nat)
    requires v < 0x1_0000
    ensures U16(Low(v), High(v)) == v
    ensures Bytes16(v)[0] as int == v % 256 && Bytes16(v)[1] as int == v / 256
  {
    hide ByteOf;
    assert v == v % 256 + 256 * (v / 256);
  }

  /** A link can be written over the end mark without an erase exactly if bit 12 of the block number is clear; block
      numbers below 0x1000 always can. */
  lemma LinkNeedsNoErase(mem: seq<Byte>, at: nat, link: nat)
    requires at + 2 <= |mem| && link < 0x1_0000 && mem[at..at + 2] == Bytes16(EOF)
    ensures Writable(mem, at, Bytes16(link)) <==> (link / 4096) % 2 == 0
  {
    var lo, hi := Low(link), High(link);
    assert mem[at] == mem[at..at + 2][0] == 0xFF && mem[at + 1] == mem[at..at + 2][1] == 0xEF;
    ClearsIsAnd(0, lo);
    assert Clears(mem[at], lo);
    Bit12(link);
    EndMarkClears(hi);
    assert Clears(mem[at + 1], hi) <==> hi & 0x10 == 0;
    var bytes := Bytes16(link);
    assert bytes[0] == lo && bytes[1] == hi;
    hide Low, High, Clears;
    assert Writable(mem, at, bytes) <==> Clears(mem[at + 0], bytes[0]) && Clears(mem[at + 1], bytes[1]);
  }

  lemma Bit12(v: nat)
    requires v < 0x1_0000
    ensures High(v) & 0x10 == 0 <==> (v / 4096) % 2 == 0
  {
    hide ByteOf;
    BitFour(High(v));
  }

  lemma BitFour(b: Byte)
    ensures b & 0x10 == 0 <==> ((b as int) / 16) % 2 == 0
  {
  }

  lemma EndMarkClears(h: Byte)
    ensures Clears(0xEF, h) <==> h & 0x10 == 0
  {
  }

  // ---------------------------------------------------------------- the table and the blocks in memory

  /** The number of blocks that the table of n entries takes. */
  function TableSize(n: nat): (ts: nat)
    ensures 2 * n <= BLOCK * ts < 2 * n + BLOCK
  {
    (2 * n) / BLOCK + if (2 * n) % BLOCK != 0 then 1 else 0
  }

  /** Entry i of a table in memory. */
  function EntryAt(mem: seq<Byte>, start: nat, i: nat): (v: nat)
    requires start + 2 * i + 2 <= |mem|
  {
    U16(mem[start + 2 * i], mem[start + 2 * i + 1])
  }

  /** The first n entries. */
  function Table(r: seq<Byte>, n: nat): (t: seq<nat>)
    requires 2 * n <= |r|
    ensures |t| == n
  {
    if n == 0 then [] else Table(r, n - 1) + [EntryAt(r, 0, n - 1)]
  }

  lemma {:induction false} TableAt(r: seq<Byte>, n: nat, b: nat)
    requires 2 * n <= |r| && b < n
    ensures Table(r, n)[b] == EntryAt(r, 0, b)
  {
    hide EntryAt;
    if b >= n - 1 {
    } else {
      TableAt(r, n - 1, b);
    }
  }

  /** The blocks behind the table; those of the table itself are left out. */
  function Blocks(r: seq<Byte>, n: nat): (bs: seq<seq<Byte>>)
    requires |r| == BLOCK * n
    ensures |bs| == n
    ensures forall b | TableSize(n) <= b < n :: |bs[b]| == BLOCK && bs[b] == r[BLOCK * b..BLOCK * b + BLOCK]
    ensures forall b | 0 <= b < n && b < TableSize(n) :: bs[b] == []
  {
    seq(n, b requires 0 <= b < n => if b < TableSize(n) then [] else r[BLOCK * b..BLOCK * b + BLOCK])
  }

  /** Writing an entry sets it, and leaves the other entries and the blocks behind the table alone. */
  lemma EntrySet(r: seq<Byte>, n: nat, b: nat, v: nat)
    requires |r| == BLOCK * n && b < n && v < 0x1_0000
    ensures var r' := Put(r, 2 * b, Bytes16(v));
            Table(r', n) == Table(r, n)[b := v] && Blocks(r', n) == Blocks(r, n)
  {
    var r' := Put(r, 2 * b, Bytes16(v));
    ReadsBack(v);
    hide Put, U16, High, Low, Blocks, Table, TableSize;
    forall c | 0 <= c < n ensures Table(r', n)[c] == Table(r, n)[b := v][c] {
      TableAt(r, n, c);
      TableAt(r', n, c);
      assert c == b ==> r'[2 * c] == Low(v) && r'[2 * c + 1] == High(v);
      assert c != b ==> r'[2 * c] == r[2 * c] && r'[2 * c + 1] == r[2 * c + 1];
    }
    forall c | 0 <= c < n ensures Blocks(r', n)[c] == Blocks(r, n)[c] {
      if TableSize(n) <= c {
        assert r'[BLOCK * c..BLOCK * c + BLOCK] == r[BLOCK * c..BLOCK * c + BLOCK];
      }
    }
  }

  /** Writing into a block changes that block only. */
  lemma BlockSet(r: seq<Byte>, n: nat, b: nat, off: nat, data: seq<Byte>)
    requires |r| == BLOCK * n && TableSize(n) <= b < n && off + |data| <= BLOCK
    ensures var r' := Put(r, BLOCK * b + off, data);
            Table(r', n) == Table(r, n) && Blocks(r', n) == Blocks(r, n)[b := Put(Blocks(r, n)[b], off, data)]
  {
    var r' := Put(r, BLOCK * b + off, data);
    hide Put, U16, Blocks, Table, TableSize;
    forall c | 0 <= c < n ensures Table(r', n)[c] == Table(r, n)[c] {
      TableAt(r, n, c);
      TableAt(r', n, c);
      assert r'[2 * c] == r[2 * c] && r'[2 * c + 1] == r[2 * c + 1];
    }
    var goal := Blocks(r, n)[b := Put(Blocks(r, n)[b], off, data)];
    forall c | 0 <= c < n ensures Blocks(r', n)[c] == goal[c] {
      if TableSize(n) <= c {
        assert r'[BLOCK * c..BLOCK * c + BLOCK] == goal[c];
      }
    }
  }

  /** Bytes of a block, where they lie in the whole memory. */
  lemma BlockBytes(mem: seq<Byte>, start: nat, n: nat, block: nat, offset: nat, len: nat)
    requires start + BLOCK * n <= |mem| && TableSize(n) <= block < n && offset + len <= BLOCK
    ensures |Blocks(mem[start..start + BLOCK * n], n)[block]| == BLOCK
    ensures mem[start + BLOCK * block + offset..start + BLOCK * block + offset + len]
            == Blocks(mem[start..start + BLOCK * n], n)[block][offset..offset + len]
  {
    hide TableSize;
    var r := mem[start..start + BLOCK * n];
    assert Blocks(r, n)[block] == r[BLOCK * block..BLOCK * block + BLOCK];
    var lhs, rhs := mem[start + BLOCK * block + offset..start + BLOCK * block + offset + len], Blocks(r, n)[block][offset..offset + len];
    forall i | 0 <= i < len ensures lhs[i] == rhs[i] {
      assert r[BLOCK * block..BLOCK * block + BLOCK][offset + i] == r[BLOCK * block + offset + i];
    }
  }

  lemma EntryBytes(mem: seq<Byte>, start: nat, n: nat, b: nat)
    requires start + BLOCK * n <= |mem| && b < n
    ensures EntryAt(mem, start, b) == Table(mem[start..start + BLOCK * n], n)[b]
  {
    hide U16, Table;
    TableAt(mem[start..start + BLOCK * n], n, b);
  }

  /** The bytes of an entry are those of its number. */
  lemma EntryInMemory(r: seq<Byte>, n: nat, b: nat)
    requires 2 * n <= |r| && b < n
    ensures Table(r, n)[b] < 0x1_0000 && r[2 * b..2 * b + 2] == Bytes16(Table(r, n)[b])
  {
    hide Table;
    TableAt(r, n, b);
    var lo, hi := r[2 * b], r[2 * b + 1];
    U16Bytes(lo, hi);
    assert r[2 * b..2 * b + 2] == [lo, hi];
  }

  lemma U16Bytes(lo: Byte, hi: Byte)
    ensures U16(lo, hi) < 0x1_0000 && Low(U16(lo, hi)) == lo && High(U16(lo, hi)) == hi
  {
    hide ByteOf;
    ByteBound(lo);
    ByteBound(hi);
    var v := U16(lo, hi);
    assert v % 256 == lo as int && v / 256 == hi as int;
    SameByte(Low(v), lo);
    SameByte(High(v), hi);
  }

  lemma ByteBound(b: Byte)
    ensures 0 <= b as int < 256
  {
  }

  lemma SameByte(a: Byte, b: Byte)
    requires a as int == b as int
    ensures a == b
  {
  }

  /** An unused entry takes any number without an erase, the end mark one whose bit 12 is clear. */
  lemma EntryTakes(r: seq<Byte>, n: nat, b: nat, v: nat)
    requires 2 * n <= |r| && b < n && v < 0x1_0000
    ensures Table(r, n)[b] == UNUSED ==> Writable(r, 2 * b, Bytes16(v))
    ensures Table(r, n)[b] == EOF ==> (Writable(r, 2 * b, Bytes16(v)) <==> (v / 4096) % 2 == 0)
  {
    hide Table, Low, High, Writable;
    EntryInMemory(r, n, b);
    if Table(r, n)[b] == UNUSED {
      AllOnes();
      U16Bytes(0xFF, 0xFF);
      assert r[2 * b..2 * b + 2] == [0xFF, 0xFF];
      assert r[2 * b] == r[2 * b..2 * b + 2][0] && r[2 * b + 1] == r[2 * b..2 * b + 2][1];
      ErasedIsWritable(r, 2 * b, Bytes16(v));
    }
    if Table(r, n)[b] == EOF {
      LinkNeedsNoErase(r, 2 * b, v);
    }
  }

  // ---------------------------------------------------------------- chains

  /** Blocks linked by the table, from the first to one that is marked as the end. No block occurs twice. */
  ghost predicate IsChain(t: seq<nat>, c: seq<nat>) {
    && c != []
    && (forall i | 0 <= i < |c| :: c[i] < |t|)
    && (forall i {:trigger t[c[i]]} | 0 <= i < |c| - 1 :: t[c[i]] == c[i + 1])
    && t[c[|c| - 1]] == EOF
    && (forall i, j | 0 <= i < j < |c| :: c[i] != c[j])
  }

  /** The bytes of the blocks of a chain. */
  function Content(bs: seq<seq<Byte>>, c: seq<nat>): seq<Byte>
    requires forall i | 0 <= i < |c| :: c[i] < |bs|
  {
    if c == [] then [] else Content(bs, c[..|c| - 1]) + bs[c[|c| - 1]]
  }

  /** A file of len bytes has one block at least. */
  function BlocksFor(len: nat): (k: nat)
    ensures k >= 1 && len <= BLOCK * k && (len > 0 ==> BLOCK * (k - 1) < len)
  {
    if len == 0 then 1 else (len + BLOCK - 1) / BLOCK
  }

  lemma EndIsLast(t: seq<nat>, c: seq<nat>, i: nat)
    requires IsChain(t, c) && |t| <= EOF && i < |c|
    ensures t[c[i]] == EOF <==> i == |c| - 1
    ensures i < |c| - 1 ==> t[c[i]] == c[i + 1]
  {
    if i < |c| - 1 {
      assert t[c[i]] == c[i + 1] && c[i + 1] < |t|;
    }
  }

  /** The first block and the table determine a chain. */
  lemma {:induction false} ChainUnique(t: seq<nat>, c: seq<nat>, c': seq<nat>, k: nat)
    requires IsChain(t, c) && IsChain(t, c') && c[0] == c'[0] && |t| <= EOF
    requires k <= |c|
    ensures k <= |c'| && c[..k] == c'[..k]
    ensures k == |c| ==> c == c'
  {
    if k == 0 {
    } else {
      ChainUnique(t, c, c', k - 1);
      if k > 1 {
        assert c[k - 2] == c[..k - 1][k - 2] == c'[..k - 1][k - 2] == c'[k - 2];
        assert t[c[k - 2]] == c[k - 1] < |t|;
      }
      assert k <= |c'| && c[k - 1] == c'[k - 1];
      assert c[..k] == c[..k - 1] + [c[k - 1]] && c'[..k] == c'[..k - 1] + [c'[k - 1]];
      if k == |c| {
        assert t[c[k - 1]] == EOF;
        EndIsLast(t, c', k - 1);
        assert c[..k] == c && c'[..k] == c';
      }
    }
  }

  lemma ChainKept(t: seq<nat>, b: nat, v: nat, c: seq<nat>)
    requires IsChain(t, c) && b < |t| && b !in c
    ensures IsChain(t[b := v], c)
  {
  }

  /** Marking a new block as the end, then linking it to the last block, makes the chain longer. */
  lemma ChainExtended(t: seq<nat>, c: seq<nat>, b: nat)
    requires IsChain(t, c) && b < |t| && b !in c
    ensures IsChain(t[b := EOF], c)
    ensures IsChain(t[b := EOF][c[|c| - 1] := b], c + [b])
  {
  }

  lemma {:induction false} ContentKept(bs: seq<seq<Byte>>, bs': seq<seq<Byte>>, c: seq<nat>)
    requires |bs'| == |bs| && forall i | 0 <= i < |c| :: c[i] < |bs| && bs'[c[i]] == bs[c[i]]
    ensures Content(bs', c) == Content(bs, c)
    decreases |c|
  {
    if c == [] {
    } else {
      ContentKept(bs, bs', c[..|c| - 1]);
    }
  }

  lemma {:induction false} ContentLength(bs: seq<seq<Byte>>, c: seq<nat>)
    requires forall i | 0 <= i < |c| :: c[i] < |bs| && |bs[c[i]]| == BLOCK
    ensures |Content(bs, c)| == BLOCK * |c|
    decreases |c|
  {
    if c == [] {
    } else {
      ContentLength(bs, c[..|c| - 1]);
    }
  }

  /** Block k of a chain lies at its place in the content. */
  lemma {:induction false} ContentBlock(bs: seq<seq<Byte>>, c: seq<nat>, k: nat)
    requires forall i | 0 <= i < |c| :: c[i] < |bs| && |bs[c[i]]| == BLOCK
    requires k < |c|
    ensures |Content(bs, c)| == BLOCK * |c| && BLOCK * k + BLOCK <= BLOCK * |c|
    ensures Content(bs, c)[BLOCK * k..BLOCK * k + BLOCK] == bs[c[k]]
    decreases |c|
  {
    ContentLength(bs, c);
    var front := c[..|c| - 1];
    ContentLength(bs, front);
    if k >= |c| - 1 {
    } else {
      ContentBlock(bs, front, k);
      assert Content(bs, c)[BLOCK * k..BLOCK * k + BLOCK] == Content(bs, front)[BLOCK * k..BLOCK * k + BLOCK];
    }
  }

  /** Writing behind the end of a file, in its last block, appends. */
  lemma AppendedInLast(bs: seq<seq<Byte>>, c: seq<nat>, off: nat, data: seq<Byte>)
    requires c != [] && forall i | 0 <= i < |c| :: c[i] < |bs| && |bs[c[i]]| == BLOCK
    requires forall i | 0 <= i < |c| - 1 :: c[i] != c[|c| - 1]
    requires off + |data| <= BLOCK
    ensures var last, len := c[|c| - 1], BLOCK * (|c| - 1) + off;
            var bs' := bs[last := Put(bs[last], off, data)];
            && len + |data| <= |Content(bs, c)| == |Content(bs', c)|
            && Content(bs', c)[..len + |data|] == Content(bs, c)[..len] + data
  {
    hide Put;
    var last, front := c[|c| - 1], c[..|c| - 1];
    var bs' := bs[last := Put(bs[last], off, data)];
    ContentKept(bs, bs', front);
    ContentLength(bs, front);
    assert Put(bs[last], off, data)[..off + |data|] == bs[last][..off] + data;
    assert Content(bs', c)[..BLOCK * (|c| - 1) + off + |data|] == Content(bs, front) + Put(bs[last], off, data)[..off + |data|];
    assert Content(bs, c)[..BLOCK * (|c| - 1) + off] == Content(bs, front) + bs[last][..off];
  }

  lemma ContentSnoc(bs: seq<seq<Byte>>, c: seq<nat>, b: nat)
    requires b < |bs| && forall i | 0 <= i < |c| :: c[i] < |bs|
    ensures Content(bs, c + [b]) == Content(bs, c) + bs[b]
  {
    assert (c + [b])[..|c|] == c;
  }

  // ---------------------------------------------------------------- unused blocks

  /** How many blocks from `from` on are unused. */
  function CountUnused(t: seq<nat>, from: nat): nat
    decreases |t| - from
  {
    if from >= |t| then 0 else (if t[from] == UNUSED then 1 else 0) + CountUnused(t, from + 1)
  }

  lemma {:induction false} CountKept(t: seq<nat>, b: nat, v: nat, from: nat)
    requires b < |t| && (b < from || (t[b] != UNUSED && v != UNUSED))
    ensures CountUnused(t[b := v], from) == CountUnused(t, from)
    decreases |t| - from
  {
    if from >= |t| {
    } else {
      CountKept(t, b, v, from + 1);
    }
  }

  // ---------------------------------------------------------------- files

  /** A directory entry: its block, and its offset there. */
  datatype Dirent = Dirent(block: nat, offset: nat)

  const ENTRY_SIZE: nat := 24
  const FIRST_BLOCK: nat := 16
  const FLAGS: nat := 18

  predicate InDirectory(e: Dirent, dirs: set<nat>) {
    e.block in dirs && e.offset % ENTRY_SIZE == 0 && e.offset + ENTRY_SIZE <= BLOCK
  }

  function FirstBlock(bs: seq<seq<Byte>>, e: Dirent): nat
    requires e.block < |bs| && e.offset + ENTRY_SIZE <= |bs[e.block]|
  {
    U16(bs[e.block][e.offset + FIRST_BLOCK], bs[e.block][e.offset + FIRST_BLOCK + 1])
  }

  /** Directories are blocks behind the table that are in use. */
  ghost predicate Directories(t: seq<nat>, bs: seq<seq<Byte>>, ts: nat, dirs: set<nat>) {
    && |t| == |bs| <= EOF && ts <= |t|
    && (forall b | ts <= b < |bs| :: |bs[b]| == BLOCK)
    && (forall b | 0 <= b < ts :: t[b] != UNUSED)
    && (forall d | d in dirs :: ts <= d < |t| && t[d] != UNUSED)
  }

  /** Chains lie behind the table, outside the directories, and do not meet. */
  ghost predicate Apart(ts: nat, dirs: set<nat>, chains: map<Dirent, seq<nat>>) {
    && (forall e, b: int {:trigger b in chains[e]} | e in chains && b in chains[e] :: ts <= b && b !in dirs)
    && (forall e, e', b: int | e in chains && e' in chains && e != e' && b in chains[e] :: b !in chains[e'])
  }

  ghost predicate Linked(t: seq<nat>, chains: map<Dirent, seq<nat>>) {
    forall e | e in chains :: IsChain(t, chains[e])
  }

  /** Each file has a directory entry that names the first block of its chain. */
  ghost predicate Named(bs: seq<seq<Byte>>, dirs: set<nat>, chains: map<Dirent, seq<nat>>)
    requires forall d | d in dirs :: d < |bs| && |bs[d]| == BLOCK
  {
    forall e | e in chains :: InDirectory(e, dirs) && chains[e] != [] && FirstBlock(bs, e) == chains[e][0]
  }

  ghost predicate Files(t: seq<nat>, bs: seq<seq<Byte>>, ts: nat, dirs: set<nat>, chains: map<Dirent, seq<nat>>) {
    Directories(t, bs, ts, dirs) && Apart(ts, dirs, chains) && Linked(t, chains) && Named(bs, dirs, chains)
  }

  lemma ChainBlocks(t: seq<nat>, bs: seq<seq<Byte>>, ts: nat, dirs: set<nat>, chains: map<Dirent, seq<nat>>, e: Dirent)
    requires Files(t, bs, ts, dirs, chains) && e in chains
    ensures IsChain(t, chains[e]) && chains[e] != []
    ensures forall b | b in chains[e] :: ts <= b < |t| && b !in dirs && t[b] != UNUSED
    ensures forall i | 0 <= i < |chains[e]| :: chains[e][i] < |bs| && |bs[chains[e][i]]| == BLOCK
  {
    var c := chains[e];
    assert IsChain(t, c);
    hide IsChain;
    forall b | b in c ensures ts <= b < |t| && b !in dirs && t[b] != UNUSED {
      ChainEntries(t, c, b);
    }
    forall i | 0 <= i < |c| ensures c[i] < |bs| && |bs[c[i]]| == BLOCK {
      assert c[i] in c;
    }
  }

  lemma ChainEntries(t: seq<nat>, c: seq<nat>, b: nat)
    requires IsChain(t, c) && |t| <= EOF && b in c
    ensures b < |t| && (t[b] < |t| || t[b] == EOF)
  {
    var i :| 0 <= i < |c| && c[i] == b;
    if i < |c| - 1 {
      assert t[c[i]] == c[i + 1] && c[i + 1] < |t|;
    }
  }

  /** Writing into a block of a file leaves the directories alone. */
  lemma FilesAfterWrite(t: seq<nat>, bs: seq<seq<Byte>>, ts: nat, dirs: set<nat>, chains: map<Dirent, seq<nat>>, b: nat, block: seq<Byte>)
    requires Files(t, bs, ts, dirs, chains) && ts <= b < |bs| && b !in dirs && |block| == BLOCK
    ensures Files(t, bs[b := block], ts, dirs, chains)
  {
    hide U16, IsChain;
    var bs' := bs[b := block];
    forall e | e in chains ensures InDirectory(e, dirs) && chains[e] != [] && FirstBlock(bs', e) == chains[e][0] {
      assert bs'[e.block] == bs[e.block];
    }
  }

  lemma ApartAfterExtend(ts: nat, dirs: set<nat>, chains: map<Dirent, seq<nat>>, e: Dirent, b: nat)
    requires Apart(ts, dirs, chains) && e in chains && ts <= b && b !in dirs
    requires forall e' | e' in chains :: b !in chains[e']
    ensures Apart(ts, dirs, chains[e := chains[e] + [b]])
  {
    var chains' := chains[e := chains[e] + [b]];
    forall e', x: int {:trigger x in chains'[e']} | e' in chains' && x in chains'[e'] ensures ts <= x && x !in dirs {
      assert e' in chains && (x in chains[e'] || x == b);
    }
    forall e', e'', x: int | e' in chains' && e'' in chains' && e' != e'' && x in chains'[e'] ensures x !in chains'[e''] {
      assert e' in chains && e'' in chains && b !in chains[e'] && b !in chains[e''];
    }
  }

  lemma LinkedAfterExtend(t: seq<nat>, ts: nat, dirs: set<nat>, chains: map<Dirent, seq<nat>>, e: Dirent, b: nat)
    requires Apart(ts, dirs, chains) && Linked(t, chains) && e in chains && b < |t|
    requires forall e' | e' in chains :: b !in chains[e']
    ensures chains[e] != []
    ensures var last := chains[e][|chains[e]| - 1];
            last < |t| && Linked(t[b := EOF][last := b], chains[e := chains[e] + [b]])
  {
    var c := chains[e];
    ChainExtended(t, c, b);
    var last := c[|c| - 1];
    var t', chains' := t[b := EOF][last := b], chains[e := c + [b]];
    assert last in c && last < |t|;
    hide IsChain;
    forall e' | e' in chains' ensures IsChain(t', chains'[e']) {
      if e' != e {
        ChainKept(t, b, EOF, chains[e']);
        ChainKept(t[b := EOF], last, b, chains[e']);
      }
    }
  }

  /** Taking an unused block for a file leaves the other files alone. */
  lemma FilesAfterExtend(t: seq<nat>, bs: seq<seq<Byte>>, ts: nat, dirs: set<nat>, chains: map<Dirent, seq<nat>>, e: Dirent, b: nat)
    requires Files(t, bs, ts, dirs, chains) && e in chains && b < |t| && t[b] == UNUSED
    ensures chains[e] != []
    ensures var last := chains[e][|chains[e]| - 1];
            && last < |t| && last != b
            && Files(t[b := EOF][last := b], bs, ts, dirs, chains[e := chains[e] + [b]])
  {
    forall e' | e' in chains ensures b !in chains[e'] {
      ChainBlocks(t, bs, ts, dirs, chains, e');
    }
    ChainBlocks(t, bs, ts, dirs, chains, e);
    assert ts <= b && b !in dirs;
    ApartAfterExtend(ts, dirs, chains, e, b);
    LinkedAfterExtend(t, ts, dirs, chains, e, b);
    hide IsChain, U16, Apart, Linked;
  }

  /** The table with the entries of a chain deleted. */
  ghost predicate Freed(t: seq<nat>, c: seq<nat>, t': seq<nat>) {
    |t'| == |t| && forall b | 0 <= b < |t| :: t'[b] == if b in c then DELETED else t[b]
  }

  /** The flags of a directory entry set to zero. */
  function Invalidated(bs: seq<seq<Byte>>, e: Dirent): (bs': seq<seq<Byte>>)
    requires e.block < |bs| && e.offset + ENTRY_SIZE <= |bs[e.block]|
  {
    bs[e.block := Put(bs[e.block], e.offset + FLAGS, Zeros(2))]
  }

  /** The entry then has flags zero, which are neither those of a free nor those of a valid one; its name, its block and
      its length are as before, and so is the rest of the directory. */
  lemma EntryInvalidated(bs: seq<seq<Byte>>, e: Dirent)
    requires e.block < |bs| && e.offset + ENTRY_SIZE <= |bs[e.block]|
    ensures var bs' := Invalidated(bs, e);
            && |bs'| == |bs| && |bs'[e.block]| == |bs[e.block]| && (forall b | 0 <= b < |bs| && b != e.block :: bs'[b] == bs[b])
            && Flags(bs', e) == 0
            && forall i | 0 <= i < |bs[e.block]| && i != e.offset + 18 && i != e.offset + 19 :: bs'[e.block][i] == bs[e.block][i]
  {
  }

  /** Removing a file leaves the other files alone. */
  lemma FilesAfterRemove(t: seq<nat>, bs: seq<seq<Byte>>, ts: nat, dirs: set<nat>, chains: map<Dirent, seq<nat>>, e: Dirent, t': seq<nat>)
    requires Files(t, bs, ts, dirs, chains) && e in chains && Freed(t, chains[e], t')
    ensures Files(t', Invalidated(bs, e), ts, dirs, chains - {e})
    ensures forall e' | e' in chains && e' != e :: Content(Invalidated(bs, e), chains[e']) == Content(bs, chains[e'])
  {
    var bs' := Invalidated(bs, e);
    forall e' | e' in chains ensures forall i | 0 <= i < |chains[e']| :: ts <= chains[e'][i] < |bs| && bs'[chains[e'][i]] == bs[chains[e'][i]] {
      ChainBlocks(t, bs, ts, dirs, chains, e');
      assert forall i | 0 <= i < |chains[e']| :: chains[e'][i] in chains[e'];
    }
    forall e' | e' in chains && e' != e ensures IsChain(t', chains[e']) && Content(bs', chains[e']) == Content(bs, chains[e']) {
      assert forall i | 0 <= i < |chains[e']| :: chains[e'][i] in chains[e'] && chains[e'][i] !in chains[e];
      ContentKept(bs, bs', chains[e']);
    }
    assert Apart(ts, dirs, chains - {e});
    forall e' | e' in chains && e' != e ensures FirstBlock(bs', e') == FirstBlock(bs, e') {
      if e'.block == e.block {
        FieldsApart(e.offset, e'.offset);
      }
    }
    assert e.block !in chains[e] && forall d | d in dirs :: d !in chains[e];
  }

  lemma FieldsApart(a: nat, b: nat)
    requires a % ENTRY_SIZE == 0 && b % ENTRY_SIZE == 0
    ensures b + FIRST_BLOCK + 2 <= a + FLAGS || a + FLAGS + 2 <= b + FIRST_BLOCK
  {
  }

  // ---------------------------------------------------------------- what files hold

  /** The bytes of the blocks of each file. */
  function Contents(bs: seq<seq<Byte>>, chains: map<Dirent, seq<nat>>): (m: map<Dirent, seq<Byte>>)
    requires forall e | e in chains :: forall i | 0 <= i < |chains[e]| :: chains[e][i] < |bs|
    ensures m.Keys == chains.Keys
  {
    map e | e in chains :: Content(bs, chains[e])
  }

  lemma ChainsInRange(t: seq<nat>, bs: seq<seq<Byte>>, ts: nat, dirs: set<nat>, chains: map<Dirent, seq<nat>>)
    requires Files(t, bs, ts, dirs, chains)
    ensures forall e | e in chains :: chains[e] != [] && forall i | 0 <= i < |chains[e]| :: chains[e][i] < |bs|
    ensures forall e | e in chains :: |Contents(bs, chains)[e]| == BLOCK * |chains[e]|
  {
    forall e | e in chains
      ensures chains[e] != [] && forall i | 0 <= i < |chains[e]| :: chains[e][i] < |bs|
      ensures |Content(bs, chains[e])| == BLOCK * |chains[e]|
    {
      ChainBlocks(t, bs, ts, dirs, chains, e);
      ContentLength(bs, chains[e]);
    }
  }

  /** The blocks with data written at an offset of the last block of a chain. */
  function WrittenLast(bs: seq<seq<Byte>>, c: seq<nat>, off: nat, data: seq<Byte>): (bs': seq<seq<Byte>>)
    requires c != [] && c[|c| - 1] < |bs| && |bs[c[|c| - 1]]| == BLOCK && off + |data| <= BLOCK
    ensures |bs'| == |bs| && forall b | 0 <= b < |bs| && b != c[|c| - 1] :: bs'[b] == bs[b]
  {
    var last := c[|c| - 1];
    bs[last := Put(bs[last], off, data)]
  }

  lemma FilesAfterAppend(t: seq<nat>, bs: seq<seq<Byte>>, ts: nat, dirs: set<nat>, chains: map<Dirent, seq<nat>>,
                         e: Dirent, off: nat, data: seq<Byte>)
    requires Files(t, bs, ts, dirs, chains) && e in chains && off + |data| <= BLOCK
    ensures chains[e] != []
    ensures var last := chains[e][|chains[e]| - 1];
            ts <= last < |bs| && |bs[last]| == BLOCK && last !in dirs
    ensures Files(t, WrittenLast(bs, chains[e], off, data), ts, dirs, chains)
  {
    hide U16, Put, IsChain;
    ChainBlocks(t, bs, ts, dirs, chains, e);
    ChainsInRange(t, bs, ts, dirs, chains);
    var c := chains[e];
    var last := c[|c| - 1];
    assert last in c;
    FilesAfterWrite(t, bs, ts, dirs, chains, last, Put(bs[last], off, data));
  }

  /** Writing in the last block of a file, behind its end, appends to it and leaves the other files alone. */
  lemma ContentsAfterAppend(t: seq<nat>, bs: seq<seq<Byte>>, ts: nat, dirs: set<nat>, chains: map<Dirent, seq<nat>>,
                            e: Dirent, off: nat, data: seq<Byte>, bs': seq<seq<Byte>>)
    requires Files(t, bs, ts, dirs, chains) && e in chains && off + |data| <= BLOCK
    requires chains[e] != [] && chains[e][|chains[e]| - 1] < |bs| && |bs[chains[e][|chains[e]| - 1]]| == BLOCK
    requires bs' == WrittenLast(bs, chains[e], off, data)
    ensures forall e' | e' in chains :: forall i | 0 <= i < |chains[e']| :: chains[e'][i] < |bs|
    ensures var len, before, after := BLOCK * (|chains[e]| - 1) + off, Contents(bs, chains), Contents(bs', chains);
            && len + |data| <= |before[e]| == |after[e]|
            && after[e][..len + |data|] == before[e][..len] + data
            && after - {e} == before - {e}
  {
    hide U16, Put, Directories, Named, Linked, Apart, IsChain, WrittenLast;
    ChainsInRange(t, bs, ts, dirs, chains);
    ChainBlocks(t, bs, ts, dirs, chains, e);
    LastIsNew(t, chains[e]);
    AppendedInLast(bs, chains[e], off, data);
    OthersAfterAppend(t, bs, ts, dirs, chains, e, bs');
    WrittenLastIs(bs, chains[e], off, data);
  }

  lemma WrittenLastIs(bs: seq<seq<Byte>>, c: seq<nat>, off: nat, data: seq<Byte>)
    requires c != [] && c[|c| - 1] < |bs| && |bs[c[|c| - 1]]| == BLOCK && off + |data| <= BLOCK
    ensures WrittenLast(bs, c, off, data) == bs[c[|c| - 1] := Put(bs[c[|c| - 1]], off, data)]
  {
  }

  lemma LastIsEnd(t: seq<nat>, c: seq<nat>)
    requires IsChain(t, c)
    ensures t[c[|c| - 1]] == EOF
  {
  }

  lemma LastIsNew(t: seq<nat>, c: seq<nat>)
    requires IsChain(t, c)
    ensures c != [] && forall i | 0 <= i < |c| - 1 :: c[i] != c[|c| - 1]
  {
  }

  lemma OthersAfterAppend(t: seq<nat>, bs: seq<seq<Byte>>, ts: nat, dirs: set<nat>, chains: map<Dirent, seq<nat>>,
                          e: Dirent, bs': seq<seq<Byte>>)
    requires Files(t, bs, ts, dirs, chains) && e in chains && chains[e] != [] && |bs'| == |bs|
    requires forall b | 0 <= b < |bs| && b != chains[e][|chains[e]| - 1] :: bs'[b] == bs[b]
    ensures forall e' | e' in chains :: forall i | 0 <= i < |chains[e']| :: chains[e'][i] < |bs|
    ensures Contents(bs', chains) - {e} == Contents(bs, chains) - {e}
  {
    hide U16, Put, Directories, Named, Linked, IsChain;
    ChainsInRange(t, bs, ts, dirs, chains);
    var last := chains[e][|chains[e]| - 1];
    assert last in chains[e];
    forall e' | e' in chains && e' != e ensures Content(bs', chains[e']) == Content(bs, chains[e']) {
      assert last !in chains[e'];
      ContentKept(bs, bs', chains[e']);
    }
  }

  /** A new block does not change what files hold. */
  lemma ContentsAfterExtend(t: seq<nat>, bs: seq<seq<Byte>>, ts: nat, dirs: set<nat>, chains: map<Dirent, seq<nat>>, e: Dirent, b: nat)
    requires Files(t, bs, ts, dirs, chains) && e in chains && b < |t| == |bs|
    ensures var chains' := chains[e := chains[e] + [b]];
            && (forall e' | e' in chains' :: forall i | 0 <= i < |chains'[e']| :: chains'[e'][i] < |bs|)
            && Contents(bs, chains') - {e} == Contents(bs, chains) - {e}
            && Contents(bs, chains) [e] <= Contents(bs, chains')[e]
  {
    hide U16, Directories, Named, Apart, Linked;
    ChainsInRange(t, bs, ts, dirs, chains);
    ContentSnoc(bs, chains[e], b);
  }

  lemma ContentsAfterRemove(t: seq<nat>, bs: seq<seq<Byte>>, ts: nat, dirs: set<nat>, chains: map<Dirent, seq<nat>>, e: Dirent, t': seq<nat>)
    requires Files(t, bs, ts, dirs, chains) && e in chains && Freed(t, chains[e], t')
    ensures e.block < |bs| && e.offset + ENTRY_SIZE <= |bs[e.block]|
    ensures forall e' | e' in chains :: forall i | 0 <= i < |chains[e']| :: chains[e'][i] < |bs|
    ensures Contents(Invalidated(bs, e), chains - {e}) == Contents(bs, chains) - {e}
  {
    hide U16, IsChain, Directories, Named, Linked, Apart;
    EntryInRange(t, bs, ts, dirs, chains, e);
    ChainsInRange(t, bs, ts, dirs, chains);
    FilesAfterRemove(t, bs, ts, dirs, chains, e, t');
  }

  lemma EntryInRange(t: seq<nat>, bs: seq<seq<Byte>>, ts: nat, dirs: set<nat>, chains: map<Dirent, seq<nat>>, e: Dirent)
    requires Files(t, bs, ts, dirs, chains) && e in chains
    ensures ts <= e.block < |bs| && |bs[e.block]| == BLOCK && e.offset + ENTRY_SIZE <= BLOCK
  {
  }

  // ---------------------------------------------------------------- room

  /** The first unused block from `from` on accounts for one. */
  lemma {:induction false} CountFirst(t: seq<nat>, from: nat, b: nat)
    requires from <= b < |t| && t[b] == UNUSED && forall i | from <= i < b :: t[i] != UNUSED
    ensures CountUnused(t, from) == 1 + CountUnused(t, b + 1)
    decreases b - from
  {
    if from >= b {
    } else {
      CountFirst(t, from + 1, b);
    }
  }

  lemma {:induction false} CountTells(t: seq<nat>, from: nat)
    ensures CountUnused(t, from) > 0 <==> exists b | from <= b < |t| :: t[b] == UNUSED
    decreases |t| - from
  {
    if from < |t| && t[from] != UNUSED {
      CountTells(t, from + 1);
    }
  }

  // ---------------------------------------------------------------- a new file

  const ENTRY_NEW: nat := 0xFFFF

  /** The entry of a file whose length has not been written yet. */
  function NewEntry(name: seq<Byte>, first: nat): (entry: seq<Byte>)
    requires |name| == 16 && first < 0x1_0000
    ensures |entry| == ENTRY_SIZE
  {
    name + Bytes16(first) + Bytes16(ENTRY_NEW) + Blank(4)
  }

  function WithNewEntry(bs: seq<seq<Byte>>, e: Dirent, name: seq<Byte>, first: nat): (bs': seq<seq<Byte>>)
    requires e.block < |bs| && e.offset + ENTRY_SIZE <= |bs[e.block]| && |name| == 16 && first < 0x1_0000
    ensures |bs'| == |bs| && forall b | 0 <= b < |bs| && b != e.block :: bs'[b] == bs[b]
  {
    bs[e.block := Put(bs[e.block], e.offset, NewEntry(name, first))]
  }

  /** The fields of a new entry: its name, its first block, all flags and a length of 0xFFFFFFFF; the rest of the block is
      as before. */
  lemma EntryCreated(bs: seq<seq<Byte>>, e: Dirent, name: seq<Byte>, first: nat)
    requires e.block < |bs| && |bs[e.block]| == BLOCK && e.offset + ENTRY_SIZE <= BLOCK && |name| == 16 && first < 0x1_0000
    ensures var bs' := WithNewEntry(bs, e, name, first);
            && |bs'[e.block]| == BLOCK && bs'[e.block][e.offset..e.offset + 16] == name
            && FirstBlock(bs', e) == first && Flags(bs', e) == 0xFFFF && Length(bs', e) == 0xFFFF_FFFF
            && forall i | 0 <= i < BLOCK && !(e.offset <= i < e.offset + 24) :: bs'[e.block][i] == bs[e.block][i]
  {
    hide Put, Low, High, Blank;
    ReadsBack(first);
    ReadsBack(ENTRY_NEW);
    AllOnes();
    var entry, b := NewEntry(name, first), WithNewEntry(bs, e, name, first)[e.block];
    assert forall k | 0 <= k < 24 :: b[e.offset + k] == entry[k];
    assert entry[..16] == name && entry[16] == Low(first) && entry[17] == High(first);
    assert entry[18] == Low(ENTRY_NEW) && entry[19] == High(ENTRY_NEW);
    assert forall k | 20 <= k < 24 :: entry[k] == ERASED;
  }

  /** The new entry names its block, and the other entries are as before. */
  lemma EntriesAfterCreate(bs: seq<seq<Byte>>, e: Dirent, name: seq<Byte>, first: nat)
    requires e.block < |bs| && |bs[e.block]| == BLOCK && e.offset % ENTRY_SIZE == 0 && e.offset + ENTRY_SIZE <= BLOCK
    requires |name| == 16 && first < 0x1_0000
    ensures |WithNewEntry(bs, e, name, first)[e.block]| == BLOCK
    ensures FirstBlock(WithNewEntry(bs, e, name, first), e) == first
    ensures forall e': Dirent | e' != e && e'.block < |bs| && |bs[e'.block]| == BLOCK && e'.offset % ENTRY_SIZE == 0 && e'.offset + ENTRY_SIZE <= BLOCK ::
              FirstBlock(WithNewEntry(bs, e, name, first), e') == FirstBlock(bs, e')
  {
    ReadsBack(first);
    hide U16, Low, High;
    var bs', entry := WithNewEntry(bs, e, name, first), NewEntry(name, first);
    assert entry[FIRST_BLOCK] == Low(first) && entry[FIRST_BLOCK + 1] == High(first);
    forall e': Dirent | e' != e && e'.block < |bs| && |bs[e'.block]| == BLOCK && e'.offset % ENTRY_SIZE == 0 && e'.offset + ENTRY_SIZE <= BLOCK
      ensures FirstBlock(bs', e') == FirstBlock(bs, e')
    {
      if e'.block == e.block {
        SlotsApart(e.offset, e'.offset);
      }
    }
  }

  /** A second file created in the entry of a first one leaves no entry that names the block of the first. */
  lemma NamedNoMore(t: seq<nat>, bs: seq<seq<Byte>>, ts: nat, dirs: set<nat>, chains: map<Dirent, seq<nat>>, e: Dirent,
                    first: nat, name: seq<Byte>, second: nat)
    requires Files(t, bs, ts, dirs, chains) && e in chains && chains[e] == [first] && |name| == 16 && first != second < 0x1_0000
    ensures e.block < |bs| && |bs[e.block]| == BLOCK && e.offset + ENTRY_SIZE <= BLOCK
    ensures var bs' := WithNewEntry(bs, e, name, second);
            forall f | f in chains :: f.block < |bs'| && f.offset + ENTRY_SIZE <= |bs'[f.block]| && FirstBlock(bs', f) != first
  {
    hide FirstBlock, WithNewEntry, IsChain;
    EntriesAfterCreate(bs, e, name, second);
    forall f | f in chains && f != e ensures FirstBlock(bs, f) != first {
      assert first in chains[e] && first !in chains[f];
      assert chains[f][0] in chains[f];
    }
  }

  lemma SlotsApart(a: nat, b: nat)
    requires a % ENTRY_SIZE == 0 && b % ENTRY_SIZE == 0 && a != b
    ensures a + ENTRY_SIZE <= b || b + ENTRY_SIZE <= a
  {
  }

  /** Creating a file leaves the other files alone. */
  lemma FilesAfterCreate(t: seq<nat>, bs: seq<seq<Byte>>, ts: nat, dirs: set<nat>, chains: map<Dirent, seq<nat>>,
                         e: Dirent, name: seq<Byte>, b: nat)
    requires Files(t, bs, ts, dirs, chains) && e !in chains && InDirectory(e, dirs) && |name| == 16
    requires b < |t| && t[b] == UNUSED
    ensures ts <= e.block < |bs| && |bs[e.block]| == BLOCK
    ensures Files(t[b := EOF], WithNewEntry(bs, e, name, b), ts, dirs, chains[e := [b]])
    ensures forall e' | e' in chains :: forall i | 0 <= i < |chains[e']| :: chains[e'][i] < |bs|
    ensures Contents(WithNewEntry(bs, e, name, b), chains[e := [b]]) - {e} == Contents(bs, chains)
  {
    hide U16, FirstBlock, WithNewEntry, Contents, NewEntry, Apart, IsChain, Linked, Named;
    EntryUsable(t, bs, ts, dirs, e);
    ChainsInRange(t, bs, ts, dirs, chains);
    ChainsMiss(t, bs, ts, dirs, chains, b);
    ApartAfterCreate(ts, dirs, chains, e, b);
    LinkedAfterCreate(t, chains, e, b);
    NamedAfterCreate(t, bs, ts, dirs, chains, e, name, b);
    ContentsAfterCreate(bs, WithNewEntry(bs, e, name, b), ts, dirs, chains, e, b);
  }

  lemma EntryUsable(t: seq<nat>, bs: seq<seq<Byte>>, ts: nat, dirs: set<nat>, e: Dirent)
    requires Directories(t, bs, ts, dirs) && InDirectory(e, dirs)
    ensures ts <= e.block < |bs| && |bs[e.block]| == BLOCK && e.offset % ENTRY_SIZE == 0 && e.offset + ENTRY_SIZE <= BLOCK
  {
  }

  /** An unused block belongs to no file, no directory and not to the table. */
  lemma ChainsMiss(t: seq<nat>, bs: seq<seq<Byte>>, ts: nat, dirs: set<nat>, chains: map<Dirent, seq<nat>>, b: nat)
    requires Files(t, bs, ts, dirs, chains) && b < |t| && t[b] == UNUSED
    ensures ts <= b && b !in dirs && forall e | e in chains :: b !in chains[e]
  {
    forall e | e in chains ensures b !in chains[e] {
      ChainBlocks(t, bs, ts, dirs, chains, e);
    }
  }

  lemma LinkedAfterCreate(t: seq<nat>, chains: map<Dirent, seq<nat>>, e: Dirent, b: nat)
    requires Linked(t, chains) && b < |t| && forall e' | e' in chains :: b !in chains[e']
    ensures Linked(t[b := EOF], chains[e := [b]])
  {
    assert IsChain(t[b := EOF], [b]);
    hide IsChain;
    forall e' | e' in chains && e' != e ensures IsChain(t[b := EOF], chains[e']) {
      ChainKept(t, b, EOF, chains[e']);
    }
  }

  lemma NamedAfterCreate(t: seq<nat>, bs: seq<seq<Byte>>, ts: nat, dirs: set<nat>, chains: map<Dirent, seq<nat>>,
                         e: Dirent, name: seq<Byte>, b: nat)
    requires Directories(t, bs, ts, dirs) && Named(bs, dirs, chains) && InDirectory(e, dirs) && |name| == 16 && b < 0x1_0000
    ensures e.block < |bs| && |bs[e.block]| == BLOCK
    ensures forall d | d in dirs :: d < |bs| && |WithNewEntry(bs, e, name, b)[d]| == BLOCK
    ensures Named(WithNewEntry(bs, e, name, b), dirs, chains[e := [b]])
  {
    hide WithNewEntry, FirstBlock;
    EntriesAfterCreate(bs, e, name, b);
  }

  lemma ContentsAfterCreate(bs: seq<seq<Byte>>, bs': seq<seq<Byte>>, ts: nat, dirs: set<nat>, chains: map<Dirent, seq<nat>>, e: Dirent, b: nat)
    requires |bs'| == |bs| && Apart(ts, dirs, chains) && e !in chains && e.block in dirs && b < |bs|
    requires forall d | 0 <= d < |bs| && d != e.block :: bs'[d] == bs[d]
    requires forall e' | e' in chains :: forall i | 0 <= i < |chains[e']| :: chains[e'][i] < |bs|
    ensures Contents(bs', chains[e := [b]]) - {e} == Contents(bs, chains)
  {
    forall e' | e' in chains ensures Content(bs', chains[e']) == Content(bs, chains[e']) {
      assert forall i | 0 <= i < |chains[e']| :: chains[e'][i] in chains[e'];
      ContentKept(bs, bs', chains[e']);
    }
  }

  lemma ApartAfterCreate(ts: nat, dirs: set<nat>, chains: map<Dirent, seq<nat>>, e: Dirent, b: nat)
    requires Apart(ts, dirs, chains) && e !in chains && ts <= b && b !in dirs
    requires forall e' | e' in chains :: b !in chains[e']
    ensures Apart(ts, dirs, chains[e := [b]])
  {
    var chains' := chains[e := [b]];
    forall e', x: int {:trigger x in chains'[e']} | e' in chains' && x in chains'[e'] ensures ts <= x && x !in dirs {
      assert if e' == e then x == b else x in chains[e'];
    }
    forall e', e'', x: int | e' in chains' && e'' in chains' && e' != e'' && x in chains'[e'] ensures x !in chains'[e''] {
      assert if e' == e then x == b else x in chains[e'];
    }
  }

  // ---------------------------------------------------------------- looking for an entry

  const ENTRY_FREE: nat := 0x8000
  const ENTRY_VALID: nat := 0x4000

  function Flags(bs: seq<seq<Byte>>, e: Dirent): nat
    requires e.block < |bs| && e.offset + ENTRY_SIZE <= |bs[e.block]|
  {
    U16(bs[e.block][e.offset + FLAGS], bs[e.block][e.offset + FLAGS + 1])
  }

  predicate HasFlag(flags: nat, flag: nat)
    requires flag > 0
  {
    (flags / flag) % 2 == 1
  }

  predicate IsFree(bs: seq<seq<Byte>>, e: Dirent)
    requires e.block < |bs| && e.offset + ENTRY_SIZE <= |bs[e.block]|
  {
    HasFlag(Flags(bs, e), ENTRY_FREE)
  }

  /** An entry is free exactly if the highest bit of its flags is set. */
  lemma FreeBit(bs: seq<seq<Byte>>, e: Dirent)
    requires e.block < |bs| && e.offset + ENTRY_SIZE <= |bs[e.block]|
    ensures IsFree(bs, e) <==> bs[e.block][e.offset + 19] & 0x80 != 0
  {
    var lo, hi := bs[e.block][e.offset + FLAGS], bs[e.block][e.offset + FLAGS + 1];
    ByteBound(lo);
    BitSeven(hi);
    assert U16(lo, hi) / ENTRY_FREE == (hi as int) / 128;
  }

  lemma BitSeven(b: Byte)
    ensures b & 0x80 != 0 <==> ((b as int) / 128) % 2 == 1
  {
  }

  /** The blocks of a directory. */
  ghost predicate IsDirectory(t: seq<nat>, bs: seq<seq<Byte>>, dirs: set<nat>, dc: seq<nat>)
  {
    && |t| == |bs| <= EOF && IsChain(t, dc)
    && forall k | 0 <= k < |dc| :: dc[k] < |bs| && dc[k] in dirs && |bs[dc[k]]| == BLOCK
  }

  /** The entry lies in one of the first k blocks of a directory, or in block k before an offset. */
  ghost predicate Precedes(dc: seq<nat>, e: Dirent, k: nat, offset: nat) {
    && e.offset % ENTRY_SIZE == 0 && e.offset + ENTRY_SIZE <= BLOCK
    && exists i | 0 <= i < |dc| :: dc[i] == e.block && (i < k || (i == k && e.offset < offset))
  }

  lemma DirectoryBlocks(t: seq<nat>, bs: seq<seq<Byte>>, dirs: set<nat>, dc: seq<nat>)
    requires IsDirectory(t, bs, dirs, dc)
    ensures |t| == |bs| <= EOF && forall k | 0 <= k < |dc| :: dc[k] < |bs| && |bs[dc[k]]| == BLOCK
  {
  }

  /** No entry before a place is marked as free. */
  ghost predicate NoneFree(bs: seq<seq<Byte>>, dc: seq<nat>, k: nat, offset: nat)
    requires forall i | 0 <= i < |dc| :: dc[i] < |bs| && |bs[dc[i]]| == BLOCK
  {
    forall e | Precedes(dc, e, k, offset) :: !IsFree(bs, e)
  }

  /** The first entry that is marked as free. */
  ghost predicate IsFirstFree(bs: seq<seq<Byte>>, dc: seq<nat>, k: nat, e: Dirent)
    requires forall i | 0 <= i < |dc| :: dc[i] < |bs| && |bs[dc[i]]| == BLOCK
  {
    && k < |dc| && e.block == dc[k] && e.offset % ENTRY_SIZE == 0 && e.offset + ENTRY_SIZE <= BLOCK
    && IsFree(bs, e) && NoneFree(bs, dc, k, e.offset)
  }

  lemma NothingBefore(bs: seq<seq<Byte>>, dc: seq<nat>)
    requires forall i | 0 <= i < |dc| :: dc[i] < |bs| && |bs[dc[i]]| == BLOCK
    ensures NoneFree(bs, dc, 0, 0)
  {
  }

  lemma NextSlot(a: nat, b: nat)
    requires a % ENTRY_SIZE == 0 && b % ENTRY_SIZE == 0 && a <= b < a + ENTRY_SIZE
    ensures a == b
  {
  }

  /** One entry further. */
  lemma NoneFreeNext(bs: seq<seq<Byte>>, t: seq<nat>, dc: seq<nat>, k: nat, offset: nat)
    requires forall i | 0 <= i < |dc| :: dc[i] < |bs| && |bs[dc[i]]| == BLOCK
    requires IsChain(t, dc) && k < |dc| && offset % ENTRY_SIZE == 0 && offset + ENTRY_SIZE <= BLOCK
    requires NoneFree(bs, dc, k, offset) && !IsFree(bs, Dirent(dc[k], offset))
    ensures NoneFree(bs, dc, k, offset + ENTRY_SIZE)
  {
    hide IsFree;
    forall e | Precedes(dc, e, k, offset + ENTRY_SIZE) ensures !IsFree(bs, e) {
      var i :| 0 <= i < |dc| && dc[i] == e.block && (i < k || (i == k && e.offset < offset + ENTRY_SIZE));
      if i == k && e.offset >= offset {
        NextSlot(offset, e.offset);
        assert e == Dirent(dc[k], offset);
      } else {
        assert Precedes(dc, e, k, offset);
      }
    }
  }

  /** One block further, when no entry fits in this one any more. */
  lemma NoneFreeInBlock(bs: seq<seq<Byte>>, t: seq<nat>, dc: seq<nat>, k: nat, offset: nat)
    requires forall i | 0 <= i < |dc| :: dc[i] < |bs| && |bs[dc[i]]| == BLOCK
    requires IsChain(t, dc) && k < |dc| && offset + ENTRY_SIZE > BLOCK && NoneFree(bs, dc, k, offset)
    ensures NoneFree(bs, dc, k + 1, 0)
  {
    hide IsFree;
    forall e | Precedes(dc, e, k + 1, 0) ensures !IsFree(bs, e) {
      var i :| 0 <= i < |dc| && dc[i] == e.block && i < k + 1;
      assert i < k || (i == k && e.offset < offset);
      assert Precedes(dc, e, k, offset);
    }
  }

  /** No file of the directory has an entry that is still marked as free. */
  ghost predicate AllFlushed(bs: seq<seq<Byte>>, dc: seq<nat>, chains: map<Dirent, seq<nat>>)
    requires forall i | 0 <= i < |dc| :: dc[i] < |bs| && |bs[dc[i]]| == BLOCK
  {
    forall f | f in chains && Precedes(dc, f, |dc|, 0) :: !IsFree(bs, f)
  }

  lemma FlushedUpTo(bs: seq<seq<Byte>>, dirs: set<nat>, chains: map<Dirent, seq<nat>>, t: seq<nat>, dc: seq<nat>, k: nat, e: Dirent)
    requires IsDirectory(t, bs, dirs, dc) && IsFirstFree(bs, dc, k, e) && AllFlushed(bs, dc, chains)
    ensures e !in chains
  {
    hide IsFree;
    assert Precedes(dc, e, |dc|, 0);
  }

  /** The first free entry belongs to no file if and only if no file up to there has an entry that is still marked as
      free. */
  lemma FirstFreeIsNoFile(bs: seq<seq<Byte>>, dirs: set<nat>, chains: map<Dirent, seq<nat>>, t: seq<nat>, dc: seq<nat>, k: nat, e: Dirent)
    requires IsDirectory(t, bs, dirs, dc) && IsFirstFree(bs, dc, k, e)
    ensures e !in chains <==> forall f | f in chains && Precedes(dc, f, k, e.offset + 1) :: !IsFree(bs, f)
  {
    hide IsFree;
    assert Precedes(dc, e, k, e.offset + 1);
    forall f | f in chains && Precedes(dc, f, k, e.offset + 1) && IsFree(bs, f) ensures f == e {
      assert f == e || Precedes(dc, f, k, e.offset);
    }
  }

  /** A new file's entry is marked as free until it is flushed; the marks of other entries are as before. */
  lemma NewEntryIsFree(bs: seq<seq<Byte>>, e: Dirent, name: seq<Byte>, first: nat)
    requires e.block < |bs| && e.offset + ENTRY_SIZE <= |bs[e.block]| == BLOCK && |name| == 16 && first < 0x1_0000
    ensures |WithNewEntry(bs, e, name, first)[e.block]| == BLOCK
    ensures IsFree(WithNewEntry(bs, e, name, first), e)
    ensures e.offset % ENTRY_SIZE == 0 ==>
              forall f: Dirent | f != e && f.block < |bs| && |bs[f.block]| == BLOCK && f.offset % ENTRY_SIZE == 0 && f.offset + ENTRY_SIZE <= BLOCK ::
                Flags(WithNewEntry(bs, e, name, first), f) == Flags(bs, f)
  {
    ReadsBack(ENTRY_NEW);
    hide U16, Low, High;
    var bs', entry := WithNewEntry(bs, e, name, first), NewEntry(name, first);
    assert entry[FLAGS] == Low(ENTRY_NEW) && entry[FLAGS + 1] == High(ENTRY_NEW);
    assert Flags(bs', e) == ENTRY_NEW;
    forall f: Dirent | e.offset % ENTRY_SIZE == 0 && f != e && f.block < |bs| && |bs[f.block]| == BLOCK && f.offset % ENTRY_SIZE == 0 && f.offset + ENTRY_SIZE <= BLOCK
      ensures Flags(bs', f) == Flags(bs, f)
    {
      if f.block == e.block {
        SlotsApart(e.offset, f.offset);
      }
    }
  }

  /** So a second file is given the entry of the first. */
  lemma NewEntryIsFirstFree(t: seq<nat>, bs: seq<seq<Byte>>, dirs: set<nat>, dc: seq<nat>, k: nat, e: Dirent, name: seq<Byte>, first: nat)
    requires IsDirectory(t, bs, dirs, dc) && IsFirstFree(bs, dc, k, e) && |name| == 16 && first < 0x1_0000
    ensures var bs' := WithNewEntry(bs, e, name, first);
            && (forall i | 0 <= i < |dc| :: |bs'[dc[i]]| == BLOCK)
            && IsFirstFree(bs', dc, k, e)
  {
    hide WithNewEntry, Flags;
    NewEntryIsFree(bs, e, name, first);
    var bs' := WithNewEntry(bs, e, name, first);
    forall f | Precedes(dc, f, k, e.offset) ensures !IsFree(bs', f) {
      var i :| 0 <= i < |dc| && dc[i] == f.block && (i < k || (i == k && f.offset < e.offset));
      assert f != e by { assert i == k ==> f.offset < e.offset; assert i < k ==> dc[i] != dc[k]; }
      assert !IsFree(bs, f);
    }
  }

  lemma FirstFreeUnique(t: seq<nat>, bs: seq<seq<Byte>>, dirs: set<nat>, dc: seq<nat>, k: nat, e: Dirent, k': nat, e': Dirent)
    requires IsDirectory(t, bs, dirs, dc) && IsFirstFree(bs, dc, k, e) && IsFirstFree(bs, dc, k', e')
    ensures e == e' && k == k'
  {
    hide IsFree;
    assert k < k' || (k == k' && e.offset < e'.offset) ==> Precedes(dc, e, k', e'.offset);
    assert k' < k || (k == k' && e'.offset < e.offset) ==> Precedes(dc, e', k, e.offset);
  }

  lemma FirstFreeExists(bs: seq<seq<Byte>>, dc: seq<nat>, k: nat, e: Dirent)
    requires forall i | 0 <= i < |dc| :: dc[i] < |bs| && |bs[dc[i]]| == BLOCK
    requires IsFirstFree(bs, dc, k, e)
    ensures !NoneFree(bs, dc, |dc|, 0)
  {
    hide IsFree;
    assert Precedes(dc, e, |dc|, 0);
  }

  /** Taking an unused block and rewriting an entry leave a directory what it was. */
  lemma DirectoryKept(t: seq<nat>, bs: seq<seq<Byte>>, bs': seq<seq<Byte>>, dirs: set<nat>, dc: seq<nat>, b: nat)
    requires IsDirectory(t, bs, dirs, dc) && b < |t| && t[b] == UNUSED
    requires |bs'| == |bs| && forall d | 0 <= d < |bs| :: |bs'[d]| == |bs[d]|
    ensures IsDirectory(t[b := EOF], bs', dirs, dc)
  {
    if b in dc {
      ChainEntries(t, dc, b);
    }
    ChainKept(t, b, EOF, dc);
  }

  // ---------------------------------------------------------------- writing back a new file's entry

  function Length(bs: seq<seq<Byte>>, e: Dirent): nat
    requires e.block < |bs| && e.offset + ENTRY_SIZE <= |bs[e.block]|
  {
    var b, at := bs[e.block], e.offset + LENGTH;
    U16(b[at], b[at + 1]) + 0x1_0000 * U16(b[at + 2], b[at + 3])
  }

  /** Flags and length of a file that has been written back. */
  function FlushedFields(length: nat): (fields: seq<Byte>)
    requires length < 0x1_0000_0000
    ensures |fields| == ENTRY_SIZE - FLAGS
  {
    Bytes16(ENTRY_VALID) + Bytes16(length % 0x1_0000) + Bytes16(length / 0x1_0000)
  }

  function WithFlushed(bs: seq<seq<Byte>>, e: Dirent, length: nat): (bs': seq<seq<Byte>>)
    requires e.block < |bs| && e.offset + ENTRY_SIZE <= |bs[e.block]| && length < 0x1_0000_0000
    ensures |bs'| == |bs| && |bs'[e.block]| == |bs[e.block]|
    ensures forall b | 0 <= b < |bs| && b != e.block :: bs'[b] == bs[b]
  {
    bs[e.block := Put(bs[e.block], e.offset + FLAGS, FlushedFields(length))]
  }

  /** An entry whose length is right already is left alone. */
  function AfterFlush(bs: seq<seq<Byte>>, e: Dirent, length: nat): seq<seq<Byte>>
    requires e.block < |bs| && e.offset + ENTRY_SIZE <= |bs[e.block]| && length < 0x1_0000_0000
  {
    if Length(bs, e) == length then bs else WithFlushed(bs, e, length)
  }

  /** The entry is not marked as free any more, and has its length; entries name the same blocks, and the marks of
      other entries are as before. */
  lemma EntryFlushed(bs: seq<seq<Byte>>, e: Dirent, length: nat)
    requires e.block < |bs| && |bs[e.block]| == BLOCK && e.offset % ENTRY_SIZE == 0 && e.offset + ENTRY_SIZE <= BLOCK
    requires length < 0x1_0000_0000
    ensures var bs' := WithFlushed(bs, e, length);
            && !IsFree(bs', e) && Length(bs', e) == length && Flags(bs', e) == 0x4000
            && |bs'[e.block]| == BLOCK && bs'[e.block][e.offset..e.offset + 18] == bs[e.block][e.offset..e.offset + 18]
            && forall f: Dirent | f.block < |bs| && |bs[f.block]| == BLOCK && f.offset % ENTRY_SIZE == 0 && f.offset + ENTRY_SIZE <= BLOCK ::
                 FirstBlock(bs', f) == FirstBlock(bs, f) && (f != e ==> Flags(bs', f) == Flags(bs, f))
  {
    ReadsBack(ENTRY_VALID);
    ReadsBack(length % 0x1_0000);
    ReadsBack(length / 0x1_0000);
    hide U16, Low, High;
    var bs', fields := WithFlushed(bs, e, length), FlushedFields(length);
    assert fields[0] == Low(ENTRY_VALID) && fields[1] == High(ENTRY_VALID);
    assert fields[2] == Low(length % 0x1_0000) && fields[3] == High(length % 0x1_0000);
    assert fields[4] == Low(length / 0x1_0000) && fields[5] == High(length / 0x1_0000);
    assert Flags(bs', e) == ENTRY_VALID;
    forall f: Dirent | f.block < |bs| && |bs[f.block]| == BLOCK && f.offset % ENTRY_SIZE == 0 && f.offset + ENTRY_SIZE <= BLOCK
      ensures FirstBlock(bs', f) == FirstBlock(bs, f) && (f != e ==> Flags(bs', f) == Flags(bs, f))
    {
      if f.block == e.block && f.offset != e.offset {
        SlotsApart(e.offset, f.offset);
      }
    }
  }

  /** Writing back the only new entry of a directory leaves none. */
  lemma AllFlushedAgain(bs: seq<seq<Byte>>, dc: seq<nat>, chains: map<Dirent, seq<nat>>, dirs: set<nat>,
                        e: Dirent, name: seq<Byte>, first: nat, length: nat)
    requires forall i | 0 <= i < |dc| :: dc[i] < |bs| && |bs[dc[i]]| == BLOCK
    requires AllFlushed(bs, dc, chains) && forall f | f in chains :: f.offset % ENTRY_SIZE == 0
    requires e.block < |bs| && |bs[e.block]| == BLOCK && e.offset % ENTRY_SIZE == 0 && e.offset + ENTRY_SIZE <= BLOCK
    requires |name| == 16 && first < 0x1_0000 && length < 0x1_0000_0000
    ensures var created := WithNewEntry(bs, e, name, first);
            && |created[e.block]| == BLOCK
            && var flushed := WithFlushed(created, e, length);
            && (forall i | 0 <= i < |dc| :: |flushed[dc[i]]| == BLOCK)
            && AllFlushed(flushed, dc, chains[e := [first]])
  {
    NewEntryIsFree(bs, e, name, first);
    var created := WithNewEntry(bs, e, name, first);
    EntryFlushed(created, e, length);
    hide WithNewEntry, WithFlushed, Flags;
    var flushed := WithFlushed(created, e, length);
    forall f | f in chains[e := [first]] && Precedes(dc, f, |dc|, 0) ensures !IsFree(flushed, f) {
      if f != e {
        assert !IsFree(bs, f);
        assert Flags(flushed, f) == Flags(created, f) == Flags(bs, f);
      }
    }
  }

  lemma NewEntryIsNew(bs: seq<seq<Byte>>, e: Dirent, name: seq<Byte>, first: nat)
    requires e.block < |bs| && e.offset + ENTRY_SIZE <= |bs[e.block]| == BLOCK && |name| == 16 && first < 0x1_0000
    ensures var bs' := WithNewEntry(bs, e, name, first);
            |bs'[e.block]| == BLOCK && Flags(bs', e) == ENTRY_NEW && Length(bs', e) == 0xFFFF_FFFF
  {
    ReadsBack(ENTRY_NEW);
    AllOnes();
    hide U16, Low, High;
    var bs', entry := WithNewEntry(bs, e, name, first), NewEntry(name, first);
    assert entry[FLAGS] == Low(ENTRY_NEW) && entry[FLAGS + 1] == High(ENTRY_NEW);
    assert entry[LENGTH] == entry[LENGTH + 1] == entry[LENGTH + 2] == entry[LENGTH + 3] == 0xFF;
  }

  lemma AllOnes()
    ensures U16(0xFF, 0xFF) == 0xFFFF
  {
  }

  /** Rewriting directory entries that still name the same blocks leaves all files as they are. */
  lemma FilesAfterListing(t: seq<nat>, bs: seq<seq<Byte>>, bs': seq<seq<Byte>>, ts: nat, dirs: set<nat>, chains: map<Dirent, seq<nat>>)
    requires Files(t, bs, ts, dirs, chains) && |bs'| == |bs|
    requires forall b | 0 <= b < |bs| :: |bs'[b]| == |bs[b]| && (b !in dirs ==> bs'[b] == bs[b])
    requires forall e | e in chains ::
               e.block < |bs| && e.offset + ENTRY_SIZE <= |bs[e.block]| && FirstBlock(bs', e) == FirstBlock(bs, e)
    ensures Files(t, bs', ts, dirs, chains)
    ensures forall e | e in chains :: forall i | 0 <= i < |chains[e]| :: chains[e][i] < |bs|
    ensures Contents(bs', chains) == Contents(bs, chains)
  {
    hide FirstBlock, IsChain;
    ChainsInRange(t, bs, ts, dirs, chains);
    forall e | e in chains ensures Content(bs', chains[e]) == Content(bs, chains[e]) {
      assert forall i | 0 <= i < |chains[e]| :: chains[e][i] in chains[e];
      ContentKept(bs, bs', chains[e]);
    }
  }

  lemma FilesAfterFlush(t: seq<nat>, bs: seq<seq<Byte>>, ts: nat, dirs: set<nat>, chains: map<Dirent, seq<nat>>, e: Dirent, length: nat)
    requires Files(t, bs, ts, dirs, chains) && e in chains && length < 0x1_0000_0000
    ensures ts <= e.block < |bs| && |bs[e.block]| == BLOCK && e.offset + ENTRY_SIZE <= BLOCK
    ensures var bs' := WithFlushed(bs, e, length);
            && bs' == bs[e.block := Put(bs[e.block], e.offset + FLAGS, FlushedFields(length))]
            && Files(t, bs', ts, dirs, chains)
            && (forall f | f in chains :: forall i | 0 <= i < |chains[f]| :: chains[f][i] < |bs|)
            && Contents(bs', chains) == Contents(bs, chains)
  {
    hide FlushedFields, FirstBlock, IsChain, Contents, Apart, Linked;
    EntryInRange(t, bs, ts, dirs, chains, e);
    EntryUsable(t, bs, ts, dirs, e);
    EntryFlushed(bs, e, length);
    ChainsInRange(t, bs, ts, dirs, chains);
    FilesAfterListing(t, bs, WithFlushed(bs, e, length), ts, dirs, chains);
  }

  // ---------------------------------------------------------------- an empty file system

  /** "MICROBIT_FS_1_0" and its end. */
  const MAGIC: seq<Byte> := [0x4D, 0x49, 0x43, 0x52, 0x4F, 0x42, 0x49, 0x54, 0x5F, 0x46, 0x53, 0x5F, 0x31, 0x5F, 0x30, 0x00]

  const LENGTH: nat := 20

  /** The first entry of the root directory: a signature, and the size of the file system. */
  function RootEntry(root: nat, n: nat): (entry: seq<Byte>)
    requires root < 0x1_0000 && n < 0x1_0000
    ensures |entry| == ENTRY_SIZE
  {
    MAGIC + Bytes16(root) + Bytes16(ENTRY_VALID) + Bytes16(n) + Bytes16(0)
  }

  /** The blocks of the table name the block behind it, which starts with the signature. */
  predicate LooksFormatted(mem: seq<Byte>, start: nat)
    requires start + 2 <= |mem| && start + BLOCK * (EntryAt(mem, start, 0) + 1) <= |mem|
  {
    var root := EntryAt(mem, start, 0);
    && (forall i | 0 <= i < root :: EntryAt(mem, start, i) == root)
    && (root > 0 ==> root < EOF)
    && mem[start + BLOCK * root..start + BLOCK * root + |MAGIC|] == MAGIC
  }

  /** The size that the first entry of the root directory names, in its 32 bits. */
  function StoredSize(mem: seq<Byte>, start: nat): nat
    requires start + 2 <= |mem| && start + BLOCK * (EntryAt(mem, start, 0) + 1) <= |mem|
  {
    var at := start + BLOCK * EntryAt(mem, start, 0) + LENGTH;
    U16(mem[at], mem[at + 1]) + 0x1_0000 * U16(mem[at + 2], mem[at + 3])
  }

  /** The table of an empty file system, as far as its first k entries. */
  ghost predicate EmptyTable(t: seq<nat>, ts: nat, k: nat) {
    && ts < |t| && k <= ts + 1
    && (forall b | 0 <= b < |t| :: t[b] == if b >= k then UNUSED else if b < ts then ts else EOF)
  }

  lemma BlankTable(r: seq<Byte>, n: nat)
    requires |r| == BLOCK * n && r == Blank(BLOCK * n) && TableSize(n) < n
    ensures EmptyTable(Table(r, n), TableSize(n), 0)
  {
    hide TableSize, Blank, Table;
    assert U16(0xFF, 0xFF) == UNUSED;
    forall b | 0 <= b < n ensures Table(r, n)[b] == UNUSED {
      TableAt(r, n, b);
    }
  }

  lemma EmptyIsValid(t: seq<nat>, bs: seq<seq<Byte>>, ts: nat)
    requires EmptyTable(t, ts, ts + 1) && |bs| == |t| <= EOF && forall b | ts <= b < |bs| :: |bs[b]| == BLOCK
    ensures Files(t, bs, ts, {ts}, map[])
  {
  }

  /** The first entry of the root directory is that of the directory itself: signature, its block, valid, and the size. */
  lemma RootDescribed(bs: seq<seq<Byte>>, root: nat, n: nat)
    requires root < |bs| && root < 0x1_0000 && n < 0x1_0000
    requires |bs[root]| == BLOCK && bs[root][0..ENTRY_SIZE] == RootEntry(root, n)
    ensures var e := Dirent(root, 0);
            && bs[root][..16] == MAGIC && FirstBlock(bs, e) == root && Flags(bs, e) == 0x4000 && Length(bs, e) == n
  {
    ReadsBack(root);
    ReadsBack(n);
    ReadsBack(0);
    ReadsBack(ENTRY_VALID);
    hide U16, Low, High;
    var b, entry := bs[root], RootEntry(root, n);
    assert b[..16] == entry[..16];
    assert forall i | 0 <= i < ENTRY_SIZE :: b[i] == b[0..ENTRY_SIZE][i] == entry[i];
  }

  /** A formatted region is recognised, with its size. */
  lemma FormattedIsFound(mem: seq<Byte>, start: nat, n: nat)
    requires 0 < n <= EOF && start + BLOCK * n <= |mem| && 0 < TableSize(n) < n
    requires EmptyTable(Table(mem[start..start + BLOCK * n], n), TableSize(n), TableSize(n) + 1)
    requires Blocks(mem[start..start + BLOCK * n], n)[TableSize(n)][0..ENTRY_SIZE] == RootEntry(TableSize(n), n)
    ensures EntryAt(mem, start, 0) == TableSize(n)
    ensures LooksFormatted(mem, start) && StoredSize(mem, start) == n
  {
    hide TableSize, U16, EntryAt, Table, Blocks, RootEntry, Bytes16;
    var ts := TableSize(n);
    forall i | 0 <= i < ts ensures EntryAt(mem, start, i) == ts {
      EntryBytes(mem, start, n, i);
    }
    assert EntryAt(mem, start, 0) == ts;
    BlockBytes(mem, start, n, ts, 0, ENTRY_SIZE);
    RootEntryFields(ts, n, mem, start + BLOCK * ts);
  }

  lemma RootEntryFields(root: nat, n: nat, mem: seq<Byte>, at: nat)
    requires root < 0x1_0000 && n < 0x1_0000 && at + ENTRY_SIZE <= |mem| && mem[at..at + ENTRY_SIZE] == RootEntry(root, n)
    ensures mem[at..at + |MAGIC|] == MAGIC
    ensures U16(mem[at + LENGTH], mem[at + LENGTH + 1]) == n && U16(mem[at + LENGTH + 2], mem[at + LENGTH + 3]) == 0
  {
    ReadsBack(n);
    ReadsBack(0);
    hide U16, Low, High;
    var entry := mem[at..at + ENTRY_SIZE];
    assert mem[at + LENGTH] == entry[LENGTH] && mem[at + LENGTH + 1] == entry[LENGTH + 1];
    assert mem[at + LENGTH + 2] == entry[LENGTH + 2] && mem[at + LENGTH + 3] == entry[LENGTH + 3];
    assert mem[at..at + |MAGIC|] == entry[..|MAGIC|];
  }
}
