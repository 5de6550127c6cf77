/** FSCache: a write-through cache of flash blocks with least-recently-used replacement. */
module FsCache {
  import opened NorFlash
  import opened Blocks
  import opened UsbFlash
  import opened RecentlyUsed

  datatype Page = NoPage | Loaded(bytes: seq<Byte>)

  datatype CacheEntry = CacheEntry(address: nat, lastUsed: nat, page: Page)

  /** Operation counts are 16 bits wide. */
  const COUNTER := 0x1_0000

  // ---------------------------------------------------------------- what the entries hold

  /** The page is a copy of its flash block, unless that block is a stale one. */
  ghost predicate Copies(e: CacheEntry, device: seq<Byte>, n: nat, stale: set<nat>)
    requires n > 0 && e.page.Loaded?
  {
    && Offset(e.address, n) == 0 && e.address + n <= |device| && |e.page.bytes| == n
    && (e.page.bytes == device[e.address..e.address + n] <==> e.address !in stale)
  }

  /** The loaded pages are copies of flash blocks, except exactly those of stale blocks, and no block is loaded twice. */
  ghost predicate Coherent(cache: seq<CacheEntry>, device: seq<Byte>, n: nat, stale: set<nat>)
    requires n > 0
  {
    && (forall i {:trigger cache[i]} | 0 <= i < |cache| && cache[i].page.Loaded? :: Copies(cache[i], device, n, stale))
    && (forall i, j {:trigger cache[i], cache[j]} | 0 <= i < j < |cache| && cache[i].page.Loaded? && cache[j].page.Loaded? ::
          cache[i].address != cache[j].address)
  }

  lemma NoBlockTwice(cache: seq<CacheEntry>, device: seq<Byte>, n: nat, stale: set<nat>)
    requires n > 0 && Coherent(cache, device, n, stale)
    ensures forall i, j | 0 <= i < j < |cache| && cache[i].page.Loaded? && cache[j].page.Loaded? ::
              cache[i].address != cache[j].address
  {
  }

  predicate Holds(cache: seq<CacheEntry>, a: nat) {
    exists i | 0 <= i < |cache| :: cache[i].page.Loaded? && cache[i].address == a
  }

  /** The loaded blocks are exactly the most recently used ones, as many as fit: no block that is not loaded has
      been used since one that is, and none at all has been dropped while an entry is empty. */
  ghost predicate MostRecentlyUsed(cache: seq<CacheEntry>, history: seq<nat>) {
    && (forall i | 0 <= i < |cache| && cache[i].page.Loaded? :: cache[i].address in history)
    && (forall i, b | 0 <= i < |cache| && cache[i].page.Loaded? && b in history && !Holds(cache, b) ::
          LastUse(history, b) < LastUse(history, cache[i].address))
    && ((exists i | 0 <= i < |cache| :: cache[i].page.NoPage?) ==> forall b | b in history :: Holds(cache, b))
  }

  /** The counts recorded in the entries order them as their last uses do. */
  ghost predicate CountsOrder(cache: seq<CacheEntry>, history: seq<nat>, ticks: nat) {
    && (forall i | 0 <= i < |cache| && cache[i].page.Loaded? :: cache[i].lastUsed <= ticks)
    && (forall i, j {:trigger cache[i], cache[j]} | 0 <= i < |cache| && 0 <= j < |cache| && cache[i].page.Loaded? && cache[j].page.Loaded? ::
          cache[i].lastUsed < cache[j].lastUsed <==>
          LastUse(history, cache[i].address) < LastUse(history, cache[j].address))
  }

  lemma HitKeepsOrder(cache: seq<CacheEntry>, history: seq<nat>, ticks: nat, k: nat, ticks': nat)
    requires k < |cache| && cache[k].page.Loaded? && ticks < ticks'
    requires MostRecentlyUsed(cache, history) && CountsOrder(cache, history, ticks)
    requires forall i | 0 <= i < |cache| && i != k && cache[i].page.Loaded? :: cache[i].address != cache[k].address
    ensures var cache', history' := cache[k := cache[k].(lastUsed := ticks')], history + [cache[k].address];
            MostRecentlyUsed(cache', history') && CountsOrder(cache', history', ticks')
  {
    hide Holds, LastUse;
    UsesAfter(history, cache[k].address);
    SameHolds(cache, cache[k := cache[k].(lastUsed := ticks')]);
  }

  lemma SameHolds(cache: seq<CacheEntry>, cache': seq<CacheEntry>)
    requires |cache| == |cache'|
    requires forall i | 0 <= i < |cache| ::
               cache[i].address == cache'[i].address && (cache[i].page.Loaded? <==> cache'[i].page.Loaded?)
    ensures forall b :: Holds(cache', b) <==> Holds(cache, b)
  {
    forall b ensures Holds(cache', b) <==> Holds(cache, b) {
      if Holds(cache, b) {
        var i :| 0 <= i < |cache| && cache[i].page.Loaded? && cache[i].address == b;
        assert cache'[i].address == b;
      }
      if Holds(cache', b) {
        var i :| 0 <= i < |cache| && cache'[i].page.Loaded? && cache'[i].address == b;
        assert cache[i].address == b;
      }
    }
  }

  lemma UsesAfter(history: seq<nat>, a: nat)
    ensures forall b :: LastUse(history + [a], b) == if a == b then |history| + 1 else LastUse(history, b)
    ensures forall b :: LastUse(history, b) <= |history|
  {
    forall b
      ensures LastUse(history + [a], b) == if a == b then |history| + 1 else LastUse(history, b)
      ensures LastUse(history, b) <= |history|
    {
      LastUseAfter(history, a, b);
      LastUseIsAccess(history, b);
    }
  }

  /** Loading a block into an empty entry, or over the entry with the smallest count, keeps the order. */
  lemma MissKeepsOrder(cache: seq<CacheEntry>, history: seq<nat>, ticks: nat, v: nat, a: nat, bytes: seq<Byte>)
    requires v < |cache| && !Holds(cache, a)
    requires MostRecentlyUsed(cache, history) && CountsOrder(cache, history, ticks)
    requires forall i, j | 0 <= i < j < |cache| && cache[i].page.Loaded? && cache[j].page.Loaded? ::
               cache[i].address != cache[j].address
    requires cache[v].page.Loaded? ==>
               forall i | 0 <= i < |cache| :: cache[i].page.Loaded? && cache[v].lastUsed <= cache[i].lastUsed
    ensures var cache', history' := cache[v := CacheEntry(a, ticks + 1, Loaded(bytes))], history + [a];
            MostRecentlyUsed(cache', history') && CountsOrder(cache', history', ticks + 1)
  {
    hide LastUse;
    var cache', history' := cache[v := CacheEntry(a, ticks + 1, Loaded(bytes))], history + [a];
    UsesAfter(history, a);
    forall b ensures Holds(cache', b) <==> b == a || (Holds(cache, b) && !(cache[v].page.Loaded? && cache[v].address == b)) {
      HoldsAfterLoad(cache, v, a, bytes, ticks + 1, b);
    }
    forall i, b | 0 <= i < |cache'| && cache'[i].page.Loaded? && b in history' && !Holds(cache', b)
      ensures LastUse(history', b) < LastUse(history', cache'[i].address)
    {
      if i != v && Holds(cache, b) {
        // b was in the victim, which has the smallest count
        assert cache[v].lastUsed <= cache[i].lastUsed && cache[v].address == b;
        assert cache[i].address != cache[v].address && cache[i].address in history;
        if LastUse(history, b) == LastUse(history, cache[i].address) {
          LastUseTells(history, cache[i].address, b);
        }
      }
    }
  }

  lemma HoldsAfterLoad(cache: seq<CacheEntry>, v: nat, a: nat, bytes: seq<Byte>, count: nat, b: nat)
    requires v < |cache|
    requires forall i, j | 0 <= i < j < |cache| && cache[i].page.Loaded? && cache[j].page.Loaded? ::
               cache[i].address != cache[j].address
    ensures Holds(cache[v := CacheEntry(a, count, Loaded(bytes))], b)
       <==> b == a || (Holds(cache, b) && !(cache[v].page.Loaded? && cache[v].address == b))
  {
    var cache' := cache[v := CacheEntry(a, count, Loaded(bytes))];
    assert cache'[v].address == a;
    if Holds(cache', b) && b != a {
      var i :| 0 <= i < |cache| && cache'[i].page.Loaded? && cache'[i].address == b;
      assert cache[i].address == b;
    }
    if Holds(cache, b) && !(cache[v].page.Loaded? && cache[v].address == b) {
      var i :| 0 <= i < |cache| && cache[i].page.Loaded? && cache[i].address == b;
      assert cache'[i].address == b;
    }
  }

  /** What a page holds does not matter to the order. */
  lemma OrderIgnoresBytes(cache: seq<CacheEntry>, history: seq<nat>, ticks: nat, e: nat, bytes: seq<Byte>)
    requires e < |cache| && cache[e].page.Loaded?
    requires MostRecentlyUsed(cache, history) && CountsOrder(cache, history, ticks)
    ensures var cache' := cache[e := cache[e].(page := Loaded(bytes))];
            MostRecentlyUsed(cache', history) && CountsOrder(cache', history, ticks)
  {
    hide Holds, LastUse;
    SameHolds(cache, cache[e := cache[e].(page := Loaded(bytes))]);
  }

  /** Other blocks are not touched by a change of one. */
  lemma BlockUntouched(device: seq<Byte>, device': seq<Byte>, n: nat, a: nat, b: nat)
    requires n > 0 && Offset(a, n) == 0 && Offset(b, n) == 0 && a != b && b + n <= |device| == |device'|
    requires forall i | 0 <= i < |device| && !(a <= i < a + n) :: device'[i] == device[i]
    ensures device'[b..b + n] == device[b..b + n]
  {
    hide Offset;
    if a < b { MultiplesApart(a, b, n); } else { MultiplesApart(b, a, n); }
  }

  /** Changing a block in flash and in its page alike keeps the cache coherent. */
  lemma BothChange(cache: seq<CacheEntry>, device: seq<Byte>, n: nat, stale: set<nat>, e: nat, device': seq<Byte>)
    requires n > 0 && Coherent(cache, device, n, stale) && e < |cache| && cache[e].page.Loaded? && cache[e].address !in stale
    requires |device'| == |device|
    requires forall i | 0 <= i < |device| && !(cache[e].address <= i < cache[e].address + n) :: device'[i] == device[i]
    ensures cache[e].address + n <= |device|
    ensures var a := cache[e].address;
            Coherent(cache[e := cache[e].(page := Loaded(device'[a..a + n]))], device', n, stale)
  {
    hide Offset;
    var a := cache[e].address;
    assert Copies(cache[e], device, n, stale);
    var cache' := cache[e := cache[e].(page := Loaded(device'[a..a + n]))];
    forall i | 0 <= i < |cache'| && cache'[i].page.Loaded? ensures Copies(cache'[i], device', n, stale) {
      if i != e {
        var b := cache[i].address;
        assert Copies(cache[i], device, n, stale) && b != a;
        BlockUntouched(device, device', n, a, b);
      }
    }
  }

  /** Changing a block in flash that is not in the cache keeps it coherent. */
  lemma AbsentChange(cache: seq<CacheEntry>, device: seq<Byte>, n: nat, stale: set<nat>, a: nat, device': seq<Byte>)
    requires n > 0 && Coherent(cache, device, n, stale) && !Holds(cache, a) && Offset(a, n) == 0
    requires |device'| == |device|
    requires forall i | 0 <= i < |device| && !(a <= i < a + n) :: device'[i] == device[i]
    ensures Coherent(cache, device', n, stale)
  {
    hide Offset;
    forall i | 0 <= i < |cache| && cache[i].page.Loaded? ensures Copies(cache[i], device', n, stale) {
      var b := cache[i].address;
      assert Copies(cache[i], device, n, stale) && b != a;
      BlockUntouched(device, device', n, a, b);
    }
  }

  /** The blocks of a range that the cache holds and that are not blank. */
  ghost function Outdated(cache: seq<CacheEntry>, page: nat, ps: nat, n: nat): set<nat> {
    set i | 0 <= i < |cache| && cache[i].page.Loaded? && page <= cache[i].address < page + ps && cache[i].page.bytes != Blank(n) ::
      cache[i].address
  }

  /** Erasing flash behind the back of the cache makes stale exactly those. */
  lemma ErasedBehind(cache: seq<CacheEntry>, device: seq<Byte>, n: nat, page: nat, ps: nat)
    requires n > 0 && Coherent(cache, device, n, {}) && page + ps <= |device|
    requires Offset(page, n) == 0 && Offset(page + ps, n) == 0
    ensures Coherent(cache, Put(device, page, Blank(ps)), n, Outdated(cache, page, ps, n))
  {
    hide Offset, Put;
    var device', stale := Put(device, page, Blank(ps)), Outdated(cache, page, ps, n);
    forall i | 0 <= i < |cache| && cache[i].page.Loaded? ensures Copies(cache[i], device', n, stale) {
      var a := cache[i].address;
      assert Copies(cache[i], device, n, {});
      if page <= a < page + ps {
        MultiplesApart(a, page + ps, n);
        assert device'[a..a + n] == Blank(n);
        assert a in stale <==> cache[i].page.bytes != Blank(n);
      } else {
        if a < page { MultiplesApart(a, page, n); }
        assert device'[a..a + n] == device[a..a + n];
      }
    }
  }

  lemma UseKeepsCoherent(cache: seq<CacheEntry>, device: seq<Byte>, n: nat, stale: set<nat>, e: nat, count: nat)
    requires n > 0 && Coherent(cache, device, n, stale) && e < |cache|
    ensures Coherent(cache[e := cache[e].(lastUsed := count)], device, n, stale)
  {
    var cache' := cache[e := cache[e].(lastUsed := count)];
    forall i | 0 <= i < |cache'| && cache'[i].page.Loaded? ensures Copies(cache'[i], device, n, stale) {
      assert Copies(cache[i], device, n, stale);
    }
  }

  /** Loading a block that is not in the cache keeps it coherent; the block is not stale any more. */
  lemma LoadKeepsCoherent(cache: seq<CacheEntry>, device: seq<Byte>, n: nat, stale: set<nat>, v: nat, a: nat, count: nat)
    requires n > 0 && Coherent(cache, device, n, stale) && v < |cache| && !Holds(cache, a)
    requires Offset(a, n) == 0 && a + n <= |device|
    ensures Coherent(cache[v := CacheEntry(a, count, Loaded(device[a..a + n]))], device, n, stale - {a})
  {
    forall i | 0 <= i < |cache| && cache[i].page.Loaded? ensures cache[i].address != a {
      assert !(cache[i].page.Loaded? && cache[i].address == a);
    }
  }

  // ---------------------------------------------------------------- which blocks are held

  /** The blocks in the first k entries. */
  ghost function Addresses(cache: seq<CacheEntry>, k: nat): set<nat>
    requires k <= |cache|
  {
    set i | 0 <= i < k && cache[i].page.Loaded? :: cache[i].address
  }

  lemma AddressStep(cache: seq<CacheEntry>, k: nat)
    requires k < |cache|
    requires forall i | 0 <= i < k && cache[i].page.Loaded? && cache[k].page.Loaded? :: cache[i].address != cache[k].address
    ensures Addresses(cache, 0) == {}
    ensures if cache[k].page.Loaded? then
              cache[k].address !in Addresses(cache, k) && Addresses(cache, k + 1) == Addresses(cache, k) + {cache[k].address}
            else Addresses(cache, k + 1) == Addresses(cache, k)
  {
  }

  lemma {:induction false} AddressCount(cache: seq<CacheEntry>, k: nat)
    requires k <= |cache|
    requires forall i, j | 0 <= i < j < |cache| && cache[i].page.Loaded? && cache[j].page.Loaded? ::
               cache[i].address != cache[j].address
    ensures |Addresses(cache, k)| <= k
    ensures (forall i | 0 <= i < k :: cache[i].page.Loaded?) ==> |Addresses(cache, k)| == k
  {
    if k == 0 {
      assert Addresses(cache, k) == {};
    } else {
      hide Addresses;
      AddressStep(cache, k - 1);
      AddressCount(cache, k - 1);
    }
  }

  lemma SubsetCount(a: set<nat>, b: set<nat>)
    requires a <= b
    ensures |a| <= |b|
  {
    assert b == a + (b - a);
  }

  /** A block is held exactly if it has been used, and fewer other blocks since than there are entries. */
  lemma HeldIfRecent(cache: seq<CacheEntry>, history: seq<nat>, a: nat)
    requires MostRecentlyUsed(cache, history)
    requires forall i, j | 0 <= i < j < |cache| && cache[i].page.Loaded? && cache[j].page.Loaded? ::
               cache[i].address != cache[j].address
    ensures Holds(cache, a) <==> a in history && |Recent(history, a)| < |cache|
  {
    hide LastUse, Recent;
    var held := Addresses(cache, |cache|);
    AddressCount(cache, |cache|);
    RecentIsLater(history, a, a);
    if Holds(cache, a) {
      forall b | b in Recent(history, a) ensures b in held - {a} {
        RecentIsLater(history, a, b);
        LastUseIsAccess(history, b);
        var i :| 0 <= i < |cache| && cache[i].page.Loaded? && cache[i].address == a;
        assert Holds(cache, b);
      }
      assert a in held;
      SubsetCount(Recent(history, a), held - {a});
    } else if a in history {
      forall b | b in held ensures b in Recent(history, a) {
        RecentIsLater(history, a, b);
      }
      SubsetCount(held, Recent(history, a));
    }
  }

  // ---------------------------------------------------------------- blocks and words of a range

  /** The blocks of size n that meet [lo, hi), in order. */
  function BlocksOf(lo: nat, hi: nat, n: nat): seq<nat>
    requires n > 0
    decreases hi - lo
  {
    if lo >= hi then []
    else
      assert Floor(lo, n) + n > lo by { FloorBounds(lo, n); }
      [Floor(lo, n)] + BlocksOf(Floor(lo, n) + n, hi, n)
  }

  lemma NoBlocks(a: nat, n: nat)
    requires n > 0
    ensures BlocksOf(a, a, n) == []
  {
  }

  /** They are the blocks that end behind lo and start before hi. */
  lemma {:induction false} BlocksOfAre(lo: nat, hi: nat, n: nat)
    requires n > 0
    ensures forall b | b in BlocksOf(lo, hi, n) :: Offset(b, n) == 0 && lo < b + n && b < hi
    ensures forall b: nat | Offset(b, n) == 0 && lo < b + n && b < hi && lo < hi :: b in BlocksOf(lo, hi, n)
    decreases hi - lo
  {
    hide Floor, Offset;
    if lo >= hi {
    } else {
      var first := Floor(lo, n);
      FloorBounds(lo, n);
      BlocksOfAre(first + n, hi, n);
      forall b: nat | Offset(b, n) == 0 && lo < b + n && b < hi && b != first ensures b >= first + n {
        if b < first { MultiplesApart(b, first, n); } else { MultiplesApart(first, b, n); }
      }
    }
  }

  lemma {:induction false} BlocksCount(lo: nat, hi: nat, n: nat)
    requires n > 0 && lo <= hi
    ensures |BlocksOf(lo, hi, n)| <= hi - lo
    decreases hi - lo
  {
    hide Floor;
    if lo == hi {
    } else {
      FloorBounds(lo, n);
      if Floor(lo, n) + n < hi { BlocksCount(Floor(lo, n) + n, hi, n); }
    }
  }

  /** The blocks up to an address that a block starts at are a prefix. */
  lemma {:induction false} BlocksSplit(lo: nat, b: nat, hi: nat, n: nat)
    requires n > 0 && Offset(b, n) == 0 && lo <= b <= hi
    ensures BlocksOf(lo, hi, n) == BlocksOf(lo, b, n) + BlocksOf(b, hi, n)
    decreases b - lo
  {
    hide Floor, Offset;
    if lo == b {
    } else {
      var first := Floor(lo, n);
      FloorBounds(lo, n);
      MultiplesApart(first, b, n);
      SumOfMultiples(first, n, n) by { OffsetOfSelf(n); }
      BlocksSplit(first + n, b, hi, n);
    }
  }

  function WordFloor(a: nat): nat { a - a % WORD }

  function WordCeil(a: nat): nat { if a % WORD != 0 then WordFloor(a) + WORD else a }

  lemma WordBounds(block: nat, n: nat, a: nat, length: nat)
    requires block % WORD == 0 && n % WORD == 0 && block <= a && a + length <= block + n
    ensures block <= WordFloor(a) <= a && a + length <= WordCeil(a + length) <= block + n
    ensures (WordCeil(a + length) - WordFloor(a)) % WORD == 0
  {
    WordRounds(a);
    WordRounds(a + length);
    hide WordFloor, WordCeil;
    var b, e := block / WORD, (block + n) / WORD;
    assert block == WORD * b && block + n == WORD * e;
    assert b <= a / WORD && (a + length + WORD - 1) / WORD <= e;
  }

  lemma WordRounds(a: nat)
    ensures WordFloor(a) == WORD * (a / WORD) <= a <= WordCeil(a) == WORD * ((a + WORD - 1) / WORD)
  {
  }

  /** Writing the whole words around some bytes of a block sets exactly those bytes, as the others are burnt
      over themselves. */
  lemma WordsBurnAsBytes(device: seq<Byte>, block: nat, n: nat, a: nat, data: seq<Byte>, lo: nat, hi: nat)
    requires block <= lo <= a && a + |data| <= hi <= block + n <= |device|
    requires Writable(device, a, data)
    ensures var page := Put(device[block..block + n], a - block, data);
            Burn(device, lo, page[lo - block..hi - block]) == Put(device, a, data)
  {
    var page := Put(device[block..block + n], a - block, data);
    var words := page[lo - block..hi - block];
    forall k | 0 <= k < |words| ensures words[k] == Put(device, a, data)[lo + k] {
      assert words[k] == page[lo - block + k];
    }
    BurnOverSelf(device, lo, words, Put(device, a, data), a, data);
  }

  /** Storing a chunk in a page and burning the whole words around it keeps the two alike. */
  lemma ChunkStored(cache: seq<CacheEntry>, device: seq<Byte>, n: nat, stale: set<nat>, e: nat, a: nat, chunk: seq<Byte>, lo: nat, hi: nat)
    requires n > 0 && Coherent(cache, device, n, stale) && e < |cache| && cache[e].page.Loaded? && cache[e].address !in stale
    requires cache[e].address <= lo <= a && a + |chunk| <= hi <= cache[e].address + n <= |device|
    requires Writable(device, a, chunk)
    ensures |cache[e].page.bytes| == n
    ensures var block := cache[e].address;
            var page := Put(cache[e].page.bytes, a - block, chunk);
            && Burn(device, lo, page[lo - block..hi - block]) == Put(device, a, chunk)
            && Coherent(cache[e := cache[e].(page := Loaded(page))], Put(device, a, chunk), n, stale)
  {
    hide Put, Burn, Offset, Writable;
    var block := cache[e].address;
    assert Copies(cache[e], device, n, stale);
    var page, device' := Put(cache[e].page.bytes, a - block, chunk), Put(device, a, chunk);
    WordsBurnAsBytes(device, block, n, a, chunk, lo, hi);
    assert page == device'[block..block + n];
    BothChange(cache, device, n, stale, e, device');
  }

  class FSCache {
    const flash: MicroBitUSBFlashManager
    const blockSize: nat
    const cache: array<CacheEntry>
    var operationCount: nat

    /** The blocks accessed since the cache was last cleared, the number of ticks of the counter, and the blocks whose
        flash has changed behind the cache while it held them. */
    ghost var history: seq<nat>
    ghost var ticks: nat
    ghost var stale: set<nat>

    ghost predicate Valid()
      reads this, cache, flash
    {
      flash.Valid() && ValidFor(flash.device)
    }

    /** The cache is consistent and a copy of the given flash content, apart from stale blocks. */
    ghost predicate ValidFor(device: seq<Byte>)
      reads this, cache
    {
      && 0 < blockSize && blockSize % WORD == 0 && Offset(|device|, blockSize) == 0
      && 0 < cache.Length
      && operationCount == ticks % COUNTER && ticks == |history|
      && Coherent(cache[..], device, blockSize, stale)
      && (forall i | 0 <= i < cache.Length && cache[i].page.Loaded? :: cache[i].address in history)
      && (forall b | b in stale :: b in history)
      && (ticks < COUNTER ==> MostRecentlyUsed(cache[..], history) && CountsOrder(cache[..], history, ticks))
    }

    /** The block accessed last is in the cache. */
    ghost predicate LastHeld()
      reads this, cache
    {
      history != [] && Holds(cache[..], history[|history| - 1])
    }

    constructor (flash: MicroBitUSBFlashManager, blockSize: nat, cacheSize: nat)
      requires flash.Valid() && 0 < blockSize && blockSize % WORD == 0 && Offset(|flash.device|, blockSize) == 0
      requires 0 < cacheSize
      ensures Valid() && history == [] && stale == {} && fresh(cache)
      ensures this.flash == flash && this.blockSize == blockSize && cache.Length == cacheSize
    {
      this.flash, this.blockSize := flash, blockSize;
      cache := new CacheEntry[cacheSize](_ => CacheEntry(0, 0, NoPage));
      operationCount, history, ticks, stale := 0, [], 0, {};
    }

    /** Forgets everything, whatever the flash holds by now. */
    method Clear()
      requires flash.Valid() && 0 < cache.Length
      requires 0 < blockSize && blockSize % WORD == 0 && Offset(|flash.device|, blockSize) == 0
      modifies this, cache
      ensures Valid() && history == [] && stale == {}
    {
      forall i | 0 <= i < cache.Length {
        cache[i] := CacheEntry(0, 0, NoPage);
      }
      operationCount, history, ticks, stale := 0, [], 0, {};
    }

    method Tick()
      requires operationCount == ticks % COUNTER
      modifies this`operationCount, this`ticks
      ensures operationCount == ticks % COUNTER && ticks == old(ticks) + 1
    {
      operationCount := (operationCount + 1) % COUNTER;
      ticks := ticks + 1;
    }

    /** The entry of a cached block, which thereby becomes the most recently used; -1 if there is none. */
    method GetCacheEntry(address: nat) returns (e: int)
      requires Valid()
      modifies this, cache
      ensures Valid() && -1 <= e < cache.Length && stale == old(stale)
      ensures if e == -1 then !Holds(cache[..], address) && cache[..] == old(cache[..]) && history == old(history)
              else cache[e].page.Loaded? && cache[e].address == address && history == old(history) + [address]
                   && old(Holds(cache[..], address))
    {
      for i := 0 to cache.Length
        invariant forall j | 0 <= j < i :: !(cache[j].page.Loaded? && cache[j].address == address)
        invariant cache[..] == old(cache[..]) && history == old(history) && stale == old(stale) && Valid()
      {
        if cache[i].address == address && cache[i].page.Loaded? {
          EntryIsHeld(i);
          UseFor(i, flash.device);
          return i;
        }
      }
      return -1;
    }

    method UseFor(i: nat, ghost device: seq<Byte>)
      requires ValidFor(device) && i < cache.Length && cache[i].page.Loaded?
      modifies this, cache
      ensures ValidFor(device) && history == old(history) + [cache[i].address] && stale == old(stale)
      ensures cache[i].address == old(cache[i].address) && cache[i].page == old(cache[i].page)
    {
      hide MostRecentlyUsed, CountsOrder, Copies;
      ghost var before := cache[..];
      Tick();
      cache[i] := cache[i].(lastUsed := operationCount);
      history := history + [cache[i].address];
      assert cache[..] == before[i := before[i].(lastUsed := operationCount)];
      UseKeepsCoherent(before, device, blockSize, stale, i, operationCount);
      if ticks < COUNTER {
        HitKeepsOrder(before, old(history), old(ticks), i, ticks);
      }
    }

    /** The flash may change where nothing has been accessed without the cache noticing. */
    lemma ChangedElsewhere(device: seq<Byte>, device': seq<Byte>, from: nat, to': nat)
      requires ValidFor(device) && |device'| == |device| && from <= to' <= |device|
      requires device'[..from] == device[..from] && device'[to'..] == device[to'..]
      requires forall b | b in history :: b + blockSize <= from || to' <= b
      ensures ValidFor(device')
    {
      hide MostRecentlyUsed, CountsOrder, Offset;
      forall i | 0 <= i < cache.Length && cache[i].page.Loaded? ensures Copies(cache[..][i], device', blockSize, stale) {
        var a := cache[i].address;
        assert Copies(cache[..][i], device, blockSize, stale) && a in history;
        SameSlice(device, device', from, to', a, a + blockSize);
      }
    }

    /** Takes note of a page of flash that has been erased behind the cache. */
    ghost method PageErased(device: seq<Byte>, page: nat, ps: nat)
      requires ValidFor(device) && stale == {} && page + ps <= |device|
      requires Offset(page, blockSize) == 0 && Offset(page + ps, blockSize) == 0
      modifies this`stale
      ensures ValidFor(Put(device, page, Blank(ps)))
      ensures stale == Outdated(cache[..], page, ps, blockSize)
    {
      hide MostRecentlyUsed, CountsOrder, Offset, Put, Coherent;
      ErasedBehind(cache[..], device, blockSize, page, ps);
      stale := Outdated(cache[..], page, ps, blockSize);
    }

    /** Which blocks the cache holds, as long as its counter has not wrapped round. */
    lemma HeldAre(a: nat)
      requires Valid() && |history| < COUNTER
      ensures Holds(cache[..], a) <==> a in history && |Recent(history, a)| < cache.Length
    {
      hide MostRecentlyUsed, CountsOrder, Copies, Recent, Holds;
      NoBlockTwice(cache[..], flash.device, blockSize, stale);
      HeldIfRecent(cache[..], history, a);
    }

    /** The first empty entry, or else the one whose count is smallest. */
    method Victim() returns (v: nat)
      requires Valid()
      ensures v < cache.Length
      ensures ticks < COUNTER && cache[v].page.Loaded? ==>
                forall i | 0 <= i < cache.Length :: cache[i].page.Loaded? && cache[v].lastUsed <= cache[i].lastUsed
    {
      v := 0;
      for i := 0 to cache.Length
        invariant v < cache.Length && (v < i || v == 0)
        invariant forall j | 0 <= j < i :: cache[j].page.Loaded? && cache[v].lastUsed <= cache[j].lastUsed
      {
        if cache[i].page.NoPage? {
          return i;
        }
        if operationCount - cache[i].lastUsed > operationCount - cache[v].lastUsed {
          v := i;
        }
      }
    }

    /** Brings a block into the cache, if it is not there. */
    method CachePage(address: nat) returns (e: nat)
      requires Valid() && Offset(address, blockSize) == 0 && address + blockSize <= |flash.device|
      requires address in stale ==> !Holds(cache[..], address)
      modifies this, cache
      ensures Valid() && history == old(history) + [address] && stale == old(stale) - {address}
      ensures e < cache.Length && cache[e].page.Loaded? && cache[e].address == address
    {
      hide MostRecentlyUsed, CountsOrder, Coherent, Offset, Holds;
      var found := GetCacheEntry(address);
      if found != -1 {
        return found;
      }
      e := Victim();
      LoadPage(e, address);
    }

    method LoadPage(e: nat, address: nat)
      requires Valid() && Offset(address, blockSize) == 0 && address + blockSize <= |flash.device|
      requires !Holds(cache[..], address) && e < cache.Length
      requires ticks < COUNTER && cache[e].page.Loaded? ==>
                 forall i | 0 <= i < cache.Length :: cache[i].page.Loaded? && cache[e].lastUsed <= cache[i].lastUsed
      modifies this, cache
      ensures Valid() && history == old(history) + [address] && stale == old(stale) - {address}
      ensures cache[e].page.Loaded? && cache[e].address == address
    {
      hide MostRecentlyUsed, CountsOrder, Coherent, Offset, Holds;
      ghost var before := cache[..];
      Tick();
      var bytes := flash.Read(address, blockSize / WORD);
      cache[e] := CacheEntry(address, operationCount, Loaded(bytes));
      history := history + [address];
      assert cache[..] == before[e := CacheEntry(address, operationCount, Loaded(bytes))];
      LoadKeepsCoherent(before, flash.device, blockSize, stale, e, address, operationCount);
      stale := stale - {address};
      if ticks < COUNTER {
        NoBlockTwice(before, flash.device, blockSize, old(stale));
        MissKeepsOrder(before, old(history), old(ticks), e, address, bytes);
      }
    }

    /** Reads bytes from the cached blocks. */
    method Read(address: nat, len: nat) returns (status: Status, data: seq<Byte>)
      requires Valid() && forall b | b in BlocksOf(address, address + len, blockSize) :: b !in stale
      modifies this, cache
      ensures Valid() && stale == old(stale)
      ensures if address + len > |flash.device| then status == INVALID_PARAMETER && history == old(history)
              else status == OK && data == flash.device[address..address + len]
                   && history == old(history) + BlocksOf(address, address + len, blockSize)
    {
      hide ValidFor, BlocksOf;
      Shape();
      data := [];
      if address + len > flash.FlashEnd() {
        return INVALID_PARAMETER, data;
      }
      var bytesCopied := 0;
      while bytesCopied < len
        invariant Valid() && bytesCopied <= len && |data| == bytesCopied && stale == old(stale)
        invariant forall b | b in BlocksOf(address + bytesCopied, address + len, blockSize) :: b !in stale
        invariant data == flash.device[address..address + bytesCopied]
        invariant history + BlocksOf(address + bytesCopied, address + len, blockSize)
               == old(history) + BlocksOf(address, address + len, blockSize)
      {
        var a := address + bytesCopied;
        var block, offset, l := Segment(a, address + len);
        var e := CachePage(block);
        PageIsCopy(e);
        SliceOfSlice(flash.device, block, block + blockSize, offset, offset + l);
        SliceThenSlice(flash.device, address, a, a + l);
        data := data + cache[e].page.bytes[offset..offset + l];
        bytesCopied := bytesCopied + l;
      }
      NoBlocks(address + len, blockSize);
      status := OK;
    }

    lemma EntryIsHeld(e: nat)
      requires e < cache.Length && cache[e].page.Loaded?
      ensures Holds(cache[..], cache[e].address)
    {
      assert cache[..][e] == cache[e];
    }

    lemma Shape()
      requires Valid()
      ensures blockSize > 0 && |flash.device| == flash.FlashEnd()
    {
    }

    lemma PageIsCopy(e: nat)
      requires Valid() && e < cache.Length && cache[e].page.Loaded? && cache[e].address !in stale
      ensures cache[e].address + blockSize <= |flash.device|
      ensures cache[e].page.bytes == flash.device[cache[e].address..cache[e].address + blockSize]
    {
      hide MostRecentlyUsed, CountsOrder, Offset;
      assert Copies(cache[..][e], flash.device, blockSize, stale);
    }

    /** The part of [a, end) that lies in the block of a. */
    method Segment(a: nat, end: nat) returns (block: nat, offset: nat, l: nat)
      requires Valid() && a < end <= |flash.device|
      ensures block <= a < block + blockSize && offset == a - block && 0 < l && a + l <= end && a + l <= block + blockSize
      ensures Offset(block, blockSize) == 0 && block + blockSize <= |flash.device|
      ensures a + l == end || Offset(a + l, blockSize) == 0
      ensures BlocksOf(a, end, blockSize) == [block] + BlocksOf(a + l, end, blockSize)
    {
      hide Floor, Offset, MostRecentlyUsed, CountsOrder, Coherent;
      block, offset := Floor(a, blockSize), Offset(a, blockSize);
      FloorBounds(a, blockSize);
      l := if end - a < blockSize - offset then end - a else blockSize - offset;
      MultiplesApart(block, |flash.device|, blockSize);
      OffsetOfSelf(blockSize);
      SumOfMultiples(block, blockSize, blockSize);
    }

    /** Access to a range in order drops every stale block of it from the cache before it gets there. */
    ghost predicate Overtakes(address: nat, len: nat)
      reads this
      requires blockSize > 0
    {
      forall b | b in BlocksOf(address, address + len, blockSize) && b in stale ::
        && |history| + |BlocksOf(address, address + len, blockSize)| <= COUNTER
        && |Recent(history + BlocksOf(address, b, blockSize), b)| >= cache.Length
    }

    /** Writes bytes through the cache: all of them, or none if some bit would have to go from 0 to 1. */
    method Write(address: nat, data: seq<Byte>) returns (status: Status)
      requires Valid() && Overtakes(address, |data|)
      modifies this, cache, flash
      ensures Valid() && |flash.device| == |old(flash.device)|
      ensures old(history) <= history && stale == old(stale) - UsedFrom(history, |old(history)|)
      ensures if address + |data| > |flash.device| then
                status == INVALID_PARAMETER && flash.device == old(flash.device) && history == old(history)
              else if Writable(old(flash.device), address, data) then
                && status == OK && flash.device == Put(old(flash.device), address, data)
                && var blocks := BlocksOf(address, address + |data|, blockSize);
                history == old(history) + blocks + blocks
              else
                && status == NOT_SUPPORTED && flash.device == old(flash.device)
                && old(history) < history <= old(history) + BlocksOf(address, address + |data|, blockSize)
      ensures data != [] && address + |data| <= |flash.device| ==> LastHeld()
    {
      if address + |data| > flash.FlashEnd() {
        return INVALID_PARAMETER;
      }
      hide ValidFor, BlocksOf, Recent, UsedFrom, Writable, Put;
      ghost var before := history;
      UsedMore(history, [], |history|);
      var ok := Validate(address, data);
      if !ok {
        return NOT_SUPPORTED;
      }
      ghost var blocks := BlocksOf(address, address + |data|, blockSize);
      UsedMore(before, blocks, |before|);
      Store(address, data);
      assert history == before + (blocks + blocks);
      UsedMore(before, blocks + blocks, |before|);
      return OK;
    }

    /** Checks the bytes that lie in one page. */
    method Clearable(page: seq<Byte>, offset: nat, chunk: seq<Byte>) returns (ok: bool)
      requires offset + |chunk| <= |page|
      ensures ok == Writable(page, offset, chunk)
    {
      hide Clears;
      var i := 0;
      while i < |chunk|
        invariant i <= |chunk| && Writable(page, offset, chunk[..i])
      {
        var b1, b2 := page[offset + i], chunk[i];
        NotClears(b1, b2);
        if (b1 ^ b2) & b2 != 0 {
          return false;
        }
        i := i + 1;
      }
      assert chunk[..i] == chunk;
      ok := true;
    }

    /** Checks every byte against the cached blocks before anything is written. */
    method Validate(address: nat, data: seq<Byte>) returns (ok: bool)
      requires Valid() && address + |data| <= |flash.device| && Overtakes(address, |data|)
      modifies this, cache
      ensures Valid() && ok == Writable(flash.device, address, data)
      ensures old(history) <= history <= old(history) + BlocksOf(address, address + |data|, blockSize)
      ensures stale == old(stale) - UsedFrom(history, |old(history)|)
      ensures data != [] ==> old(history) < history && LastHeld()
      ensures ok ==> history == old(history) + BlocksOf(address, address + |data|, blockSize)
    {
      hide ValidFor, Writable, BlocksOf, Recent, Holds, UsedFrom;
      Shape();
      UsedMore(history, [], |history|);
      var bytesCopied := 0;
      assert Writable(flash.device, address, data[..0]) by { WritableParts(flash.device, address, data, 0, 0); }
      while bytesCopied < |data|
        invariant Valid() && bytesCopied <= |data|
        invariant Writable(flash.device, address, data[..bytesCopied])
        invariant old(history) <= history <= old(history) + BlocksOf(address, address + |data|, blockSize)
        invariant bytesCopied > 0 ==> old(history) < history && LastHeld()
        invariant history + BlocksOf(address + bytesCopied, address + |data|, blockSize)
               == old(history) + BlocksOf(address, address + |data|, blockSize)
        invariant stale == old(stale) - UsedFrom(history, |old(history)|)
        invariant bytesCopied == 0 || Offset(address + bytesCopied, blockSize) == 0 || bytesCopied == |data|
      {
        var a := address + bytesCopied;
        var block, offset, l := Segment(a, address + |data|);
        if block in stale {
          assert block in old(stale);
          Dropped(old(history), address, a, address + |data|, block);
        }
        UsedMore(history, [block], |old(history)|);
        assert Used([block]) == {block};
        var e := CachePage(block);
        PageIsCopy(e);
        EntryIsHeld(e);
        ok := Clearable(cache[e].page.bytes, offset, data[bytesCopied..bytesCopied + l]);
        WritableInPage(flash.device, block, blockSize, offset, data[bytesCopied..bytesCopied + l]);
        WritableParts(flash.device, address, data, bytesCopied, l);
        if !ok {
          return;
        }
        bytesCopied := bytesCopied + l;
      }
      assert data[..bytesCopied] == data;
      NoBlocks(address + |data|, blockSize);
      ok := true;
    }

    /** Writes the bytes to the cached blocks and through to the flash, one block at a time. */
    method Store(address: nat, data: seq<Byte>)
      requires Valid() && address + |data| <= |flash.device| && Writable(flash.device, address, data)
      requires forall b | b in BlocksOf(address, address + |data|, blockSize) :: b !in stale
      modifies this, cache, flash
      ensures Valid() && |flash.device| == |old(flash.device)| && stale == old(stale)
      ensures flash.device == Put(old(flash.device), address, data)
      ensures history == old(history) + BlocksOf(address, address + |data|, blockSize)
      ensures data != [] ==> LastHeld()
    {
      hide MostRecentlyUsed, CountsOrder, Coherent, Offset, Writable, Put, BlocksOf;
      ghost var device := flash.device;
      assert Put(device, address, data[..0]) == device;
      var bytesCopied := 0;
      while bytesCopied < |data|
        invariant Valid() && bytesCopied <= |data| && |flash.device| == |device| && stale == old(stale)
        invariant forall b | b in BlocksOf(address + bytesCopied, address + |data|, blockSize) :: b !in stale
        invariant flash.device == Put(device, address, data[..bytesCopied])
        invariant bytesCopied > 0 ==> LastHeld()
        invariant history + BlocksOf(address + bytesCopied, address + |data|, blockSize)
               == old(history) + BlocksOf(address, address + |data|, blockSize)
      {
        var a := address + bytesCopied;
        var block, offset, l := Segment(a, address + |data|);
        var e := CachePage(block);
        var chunk := data[bytesCopied..bytesCopied + l];
        NextChunk(device, address, data, bytesCopied, l);
        StoreChunk(e, block, a, chunk);
        EntryIsHeld(e);
        bytesCopied := bytesCopied + l;
      }
      assert data[..bytesCopied] == data;
      NoBlocks(address + |data|, blockSize);
    }

    lemma NextChunk(device: seq<Byte>, address: nat, data: seq<Byte>, done: nat, l: nat)
      requires address + |data| <= |device| && done + l <= |data| && Writable(device, address, data)
      ensures var now, chunk := Put(device, address, data[..done]), data[done..done + l];
              && Writable(now, address + done, chunk)
              && Put(now, address + done, chunk) == Put(device, address, data[..done + l])
    {
      var now, chunk := Put(device, address, data[..done]), data[done..done + l];
      forall i | 0 <= i < l ensures Clears(now[address + done + i], chunk[i]) {
        assert Clears(device[address + (done + i)], data[done + i]);
      }
      PutsJoin(device, address, data[..done], chunk);
      assert data[..done] + chunk == data[..done + l];
    }

    /** Once access has got to a stale block, that block is no longer held. */
    lemma Dropped(before: seq<nat>, lo: nat, a: nat, hi: nat, b: nat)
      requires Valid() && lo <= a < hi && Offset(b, blockSize) == 0 && b <= a < b + blockSize
      requires a == lo || Offset(a, blockSize) == 0
      requires history + BlocksOf(a, hi, blockSize) == before + BlocksOf(lo, hi, blockSize)
      requires b in BlocksOf(lo, hi, blockSize) ==>
                 && |before| + |BlocksOf(lo, hi, blockSize)| <= COUNTER
                 && |Recent(before + BlocksOf(lo, b, blockSize), b)| >= cache.Length
      ensures !Holds(cache[..], b)
    {
      hide ValidFor, BlocksOf, Recent, Holds, Offset;
      Shape();
      BlocksOfAre(lo, hi, blockSize);
      BlocksOfAre(a, hi, blockSize);
      NothingBefore(lo, b);
      if a != lo {
        if a != b { MultiplesApart(b, a, blockSize); }
        BlocksSplit(lo, b, hi, blockSize);
        SameFront(history, before + BlocksOf(lo, b, blockSize), BlocksOf(a, hi, blockSize));
        assert before + BlocksOf(lo, b, blockSize) + BlocksOf(a, hi, blockSize) == before + BlocksOf(lo, hi, blockSize);
      } else {
        SameFront(history, before, BlocksOf(a, hi, blockSize));
        if b == lo { assert BlocksOf(lo, b, blockSize) == []; }
        assert before + BlocksOf(lo, b, blockSize) == before;
      }
      HeldAre(b);
    }

    lemma NothingBefore(lo: nat, b: nat)
      requires blockSize > 0
      ensures b <= lo ==> BlocksOf(lo, b, blockSize) == []
    {
    }

    /** Updates one cached page and burns the whole words around the change. */
    method StoreChunk(e: nat, block: nat, a: nat, chunk: seq<Byte>)
      requires Valid() && e < cache.Length && cache[e].page.Loaded? && cache[e].address == block && block !in stale
      requires Offset(block, blockSize) == 0 && block <= a && a + |chunk| <= block + blockSize <= |flash.device|
      requires Writable(flash.device, a, chunk)
      modifies cache, flash
      ensures Valid() && flash.device == Put(old(flash.device), a, chunk)
      ensures cache[e].page.Loaded? && cache[e].address == block
    {
      hide MostRecentlyUsed, CountsOrder, Offset, Writable, WordFloor, WordCeil, Put, Burn, Coherent;
      ghost var before, device := cache[..], flash.device;
      WordMultiple(block, blockSize);
      WordBounds(block, blockSize, a, |chunk|);
      var alignedStart, alignedEnd := WordFloor(a), WordCeil(a + |chunk|);
      ChunkStored(before, device, blockSize, stale, e, a, chunk, alignedStart, alignedEnd);
      var page := Put(cache[e].page.bytes, a - block, chunk);
      cache[e] := cache[e].(page := Loaded(page));
      flash.Write(alignedStart, page[alignedStart - block..alignedEnd - block]);
      assert cache[..] == before[e := before[e].(page := Loaded(page))];
      if ticks < COUNTER {
        OrderIgnoresBytes(before, history, ticks, e, page);
      }
    }

    /** Sets the page of a block to 0xFF in the cache only: the cache then copies the flash as it will be once the
        caller has erased the block there. */
    method Erase(address: nat)
      requires Valid() && Offset(address, blockSize) == 0 && address + blockSize <= |flash.device| && address !in stale
      modifies this, cache
      ensures stale == old(stale) && ValidFor(Put(flash.device, address, Blank(blockSize)))
      ensures history == old(history) || history == old(history) + [address, address]
    {
      hide MostRecentlyUsed, CountsOrder, Offset, Holds;
      var e := GetCacheEntry(address);
      ghost var device := Put(flash.device, address, Blank(blockSize));
      if e != -1 {
        ghost var before := cache[..];
        cache[e] := cache[e].(page := Loaded(Blank(blockSize)));
        assert cache[..] == before[e := before[e].(page := Loaded(Blank(blockSize)))];
        assert device[address..address + blockSize] == Blank(blockSize);
        BothChange(before, flash.device, blockSize, stale, e, device);
        if ticks < COUNTER {
          OrderIgnoresBytes(before, history, ticks, e, Blank(blockSize));
        }
        UseFor(e, device);
      } else {
        AbsentChange(cache[..], flash.device, blockSize, stale, address, device);
      }
    }
  }

  /** Writability is decided part by part ... */
  lemma WritableParts(device: seq<Byte>, address: nat, data: seq<Byte>, done: nat, l: nat)
    requires address + |data| <= |device| && done + l <= |data|
    ensures Writable(device, address, data[..done + l])
            <==> Writable(device, address, data[..done]) && Writable(device, address + done, data[done..done + l])
    ensures Writable(device, address, data) ==> Writable(device, address, data[..done + l])
    ensures Writable(device, address, data[..0])
  {
    hide Clears;
    var chunk := data[done..done + l];
    if Writable(device, address, data[..done]) && Writable(device, address + done, data[done..done + l]) {
      forall i | 0 <= i < done + l ensures Clears(device[address + i], data[i]) {
        if i >= done {
          assert device[address + i] == device[address + done + (i - done)] && data[i] == chunk[i - done];
        } else {
          assert data[i] == data[..done][i];
        }
      }
    }
    if Writable(device, address, data[..done + l]) {
      forall i | 0 <= i < l ensures Clears(device[address + done + i], chunk[i]) {
        assert chunk[i] == data[..done + l][done + i];
        assert device[address + done + i] == device[address + (done + i)];
      }
    }
  }

  /** ... and within a page on the copy of the page. */
  lemma WritableInPage(device: seq<Byte>, block: nat, n: nat, offset: nat, chunk: seq<Byte>)
    requires block + n <= |device| && offset + |chunk| <= n
    ensures Writable(device[block..block + n], offset, chunk) <==> Writable(device, block + offset, chunk)
  {
    hide Clears;
    var page := device[block..block + n];
    forall i | 0 <= i < |chunk|
      ensures Clears(page[offset + i], chunk[i]) <==> Clears(device[block + offset + i], chunk[i])
    {
    }
  }

  lemma SameSlice(mem: seq<Byte>, mem': seq<Byte>, from: nat, to': nat, a: nat, b: nat)
    requires from <= to' <= |mem| == |mem'| && a <= b <= |mem| && (b <= from || to' <= a)
    requires mem'[..from] == mem[..from] && mem'[to'..] == mem[to'..]
    ensures mem'[a..b] == mem[a..b]
  {
    forall k | a <= k < b ensures mem'[k] == mem[k] {
      if k < from {
        assert mem'[..from][k] == mem[..from][k];
      } else {
        assert mem'[to'..][k - to'] == mem[to'..][k - to'];
      }
    }
  }

  lemma SameFront(x: seq<nat>, y: seq<nat>, z: seq<nat>)
    ensures x + z == y + z ==> x == y
  {
    if x + z == y + z {
      assert (x + z)[..|x|] == x && (y + z)[..|y|] == y;
    }
  }

  lemma NotClears(o: Byte, n: Byte)
    ensures Clears(o, n) <==> (o ^ n) & n == 0
  {
  }
}
