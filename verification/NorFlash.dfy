/** NOR flash as a sequence of bytes: a write can only clear bits, an erase sets a whole page to 0xFF. */
module NorFlash {
  type Byte = bv8

  const ERASED: Byte := 0xFF

  function Blank(n: nat): (s: seq<Byte>)
    ensures |s| == n && forall i | 0 <= i < n :: s[i] == ERASED
  {
    seq(n, _ => ERASED)
  }

  function Zeros(n: nat): (s: seq<Byte>)
    ensures |s| == n && forall i | 0 <= i < n :: s[i] == 0
  {
    seq(n, _ => 0)
  }

  /** The bytes from `at` on replaced by data. */
  function Put(mem: seq<Byte>, at: nat, data: seq<Byte>): (m: seq<Byte>)
    requires at + |data| <= |mem|
    ensures |m| == |mem|
    ensures forall i | 0 <= i < |m| :: m[i] == if at <= i < at + |data| then data[i - at] else mem[i]
  {
    mem[..at] + data + mem[at + |data|..]
  }

  /** What the device stores when data is written at `at`. */
  function Burn(mem: seq<Byte>, at: nat, data: seq<Byte>): (m: seq<Byte>)
    requires at + |data| <= |mem|
    ensures |m| == |mem|
    ensures forall i | 0 <= i < |m| :: m[i] == if at <= i < at + |data| then mem[i] & data[i - at] else mem[i]
  {
    mem[..at] + seq(|data|, i requires 0 <= i < |data| => mem[at + i] & data[i]) + mem[at + |data|..]
  }

  /** Writing n over o needs no bit to go from 0 to 1. */
  predicate Clears(o: Byte, n: Byte) {
    (o ^ n) & n == 0
  }

  predicate Writable(mem: seq<Byte>, at: nat, data: seq<Byte>)
    requires at + |data| <= |mem|
  {
    forall i | 0 <= i < |data| :: Clears(mem[at + i], data[i])
  }

  lemma ClearsIsAnd(o: Byte, n: Byte)
    ensures Clears(o, n) <==> o & n == n
    ensures Clears(o, n) <==> !o & n == 0
    ensures Clears(ERASED, n) && Clears(o, o) && Clears(o, 0)
  {
  }

  /** A burn stores the data exactly if the data can be written without an erase. */
  lemma BurnStores(mem: seq<Byte>, at: nat, data: seq<Byte>)
    requires at + |data| <= |mem|
    ensures Writable(mem, at, data) <==> Burn(mem, at, data) == Put(mem, at, data)
  {
    var b, p := Burn(mem, at, data), Put(mem, at, data);
    if Writable(mem, at, data) {
      forall i | 0 <= i < |mem| ensures b[i] == p[i] {
        if at <= i < at + |data| {
          assert Clears(mem[at + (i - at)], data[i - at]);
          ClearsIsAnd(mem[i], data[i - at]);
        }
      }
    }
    if b == p {
      forall i | 0 <= i < |data| ensures Clears(mem[at + i], data[i]) {
        assert b[at + i] == p[at + i];
        ClearsIsAnd(mem[at + i], data[i]);
      }
    }
  }

  predicate AllErased(mem: seq<Byte>, from: int, to: int)
    requires 0 <= from && to <= |mem|
  {
    forall i | from <= i < to :: mem[i] == ERASED
  }

  /** Erased bytes take any data. */
  lemma ErasedIsWritable(mem: seq<Byte>, at: nat, data: seq<Byte>)
    requires at + |data| <= |mem| && AllErased(mem, at, at + |data|)
    ensures Writable(mem, at, data)
  {
    forall i | 0 <= i < |data| ensures Clears(mem[at + i], data[i]) {
      ClearsIsAnd(0, data[i]);
    }
  }

  lemma ErasedStores(mem: seq<Byte>, at: nat, data: seq<Byte>)
    requires at + |data| <= |mem| && AllErased(mem, at, at + |data|)
    ensures Burn(mem, at, data) == Put(mem, at, data)
  {
    hide Burn, Put;
    ErasedIsWritable(mem, at, data);
    BurnStores(mem, at, data);
  }

  /** So does anything take zeros. */
  lemma ZerosAreWritable(mem: seq<Byte>, at: nat, n: nat)
    requires at + n <= |mem|
    ensures Writable(mem, at, Zeros(n))
  {
    forall i | 0 <= i < n ensures Clears(mem[at + i], Zeros(n)[i]) {
      ClearsIsAnd(mem[at + i], 0);
    }
  }

  /** A later write of the same length hides an earlier one. */
  lemma PutTwice(mem: seq<Byte>, at: nat, a: seq<Byte>, b: seq<Byte>)
    requires at + |a| <= |mem| && |b| == |a|
    ensures Put(Put(mem, at, a), at, b) == Put(mem, at, b)
  {
  }

  /** Two writes side by side are one. */
  lemma BurnsJoin(mem: seq<Byte>, at: nat, a: seq<Byte>, b: seq<Byte>)
    requires at + |a| + |b| <= |mem|
    ensures Burn(Burn(mem, at, a), at + |a|, b) == Burn(mem, at, a + b)
  {
    var twice, once := Burn(Burn(mem, at, a), at + |a|, b), Burn(mem, at, a + b);
    hide Burn;
    forall i | 0 <= i < |mem| ensures twice[i] == once[i] {
      if at <= i < at + |a| + |b| {
        assert (a + b)[i - at] == if i < at + |a| then a[i - at] else b[i - (at + |a|)];
      }
    }
  }

  lemma PutsJoin(mem: seq<Byte>, at: nat, a: seq<Byte>, b: seq<Byte>)
    requires at + |a| + |b| <= |mem|
    ensures Put(Put(mem, at, a), at + |a|, b) == Put(mem, at, a + b)
  {
  }

  /** Burning what the memory is to become, over a range that covers the change, makes it so. */
  lemma BurnOverSelf(mem: seq<Byte>, at: nat, words: seq<Byte>, goal: seq<Byte>, a: nat, data: seq<Byte>)
    requires at <= a && a + |data| <= at + |words| <= |mem| && goal == Put(mem, a, data) && Writable(mem, a, data)
    requires forall k | 0 <= k < |words| :: words[k] == goal[at + k]
    ensures Burn(mem, at, words) == goal
  {
    hide Put, Burn, Clears;
    var burnt := Burn(mem, at, words);
    forall i | 0 <= i < |mem| ensures burnt[i] == goal[i] {
      if at <= i < at + |words| {
        assert words[i - at] == goal[at + (i - at)];
        assert a <= i < a + |data| ==> Clears(mem[a + (i - a)], data[i - a]);
        assert Clears(mem[i], goal[i]) by { ClearsIsAnd(mem[i], mem[i]); }
        ClearsIsAnd(mem[i], goal[i]);
      }
    }
  }

  lemma SliceOfSlice(mem: seq<Byte>, lo: nat, hi: nat, i: nat, j: nat)
    requires lo <= hi <= |mem| && i <= j <= hi - lo
    ensures mem[lo..hi][i..j] == mem[lo + i..lo + j]
  {
    var a, b := mem[lo..hi][i..j], mem[lo + i..lo + j];
    assert |a| == j - i == |b|;
    assert forall k | 0 <= k < j - i :: a[k] == mem[lo..hi][i + k] == mem[lo + (i + k)] == b[k];
    assert a == b;
  }

  lemma SliceThenSlice(mem: seq<Byte>, lo: nat, mid: nat, hi: nat)
    requires lo <= mid <= hi <= |mem|
    ensures mem[lo..mid] + mem[mid..hi] == mem[lo..hi]
  {
  }
}
