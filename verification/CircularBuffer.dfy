/** MicroBitCircularBuffer: values of several widths packed into one growing, segmented byte ring. */
module CircularBuffer {
  import opened RingLayout
  import opened Regions
  import opened Promotion
  import opened SegmentedBytes

  /** The value held by a slot of the flat ring. */
  function ElemAt(flat: seq<Byte>, a: Slot): Elem
    requires 0 <= a.pos && a.End() <= |flat|
  {
    Decode(a.ty, flat[a.pos..a.End()])
  }

  function Values(flat: seq<Byte>, s: seq<Slot>): (v: seq<Elem>)
    requires forall i | 0 <= i < |s| :: 0 <= s[i].pos && s[i].End() <= |flat|
    ensures |v| == |s| && forall i | 0 <= i < |s| :: v[i] == ElemAt(flat, s[i])
  {
    seq(|s|, i requires 0 <= i < |s| => ElemAt(flat, s[i]))
  }

  lemma ValuesTail(flat: seq<Byte>, s: seq<Slot>)
    requires s != [] && forall i | 0 <= i < |s| :: 0 <= s[i].pos && s[i].End() <= |flat|
    ensures Values(flat, s) == [ElemAt(flat, s[0])] + Values(flat, s[1..])
  {
  }

  lemma ValueAt(flat: seq<Byte>, s: seq<Slot>, k: nat)
    requires k < |s| && forall i | 0 <= i < |s| :: 0 <= s[i].pos && s[i].End() <= |flat|
    ensures |Values(flat, s)| == |s| && Values(flat, s)[k] == ElemAt(flat, s[k])
  {
  }

  lemma SliceOutside(before: seq<Byte>, after: seq<Byte>, p: nat, data: seq<Byte>, lo: nat, hi: nat)
    requires p + |data| <= |before| <= |after| && lo <= hi <= |before|
    requires after[..|before|] == before[..p] + data + before[p + |data|..]
    requires hi <= p || p + |data| <= lo
    ensures after[lo..hi] == before[lo..hi]
  {
    forall i | lo <= i < hi ensures after[i] == before[i] {
      assert after[i] == after[..|before|][i];
    }
  }

  /** An append reads back as the surviving values followed by the new one. */
  lemma ValuesAfterAppend(before: seq<Byte>, after: seq<Byte>, s: seq<Slot>, ty: ValueType, data: seq<Byte>)
    requires |before| >= 7 && Laid(s, |before|) && Accepts(s, ty) && |data| == Width(ty)
    requires forall i | 0 <= i < |s| :: 0 <= s[i].pos && s[i].End() <= |before|
    requires |before| <= |after|
    requires var p := WritePos(s, ty, |before|);
             after[..|before|] == before[..p] + data + before[p + |data|..]
    ensures var n := Append(s, ty, |before|);
            && (forall i | 0 <= i < |n| :: 0 <= n[i].pos && n[i].End() <= |after|)
            && Values(after, n) == Values(before, s)[Evicted(s, ty, |before|)..] + [Decode(ty, data)]
  {
    var cap := |before|;
    var n, k, p := Append(s, ty, cap), Evicted(s, ty, cap), WritePos(s, ty, cap);
    var a := Slot(ty, p);
    AppendKeepsLaid(s, ty, cap);
    assert n == s[k..] + [a] && after[p..p + |data|] == after[..cap][p..p + |data|] == data;
    hide Laid, Append, Decode, Evicted;
    forall i | 0 <= i < |n| - 1
      ensures n[i] == s[k + i] && 0 <= n[i].pos && n[i].End() <= |after| && ElemAt(after, n[i]) == ElemAt(before, s[k + i])
    {
      SurvivorKept(before, after, s, ty, data, k + i);
    }
    assert ElemAt(after, a) == Decode(ty, data);
    hide ElemAt;
    var now, kept := Values(after, n), Values(before, s)[k..] + [Decode(ty, data)];
    assert |now| == |kept| && forall i | 0 <= i < |now| :: now[i] == kept[i];
  }

  /** A value that is not in the way of an append keeps its bytes. */
  lemma SurvivorKept(before: seq<Byte>, after: seq<Byte>, s: seq<Slot>, ty: ValueType, data: seq<Byte>, j: nat)
    requires |before| >= 7 && Laid(s, |before|) && Accepts(s, ty) && |data| == Width(ty)
    requires forall i | 0 <= i < |s| :: 0 <= s[i].pos && s[i].End() <= |before|
    requires |before| <= |after|
    requires var p := WritePos(s, ty, |before|);
             0 <= p && p + |data| <= |before| && after[..|before|] == before[..p] + data + before[p + |data|..]
    requires Evicted(s, ty, |before|) <= j < |s|
    ensures s[j].End() <= |after| && ElemAt(after, s[j]) == ElemAt(before, s[j])
  {
    hide Decode;
    var cap := |before|;
    AppendKeepsLaid(s, ty, cap);
    assert !InWay(s[j], s, ty, cap) && InRing(s[j], Head(s), cap);
    HeadMoves(s[j], s, ty, cap);
    SliceOutside(before, after, WritePos(s, ty, cap), data, s[j].pos, s[j].End());
  }

  /** The last values of those pushed. */
  predicate IsSuffix<T(==)>(held: seq<T>, pushed: seq<T>) {
    |held| <= |pushed| && held == pushed[|pushed| - |held|..]
  }

  /** A suffix of what was pushed stays one when a value is added to both. */
  lemma SuffixGrows<T>(pushed: seq<T>, held: seq<T>, k: nat, x: T)
    requires k <= |held| && IsSuffix(held, pushed)
    ensures IsSuffix(held[k..] + [x], pushed + [x])
    ensures k == 0 ==> held[k..] + [x] == held + [x]
    ensures |held| <= |pushed|
  {
  }

  function Max(a: int, b: int): int { if a < b then b else a }

  class MicroBitCircularBuffer {
    /** The conversion of an integer to a float, left uninterpreted. */
    const toFloat: int -> Float

    const store: SegmentedBytes
    var typeMetas: seq<TypeMeta>
    var globalType: RingType

    /** Everything pushed so far, as it will be read back. */
    ghost var pushed: seq<Elem>

    /** An empty buffer of at most `size` bytes, or of as many as the store can grow to if size is -1. */
    constructor (size: int, granted: nat -> bool, toFloat: int -> Float)
      requires size == -1 || size >= 7
      ensures Valid() && Contents() == [] && pushed == [] && globalType == -1 && !Drained()
      ensures this.toFloat == toFloat && store.size == size && store.granted == granted && fresh(Footprint())
      ensures Free() == if HeapLasts(granted) then Limit(size) else -1
    {
      hide MicroBitCircularBuffer.Valid, MicroBitCircularBuffer.Free, MicroBitCircularBuffer.Contents, MicroBitCircularBuffer.Drained;
      hide Limit, HeapLasts, SegmentedBytes.Valid;
      store := new SegmentedBytes(size, granted);
      this.toFloat := toFloat;
      typeMetas := seq(TYPE_COUNT, _ => Absent);
      globalType := -1;
      pushed := [];
      new;
      NewIsEmpty();
    }

    lemma NewIsEmpty()
      requires store.Valid() && !store.initialized && store.currentByteMax == 0
      requires |typeMetas| == TYPE_COUNT && (forall i | 0 <= i < TYPE_COUNT :: typeMetas[i].Absent?) && globalType == -1 && pushed == []
      ensures Valid() && Contents() == [] && !Drained()
      ensures Free() == if HeapLasts(store.granted) then Limit(store.size) else -1
    {
      hide AllSlots, RingOk, SegmentedBytes.Valid, Head, Linear, Values, FromStart, Limit, HeapLasts;
      NoRegions(typeMetas, store.currentByteMax);
      NothingFromStart();
      SlotCount();
    }

    // -------------------------------------------------------------- clearing older regions

    /** Drops the values of one region that start inside the arc from `from` up to `to`. */
    method ClearRegion(ty: ValueType, from: int, to: int)
      requires |typeMetas| == TYPE_COUNT && RegionOk(ty, typeMetas[ty], store.currentByteMax)
      requires 0 <= from <= store.currentByteMax && 0 <= to <= store.currentByteMax
      requires from != to ==> Parted(typeMetas[ty], from)
      requires typeMetas[ty].Region? ==> typeMetas[ty].Live()
      modifies this`typeMetas
      ensures |typeMetas| == TYPE_COUNT && typeMetas == old(typeMetas)[ty := typeMetas[ty]]
      ensures RegionCleared(ty, old(typeMetas[ty]), typeMetas[ty], from, to, store.currentByteMax)
      ensures from < to && typeMetas[ty].Live() && typeMetas[ty].last < typeMetas[ty].start ==> typeMetas[ty].start >= to
      decreases from >= to, typeMetas[ty].Region? && typeMetas[ty].last < typeMetas[ty].start
    {
      if typeMetas[ty].Absent? {
        return;
      }
      if to == from {
        typeMetas := typeMetas[ty := Absent];
        return;
      }
      if to < from {
        if from < store.currentByteMax {
          ClearRegion(ty, from, store.currentByteMax);
        } else {
          RegionBounds(ty, typeMetas[ty], store.currentByteMax);
          OutsideKeepsAll(RegionSlots(ty, typeMetas[ty], store.currentByteMax), from, store.currentByteMax);
        }
        if to != 0 {
          ClearRegion(ty, 0, to);
        } else {
          OutsideKeepsAll(RegionSlots(ty, typeMetas[ty], store.currentByteMax), 0, 0);
        }
        return;
      }
      if typeMetas[ty].start <= typeMetas[ty].last {
        ClearRun(ty, from, to);
      } else {
        ClearWrapped(ty, from, to);
      }
    }

    /** The branch for a region that does not wrap. */
    method ClearRun(ty: ValueType, from: int, to: int)
      requires |typeMetas| == TYPE_COUNT && typeMetas[ty].Live() && RegionOk(ty, typeMetas[ty], store.currentByteMax)
      requires 0 <= from < to <= store.currentByteMax
      requires typeMetas[ty].start <= typeMetas[ty].last && Parted(typeMetas[ty], from)
      modifies this`typeMetas
      ensures |typeMetas| == TYPE_COUNT && typeMetas == old(typeMetas)[ty := typeMetas[ty]]
      ensures typeMetas[ty].Region? ==> typeMetas[ty].Live() && typeMetas[ty].start <= typeMetas[ty].last
      ensures RegionOk(ty, typeMetas[ty], store.currentByteMax)
      ensures RegionSlots(ty, typeMetas[ty], store.currentByteMax)
              == Outside(old(RegionSlots(ty, typeMetas[ty], store.currentByteMax)), from, to)
    {
      var last, w := typeMetas[ty].last, typeMetas[ty].bytes;
      if last + w <= from {
        RunKeeps(ty, typeMetas[ty].start, last, from, to);
        return;
      }
      ghost var m0, start := typeMetas[ty], typeMetas[ty].start;
      while typeMetas[ty].start < to
        invariant |typeMetas| == TYPE_COUNT && typeMetas == old(typeMetas)[ty := typeMetas[ty]]
        invariant typeMetas[ty].Region? && typeMetas[ty] == m0.(start := typeMetas[ty].start)
        invariant from <= typeMetas[ty].start <= last && Reaches(ty, typeMetas[ty].start, last)
        invariant Outside(Run(ty, typeMetas[ty].start, last), from, to) == Outside(Run(ty, start, last), from, to)
      {
        typeMetas := typeMetas[ty := typeMetas[ty].(start := typeMetas[ty].start + typeMetas[ty].bytes)];
        if typeMetas[ty].start > typeMetas[ty].last {
          typeMetas := typeMetas[ty := Absent];
          return;
        }
      }
      RunKeeps(ty, typeMetas[ty].start, last, from, to);
    }

    /** The branch for a region that wraps: the arc can only meet its older half. */
    method ClearWrapped(ty: ValueType, from: int, to: int)
      requires |typeMetas| == TYPE_COUNT && typeMetas[ty].Live() && RegionOk(ty, typeMetas[ty], store.currentByteMax)
      requires 0 <= from < to <= store.currentByteMax
      requires typeMetas[ty].last < typeMetas[ty].start && Parted(typeMetas[ty], from)
      modifies this`typeMetas
      ensures |typeMetas| == TYPE_COUNT && typeMetas == old(typeMetas)[ty := typeMetas[ty]]
      ensures typeMetas[ty].Region? ==> typeMetas[ty].Live()
      ensures RegionOk(ty, typeMetas[ty], store.currentByteMax)
      ensures RegionSlots(ty, typeMetas[ty], store.currentByteMax)
              == Outside(old(RegionSlots(ty, typeMetas[ty], store.currentByteMax)), from, to)
      ensures typeMetas[ty].Live() && typeMetas[ty].last < typeMetas[ty].start ==> typeMetas[ty].start >= to
    {
      hide Outside, Run;
      var last, w := typeMetas[ty].last, typeMetas[ty].bytes;
      ghost var m0, hi := typeMetas[ty], store.currentByteMax - w;
      ghost var high, low := Run(ty, typeMetas[ty].start, hi), Run(ty, 0, last);
      assert Outside(RegionSlots(ty, m0, store.currentByteMax), from, to) == Outside(high, from, to) + low by {
        OutsideConcat(high, low, from, to);
        RunKeeps(ty, 0, last, from, to);
      }
      if last + w <= from && typeMetas[ty].start >= to {
        RunKeeps(ty, typeMetas[ty].start, hi, from, to);
        return;
      }
      while typeMetas[ty].start < to
        invariant |typeMetas| == TYPE_COUNT && typeMetas == old(typeMetas)[ty := typeMetas[ty]]
        invariant typeMetas[ty].Region? && typeMetas[ty] == m0.(start := typeMetas[ty].start)
        invariant from <= typeMetas[ty].start <= hi
        invariant Outside(Run(ty, typeMetas[ty].start, hi), from, to) == Outside(high, from, to)
      {
        FirstCleared(ty, typeMetas[ty].start, hi, from, to);
        typeMetas := typeMetas[ty := typeMetas[ty].(start := typeMetas[ty].start + typeMetas[ty].bytes)];
        if typeMetas[ty].start + typeMetas[ty].bytes > store.currentByteMax {
          assert Outside(high, from, to) == [];
          typeMetas := typeMetas[ty := typeMetas[ty].(start := 0)];
          assert RegionSlots(ty, typeMetas[ty], store.currentByteMax) == low;
          RunKeeps(ty, 0, last, from, to);
          ClearRun(ty, from, to);
          return;
        }
      }
      // the newer half ends before the arc, so what is left needs no second pass
      RunKeeps(ty, typeMetas[ty].start, hi, from, to);
    }

    // -------------------------------------------------------------- appending a value

    ghost function Slots(): seq<Slot>
      reads this`typeMetas, store
      requires |typeMetas| == TYPE_COUNT
    {
      AllSlots(typeMetas, store.currentByteMax)
    }

    /** The store and the regions agree; while the ring can still grow, nothing has wrapped and there is room
        for another value. */
    ghost predicate RingValid()
      reads this`typeMetas, store, store.dataBuffers
    {
      && store.Valid()
      && RingOk(typeMetas, store.currentByteMax)
      && (store.initialized && store.CanGrow() ==> Linear(Slots()) && Head(Slots()) + 4 <= store.currentByteMax)
      && (!store.initialized ==> Slots() == [])
    }

    /** The values held, oldest first. */
    ghost function Contents(): seq<Elem>
      reads this`typeMetas, store, store.dataBuffers
      requires RingValid()
    {
      assert forall i | 0 <= i < |Slots()| :: InRing(Slots()[i], Head(Slots()), store.currentByteMax);
      Values(store.flat, Slots())
    }

    /** Places a new region behind the newest older one, or lets the region make room in itself. */
    method Prepare(ty: ValueType)
      requires Writable(typeMetas, ty) && (forall i: ValueType | i < ty && typeMetas[i].Region? :: typeMetas[i].Live())
      modifies this`typeMetas
      ensures typeMetas == old(typeMetas)[ty := old(Prepared(typeMetas, ty, store.currentByteMax))]
    {
      var w := typeMetas[ty].bytes;
      if typeMetas[ty].start == -1 {
        var next, last := 0, 0;
        var i := ty - 1;
        while i >= 0 && typeMetas[i].Absent?
          invariant -1 <= i < ty
          invariant forall k | i < k < ty :: !typeMetas[k].Live()
        {
          i := i - 1;
        }
        if i >= 0 {
          next := typeMetas[i].next;
          last := typeMetas[i].last + typeMetas[i].bytes - w;
        }
        TopSettles(typeMetas, ty, i);
        if next + w > store.currentByteMax {
          next := 0;
        }
        typeMetas := typeMetas[ty := Region(next, last, next, w)];
      } else if typeMetas[ty].next <= typeMetas[ty].start && typeMetas[ty].next + w > typeMetas[ty].start {
        if typeMetas[ty].start == typeMetas[ty].last {
          typeMetas := typeMetas[ty := typeMetas[ty].(start := typeMetas[ty].next, last := typeMetas[ty].next)];
        } else {
          typeMetas := typeMetas[ty := typeMetas[ty].(start := typeMetas[ty].start + w)];
          if typeMetas[ty].start + w > store.currentByteMax {
            typeMetas := typeMetas[ty := typeMetas[ty].(start := 0)];
          }
        }
      }
    }

    /** Clears the arc in every region older than ty, newest first. */
    method ClearOlder(ty: ValueType, from: int, to: int)
      requires |typeMetas| == TYPE_COUNT
      requires 0 <= from <= store.currentByteMax && 0 <= to <= store.currentByteMax
      requires forall i: ValueType | i < ty ::
                 && RegionOk(i, typeMetas[i], store.currentByteMax)
                 && (typeMetas[i].Region? ==> typeMetas[i].Live())
                 && (from != to ==> Parted(typeMetas[i], from))
      modifies this`typeMetas
      ensures |typeMetas| == TYPE_COUNT
      ensures forall i | ty <= i < TYPE_COUNT :: typeMetas[i] == old(typeMetas[i])
      ensures forall i: ValueType | i < ty && typeMetas[i].Region? :: typeMetas[i].Live()
      ensures forall i: ValueType {:trigger typeMetas[i]} | i < ty :: RegionOk(i, typeMetas[i], store.currentByteMax)
      ensures SlotsUpTo(typeMetas, ty, store.currentByteMax)
              == Clear(old(SlotsUpTo(typeMetas, ty, store.currentByteMax)), from, to, store.currentByteMax)
    {
      var i := ty - 1;
      while i >= 0
        invariant -1 <= i < ty && |typeMetas| == TYPE_COUNT
        invariant forall k | 0 <= k <= i || ty <= k < TYPE_COUNT :: typeMetas[k] == old(typeMetas[k])
        invariant forall k: ValueType | k < ty && typeMetas[k].Region? :: typeMetas[k].Live()
        invariant forall k: ValueType {:trigger typeMetas[k]} | i < k < ty ::
                    RegionCleared(k, old(typeMetas[k]), typeMetas[k], from, to, store.currentByteMax)
      {
        ClearRegion(i, from, to);
        i := i - 1;
      }
      AllCleared(old(typeMetas), typeMetas, ty, from, to, store.currentByteMax);
      ClearRegions(old(typeMetas), typeMetas, ty, from, to, store.currentByteMax);
    }

    /** Init as seen by the ring: an empty ring gets its first segment. */
    method Start()
      requires RingValid()
      modifies store
      ensures RingValid() && store.initialized && fresh(store.Repr() - old(store.Repr()))
      ensures store.currentByteMax == old(store.PushCapacity()) >= 7
      ensures Slots() == old(Slots())
      ensures if old(store.initialized) then
                && store.flat == old(store.flat) && store.dataBuffers == old(store.dataBuffers)
                && store.CanGrow() == old(store.CanGrow())
              else Slots() == []
    {
      EmptyRingGrows();
      store.Init();
    }

    lemma EmptyRingGrows()
      requires RingValid()
      ensures !store.initialized ==> RingOk(typeMetas, store.PushCapacity()) && AllSlots(typeMetas, store.PushCapacity()) == []
    {
      if !store.initialized {
        EmptyRing(typeMetas, store.currentByteMax, store.PushCapacity());
      }
    }

    /** Everything an append does before its bytes are written: the slots are those of the appended ring. */
    method Reclaim(ty: ValueType)
      requires store.currentByteMax >= 7 && RingOk(typeMetas, store.currentByteMax) && Writable(typeMetas, ty)
      requires forall i: ValueType | i < ty && typeMetas[i].Region? :: typeMetas[i].Live()
      modifies this`typeMetas
      ensures Reclaimed(old(typeMetas), typeMetas, ty, store.currentByteMax)
      ensures forall i: ValueType | i < ty && typeMetas[i].Region? :: typeMetas[i].Live()
    {
      hide Laid, Append, Survivors, Head, AllSlots, SlotsUpTo, RegionSlots, RegionOk;
      ghost var before, cap := typeMetas, store.currentByteMax;
      Prepare(ty);
      var p := typeMetas[ty];
      ReadyToClear(before, ty, cap);
      SameRegions(before, typeMetas, ty, cap);
      ClearOlder(ty, p.last + p.bytes, p.next + p.bytes);
      ClearingReclaims(before, typeMetas, ty, p, cap);
    }

    /** Writes one value of type ty behind the newest value, evicting what is in its way. */
    method LogData(ty: ValueType, data: seq<Byte>)
      requires RingValid() && Writable(typeMetas, ty) && |data| == Width(ty)
      requires forall i: ValueType | i < ty && typeMetas[i].Region? :: typeMetas[i].Live()
      modifies this`typeMetas, store, store.dataBuffers
      ensures RingValid() && store.initialized && fresh(store.Repr() - old(store.Repr()))
      ensures forall i: ValueType | i <= ty && typeMetas[i].Region? :: typeMetas[i].Live()
      ensures Writable(typeMetas, ty) && typeMetas[ty].Live()
      ensures Slots() == Append(old(Slots()), ty, old(store.PushCapacity()))
      ensures Laid(old(Slots()), old(store.PushCapacity())) && old(store.PushCapacity()) >= 7 && Accepts(old(Slots()), ty)
      ensures Evicted(old(Slots()), ty, old(store.PushCapacity())) <= |old(Contents())|
      ensures Contents() == old(Contents())[Evicted(old(Slots()), ty, old(store.PushCapacity()))..] + [Decode(ty, data)]
      ensures old(store.CanGrow()) ==> Evicted(old(Slots()), ty, old(store.PushCapacity())) == 0
    {
      hide RegionOk, AllSlots, Ordered, Append, Values, store.Valid;
      Start();
      SlotsInStore();
      assert forall b | b in store.dataBuffers :: b in store.Repr();
      ghost var s, flat0 := Slots(), store.flat;
      if store.CanGrow() {
        LinearEvictsNone(s, ty, store.currentByteMax);
      }
      WriteValue(ty, data);
      SlotsInStore();
      ValuesAfterAppend(flat0, store.flat, s, ty, data);
    }

    lemma StoreSize()
      requires RingValid() && store.initialized
      ensures |store.flat| == store.currentByteMax >= 7
    {
    }

    lemma SlotCount()
      requires RingValid()
      ensures |typeMetas| == TYPE_COUNT && |Contents()| == |Slots()|
    {
    }

    lemma MetaCount()
      requires RingValid()
      ensures |typeMetas| == TYPE_COUNT
    {
    }

    lemma SlotsInStore()
      requires RingValid()
      ensures |store.flat| == store.currentByteMax
      ensures forall i | 0 <= i < |Slots()| :: 0 <= Slots()[i].pos && Slots()[i].End() <= |store.flat|
    {
      forall i | 0 <= i < |Slots()| ensures InRing(Slots()[i], Head(Slots()), store.currentByteMax) {}
    }

    method WriteValue(ty: ValueType, data: seq<Byte>)
      requires store.initialized && RingValid() && Writable(typeMetas, ty) && |data| == Width(ty)
      requires forall i: ValueType | i < ty && typeMetas[i].Region? :: typeMetas[i].Live()
      modifies this`typeMetas, store, store.dataBuffers
      ensures RingValid() && fresh(store.Repr() - old(store.Repr()))
      ensures forall i: ValueType | i <= ty && typeMetas[i].Region? :: typeMetas[i].Live()
      ensures Writable(typeMetas, ty) && typeMetas[ty].Live()
      ensures old(store.currentByteMax) <= store.currentByteMax
      ensures Accepts(old(Slots()), ty)
      ensures Slots() == Append(old(Slots()), ty, old(store.currentByteMax))
      ensures var p := old(WritePos(Slots(), ty, store.currentByteMax));
              store.flat[..old(store.currentByteMax)] == old(store.flat[..p] + data + store.flat[p + |data|..])
    {
      hide RegionOk, RegionSlots, SlotsUpTo, Append, Prepared, Top, store.Valid;
      ghost var s, cap := Slots(), store.currentByteMax;
      StoreSize();
      Reclaim(ty);
      store.InsertElement(typeMetas[ty].next, data);
      ghost var after := typeMetas[ty := typeMetas[ty].(last := typeMetas[ty].next)];
      ghost var m := after[ty := after[ty].(next := NextPos(after[ty], store.currentByteMax))];
      AppendSettles(s, after, ty, cap, store.currentByteMax);
      if store.CanGrow() {
        LinearAppend(s, ty, cap);
      }
      Advance(ty);
    }

    /** Records the value just written as the newest, and where the next one goes. */
    method Advance(ty: ValueType)
      requires |typeMetas| == TYPE_COUNT && typeMetas[ty].Region?
      modifies this`typeMetas
      ensures var after := old(typeMetas[ty := typeMetas[ty].(last := typeMetas[ty].next)]);
              typeMetas == after[ty := after[ty].(next := NextPos(after[ty], store.currentByteMax))]
    {
      typeMetas := typeMetas[ty := typeMetas[ty].(last := typeMetas[ty].next)];
      typeMetas := typeMetas[ty := typeMetas[ty].(next := typeMetas[ty].next + typeMetas[ty].bytes)];
      if typeMetas[ty].next + typeMetas[ty].bytes > store.currentByteMax {
        typeMetas := typeMetas[ty := typeMetas[ty].(next := 0)];
      }
    }

    // -------------------------------------------------------------- the buffer

    ghost function Footprint(): set<object>
      reads store
    {
      {this} + store.Repr()
    }

    /** What every operation keeps: the values held are the newest of those pushed. */
    ghost predicate Valid()
      reads this, store, store.dataBuffers
    {
      && RingValid()
      && (forall i: ValueType :: typeMetas[i].Region? ==> typeMetas[i].Live() && i <= globalType)
      && (Drained() ==> Contents() == [])
      && Newest()
    }

    /** The values held are the newest of those pushed, and if they are all of them, they start at the start of the ring. */
    ghost predicate Newest()
      reads this, store, store.dataBuffers
      requires RingValid()
    {
      && IsSuffix(Contents(), pushed)
      && (Whole() ==> FromStart(Slots()))
    }

    /** Nothing that was pushed has been lost or popped. */
    ghost predicate Whole()
      reads this, store
    {
      |typeMetas| == TYPE_COUNT && |Slots()| == |pushed|
    }

    /** The bytes that can still be pushed before anything is lost, when nothing has been and the heap grants all the
        segments that the ring has room for; or else -1. */
    ghost function Free(): int
      reads this, store
    {
      if HeapLasts(store.granted) && Whole() then Limit(store.size) - Bytes(Slots()) else -1
    }

    /** While nothing has been lost, a value finds room exactly if it does within the limit. */
    lemma RoomLeft(ty: ValueType)
      requires RingValid() && Newest() && Whole() && HeapLasts(store.granted)
      ensures store.CanGrow() || Bytes(Slots()) + Width(ty) <= store.PushCapacity() <==> Bytes(Slots()) + Width(ty) <= Limit(store.size)
      ensures Bytes(Slots()) <= Limit(store.size)
    {
      hide Ordered, Contiguous, RegionOk, AllSlots, Contents;
      if store.initialized {
        store.WithinLimit();
        if !store.CanGrow() { store.StopsAtLimit(); }
      }
    }

    /** One more value of a type keeps it so exactly if the ring can still grow, or has the room. */
    twostate predicate KeepsWhole(ty: ValueType)
      reads this, store
      requires |typeMetas| == |old(typeMetas)| == TYPE_COUNT
    {
      && (Whole() <==> old(Whole()) && (old(store.CanGrow()) || Bytes(old(Slots())) + Width(ty) <= old(store.PushCapacity())))
      && (Whole() ==> Bytes(Slots()) == Bytes(old(Slots())) + Width(ty))
    }

    ghost predicate Filled()
      reads this, store, store.dataBuffers
      requires Valid()
    {
      Contents() != []
    }

    /** Pops have removed the last value of the current type, and with it the region. */
    ghost predicate Drained()
      reads this
    {
      |typeMetas| == TYPE_COUNT && 0 <= globalType && typeMetas[globalType].Absent?
    }

    /** The value x has been stored under type ty: it is the newest, and only the oldest values in its way are
        gone; none at all while the ring could still grow. */
    twostate predicate Stores(ty: ValueType, x: Elem)
      requires old(Valid())
      reads this, store, store.dataBuffers
    {
      && Valid() && globalType == ty && !Drained()
      && pushed == old(pushed) + [x]
      && var s, cap := old(Slots()), old(store.PushCapacity());
      && cap >= 7 && Laid(s, cap)
      && Slots() == Append(s, ty, cap)
      && Contents() == old(Contents())[Evicted(s, ty, cap)..] + [x]
      && (old(store.CanGrow()) ==> Contents() == old(Contents()) + [x])
      && KeepsWhole(ty)
      && Free() == if old(Free()) >= Width(ty) then old(Free()) - Width(ty) else -1
    }

    /** Storing under the current type needs its region, which pops may have removed. */
    ghost predicate CanStore(ty: ValueType)
      reads this
    {
      globalType <= ty && (globalType == ty ==> !Drained())
    }

    method StoreAs(ty: ValueType, data: seq<Byte>)
      requires Valid() && CanStore(ty) && |data| == Width(ty)
      modifies Footprint()
      ensures Stores(ty, Decode(ty, data)) && fresh(Footprint() - old(Footprint()))
    {
      hide RingValid, Contents, Slots, Laid, Append, Decode, Evicted, FromStart, Bytes, Width, Newest, store.PushCapacity;
      MetaCount();
      if Whole() && HeapLasts(store.granted) { RoomLeft(ty); }
      if globalType < ty {
        NewRegion(ty);
      }
      StoreHere(ty, data);
    }

    /** Stores a value in the region of its type, which exists by now. */
    method StoreHere(ty: ValueType, data: seq<Byte>)
      requires RingValid() && Writable(typeMetas, ty) && globalType == ty && |data| == Width(ty)
      requires forall i: ValueType | typeMetas[i].Region? :: i <= ty && (i < ty ==> typeMetas[i].Live())
      requires Newest()
      modifies Footprint()
      ensures Valid() && globalType == ty && !Drained() && pushed == old(pushed) + [Decode(ty, data)]
      ensures fresh(Footprint() - old(Footprint()))
      ensures var s, cap := old(Slots()), old(store.PushCapacity());
              && cap >= 7 && Laid(s, cap)
              && Slots() == Append(s, ty, cap)
              && Contents() == old(Contents())[Evicted(s, ty, cap)..] + [Decode(ty, data)]
              && (old(store.CanGrow()) ==> Contents() == old(Contents()) + [Decode(ty, data)])
              && KeepsWhole(ty)
    {
      hide RingValid, Contents, Slots, Laid, Append, Decode, Evicted, FromStart, Bytes, Accepts, Width, Newest, IsSuffix, store.PushCapacity;
      hide Valid, Drained, Writable;
      BuffersOwned();
      MetaCount();
      ghost var s, c, p, cap, grows := Slots(), Contents(), pushed, store.PushCapacity(), store.CanGrow();
      SlotCount();
      AreNewest();
      pushed := pushed + [Decode(ty, data)];
      LogData(ty, data);
      SlotCount();
      SuffixGrows(p, c, Evicted(s, ty, cap), Decode(ty, data));
      KeptWhole(s, |p|, ty, cap, grows);
      AreNewest();
      StillValid(ty);
    }

    lemma StillValid(ty: ValueType)
      requires RingValid() && Newest() && globalType == ty && Writable(typeMetas, ty) && typeMetas[ty].Live()
      requires forall i: ValueType | i <= ty && typeMetas[i].Region? :: typeMetas[i].Live()
      ensures Valid() && !Drained()
    {
    }

    lemma BuffersOwned()
      ensures forall b | b in store.dataBuffers :: b in Footprint()
    {
    }

    /** What being the newest values means. */
    lemma AreNewest()
      requires RingValid()
      ensures Newest() <==>
                && IsSuffix(Contents(), pushed)
                && (|Slots()| == |pushed| ==> FromStart(Slots()))
    {
      hide Contents, Slots, FromStart, IsSuffix;
      MetaCount();
    }

    /** Creates an empty region of a wider type. */
    method NewRegion(ty: ValueType)
      requires RingValid() && globalType < ty
      requires forall i: ValueType :: typeMetas[i].Region? ==> typeMetas[i].Live() && i <= globalType
      modifies this`typeMetas, this`globalType
      ensures RingValid() && Slots() == old(Slots()) && Contents() == old(Contents()) && (old(Newest()) ==> Newest())
      ensures globalType == ty && Writable(typeMetas, ty)
      ensures forall i: ValueType | i < ty && typeMetas[i].Region? :: typeMetas[i].Live()
    {
      ghost var before := typeMetas;
      typeMetas := typeMetas[ty := Region(-1, 0, 0, Width(ty))];
      globalType := ty;
      NotLiveIsNoSlot(before, typeMetas, |typeMetas|, store.currentByteMax);
      TopSettles(typeMetas, |typeMetas|, Top(before, |before|));
    }

    // -------------------------------------------------------------- pushing integers

    /** The type under which the promotion chain stores v when it enters at type `from`. */
    ghost function Target(from: ValueType, v: int): ValueType
      reads this`globalType
      requires Fits(from, v)
    {
      if globalType <= from then from else LeastFrom(globalType, v)
    }

    /** v is stored under type ty and will read back as the same integer, or as its float. */
    method StoreInt(ty: ValueType, v: int)
      requires Valid() && CanStore(ty) && Fits(ty, v)
      modifies Footprint()
      ensures Stores(ty, Stored(ty, v, toFloat)) && fresh(Footprint() - old(Footprint()))
    {
      hide Valid, Append, Laid, Values, AllSlots;
      DecodeInvertsEncode(ty, v, toFloat);
      StoreAs(ty, Encode(ty, v, toFloat));
    }

    method PushUInt8(v: int)
      requires Valid() && Fits(UINT8, v) && CanStore(Target(UINT8, v))
      modifies Footprint()
      ensures var ty := old(Target(UINT8, v)); Stores(ty, Stored(ty, v, toFloat))
      ensures fresh(Footprint() - old(Footprint()))
    {
      hide RingValid, Contents;
      if globalType > UINT8 {
        PushUInt16(v);
        return;
      }
      StoreInt(UINT8, v);
    }

    method PushUInt16(v: int)
      requires Valid() && Fits(UINT16, v) && CanStore(Target(UINT16, v))
      modifies Footprint()
      ensures var ty := old(Target(UINT16, v)); Stores(ty, Stored(ty, v, toFloat))
      ensures fresh(Footprint() - old(Footprint()))
    {
      hide RingValid, Contents;
      if globalType > UINT16 {
        if v >= 32767 {
          PushUInt32(v);
        } else {
          PushInt16(v);
        }
        return;
      }
      StoreInt(UINT16, v);
    }

    method PushInt16(v: int)
      requires Valid() && Fits(INT16, v) && CanStore(Target(INT16, v))
      modifies Footprint()
      ensures var ty := old(Target(INT16, v)); Stores(ty, Stored(ty, v, toFloat))
      ensures fresh(Footprint() - old(Footprint()))
    {
      hide RingValid, Contents;
      if globalType > INT16 {
        if v >= 0 {
          PushUInt32(v);
        } else {
          PushInt32(v);
        }
        return;
      }
      StoreInt(INT16, v);
    }

    method PushUInt32(v: int)
      requires Valid() && Fits(UINT32, v) && CanStore(Target(UINT32, v))
      modifies Footprint()
      ensures var ty := old(Target(UINT32, v)); Stores(ty, Stored(ty, v, toFloat))
      ensures fresh(Footprint() - old(Footprint()))
    {
      hide RingValid, Contents;
      if globalType > UINT32 {
        if v >= 2147483647 {
          PushFloat(toFloat(v));
        } else {
          PushInt32(v);
        }
        return;
      }
      StoreInt(UINT32, v);
    }

    method PushInt32(v: int)
      requires Valid() && Fits(INT32, v) && CanStore(Target(INT32, v))
      modifies Footprint()
      ensures var ty := old(Target(INT32, v)); Stores(ty, Stored(ty, v, toFloat))
      ensures fresh(Footprint() - old(Footprint()))
    {
      hide RingValid, Contents;
      if globalType > INT32 {
        PushFloat(toFloat(v));
        return;
      }
      StoreInt(INT32, v);
    }

    method PushFloat(bits: Float)
      requires Valid() && CanStore(FLOAT)
      modifies Footprint()
      ensures Stores(FLOAT, F32(bits)) && fresh(Footprint() - old(Footprint()))
    {
      StoreAs(FLOAT, bits);
    }

    /** Pushing an unsigned or a signed machine integer: the value ends up under the least type, from the
        current one upwards, that the promotion chain lets keep it. */
    method PushUInt(v: int)
      requires 0 <= v < 0x1_0000_0000
      requires Valid() && CanStore(LeastFrom(Max(globalType, 0), v))
      modifies Footprint()
      ensures var ty := LeastFrom(Max(old(globalType), 0), v); Stores(ty, Stored(ty, v, toFloat))
      ensures fresh(Footprint() - old(Footprint()))
    {
      hide RingValid, Contents;
      if v <= 255 {
        PushUInt8(v);
      } else if v <= 65535 {
        PushUInt16(v);
      } else {
        PushUInt32(v);
      }
    }

    method PushInt(v: int)
      requires -0x8000_0000 <= v < 0x8000_0000
      requires Valid() && CanStore(LeastFrom(Max(globalType, 0), v))
      modifies Footprint()
      ensures var ty := LeastFrom(Max(old(globalType), 0), v); Stores(ty, Stored(ty, v, toFloat))
      ensures fresh(Footprint() - old(Footprint()))
    {
      hide RingValid, Contents;
      if v < 0 {
        if v < -32768 {
          PushInt32(v);
        } else {
          PushInt16(v);
        }
      } else if v <= 255 {
        PushUInt8(v);
      } else if v <= 65535 {
        PushUInt16(v);
      } else {
        PushUInt32(v);
      }
    }

    // -------------------------------------------------------------- reading the buffer

    method GetElem(ty: ValueType, index: int) returns (r: Elem)
      requires RingValid() && 0 <= index && index + Width(ty) <= |store.flat|
      ensures r == ElemAt(store.flat, Slot(ty, index))
    {
      hide RingOk, AllSlots;
      var bytes := store.Read(index, Width(ty));
      r := Decode(ty, bytes);
    }

    /** Removes and returns the oldest value. */
    method Pop() returns (r: Elem)
      requires Valid()
      modifies this`typeMetas
      ensures Valid() && globalType == old(globalType)
      ensures if old(Contents()) == [] then r == NoElem && Contents() == []
              else r == old(Contents())[0] && Contents() == old(Contents())[1..]
    {
      hide AllSlots, RegionOk, Laid, Values, store.Valid;
      var t := 0;
      while t < TYPE_COUNT
        invariant t <= TYPE_COUNT
        invariant forall i | 0 <= i < t :: typeMetas[i].Absent?
        invariant typeMetas == old(typeMetas)
      {
        if typeMetas[t].Region? {
          r := PopFrom(t);
          return;
        }
        t := t + 1;
      }
      NoRegionNoContents();
      r := NoElem;
    }

    lemma NoRegionNoContents()
      requires RingValid() && forall i | 0 <= i < TYPE_COUNT :: typeMetas[i].Absent?
      ensures Contents() == []
    {
      AbsentAbove(typeMetas, |typeMetas|, 0, store.currentByteMax);
    }

    /** The oldest region gives up its oldest value. */
    method PopFrom(t: ValueType) returns (r: Elem)
      requires Valid() && typeMetas[t].Region? && forall i | 0 <= i < t :: typeMetas[i].Absent?
      modifies this`typeMetas
      ensures Valid()
      ensures old(Contents()) != [] && r == old(Contents())[0] && Contents() == old(Contents())[1..]
    {
      hide Laid, Ordered, RegionOk, SlotsUpTo, RegionSlots, store.Valid, Top, Linear, Shortened, NextPos, Values, ElemAt;
      SlotsInStore();
      OldestLeaves(typeMetas, t, store.currentByteMax);
      LaidTail(Slots(), store.currentByteMax);
      ghost var s := Slots();
      assert s[0] == Slot(t, typeMetas[t].start);
      r := GetElem(t, typeMetas[t].start);
      ValuesTail(store.flat, s);
      assert !Drained();
      RemoveOldest(t);
      assert s[1..] == Slots();
      assert old(Contents()) == [r] + Contents();
      assert pushed[|pushed| - |Contents()|..] == old(Contents())[1..];
      if Drained() {
        NoRegionNoContents();
      }
    }

    /** Moves the start of the region past its oldest value, or frees the region with its last. A start that
        the last value does not line up with never occurs. */
    method RemoveOldest(t: ValueType)
      requires RingOk(typeMetas, store.currentByteMax) && typeMetas[t].Live()
      modifies this`typeMetas
      ensures typeMetas == old(typeMetas)[t := old(Shortened(typeMetas[t], store.currentByteMax))]
    {
      if typeMetas[t].start == typeMetas[t].last {
        typeMetas := typeMetas[t := Absent];
      } else {
        var potStart := typeMetas[t].start + typeMetas[t].bytes;
        if potStart + typeMetas[t].bytes > store.currentByteMax {
          potStart := 0;
        }
        assert !(potStart < typeMetas[t].last < potStart + typeMetas[t].bytes) by {
          AlignedStart(t, typeMetas[t], store.currentByteMax);
        }
        typeMetas := typeMetas[t := typeMetas[t].(start := potStart)];
      }
    }

    /** The number of values held, by walking every region. */
    method Count() returns (count: nat)
      requires Valid()
      ensures count == |Contents()|
    {
      hide Laid, Top, Linear, FromStart, store.Valid;
      count := 0;
      if !store.initialized {
        return;
      }
      var i := 0;
      while i < TYPE_COUNT
        invariant i <= TYPE_COUNT && count == |SlotsUpTo(typeMetas, i, store.currentByteMax)|
      {
        if typeMetas[i].Region? {
          var n := CountRegion(i, typeMetas[i]);
          count := count + n;
        }
        i := i + 1;
      }
    }

    method CountRegion(ty: ValueType, meta: TypeMeta) returns (count: nat)
      requires meta.Live() && meta.bytes == Width(ty)
      ensures count == |RegionSlots(ty, meta, store.currentByteMax)|
    {
      count := 0;
      var current := meta.start;
      if meta.last < meta.start {
        ghost var hi := store.currentByteMax - meta.bytes;
        while current + meta.bytes <= store.currentByteMax
          invariant count + |Run(ty, current, hi)| == |Run(ty, meta.start, hi)|
        {
          count := count + 1;
          current := current + meta.bytes;
        }
        current := 0;
      }
      while current <= meta.last
        invariant count + |Run(ty, current, meta.last)| == |RegionSlots(ty, meta, store.currentByteMax)|
      {
        count := count + 1;
        current := current + meta.bytes;
      }
    }

    lemma ContentsLength()
      requires RingValid()
      ensures |Contents()| == |SlotsUpTo(typeMetas, |typeMetas|, store.currentByteMax)|
    {
    }

    /** Value k of a region is the value so many behind those of the older regions. */
    lemma ValueInRegion(ty: ValueType, k: nat, pos: int)
      requires RingValid() && k < |RegionSlots(ty, typeMetas[ty], store.currentByteMax)|
      requires RegionSlots(ty, typeMetas[ty], store.currentByteMax)[k] == Slot(ty, pos)
      ensures var index := |SlotsUpTo(typeMetas, ty, store.currentByteMax)| + k;
              && 0 <= pos && pos + Width(ty) <= |store.flat|
              && index < |Contents()| && Contents()[index] == ElemAt(store.flat, Slot(ty, pos))
    {
      hide Laid, RegionOk, RegionSlots, SlotsUpTo, store.Valid, Values, Linear, Head, Top, NextPos, ElemAt;
      SlotsInStore();
      SlotAt(typeMetas, |typeMetas|, ty, k, store.currentByteMax);
      ValueAt(store.flat, Slots(), |SlotsUpTo(typeMetas, ty, store.currentByteMax)| + k);
    }

    /** The value at an index, oldest first; none if there is no such value. */
    method Get(index: int) returns (r: Elem)
      requires Valid()
      ensures r == if 0 <= index < |Contents()| then Contents()[index] else NoElem
    {
      hide RegionOk, Laid, AllSlots, Linear, Top, NextPos, store.Valid, Drained, Run, Values, ElemAt;
      assert |Contents()| == |SlotsUpTo(typeMetas, |typeMetas|, store.currentByteMax)| by { ContentsLength(); }
      var count := 0;
      var i := 0;
      while i < TYPE_COUNT
        invariant i <= TYPE_COUNT && count == |SlotsUpTo(typeMetas, i, store.currentByteMax)|
        invariant !(0 <= index < count)
      {
        if typeMetas[i].Region? {
          var n, current := FindInRegion(i, typeMetas[i], index - count);
          if current >= 0 {
            ValueInRegion(i, index - count, current);
            r := GetElem(i, current);
            return;
          }
          count := count + n;
        }
        i := i + 1;
      }
      r := NoElem;
    }

    /** The position of value `index` of one region, or -1 and the number of values walked past. */
    method FindInRegion(ty: ValueType, meta: TypeMeta, index: int) returns (count: nat, current: int)
      requires meta.Live() && RegionOk(ty, meta, store.currentByteMax)
      ensures var s := RegionSlots(ty, meta, store.currentByteMax);
              if 0 <= index < |s| then current >= 0 && s[index] == Slot(ty, current)
              else current == -1 && count == |s|
    {
      hide Reaches, Run;
      RunOver(ty);
      count, current := 0, meta.start;
      ghost var s, done := RegionSlots(ty, meta, store.currentByteMax), [];
      if meta.last < meta.start {
        ghost var hi, low := store.currentByteMax - meta.bytes, Run(ty, 0, meta.last);
        while current + meta.bytes <= store.currentByteMax
          invariant 0 <= current && count == |done| && s == done + Run(ty, current, hi) + low
          invariant !(0 <= index < count)
        {
          if index == count {
            FirstOfRun(ty, current, hi);
            return;
          }
          FirstOfRun(ty, current, hi);
          assert done + Run(ty, current, hi) == done + [Slot(ty, current)] + Run(ty, current + meta.bytes, hi);
          done := done + [Slot(ty, current)];
          current := current + meta.bytes;
          count := count + 1;
        }
        current := 0;
      }
      while current <= meta.last
        invariant 0 <= current && count == |done| && s == done + Run(ty, current, meta.last)
        invariant !(0 <= index < count)
      {
        if index == count {
          FirstOfRun(ty, current, meta.last);
          return;
        }
        FirstOfRun(ty, current, meta.last);
        assert done + Run(ty, current, meta.last) == done + [Slot(ty, current)] + Run(ty, current + meta.bytes, meta.last);
        done := done + [Slot(ty, current)];
        count := count + 1;
        current := current + meta.bytes;
      }
      current := -1;
    }
  }
}
