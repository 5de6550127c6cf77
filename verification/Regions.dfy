/** Region descriptors: one per type, giving the slots of that type by first, last and next position. */
module Regions {
  import opened RingLayout

  /** A region is Absent before its type is first used and after its last value is gone. It is Live once it
      holds a value: a region that was only just created has start == -1. */
  datatype TypeMeta = Absent | Region(start: int, last: int, next: int, bytes: int) {
    predicate Live() { Region? && start != -1 }
  }

  /** The positions from, from + width, ... up to last. */
  function Run(ty: ValueType, from: int, last: int): seq<Slot>
    decreases last - from
  {
    if from > last then [] else [Slot(ty, from)] + Run(ty, from + Width(ty), last)
  }

  function RegionSlots(ty: ValueType, m: TypeMeta, cap: int): seq<Slot> {
    if !m.Live() then []
    else if m.last < m.start then Run(ty, m.start, cap - Width(ty)) + Run(ty, 0, m.last)
    else Run(ty, m.start, m.last)
  }

  /** last is a whole number of widths behind from. */
  predicate Reaches(ty: ValueType, from: int, last: int)
    decreases last - from
  {
    from == last || (from < last && Reaches(ty, from + Width(ty), last))
  }

  predicate RegionOk(ty: ValueType, m: TypeMeta, cap: int) {
    && (m.Region? ==> m.bytes == Width(ty))
    && (m.Live() ==>
      && 0 <= m.start && m.start + m.bytes <= cap
      && 0 <= m.last && m.last + m.bytes <= cap
      && Reaches(ty, if m.last < m.start then 0 else m.start, m.last))
  }

  /** Every slot of the region lies wholly before `at`, or at or behind it; a region that wraps round the
      end of the ring is split by `at`. */
  predicate Parted(m: TypeMeta, at: int) {
    m.Live() ==>
      if m.last < m.start then m.start >= at && m.last + m.bytes <= at
      else m.start >= at || m.last + m.bytes <= at
  }

  // ---------------------------------------------------------------- runs

  lemma {:induction false} RunBounds(ty: ValueType, from: int, last: int)
    ensures forall i | 0 <= i < |Run(ty, from, last)| ::
              Run(ty, from, last)[i].ty == ty && from <= Run(ty, from, last)[i].pos <= last
    decreases last - from
  {
    if from > last {
    } else {
      RunBounds(ty, from + Width(ty), last);
    }
  }

  lemma {:induction false} RunExtends(ty: ValueType, from: int, last: int)
    requires Reaches(ty, from, last)
    ensures Reaches(ty, from, last + Width(ty))
    ensures Run(ty, from, last + Width(ty)) == Run(ty, from, last) + [Slot(ty, last + Width(ty))]
    decreases last - from
  {
    if from < last {
      RunExtends(ty, from + Width(ty), last);
    } else {
      assert Run(ty, last + Width(ty), last + Width(ty)) == [Slot(ty, last + Width(ty))];
      assert Reaches(ty, last + Width(ty), last + Width(ty));
    }
  }

  lemma {:induction false} RunEndsAtLast(ty: ValueType, from: int, last: int)
    requires Reaches(ty, from, last)
    ensures Run(ty, from, last) != []
    ensures Run(ty, from, last)[0] == Slot(ty, from)
    ensures Run(ty, from, last)[|Run(ty, from, last)| - 1] == Slot(ty, last)
    decreases last - from
  {
    if from >= last {
    } else {
      RunEndsAtLast(ty, from + Width(ty), last);
    }
  }

  lemma RegionEnds(ty: ValueType, m: TypeMeta, cap: int)
    requires m.Live() && RegionOk(ty, m, cap)
    ensures var s := RegionSlots(ty, m, cap);
            s != [] && s[0] == Slot(ty, m.start) && s[|s| - 1] == Slot(ty, m.last)
    ensures m.last < m.start ==> |RegionSlots(ty, m, cap)| > 1
  {
    RunEndsAtLast(ty, if m.last < m.start then 0 else m.start, m.last);
  }

  lemma RegionBounds(ty: ValueType, m: TypeMeta, cap: int)
    requires RegionOk(ty, m, cap)
    ensures forall i | 0 <= i < |RegionSlots(ty, m, cap)| ::
              var a := RegionSlots(ty, m, cap)[i]; a.ty == ty && 0 <= a.pos && a.End() <= cap
  {
    if m.Live() {
      RunBounds(ty, m.start, cap - Width(ty));
      RunBounds(ty, 0, m.last);
      RunBounds(ty, m.start, m.last);
    }
  }

  // ---------------------------------------------------------------- all regions in type order

  /** The slots of the first n types, oldest first. */
  function SlotsUpTo(metas: seq<TypeMeta>, n: nat, cap: int): seq<Slot>
    requires n <= |metas| == TYPE_COUNT
  {
    if n == 0 then [] else SlotsUpTo(metas, n - 1, cap) + RegionSlots(n - 1, metas[n - 1], cap)
  }

  function AllSlots(metas: seq<TypeMeta>, cap: int): seq<Slot>
    requires |metas| == TYPE_COUNT
  {
    SlotsUpTo(metas, |metas|, cap)
  }

  /** m' is what clearing the given arc leaves of region m. */
  ghost predicate RegionCleared(ty: ValueType, m: TypeMeta, m': TypeMeta, from: int, to: int, cap: int) {
    && RegionOk(ty, m', cap)
    && (m'.Region? ==> m'.Live())
    && RegionSlots(ty, m', cap) == Clear(RegionSlots(ty, m, cap), from, to, cap)
  }

  /** Each of the first n regions has been cleared over the given arc. */
  ghost predicate ClearedBelow(before: seq<TypeMeta>, after: seq<TypeMeta>, n: nat, from: int, to: int, cap: int)
    requires n <= |before| == |after| == TYPE_COUNT
  {
    n > 0 ==>
      && RegionCleared(n - 1, before[n - 1], after[n - 1], from, to, cap)
      && ClearedBelow(before, after, n - 1, from, to, cap)
  }

  lemma {:induction false} AllCleared(before: seq<TypeMeta>, after: seq<TypeMeta>, n: nat, from: int, to: int, cap: int)
    requires n <= |before| == |after| == TYPE_COUNT
    requires forall i: ValueType {:trigger after[i]} | i < n :: RegionCleared(i, before[i], after[i], from, to, cap)
    ensures ClearedBelow(before, after, n, from, to, cap)
  {
    if n == 0 {
    } else {
      AllCleared(before, after, n - 1, from, to, cap);
      assert RegionCleared(n - 1, before[n - 1], after[n - 1], from, to, cap);
    }
  }

  /** Regions clear one by one just as the whole ring does. */
  lemma {:induction false} ClearRegions(before: seq<TypeMeta>, after: seq<TypeMeta>, n: nat, from: int, to: int, cap: int)
    requires n <= |before| == |after| == TYPE_COUNT
    requires ClearedBelow(before, after, n, from, to, cap)
    ensures SlotsUpTo(after, n, cap) == Clear(SlotsUpTo(before, n, cap), from, to, cap)
  {
    if n == 0 {
    } else {
      ClearRegions(before, after, n - 1, from, to, cap);
      ClearConcat(SlotsUpTo(before, n - 1, cap), RegionSlots(n - 1, before[n - 1], cap), from, to, cap);
    }
  }

  lemma {:induction false} SameRegions(before: seq<TypeMeta>, after: seq<TypeMeta>, n: nat, cap: int)
    requires n <= |before| == |after| == TYPE_COUNT
    requires forall i | 0 <= i < n :: before[i] == after[i]
    ensures SlotsUpTo(after, n, cap) == SlotsUpTo(before, n, cap)
  {
    if n == 0 {
    } else {
      SameRegions(before, after, n - 1, cap);
    }
  }

  lemma {:induction false} AbsentAbove(metas: seq<TypeMeta>, n: nat, top: nat, cap: int)
    requires top <= n <= |metas| == TYPE_COUNT
    requires forall i | top <= i < n :: !metas[i].Live()
    ensures SlotsUpTo(metas, n, cap) == SlotsUpTo(metas, top, cap)
  {
    if n == top {
    } else {
      assert RegionSlots(n - 1, metas[n - 1], cap) == [] by { hide SlotsUpTo; }
      hide RegionSlots;
      AbsentAbove(metas, n - 1, top, cap);
    }
  }

  /** A region in order around the head is parted by it. */
  lemma OrderedIsParted(ty: ValueType, m: TypeMeta, head: int, cap: int)
    requires RegionOk(ty, m, cap) && Ordered(RegionSlots(ty, m, cap), head, cap)
    ensures Parted(m, head)
  {
    if m.Live() {
      var r := RegionSlots(ty, m, cap);
      RegionEnds(ty, m, cap);
      assert InRing(r[0], head, cap) && InRing(r[|r| - 1], head, cap);
      assert |r| > 1 ==> Before(r[0], r[|r| - 1], head, cap);
    }
  }

  /** A region's slots inherit the order of the whole ring, so the head parts every region. */
  lemma {:induction false} OrderParts(metas: seq<TypeMeta>, n: nat, i: ValueType, head: int, cap: int)
    requires i < n <= |metas| == TYPE_COUNT
    requires RegionOk(i, metas[i], cap)
    requires Ordered(SlotsUpTo(metas, n, cap), head, cap)
    ensures Parted(metas[i], head)
  {
    var low, all := SlotsUpTo(metas, n - 1, cap), SlotsUpTo(metas, n, cap);
    if i < n - 1 {
      assert Ordered(low, head, cap) by {
        OrderedSlice(all, 0, |low|, head, cap);
        assert all[0..|low|] == low;
      }
      OrderParts(metas, n - 1, i, head, cap);
    } else {
      assert Ordered(RegionSlots(i, metas[i], cap), head, cap) by {
        OrderedSlice(all, |low|, |all|, head, cap);
        assert all[|low|..|all|] == RegionSlots(i, metas[i], cap);
      }
      OrderedIsParted(i, metas[i], head, cap);
    }
  }

  // ---------------------------------------------------------------- the region being appended to

  lemma {:induction false} RunStops(ty: ValueType, from: int, last: int, hi: int)
    requires Reaches(ty, from, last) && last <= hi < last + Width(ty)
    ensures Run(ty, from, hi) == Run(ty, from, last)
    decreases last - from
  {
    if from < last {
      RunStops(ty, from + Width(ty), last, hi);
    } else {
      assert Run(ty, last + Width(ty), hi) == [] == Run(ty, last + Width(ty), last);
    }
  }

  lemma RunKeeps(ty: ValueType, from: int, last: int, lo: int, hi: int)
    requires from >= hi || last < lo
    ensures Outside(Run(ty, from, last), lo, hi) == Run(ty, from, last)
  {
    RunBounds(ty, from, last);
    OutsideKeepsAll(Run(ty, from, last), lo, hi);
  }

  lemma FirstOfRun(ty: ValueType, from: int, last: int)
    requires from <= last
    ensures Run(ty, from, last) == [Slot(ty, from)] + Run(ty, from + Width(ty), last)
    ensures from + Width(ty) > last ==> Run(ty, from, last) == [Slot(ty, from)]
  {
  }

  lemma RunOver(ty: ValueType)
    ensures forall from, last | from > last :: Run(ty, from, last) == []
  {
  }

  lemma NothingOutside(lo: int, hi: int)
    ensures Outside([], lo, hi) == []
  {
  }

  /** Where the next value of a region goes: behind the last one, or at the start of the ring. */
  function NextPos(m: TypeMeta, cap: int): int
    requires m.Region?
  {
    if m.last + 2 * m.bytes > cap then 0 else m.last + m.bytes
  }

  /** Does the next value land on the region's own oldest value? */
  predicate HitsOwnStart(m: TypeMeta)
    requires m.Region?
  {
    m.next <= m.start < m.next + m.bytes
  }

  /** The region's first position once its own oldest value has made room. */
  function AdvancedStart(m: TypeMeta, cap: int): int
    requires m.Region?
  {
    if !HitsOwnStart(m) then m.start
    else if m.start + 2 * m.bytes > cap then 0
    else m.start + m.bytes
  }

  /** Making room by dropping the oldest value of the region and then writing at `next` has the effect of
      an append on the region's slots. */
  lemma OwnRegionAdvances(ty: ValueType, m: TypeMeta, cap: int)
    requires cap >= 7 && m.Live() && RegionOk(ty, m, cap) && m.next == NextPos(m, cap)
    requires Parted(m, m.last + m.bytes)
    requires HitsOwnStart(m) ==> m.start != m.last
    ensures var m' := m.(start := AdvancedStart(m, cap), last := m.next);
            && RegionOk(ty, m', cap)
            && RegionSlots(ty, m', cap)
               == Clear(RegionSlots(ty, m, cap), m.last + m.bytes, m.next + m.bytes, cap) + [Slot(ty, m.next)]
  {
    if m.last < m.start {
      WrappedRegionAdvances(ty, m, cap);
    } else if m.next == 0 {
      RegionWraps(ty, m, cap);
    } else {
      RunKeeps(ty, m.start, m.last, m.next, m.next + m.bytes);
      RunExtends(ty, m.start, m.last);
    }
  }

  lemma WrappedRegionAdvances(ty: ValueType, m: TypeMeta, cap: int)
    requires cap >= 7 && m.Live() && RegionOk(ty, m, cap) && m.next == NextPos(m, cap)
    requires m.last < m.start && Parted(m, m.last + m.bytes)
    ensures var m' := m.(start := AdvancedStart(m, cap), last := m.next);
            && RegionOk(ty, m', cap)
            && RegionSlots(ty, m', cap)
               == Clear(RegionSlots(ty, m, cap), m.last + m.bytes, m.next + m.bytes, cap) + [Slot(ty, m.next)]
  {
    hide Run, Outside, Reaches;
    var h, w, start' := m.last + m.bytes, m.bytes, AdvancedStart(m, cap);
    assert m.next == h && 0 <= start' && start' + w <= cap;
    HighRunAdvances(ty, m, cap);
    hide AdvancedStart, HitsOwnStart, NextPos;
    var high, low := Run(ty, m.start, cap - w), Run(ty, 0, m.last);
    var kept := if start' == 0 then [] else Run(ty, start', cap - w);
    RunKeeps(ty, 0, m.last, h, h + w);
    RunExtends(ty, 0, m.last);
    OutsideConcat(high, low, h, h + w);
    assert kept + (low + [Slot(ty, h)]) == kept + low + [Slot(ty, h)];
  }

  lemma HighRunAdvances(ty: ValueType, m: TypeMeta, cap: int)
    requires m.Live() && RegionOk(ty, m, cap) && m.next == m.last + m.bytes <= m.start
    ensures var h, start' := m.next, AdvancedStart(m, cap);
            && (start' == 0 || start' >= h + m.bytes)
            && Outside(Run(ty, m.start, cap - m.bytes), h, h + m.bytes)
               == if start' == 0 then [] else Run(ty, start', cap - m.bytes)
  {
    hide Run, Outside, Reaches;
    var h, w := m.next, m.bytes;
    assert HitsOwnStart(m) ==> AdvancedStart(m, cap) == if m.start + 2 * w > cap then 0 else m.start + w;
    if HitsOwnStart(m) {
      FirstOfRun(ty, m.start, cap - w);
      OutsideFirst(Slot(ty, m.start), Run(ty, m.start + w, cap - w), h, h + w);
      NothingOutside(h, h + w);
      RunKeeps(ty, m.start + w, cap - w, h, h + w);
    } else {
      RunKeeps(ty, m.start, cap - w, h, h + w);
    }
  }

  lemma RegionWraps(ty: ValueType, m: TypeMeta, cap: int)
    requires cap >= 7 && m.Live() && RegionOk(ty, m, cap) && m.next == NextPos(m, cap) == 0
    requires m.start <= m.last
    requires HitsOwnStart(m) ==> m.start != m.last
    ensures var m' := m.(start := AdvancedStart(m, cap), last := m.next);
            && RegionOk(ty, m', cap)
            && RegionSlots(ty, m', cap)
               == Clear(RegionSlots(ty, m, cap), m.last + m.bytes, m.next + m.bytes, cap) + [Slot(ty, m.next)]
  {
    hide Run, Outside, Reaches;
    var h, w := m.last + m.bytes, m.bytes;
    assert h > w;
    RunKeeps(ty, m.start, m.last, h, cap);
    FirstOfRun(ty, 0, 0);
    if HitsOwnStart(m) {
      ReachesStep(ty, m.start, m.last);
      StepWithin(ty, m.start + w, m.last);
      FirstOfRun(ty, m.start, m.last);
      OutsideFirst(Slot(ty, m.start), Run(ty, m.start + w, m.last), 0, w);
      RunKeeps(ty, m.start + w, m.last, 0, w);
      RunStops(ty, m.start + w, m.last, cap - w);
    } else {
      ReachesStep(ty, m.start, m.last);
      RunKeeps(ty, m.start, m.last, 0, w);
      RunStops(ty, m.start, m.last, cap - w);
    }
  }

  lemma ReachesStep(ty: ValueType, from: int, last: int)
    requires Reaches(ty, from, last)
    ensures from < last ==> Reaches(ty, from + Width(ty), last)
    ensures Reaches(ty, 0, 0)
  {
  }

  lemma OutsideFirst(a: Slot, s: seq<Slot>, lo: int, hi: int)
    ensures Outside([a] + s, lo, hi) == (if lo <= a.pos < hi then [] else [a]) + Outside(s, lo, hi)
  {
    assert ([a] + s)[1..] == s;
  }

  /** A first slot inside the arc is cleared. */
  lemma FirstCleared(ty: ValueType, from: int, last: int, lo: int, hi: int)
    requires lo <= from < hi && from <= last
    ensures Outside(Run(ty, from, last), lo, hi) == Outside(Run(ty, from + Width(ty), last), lo, hi)
    ensures from + Width(ty) > last ==> Outside(Run(ty, from, last), lo, hi) == []
  {
    FirstOfRun(ty, from, last);
    OutsideFirst(Slot(ty, from), Run(ty, from + Width(ty), last), lo, hi);
  }

  lemma StepWithin(ty: ValueType, from: int, last: int)
    requires Reaches(ty, from, last)
    ensures from <= last
  {
  }

  // ---------------------------------------------------------------- the newest region

  /** The highest live region below n, or -1. */
  function Top(metas: seq<TypeMeta>, n: nat): (t: int)
    requires n <= |metas| == TYPE_COUNT
    ensures -1 <= t < n && (t >= 0 ==> metas[t].Live())
    ensures forall i | t < i < n :: !metas[i].Live()
  {
    if n == 0 then -1 else if metas[n - 1].Live() then n - 1 else Top(metas, n - 1)
  }

  /** The newest region ends at the head of the ring and bounds the types of all slots. */
  lemma HeadOfTop(metas: seq<TypeMeta>, n: nat, cap: int)
    requires n <= |metas| == TYPE_COUNT
    requires forall i: ValueType | i < n :: RegionOk(i, metas[i], cap)
    ensures var t, s := Top(metas, n), SlotsUpTo(metas, n, cap);
            if t < 0 then s == []
            else s != [] && s[|s| - 1] == Slot(t, metas[t].last) && Head(s) == metas[t].last + metas[t].bytes
  {
    var t := Top(metas, n);
    AbsentAbove(metas, n, t + 1, cap);
    if t >= 0 {
      RegionEnds(t, metas[t], cap);
    }
  }

  // ---------------------------------------------------------------- growing the ring

  /** Nothing has wrapped round the end of the ring yet. */
  ghost predicate Linear(s: seq<Slot>) {
    forall i | 0 <= i < |s| :: s[i].pos < Head(s)
  }

  lemma LinearDoesNotWrap(metas: seq<TypeMeta>, i: ValueType, cap: int)
    requires |metas| == TYPE_COUNT && RegionOk(i, metas[i], cap)
    requires Linear(AllSlots(metas, cap)) && Ordered(AllSlots(metas, cap), Head(AllSlots(metas, cap)), cap)
    ensures metas[i].Live() ==> metas[i].start <= metas[i].last
  {
    if metas[i].Live() {
      var s := AllSlots(metas, cap);
      OrderParts(metas, |metas|, i, Head(s), cap);
      RegionEnds(i, metas[i], cap);
      RegionWithin(metas, |metas|, i, cap);
      assert Slot(i, metas[i].start) in s;
    }
  }

  lemma {:induction false} RegionWithin(metas: seq<TypeMeta>, n: nat, i: ValueType, cap: int)
    requires i < n <= |metas| == TYPE_COUNT
    ensures forall a | a in RegionSlots(i, metas[i], cap) :: a in SlotsUpTo(metas, n, cap)
  {
    if i == n - 1 {
    } else {
      RegionWithin(metas, n - 1, i, cap);
    }
  }

  /** Regions that do not wrap hold the same slots in a larger ring. */
  lemma {:induction false} SlotsSurviveGrowth(metas: seq<TypeMeta>, n: nat, cap: int, cap': int)
    requires n <= |metas| == TYPE_COUNT
    requires forall i: ValueType | i < n :: metas[i].Live() ==> metas[i].start <= metas[i].last
    ensures SlotsUpTo(metas, n, cap') == SlotsUpTo(metas, n, cap)
  {
    if n == 0 {
    } else {
      SlotsSurviveGrowth(metas, n - 1, cap, cap');
    }
  }

  lemma LaidSurvivesGrowth(s: seq<Slot>, cap: int, cap': int)
    requires Laid(s, cap) && Linear(s) && cap <= cap'
    ensures Laid(s, cap')
  {
    var h := Head(s);
    forall i | 0 <= i < |s| ensures InRing(s[i], h, cap') && Unrolled(s[i], h, cap') == Unrolled(s[i], h, cap) {
      assert InRing(s[i], h, cap);
    }
    forall i, j | 0 <= i < j < |s| ensures Before(s[i], s[j], h, cap') {
      assert Before(s[i], s[j], h, cap);
    }
    forall i | 0 <= i < |s| - 1 ensures Linked(s[i], s[i + 1], cap') {
      assert Linked(s[i], s[i + 1], cap) && Before(s[i], s[i + 1], h, cap) && InRing(s[i], h, cap);
    }
  }

  /** While the ring has not wrapped and the next value fits, an append evicts nothing. */
  lemma LinearAppend(s: seq<Slot>, ty: ValueType, cap: int)
    requires cap >= 7 && Laid(s, cap) && Linear(s) && Head(s) + Width(ty) <= cap && Accepts(s, ty)
    ensures Append(s, ty, cap) == s + [Slot(ty, Head(s))]
    ensures Linear(Append(s, ty, cap))
  {
    OutsideKeepsAll(s, Head(s), Head(s) + Width(ty));
  }

  lemma LinearEvictsNone(s: seq<Slot>, ty: ValueType, cap: int)
    requires cap >= 7 && Laid(s, cap) && Linear(s) && Head(s) + 4 <= cap
    ensures Evicted(s, ty, cap) == 0
  {
    assert s != [] ==> !InWay(s[0], s, ty, cap) by {
      assert s != [] ==> InRing(s[0], Head(s), cap);
    }
  }

  /** The slots lie one behind the other from the start of the ring. */
  ghost predicate FromStart(s: seq<Slot>) {
    Linear(s) && Head(s) == Bytes(s) && (s != [] ==> s[0].pos == 0)
  }

  lemma NothingFromStart()
    ensures FromStart([])
  {
  }

  /** Such a ring loses something to an append exactly if the new value does not fit behind the newest one. */
  lemma AppendFromStart(s: seq<Slot>, ty: ValueType, cap: int)
    requires cap >= 7 && Laid(s, cap) && FromStart(s) && Accepts(s, ty)
    ensures Evicted(s, ty, cap) == 0 <==> Bytes(s) + Width(ty) <= cap
    ensures Evicted(s, ty, cap) == 0 ==> FromStart(Append(s, ty, cap)) && Bytes(Append(s, ty, cap)) == Bytes(s) + Width(ty)
  {
    if s != [] { assert InRing(s[0], Head(s), cap); }
    if Bytes(s) + Width(ty) <= cap {
      LinearAppend(s, ty, cap);
      BytesConcat(s, [Slot(ty, Head(s))]);
      assert s != [] ==> !InWay(s[0], s, ty, cap);
    } else {
      assert InWay(s[0], s, ty, cap);
    }
  }

  /** As many values as have been pushed are held after an append exactly if that was so before and none is evicted. */
  lemma KeptWhole(s: seq<Slot>, pushed: nat, ty: ValueType, cap: int, grows: bool)
    requires cap >= 7 && Laid(s, cap) && Accepts(s, ty) && |s| <= pushed && (|s| == pushed ==> FromStart(s))
    requires grows ==> Evicted(s, ty, cap) == 0
    ensures |Append(s, ty, cap)| == pushed + 1 <==> |s| == pushed && (grows || Bytes(s) + Width(ty) <= cap)
    ensures |Append(s, ty, cap)| == pushed + 1 ==>
              FromStart(Append(s, ty, cap)) && Bytes(Append(s, ty, cap)) == Bytes(s) + Width(ty)
  {
    hide Laid, Append, Evicted, FromStart, Bytes, Accepts;
    AppendKeepsLaid(s, ty, cap);
    if |s| == pushed { AppendFromStart(s, ty, cap); }
  }

  // ---------------------------------------------------------------- one append, region by region

  /** The descriptor of the type being written, once it has been placed behind the newest older region or
      has made room in itself. */
  function Prepared(metas: seq<TypeMeta>, ty: ValueType, cap: int): TypeMeta
    requires |metas| == TYPE_COUNT && metas[ty].Region?
  {
    var m, w, t := metas[ty], metas[ty].bytes, Top(metas, ty);
    if !m.Live() then
      var next := if t < 0 || metas[t].next + w > cap then 0 else metas[t].next;
      Region(next, if t < 0 then 0 else metas[t].last + metas[t].bytes - w, next, w)
    else if HitsOwnStart(m) && m.start == m.last then
      m.(start := m.next, last := m.next)
    else
      m.(start := AdvancedStart(m, cap))
  }

  /** The regions form a well-laid ring whose newest region knows where to go on. */
  ghost predicate RingOk(metas: seq<TypeMeta>, cap: int) {
    && |metas| == TYPE_COUNT
    && (forall i: ValueType :: RegionOk(i, metas[i], cap))
    && Laid(AllSlots(metas, cap), cap)
    && var t := Top(metas, |metas|); t >= 0 ==> metas[t].next == NextPos(metas[t], cap)
  }

  /** A value of type ty may be written: no wider region exists. */
  ghost predicate Writable(metas: seq<TypeMeta>, ty: ValueType) {
    && |metas| == TYPE_COUNT
    && metas[ty].Region?
    && forall i | ty < i < TYPE_COUNT :: metas[i].Absent?
  }

  lemma TopSettles(metas: seq<TypeMeta>, n: nat, t: int)
    requires n <= |metas| == TYPE_COUNT
    requires -1 <= t < n && (t >= 0 ==> metas[t].Live())
    requires forall i | t < i < n :: !metas[i].Live()
    ensures Top(metas, n) == t
  {
  }

  /** If even the newest value is in the way, an append starts the ring afresh. */
  lemma NewestInWay(s: seq<Slot>, ty: ValueType, cap: int)
    requires cap >= 7 && Laid(s, cap) && s != []
    requires InWay(s[|s| - 1], s, ty, cap)
    ensures Survivors(s, ty, cap) == []
  {
    SurvivorsAreSuffix(s, ty, cap);
  }

  /** The head of the ring parts every region; a live written region ends there. */
  lemma HeadParts(metas: seq<TypeMeta>, ty: ValueType, cap: int)
    requires RingOk(metas, cap) && Writable(metas, ty)
    ensures var head := Head(AllSlots(metas, cap));
            && (forall i: ValueType :: Parted(metas[i], head))
            && (metas[ty].Live() ==> head == metas[ty].last + metas[ty].bytes && metas[ty].next == NextPos(metas[ty], cap))
  {
    var s := AllSlots(metas, cap);
    HeadOfTop(metas, |metas|, cap);
    if metas[ty].Live() {
      TopSettles(metas, |metas|, ty);
    }
    forall i: ValueType ensures Parted(metas[i], Head(s)) {
      OrderParts(metas, |metas|, i, Head(s), cap);
    }
  }

  /** The prepared descriptor p says where the append goes and which arc it clears. */
  ghost predicate Placed(s: seq<Slot>, ty: ValueType, p: TypeMeta, cap: int) {
    && p.Region? && p.bytes == Width(ty) && 0 <= p.next && p.next + p.bytes <= cap
    && p.next == WritePos(s, ty, cap)
    && (if p.last == p.next then Survivors(s, ty, cap) == [] else p.last + p.bytes == Head(s))
    && 0 <= p.last + p.bytes <= cap
    && Accepts(s, ty)
  }

  lemma PreparedIsPlaced(metas: seq<TypeMeta>, ty: ValueType, cap: int)
    requires cap >= 7 && RingOk(metas, cap) && Writable(metas, ty)
    ensures Placed(AllSlots(metas, cap), ty, Prepared(metas, ty, cap), cap)
  {
    var s := AllSlots(metas, cap);
    HeadOfTop(metas, |metas|, cap);
    if metas[ty].Live() {
      TopSettles(metas, |metas|, ty);
      if HitsOwnStart(metas[ty]) && metas[ty].start == metas[ty].last {
        NewestInWay(s, ty, cap);
      }
    } else {
      TopSettles(metas, |metas|, Top(metas, ty));
    }
  }

  /** Every older region is parted by the start of the arc about to be cleared. */
  lemma ReadyToClear(metas: seq<TypeMeta>, ty: ValueType, cap: int)
    requires cap >= 7 && RingOk(metas, cap) && Writable(metas, ty)
    ensures var p := Prepared(metas, ty, cap);
            && p.Region? && 0 <= p.last + p.bytes <= cap && 0 <= p.next + p.bytes <= cap
            && forall i: ValueType {:trigger metas[i]} :: p.last != p.next ==> Parted(metas[i], p.last + p.bytes)
  {
    PreparedIsPlaced(metas, ty, cap);
    HeadParts(metas, ty, cap);
  }

  lemma SlotsOfWritable(metas: seq<TypeMeta>, ty: ValueType, cap: int)
    requires Writable(metas, ty)
    ensures AllSlots(metas, cap) == SlotsUpTo(metas, ty, cap) + RegionSlots(ty, metas[ty], cap)
  {
    AbsentAbove(metas, |metas|, ty + 1, cap);
  }

  /** What the preparation leaves of the written region: either it made room in itself, or it starts at the
      position to be written. */
  ghost predicate PreparedFrom(ty: ValueType, m: TypeMeta, p: TypeMeta, cap: int) {
    && p.Region? && p.bytes == Width(ty) && 0 <= p.next && p.next + p.bytes <= cap
    && if m.Live() && p.last != p.next then
         && RegionOk(ty, m, cap) && m.next == NextPos(m, cap) && Parted(m, m.last + m.bytes)
         && (HitsOwnStart(m) ==> m.start != m.last)
         && p == m.(start := AdvancedStart(m, cap))
       else p.start == p.next
  }

  lemma PreparedIsFrom(metas: seq<TypeMeta>, ty: ValueType, cap: int)
    requires cap >= 7 && RingOk(metas, cap) && Writable(metas, ty)
    ensures PreparedFrom(ty, metas[ty], Prepared(metas, ty, cap), cap)
  {
    PreparedIsPlaced(metas, ty, cap);
    HeadParts(metas, ty, cap);
  }

  lemma OwnRegionWritten(ty: ValueType, m: TypeMeta, p: TypeMeta, cap: int)
    requires cap >= 7 && PreparedFrom(ty, m, p, cap)
    ensures RegionOk(ty, p.(last := p.next), cap)
    ensures RegionSlots(ty, p.(last := p.next), cap)
            == Clear(RegionSlots(ty, m, cap), p.last + p.bytes, p.next + p.bytes, cap) + [Slot(ty, p.next)]
  {
    if m.Live() && p.last != p.next {
      OwnRegionAdvances(ty, m, cap);
    } else {
      assert Run(ty, p.next, p.next) == [Slot(ty, p.next)];
    }
  }

  /** Clearing every older region over the same arc, then recording the new position, appends a slot. */
  lemma PlacedIsAppended(s: seq<Slot>, ty: ValueType, p: TypeMeta, cap: int)
    requires Placed(s, ty, p, cap)
    ensures Append(s, ty, cap) == Clear(s, p.last + p.bytes, p.next + p.bytes, cap) + [Slot(ty, p.next)]
  {
  }

  lemma AppendByRegions(before: seq<TypeMeta>, cleared: seq<TypeMeta>, ty: ValueType, p: TypeMeta, cap: int)
    requires cap >= 7 && Writable(before, ty) && Writable(cleared, ty) && cleared[ty] == p
    requires Placed(AllSlots(before, cap), ty, p, cap) && PreparedFrom(ty, before[ty], p, cap)
    requires SlotsUpTo(cleared, ty, cap)
             == Clear(SlotsUpTo(before, ty, cap), p.last + p.bytes, p.next + p.bytes, cap)
    ensures var after := cleared[ty := p.(last := p.next)];
            && AllSlots(after, cap) == Append(AllSlots(before, cap), ty, cap)
            && RegionOk(ty, after[ty], cap)
  {
    hide RegionSlots, SlotsUpTo, Clear, Append;
    PlacedIsAppended(AllSlots(before, cap), ty, p, cap);
    var from, to, a := p.last + p.bytes, p.next + p.bytes, Slot(ty, p.next);
    var after := cleared[ty := p.(last := p.next)];
    OwnRegionWritten(ty, before[ty], p, cap);
    SameRegions(cleared, after, ty, cap);
    SlotsWritten(before, after, ty, from, to, a, cap);
  }

  lemma SlotsWritten(before: seq<TypeMeta>, after: seq<TypeMeta>, ty: ValueType, from: int, to: int, a: Slot, cap: int)
    requires Writable(before, ty) && Writable(after, ty)
    requires SlotsUpTo(after, ty, cap) == Clear(SlotsUpTo(before, ty, cap), from, to, cap)
    requires RegionSlots(ty, after[ty], cap) == Clear(RegionSlots(ty, before[ty], cap), from, to, cap) + [a]
    ensures AllSlots(after, cap) == Clear(AllSlots(before, cap), from, to, cap) + [a]
  {
    SlotsOfWritable(after, ty, cap);
    SlotsOfWritable(before, ty, cap);
    ClearConcat(SlotsUpTo(before, ty, cap), RegionSlots(ty, before[ty], cap), from, to, cap);
  }

  /** What an append has done to the regions once older values are cleared and before its bytes are written. */
  ghost predicate Reclaimed(before: seq<TypeMeta>, m: seq<TypeMeta>, ty: ValueType, cap: int) {
    && |before| == TYPE_COUNT && Writable(m, ty)
    && var p, s := m[ty], AllSlots(before, cap);
    && p.bytes == Width(ty) && 0 <= p.next && p.next + p.bytes <= cap
    && p.next == WritePos(s, ty, cap)
    && Accepts(s, ty)
    && var after := m[ty := p.(last := p.next)];
    && AllSlots(after, cap) == Append(s, ty, cap)
    && after[ty].Live()
    && forall i: ValueType :: RegionOk(i, after[i], cap)
  }

  lemma ClearingReclaims(before: seq<TypeMeta>, cleared: seq<TypeMeta>, ty: ValueType, p: TypeMeta, cap: int)
    requires cap >= 7 && RingOk(before, cap) && Writable(before, ty) && Writable(cleared, ty)
    requires cleared[ty] == p == Prepared(before, ty, cap)
    requires SlotsUpTo(cleared, ty, cap)
             == Clear(SlotsUpTo(before, ty, cap), p.last + p.bytes, p.next + p.bytes, cap)
    requires forall i: ValueType {:trigger cleared[i]} | i < ty :: RegionOk(i, cleared[i], cap)
    ensures Reclaimed(before, cleared, ty, cap)
  {
    PreparedIsPlaced(before, ty, cap);
    PreparedIsFrom(before, ty, cap);
    AppendByRegions(before, cleared, ty, p, cap);
  }

  lemma {:induction false} NextIsNoSlot(metas: seq<TypeMeta>, n: nat, ty: ValueType, next: int, cap: int)
    requires n <= |metas| == TYPE_COUNT && metas[ty].Region?
    ensures SlotsUpTo(metas[ty := metas[ty].(next := next)], n, cap) == SlotsUpTo(metas, n, cap)
  {
    assert RegionSlots(ty, metas[ty].(next := next), cap) == RegionSlots(ty, metas[ty], cap);
    hide RegionSlots;
    if n == 0 {
    } else {
      NextIsNoSlot(metas, n - 1, ty, next, cap);
    }
  }

  /** The regions after an append, in a ring that may have grown meanwhile, are well laid again. */
  lemma AppendSettles(s: seq<Slot>, after: seq<TypeMeta>, ty: ValueType, cap: int, cap': int)
    requires 7 <= cap <= cap' && Laid(s, cap) && Accepts(s, ty)
    requires Writable(after, ty) && after[ty].Live() && forall i: ValueType :: RegionOk(i, after[i], cap)
    requires AllSlots(after, cap) == Append(s, ty, cap)
    requires cap < cap' ==> Linear(s) && Head(s) + 4 <= cap
    ensures var m := after[ty := after[ty].(next := NextPos(after[ty], cap'))];
            RingOk(m, cap') && AllSlots(m, cap') == Append(s, ty, cap)
  {
    var m := after[ty := after[ty].(next := NextPos(after[ty], cap'))];
    var n := Append(s, ty, cap);
    NextIsNoSlot(after, |after|, ty, NextPos(after[ty], cap'), cap);
    AppendKeepsLaid(s, ty, cap);
    if cap < cap' {
      LinearAppend(s, ty, cap);
      forall i: ValueType ensures m[i].Live() ==> m[i].start <= m[i].last {
        LinearDoesNotWrap(m, i, cap);
      }
      SlotsSurviveGrowth(m, |m|, cap, cap');
      LaidSurvivesGrowth(n, cap, cap');
    }
    TopSettles(m, |m|, ty);
  }

  /** Regions that have never been used make an empty ring. */
  lemma NoRegions(metas: seq<TypeMeta>, cap: int)
    requires |metas| == TYPE_COUNT && 0 <= cap && forall i | 0 <= i < TYPE_COUNT :: metas[i].Absent?
    ensures RingOk(metas, cap) && AllSlots(metas, cap) == []
  {
    AbsentAbove(metas, |metas|, 0, cap);
  }

  /** A ring without values stays one whatever its size. */
  lemma EmptyRing(metas: seq<TypeMeta>, cap: int, cap': int)
    requires RingOk(metas, cap) && AllSlots(metas, cap) == [] && 0 <= cap'
    ensures RingOk(metas, cap') && AllSlots(metas, cap') == []
  {
    HeadOfTop(metas, |metas|, cap);
    SlotsSurviveGrowth(metas, |metas|, cap, cap');
  }

  // ---------------------------------------------------------------- taking the oldest value

  /** The oldest region once its oldest value is gone. */
  function Shortened(m: TypeMeta, cap: int): TypeMeta
    requires m.Region?
  {
    if m.start == m.last then Absent
    else if m.start + 2 * m.bytes > cap then m.(start := 0)
    else m.(start := m.start + m.bytes)
  }

  lemma RegionShortens(ty: ValueType, m: TypeMeta, cap: int)
    requires m.Live() && RegionOk(ty, m, cap)
    ensures var m' := Shortened(m, cap);
            && RegionOk(ty, m', cap) && (m'.Region? ==> m'.Live())
            && RegionSlots(ty, m, cap) == [Slot(ty, m.start)] + RegionSlots(ty, m', cap)
  {
    var w := m.bytes;
    if m.start == m.last {
      FirstOfRun(ty, m.start, m.last);
    } else if m.last < m.start {
      FirstOfRun(ty, m.start, cap - w);
    } else {
      FirstOfRun(ty, m.start, m.last);
      hide Run;
      StepWithin(ty, m.start + w, m.last);
    }
  }

  lemma {:induction false} OldestRegion(metas: seq<TypeMeta>, n: nat, t: ValueType, m: TypeMeta, cap: int)
    requires t < n <= |metas| == TYPE_COUNT
    requires forall i | 0 <= i < t :: !metas[i].Live()
    requires metas[t].Region?
    requires RegionSlots(t, metas[t], cap) == [Slot(t, metas[t].start)] + RegionSlots(t, m, cap)
    ensures SlotsUpTo(metas, n, cap) == [Slot(t, metas[t].start)] + SlotsUpTo(metas[t := m], n, cap)
  {
    hide RegionSlots;
    var x := [Slot(t, metas[t].start)];
    if n == t + 1 {
      AbsentAbove(metas, t, 0, cap);
      SameRegions(metas, metas[t := m], t, cap);
    } else {
      OldestRegion(metas, n - 1, t, m, cap);
      var rest, top := SlotsUpTo(metas[t := m], n - 1, cap), RegionSlots(n - 1, metas[n - 1], cap);
      assert x + rest + top == x + (rest + top);
    }
  }

  lemma LaidTail(s: seq<Slot>, cap: int)
    requires Laid(s, cap) && s != []
    ensures Laid(s[1..], cap)
    ensures Linear(s) ==> Linear(s[1..])
    ensures |s| > 1 ==> Head(s[1..]) == Head(s)
  {
    OrderedSlice(s, 1, |s|, Head(s), cap);
    forall i | 0 <= i < |s| - 2 ensures Linked(s[1..][i], s[1..][i + 1], cap) {
      assert Linked(s[i + 1], s[i + 2], cap);
    }
  }

  /** Removing the oldest value leaves a well-laid ring. */
  lemma OldestLeaves(metas: seq<TypeMeta>, t: ValueType, cap: int)
    requires RingOk(metas, cap) && metas[t].Live()
    requires forall i | 0 <= i < t :: !metas[i].Live()
    ensures var m := metas[t := Shortened(metas[t], cap)];
            && RingOk(m, cap) && AllSlots(metas, cap) == [Slot(t, metas[t].start)] + AllSlots(m, cap)
            && (m[t].Region? ==> m[t].Live())
  {
    var m := metas[t := Shortened(metas[t], cap)];
    RegionShortens(t, metas[t], cap);
    OldestRegion(metas, |metas|, t, m[t], cap);
    assert Laid(AllSlots(m, cap), cap) by {
      LaidTail(AllSlots(metas, cap), cap);
      assert AllSlots(metas, cap)[1..] == AllSlots(m, cap);
    }
    TopAfterPop(metas, t, cap);
  }

  lemma TopAfterPop(metas: seq<TypeMeta>, t: ValueType, cap: int)
    requires |metas| == TYPE_COUNT && metas[t].Live() && RegionOk(t, metas[t], cap)
    requires forall i | 0 <= i < t :: !metas[i].Live()
    requires var top := Top(metas, |metas|); metas[top].next == NextPos(metas[top], cap)
    ensures var m := metas[t := Shortened(metas[t], cap)];
            var top := Top(m, |m|);
            top >= 0 ==> m[top].next == NextPos(m[top], cap)
  {
    var m, top := metas[t := Shortened(metas[t], cap)], Top(metas, |metas|);
    TopSettles(m, |m|, if m[top].Live() then top else -1);
  }

  /** Slot k of region i is slot k behind those of the older regions. */
  lemma {:induction false} SlotAt(metas: seq<TypeMeta>, n: nat, i: ValueType, k: nat, cap: int)
    requires i < n <= |metas| == TYPE_COUNT && k < |RegionSlots(i, metas[i], cap)|
    ensures |SlotsUpTo(metas, i, cap)| + k < |SlotsUpTo(metas, n, cap)|
    ensures SlotsUpTo(metas, n, cap)[|SlotsUpTo(metas, i, cap)| + k] == RegionSlots(i, metas[i], cap)[k]
  {
    hide RegionSlots;
    if i == n - 1 {
    } else {
      SlotAt(metas, n - 1, i, k, cap);
    }
  }

  lemma {:induction false} NotLiveIsNoSlot(metas: seq<TypeMeta>, metas': seq<TypeMeta>, n: nat, cap: int)
    requires n <= |metas| == |metas'| == TYPE_COUNT
    requires forall i | 0 <= i < n :: metas[i] == metas'[i] || (!metas[i].Live() && !metas'[i].Live())
    ensures SlotsUpTo(metas', n, cap) == SlotsUpTo(metas, n, cap)
  {
    if n == 0 {
    } else {
      NotLiveIsNoSlot(metas, metas', n - 1, cap);
    }
  }

  /** After the oldest value is gone, the last one still lines up with the new start. */
  lemma AlignedStart(ty: ValueType, m: TypeMeta, cap: int)
    requires m.Live() && RegionOk(ty, m, cap) && m.start != m.last
    ensures var m' := Shortened(m, cap);
            !(m'.start < m.last < m'.start + m.bytes)
  {
    if m.last >= m.start {
      StepWithin(ty, m.start + m.bytes, m.last);
      assert m.start + m.bytes < m.last ==> m.start + 2 * m.bytes <= m.last by {
        if m.start + m.bytes < m.last { StepWithin(ty, m.start + 2 * m.bytes, m.last); }
      }
    } else if 0 < m.last {
      StepWithin(ty, m.bytes, m.last);
    }
  }
}
