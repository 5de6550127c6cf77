/** Where the values of the typed ring sit, as a sequence of slots from oldest to newest.
    This is the specification of MicroBitCircularBuffer: an append first clears the bytes between the
    newest value and the end of the value about to be written, then writes behind the newest value. */
module RingLayout {

  /** The value types in promotion order: UINT8, UINT16, INT16, UINT32, INT32, FLOAT. */
  const TYPE_COUNT := 6

  type ValueType = t: nat | t < TYPE_COUNT

  function Width(ty: ValueType): (w: int)
    ensures 1 <= w <= 4
  {
    if ty == 0 then 1 else if ty <= 2 then 2 else 4
  }

  datatype Slot = Slot(ty: ValueType, pos: int) {
    function End(): int { pos + Width(ty) }
  }

  /** The first byte behind the newest value. */
  function Head(s: seq<Slot>): int {
    if s == [] then 0 else s[|s| - 1].End()
  }

  function WritePos(s: seq<Slot>, ty: ValueType, cap: int): int {
    if Head(s) + Width(ty) > cap then 0 else Head(s)
  }

  // ---------------------------------------------------------------- clearing bytes

  /** The slots that do not start inside [from, to). */
  function Outside(s: seq<Slot>, from: int, to: int): seq<Slot> {
    if s == [] then []
    else (if from <= s[0].pos < to then [] else [s[0]]) + Outside(s[1..], from, to)
  }

  /** Clearing the arc from `from` up to `to`, which runs over the end of the ring when to < from.
      An empty arc stands for the whole ring. */
  function Clear(s: seq<Slot>, from: int, to: int, cap: int): seq<Slot> {
    if from == to then []
    else if to < from then Outside(Outside(s, from, cap), 0, to)
    else Outside(s, from, to)
  }

  function Survivors(s: seq<Slot>, ty: ValueType, cap: int): seq<Slot> {
    Clear(s, Head(s), WritePos(s, ty, cap) + Width(ty), cap)
  }

  function Append(s: seq<Slot>, ty: ValueType, cap: int): seq<Slot> {
    Survivors(s, ty, cap) + [Slot(ty, WritePos(s, ty, cap))]
  }

  // ---------------------------------------------------------------- well-formed layouts

  /** Position on an unrolled ring: a slot at or behind the head was written one lap earlier. */
  function Unrolled(a: Slot, head: int, cap: int): int {
    if a.pos >= head then a.pos - cap else a.pos
  }

  ghost predicate InRing(a: Slot, head: int, cap: int) {
    0 <= a.pos && a.End() <= cap && (a.pos >= head || a.End() <= head)
  }

  ghost predicate Before(a: Slot, b: Slot, head: int, cap: int) {
    Unrolled(a, head, cap) + Width(a.ty) <= Unrolled(b, head, cap) && a.ty <= b.ty
  }

  /** Oldest to newest is left to right on the unrolled ring, without overlap, and types never fall. */
  ghost predicate Ordered(s: seq<Slot>, head: int, cap: int) {
    && (forall i | 0 <= i < |s| :: InRing(s[i], head, cap))
    && (forall i, j {:trigger Before(s[i], s[j], head, cap)}
                    {:trigger Unrolled(s[i], head, cap), Unrolled(s[j], head, cap)} | 0 <= i < j < |s| ::
          Before(s[i], s[j], head, cap))
  }

  /** b is written directly behind a, or at the start of the ring because it did not fit there. */
  ghost predicate Linked(a: Slot, b: Slot, cap: int) {
    b.pos == a.End() || (b.pos == 0 && a.End() + Width(b.ty) > cap)
  }

  ghost predicate Contiguous(s: seq<Slot>, cap: int) {
    forall i | 0 <= i < |s| - 1 :: Linked(s[i], s[i + 1], cap)
  }

  ghost predicate Laid(s: seq<Slot>, cap: int) {
    0 <= Head(s) <= cap && Ordered(s, Head(s), cap) && Contiguous(s, cap)
  }

  /** Values arrive with a type at least as wide as that of the newest value. */
  predicate Accepts(s: seq<Slot>, ty: ValueType) {
    s != [] ==> s[|s| - 1].ty <= ty
  }

  // ---------------------------------------------------------------- lemmas on clearing

  lemma {:induction false} OutsideConcat(a: seq<Slot>, b: seq<Slot>, from: int, to: int)
    ensures Outside(a + b, from, to) == Outside(a, from, to) + Outside(b, from, to)
  {
    if a == [] {
      assert a + b == b;
    } else {
      assert (a + b)[1..] == a[1..] + b;
      OutsideConcat(a[1..], b, from, to);
    }
  }

  lemma ClearConcat(a: seq<Slot>, b: seq<Slot>, from: int, to: int, cap: int)
    ensures Clear(a + b, from, to, cap) == Clear(a, from, to, cap) + Clear(b, from, to, cap)
  {
    if to < from {
      OutsideConcat(a, b, from, cap);
      OutsideConcat(Outside(a, from, cap), Outside(b, from, cap), 0, to);
    } else {
      OutsideConcat(a, b, from, to);
    }
  }

  /** Clearing keeps everything when nothing starts in the arc ... */
  lemma {:induction false} OutsideKeepsAll(s: seq<Slot>, from: int, to: int)
    requires forall i | 0 <= i < |s| :: !(from <= s[i].pos < to)
    ensures Outside(s, from, to) == s
  {
    if s == [] {
    } else {
      OutsideKeepsAll(s[1..], from, to);
    }
  }

  /** ... and nothing when everything does. */
  lemma {:induction false} OutsideDropsAll(s: seq<Slot>, from: int, to: int)
    requires forall i | 0 <= i < |s| :: from <= s[i].pos < to
    ensures Outside(s, from, to) == []
  {
    if s == [] {
    } else {
      OutsideDropsAll(s[1..], from, to);
    }
  }

  /** If the slots that start in the arc are exactly the first k, clearing drops exactly those. */
  lemma OutsideDropsPrefix(s: seq<Slot>, from: int, to: int, k: nat)
    requires k <= |s|
    requires forall i | 0 <= i < |s| :: (from <= s[i].pos < to) <==> i < k
    ensures Outside(s, from, to) == s[k..]
  {
    assert s == s[..k] + s[k..];
    OutsideConcat(s[..k], s[k..], from, to);
    OutsideDropsAll(s[..k], from, to);
    OutsideKeepsAll(s[k..], from, to);
  }

  lemma OrderedSlice(s: seq<Slot>, lo: nat, hi: nat, head: int, cap: int)
    requires lo <= hi <= |s| && Ordered(s, head, cap)
    ensures Ordered(s[lo..hi], head, cap)
  {
    forall i, j | 0 <= i < j < hi - lo ensures Before(s[lo..hi][i], s[lo..hi][j], head, cap) {
      assert Before(s[lo + i], s[lo + j], head, cap);
    }
  }

  // ---------------------------------------------------------------- an append drops a prefix

  /** The unrolled position up to which bytes are reclaimed by an append. */
  function Threshold(s: seq<Slot>, ty: ValueType, cap: int): int {
    if Head(s) + Width(ty) > cap then Width(ty) else Head(s) + Width(ty) - cap
  }

  ghost predicate InWay(a: Slot, s: seq<Slot>, ty: ValueType, cap: int) {
    Unrolled(a, Head(s), cap) < Threshold(s, ty, cap)
  }

  /** How many of the oldest values an append evicts. */
  ghost function Evicted(s: seq<Slot>, ty: ValueType, cap: int): (k: nat)
    requires cap >= 7 && Laid(s, cap)
    ensures k <= |s|
    ensures forall i | 0 <= i < |s| :: InWay(s[i], s, ty, cap) <==> i < k
  {
    PrefixBound(s, Head(s), Threshold(s, ty, cap), cap)
  }

  ghost function PrefixBound(s: seq<Slot>, head: int, t: int, cap: int): (k: nat)
    requires Ordered(s, head, cap)
    ensures k <= |s|
    ensures forall i | 0 <= i < |s| :: Unrolled(s[i], head, cap) < t <==> i < k
  {
    if s == [] then 0
    else
      assert Ordered(s[..|s| - 1], head, cap) by { OrderedSlice(s, 0, |s| - 1, head, cap); }
      var k := PrefixBound(s[..|s| - 1], head, t, cap);
      if k == |s| - 1 && Unrolled(s[|s| - 1], head, cap) < t then |s| else
        assert k < |s| - 1 ==> Before(s[k], s[|s| - 1], head, cap);
        k
  }

  /** An append drops exactly the values in its way, and they are the oldest ones. */
  lemma SurvivorsAreSuffix(s: seq<Slot>, ty: ValueType, cap: int)
    requires cap >= 7 && Laid(s, cap)
    ensures Survivors(s, ty, cap) == s[Evicted(s, ty, cap)..]
  {
    var h, w, k := Head(s), Width(ty), Evicted(s, ty, cap);
    if h + w <= cap {
      forall i | 0 <= i < |s| ensures (h <= s[i].pos < h + w) <==> i < k {
        assert InRing(s[i], h, cap) && (InWay(s[i], s, ty, cap) <==> i < k);
      }
      OutsideDropsPrefix(s, h, h + w, k);
    } else {
      var m := PrefixBound(s, h, 0, cap);
      WrapDropsPrefix(s, h, w, cap, m, k);
    }
  }

  /** When the write wraps, the slots of the earlier lap go first, then those at the start of this one. */
  lemma WrapDropsPrefix(s: seq<Slot>, h: int, w: int, cap: int, m: nat, k: nat)
    requires 7 <= cap && 1 <= w <= 4 && h <= cap < h + w && m <= |s| && k <= |s|
    requires forall i | 0 <= i < |s| :: InRing(s[i], h, cap)
    requires forall i | 0 <= i < |s| :: Unrolled(s[i], h, cap) < 0 <==> i < m
    requires forall i | 0 <= i < |s| :: Unrolled(s[i], h, cap) < w <==> i < k
    ensures Clear(s, h, w, cap) == s[k..]
  {
    assert m <= k by {
      assert m > 0 ==> Unrolled(s[m - 1], h, cap) < 0;
    }
    if h > w {
      forall i | 0 <= i < |s| ensures (h <= s[i].pos < cap) <==> i < m {
        assert InRing(s[i], h, cap);
      }
      OutsideDropsPrefix(s, h, cap, m);
      forall i | 0 <= i < |s| - m ensures (0 <= s[m..][i].pos < w) <==> i < k - m {
        assert InRing(s[m + i], h, cap) && s[m..][i] == s[m + i];
      }
      OutsideDropsPrefix(s[m..], 0, w, k - m);
      assert s[m..][k - m..] == s[k..];
    } else {
      // the newest value ends at w, so every value is in the way
      assert h == w;
      if s != [] {
        assert InRing(s[|s| - 1], h, cap);
        assert Unrolled(s[|s| - 1], h, cap) < w;
      }
    }
  }

  /** A slot out of the way keeps its unrolled position, up to one lap. */
  lemma HeadMoves(a: Slot, s: seq<Slot>, ty: ValueType, cap: int)
    requires cap >= 7 && 0 <= Head(s) <= cap
    requires InRing(a, Head(s), cap) && !InWay(a, s, ty, cap)
    ensures var p := WritePos(s, ty, cap);
            var head := p + Width(ty);
            && InRing(a, head, cap)
            && Unrolled(a, head, cap) + Width(a.ty) <= p
            && Unrolled(a, Head(s), cap) - Unrolled(a, head, cap) == if Head(s) + Width(ty) > cap then cap else 0
  {
  }

  /** Appending keeps the layout well formed and evicts only a prefix. */
  lemma AppendKeepsLaid(s: seq<Slot>, ty: ValueType, cap: int)
    requires cap >= 7 && Laid(s, cap)
    requires Accepts(s, ty)
    ensures Laid(Append(s, ty, cap), cap)
    ensures Append(s, ty, cap) == s[Evicted(s, ty, cap)..] + [Slot(ty, WritePos(s, ty, cap))]
  {
    SurvivorsAreSuffix(s, ty, cap);
    var k, p := Evicted(s, ty, cap), WritePos(s, ty, cap);
    var n := Append(s, ty, cap);
    assert forall i | 0 <= i < |n| - 1 :: n[i] == s[k + i];
    AppendKeepsOrder(s, ty, cap, k, n);
    forall i | 0 <= i < |n| - 1 ensures Linked(n[i], n[i + 1], cap) {
      if i < |n| - 2 {
        assert Linked(s[k + i], s[k + i + 1], cap);
      }
    }
  }

  lemma AppendKeepsOrder(s: seq<Slot>, ty: ValueType, cap: int, k: nat, n: seq<Slot>)
    requires cap >= 7 && Laid(s, cap) && k <= |s|
    requires forall i | 0 <= i < |s| :: InWay(s[i], s, ty, cap) <==> i < k
    requires n == s[k..] + [Slot(ty, WritePos(s, ty, cap))]
    requires Accepts(s, ty)
    ensures Ordered(n, Head(n), cap)
  {
    var h, head := Head(s), WritePos(s, ty, cap) + Width(ty);
    assert Head(n) == head;
    forall i | 0 <= i < |s| - k
      ensures n[i] == s[k + i] && !InWay(s[k + i], s, ty, cap) && InRing(s[k + i], h, cap)
    {
    }
    forall i | 0 <= i < |n| ensures InRing(n[i], head, cap) {
      if i < |s| - k { HeadMoves(n[i], s, ty, cap); }
    }
    forall i, j | 0 <= i < j < |n| ensures Before(n[i], n[j], head, cap) {
      HeadMoves(n[i], s, ty, cap);
      if j < |s| - k {
        HeadMoves(n[j], s, ty, cap);
        assert Before(s[k + i], s[k + j], h, cap);
      } else {
        assert k + i < |s| - 1 ==> Before(s[k + i], s[|s| - 1], h, cap);
      }
    }
  }

  // ---------------------------------------------------------------- how much survives

  function Bytes(s: seq<Slot>): (n: nat) {
    if s == [] then 0 else Width(s[0].ty) + Bytes(s[1..])
  }

  lemma {:induction false} BytesConcat(a: seq<Slot>, b: seq<Slot>)
    ensures Bytes(a + b) == Bytes(a) + Bytes(b)
  {
    if a == [] {
      assert a + b == b;
    } else {
      assert (a + b)[1..] == a[1..] + b;
      BytesConcat(a[1..], b);
    }
  }

  /** The values fill the unrolled ring from the oldest one to the head, but for at most three bytes
      left unused at the end of the ring. */
  lemma {:induction false} BytesFillSpan(s: seq<Slot>, head: int, cap: int)
    requires s != [] && s[|s| - 1].End() == head <= cap
    requires Ordered(s, head, cap) && Contiguous(s, cap)
    ensures Bytes(s) >= head - Unrolled(s[0], head, cap) - if s[0].pos >= head then 3 else 0
  {
    assert s == [s[0]] + s[1..];
    if |s| <= 1 {
    } else {
      assert Linked(s[0], s[1], cap) && InRing(s[0], head, cap) && InRing(s[1], head, cap);
      assert Before(s[0], s[1], head, cap);
      forall i | 0 <= i < |s[1..]| - 1 ensures Linked(s[1..][i], s[1..][i + 1], cap) {
        assert Linked(s[i + 1], s[i + 2], cap);
      }
      assert Ordered(s[1..], head, cap) by { OrderedSlice(s, 1, |s|, head, cap); }
      BytesFillSpan(s[1..], head, cap);
    }
  }

  /** An append that evicts anything leaves the ring full, but for at most six bytes. */
  lemma EvictionMeansFull(s: seq<Slot>, ty: ValueType, cap: int)
    requires cap >= 7 && Laid(s, cap)
    ensures Bytes(Append(s, ty, cap)) == Bytes(s[Evicted(s, ty, cap)..]) + Width(ty)
    ensures Evicted(s, ty, cap) > 0 ==> Bytes(Append(s, ty, cap)) >= cap - 6
  {
    SurvivorsAreSuffix(s, ty, cap);
    var k := Evicted(s, ty, cap);
    BytesConcat(s[k..], [Slot(ty, WritePos(s, ty, cap))]);
    if k > 0 {
      var t := s[k - 1..];
      assert InWay(s[k - 1], s, ty, cap);
      assert t[1..] == s[k..];
      forall i | 0 <= i < |t| - 1 ensures Linked(t[i], t[i + 1], cap) {
        assert Linked(s[k - 1 + i], s[k - 1 + i + 1], cap);
      }
      OrderedSlice(s, k - 1, |s|, Head(s), cap);
      BytesFillSpan(t, Head(s), cap);
    }
  }

  // ---------------------------------------------------------------- whole runs

  /** The layout after pushing values of the given types, oldest first. */
  function Layout(types: seq<ValueType>, cap: int): seq<Slot> {
    if types == [] then []
    else Append(Layout(types[..|types| - 1], cap), types[|types| - 1], cap)
  }

  ghost predicate Rising(types: seq<ValueType>) {
    forall i, j {:trigger types[i], types[j]} | 0 <= i < j < |types| :: types[i] <= types[j]
  }

  /** s holds values of the last |s| of the given types. */
  ghost predicate HoldsSuffix(s: seq<Slot>, types: seq<ValueType>) {
    && |s| <= |types|
    && forall i | 0 <= i < |s| :: s[i].ty == types[|types| - |s| + i]
  }

  lemma SuffixExtends(s: seq<Slot>, types: seq<ValueType>, k: nat, a: Slot)
    requires HoldsSuffix(s, types) && k <= |s|
    ensures HoldsSuffix(s[k..] + [a], types + [a.ty])
  {
  }

  /** Every run of pushes leaves a well-formed suffix of what was pushed. */
  lemma {:induction false} LayoutIsSuffix(types: seq<ValueType>, cap: int)
    requires cap >= 7 && Rising(types)
    ensures Laid(Layout(types, cap), cap)
    ensures HoldsSuffix(Layout(types, cap), types)
  {
    if types == [] {
    } else {
      var before, ty := types[..|types| - 1], types[|types| - 1];
      LayoutIsSuffix(before, cap);
      var s := Layout(before, cap);
      assert Accepts(s, ty) by {
        assert s != [] ==> s[|s| - 1].ty == types[|types| - 2];
      }
      assert HoldsSuffix(Append(s, ty, cap), before + [ty]) by {
        AppendKeepsLaid(s, ty, cap);
        SuffixExtends(s, before, Evicted(s, ty, cap), Slot(ty, WritePos(s, ty, cap)));
      }
      assert Laid(Append(s, ty, cap), cap) by { AppendKeepsLaid(s, ty, cap); }
      assert before + [ty] == types;
    }
  }

  /** Once a run has lost a value, the ring stays full, but for at most six bytes. */
  lemma {:induction false} LayoutStaysFull(types: seq<ValueType>, cap: int)
    requires cap >= 7 && Rising(types)
    ensures var s := Layout(types, cap); |s| < |types| ==> Bytes(s) >= cap - 6
  {
    if types == [] {
    } else {
      var before, ty := types[..|types| - 1], types[|types| - 1];
      LayoutStaysFull(before, cap);
      LayoutIsSuffix(before, cap);
      var s := Layout(before, cap);
      SurvivorsAreSuffix(s, ty, cap);
      EvictionMeansFull(s, ty, cap);
      assert s[0..] == s;
    }
  }

  /** Does every append onto a well-formed layout give a well-formed layout? */
  ghost predicate AppendsSafe(cap: int) {
    forall s: seq<Slot>, ty: ValueType {:trigger Append(s, ty, cap)} ::
      Laid(s, cap) && Accepts(s, ty) ==> Laid(Append(s, ty, cap), cap)
  }

  /** Seven bytes is the exact threshold. Below it a wrapped write reclaims [head, 4) where it should
      reclaim the end of the ring and [0, 4), so an old value survives underneath the new one. */
  lemma CapacityThreshold(cap: nat)
    ensures AppendsSafe(cap) <==> cap >= 7
  {
    if cap >= 7 {
      forall s: seq<Slot>, ty: ValueType | Laid(s, cap) && Accepts(s, ty)
        ensures Laid(Append(s, ty, cap), cap)
      {
        AppendKeepsLaid(s, ty, cap);
      }
    } else if cap < 4 {
      assert Append([], 3, cap) == [Slot(3, 0)];
      assert !InRing(Slot(3, 0), 4, cap);
    } else {
      SmallRingsOverlap(cap);
    }
  }

  lemma SmallRingsOverlap(cap: nat)
    requires 4 <= cap < 7
    ensures !AppendsSafe(cap)
  {
    var s := [Slot(0, 0), Slot(0, 1), Slot(0, 2)][..cap - 3];
    var n := Append(s, 3, cap);
    assert Laid(s, cap);
    OutsideKeepsAll(s, cap - 3, 4);
    assert n == s + [Slot(3, 0)];
    assert !Ordered(n, 4, cap) by {
      assert n[0] == Slot(0, 0) && n[|n| - 1] == Slot(3, 0);
      assert !Before(n[0], n[|n| - 1], 4, cap);
    }
  }
}
