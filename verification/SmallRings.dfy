/** What the descriptors do in a ring of less than seven bytes, where RingLayout shows that an append may go wrong. */
module SmallRings {
  import opened RingLayout
  import opened Regions

  /** The descriptors after a write of type ty that clears no older region. */
  function Written(metas: seq<TypeMeta>, ty: ValueType, cap: int): (m: seq<TypeMeta>)
    requires |metas| == TYPE_COUNT && metas[ty].Region?
    ensures |m| == TYPE_COUNT && m[ty].Region?
  {
    var p := Prepared(metas, ty, cap);
    var moved := p.(last := p.next);
    metas[ty := moved.(next := NextPos(moved, cap))]
  }

  /** The descriptors after n pushes of bytes. */
  function BytesWritten(metas: seq<TypeMeta>, n: nat, cap: int): (m: seq<TypeMeta>)
    requires |metas| == TYPE_COUNT && metas[0].Region?
    ensures |m| == TYPE_COUNT && m[0].Region?
  {
    if n == 0 then metas else Written(BytesWritten(metas, n - 1, cap), 0, cap)
  }

  lemma {:induction false} BytesInOrder(metas: seq<TypeMeta>, n: nat, cap: int)
    requires |metas| == TYPE_COUNT && metas[0].Region? && metas[0].start == -1 && metas[0].bytes == 1
    requires 1 <= n < cap
    ensures BytesWritten(metas, n, cap) == metas[0 := Region(0, n - 1, n, 1)]
  {
    if n == 1 {
      assert BytesWritten(metas, 0, cap) == metas;
    } else {
      BytesInOrder(metas, n - 1, cap);
    }
  }

  lemma FirstBytes(cap: int)
    requires 4 <= cap < 7
    ensures RegionSlots(0, Region(0, cap - 4, cap - 3, 1), cap) == [Slot(0, 0), Slot(0, 1), Slot(0, 2)][..cap - 3]
  {
    FirstOfRun(0, 0, cap - 4);
    if cap > 4 { FirstOfRun(0, 1, cap - 4); }
    if cap > 5 { FirstOfRun(0, 2, cap - 4); }
  }

  /** Fewer than seven bytes are too few for the descriptors too: after capacity - 3 pushes of one byte, a
      push of four bytes goes to the start of the ring, where the oldest byte is, and the arc that it has
      cleared in the older region takes none of the bytes away. */
  lemma SmallRingClearsNothing(metas: seq<TypeMeta>, cap: int)
    requires 4 <= cap < 7 && |metas| == TYPE_COUNT
    requires forall i | 0 <= i < TYPE_COUNT :: metas[i].Absent?
    ensures var bytes := BytesWritten(metas[0 := Region(-1, 0, 0, 1)], cap - 3, cap);
            var m := bytes[3 := Region(-1, 0, 0, 4)];
            var p, held := Prepared(m, 3, cap), RegionSlots(0, m[0], cap);
            && AllSlots(m, cap) == held && |held| == cap - 3 && held[0] == Slot(0, 0)
            && p.next == 0 && p.bytes == 4
            && Clear(held, p.last + p.bytes, p.next + p.bytes, cap) == held
  {
    BytesInOrder(metas[0 := Region(-1, 0, 0, 1)], cap - 3, cap);
    var m := BytesWritten(metas[0 := Region(-1, 0, 0, 1)], cap - 3, cap)[3 := Region(-1, 0, 0, 4)];
    assert m[0] == Region(0, cap - 4, cap - 3, 1);
    var held := RegionSlots(0, m[0], cap);
    FirstBytes(cap);
    TopSettles(m, 3, 0);
    hide RegionSlots, BytesWritten;
    assert AllSlots(m, cap) == held by {
      AbsentAbove(m, |m|, 1, cap);
      assert SlotsUpTo(m, 0, cap) == [];
    }
    OutsideKeepsAll(held, cap - 3, 4);
  }
}
