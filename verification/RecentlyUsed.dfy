/** When blocks were last used in a history of accesses. */
module RecentlyUsed {

  /** One more than the index of the last access to block a, or 0 if there was none. */
  function LastUse(history: seq<nat>, a: nat): (k: nat)
    ensures k <= |history|
  {
    if history == [] then 0
    else if history[|history| - 1] == a then |history|
    else LastUse(history[..|history| - 1], a)
  }

  lemma {:induction false} LastUseIsAccess(history: seq<nat>, a: nat)
    ensures LastUse(history, a) <= |history|
    ensures LastUse(history, a) > 0 <==> a in history
    ensures a in history ==> history[LastUse(history, a) - 1] == a
  {
    if history == [] {
    } else {
      LastUseIsAccess(history[..|history| - 1], a);
      assert history == history[..|history| - 1] + [history[|history| - 1]];
    }
  }

  /** An access makes its block the most recently used and leaves the order of all others. */
  lemma LastUseAfter(history: seq<nat>, a: nat, b: nat)
    ensures LastUse(history + [a], b) == if a == b then |history| + 1 else LastUse(history, b)
  {
    assert (history + [a])[..|history|] == history;
  }

  lemma LastUseTells(history: seq<nat>, a: nat, b: nat)
    requires a in history && LastUse(history, a) == LastUse(history, b)
    ensures a == b
  {
    LastUseIsAccess(history, a);
    LastUseIsAccess(history, b);
  }

  function Used(blocks: seq<nat>): set<nat> {
    set b | b in blocks
  }

  /** The blocks used from the k-th access on. */
  function UsedFrom(history: seq<nat>, k: nat): set<nat>
    requires k <= |history|
  {
    Used(history[k..])
  }

  lemma UsedMore(history: seq<nat>, more: seq<nat>, k: nat)
    requires k <= |history|
    ensures UsedFrom(history + more, k) == UsedFrom(history, k) + Used(more)
    ensures UsedFrom(history, |history|) == {}
  {
    assert (history + more)[k..] == history[k..] + more;
  }

  /** The blocks used since the last use of block a, or since the beginning if there was none. */
  function Recent(history: seq<nat>, a: nat): set<nat> {
    UsedFrom(history, LastUse(history, a))
  }

  lemma {:induction false} LastUseAtLeast(history: seq<nat>, i: nat)
    requires i < |history|
    ensures LastUse(history, history[i]) > i
  {
    if i == |history| - 1 {
    } else if history[|history| - 1] != history[i] {
      LastUseAtLeast(history[..|history| - 1], i);
    }
  }

  /** A block is among them exactly if its own last use is a later one. */
  lemma RecentIsLater(history: seq<nat>, a: nat, b: nat)
    ensures b in Recent(history, a) <==> LastUse(history, b) > LastUse(history, a)
  {
    LastUseIsAccess(history, b);
    if b in Recent(history, a) {
      var i :| LastUse(history, a) <= i < |history| && history[i] == b;
      LastUseAtLeast(history, i);
    }
  }

  /** Uses of other blocks join those since the last use of a. */
  lemma {:induction false} RecentGrows(history: seq<nat>, more: seq<nat>, a: nat)
    requires a !in more
    ensures LastUse(history + more, a) == LastUse(history, a)
    ensures Recent(history + more, a) == Recent(history, a) + Used(more)
  {
    if more == [] {
      assert history + more == history;
    } else {
      var front, last := more[..|more| - 1], more[|more| - 1];
      RecentGrows(history, front, a);
      assert history + more == history + front + [last];
      LastUseAfter(history + front, last, a);
    }
    UsedMore(history, more, LastUse(history, a));
  }

  lemma RecentAfterUse(history: seq<nat>, a: nat)
    ensures Recent(history + [a], a) == {}
  {
    LastUseAfter(history, a, a);
  }

  /** No more than so many accesses have been made since an earlier history, all to the given blocks. */
  ghost predicate Accesses(before: seq<nat>, now: seq<nat>, blocks: set<nat>, ticks: nat) {
    before <= now && |now| <= |before| + ticks && forall b | b in now[|before|..] :: b in blocks
  }

  lemma AccessesOf(before: seq<nat>, more: seq<nat>, blocks: set<nat>)
    requires forall b | b in more :: b in blocks
    ensures Accesses(before, before + more, blocks, |more|)
  {
    assert (before + more)[|before|..] == more;
  }

  lemma AccessesJoin(a: seq<nat>, b: seq<nat>, c: seq<nat>, first: set<nat>, m: nat, second: set<nat>, n: nat)
    requires Accesses(a, b, first, m) && Accesses(b, c, second, n)
    ensures Accesses(a, c, first + second, m + n)
  {
    assert c[|a|..] == b[|a|..] + c[|b|..];
  }

  lemma AccessesGrow(before: seq<nat>, now: seq<nat>, blocks: set<nat>, m: nat, more: set<nat>, n: nat)
    requires Accesses(before, now, blocks, m) && blocks <= more && m <= n
    ensures Accesses(before, now, more, n)
  {
  }

  /** Accesses to other blocks add at most these to those since the last use of a. */
  lemma RecentWithin(before: seq<nat>, now: seq<nat>, blocks: set<nat>, ticks: nat, a: nat)
    requires Accesses(before, now, blocks, ticks) && a !in blocks
    ensures Recent(now, a) <= Recent(before, a) + blocks
    ensures a in now <==> a in before
  {
    var more := now[|before|..];
    assert now == before + more;
    RecentGrows(before, more, a);
  }
}
