/** Cutting off the unused end of the handle array in pvr/handle.c. */
module HandlePurging {
  import opened HandleModel
  import opened HandleRings
  import opened HandleFreeing
  import opened HandleView
  import opened HandleGrowing

  /** The free slots below a bound. */
  ghost function FreeBelow(free: seq<nat>, n: nat): (rest: seq<nat>)
    ensures forall x: nat {:trigger x in rest} :: x in rest <==> x in free && x < n
  {
    if free == [] then [] else
      var rest := FreeBelow(free[..|free| - 1], n);
      var last := free[|free| - 1];
      assert free == free[..|free| - 1] + [last];
      if last < n then rest + [last] else rest
  }

  lemma {:induction false} FreeBelowDistinct(free: seq<nat>, n: nat)
    requires Distinct(free)
    ensures Distinct(FreeBelow(free, n))
  {
    if free != [] {
      var front, last := free[..|free| - 1], free[|free| - 1];
      FreeBelowDistinct(front, n);
      assert last !in front;
      var rest := FreeBelow(front, n);
      forall j | 0 <= j < |rest|
        ensures rest[j] != last
      {
        assert rest[j] in rest;
        assert rest[j] in front;
      }
    }
  }

  ghost function Range(lo: nat, hi: nat): (s: set<nat>)
    requires lo <= hi
    ensures forall x: nat :: x in s <==> lo <= x < hi
    ensures |s| == hi - lo
    decreases hi
  {
    if lo == hi then {} else
      var s := Range(lo, hi - 1);
      s + {hi - 1}
  }

  ghost function ToSet(s: seq<nat>): set<nat> {
    set x | x in s
  }

  lemma {:induction false} DistinctSize(s: seq<nat>)
    requires Distinct(s)
    ensures |ToSet(s)| == |s|
  {
    if s != [] {
      var n := |s| - 1;
      DistinctSize(s[..n]);
      assert s == s[..n] + [s[n]];
      assert ToSet(s) == ToSet(s[..n]) + {s[n]};
    }
  }

  /** Where everything from n on is free, that many free slots fewer lie below n. */
  lemma FreeBelowCount(free: seq<nat>, n: nat, total: nat)
    requires Distinct(free) && n <= total
    requires forall x: nat :: n <= x < total ==> x in free
    requires forall x: nat :: x in free ==> x < total
    ensures |FreeBelow(free, n)| == |free| - (total - n)
  {
    var rest := FreeBelow(free, n);
    FreeBelowDistinct(free, n);
    DistinctSize(free);
    DistinctSize(rest);
    assert ToSet(free) == ToSet(rest) + Range(n, total);
    assert ToSet(rest) !! Range(n, total);
  }

  /** As many free slots as there are slots: all are free. */
  lemma AllFree(free: seq<nat>, total: nat, x: nat)
    requires Distinct(free) && |free| == total && x < total
    requires forall y: nat :: y in free ==> y < total
    ensures x in free
  {
    DistinctSize(free);
    if x !in free {
      assert ToSet(free) <= Range(0, total) - {x};
      SubsetSize(ToSet(free), Range(0, total) - {x});
    }
  }

  lemma {:induction false} SubsetSize(a: set<nat>, b: set<nat>)
    requires a <= b
    ensures |a| <= |b|
  {
    if a != {} {
      var x :| x in a;
      SubsetSize(a - {x}, b - {x});
    }
  }

  ghost function Cut(g: Shape, n: nat): (c: Shape)
    requires n <= |g.kids| && n <= |g.depth|
    ensures c.live == g.live && c.limbo == g.limbo && c.batch == g.batch
  {
    g.(free := FreeBelow(g.free, n), kids := g.kids[..n], depth := g.depth[..n])
  }

  lemma CutKeepsCore(s: seq<Slot>, g: Shape, n: nat)
    requires Core(s, g) && n <= |s| && g.batch == [] && g.limbo == {}
    requires forall x: nat :: n <= x < |s| ==> x in g.free
    ensures n <= |g.kids| && n <= |g.depth| && Core(s[..n], Cut(g, n))
    ensures ViewOf(s[..n], g.live) == ViewOf(s, g.live)
  {
    var r, g' := s[..n], Cut(g, n);
    FreeBelowDistinct(g.free, n);
    forall x: nat | x in g.live
      ensures x < n
    {
      assert x < |s| && x !in g.free;
    }
    assert Partition(|r|, g') by { hide Forest, Marks; }
    forall x: nat | x < n
      ensures MarkOk(r, g', x) && ParentOk(r, g', x) && KidsOk(r, g', x)
    {
      CutKeepsSlot(s, g, n, x);
    }
    forall h: nat
      ensures h in ViewOf(r, g.live) <==> h in ViewOf(s, g.live)
      ensures h in ViewOf(r, g.live) ==> ViewOf(r, g.live)[h] == ViewOf(s, g.live)[h]
    {
      assert h - 1 in g.live ==> h - 1 < n;
    }
  }

  /** With purging enabled there is no list to cut, only the count. */
  lemma CutKeepsLists(s: seq<Slot>, g: Shape, h: Header, n: nat)
    requires Core(s, g) && Lists(s, g, h) && h.purging && n <= |s| && n <= |g.kids| && n <= |g.depth|
    requires forall x: nat :: n <= x < |s| ==> x in g.free
    ensures |s| - n <= h.freeCount && g.batch == []
    ensures Lists(s[..n], Cut(g, n), h.(freeCount := h.freeCount - (|s| - n), firstFree := 0))
  {
    FreeBelowCount(g.free, n, |s|);
    var r := s[..n];
    assert forall x: nat {:trigger r[x]} :: x < |r| ==> r[x] == s[x];
  }

  lemma CutKeepsSlot(s: seq<Slot>, g: Shape, n: nat, x: nat)
    requires Core(s, g) && n <= |s| && g.batch == [] && x < n && n <= |g.kids| && n <= |g.depth| && g.limbo == {}
    requires forall y: nat :: y in g.live ==> y < n
    ensures MarkOk(s[..n], Cut(g, n), x) && ParentOk(s[..n], Cut(g, n), x) && KidsOk(s[..n], Cut(g, n), x)
  {
    var r, g' := s[..n], Cut(g, n);
    assert MarkOk(s, g, x) && ParentOk(s, g, x) && KidsOk(s, g, x);
    if x in g.live && s[x].siblings.parent != NULL {
      ParentIsUsed(s, g, x);
    }
    forall j | 0 <= j < |g.kids[x]|
      ensures ChildOk(r, g', x, g.kids[x][j]) && g.kids[x][j] < n
    {
      assert ChildOk(s, g, x, g.kids[x][j]);
    }
    if HasRing(g, x) {
      forall j: nat | j <= |g.kids[x]|
        ensures Linked(r, x, g.kids[x], j)
      {
        assert Linked(s, x, g.kids[x], j);
      }
    }
  }

  // ---------------------------------------------------------------- walks through the links

  /** The first n slots visited by following the free list from a slot. */
  function FreeWalk(slots: seq<Slot>, first: nat, n: nat): seq<nat>
    decreases n
  {
    if n == 0 then [] else
      [first] + if first < |slots| && FreeSucc(slots, first) >= 0 then FreeWalk(slots, FreeSucc(slots, first), n - 1)
                else []
  }

  /** The slots on the batch list from a link on; no more than n of them. */
  function BatchWalk(slots: seq<Slot>, plusOne: nat, n: nat): seq<nat>
    decreases n
  {
    if n == 0 || plusOne == 0 || plusOne > |slots| then [] else
      [plusOne - 1] + BatchWalk(slots, slots[plusOne - 1].next, n - 1)
  }

  lemma {:induction false} FreeWalkVisits(s: seq<Slot>, free: seq<nat>, j: nat)
    requires j < |free|
    requires forall k :: 0 <= k < |free| ==> free[k] < |s|
    requires forall k :: 0 <= k < |free| - 1 ==> FreeSucc(s, free[k]) == free[k + 1]
    ensures FreeWalk(s, free[j], |free| - j) == free[j..]
    decreases |free| - j
  {
    if j + 1 < |free| {
      FreeWalkVisits(s, free, j + 1);
      assert FreeSucc(s, free[j]) == free[j + 1];
      assert free[j..] == [free[j]] + free[j + 1..];
    }
  }

  lemma {:induction false} BatchWalkVisits(s: seq<Slot>, batch: seq<nat>, firstPlusOne: nat, j: nat, n: nat)
    requires BatchChain(s, batch, firstPlusOne) && j <= |batch| <= j + n
    ensures BatchWalk(s, PlusOneAt(batch, j), n) == batch[j..]
    decreases |batch| - j
  {
    if j < |batch| {
      BatchWalkVisits(s, batch, firstPlusOne, j + 1, n - 1);
      assert batch[j..] == [batch[j]] + batch[j + 1..];
    }
  }

  lemma DistinctFits(s: seq<nat>, total: nat)
    requires Distinct(s) && forall y: nat :: y in s ==> y < total
    ensures |s| <= total
  {
    DistinctSize(s);
    SubsetSize(ToSet(s), Range(0, total));
  }
}
