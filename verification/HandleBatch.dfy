/** What committing or releasing a batch, and purging, do to slots and lists in pvr/handle.c. */
module HandleBatch {
  import opened HandleModel
  import opened HandleRings
  import opened HandleFreeing
  import opened HandleView

  // ---------------------------------------------------------------- one batched slot

  /** The head of the batch list, unlinked; a live handle also loses its mark. */
  ghost function PopSlots(s: seq<Slot>, g: Shape): (r: seq<Slot>)
    requires g.batch != [] && g.batch[0] < |s|
  {
    var i := g.batch[0];
    s[i := s[i].(next := 0, batched := s[i].batched && i !in g.live)]
  }

  ghost function PopShape(g: Shape): Shape
    requires g.batch != []
  {
    g.(batch := g.batch[1..], limbo := if g.batch[0] in g.live then g.limbo else g.limbo + {g.batch[0]})
  }

  /** A slot that was freed while batched is in limbo once it left the batch list. */
  lemma PopKeepsCore(s: seq<Slot>, g: Shape)
    requires Core(s, g) && g.batch != [] && g.limbo == {}
    ensures g.batch[0] < |s| == |g.kids| && Core(PopSlots(s, g), PopShape(g))
    ensures var i := g.batch[0];
            && s[i].batched && (s[i].partial <==> i !in g.live)
            && (i !in g.live ==> i !in PopShape(g).batch && g.kids[i] == [])
  {
    var i := g.batch[0];
    assert i in g.batch;
    var r, g' := PopSlots(s, g), PopShape(g);
    assert MarkOk(s, g, i) && KidsOk(s, g, i);
    forall x: nat
      ensures x in g'.batch <==> x in g.batch && x != i
    {
      if x in g.batch && x != i {
        var j :| 0 <= j < |g.batch| && g.batch[j] == x;
        assert g'.batch[j - 1] == x;
      }
    }
    assert Partition(|r|, g') by { hide Forest, Marks; }
    forall x: nat | x < |r|
      ensures MarkOk(r, g', x)
    {
      assert MarkOk(s, g, x);
    }
    PopKeepsForest(s, g, r, g', i);
  }

  lemma PopKeepsForest(s: seq<Slot>, g: Shape, r: seq<Slot>, g': Shape, i: nat)
    requires Forest(s, g) && |r| == |s| && i < |s| && i in g.batch
    requires forall x: nat {:trigger r[x]} :: x < |s| ==>
               r[x].children == s[x].children && r[x].siblings == s[x].siblings
    requires g' == g.(batch := g'.batch, limbo := g'.limbo) && g.limbo <= g'.limbo <= g.limbo + {i}
    requires forall x: nat {:trigger x in g'.batch} :: x in g'.batch ==> x in g.batch
    ensures Forest(r, g')
  {
    ForestFrame(s, g, r, g');
  }

  lemma PopKeepsLists(s: seq<Slot>, g: Shape, h: Header)
    requires Core(s, g) && Lists(s, g, h) && g.batch != []
    ensures g.batch[0] < |s| && h.firstBatchPlusOne == g.batch[0] + 1
    ensures s[g.batch[0]].next == PlusOneAt(g.batch, 1) && h.batchSize != 0 && !h.purging
    ensures Lists(PopSlots(s, g), PopShape(g), h.(firstBatchPlusOne := PlusOneAt(g.batch, 1)))
  {
    var i := g.batch[0];
    assert i in g.batch;
    var r, b := PopSlots(s, g), g.batch[1..];
    forall j | 0 <= j < |g.free|
      ensures g.free[j] != i
    {
      assert g.free[j] in g.free;
    }
    hide Core;
    FreeChainFrame(s, g.free, h.freeCount, h.firstFree, h.lastFreePlusOne, r);
    forall j | 0 <= j < |b|
      ensures b[j] < |r| && r[b[j]].next == PlusOneAt(b, j + 1)
    {
      assert s[g.batch[j + 1]].next == PlusOneAt(g.batch, j + 2);
    }
  }

  lemma PopKeepsKeys(s: seq<Slot>, g: Shape)
    requires g.batch != [] && g.batch[0] < |s|
    ensures SameKeys(s, PopSlots(s, g), g.live)
    ensures forall x: nat {:trigger PopSlots(s, g)[x]} :: x < |s| ==> SameButMark(s[x], PopSlots(s, g)[x])
  {}

  ghost predicate SameButMark(s: Slot, r: Slot) {
    r == s.(next := r.next, batched := r.batched)
  }

  // ---------------------------------------------------------------- the whole batch

  /** While a batch is released: only what was batched goes. */
  ghost predicate Releasing(s0: seq<Slot>, g0: Shape, s: seq<Slot>, g: Shape) {
    && |s| == |s0| && g.live <= g0.live
    && (forall x: nat {:trigger s[x]} :: x in g.live && x < |s| ==> EntryOf(s[x]) == EntryOf(s0[x]))
    && (forall x: nat {:trigger x in g.live} :: x in g0.live && x !in g.live ==> x < |s| && s0[x].batched)
  }

  /** While a batch is committed: nothing goes; handles lose their mark. */
  ghost predicate Committing(s0: seq<Slot>, g0: Shape, s: seq<Slot>, g: Shape) {
    && |s| == |s0| && g.live == g0.live
    && (forall x: nat {:trigger s[x]} :: x in g.live && x < |s| ==>
          EntryOf(s[x]) == EntryOf(s0[x]).(batched := s[x].batched))
  }

  lemma ReleasingStarts(s: seq<Slot>, g: Shape)
    ensures Releasing(s, g, s, g) && Committing(s, g, s, g)
  {}

  /** One round: the head of the batch list goes, with what is below it. */
  lemma ReleasingStep(s0: seq<Slot>, g0: Shape, s: seq<Slot>, g: Shape, r: seq<Slot>, g': Shape)
    requires Releasing(s0, g0, s, g) && BatchClosed(s0, g0) && Core(s0, g0)
    requires Core(s, g) && g.limbo == {} && g.batch != [] && g.batch[0] < |s| && g.batch[0] in g.live
    requires Core(PopSlots(s, g), PopShape(g)) && Freed(PopSlots(s, g), PopShape(g), r, g', g.batch[0])
    ensures Releasing(s0, g0, r, g')
  {
    var i, s1, g1 := g.batch[0], PopSlots(s, g), PopShape(g);
    assert MarkOk(s, g, i);
    forall x: nat | x in g'.live && x < |r|
      ensures EntryOf(r[x]) == EntryOf(s0[x])
    {
      assert KeptAt(s1, r, x);
      assert EntryOf(s[x]) == EntryOf(s0[x]);
    }
    forall x: nat | x in g0.live && x !in g'.live
      ensures x < |r| && s0[x].batched
    {
      if x in g.live {
        GoneWasBatched(s0, g0, s, g, s1, g1, g1.live - g'.live, i, x);
      }
    }
  }

  lemma {:induction false} GoneWasBatched(s0: seq<Slot>, g0: Shape, s: seq<Slot>, g: Shape, s1: seq<Slot>, g1: Shape,
                                          gone: set<nat>, i: nat, x: nat)
    requires Releasing(s0, g0, s, g) && BatchClosed(s0, g0) && Core(s0, g0)
    requires Core(s1, g1) && i in g.live && i < |s| && s0[i].batched && g1.live == g.live && |s1| == |s|
    requires forall y: nat {:trigger s1[y]} :: y < |s| ==> SameButMark(s[y], s1[y])
    requires gone <= g.live && x in gone
    requires forall y: nat {:trigger GoneWith(s1, gone + {i}, i, y)} :: y in gone ==> GoneWith(s1, gone + {i}, i, y)
    ensures x < |s0| && s0[x].batched
    decreases if x < |g1.depth| then g1.depth[x] else 0
  {
    assert GoneWith(s1, gone + {i}, i, x);
    if x != i {
      var up := s1[x].siblings.parent;
      assert ParentOk(s1, g1, x);
      assert KidsOk(s1, g1, up - 1);
      assert ChildOk(s1, g1, up - 1, x);
      if up - 1 != i {
        GoneWasBatched(s0, g0, s, g, s1, g1, gone, i, up - 1);
      }
      assert EntryOf(s[x]) == EntryOf(s0[x]);
      assert BatchClosedAt(s0, x);
    }
  }

  /** A slot freed before takes nothing with it, in either mode. */
  lemma ZombieStep(s0: seq<Slot>, g0: Shape, s: seq<Slot>, g: Shape, r: seq<Slot>, g': Shape)
    requires Core(s, g) && g.limbo == {} && g.batch != [] && g.batch[0] < |s| == |g.kids| && g.batch[0] !in g.live
    requires g.kids[g.batch[0]] == []
    requires Core(PopSlots(s, g), PopShape(g)) && Freed(PopSlots(s, g), PopShape(g), r, g', g.batch[0])
    ensures Releasing(s0, g0, s, g) ==> Releasing(s0, g0, r, g')
    ensures Committing(s0, g0, s, g) ==> Committing(s0, g0, r, g')
  {
    var i, s1, g1 := g.batch[0], PopSlots(s, g), PopShape(g);
    FreedAgainKeepsView(s1, g1, r, g', i);
    forall x: nat | x in g'.live && x < |r|
      ensures EntryOf(r[x]) == EntryOf(s[x])
    {
      assert KeptAt(s1, r, x);
    }
  }

  lemma CommittingStep(s0: seq<Slot>, g0: Shape, s: seq<Slot>, g: Shape)
    requires Committing(s0, g0, s, g) && g.batch != [] && g.batch[0] < |s|
    ensures Committing(s0, g0, PopSlots(s, g), PopShape(g))
  {}

  /** The handles that were not in the batch. */
  ghost function Unbatched(v: HandleMap): HandleMap {
    map h | h in v && !v[h].batched :: v[h]
  }

  /** All handles, in no batch any more. */
  ghost function Settled(v: HandleMap): HandleMap {
    map h | h in v :: v[h].(batched := false)
  }

  lemma ReleasedView(s0: seq<Slot>, g0: Shape, s: seq<Slot>, g: Shape)
    requires Core(s0, g0) && Core(s, g) && Releasing(s0, g0, s, g) && g.batch == []
    ensures ViewOf(s, g.live) == Unbatched(ViewOf(s0, g0.live))
  {
    var v0, v := ViewOf(s0, g0.live), ViewOf(s, g.live);
    forall h: nat
      ensures h in v <==> h in Unbatched(v0)
      ensures h in v ==> v[h] == v0[h]
    {
      if h in v {
        assert MarkOk(s, g, h - 1);
        assert EntryOf(s[h - 1]) == EntryOf(s0[h - 1]);
      } else if h in v0 {
        assert h - 1 !in g.live;
      }
    }
  }

  lemma CommittedView(s0: seq<Slot>, g0: Shape, s: seq<Slot>, g: Shape)
    requires Core(s0, g0) && Core(s, g) && Committing(s0, g0, s, g) && g.batch == []
    ensures ViewOf(s, g.live) == Settled(ViewOf(s0, g0.live))
  {
    var v0, v := ViewOf(s0, g0.live), ViewOf(s, g.live);
    forall h: nat
      ensures h in v <==> h in v0
      ensures h in v ==> v[h] == v0[h].(batched := false)
    {
      if h in v {
        assert MarkOk(s, g, h - 1);
        assert EntryOf(s[h - 1]) == EntryOf(s0[h - 1]).(batched := s[h - 1].batched);
      }
    }
  }

  lemma BatchDone(s0: seq<Slot>, g0: Shape, s: seq<Slot>, g: Shape)
    requires Core(s, g) && Core(s0, g0) && g.batch == [] && g.limbo == {}
    ensures Releasing(s0, g0, s, g) ==> ViewOf(s, g.live) == Unbatched(ViewOf(s0, g0.live))
    ensures Committing(s0, g0, s, g) ==> ViewOf(s, g.live) == Settled(ViewOf(s0, g0.live))
    ensures BatchClosed(s, g)
    ensures forall x: nat {:trigger s[x]} :: x in g.live ==> x < |s| && !s[x].batched
  {
    forall x: nat | x in g.live
      ensures x < |s| && !s[x].batched
    {
      assert MarkOk(s, g, x);
    }
    if Releasing(s0, g0, s, g) {
      ReleasedView(s0, g0, s, g);
    }
    if Committing(s0, g0, s, g) {
      CommittedView(s0, g0, s, g);
    }
    forall x: nat | x in g.live
      ensures BatchClosedAt(s, x)
    {
      if 0 < s[x].siblings.parent {
        ParentIsUsed(s, g, x);
        assert !s[s[x].siblings.parent - 1].batched;
      }
    }
  }

  /** Freeing keeps the batched handles closed. */
  lemma FreedStaysClosed(s: seq<Slot>, g: Shape, r: seq<Slot>, g': Shape, i: nat)
    requires Core(s, g) && Core(r, g') && g'.limbo == {} && Freed(s, g, r, g', i) && BatchClosed(s, g)
    ensures BatchClosed(r, g')
  {
    forall x: nat | x in g'.live
      ensures BatchClosedAt(r, x)
    {
      assert KeptAt(s, r, x);
      assert BatchClosedAt(s, x);
      if 0 < r[x].siblings.parent {
        ParentIsUsed(r, g', x);
        assert KeptAt(s, r, r[x].siblings.parent - 1);
      }
    }
  }
}
