/** What freeing a handle does to slots, lists and forest: the steps of FreeHandle in
    pvr/handle.c, each keeping the invariant, and how they add up. */
module HandleFreeing {
  import opened HandleModel
  import opened HandleRings

  ghost predicate Core(slots: seq<Slot>, g: Shape) {
    Partition(|slots|, g) && Marks(slots, g) && Forest(slots, g)
  }

  ghost predicate InParentsRing(slots: seq<Slot>, g: Shape, i: nat) {
    i < |slots| == |g.kids| &&
    var up := slots[i].siblings.parent;
    up != NULL ==> up <= |slots| && i in g.kids[up - 1]
  }

  ghost predicate IsDetached(slots: seq<Slot>, g: Shape, g': Shape, i: nat) {
    InParentsRing(slots, g, i) && g' == Detached(slots, g, i)
  }

  // ---------------------------------------------------------------- one step

  /** Slot x kept all but its neighbours in rings. */
  ghost predicate KeptAt(s: seq<Slot>, r: seq<Slot>, x: nat) {
    && x < |s| == |r| && SameButLinks(s[x], r[x])
    && r[x].siblings.parent == s[x].siblings.parent && r[x].children.parent == s[x].children.parent
  }

  /** Only i and what hangs below something gone goes. */
  ghost predicate GoneWith(s: seq<Slot>, gone: set<nat>, i: nat, x: nat) {
    x < |s| && (x == i || (s[x].siblings.parent != NULL && s[x].siblings.parent - 1 in gone))
  }

  /** What both FreeHandle(i) and the loop over the children of i do to the rest. */
  ghost predicate Shrunk(s: seq<Slot>, g: Shape, r: seq<Slot>, g': Shape, i: nat) {
    && |r| == |s| && |g'.kids| == |g.kids| == |s| && g'.depth == g.depth && g'.top == g.top && g'.batch == g.batch
    && g'.live <= g.live && g.free <= g'.free
    && (forall x: nat {:trigger KeptAt(s, r, x)} :: x in g'.live || x in g'.limbo ==> KeptAt(s, r, x))
    && (forall x: nat {:trigger GoneWith(s, g.live - g'.live + {i}, i, x)} ::
          x in g.live && x !in g'.live ==> GoneWith(s, g.live - g'.live + {i}, i, x))
  }

  /** FreeHandle(i): the slot leaves its ring and the other rings stay. */
  ghost predicate Freed(s: seq<Slot>, g: Shape, r: seq<Slot>, g': Shape, i: nat) {
    && i < |s| && Shrunk(s, g, r, g', i) && g'.limbo == g.limbo - {i} && i !in g'.live
    && (forall p: nat {:trigger g'.kids[p]} :: p < |s| && (p in g'.live || p in g'.limbo) ==>
          g'.kids[p] == if i in g.live && s[i].siblings.parent == p + 1 && i in g.kids[p]
                        then Without(g.kids[p], i) else g.kids[p])
  }

  /** The first t children of i are freed. */
  ghost predicate FreedKids(s: seq<Slot>, g: Shape, r: seq<Slot>, g': Shape, i: nat, t: nat) {
    && i < |s| && Shrunk(s, g, r, g', i) && g'.limbo == g.limbo
    && t <= |g.kids[i]| && g'.kids[i] == g.kids[i][t..]
    && (forall p: nat {:trigger g'.kids[p]} :: p < |s| && p != i && (p in g'.live || p in g'.limbo) ==>
          g'.kids[p] == g.kids[p])
  }

  lemma NothingFreed(s: seq<Slot>, g: Shape, i: nat)
    requires Core(s, g) && i in g.limbo
    ensures FreedKids(s, g, s, g, i, 0)
  {
  }

  /** One more child of i freed. */
  lemma FreedOneMore(s0: seq<Slot>, g0: Shape, s1: seq<Slot>, g1: Shape, s2: seq<Slot>, g2: Shape, i: nat, t: nat)
    requires FreedKids(s0, g0, s1, g1, i, t) && i in g1.limbo && t < |g0.kids[i]|
    requires Core(s1, g1) && Core(s2, g2)
    requires Freed(s1, g1, s2, g2, g0.kids[i][t])
    ensures FreedKids(s0, g0, s2, g2, i, t + 1)
  {
    hide Core, KeptAt, Without, GoneWith;
    var c := g0.kids[i][t];
    FirstKid(s1, g1, i);
    assert i in g2.limbo && g2.kids[i] == g1.kids[i][1..];
    forall x: nat | x in g2.live || x in g2.limbo
      ensures KeptAt(s0, s2, x)
    {
      assert KeptAt(s0, s1, x) && KeptAt(s1, s2, x);
      KeptTwice(s0, s1, s2, x);
    }
    forall x: nat | x in g0.live && x !in g2.live
      ensures GoneWith(s0, g0.live - g2.live + {i}, i, x)
    {
      if x in g1.live {
        assert GoneWith(s1, g1.live - g2.live + {c}, c, x);
        assert KeptAt(s0, s1, x);
        GoneEarlier(s0, s1, g1.live - g2.live, g0.live - g2.live, i, c, x);
      } else {
        assert GoneWith(s0, g0.live - g1.live + {i}, i, x);
        GoneMore(s0, g0.live - g1.live + {i}, g0.live - g2.live + {i}, i, x);
      }
    }
  }

  lemma KeptTwice(s: seq<Slot>, s': seq<Slot>, r: seq<Slot>, x: nat)
    requires KeptAt(s, s', x) && KeptAt(s', r, x)
    ensures KeptAt(s, r, x)
  {}

  lemma GoneEarlier(s: seq<Slot>, r: seq<Slot>, gone: set<nat>, more: set<nat>, i: nat, c: nat, x: nat)
    requires KeptAt(s, r, x) && GoneWith(r, gone + {c}, c, x) && gone <= more && c in more
    requires c < |r| && r[c].siblings.parent == i + 1
    ensures GoneWith(s, more + {i}, i, x)
  {}

  lemma GoneMore(s: seq<Slot>, gone: set<nat>, more: set<nat>, i: nat, x: nat)
    requires GoneWith(s, gone, i, x) && gone <= more
    ensures GoneWith(s, more, i, x)
  {}

  /** The first child of a slot. */
  lemma FirstKid(s: seq<Slot>, g: Shape, i: nat)
    requires Core(s, g) && i < |g.kids| && g.kids[i] != []
    ensures var c := g.kids[i][0];
            && c < |s| && c in g.live && c !in g.limbo && s[c].siblings.parent == i + 1 && c in g.kids[i]
            && Without(g.kids[i], c) == g.kids[i][1..]
  {
    assert KidsOk(s, g, i);
    var c := g.kids[i][0];
    assert ChildOk(s, g, i, c);
    assert PlaceOf(g.kids[i], c) == 0;
  }

  /** A batched slot whose handle was freed before has only itself to dispose of. */
  lemma FreedAtLast(s0: seq<Slot>, g0: Shape, s2: seq<Slot>, g2: Shape, s3: seq<Slot>, g3: Shape, i: nat)
    requires i in g0.limbo && i !in g0.live && i < |g0.kids| && g0.kids[i] == []
    requires FreedKids(s0, g0, s2, g2, i, 0)
    requires |s3| == |s2|
    requires forall x: nat {:trigger s3[x]} :: x < |s2| && (x in g3.live || x in g3.limbo) ==> s3[x] == s2[x]
    requires g3 == g2.(limbo := g2.limbo - {i}, free := g3.free) && g2.free <= g3.free
    ensures Freed(s0, g0, s3, g3, i)
  {
    forall x: nat | x in g3.live || x in g3.limbo
      ensures KeptAt(s0, s3, x)
    {
      assert KeptAt(s0, s2, x);
      assert s3[x] == s2[x];
    }
    forall x: nat | x in g0.live && x !in g3.live
      ensures GoneWith(s0, g0.live - g3.live + {i}, i, x)
    {
      assert GoneWith(s0, g0.live - g2.live + {i}, i, x);
    }
  }

  /** Detached, children freed, and disposed of: that is freed. */
  lemma FreedInSteps(s0: seq<Slot>, g0: Shape, s1: seq<Slot>, g1: Shape, s2: seq<Slot>, g2: Shape,
                     s3: seq<Slot>, g3: Shape, i: nat)
    requires i < |s0| && Core(s0, g0) && Core(s1, g1) && Core(s2, g2)
    requires i in g0.live && i !in g0.limbo
    requires |s1| == |s0| && forall x: nat {:trigger KeptAt(s0, s1, x)} :: x < |s0| && x != i ==> KeptAt(s0, s1, x)
    requires InParentsRing(s0, g0, i)
    requires g1 == Detached(s0, g0, i)
    requires FreedKids(s1, g1, s2, g2, i, |g1.kids[i]|)
    requires |s3| == |s2|
    requires forall x: nat {:trigger s3[x]} :: x < |s2| && (x in g3.live || x in g3.limbo) ==> s3[x] == s2[x]
    requires g3 == g2.(limbo := g2.limbo - {i}, free := g3.free) && g2.free <= g3.free
    ensures Freed(s0, g0, s3, g3, i)
  {
    forall x: nat | x in g3.live || x in g3.limbo
      ensures KeptAt(s0, s3, x)
    {
      assert KeptAt(s0, s1, x) && KeptAt(s1, s2, x);
      assert s3[x] == s2[x];
    }
    forall x: nat | x in g0.live && x !in g3.live
      ensures GoneWith(s0, g0.live - g3.live + {i}, i, x)
    {
      if x != i {
        assert GoneWith(s1, g1.live - g2.live + {i}, i, x);
        assert KeptAt(s0, s1, x);
      }
    }
    forall p: nat | p < |s0| && (p in g3.live || p in g3.limbo)
      ensures g3.kids[p] == if i in g0.live && s0[i].siblings.parent == p + 1 && i in g0.kids[p]
                            then Without(g0.kids[p], i) else g0.kids[p]
    {
      assert g2.kids[p] == g1.kids[p];
    }
  }

  // ---------------------------------------------------------------- taking a handle out

  /** What HandleListRemove needs to hold of the links of slot i. */
  ghost predicate CanUnlink(slots: seq<Slot>, i: nat) {
    i < |slots| &&
    var e := slots[i].siblings;
    e.next != i ==> 0 < e.parent <= |slots| && e.prev < |slots| && e.next < |slots|
  }

  lemma DetachKeepsCore(s: seq<Slot>, g: Shape, i: nat)
    requires Core(s, g) && i in g.live
    ensures CanUnlink(s, i) && InParentsRing(s, g, i)
    ensures var r := Unlinked(s, i);
            && Core(r, Detached(s, g, i))
            && (forall x: nat {:trigger r[x]} :: x < |s| ==> SameButLinks(s[x], r[x]))
            && (forall x: nat {:trigger KeptAt(s, r, x)} :: x < |s| && x != i ==> KeptAt(s, r, x))
            && SameKeys(s, r, g.live - {i})
  {
    assert ParentOk(s, g, i);
    var up := s[i].siblings.parent;
    if up != NULL {
      UnlinkLeavesRing(s, g, i);
    }
    var r, g' := Unlinked(s, i), Detached(s, g, i);
    DetachKeepsForest(s, g, i, r);
    hide Unlinked;
    forall x: nat | x < |s|
      ensures SameButLinks(s[x], r[x]) && MarkOk(r, g', x)
      ensures x != i ==> KeptAt(s, r, x)
    {
      assert MarkOk(s, g, x);
      if up != NULL {
        assert LeftAt(s, r, up - 1, g.kids[up - 1], i, x);
      }
    }
    assert Partition(|r|, g');
    forall x: nat | x in g.live - {i} && x < |s|
      ensures KeyOf(r[x]) == KeyOf(s[x]) && r[x].flags == s[x].flags
    {
      assert KeptAt(s, r, x);
    }
  }

  lemma ZombieHasNoLinks(s: seq<Slot>, g: Shape, i: nat)
    requires Core(s, g) && i in g.limbo
    ensures CanUnlink(s, i) && Unlinked(s, i) == s
  {
    assert ParentOk(s, g, i);
  }

  // ---------------------------------------------------------------- where a freed slot goes

  /** Writes that leave all ring links alone keep the forest. */
  lemma ForestFrame(s: seq<Slot>, g: Shape, r: seq<Slot>, g': Shape)
    requires Forest(s, g) && |r| == |s|
    requires forall x: nat {:trigger r[x]} :: x < |s| ==>
               r[x].children == s[x].children && r[x].siblings == s[x].siblings
    requires g'.kids == g.kids && g'.depth == g.depth && g'.top == g.top && g'.live == g.live
    requires forall x: nat {:trigger HasRing(g', x)} :: HasRing(g', x) ==> HasRing(g, x)
    requires forall x: nat {:trigger g.kids[x]} :: x < |s| && x in g.limbo && x !in g'.limbo ==> g.kids[x] == []
    ensures Forest(r, g')
  {
    forall x: nat | x < |r|
      ensures ParentOk(r, g', x)
    {
      assert ParentOk(s, g, x);
    }
    forall p: nat | p < |r|
      ensures KidsOk(r, g', p)
    {
      assert KidsOk(s, g, p);
      forall j | 0 <= j < |g.kids[p]|
        ensures ChildOk(r, g', p, g.kids[p][j])
      {
        assert ChildOk(s, g, p, g.kids[p][j]);
      }
      if HasRing(g', p) {
        RingUntouched(s, r, p, g.kids[p]);
      }
    }
  }

  /** A batched handle is only marked: it stays on the batch list. */
  lemma ToBatch(s: seq<Slot>, g: Shape, i: nat)
    requires Core(s, g) && i in g.limbo && i in g.batch && g.kids[i] == []
    ensures Core(s[i := s[i].(typ := TYPE_NONE, partial := true)], g.(limbo := g.limbo - {i}))
  {
    var r, g' := s[i := s[i].(typ := TYPE_NONE, partial := true)], g.(limbo := g.limbo - {i});
    forall x: nat | x < |r|
      ensures MarkOk(r, g', x)
    {
      assert MarkOk(s, g, x);
    }
    ForestFrame(s, g, r, g');
  }

  /** A slot that is not batched goes to the end of the free list; the slot `tail` before it, if
      there is one, is linked to it. */
  lemma ToFree(s: seq<Slot>, g: Shape, i: nat, r: seq<Slot>)
    requires Core(s, g) && i in g.limbo && i !in g.batch && g.kids[i] == [] && |r| == |s|
    requires forall x: nat {:trigger r[x]} :: x < |s| ==>
               r[x] == if x == i then s[x].(typ := TYPE_NONE)
                       else if x in g.free then s[x].(next := r[x].next) else s[x]
    ensures Core(r, g.(limbo := g.limbo - {i}, free := g.free + [i]))
  {
    var g' := g.(limbo := g.limbo - {i}, free := g.free + [i]);
    forall x: nat | x < |r|
      ensures MarkOk(r, g', x)
    {
      assert MarkOk(s, g, x);
    }
    assert forall x :: x in g'.free <==> x in g.free || x == i;
    ForestFrame(s, g, r, g');
  }

  lemma FreeChainAppend(s: seq<Slot>, free: seq<nat>, count: nat, first: nat, lastPlusOne: nat, i: nat, r: seq<Slot>)
    requires FreeChain(s, free, count, first, lastPlusOne) && i < |s| == |r| && i !in free && s[i].next == 0
    requires Distinct(free)
    requires forall x: nat {:trigger r[x]} :: x < |s| ==>
               r[x].next == if free != [] && x == lastPlusOne - 1 then i + 1 else s[x].next
    ensures FreeChain(r, free + [i], count + 1, if free == [] then i else first, i + 1)
  {
    var f := free + [i];
    forall j | 0 <= j < |f| - 1
      ensures f[j] < |r| && FreeSucc(r, f[j]) == f[j + 1]
    {
      if j < |free| - 1 {
        assert FreeSucc(s, free[j]) == free[j + 1];
      }
    }
  }

  lemma FreeChainFrame(s: seq<Slot>, free: seq<nat>, count: nat, first: nat, lastPlusOne: nat, r: seq<Slot>)
    requires FreeChain(s, free, count, first, lastPlusOne) && |r| >= |s|
    requires forall j :: 0 <= j < |free| ==> r[free[j]].next == s[free[j]].next
    ensures FreeChain(r, free, count, first, lastPlusOne)
  {
    forall j | 0 <= j < |free| - 1
      ensures FreeSucc(r, free[j]) == free[j + 1]
    {
      assert FreeSucc(s, free[j]) == free[j + 1];
    }
  }

  lemma BatchChainFrame(s: seq<Slot>, batch: seq<nat>, firstPlusOne: nat, r: seq<Slot>)
    requires BatchChain(s, batch, firstPlusOne) && |r| >= |s|
    requires forall j :: 0 <= j < |batch| ==> r[batch[j]].next == s[batch[j]].next
    ensures BatchChain(r, batch, firstPlusOne)
  {
  }

  /** The lists do not see ring links. */
  lemma ListsFrame(s: seq<Slot>, r: seq<Slot>, g: Shape, g': Shape, h: Header)
    requires Lists(s, g, h) && g'.free == g.free && g'.batch == g.batch
    requires |r| == |s| && forall x: nat {:trigger r[x]} :: x < |s| ==> SameButLinks(s[x], r[x])
    ensures Lists(r, g', h)
  {
    if !h.purging {
      FreeChainFrame(s, g.free, h.freeCount, h.firstFree, h.lastFreePlusOne, r);
    }
    BatchChainFrame(s, g.batch, h.firstBatchPlusOne, r);
  }

  lemma ToBatchLists(s: seq<Slot>, g: Shape, h: Header, i: nat)
    requires Core(s, g) && Lists(s, g, h) && i in g.limbo && i in g.batch
    ensures !h.purging
    ensures Lists(s[i := s[i].(typ := TYPE_NONE, partial := true)], g.(limbo := g.limbo - {i}), h)
  {
    var r := s[i := s[i].(typ := TYPE_NONE, partial := true)];
    FreeChainFrame(s, g.free, h.freeCount, h.firstFree, h.lastFreePlusOne, r);
    BatchChainFrame(s, g.batch, h.firstBatchPlusOne, r);
  }

  /** The slots once FreeHandle put slot i at the end of the free list. */
  function Pushed(s: seq<Slot>, i: nat, h: Header): (r: seq<Slot>)
    requires i < |s| && (!h.purging && h.freeCount != 0 ==> 0 < h.lastFreePlusOne <= |s|)
    ensures |r| == |s|
  {
    var s1 := s[i := s[i].(typ := TYPE_NONE)];
    if h.purging || h.freeCount == 0 then s1 else
      var tail := h.lastFreePlusOne - 1;
      s1[tail := s1[tail].(next := i + 1)]
  }

  function PushedHeader(h: Header, i: nat): Header {
    if h.purging then h.(freeCount := h.freeCount + 1) else
      h.(freeCount := h.freeCount + 1, lastFreePlusOne := i + 1,
         firstFree := if h.freeCount == 0 then i else h.firstFree)
  }

  lemma ToFreeLists(s: seq<Slot>, g: Shape, h: Header, i: nat)
    requires Core(s, g) && Lists(s, g, h) && i in g.limbo && i !in g.batch && i < |g.kids| && g.kids[i] == []
    ensures i < |s| && (!h.purging && h.freeCount != 0 ==> 0 < h.lastFreePlusOne <= |s|)
    ensures var r, g' := Pushed(s, i, h), g.(limbo := g.limbo - {i}, free := g.free + [i]);
            && Core(r, g') && Lists(r, g', PushedHeader(h, i))
            && forall x: nat {:trigger r[x]} :: x < |s| && (x in g'.live || x in g'.limbo) ==> r[x] == s[x]
  {
    hide Core, Lists, Distinct;
    TailIsFree(s, g, h, i);
    ToFree(s, g, i, Pushed(s, i, h));
    PushedLists(s, g, h, i);
  }

  lemma PushedLists(s: seq<Slot>, g: Shape, h: Header, i: nat)
    requires Lists(s, g, h)
    requires i < |s| && s[i].next == 0 && i !in g.free && Distinct(g.free)
    requires !h.purging && h.freeCount != 0 ==>
               0 < h.lastFreePlusOne <= |s| && h.lastFreePlusOne - 1 in g.free && h.lastFreePlusOne - 1 != i
    requires forall j :: 0 <= j < |g.batch| ==> g.batch[j] != i && g.batch[j] !in g.free
    ensures Lists(Pushed(s, i, h), g.(limbo := g.limbo - {i}, free := g.free + [i]), PushedHeader(h, i))
  {
    var r := Pushed(s, i, h);
    hide Distinct;
    if !h.purging {
      FreeChainAppend(s, g.free, h.freeCount, h.firstFree, h.lastFreePlusOne, i, r);
    }
    BatchChainFrame(s, g.batch, h.firstBatchPlusOne, r);
  }

  lemma TailIsFree(s: seq<Slot>, g: Shape, h: Header, i: nat)
    requires Core(s, g) && Lists(s, g, h) && i in g.limbo && i !in g.batch
    ensures i < |s| && s[i].next == 0 && i !in g.free && i !in g.live && Distinct(g.free)
    ensures !h.purging && h.freeCount != 0 ==>
              0 < h.lastFreePlusOne <= |s| && h.lastFreePlusOne - 1 in g.free && h.lastFreePlusOne - 1 != i
    ensures forall j :: 0 <= j < |g.batch| ==> g.batch[j] != i && g.batch[j] !in g.free
    ensures forall x: nat :: x in g.free ==> x !in g.live && x !in g.limbo
  {
    assert MarkOk(s, g, i);
    forall j | 0 <= j < |g.batch|
      ensures g.batch[j] != i && g.batch[j] !in g.free
    {
      assert g.batch[j] in g.batch;
    }
  }

  // ---------------------------------------------------------------- the hash index

  /** The slots keep their keys. */
  ghost predicate SameKeys(s: seq<Slot>, r: seq<Slot>, live: set<nat>) {
    |r| >= |s| && forall x: nat {:trigger r[x]} :: x in live && x < |s| ==>
      KeyOf(r[x]) == KeyOf(s[x]) && r[x].flags == s[x].flags
  }

  lemma IndexFrame(s: seq<Slot>, r: seq<Slot>, live: set<nat>, index: map<Key, nat>)
    requires Index(s, live, index) && SameKeys(s, r, live)
    ensures Index(r, live, index)
  {
    forall i: nat | i in live
      ensures Indexed(r, index, i)
    {
      assert Indexed(s, index, i);
    }
    forall k | k in index
      ensures Binds(r, live, k, index[k])
    {
      assert Binds(s, live, k, index[k]);
    }
  }

  lemma IndexRemove(s: seq<Slot>, live: set<nat>, index: map<Key, nat>, i: nat)
    requires Index(s, live, index) && i in live
    ensures i < |s|
    ensures !s[i].flags.multi ==> KeyOf(s[i]) in index && index[KeyOf(s[i])] == i + 1
    ensures Index(s, live - {i}, if s[i].flags.multi then index else index - {KeyOf(s[i])})
  {
    assert Indexed(s, index, i);
    var index' := if s[i].flags.multi then index else index - {KeyOf(s[i])};
    forall x: nat | x in live - {i}
      ensures Indexed(s, index', x)
    {
      assert Indexed(s, index, x);
    }
    forall k | k in index'
      ensures Binds(s, live - {i}, k, index'[k])
    {
      assert Binds(s, live, k, index[k]);
    }
  }

  lemma IndexAdd(s: seq<Slot>, live: set<nat>, index: map<Key, nat>, r: seq<Slot>, i: nat)
    requires Index(s, live, index) && SameKeys(s, r, live) && i !in live && i < |r|
    requires r[i].flags.multi || KeyOf(r[i]) !in index
    ensures Index(r, live + {i}, if r[i].flags.multi then index else index[KeyOf(r[i]) := i + 1])
  {
    IndexFrame(s, r, live, index);
    var index' := if r[i].flags.multi then index else index[KeyOf(r[i]) := i + 1];
    forall x: nat | x in live + {i}
      ensures Indexed(r, index', x)
    {
      if x != i {
        assert Indexed(r, index, x);
      }
    }
    forall k | k in index'
      ensures Binds(r, live + {i}, k, index'[k])
    {
      if k in index {
        assert Binds(r, live, k, index[k]);
      }
    }
  }
}
