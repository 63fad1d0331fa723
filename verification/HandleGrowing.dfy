/** Growth of the handle array, and taking a slot off the free list, in pvr/handle.c. */
module HandleGrowing {
  import opened HandleModel
  import opened HandleRings
  import opened HandleFreeing

  /** The size that ReallocHandleArray asks for, in 32-bit arithmetic. */
  function ArrayBytes(count: nat): nat { count * SLOT_SIZE % U32_SIZE }

  /** The array has room for its slots exactly up to a limit; beyond it, it is too small. */
  lemma ArrayBytesFit(count: nat)
    ensures ArrayBytes(count) == count * SLOT_SIZE <==> count <= MAX_SLOTS
    ensures count > MAX_SLOTS ==> ArrayBytes(count) < count * SLOT_SIZE
  {}

  /** The slots from `from` on, in order. */
  ghost function Upto(from: nat, to: nat): (s: seq<nat>)
    requires from <= to
    ensures |s| == to - from && forall k :: 0 <= k < |s| ==> s[k] == from + k
  {
    seq(to - from, k requires 0 <= k < to - from => from + k)
  }

  ghost function Grown(g: Shape, from: nat, to: nat): Shape
    requires from <= to
  {
    g.(free := g.free + Upto(from, to),
       kids := g.kids + seq(to - from, _ => []), depth := g.depth + seq(to - from, _ => 0))
  }

  /** A slot as the loop of IncreaseHandleArraySize leaves it; nothing else of it is written. */
  ghost predicate FreshSlot(s: Slot) {
    s.typ == TYPE_NONE && !s.batched && !s.partial && s.next == 0
  }

  /** The old slots, but for the link of the last free one, followed by fresh slots. */
  ghost predicate GrownSlots(s: seq<Slot>, g: Shape, r: seq<Slot>) {
    && |s| <= |r|
    && (forall x: nat {:trigger r[x]} :: x < |s| ==> r[x] == if x in g.free then s[x].(next := r[x].next) else s[x])
    && (forall x: nat {:trigger r[x]} :: |s| <= x < |r| ==> FreshSlot(r[x]))
  }

  lemma GrowKeepsCore(s: seq<Slot>, g: Shape, r: seq<Slot>)
    requires Core(s, g) && GrownSlots(s, g, r)
    ensures Core(r, Grown(g, |s|, |r|))
  {
    var g' := Grown(g, |s|, |r|);
    GrowKeepsPartition(s, g, r);
    forall x: nat | x < |r|
      ensures MarkOk(r, g', x) && ParentOk(r, g', x) && KidsOk(r, g', x)
    {
      GrowKeepsSlot(s, g, r, x);
    }
  }

  lemma GrowKeepsPartition(s: seq<Slot>, g: Shape, r: seq<Slot>)
    requires Core(s, g) && GrownSlots(s, g, r)
    ensures Partition(|r|, Grown(g, |s|, |r|))
  {
    var new_ := Upto(|s|, |r|);
    var free := g.free + new_;
    hide Forest, Marks;
    forall i: nat | i < |r|
      ensures i in g.live || i in g.limbo || i in free || i in g.batch
    {
      if i >= |s| {
        assert free[|g.free| + i - |s|] == i;
      }
    }
    forall j | 0 <= j < |g.free|
      ensures g.free[j] < |s|
    {
      assert g.free[j] in g.free;
    }
    assert forall i :: i in free ==> i in g.free || i in new_;
  }

  lemma GrowKeepsSlot(s: seq<Slot>, g: Shape, r: seq<Slot>, x: nat)
    requires Core(s, g) && GrownSlots(s, g, r) && x < |r|
    ensures var g' := Grown(g, |s|, |r|); MarkOk(r, g', x) && ParentOk(r, g', x) && KidsOk(r, g', x)
  {
    var g' := Grown(g, |s|, |r|);
    if x < |s| {
      assert MarkOk(s, g, x) && ParentOk(s, g, x) && KidsOk(s, g, x);
      forall j | 0 <= j < |g.kids[x]|
        ensures ChildOk(r, g', x, g'.kids[x][j])
      {
        assert ChildOk(s, g, x, g.kids[x][j]);
      }
      if HasRing(g, x) {
        RingUntouched(s, r, x, g.kids[x]);
      }
    } else {
      assert FreshSlot(r[x]);
    }
  }

  /** How the array is linked to its new end; with slot 0 at the head of a non-empty free list, the
      code takes the list for empty. */
  function GrownHeader(h: Header, from: nat, to: nat): Header
    requires from <= to
  {
    h.(freeCount := h.freeCount + (to - from),
       firstFree := if h.firstFree == 0 then from else h.firstFree,
       lastFreePlusOne := if h.purging then h.lastFreePlusOne else to)
  }

  ghost predicate Overwrites(h: Header) {
    !h.purging && h.freeCount != 0 && h.firstFree == 0
  }

  /** The links of the free slots after growth. */
  ghost predicate GrownLinks(s: seq<Slot>, g: Shape, h: Header, r: seq<Slot>) {
    && |s| <= |r|
    && forall x: nat {:trigger r[x]} :: x < |s| ==>
         r[x].next == if !h.purging && h.firstFree != 0 && x == h.lastFreePlusOne - 1 then |s| + 1 else s[x].next
  }

  lemma GrowKeepsLists(s: seq<Slot>, g: Shape, h: Header, r: seq<Slot>)
    requires Lists(s, g, h) && |s| < |r| && GrownSlots(s, g, r) && GrownLinks(s, g, h, r)
    requires Distinct(g.free) && !Overwrites(h)
    requires forall j :: 0 <= j < |g.batch| ==> g.batch[j] < |s| && g.batch[j] !in g.free
    ensures Lists(r, Grown(g, |s|, |r|), GrownHeader(h, |s|, |r|))
  {
    forall j | 0 <= j < |g.batch|
      ensures r[g.batch[j]].next == s[g.batch[j]].next
    {
      assert r[g.batch[j]] == s[g.batch[j]];
    }
    BatchChainFrame(s, g.batch, h.firstBatchPlusOne, r);
    if h.purging {
      assert forall x: nat :: |s| <= x < |r| ==> FreshSlot(r[x]);
    } else {
      GrowKeepsFreeChain(s, g.free, h, r);
    }
  }

  lemma GrowKeepsFreeChain(s: seq<Slot>, free: seq<nat>, h: Header, r: seq<Slot>)
    requires FreeChain(s, free, h.freeCount, h.firstFree, h.lastFreePlusOne) && |s| < |r| && Distinct(free)
    requires !h.purging && !Overwrites(h)
    requires forall x: nat {:trigger r[x]} :: x < |s| ==>
               r[x].next == if h.firstFree != 0 && x == h.lastFreePlusOne - 1 then |s| + 1 else s[x].next
    requires forall x: nat {:trigger r[x]} :: |s| <= x < |r| ==> r[x].next == 0
    ensures var h' := GrownHeader(h, |s|, |r|);
            FreeChain(r, free + Upto(|s|, |r|), h'.freeCount, h'.firstFree, h'.lastFreePlusOne)
  {
    var f := free + Upto(|s|, |r|);
    forall j | 0 <= j < |f| - 1
      ensures f[j] < |r| && FreeSucc(r, f[j]) == f[j + 1]
    {
      if j < |free| - 1 {
        assert FreeSucc(s, free[j]) == free[j + 1];
        assert free[j] != free[|free| - 1];
      }
    }
  }

  /** Otherwise no order of the slots is threaded by the links any more: from the new head only the
      new slots can be reached, which are fewer than the free count says. */
  lemma OverwrittenListIsLost(r: seq<Slot>, from: nat, h: Header, free: seq<nat>)
    requires Overwrites(h) && from < |r|
    requires forall x: nat {:trigger r[x]} :: from <= x < |r| ==> FreshSlot(r[x])
    ensures var h' := h.(freeCount := h.freeCount + (|r| - from), firstFree := from, lastFreePlusOne := |r|);
            !FreeChain(r, free, h'.freeCount, h'.firstFree, h'.lastFreePlusOne)
  {
    var n := |r| - from;
    if FreeChain(r, free, h.freeCount + n, from, |r|) {
      RunOfNewSlots(r, from, free, n);
    }
  }

  lemma {:induction false} RunOfNewSlots(r: seq<Slot>, from: nat, free: seq<nat>, j: nat)
    requires from + j <= |r| && j < |free| && free[0] == from
    requires forall x: nat {:trigger r[x]} :: from <= x < |r| ==> FreshSlot(r[x])
    requires forall k :: 0 <= k < |free| ==> free[k] < |r|
    requires forall k :: 0 <= k < |free| - 1 ==> FreeSucc(r, free[k]) == free[k + 1]
    ensures free[j] == from + j
  {
    if j > 0 {
      RunOfNewSlots(r, from, free, j - 1);
      assert FreeSucc(r, free[j - 1]) == free[j];
    }
  }

  // ---------------------------------------------------------------- taking a slot

  /** Slot i goes from the free slots, of which `free` remain, to the live ones; in a batch, also
      to the head of the batch list. */
  ghost function Taken(g: Shape, i: nat, free: seq<nat>, batched: bool): (g': Shape)
    requires i < |g.depth|
    ensures |g'.batch| == |g.batch| + if batched then 1 else 0
  {
    g.(live := g.live + {i}, free := free,
       batch := if batched then [i] + g.batch else g.batch, depth := g.depth[i := 0])
  }

  /** A handle as AllocHandle sets it up: alone in its rings. */
  ghost predicate NewHandle(s: Slot, i: nat, batched: bool) {
    && s.typ != TYPE_NONE && !s.partial && s.batched == batched && (batched || s.next == 0)
    && s.children == Links(i, i, i + 1) && s.siblings == Links(i, i, NULL)
  }

  ghost predicate OneLess(free: seq<nat>, i: nat, rest: seq<nat>) {
    i in free && Distinct(rest) && forall x: nat {:trigger x in rest} :: x in rest <==> x in free && x != i
  }

  lemma TakeKeepsCore(s: seq<Slot>, g: Shape, i: nat, slot: Slot, rest: seq<nat>, batched: bool)
    requires Core(s, g) && i < |s| && OneLess(g.free, i, rest) && NewHandle(slot, i, batched)
    ensures |g.depth| == |s| == |g.kids| && g.kids[i] == [] && i !in g.live && i !in g.batch && i !in g.limbo
    ensures Core(s[i := slot], Taken(g, i, rest, batched))
  {
    assert KidsOk(s, g, i);
    var r, g' := s[i := slot], Taken(g, i, rest, batched);
    assert Partition(|r|, g') by {
      hide Forest, Marks;
      assert batched ==> forall x :: x in g'.batch <==> x == i || x in g.batch;
    }
    forall x: nat | x < |r|
      ensures MarkOk(r, g', x) && ParentOk(r, g', x) && KidsOk(r, g', x)
    {
      TakeKeepsSlot(s, g, i, slot, rest, batched, x);
    }
  }

  lemma TakeKeepsSlot(s: seq<Slot>, g: Shape, i: nat, slot: Slot, rest: seq<nat>, batched: bool, x: nat)
    requires Core(s, g) && i < |s| && OneLess(g.free, i, rest) && NewHandle(slot, i, batched)
    requires |g.depth| == |s| && x < |s|
    ensures var r, g' := s[i := slot], Taken(g, i, rest, batched);
            MarkOk(r, g', x) && ParentOk(r, g', x) && KidsOk(r, g', x)
  {
    var r, g' := s[i := slot], Taken(g, i, rest, batched);
    assert MarkOk(s, g, x) && ParentOk(s, g, x) && KidsOk(s, g, x) && KidsOk(s, g, i);
    assert forall y :: y in g'.batch <==> (batched && y == i) || y in g.batch;
    forall j | 0 <= j < |g.kids[x]|
      ensures ChildOk(r, g', x, g'.kids[x][j])
    {
      assert ChildOk(s, g, x, g.kids[x][j]);
    }
    if x == i {
      assert Linked(r, i, [], 0);
    } else if HasRing(g, x) {
      assert forall j :: 0 <= j < |g.kids[x]| ==> ChildOk(s, g, x, g.kids[x][j]);
      RingUntouched(s, r, x, g.kids[x]);
    }
  }

  /** AllocHandle takes the head of the free list. */
  lemma TakeFirst(s: seq<Slot>, g: Shape, h: Header)
    requires Core(s, g) && Lists(s, g, h) && !h.purging && h.freeCount != 0
    ensures h.firstFree < |s| && OneLess(g.free, h.firstFree, g.free[1..]) && h.lastFreePlusOne > 0
    ensures |g.free| > 1 ==> FreeSucc(s, h.firstFree) == g.free[1]
    ensures |g.free| == 1 ==> h.lastFreePlusOne == h.firstFree + 1
  {
    var rest := g.free[1..];
    assert g.free[0] in g.free;
    forall x: nat
      ensures x in rest <==> x in g.free && x != g.free[0]
    {
      if x in g.free && x != g.free[0] {
        var j :| 0 <= j < |g.free| && g.free[j] == x;
        assert rest[j - 1] == x;
      }
    }
  }

  /** The header after a slot was taken. */
  function TakenHeader(s: seq<Slot>, h: Header, i: nat): Header
    requires i < |s| && h.freeCount > 0
  {
    var n := h.freeCount - 1;
    var h' := h.(freeCount := n, firstBatchPlusOne := if h.batchSize != 0 then i + 1 else h.firstBatchPlusOne);
    if h.purging then h'.(firstFree := 0)
    else if n == 0 then h'.(firstFree := 0, lastFreePlusOne := 0)
    else h'.(firstFree := FreeSucc(s, i) as nat)
  }

  lemma TakeKeepsLists(s: seq<Slot>, g: Shape, h: Header, i: nat, slot: Slot, rest: seq<nat>)
    requires Core(s, g) && Lists(s, g, h) && h.freeCount > 0 && i < |s| && i < |g.depth|
    requires OneLess(g.free, i, rest) && |rest| == |g.free| - 1
    requires !h.purging ==> i == h.firstFree && rest == g.free[1..]
    requires NewHandle(slot, i, h.batchSize != 0) && (h.batchSize != 0 ==> slot.next == h.firstBatchPlusOne)
    ensures Lists(s[i := slot], Taken(g, i, rest, h.batchSize != 0), TakenHeader(s, h, i))
  {
    var r := s[i := slot];
    forall j | 0 <= j < |g.batch|
      ensures g.batch[j] != i
    {
      assert g.batch[j] in g.batch;
    }
    hide Core, OneLess;
    if h.batchSize != 0 {
      BatchChainPush(s, g.batch, h.firstBatchPlusOne, i, slot);
    } else {
      BatchChainFrame(s, g.batch, h.firstBatchPlusOne, r);
    }
    if !h.purging {
      TakeKeepsFreeChain(s, g.free, h, slot);
    }
  }

  /** The new slot becomes the head of the batch list. */
  lemma BatchChainPush(s: seq<Slot>, batch: seq<nat>, firstPlusOne: nat, i: nat, slot: Slot)
    requires BatchChain(s, batch, firstPlusOne) && i < |s| && slot.next == firstPlusOne
    requires forall j :: 0 <= j < |batch| ==> batch[j] != i
    ensures BatchChain(s[i := slot], [i] + batch, i + 1)
  {
    var b := [i] + batch;
    forall j | 0 <= j < |b|
      ensures s[i := slot][b[j]].next == PlusOneAt(b, j + 1)
    {
      if j > 0 {
        assert s[batch[j - 1]].next == PlusOneAt(batch, j);
      }
    }
  }

  lemma TakeKeepsFreeChain(s: seq<Slot>, free: seq<nat>, h: Header, slot: Slot)
    requires FreeChain(s, free, h.freeCount, h.firstFree, h.lastFreePlusOne) && free != []
    ensures var n := h.freeCount - 1;
            FreeChain(s[free[0] := slot], free[1..], n,
                      if n == 0 then 0 else FreeSucc(s, free[0]) as nat, if n == 0 then 0 else h.lastFreePlusOne)
    requires Distinct(free)
  {
    var r, rest := s[free[0] := slot], free[1..];
    forall j | 0 <= j < |rest| - 1
      ensures FreeSucc(r, rest[j]) == rest[j + 1]
    {
      assert FreeSucc(s, free[j + 1]) == free[j + 2];
    }
    if |free| > 1 {
      assert FreeSucc(s, free[0]) == free[1];
    }
  }
}
