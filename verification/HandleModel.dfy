/** The data model of pvr/handle.c: the slot array, the two lists and the sibling rings threaded
    through it, and the predicates that say when they are well formed. */
module HandleModel {

  const TYPE_NONE := 0
  const NULL := 0
  const HANDLE_BLOCK_SIZE := 256
  const DEFAULT_MAX_INDEX_PLUS_ONE := 0xffff_ffff
  const U32_SIZE := 0x1_0000_0000

  // The bytes of struct sHandle where pointers have 32 bits, and how many of them a 32-bit size holds.
  const SLOT_SIZE := 48
  const MAX_SLOTS := 89_478_485

  datatype Flags = Flags(shared: bool, multi: bool, privat: bool)

  /** struct sHandleList: one place in a ring of siblings.  Rings are linked by slot index; the
      parent is a handle, that is an index plus one, or NULL. */
  datatype Links = Links(prev: nat, next: nat, parent: nat)

  /** struct sHandle.  `next` is ui32NextIndexPlusOne, the two Booleans are eInternalFlag. */
  datatype Slot = Slot(
    typ: nat, data: nat, next: nat, batched: bool, partial: bool, flags: Flags,
    children: Links, siblings: Links)

  /** What the hash table is keyed by: data, type, and the parent of a PRIVATE handle. */
  datatype Key = Key(data: nat, typ: nat, parent: nat)

  /** What a live handle means to its user. */
  datatype Entry = Entry(data: nat, typ: nat, flags: Flags, parent: nat, batched: bool)

  /** How the slots are in use: the live ones; those amid being freed; the free list and the batch
      list from their heads on; each slot's children in ring order; and how deep each slot is. */
  datatype Shape = Shape(
    live: set<nat>, limbo: set<nat>, free: seq<nat>, batch: seq<nat>,
    kids: seq<seq<nat>>, depth: seq<nat>, top: nat)

  // ---------------------------------------------------------------- who is where

  ghost predicate Distinct(s: seq<nat>) {
    forall i, j :: 0 <= i < j < |s| ==> s[i] != s[j]
  }

  ghost predicate Partition(n: nat, g: Shape) {
    && (forall i :: i in g.live ==> i < n && i !in g.limbo)
    && (forall i :: i in g.limbo ==> i < n)
    && (forall i :: i in g.batch ==> i < n)
    && (forall i :: i in g.free ==> i < n && i !in g.live && i !in g.limbo && i !in g.batch)
    && (forall i :: 0 <= i < n ==> i in g.live || i in g.limbo || i in g.free || i in g.batch)
    && Distinct(g.free) && Distinct(g.batch)
  }

  /** What the type, the internal flags and the link field of a slot say about its use.  A free
      slot that was batched may keep both internal flags until it is used again. */
  ghost predicate MarkOk(slots: seq<Slot>, g: Shape, i: nat) {
    i < |slots| &&
    var s := slots[i];
    if i in g.live then
      s.typ != TYPE_NONE && !s.partial && (s.batched <==> i in g.batch) && (i !in g.batch ==> s.next == 0)
    else if i in g.limbo then
      (s.batched && !s.partial <==> i in g.batch) && (i !in g.batch ==> s.next == 0)
    else
      s.typ == TYPE_NONE && (i in g.batch ==> s.batched && s.partial)
  }

  ghost predicate Marks(slots: seq<Slot>, g: Shape) {
    forall i: nat {:trigger MarkOk(slots, g, i)} :: i < |slots| ==> MarkOk(slots, g, i)
  }

  // ---------------------------------------------------------------- the free list

  /** Where the free list goes on from slot i: link 0 stands for the very next slot. */
  function FreeSucc(slots: seq<Slot>, i: nat): int
    requires i < |slots|
  {
    if slots[i].next == 0 then i + 1 else slots[i].next - 1
  }

  ghost predicate FreeChain(slots: seq<Slot>, free: seq<nat>, count: nat, first: nat, lastPlusOne: nat) {
    && |free| == count
    && (forall j :: 0 <= j < |free| ==> free[j] < |slots|)
    && if free == [] then first == 0 && lastPlusOne == 0 else
         && first == free[0]
         && lastPlusOne == free[|free| - 1] + 1
         && slots[free[|free| - 1]].next == 0
         && (forall j :: 0 <= j < |free| - 1 ==> FreeSucc(slots, free[j]) == free[j + 1])
  }

  // ---------------------------------------------------------------- the batch list

  function PlusOneAt(batch: seq<nat>, j: nat): nat {
    if j < |batch| then batch[j] + 1 else 0
  }

  ghost predicate BatchChain(slots: seq<Slot>, batch: seq<nat>, firstPlusOne: nat) {
    && (forall j :: 0 <= j < |batch| ==> batch[j] < |slots|)
    && firstPlusOne == PlusOneAt(batch, 0)
    && (forall j :: 0 <= j < |batch| ==> slots[batch[j]].next == PlusOneAt(batch, j + 1))
  }

  // ---------------------------------------------------------------- both lists

  /** The fields of PVRSRV_HANDLE_BASE that anchor the two lists. */
  datatype Header = Header(
    freeCount: nat, firstFree: nat, lastFreePlusOne: nat, firstBatchPlusOne: nat, batchSize: nat, purging: bool)

  /** The free list is threaded through the free slots and the batch list through the batched
      ones; with purging enabled the free slots are only counted, and there are no batches. */
  ghost predicate Lists(slots: seq<Slot>, g: Shape, h: Header) {
    && BatchChain(slots, g.batch, h.firstBatchPlusOne)
    && (h.batchSize == 0 ==> g.batch == [])
    && if h.purging then
         && h.freeCount == |g.free| && h.lastFreePlusOne == 0 && h.batchSize == 0
         && (forall x: nat {:trigger slots[x]} :: x < |slots| ==> !slots[x].batched && !slots[x].partial)
       else
         FreeChain(slots, g.free, h.freeCount, h.firstFree, h.lastFreePlusOne)
  }

  // ---------------------------------------------------------------- the sibling rings

  /** LIST_PTR_FROM_INDEX_AND_OFFSET: the ring of p's children goes through p's `children` and
      through its children's `siblings`. */
  function At(slots: seq<Slot>, p: nat, i: nat): Links
    requires i < |slots|
  {
    if i == p then slots[i].children else slots[i].siblings
  }

  function Put(slots: seq<Slot>, p: nat, i: nat, l: Links): (r: seq<Slot>)
    requires i < |slots|
    ensures |r| == |slots|
  {
    if i == p then slots[i := slots[i].(children := l)] else slots[i := slots[i].(siblings := l)]
  }

  /** Place j of the ring of p with children ks: p itself first and, come round, last. */
  function Nth(p: nat, ks: seq<nat>, j: nat): nat {
    if 1 <= j <= |ks| then ks[j - 1] else p
  }

  /** From each place of the ring the links lead to the next place and back. */
  ghost predicate Ring(slots: seq<Slot>, p: nat, ks: seq<nat>) {
    && p < |slots| && (forall j :: 0 <= j < |ks| ==> ks[j] < |slots| && ks[j] != p)
    && forall j: nat {:trigger Linked(slots, p, ks, j)} :: j <= |ks| ==> Linked(slots, p, ks, j)
  }

  ghost predicate Linked(slots: seq<Slot>, p: nat, ks: seq<nat>, j: nat) {
    var x, y := Nth(p, ks, j), Nth(p, ks, j + 1);
    x < |slots| && y < |slots| && At(slots, p, x).next == y && At(slots, p, y).prev == x
  }

  ghost predicate HasRing(g: Shape, i: nat) {
    i in g.live || i in g.limbo || i in g.batch
  }

  /** Slot p's children are live, one deeper than it and know it as their parent; their ring is
      closed and in their order. */
  ghost predicate KidsOk(slots: seq<Slot>, g: Shape, p: nat) {
    && p < |slots| == |g.kids| == |g.depth|
    && (forall j :: 0 <= j < |g.kids[p]| ==> ChildOk(slots, g, p, g.kids[p][j]))
    && Distinct(g.kids[p])
    && g.depth[p] <= g.top
    && (g.kids[p] != [] ==> p in g.live || p in g.limbo)
    && (HasRing(g, p) ==> slots[p].children.parent == p + 1 && Ring(slots, p, g.kids[p]))
  }

  ghost predicate ChildOk(slots: seq<Slot>, g: Shape, p: nat, k: nat) {
    && p < |slots| == |g.depth| && k < |slots|
    && k in g.live && slots[k].siblings.parent == p + 1 && g.depth[k] == g.depth[p] + 1
  }

  /** A live handle with a parent is in that parent's ring; any other slot is in no ring. */
  ghost predicate ParentOk(slots: seq<Slot>, g: Shape, i: nat) {
    i < |slots| == |g.kids| &&
    var l := slots[i].siblings;
    if i in g.live && l.parent != NULL then l.parent <= |slots| && i in g.kids[l.parent - 1]
    else HasRing(g, i) ==> l == Links(i, i, NULL)
  }

  ghost predicate Forest(slots: seq<Slot>, g: Shape) {
    && |g.kids| == |g.depth| == |slots|
    && (forall p: nat {:trigger KidsOk(slots, g, p)} :: p < |slots| ==> KidsOk(slots, g, p))
    && (forall i: nat {:trigger ParentOk(slots, g, i)} :: i < |slots| ==> ParentOk(slots, g, i))
  }

  /** What hangs below a batched handle is batched too. */
  ghost predicate BatchClosed(slots: seq<Slot>, g: Shape) {
    forall i: nat {:trigger BatchClosedAt(slots, i)} :: i in g.live ==> BatchClosedAt(slots, i)
  }

  ghost predicate BatchClosedAt(slots: seq<Slot>, i: nat) {
    i < |slots| &&
    var up := slots[i].siblings.parent;
    0 < up <= |slots| && slots[up - 1].batched ==> slots[i].batched
  }

  // ---------------------------------------------------------------- the hash index

  function ParentIfPrivate(s: Slot): nat {
    if s.flags.privat then s.siblings.parent else NULL
  }

  function KeyOf(s: Slot): Key {
    Key(s.data, s.typ, ParentIfPrivate(s))
  }

  /** The index binds the keys of exactly the live handles that are not MULTI. */
  ghost predicate Index(slots: seq<Slot>, live: set<nat>, index: map<Key, nat>) {
    && (forall i: nat {:trigger Indexed(slots, index, i)} :: i in live ==> Indexed(slots, index, i))
    && (forall k {:trigger index[k]} :: k in index ==> Binds(slots, live, k, index[k]))
  }

  ghost predicate Indexed(slots: seq<Slot>, index: map<Key, nat>, i: nat) {
    i < |slots| && (!slots[i].flags.multi ==> KeyOf(slots[i]) in index && index[KeyOf(slots[i])] == i + 1)
  }

  ghost predicate Binds(slots: seq<Slot>, live: set<nat>, k: Key, h: nat) {
    0 < h <= |slots| && h - 1 in live && !slots[h - 1].flags.multi && KeyOf(slots[h - 1]) == k
  }
}
