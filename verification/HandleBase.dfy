/** The handle base of pvr/handle.c. */
module HandleBase {
  import opened HashTable
  import opened HandleModel
  import opened HandleRings
  import opened HandleFreeing
  import opened HandleGrowing
  import opened HandleView
  import opened HandleBatch
  import opened HandlePurging

  datatype Error = OK | GENERIC | INVALID_PARAMS | OUT_OF_MEMORY | NOT_SUPPORTED

  class Base {
    const hash: Table<Key>
    var slots: seq<Slot>
    var freeCount: nat
    var firstFree: nat
    var maxIndexPlusOne: nat
    var lastFreePlusOne: nat
    var batchSize: nat
    var firstBatchPlusOne: nat
    var batchAllocFailures: nat
    var purging: bool

    ghost var g: Shape
    ghost var index: map<Key, nat>
    ghost var batchHead: nat   // firstBatchPlusOne, but for the time the batch list is worked off

    /** What holds at every step, also amid a FreeHandle. */
    ghost predicate Inv()
      reads this, hash, hash.table
    {
      Bare() && Index(slots, g.live, index)
    }

    /** The invariant without the index being the one of these slots. */
    ghost predicate Bare()
      reads this, hash, hash.table
    {
      && Core(slots, g) && Lists(slots, g, Hdr())
      && hash.Valid() && Represents(hash.Buckets(), index)
      && |slots| <= maxIndexPlusOne <= DEFAULT_MAX_INDEX_PLUS_ONE
    }

    ghost function Hdr(): Header
      reads this
    {
      Header(freeCount, firstFree, lastFreePlusOne, batchHead, batchSize, purging)
    }

    ghost predicate Valid()
      reads this, hash, hash.table
    {
      && Inv() && g.limbo == {} && BatchClosed(slots, g)
      && firstBatchPlusOne == batchHead
      && (purging ==> firstFree == 0)
      && (batchSize == 0 ==> batchAllocFailures == 0)
      && batchAllocFailures < U32_SIZE
    }

    /** The handle base as a map from handles to what they stand for. */
    ghost function View(): HandleMap
      reads this
    {
      ViewOf(slots, g.live)
    }

    /** HandleListRemove on the siblings of a handle: if it has a parent, the parent's ring closes
        around the others, in their order, and nothing outside the ring changes; else nothing changes
        at all. */
    method UnlinkFromParent(i: nat)
      requires Core(slots, g) && (i in g.live || i in g.limbo)
      modifies this`slots
      ensures CanUnlink(old(slots), i) && slots == Unlinked(old(slots), i)
      ensures i in g.live && old(slots)[i].siblings.parent != NULL ==>
                var p := old(slots)[i].siblings.parent - 1;
                && p < |g.kids| && i in g.kids[p] && LeftRing(old(slots), slots, p, g.kids[p], i)
                && Ring(slots, p, Without(g.kids[p], i))
      ensures i in g.limbo || old(slots)[i].siblings.parent == NULL ==> slots == old(slots)
    {
      UnlinkIsSound(slots, g, i);
      hide Core, LeftRing, Ring, Without;
      var e := slots[i].siblings;
      if e.next != i {
        var p := e.parent - 1;
        slots := Put(slots, p, e.prev, At(slots, p, e.prev).(next := e.next));
        slots := Put(slots, p, e.next, At(slots, p, e.next).(prev := e.prev));
        slots := slots[i := slots[i].(siblings := Links(i, i, NULL))];
      }
    }

    /** FreeHandle: frees a handle and, with it, all its descendants.  It also serves to free, at
        the end of a batch, a slot that was batched when its handle was freed. */
    method FreeHandle(i: nat)
      requires Inv() && (i in g.live || Zombie(i))
      modifies this`slots, this`freeCount, this`firstFree, this`lastFreePlusOne, this`g, this`index
      modifies hash`table, hash`count, hash.table
      ensures purging ==> firstFree == old(firstFree)
      ensures Inv() && (hash.table == old(hash.table) || fresh(hash.table))
      ensures Freed(old(slots), old(g), slots, g, i)
      decreases g.top - DepthOf(g, i), 1
    {
      hide Core, Lists, Index, Represents, Detached, FreedKids, Freed, SameButLinks, InParentsRing, KeptAt;
      hide Table.Valid, Table.Buckets;
      ghost var s0, g0 := slots, g;
      LiveIsNotLimbo(i);
      Detach(i);
      ghost var s1, g1 := slots, g;
      FreeChildren(i);
      ghost var s2, g2 := slots, g;
      AllKidsFreed(s1, g1, s2, g2, i);
      Dispose(i);
      if i in g0.live {
        FreedInSteps(s0, g0, s1, g1, s2, g2, slots, g, i);
      } else {
        FreedAtLast(s0, g0, s2, g2, slots, g, i);
      }
    }

    lemma LiveIsNotLimbo(i: nat)
      requires Inv() && (i in g.live || Zombie(i))
      ensures i < |slots| == |g.kids| && (i in g.live <==> i !in g.limbo)
    {
      assert KidsOk(slots, g, i);
    }

    /** A slot whose handle is freed already and which has left the batch list. */
    ghost predicate Zombie(i: nat)
      reads this
    {
      i in g.limbo && i < |slots| == |g.kids| && i !in g.batch && slots[i].partial && g.kids[i] == []
    }

    /** The first part of FreeHandle: the handle leaves the hash table and its parent's ring. */
    method Detach(i: nat)
      requires Inv() && (i in g.live || Zombie(i))
      modifies this`slots, this`g, this`index, hash`table, hash`count, hash.table
      ensures Inv() && (hash.table == old(hash.table) || fresh(hash.table))
      ensures i in old(g.live) ==> IsDetached(old(slots), old(g), g, i)
      ensures i !in old(g.live) ==> g == old(g) && slots == old(slots)
      ensures |slots| == |old(slots)|
      ensures forall x: nat {:trigger KeptAt(old(slots), slots, x)} :: x < |slots| && x != i ==>
                KeptAt(old(slots), slots, x)
      ensures i < |slots| && SameButLinks(old(slots)[i], slots[i])
    {
      hide Core, Unlinked, Detached, Lists, Represents, Index, SameKeys;
      hide Table.Valid, Table.Buckets;
      ghost var s, sh := slots, g;
      FreedKey(i);
      if i in g.live {
        DetachKeepsCore(s, sh, i);
      } else {
        ZombieHasNoLinks(s, sh, i);
      }
      if !slots[i].flags.multi && !slots[i].partial {
        Unindex(i);
      }
      UnlinkFromParent(i);
      if i in g.live {
        g := Detached(s, sh, i);
        ListsFrame(s, slots, sh, g, Hdr());
        IndexFrame(s, slots, g.live, index);
      }
    }

    /** The handle's bucket leaves the hash table. */
    method Unindex(i: nat)
      requires Bare() && i < |slots| && HasKey(hash.Buckets(), KeyOf(slots[i]))
      modifies this`index, hash`table, hash`count, hash.table
      ensures Bare() && (hash.table == old(hash.table) || fresh(hash.table))
      ensures index == old(index) - {KeyOf(slots[i])}
    {
      hide Core, Lists, Represents;
      hide Table.Valid, Table.Buckets;
      var key := KeyOf(slots[i]);
      var resizeOk: bool := *;
      ghost var buckets := hash.Buckets();
      var h := hash.Remove(key, resizeOk);
      RemoveRefinesDelete(buckets, index, key, h);
      index := index - {key};
    }

    /** The hash table has the handle under its key, and without that key indexes the others. */
    lemma FreedKey(i: nat)
      requires Inv() && (i in g.live || Zombie(i))
      ensures i < |slots| && (i in g.live ==> !slots[i].partial)
      ensures !slots[i].flags.multi && i in g.live ==>
                && Bucket(KeyOf(slots[i]), i + 1) in hash.Buckets()
                && HasKey(hash.Buckets(), KeyOf(slots[i]))
      ensures i in g.live ==>
                Index(slots, g.live - {i}, if slots[i].flags.multi then index else index - {KeyOf(slots[i])})
    {
      assert MarkOk(slots, g, i);
      if i in g.live {
        IndexRemove(slots, g.live, index, i);
        HasKeyIffInMap(hash.Buckets(), index, KeyOf(slots[i]));
      }
    }

    /** IterateOverChildren with FreeHandle: the next sibling is read before a child is freed. */
    method FreeChildren(i: nat)
      requires Inv() && i in g.limbo
      modifies this`slots, this`freeCount, this`firstFree, this`lastFreePlusOne, this`g, this`index
      modifies hash`table, hash`count, hash.table
      ensures purging ==> firstFree == old(firstFree)
      ensures Inv() && (hash.table == old(hash.table) || fresh(hash.table))
      ensures i < |old(g.kids)| && FreedKids(old(slots), old(g), slots, g, i, |old(g.kids)[i]|)
      decreases g.top - DepthOf(g, i), 0
    {
      hide Core, Lists, Index, Represents, FreedKids, Freed, Nth;
      hide Table.Valid, Table.Buckets;
      ghost var s0, g0 := slots, g;
      NothingFreed(s0, g0, i);
      FreedSoFar(s0, g0, slots, g, i, 0);
      ghost var t, kids := 0, g.kids[i];
      NextChild(slots, g, i, kids, t);
      var x := slots[i].children.next;
      while x != i
        invariant purging ==> firstFree == old(firstFree)
        invariant Inv() && i in g.limbo && (hash.table == old(hash.table) || fresh(hash.table))
        invariant g.top == g0.top && DepthOf(g, i) == DepthOf(g0, i)
        invariant t <= |kids| && FreedKids(s0, g0, slots, g, i, t)
        invariant x == Nth(i, kids, t + 1)
        decreases |kids| - t
      {
        ghost var s1, g1 := slots, g;
        FreedSoFar(s0, g0, slots, g, i, t);
        NextChild(slots, g, i, kids, t);
        var next := slots[x].siblings.next;
        FreeHandle(x);
        FreedOneMore(s0, g0, s1, g1, slots, g, i, t);
        FreedSoFar(s0, g0, slots, g, i, t + 1);
        x, t := next, t + 1;
      }
      FreedSoFar(s0, g0, slots, g, i, t);
      NextChild(slots, g, i, kids, t);
    }

    /** The last part of FreeHandle: the slot goes to the free list or stays on the batch list. */
    method Dispose(i: nat)
      requires Inv() && i in g.limbo && i < |g.kids| && g.kids[i] == []
      modifies this`slots, this`freeCount, this`firstFree, this`lastFreePlusOne, this`g
      ensures purging ==> firstFree == old(firstFree)
      ensures Inv()
      ensures g == old(g).(limbo := old(g.limbo) - {i}, free := g.free) && old(g.free) <= g.free
      ensures |slots| == |old(slots)|
      ensures forall x: nat {:trigger slots[x]} :: x < |slots| && (x in g.live || x in g.limbo) ==>
                slots[x] == old(slots)[x]
    {
      hide Core, Lists, Index, Represents;
      hide Table.Valid, Table.Buckets;
      ghost var s, sh, hd := slots, g, Hdr();
      DisposalFlags(i);
      if i in g.batch {
        ToBatch(s, sh, i);
        ToBatchLists(s, sh, hd, i);
      } else {
        ToFreeLists(s, sh, hd, i);
      }
      slots := slots[i := slots[i].(typ := TYPE_NONE)];
      if slots[i].batched && !slots[i].partial {
        slots := slots[i := slots[i].(partial := true)];
        assert slots == s[i := s[i].(typ := TYPE_NONE, partial := true)];
        g := g.(limbo := g.limbo - {i});
        IndexFrame(s, slots, g.live, index);
        return;
      }
      if !purging {
        if freeCount == 0 {
          firstFree := i;
        } else {
          slots := slots[lastFreePlusOne - 1 := slots[lastFreePlusOne - 1].(next := i + 1)];
        }
        lastFreePlusOne := i + 1;
      }
      freeCount := freeCount + 1;
      g := g.(limbo := g.limbo - {i}, free := g.free + [i]);
      assert slots == Pushed(s, i, hd);
      IndexFrame(s, slots, g.live, index);
    }

    /** In limbo, the internal flags tell whether the slot is on the batch list. */
    lemma DisposalFlags(i: nat)
      requires Inv() && i in g.limbo
      ensures i < |slots| && i !in g.live && (slots[i].batched && !slots[i].partial <==> i in g.batch)
    {
      assert MarkOk(slots, g, i);
    }

    // ---------------------------------------------------------------- finding

    /** FindHandle: the one live handle that is not MULTI and has this key, or NULL. */
    method FindHandle(data: nat, typ: nat, parent: nat) returns (h: nat)
      requires Inv()
      ensures h == Found(View(), Key(data, typ, parent))
      ensures h == NULL <==> Key(data, typ, parent) !in index
    {
      var key := Key(data, typ, parent);
      HasKeyIffInMap(hash.Buckets(), index, key);
      h := hash.Retrieve(key);
      LiveInRange();
      IndexFindsFound(slots, g.live, index, key);
    }

    lemma LiveInRange()
      requires Bare()
      ensures forall i :: i in g.live ==> i < |slots|
    {}

    /** The index of NULL is out of range. */
    static lemma IndexOf(h: nat)
      requires h < U32_SIZE
      ensures (h + U32_SIZE - 1) % U32_SIZE == if h == NULL then U32_SIZE - 1 else h - 1
    {}

    /** GetHandleStructure: whether the handle is live and of the type asked for, if any. */
    method GetHandleStructure(h: nat, typ: nat) returns (e: Error, i: nat)
      requires Inv() && g.limbo == {} && h < U32_SIZE
      ensures e == OK <==> h in View() && (typ == TYPE_NONE || View()[h].typ == typ)
      ensures e == OK ==> i == h - 1 && i in g.live && i < |slots|
      ensures e != OK ==> e == GENERIC
    {
      hide Lists, Index, Represents, Table.Valid, Table.Buckets;
      IndexOf(h);
      i := (h + U32_SIZE - 1) % U32_SIZE;
      if i >= |slots| {
        return GENERIC, i;
      }
      assert MarkOk(slots, g, i);
      if slots[i].typ == TYPE_NONE {
        return GENERIC, i;
      }
      if typ != TYPE_NONE && typ != slots[i].typ {
        return GENERIC, i;
      }
      return OK, i;
    }

    // ---------------------------------------------------------------- allocating

    /** How large the array grows: in whole blocks, or up to the limit when that would pass it or
        wrap around. */
    method NewTotal(delta: nat) returns (fits: bool, newTotal: nat)
      requires 0 < delta < U32_SIZE && |slots| <= maxIndexPlusOne <= DEFAULT_MAX_INDEX_PLUS_ONE
      ensures fits <==> delta <= maxIndexPlusOne - |slots|
      ensures fits ==> |slots| + delta <= newTotal <= maxIndexPlusOne && newTotal < |slots| + delta + HANDLE_BLOCK_SIZE
      ensures fits ==> (newTotal - |slots|) % 256 == 0 || newTotal == maxIndexPlusOne
    {
      var deltaAdjusted :=
        (((delta + HANDLE_BLOCK_SIZE - 1) % U32_SIZE / HANDLE_BLOCK_SIZE) * HANDLE_BLOCK_SIZE) % U32_SIZE;
      newTotal := (|slots| + deltaAdjusted) % U32_SIZE;
      RoundedDelta(delta);
      if newTotal > maxIndexPlusOne || newTotal <= |slots| {
        newTotal := maxIndexPlusOne;
        deltaAdjusted := newTotal - |slots|;
        if deltaAdjusted < delta {
          return false, newTotal;
        }
      }
      return true, newTotal;
    }

    /** The array moved to larger memory, whose new slots get type, flags and link cleared. */
    method Reallocated(newTotal: nat) returns (grown: seq<Slot>, bytes: nat)
      requires |slots| <= newTotal
      ensures bytes == newTotal * SLOT_SIZE <==> newTotal <= MAX_SLOTS
      ensures |grown| == newTotal && forall x: nat {:trigger grown[x]} :: x < |slots| ==> grown[x] == slots[x]
      ensures forall x: nat {:trigger grown[x]} :: |slots| <= x < |grown| ==> FreshSlot(grown[x])
    {
      bytes := ArrayBytes(newTotal);
      ArrayBytesFit(newTotal);
      grown := slots;
      while |grown| < newTotal
        invariant |slots| <= |grown| <= newTotal
        invariant forall x: nat {:trigger grown[x]} :: x < |slots| ==> grown[x] == slots[x]
        invariant forall x: nat {:trigger grown[x]} :: |slots| <= x < |grown| ==> FreshSlot(grown[x])
      {
        var raw: Slot := *;
        grown := grown + [raw.(typ := TYPE_NONE, batched := false, partial := false, next := 0)];
      }
    }

    /** IncreaseHandleArraySize, with the arithmetic of 32-bit unsigned integers.  Memory aside, it
        succeeds exactly when the limit leaves room.  When slot 0 heads a free list that is not
        empty, the list is overwritten. */
    method IncreaseHandleArraySize(delta: nat, memOk: bool) returns (e: Error)
      requires Inv() && 0 < delta < U32_SIZE
      modifies this`slots, this`freeCount, this`firstFree, this`lastFreePlusOne, this`g
      ensures e == OK <==> delta <= maxIndexPlusOne - |old(slots)| && memOk
      ensures e != OK ==>
                e == OUT_OF_MEMORY && slots == old(slots) && g == old(g) && Hdr() == old(Hdr())
      ensures e == OK ==>
                && |old(slots)| + delta <= |slots| <= maxIndexPlusOne
                && |slots| < |old(slots)| + delta + HANDLE_BLOCK_SIZE
                && ((|slots| - |old(slots)|) % 256 == 0 || |slots| == maxIndexPlusOne)
                && GrownSlots(old(slots), old(g), slots)
                && Hdr() == GrownHeader(old(Hdr()), |old(slots)|, |slots|)
      ensures e == OK && !Overwrites(old(Hdr())) ==> Inv() && g == Grown(old(g), |old(slots)|, |slots|)
      ensures e == OK && Overwrites(old(Hdr())) ==> g == old(g)
      ensures e == OK && Overwrites(old(Hdr())) ==>
                forall free :: !FreeChain(slots, free, freeCount, firstFree, lastFreePlusOne)
    {
      hide Core, Lists, Index, Represents, GrownSlots, Grown, FreeChain, GrownHeader, Overwrites;
      hide Table.Valid, Table.Buckets;
      var fits, newTotal := NewTotal(delta);
      if !fits || !memOk {
        return OUT_OF_MEMORY;
      }
      Grow(newTotal);
      return OK;
    }

    /** The last part of IncreaseHandleArraySize: the array grows and its new slots become free. */
    method Grow(newTotal: nat)
      requires Inv() && |slots| < newTotal <= maxIndexPlusOne
      modifies this`slots, this`freeCount, this`firstFree, this`lastFreePlusOne, this`g
      ensures |slots| == newTotal && GrownSlots(old(slots), old(g), slots)
      ensures Hdr() == GrownHeader(old(Hdr()), |old(slots)|, |slots|)
      ensures !Overwrites(old(Hdr())) ==> Inv() && g == Grown(old(g), |old(slots)|, |slots|)
      ensures Overwrites(old(Hdr())) ==> g == old(g)
      ensures Overwrites(old(Hdr())) ==> forall free :: !FreeChain(slots, free, freeCount, firstFree, lastFreePlusOne)
    {
      hide Core, Lists, Index, Represents, GrownSlots, Grown, FreeChain;
      hide Table.Valid, Table.Buckets;
      ghost var s, sh, hd := slots, g, Hdr();
      var total := |slots|;
      FreeTail(s, sh, hd);
      var grown, _ := Reallocated(newTotal);
      slots := grown;
      freeCount := freeCount + (newTotal - total);
      if firstFree == 0 {
        firstFree := total;
      } else if !purging {
        slots := slots[lastFreePlusOne - 1 := slots[lastFreePlusOne - 1].(next := total + 1)];
      }
      if !purging {
        lastFreePlusOne := newTotal;
      }
      GrownIsGrown(s, sh, hd, grown, slots);
      if Overwrites(hd) {
        NoListIsLeft(slots, total, hd, freeCount);
      } else {
        FreeAndBatch(s, sh);
        GrowKeepsCore(s, sh, slots);
        GrowKeepsLists(s, sh, hd, slots);
        GrowKeepsKeys(s, sh, slots);
        g := Grown(sh, total, newTotal);
        GrownLive(sh, total, newTotal);
        IndexFrame(s, slots, g.live, index);
      }
    }

    /** EnsureFreeHandles */
    method EnsureFreeHandles(free: nat, memOk: bool) returns (e: Error)
      requires Inv() && free < U32_SIZE
      modifies this`slots, this`freeCount, this`firstFree, this`lastFreePlusOne, this`g
      ensures e == OK <==> free <= old(freeCount) || (free - old(freeCount) <= maxIndexPlusOne - |old(slots)| && memOk)
      ensures e != OK || free <= old(freeCount) ==> slots == old(slots) && g == old(g) && Hdr() == old(Hdr())
      ensures e == OK && free > old(freeCount) ==>
                && |old(slots)| < |slots| <= maxIndexPlusOne
                && GrownSlots(old(slots), old(g), slots)
                && Hdr() == GrownHeader(old(Hdr()), |old(slots)|, |slots|)
                && free <= freeCount < free + HANDLE_BLOCK_SIZE
                && (!Overwrites(old(Hdr())) ==> Inv() && g == Grown(old(g), |old(slots)|, |slots|))
                && (Overwrites(old(Hdr())) ==> g == old(g))
                && (Overwrites(old(Hdr())) ==>
                      forall f :: !FreeChain(slots, f, freeCount, firstFree, lastFreePlusOne))
      ensures e != OK ==> e == OUT_OF_MEMORY
    {
      e := OK;
      if free > freeCount {
        e := IncreaseHandleArraySize(free - freeCount, memOk);
      }
    }

    /** The slot AllocHandle takes: the head of the free list or, with purging enabled, the first
        free one found by search. */
    method FreeSlot() returns (i: nat, ghost rest: seq<nat>)
      requires Inv() && freeCount > 0 && g.limbo == {}
      requires purging ==> firstFree == 0 || (firstFree < |slots| && firstFree in g.free)
      modifies this`firstFree
      ensures Inv() && i < |slots| && OneLess(g.free, i, rest) && |rest| == |g.free| - 1
      ensures !purging ==> i == firstFree == old(firstFree) && rest == g.free[1..]
      ensures purging ==> firstFree == 0
    {
      if !purging {
        i := firstFree;
        rest := g.free[1..];
        TakeFirst(slots, g, Hdr());
      } else {
        ghost var some := g.free[0];
        assert some in g.free;
        i := firstFree;
        while i < |slots|
          invariant firstFree <= i <= |slots|
          invariant firstFree != 0 ==> i == firstFree
          invariant firstFree == 0 ==> i <= some
        {
          assert MarkOk(slots, g, i);
          if slots[i].typ == TYPE_NONE && !slots[i].batched && !slots[i].partial {
            break;
          }
          i := i + 1;
        }
        rest := Without(g.free, i);
        WithoutMembers(g.free, i);
        firstFree := 0;
      }
    }

    /** AllocHandle: a free slot, if need be one of a grown array, becomes the new handle; in a
        batch it also becomes the head of the batch list.  The parent is only part of the key: the
        handle has none yet. */
    method AllocHandle(data: nat, typ: nat, flags: Flags, parent: nat, memOk: bool, bucketOk: bool)
      returns (e: Error, h: nat)
      requires Valid() && typ != TYPE_NONE
      requires flags.multi || Key(data, typ, parent) !in index
      modifies this`slots, this`freeCount, this`firstFree, this`lastFreePlusOne, this`firstBatchPlusOne
      modifies this`g, this`index, this`batchHead, hash`table, hash`count, hash.table
      ensures hash.table == old(hash.table) || fresh(hash.table)
      ensures e == OK <==>
                (old(freeCount) > 0 || (|old(slots)| < maxIndexPlusOne && memOk)) && (flags.multi || bucketOk)
      ensures e != OK ==> Valid() && View() == old(View()) && h == NULL
      ensures e == OK ==>
                && Bare() && Added(old(slots), old(g), slots, g, h - 1, batchSize != 0)
                && 0 < h <= |slots| && h !in old(View())
                && slots[h - 1].data == data && slots[h - 1].typ == typ && slots[h - 1].flags == flags
                && index == (if flags.multi then old(index) else old(index)[Key(data, typ, parent) := h])
                && firstBatchPlusOne == batchHead && (purging ==> firstFree == 0)
      ensures Spent(old(freeCount), |old(g.batch)|, freeCount, |g.batch|, e == OK, batchSize != 0)
    {
      hide Core, Lists, Index, Represents, OneLess, Taken, GrownSlots, Grown, Added, BatchClosed, ViewOf;
      hide Table.Valid, Table.Buckets;
      hide Undisturbed, FreeChain, NewHandle;
      ghost var s0, g0, h0 := slots, g, Hdr();
      FreeTail(s0, g0, h0);
      e := EnsureFreeHandles(1, memOk);
      if e != OK {
        return e, NULL;
      }
      StillThere(s0, g0, h0, slots, g, Hdr());
      e, h := PlaceHandle(data, typ, flags, parent, bucketOk, s0, g0);
    }

    /** The part of AllocHandle after it is sure that there is a free slot. */
    method PlaceHandle(data: nat, typ: nat, flags: Flags, parent: nat, bucketOk: bool,
                       ghost s0: seq<Slot>, ghost g0: Shape)
      returns (e: Error, h: nat)
      requires Inv() && BatchClosed(slots, g) && freeCount > 0 && g.limbo == {} && typ != TYPE_NONE
      requires Core(s0, g0) && Undisturbed(s0, g0, slots, g) && g0.limbo == {}
      requires flags.multi || Key(data, typ, parent) !in index
      requires purging ==> firstFree == 0 || (firstFree < |slots| && firstFree in g.free)
      requires firstBatchPlusOne == batchHead && batchAllocFailures < U32_SIZE
      requires batchSize == 0 ==> batchAllocFailures == 0
      modifies this`slots, this`freeCount, this`firstFree, this`lastFreePlusOne, this`firstBatchPlusOne
      modifies this`g, this`index, this`batchHead, hash`table, hash`count, hash.table
      ensures hash.table == old(hash.table) || fresh(hash.table)
      ensures e == OK <==> flags.multi || bucketOk
      ensures e != OK ==> Valid() && slots == old(slots) && g == old(g) && h == NULL
      ensures e == OK ==>
                && Bare() && Added(s0, g0, slots, g, h - 1, batchSize != 0)
                && 0 < h <= |slots| && h !in ViewOf(s0, g0.live)
                && slots[h - 1].data == data && slots[h - 1].typ == typ && slots[h - 1].flags == flags
                && index == (if flags.multi then old(index) else old(index)[Key(data, typ, parent) := h])
                && firstBatchPlusOne == batchHead && (purging ==> firstFree == 0)
      ensures Spent(old(freeCount), |old(g.batch)|, freeCount, |g.batch|, e == OK, batchSize != 0)
    {
      hide Core, Lists, Index, Represents, OneLess, Taken, Added, BatchClosed, ViewOf;
      hide Table.Valid, Table.Buckets;
      hide Undisturbed, FreeChain, NewHandle;
      ghost var s, sh := slots, g;
      ghost var rest;
      var i;
      i, rest := FreeSlot();
      h := i + 1;
      if !flags.multi {
        var ok := Enter(Key(data, typ, parent), h, bucketOk);
        if !ok {
          return GENERIC, NULL;
        }
      }
      Occupy(i, data, typ, flags, rest);
      TakingAdds(s0, g0, s, sh, i, slots[i], rest, batchSize != 0);
      return OK, h;
    }

    /** Enters a handle into the hash table under a key not in use. */
    method Enter(key: Key, h: nat, bucketOk: bool) returns (ok: bool)
      requires Bare() && key !in index
      modifies this`index, hash`table, hash`count, hash.table
      ensures Bare() && (hash.table == old(hash.table) || fresh(hash.table))
      ensures ok == bucketOk && index == if ok then old(index)[key := h] else old(index)
    {
      hide Core, Lists, Represents;
      hide Table.Valid, Table.Buckets;
      ghost var buckets := hash.Buckets();
      var resizeOk: bool := *;
      ok := hash.Insert(key, h, bucketOk, resizeOk);
      if ok {
        InsertRefinesUpdate(buckets, index, key, h);
        index := index[key := h];
      } else {
        assert hash.Buckets() == buckets;
      }
    }

    /** One free slot less; on the list, the head moves on. */
    method LeaveFreeList(i: nat)
      requires freeCount > 0 && i < |slots|
      modifies this`freeCount, this`firstFree, this`lastFreePlusOne
      ensures freeCount == old(freeCount) - 1
      ensures purging ==> firstFree == old(firstFree) && lastFreePlusOne == old(lastFreePlusOne)
      ensures !purging ==>
                && lastFreePlusOne == (if freeCount == 0 then 0 else old(lastFreePlusOne))
                && firstFree == if freeCount == 0 then 0 else if slots[i].next == 0 then i + 1 else slots[i].next - 1
    {
      freeCount := freeCount - 1;
      if !purging {
        if freeCount == 0 {
          lastFreePlusOne, firstFree := 0, 0;
        } else {
          firstFree := if slots[i].next == 0 then i + 1 else slots[i].next - 1;
        }
      }
    }

    /** The last part of AllocHandle: the chosen slot leaves the free list and is filled in. */
    method Occupy(i: nat, data: nat, typ: nat, flags: Flags, ghost rest: seq<nat>)
      requires Bare() && freeCount > 0 && i < |slots| && OneLess(g.free, i, rest) && |rest| == |g.free| - 1
      requires !purging ==> i == firstFree && rest == g.free[1..]
      requires purging ==> firstFree == 0
      requires typ != TYPE_NONE && firstBatchPlusOne == batchHead
      modifies this`slots, this`freeCount, this`firstFree, this`lastFreePlusOne, this`firstBatchPlusOne
      modifies this`g, this`batchHead
      ensures Bare() && firstBatchPlusOne == batchHead && (purging ==> firstFree == 0)
      ensures |slots| == |old(slots)| && slots == old(slots)[i := slots[i]] && NewHandle(slots[i], i, batchSize != 0)
      ensures slots[i].data == data && slots[i].typ == typ && slots[i].flags == flags
      ensures |old(g.depth)| == |slots| == |old(g.kids)| && old(g.kids)[i] == []
      ensures g == Taken(old(g), i, rest, batchSize != 0)
      ensures freeCount == old(freeCount) - 1 && |g.batch| == |old(g.batch)| + if batchSize != 0 then 1 else 0
    {
      hide Core, Lists, Represents, OneLess, Taken, TakenHeader;
      hide Table.Valid, Table.Buckets;
      ghost var s, sh, hd := slots, g, Hdr();
      LeaveFreeList(i);
      var slot := Slot(typ, data, 0, false, false, flags, Links(i, i, i + 1), Links(i, i, NULL));
      if batchSize != 0 {
        slot := slot.(next := firstBatchPlusOne, batched := true);
        firstBatchPlusOne := i + 1;
      }
      slots := slots[i := slot];
      TakeKeepsCore(s, sh, i, slot, rest, batchSize != 0);
      g := Taken(sh, i, rest, batchSize != 0);
      batchHead := firstBatchPlusOne;
      TakeKeepsLists(s, sh, hd, i, slot, rest);
      TakenIsTaken(s, hd, i, Hdr());
    }

    // ---------------------------------------------------------------- the calls of the interface

    /** PVRSRVAllocHandle: a new handle without parent, or the existing one when both are SHARED.
        In a batch, a failure is counted, in 32 bits. */
    method Alloc(data: nat, typ: nat, flags: Flags, memOk: bool, bucketOk: bool) returns (e: Error, h: nat)
      requires Valid() && typ != TYPE_NONE
      modifies this`slots, this`freeCount, this`firstFree, this`lastFreePlusOne, this`firstBatchPlusOne
      modifies this`batchAllocFailures, this`g, this`index, this`batchHead, hash`table, hash`count, hash.table
      ensures e != OK ==> h == NULL
      ensures Valid() && (hash.table == old(hash.table) || fresh(hash.table))
      ensures var x := Found(old(View()), Key(data, typ, NULL));
              !flags.multi && x != NULL ==>
                && View() == old(View())
                && if flags.shared && old(View())[x].flags.shared then e == OK && h == x else e == GENERIC
      ensures flags.multi || Found(old(View()), Key(data, typ, NULL)) == NULL ==>
                && (e == OK <==>
                      (old(freeCount) > 0 || (|old(slots)| < maxIndexPlusOne && memOk)) && (flags.multi || bucketOk))
                && (e == OK ==> h != NULL && h !in old(View()))
                && View() == if e == OK then old(View())[h := Entry(data, typ, flags, NULL, batchSize != 0)]
                             else old(View())
      ensures batchAllocFailures ==
                if batchSize != 0 && e != OK then (old(batchAllocFailures) + 1) % U32_SIZE else old(batchAllocFailures)
      ensures Spent(old(freeCount), |old(g.batch)|, freeCount, |g.batch|, e == OK && h !in old(View()), batchSize != 0)
    {
      hide Core, Lists, Index, Represents, BatchClosed, HandlesOf, Found, ViewOf;
      hide Table.Valid, Table.Buckets;
      if batchSize != 0 {
        batchAllocFailures := (batchAllocFailures + 1) % U32_SIZE;
      }
      assert View() == old(View());
      e, h := ShareOrAlloc(data, typ, flags, memOk, bucketOk);
      if batchSize != 0 && e == OK {
        batchAllocFailures := (batchAllocFailures + U32_SIZE - 1) % U32_SIZE;
      }
    }

    method ShareOrAlloc(data: nat, typ: nat, flags: Flags, memOk: bool, bucketOk: bool) returns (e: Error, h: nat)
      requires Valid() && typ != TYPE_NONE
      modifies this`slots, this`freeCount, this`firstFree, this`lastFreePlusOne, this`firstBatchPlusOne
      modifies this`g, this`index, this`batchHead, hash`table, hash`count, hash.table
      ensures e != OK ==> h == NULL
      ensures Valid() && (hash.table == old(hash.table) || fresh(hash.table))
      ensures var x := Found(old(View()), Key(data, typ, NULL));
              !flags.multi && x != NULL ==>
                && View() == old(View())
                && if flags.shared && old(View())[x].flags.shared then e == OK && h == x else e == GENERIC
      ensures flags.multi || Found(old(View()), Key(data, typ, NULL)) == NULL ==>
                && (e == OK <==>
                      (old(freeCount) > 0 || (|old(slots)| < maxIndexPlusOne && memOk)) && (flags.multi || bucketOk))
                && (e == OK ==> h != NULL && h !in old(View()))
                && View() == if e == OK then old(View())[h := Entry(data, typ, flags, NULL, batchSize != 0)]
                             else old(View())
      ensures Spent(old(freeCount), |old(g.batch)|, freeCount, |g.batch|, e == OK && h !in old(View()), batchSize != 0)
    {
      hide Core, Lists, Index, Represents, BatchClosed, HandlesOf, Found, ViewOf;
      hide Table.Valid, Table.Buckets;
      if !flags.multi {
        var found := FindHandle(data, typ, NULL);
        if found != NULL {
          var eFound, i := GetHandleStructure(found, typ);
          EntryAt(slots, g.live, found);
          var share := slots[i].flags.shared && flags.shared;
          return if share then OK else GENERIC, if share then found else NULL;
        }
      }
      e, h := AllocRoot(data, typ, flags, memOk, bucketOk);
    }

    method AllocRoot(data: nat, typ: nat, flags: Flags, memOk: bool, bucketOk: bool) returns (e: Error, h: nat)
      requires Valid() && typ != TYPE_NONE
      requires flags.multi || Key(data, typ, NULL) !in index
      modifies this`slots, this`freeCount, this`firstFree, this`lastFreePlusOne, this`firstBatchPlusOne
      modifies this`g, this`index, this`batchHead, hash`table, hash`count, hash.table
      ensures e != OK ==> h == NULL
      ensures Valid() && (hash.table == old(hash.table) || fresh(hash.table))
      ensures e == OK <==>
                (old(freeCount) > 0 || (|old(slots)| < maxIndexPlusOne && memOk)) && (flags.multi || bucketOk)
      ensures e == OK ==> h != NULL && h !in old(View())
      ensures View() == if e == OK then old(View())[h := Entry(data, typ, flags, NULL, batchSize != 0)] else old(View())
      ensures Spent(old(freeCount), |old(g.batch)|, freeCount, |g.batch|, e == OK, batchSize != 0)
    {
      hide Core, Lists, Index, Represents, Added, BatchClosed, HandlesOf, ViewOf;
      hide Table.Valid, Table.Buckets;
      ghost var s0, g0, index0, batched := slots, g, index, batchSize != 0;
      e, h := AllocHandle(data, typ, flags, NULL, memOk, bucketOk);
      if e == OK {
        AddedView(s0, g0, slots, g, h - 1, batched);
        AddedStaysClosed(s0, g0, slots, g, h - 1, batched);
        AddedIndex(s0, g0, index0, slots, g, h - 1, batched, slots, NULL);
      }
    }

    /** PVRSRVAllocSubHandle: a new child of a live handle, or the existing one when both are
        SHARED and it is a child of that same handle. */
    method AllocSub(data: nat, typ: nat, flags: Flags, parent: nat, memOk: bool, bucketOk: bool)
      returns (e: Error, h: nat)
      requires Valid() && typ != TYPE_NONE && parent < U32_SIZE
      modifies this`slots, this`freeCount, this`firstFree, this`lastFreePlusOne, this`firstBatchPlusOne
      modifies this`batchAllocFailures, this`g, this`index, this`batchHead, hash`table, hash`count, hash.table
      ensures e != OK ==> h == NULL
      ensures Valid() && (hash.table == old(hash.table) || fresh(hash.table))
      ensures parent !in old(View()) ==> e == GENERIC && View() == old(View())
      ensures var x := Found(old(View()), Key(data, typ, if flags.privat then parent else NULL));
              parent in old(View()) && !flags.multi && x != NULL ==>
                && View() == old(View())
                && if flags.shared && old(View())[x].flags.shared && old(View())[x].parent == parent
                   then e == OK && h == x else e == GENERIC
      ensures var x := Found(old(View()), Key(data, typ, if flags.privat then parent else NULL));
              parent in old(View()) && (flags.multi || x == NULL) ==>
                && (e == OK <==>
                      (old(freeCount) > 0 || (|old(slots)| < maxIndexPlusOne && memOk)) && (flags.multi || bucketOk))
                && (e == OK ==> h != NULL && h !in old(View()))
                && View() == if e == OK then old(View())[h := Entry(data, typ, flags, parent, batchSize != 0)]
                             else old(View())
      ensures batchAllocFailures ==
                if batchSize != 0 && e != OK then (old(batchAllocFailures) + 1) % U32_SIZE else old(batchAllocFailures)
      ensures Spent(old(freeCount), |old(g.batch)|, freeCount, |g.batch|, e == OK && h !in old(View()), batchSize != 0)
    {
      hide Core, Lists, Index, Represents, BatchClosed, HandlesOf, Found, ViewOf;
      hide Table.Valid, Table.Buckets;
      if batchSize != 0 {
        batchAllocFailures := (batchAllocFailures + 1) % U32_SIZE;
      }
      assert View() == old(View());
      e, h := ShareOrAllocSub(data, typ, flags, parent, memOk, bucketOk);
      if batchSize != 0 && e == OK {
        batchAllocFailures := (batchAllocFailures + U32_SIZE - 1) % U32_SIZE;
      }
    }

    method ShareOrAllocSub(data: nat, typ: nat, flags: Flags, parent: nat, memOk: bool, bucketOk: bool)
      returns (e: Error, h: nat)
      requires Valid() && typ != TYPE_NONE && parent < U32_SIZE
      modifies this`slots, this`freeCount, this`firstFree, this`lastFreePlusOne, this`firstBatchPlusOne
      modifies this`g, this`index, this`batchHead, hash`table, hash`count, hash.table
      ensures e != OK ==> h == NULL
      ensures Valid() && (hash.table == old(hash.table) || fresh(hash.table))
      ensures parent !in old(View()) ==> e == GENERIC && View() == old(View())
      ensures var x := Found(old(View()), Key(data, typ, if flags.privat then parent else NULL));
              parent in old(View()) && !flags.multi && x != NULL ==>
                && View() == old(View())
                && if flags.shared && old(View())[x].flags.shared && old(View())[x].parent == parent
                   then e == OK && h == x else e == GENERIC
      ensures var x := Found(old(View()), Key(data, typ, if flags.privat then parent else NULL));
              parent in old(View()) && (flags.multi || x == NULL) ==>
                && (e == OK <==>
                      (old(freeCount) > 0 || (|old(slots)| < maxIndexPlusOne && memOk)) && (flags.multi || bucketOk))
                && (e == OK ==> h != NULL && h !in old(View()))
                && View() == if e == OK then old(View())[h := Entry(data, typ, flags, parent, batchSize != 0)]
                             else old(View())
      ensures Spent(old(freeCount), |old(g.batch)|, freeCount, |g.batch|, e == OK && h !in old(View()), batchSize != 0)
    {
      hide Core, Lists, Index, Represents, BatchClosed, HandlesOf, Found, ViewOf;
      hide Table.Valid, Table.Buckets;
      var parentKey := if flags.privat then parent else NULL;
      var p;
      e, p := GetHandleStructure(parent, TYPE_NONE);
      if e != OK {
        return GENERIC, NULL;
      }
      if !flags.multi {
        var found := FindHandle(data, typ, parentKey);
        if found != NULL {
          var eFound, i := GetHandleStructure(found, typ);
          EntryAt(slots, g.live, found);
          var ours := slots[i].flags.shared && flags.shared && slots[i].siblings.parent == parent;
          return if ours then OK else GENERIC, if ours then found else NULL;
        }
      }
      e, h := AllocAndAdopt(data, typ, flags, p, memOk, bucketOk);
    }

    /** The last part of PVRSRVAllocSubHandle: allocates and links to the parent in slot p. */
    method AllocAndAdopt(data: nat, typ: nat, flags: Flags, p: nat, memOk: bool, bucketOk: bool)
      returns (e: Error, h: nat)
      requires Valid() && typ != TYPE_NONE && p in g.live && p < |slots|
      requires flags.multi || Key(data, typ, if flags.privat then p + 1 else NULL) !in index
      modifies this`slots, this`freeCount, this`firstFree, this`lastFreePlusOne, this`firstBatchPlusOne
      modifies this`g, this`index, this`batchHead, hash`table, hash`count, hash.table
      ensures e != OK ==> h == NULL
      ensures Valid() && (hash.table == old(hash.table) || fresh(hash.table))
      ensures e == OK <==>
                (old(freeCount) > 0 || (|old(slots)| < maxIndexPlusOne && memOk)) && (flags.multi || bucketOk)
      ensures e == OK ==> h != NULL && h !in old(View())
      ensures View() == if e == OK then old(View())[h := Entry(data, typ, flags, p + 1, batchSize != 0)]
                        else old(View())
      ensures Spent(old(freeCount), |old(g.batch)|, freeCount, |g.batch|, e == OK, batchSize != 0)
    {
      hide Core, Lists, Index, Represents, Added, BatchClosed, HandlesOf, ViewOf, Found;
      hide Table.Valid, Table.Buckets;
      ghost var s0, g0, index0 := slots, g, index;
      e, h := AllocHandle(data, typ, flags, if flags.privat then p + 1 else NULL, memOk, bucketOk);
      if e == OK {
        AdoptNew(p, h - 1, s0, g0, index0);
      }
    }

    /** Links the handle just allocated in slot c to its parent in slot p. */
    method AdoptNew(p: nat, c: nat, ghost s0: seq<Slot>, ghost g0: Shape, ghost index0: map<Key, nat>)
      requires Bare() && Added(s0, g0, slots, g, c, batchSize != 0)
      requires Core(s0, g0) && g0.limbo == {} && p in g0.live && Index(s0, g0.live, index0) && BatchClosed(s0, g0)
      requires slots[c].flags.multi ==> index == index0
      requires var k := Key(slots[c].data, slots[c].typ, if slots[c].flags.privat then p + 1 else NULL);
               !slots[c].flags.multi ==> k !in index0 && index == index0[k := c + 1]
      modifies this`slots, this`g
      ensures Inv() && g.limbo == {} && BatchClosed(slots, g)
      ensures View() == ViewOf(s0, g0.live)[c + 1 := EntryOf(old(slots)[c]).(parent := p + 1)]
      ensures EntryOf(old(slots)[c]).batched == (batchSize != 0)
      ensures |g.batch| == |old(g.batch)|
    {
      hide Core, Lists, Index, Represents, Added, BatchClosed, HandlesOf, ViewOf, Adopted, WithChild;
      hide Table.Valid, Table.Buckets;
      ghost var s, sh := slots, g;
      AddedView(s0, g0, s, sh, c, batchSize != 0);
      AddedStaysClosed(s0, g0, s, sh, c, batchSize != 0);
      AdoptAdded(s0, g0, index0, s, sh, Hdr(), p, c, batchSize != 0);
      ReadyToAdopt(s0, g0, s, sh, p, c, batchSize != 0);
      AdoptChild(p, c);
      g := WithChild(sh, p, c);
    }

    /** AdoptChild, that is HandleListInsertBefore on the ring of the parent: a handle without parent
        and children becomes the last child, and the handles still form a forest. */
    method AdoptChild(p: nat, c: nat)
      requires Forest(slots, g) && p < |slots| && c < |slots| && p in g.live && c in g.live && p != c
      requires slots[c].siblings.parent == NULL && g.kids[c] == []
      modifies this`slots
      ensures Forest(slots, WithChild(g, p, c))
      ensures old(slots)[p].children.prev < |old(slots)| && slots == Adopted(old(slots), p, c)
    {
      AdoptKeepsForest(slots, g, p, c);
      hide Forest, WithChild;
      var last := slots[p].children.prev;
      slots := slots[c := slots[c].(siblings := slots[c].siblings.(prev := last))];
      slots := slots[p := slots[p].(children := slots[p].children.(prev := c))];
      slots := slots[c := slots[c].(siblings := slots[c].siblings.(next := p))];
      slots := Put(slots, p, last, At(slots, p, last).(next := c));
      slots := slots[c := slots[c].(siblings := slots[c].siblings.(parent := p + 1))];
    }

    // ---------------------------------------------------------------- looking up

    /** PVRSRVLookupHandleAnyType */
    method LookupAnyType(h: nat) returns (e: Error, data: nat, typ: nat)
      requires Valid() && h < U32_SIZE
      ensures e == OK <==> h in View()
      ensures e == OK ==> data == View()[h].data && typ == View()[h].typ
    {
      hide Lists, Index, Represents, Table.Valid, Table.Buckets, BatchClosed;
      var i;
      e, i := GetHandleStructure(h, TYPE_NONE);
      if e != OK {
        return e, 0, TYPE_NONE;
      }
      return OK, slots[i].data, slots[i].typ;
    }

    /** PVRSRVLookupHandle */
    method Lookup(h: nat, typ: nat) returns (e: Error, data: nat)
      requires Valid() && h < U32_SIZE && typ != TYPE_NONE
      ensures e == OK <==> h in View() && View()[h].typ == typ
      ensures e == OK ==> data == View()[h].data
    {
      hide Lists, Index, Represents, Table.Valid, Table.Buckets, BatchClosed;
      var i;
      e, i := GetHandleStructure(h, typ);
      if e != OK {
        return e, 0;
      }
      return OK, slots[i].data;
    }

    /** PVRSRVGetParentHandle */
    method GetParent(h: nat, typ: nat) returns (e: Error, parent: nat)
      requires Valid() && h < U32_SIZE && typ != TYPE_NONE
      ensures e == OK <==> h in View() && View()[h].typ == typ
      ensures e == OK ==> parent == View()[h].parent && (parent != NULL ==> parent in View())
    {
      hide Lists, Index, Represents, Table.Valid, Table.Buckets, BatchClosed;
      var i;
      e, i := GetHandleStructure(h, typ);
      if e != OK {
        return e, NULL;
      }
      parent := slots[i].siblings.parent;
      if parent != NULL {
        ParentIsUsed(slots, g, i);
      }
    }

    /** PVRSRVLookupSubHandle: the handle must have the type and descend from the given ancestor;
        NULL is everyone's ancestor. */
    method LookupSub(h: nat, typ: nat, ancestor: nat) returns (e: Error, data: nat)
      requires Valid() && h < U32_SIZE && typ != TYPE_NONE
      ensures e == OK <==>
                h in View() && View()[h].typ == typ && (ancestor == NULL || StrictlyBelow(View(), h, ancestor))
      ensures e == OK ==> data == View()[h].data
    {
      hide Lists, Index, Represents, Table.Valid, Table.Buckets, BatchClosed;
      var i;
      e, i := GetHandleStructure(h, typ);
      if e != OK {
        return e, 0;
      }
      var p := i;
      while slots[p].siblings.parent != ancestor
        invariant p in g.live && p < |slots|
        invariant StrictlyBelow(View(), h, ancestor) <==> StrictlyBelow(View(), p + 1, ancestor)
        decreases if p < |g.depth| then g.depth[p] else 0
      {
        StepUp(slots, g, p, ancestor);
        e, p := GetHandleStructure(slots[p].siblings.parent, TYPE_NONE);
        if e != OK {
          return GENERIC, 0;
        }
      }
      if ancestor != NULL {
        ParentIsUsed(slots, g, p);
        BelowSelf(View(), ancestor);
      }
      return OK, slots[i].data;
    }

    // ---------------------------------------------------------------- releasing

    /** PVRSRVReleaseHandle: the handle goes with all its descendants, and nothing else does. */
    method Release(h: nat, typ: nat) returns (e: Error)
      requires Valid() && h < U32_SIZE && typ != TYPE_NONE
      modifies this`slots, this`freeCount, this`firstFree, this`lastFreePlusOne, this`g, this`index
      modifies hash`table, hash`count, hash.table
      ensures Valid() && (hash.table == old(hash.table) || fresh(hash.table))
      ensures e == OK <==> h in old(View()) && old(View())[h].typ == typ
      ensures View() == if e == OK then old(View()) - Subtree(old(View()), h) else old(View())
      ensures freeCount >= old(freeCount) && g.batch == old(g.batch)
    {
      hide Core, Lists, Index, Represents, BatchClosed, Subtree;
      hide Table.Valid, Table.Buckets;
      var i;
      e, i := GetHandleStructure(h, typ);
      if e == OK {
        FreeLive(i);
      }
    }

    /** PVRSRVLookupAndReleaseHandle */
    method LookupAndRelease(h: nat, typ: nat) returns (e: Error, data: nat)
      requires Valid() && h < U32_SIZE && typ != TYPE_NONE
      modifies this`slots, this`freeCount, this`firstFree, this`lastFreePlusOne, this`g, this`index
      modifies hash`table, hash`count, hash.table
      ensures Valid() && (hash.table == old(hash.table) || fresh(hash.table))
      ensures e == OK <==> h in old(View()) && old(View())[h].typ == typ
      ensures e == OK ==> data == old(View())[h].data
      ensures View() == if e == OK then old(View()) - Subtree(old(View()), h) else old(View())
      ensures freeCount >= old(freeCount) && g.batch == old(g.batch)
    {
      hide Core, Lists, Index, Represents, BatchClosed, Subtree;
      hide Table.Valid, Table.Buckets;
      data := 0;
      var i;
      e, i := GetHandleStructure(h, typ);
      if e == OK {
        data := slots[i].data;
        FreeLive(i);
      }
    }

    /** FreeHandle between two calls of the interface. */
    method FreeLive(i: nat)
      requires Valid() && i in g.live
      modifies this`slots, this`freeCount, this`firstFree, this`lastFreePlusOne, this`g, this`index
      modifies hash`table, hash`count, hash.table
      ensures Valid() && (hash.table == old(hash.table) || fresh(hash.table))
      ensures |slots| == |old(slots)| && g.live <= old(g.live) && i !in g.live
      ensures View() == old(View()) - Subtree(old(View()), i + 1)
      ensures freeCount >= old(freeCount) && g.batch == old(g.batch)
    {
      hide Core, Lists, Index, Represents, BatchClosed, ViewOf, Subtree, Shrunk;
      hide Table.Valid, Table.Buckets;
      ghost var s, sh := slots, g;
      CountIsFree(s, sh, Hdr());
      FreeHandle(i);
      CountIsFree(slots, g, Hdr());
      FreedIsSubtree(s, sh, slots, g, i);
      FreedShrinks(s, sh, slots, g, i);
      FreedStaysClosed(s, sh, slots, g, i);
    }

    // ---------------------------------------------------------------- batches

    /** PVRSRVNewHandleBatch.  When the free slots do not suffice and slot 0 heads the free list,
        growth overwrites the list and the base is broken; otherwise it is as good as before. */
    method NewBatch(size: nat, memOk: bool) returns (e: Error)
      requires Valid() && size < U32_SIZE
      modifies this`slots, this`freeCount, this`firstFree, this`lastFreePlusOne, this`batchSize, this`g
      ensures old(batchSize) != 0 ==> e == GENERIC
      ensures old(batchSize) == 0 && size == 0 ==> e == INVALID_PARAMS
      ensures old(batchSize) == 0 && size != 0 ==>
                (e == OK <==>
                   size <= old(freeCount) || (size - old(freeCount) <= maxIndexPlusOne - |old(slots)| && memOk))
      ensures View() == old(View())
      ensures e != OK ==> Valid() && batchSize == old(batchSize)
      ensures e == OK ==> batchSize == size && size <= freeCount
      ensures e == OK && size > old(freeCount) ==>
                && freeCount < size + HANDLE_BLOCK_SIZE
                && firstFree == if old(firstFree) == 0 then |old(slots)| else old(firstFree)
      ensures e == OK ==> |slots| < |old(slots)| + size + HANDLE_BLOCK_SIZE && maxIndexPlusOne == old(maxIndexPlusOne)
      ensures e == OK && Valid() ==> g.batch == []
      ensures e == OK ==>
                (Valid() <==> !purging && (size <= old(freeCount) || old(freeCount) == 0 || old(firstFree) != 0))
      ensures e == OK && !purging && !Valid() ==>
                forall free :: !FreeChain(slots, free, freeCount, firstFree, lastFreePlusOne)
    {
      hide Core, Index, Represents, BatchClosed, ViewOf, FreeChain, GrownSlots, Grown;
      hide Table.Valid, Table.Buckets;
      if batchSize != 0 {
        return GENERIC;
      }
      if size == 0 {
        return INVALID_PARAMS;
      }
      ghost var s0, g0, h0 := slots, g, Hdr();
      e := EnsureFreeHandles(size, memOk);
      if e == OK {
        batchSize := size;
        if size > h0.freeCount {
          GrownKeepsView(s0, g0, slots, g);
          if !Overwrites(h0) {
            StillThere(s0, g0, h0, slots, g, GrownHeader(h0, |s0|, |slots|));
          }
        }
      }
    }

    /** PVRSRVHandleBatchCommitOrRelease.  Whether the batch is kept is decided by the failures
        counted; the error for a commit in vain is never returned, as the count is cleared first. */
    method CommitOrRelease(commit: bool) returns (e: Error, ghost processed: seq<nat>)
      requires Valid()
      modifies this`slots, this`freeCount, this`firstFree, this`lastFreePlusOne, this`g, this`index
      modifies this`batchSize, this`firstBatchPlusOne, this`batchAllocFailures, this`batchHead
      modifies hash`table, hash`count, hash.table
      ensures Valid() && (hash.table == old(hash.table) || fresh(hash.table))
      ensures e == if old(batchSize) == 0 then INVALID_PARAMS else OK
      ensures old(batchSize) == 0 ==> View() == old(View())
      ensures batchSize == 0 && |slots| == |old(slots)|
      ensures old(g.batch) == [] ==> freeCount == old(freeCount) && firstFree == old(firstFree)
      ensures old(batchSize) != 0 ==>
                View() == if commit && old(batchAllocFailures) == 0 then Settled(old(View()))
                          else Unbatched(old(View()))
      ensures processed == old(g.batch) && Distinct(processed)
    {
      hide Core, Lists, Index, Represents, BatchClosed, ViewOf, Releasing, Committing, Settled, Unbatched;
      hide Table.Valid, Table.Buckets;
      if batchSize == 0 {
        NoBatch();
        return INVALID_PARAMS, [];
      }
      ghost var s0, g0 := slots, g;
      var commitBatch := commit && batchAllocFailures == 0;
      OpenBatch();
      processed := WorkOff(commitBatch);
      BatchDone(s0, g0, slots, g);
      BatchIsDistinct(s0, g0);
      ClosedBatch(slots, g, Hdr());
      batchSize, firstBatchPlusOne, batchAllocFailures := 0, 0, 0;
      batchHead := 0;
      return OK, processed;
    }

    /** The loop of PVRSRVHandleBatchCommitOrRelease. */
    method WorkOff(commitBatch: bool) returns (ghost processed: seq<nat>)
      requires Inv() && g.limbo == {} && BatchClosed(slots, g) && batchHead == firstBatchPlusOne
      requires batchSize != 0 && !purging && (batchHead == 0 <==> g.batch == [])
      modifies this`slots, this`freeCount, this`firstFree, this`lastFreePlusOne, this`g, this`index, this`batchHead
      modifies hash`table, hash`count, hash.table
      ensures Inv() && g.limbo == {} && g.batch == [] && (hash.table == old(hash.table) || fresh(hash.table))
      ensures processed == old(g.batch) && |slots| == |old(slots)|
      ensures old(g.batch) == [] ==> freeCount == old(freeCount) && firstFree == old(firstFree)
      ensures if commitBatch then Committing(old(slots), old(g), slots, g) else Releasing(old(slots), old(g), slots, g)
    {
      hide Core, Lists, Index, Represents, BatchClosed, ViewOf, Releasing, Committing;
      hide Table.Valid, Table.Buckets;
      processed := [];
      ghost var s0, g0 := slots, g;
      var x := firstBatchPlusOne;
      ReleasingStarts(slots, g);
      while x != 0
        invariant Inv() && g.limbo == {} && batchHead == x
        invariant hash.table == old(hash.table) || fresh(hash.table)
        invariant processed + g.batch == g0.batch && (x == 0 <==> g.batch == [])
        invariant |slots| == |s0|
        invariant g0.batch == [] ==> freeCount == old(freeCount) && firstFree == old(firstFree)
        invariant if commitBatch then Committing(s0, g0, slots, g) else Releasing(s0, g0, slots, g)
        decreases |g.batch|
      {
        ghost var rest := g.batch;
        x := ProcessBatched(x, commitBatch, s0, g0);
        processed := processed + [rest[0]];
        assert rest == [rest[0]] + rest[1..];
      }
    }

    /** One round of the loop of PVRSRVHandleBatchCommitOrRelease, on the slot x stands for. */
    method ProcessBatched(x: nat, commitBatch: bool, ghost s0: seq<Slot>, ghost g0: Shape) returns (next: nat)
      requires Inv() && g.limbo == {} && batchHead == x && x != 0 && g.batch != []
      requires Core(s0, g0) && BatchClosed(s0, g0)
      requires if commitBatch then Committing(s0, g0, slots, g) else Releasing(s0, g0, slots, g)
      modifies this`slots, this`freeCount, this`firstFree, this`lastFreePlusOne, this`g, this`index, this`batchHead
      modifies hash`table, hash`count, hash.table
      ensures Inv() && g.limbo == {} && (hash.table == old(hash.table) || fresh(hash.table))
      ensures batchHead == next && g.batch == old(g.batch)[1..] && (next == 0 <==> g.batch == [])
      ensures old(g.batch)[0] == x - 1 && |slots| == |old(slots)|
      ensures if commitBatch then Committing(s0, g0, slots, g) else Releasing(s0, g0, slots, g)
    {
      hide Core, Lists, Index, Represents, BatchClosed, ViewOf, Releasing, Committing, SameKeys;
      hide Table.Valid, Table.Buckets;
      ghost var s, sh := slots, g;
      PopKeepsCore(s, sh);
      PopKeepsLists(s, sh, Hdr());
      PopKeepsKeys(s, sh);
      var i := x - 1;
      next := slots[i].next;
      slots := slots[i := slots[i].(next := 0)];
      var frees := !commitBatch || slots[i].partial;
      if frees {
        if !slots[i].partial {
          slots := slots[i := slots[i].(batched := false)];
        }
      } else {
        slots := slots[i := slots[i].(batched := false)];
      }
      assert slots == PopSlots(s, sh);
      g, batchHead := PopShape(sh), next;
      IndexFrame(s, slots, g.live, index);
      if frees {
        FreeHandle(i);
        FreedShrinks(PopSlots(s, sh), PopShape(sh), slots, g, i);
        if i in sh.live {
          ReleasingStep(s0, g0, s, sh, slots, g);
        } else {
          ZombieStep(s0, g0, s, sh, slots, g);
        }
      } else {
        CommittingStep(s0, g0, s, sh);
      }
    }

    lemma OpenBatch()
      requires Valid() && batchSize != 0
      ensures !purging && (batchHead == 0 <==> g.batch == [])
    {}

    lemma NoBatch()
      requires Valid() && batchSize == 0
      ensures g.batch == []
    {}

    // ---------------------------------------------------------------- limits, purging, tear-down

    /** PVRSRVSetMaxHandle */
    method SetMax(max: nat) returns (e: Error)
      requires Valid()
      modifies this`maxIndexPlusOne
      ensures Valid() && View() == old(View())
      ensures e == OK <==> batchSize == 0 && 0 < max <= DEFAULT_MAX_INDEX_PLUS_ONE && |slots| == 0
      ensures e == OK || e == INVALID_PARAMS
      ensures maxIndexPlusOne == if e == OK then max else old(maxIndexPlusOne)
    {
      if batchSize != 0 {
        return INVALID_PARAMS;
      }
      if max == 0 || max > DEFAULT_MAX_INDEX_PLUS_ONE {
        return INVALID_PARAMS;
      }
      if |slots| != 0 {
        return INVALID_PARAMS;
      }
      maxIndexPlusOne := max;
      return OK;
    }

    /** PVRSRVEnableHandlePurging.  Batches and purging are not combined. */
    method EnablePurging() returns (e: Error)
      requires Valid()
      modifies this`purging
      ensures Valid() <==> e != OK || old(purging) || batchSize == 0
      ensures View() == old(View())
      ensures e == OK <==> old(purging) || |slots| == 0
      ensures purging == (old(purging) || e == OK)
    {
      if purging {
        return OK;
      }
      if |slots| != 0 {
        return INVALID_PARAMS;
      }
      NothingFree();
      purging := true;
      return OK;
    }

    lemma NothingFree()
      requires Inv() && |slots| == 0
      ensures g.free == [] && g.batch == []
    {
      DistinctFits(g.free, 0);
      DistinctFits(g.batch, 0);
    }

    /** PVRSRVPurgeHandles: cuts off the free end of the array, in whole blocks, if that at least
        halves it.  Every live handle stays. */
    method Purge(memOk: bool) returns (e: Error)
      requires Valid()
      modifies this`slots, this`freeCount, this`firstFree, this`g
      ensures Valid() && View() == old(View())
      ensures !purging ==> e == NOT_SUPPORTED
      ensures purging ==>
                var n, total := InBlocks(Used(old(g.live), |old(slots)|)), |old(slots)|;
                e == if n <= total / 2 && n != 0 && !memOk then OUT_OF_MEMORY else OK
      ensures |slots| == if purging && e == OK && InBlocks(Used(old(g.live), |old(slots)|)) <= |old(slots)| / 2
                         then InBlocks(Used(old(g.live), |old(slots)|)) else |old(slots)|
      ensures |old(slots)| - |slots| == old(freeCount) - freeCount
    {
      if !purging {
        return NOT_SUPPORTED;
      }
      if batchSize != 0 {
        return INVALID_PARAMS;
      }
      var handle := |slots|;
      while handle != 0
        invariant 0 <= handle <= |slots| && Used(g.live, |slots|) == Used(g.live, handle)
        invariant forall x: nat :: handle <= x < |slots| ==> x in g.free
      {
        ghost var x: nat := handle - 1;
        assert MarkOk(slots, g, x);
        var s := slots[handle - 1];
        if !(s.typ == TYPE_NONE && !s.batched && !s.partial) {
          break;
        }
        handle := handle - 1;
      }
      assert Used(g.live, handle) == handle by {
        if handle > 0 {
          ghost var x: nat := handle - 1;
          assert MarkOk(slots, g, x);
        }
      }
      BlocksIn32Bits(handle, |slots|);
      var newCount := ((handle + HANDLE_BLOCK_SIZE - 1) % U32_SIZE / HANDLE_BLOCK_SIZE) * HANDLE_BLOCK_SIZE;
      if newCount >= handle && newCount <= |slots| / 2 {
        if newCount != 0 && newCount != |slots| && !memOk {
          return OUT_OF_MEMORY;
        }
        CutTo(newCount);
      }
      return OK;
    }

    /** The array moved to smaller memory. */
    lemma BlocksIn32Bits(handle: nat, total: nat)
      requires handle <= total < U32_SIZE
      ensures var n := ((handle + HANDLE_BLOCK_SIZE - 1) % U32_SIZE / HANDLE_BLOCK_SIZE) * HANDLE_BLOCK_SIZE;
              && (n >= handle && n <= total / 2 <==> InBlocks(handle) <= total / 2)
              && (n >= handle && n <= total / 2 ==> n == InBlocks(handle))
    {}

    method CutTo(newCount: nat)
      requires Valid() && purging && newCount <= |slots|
      requires forall x: nat :: newCount <= x < |slots| ==> x in g.free
      modifies this`slots, this`freeCount, this`firstFree, this`g
      ensures Valid() && View() == old(View())
      ensures |slots| == newCount && |old(slots)| - |slots| == old(freeCount) - freeCount
    {
      ShapeFits(slots, g);
      hide Core, Lists, Cut, Index, Represents, BatchClosed, ViewOf;
      hide Table.Valid, Table.Buckets;
      ghost var s, sh := slots, g;
      CutKeepsLists(s, sh, Hdr(), newCount);
      CutKeepsCore(s, sh, newCount);
      CutKeepsRest(s, sh, newCount, index);
      freeCount := freeCount - (|slots| - newCount);
      slots := slots[..newCount];
      firstFree := 0;
      g := Cut(sh, newCount);
    }

    /** FreeHandleBase: an open batch is released, every handle freed, and the hash table deleted
        empty, as HASH_Delete asserts. */
    method FreeBase()
      requires Valid()
      modifies this`slots, this`freeCount, this`firstFree, this`lastFreePlusOne, this`g, this`index
      modifies this`batchSize, this`firstBatchPlusOne, this`batchAllocFailures, this`batchHead
      modifies hash`table, hash`count, hash.table
      ensures Valid() && View() == map[] && batchSize == 0
      ensures hash.count == 0 && hash.Buckets() == multiset{}
    {
      if batchSize != 0 {
        var _, _ := CommitOrRelease(false);
      }
      FreeAllHandles();
      IndexIsEmpty();
    }

    /** FreeAllHandles */
    method FreeAllHandles()
      requires Valid() && batchSize == 0
      modifies this`slots, this`freeCount, this`firstFree, this`lastFreePlusOne, this`g, this`index
      modifies hash`table, hash`count, hash.table
      ensures Valid() && g.live == {} && (hash.table == old(hash.table) || fresh(hash.table))
    {
      hide Lists, Index, Represents, Table.Valid, Table.Buckets, BatchClosed, ViewOf, Subtree;
      if freeCount == |slots| {
        AllSlotsFree();
        return;
      }
      var i := 0;
      while i < |slots|
        invariant Valid() && i <= |slots| == |old(slots)|
        invariant hash.table == old(hash.table) || fresh(hash.table)
        invariant forall x :: x in g.live ==> x >= i
      {
        assert MarkOk(slots, g, i);
        if slots[i].typ != TYPE_NONE {
          FreeLive(i);
          if freeCount == |slots| {
            AllSlotsFree();
            return;
          }
        }
        i := i + 1;
      }
      LiveInRange();
    }

    lemma AllSlotsFree()
      requires Valid() && freeCount == |slots|
      ensures g.live == {}
    {
      forall i | i in g.live
        ensures false
      {
        AllFree(g.free, |slots|, i);
      }
    }

    lemma IndexIsEmpty()
      requires Valid() && g.live == {}
      ensures View() == map[] && hash.Buckets() == multiset{} && hash.count == 0
    {
      forall k
        ensures k !in index
      {
        assert k in index ==> Binds(slots, g.live, k, index[k]);
      }
      forall b
        ensures b !in hash.Buckets()
      {
        assert hash.Buckets()[Bucket(b.k, b.v)] == 0;
      }
      assert View() == map[];
    }

    // ---------------------------------------------------------------- what holds in every state

    /** Following the free list from its head, a link of 0 meaning the very next slot, visits
        exactly the free slots, each once, in as many steps as counted, and ends at the last one;
        no slot on the batch list, which is threaded through the same field, is among them. */
    lemma FreeListIsExact()
      requires Valid() && !purging
      ensures var walk := FreeWalk(slots, firstFree, freeCount);
              var batch := BatchWalk(slots, firstBatchPlusOne, |slots|);
              && |walk| == freeCount && Distinct(walk) && Distinct(batch)
              && (walk != [] ==> walk[|walk| - 1] + 1 == lastFreePlusOne)
              && (forall x: nat :: x < |slots| ==> (x in walk <==> slots[x].typ == TYPE_NONE && x !in batch))
              && (forall x: nat :: x in walk || x in batch ==> x < |slots|)
              && (forall x: nat :: x < |slots| && x in batch ==> slots[x].batched)
    {
      hide Index, Represents, Table.Valid, Table.Buckets, BatchClosed, Core, Lists, FreeWalk, BatchWalk;
      WalksAre(slots, g, Hdr());
      forall x: nat | x < |slots|
        ensures x in g.free <==> slots[x].typ == TYPE_NONE && x !in g.batch
        ensures x in g.batch ==> slots[x].batched
      {
        MarkedSlot(slots, g, x);
      }
    }

    /** The free count is the number of slots that no live handle and no batch uses. */
    lemma FreeCountIsExact()
      requires Valid()
      ensures freeCount == |set x: nat | x < |slots| && x + 1 !in View() && x !in g.batch|
    {
      hide Core, Index, Represents, Table.Valid, Table.Buckets, BatchClosed, ViewOf;
      FreeSlotsAre(slots, g);
    }

    /** No two handles stand for the same key, and the hash table finds the one that does. */
    lemma KeysAreUnique(k: Key, h: nat, h': nat)
      requires Valid() && Stands(View(), k, h) && Stands(View(), k, h')
      ensures h == h' && HasKey(hash.Buckets(), k) && Bucket(k, h) in hash.Buckets()
    {
      LiveInRange();
      StandsUnique(slots, g.live, index, k, h, h');
      IndexFinds(slots, g.live, index, k, h);
      HasKeyIffInMap(hash.Buckets(), index, k);
    }

    /** Every way up ends: parents are live, and no handle descends from itself. */
    lemma HandlesFormForest(h: nat)
      requires Valid() && h in View()
      ensures View()[h].parent == NULL || View()[h].parent in View()
      ensures !StrictlyBelow(View(), h, h)
    {
      hide Lists, Index, Represents, Table.Valid, Table.Buckets, BatchClosed;
      var v := View();
      if v[h].parent != NULL {
        ParentIsUsed(slots, g, h - 1);
      }
      if StrictlyBelow(v, h, h) {
        var p :| IsPath(v, p, v[h].parent, h);
        DepthGrows(slots, g, p);
        DepthGrows(slots, g, [h] + p);
      }
    }

    constructor (keyHash: Key -> nat)
      ensures Valid() && fresh(hash) && fresh(hash.table) && View() == map[]
      ensures batchSize == 0 && !purging && slots == [] && freeCount == 0 && firstFree == 0
      ensures maxIndexPlusOne == DEFAULT_MAX_INDEX_PLUS_ONE
    {
      hash := new Table(32, keyHash);
      slots := [];
      freeCount, firstFree, lastFreePlusOne := 0, 0, 0;
      maxIndexPlusOne := DEFAULT_MAX_INDEX_PLUS_ONE;
      batchSize, firstBatchPlusOne, batchAllocFailures, batchHead := 0, 0, 0, 0;
      purging := false;
      g := Shape({}, {}, [], [], [], [], 0);
      index := map[];
      new;
      EmptyRepresents<Key>();
    }
  }

  ghost function DepthOf(g: Shape, i: nat): nat {
    if i < |g.depth| && g.depth[i] <= g.top then g.depth[i] else g.top
  }

  /** Up to where slots are in use. */
  ghost function Used(live: set<nat>, n: nat): (top: nat)
    ensures top <= n
  {
    if n == 0 || n - 1 in live then n else Used(live, n - 1)
  }

  /** What is behind is not in use, and the last one before is. */
  lemma {:induction false} UsedIsExact(live: set<nat>, n: nat)
    ensures forall x: nat :: Used(live, n) <= x < n ==> x !in live
    ensures Used(live, n) > 0 ==> Used(live, n) - 1 in live
  {
    if n > 0 && n - 1 !in live {
      UsedIsExact(live, n - 1);
    }
  }

  /** As many slots as whole blocks need. */
  function InBlocks(n: nat): nat { (n + HANDLE_BLOCK_SIZE - 1) / HANDLE_BLOCK_SIZE * HANDLE_BLOCK_SIZE }

  /** A failed batch reports success: of two allocations one fails, the commit returns OK all the same,
      and the handle that had been given out is gone. */
  method FailedCommit(keyHash: Key -> nat) returns (b: Base, first: nat, failed: Error, committed: Error)
    ensures fresh(b) && b.Valid() && first != NULL && failed != OK && committed == OK && first !in b.View()
  {
    hide Base.Inv, Base.Bare, BatchClosed, ViewOf, Found, Unbatched, Settled, FreeChain;
    b := new Base(keyHash);
    var e := b.NewBatch(2, true);
    NoneFound(Key(7, 1, NULL));
    var flags := Flags(false, false, false);
    e, first := b.Alloc(7, 1, flags, true, true);
    OtherFound(first, Entry(7, 1, flags, NULL, true), Key(8, 1, NULL));
    var h;
    failed, h := b.Alloc(8, 1, flags, true, false);
    ghost var processed;
    committed, processed := b.CommitOrRelease(true);
  }

  lemma NoneFound(k: Key)
    ensures Found(map[], k) == NULL
  {}

  lemma OtherFound(h: nat, e: Entry, k: Key)
    requires KeyOfEntry(e) != k && e.batched
    ensures Found(map[h := e], k) == NULL
    ensures h !in Unbatched(map[h := e])
  {}

  /** The list that growth overwrites can be reached from a new handle base with three calls: open
      a batch, release it unused, and open one that needs more handles than the first block has. */
  method TwoBatches(keyHash: Key -> nat) returns (b: Base)
    ensures fresh(b) && b.View() == map[] && !b.Valid() && 0 < b.freeCount
    ensures forall free :: !FreeChain(b.slots, free, b.freeCount, b.firstFree, b.lastFreePlusOne)
  {
    hide Core, Index, Represents, Table.Valid, Table.Buckets, BatchClosed, ViewOf;
    b := new Base(keyHash);
    var e := b.NewBatch(5, true);
    ghost var processed;
    e, processed := b.CommitOrRelease(false);
    e := b.NewBatch(300, true);
  }

  /** The loop over the children of i: where it stands after t of them. */
  lemma NextChild(s: seq<Slot>, g: Shape, i: nat, kids: seq<nat>, t: nat)
    requires Core(s, g) && i in g.limbo && i < |g.kids| && t <= |kids| && g.kids[i] == kids[t..]
    ensures i < |s| && (t == 0 ==> s[i].children.next == Nth(i, kids, 1))
    ensures Nth(i, kids, t + 1) == i <==> t == |kids|
    ensures t < |kids| ==>
              var c := kids[t];
              && c < |s| && c in g.live && Nth(i, kids, t + 1) == c
              && s[c].siblings.next == Nth(i, kids, t + 2)
              && g.top - DepthOf(g, c) < g.top - DepthOf(g, i)
  {
    assert KidsOk(s, g, i);
    if t == 0 {
      assert kids[t..] == kids;
      assert Linked(s, i, kids, 0);
    }
    if t < |kids| {
      var c := kids[t];
      assert c == g.kids[i][0] && ChildOk(s, g, i, c);
      assert Linked(s, i, g.kids[i], 1);
      assert KidsOk(s, g, c);
    }
  }

  lemma FreedSoFar(s: seq<Slot>, g: Shape, r: seq<Slot>, g': Shape, i: nat, t: nat)
    requires FreedKids(s, g, r, g', i, t)
    ensures i < |g.kids| && i < |g'.kids| && t <= |g.kids[i]| && g'.kids[i] == g.kids[i][t..]
    ensures g'.limbo == g.limbo && g'.depth == g.depth && g'.top == g.top
  {}

  lemma UnlinkIsSound(s: seq<Slot>, g: Shape, i: nat)
    requires Core(s, g) && (i in g.live || i in g.limbo)
    ensures CanUnlink(s, i) && |g.kids| == |s|
    ensures i in g.live && s[i].siblings.parent != NULL ==>
              var p := s[i].siblings.parent - 1;
              && p < |g.kids| && i in g.kids[p] && LeftRing(s, Unlinked(s, i), p, g.kids[p], i)
              && Ring(Unlinked(s, i), p, Without(g.kids[p], i))
    ensures i in g.limbo || s[i].siblings.parent == NULL ==> Unlinked(s, i) == s
  {
    assert ParentOk(s, g, i);
    if i in g.live && s[i].siblings.parent != NULL {
      UnlinkLeavesRing(s, g, i);
    }
  }

  lemma AllKidsFreed(s: seq<Slot>, g: Shape, r: seq<Slot>, g': Shape, i: nat)
    requires i < |g.kids| && FreedKids(s, g, r, g', i, |g.kids[i]|)
    ensures i < |g'.kids| && g'.kids[i] == [] && g'.limbo == g.limbo && |r| == |s|
  {}

  // ---------------------------------------------------------------- growing, in small steps

  /** ROUND_UP_TO_MULTIPLE in 32 bits either rounds up or wraps around to 0. */
  lemma RoundedDelta(delta: nat)
    requires 0 < delta < U32_SIZE
    ensures var adj :=
              (((delta + HANDLE_BLOCK_SIZE - 1) % U32_SIZE / HANDLE_BLOCK_SIZE) * HANDLE_BLOCK_SIZE) % U32_SIZE;
            (adj == 0 && U32_SIZE < delta + HANDLE_BLOCK_SIZE) || delta <= adj < delta + HANDLE_BLOCK_SIZE
  {
    if delta + HANDLE_BLOCK_SIZE - 1 < U32_SIZE {
      var k := (delta + HANDLE_BLOCK_SIZE - 1) / HANDLE_BLOCK_SIZE;
      assert delta <= k * HANDLE_BLOCK_SIZE <= delta + HANDLE_BLOCK_SIZE - 1;
    }
  }

  /** What an allocation takes: a free handle at most, and a place on the batch list in a batch. */
  ghost predicate Spent(free0: nat, batch0: nat, free: nat, batch: nat, added: bool, batched: bool) {
    && free0 <= free + (if added then 1 else 0)
    && batch == batch0 + if added && batched then 1 else 0
  }

  lemma CountIsFree(s: seq<Slot>, g: Shape, h: Header)
    requires Lists(s, g, h)
    ensures h.freeCount == |g.free|
  {}

  lemma FreeTail(s: seq<Slot>, g: Shape, h: Header)
    requires Core(s, g) && Lists(s, g, h)
    ensures !h.purging && h.freeCount != 0 ==> 0 < h.lastFreePlusOne <= |s| && h.lastFreePlusOne - 1 in g.free
    ensures !h.purging && h.freeCount == 0 ==> h.firstFree == 0
    ensures !h.purging && h.firstFree != 0 ==> h.freeCount != 0
  {}

  lemma FreeAndBatch(s: seq<Slot>, g: Shape)
    requires Core(s, g)
    ensures Distinct(g.free)
    ensures forall j :: 0 <= j < |g.batch| ==> g.batch[j] < |s| && g.batch[j] !in g.free
  {
    forall j | 0 <= j < |g.batch|
      ensures g.batch[j] < |s| && g.batch[j] !in g.free
    {
      assert g.batch[j] in g.batch;
    }
  }

  /** The slots after the growing loop and the linking of the old tail. */
  lemma GrownIsGrown(s: seq<Slot>, g: Shape, h: Header, grown: seq<Slot>, r: seq<Slot>)
    requires |s| <= |grown| && (forall x: nat :: x < |s| ==> grown[x] == s[x])
    requires forall x: nat {:trigger grown[x]} :: |s| <= x < |grown| ==> FreshSlot(grown[x])
    requires !h.purging && h.firstFree != 0 ==> 0 < h.lastFreePlusOne <= |s| && h.lastFreePlusOne - 1 in g.free
    requires r == if h.firstFree != 0 && !h.purging
                  then grown[h.lastFreePlusOne - 1 := grown[h.lastFreePlusOne - 1].(next := |s| + 1)] else grown
    ensures GrownSlots(s, g, r) && GrownLinks(s, g, h, r)
    ensures forall x: nat {:trigger r[x]} :: |s| <= x < |r| ==> FreshSlot(r[x])
  {}

  lemma NoListIsLeft(r: seq<Slot>, from: nat, h: Header, count: nat)
    requires Overwrites(h) && from < |r| && count == h.freeCount + (|r| - from)
    requires forall x: nat {:trigger r[x]} :: from <= x < |r| ==> FreshSlot(r[x])
    ensures forall free :: !FreeChain(r, free, count, from, |r|)
  {
    forall free
      ensures !FreeChain(r, free, count, from, |r|)
    {
      OverwrittenListIsLost(r, from, h, free);
    }
  }

  lemma GrowKeepsKeys(s: seq<Slot>, g: Shape, r: seq<Slot>)
    requires Core(s, g) && GrownSlots(s, g, r)
    ensures SameKeys(s, r, g.live)
    ensures forall x: nat {:trigger r[x]} :: x in g.live ==> x < |s| && r[x] == s[x]
  {}

  lemma GrownLive(g: Shape, from: nat, to: nat)
    requires from <= to
    ensures var g' := Grown(g, from, to); g' == g.(free := g'.free, kids := g'.kids, depth := g'.depth)
  {}

  // ---------------------------------------------------------------- allocating, in small steps

  /** The live handles are where and what they were, if perhaps in a larger array. */
  ghost predicate Undisturbed(s0: seq<Slot>, g0: Shape, s: seq<Slot>, g: Shape) {
    && |s0| <= |s| && g.live == g0.live && g.limbo == g0.limbo && g.batch == g0.batch
    && forall x: nat {:trigger s[x]} {:trigger s0[x]} :: x in g0.live ==> x < |s0| && s[x] == s0[x]
  }

  lemma StillThere(s0: seq<Slot>, g0: Shape, h0: Header, s: seq<Slot>, g: Shape, h: Header)
    requires Core(s0, g0) && Core(s, g) && Lists(s0, g0, h0) && BatchClosed(s0, g0)
    requires (s == s0 && g == g0 && h == h0)
             || (|s0| < |s| && GrownSlots(s0, g0, s) && g == Grown(g0, |s0|, |s|) && h == GrownHeader(h0, |s0|, |s|))
    requires g0.limbo == {} && (h0.purging ==> h0.firstFree == 0)
    ensures Undisturbed(s0, g0, s, g) && ViewOf(s, g.live) == ViewOf(s0, g0.live) && BatchClosed(s, g)
    ensures h0.purging ==> h.firstFree == 0 || (h.firstFree < |s| && h.firstFree in g.free)
  {
    assert Undisturbed(s0, g0, s, g);
    if |s0| < |s| {
      assert g.free[|g0.free|] == |s0|;
    }
    UndisturbedView(s0, g0, s, g);
  }

  lemma UndisturbedView(s0: seq<Slot>, g0: Shape, s: seq<Slot>, g: Shape)
    requires Undisturbed(s0, g0, s, g) && Core(s0, g0) && g0.limbo == g.limbo
    requires BatchClosed(s0, g0)
    ensures ViewOf(s, g.live) == ViewOf(s0, g0.live)
    ensures g0.limbo == {} ==> BatchClosed(s, g)
  {
    var v, v0 := ViewOf(s, g.live), ViewOf(s0, g0.live);
    forall h | h in v0
      ensures h in v && v[h] == v0[h]
    {
      assert s[h - 1] == s0[h - 1];
    }
    if g0.limbo == {} {
      forall i: nat | i in g.live
        ensures BatchClosedAt(s, i)
      {
        assert s[i] == s0[i];
        assert BatchClosedAt(s0, i);
        if s0[i].siblings.parent != NULL {
          ParentIsUsed(s0, g0, i);
          assert s[s0[i].siblings.parent - 1] == s0[s0[i].siblings.parent - 1];
        }
      }
    }
  }

  /** A new handle without parent or children at slot i, the others as they were. */
  ghost predicate Added(s0: seq<Slot>, g0: Shape, s: seq<Slot>, g: Shape, i: int, batched: bool) {
    && 0 <= i < |s| && |s0| <= |s| && i !in g0.live && g.live == g0.live + {i} && g.limbo == {}
    && g.batch == (if batched then [i] + g0.batch else g0.batch)
    && |g.kids| == |s| && g.kids[i] == [] && NewHandle(s[i], i, batched)
    && forall x: nat {:trigger s[x]} {:trigger s0[x]} :: x in g0.live ==> x < |s0| && s[x] == s0[x]
  }

  lemma TakingAdds(s0: seq<Slot>, g0: Shape, s: seq<Slot>, g: Shape, i: nat, slot: Slot, rest: seq<nat>, batched: bool)
    requires Core(s0, g0) && Core(s, g) && Undisturbed(s0, g0, s, g) && g0.limbo == {}
    requires i < |s| && OneLess(g.free, i, rest) && NewHandle(slot, i, batched)
    requires |g.depth| == |s| == |g.kids| && g.kids[i] == []
    ensures Added(s0, g0, s[i := slot], Taken(g, i, rest, batched), i, batched)
    ensures i + 1 !in ViewOf(s0, g0.live)
  {}

  lemma TakenIsTaken(s: seq<Slot>, h: Header, i: nat, h': Header)
    requires i < |s| && h.freeCount > 0
    requires h' == h.(freeCount := h.freeCount - 1,
                      firstFree := if h.purging then 0 else if h.freeCount == 1 then 0 else FreeSucc(s, i) as nat,
                      lastFreePlusOne := if h.purging || h.freeCount != 1 then h.lastFreePlusOne else 0,
                      firstBatchPlusOne := if h.batchSize != 0 then i + 1 else h.firstBatchPlusOne)
    ensures h' == TakenHeader(s, h, i)
  {}

  lemma AddedView(s0: seq<Slot>, g0: Shape, s: seq<Slot>, g: Shape, i: nat, batched: bool)
    requires Core(s0, g0) && Added(s0, g0, s, g, i, batched)
    ensures ViewOf(s, g.live) == ViewOf(s0, g0.live)[i + 1 := EntryOf(s[i])]
    ensures g.limbo == {} && EntryOf(s[i]).parent == NULL && EntryOf(s[i]).batched == batched
  {
    NewEntry(s[i], i, batched);
    AddedEntry(s0, g0, s, g, i, batched, i + 1);
    assert g.limbo == {};
    hide Core, Added, EntryOf, ViewOf;
    var v, v0 := ViewOf(s, g.live), ViewOf(s0, g0.live);
    forall h: nat
      ensures h in v <==> h in v0 || h == i + 1
      ensures h in v0 ==> h in v && v[h] == v0[h]
    {
      AddedEntry(s0, g0, s, g, i, batched, h);
    }
  }

  lemma AddedEntry(s0: seq<Slot>, g0: Shape, s: seq<Slot>, g: Shape, i: nat, batched: bool, h: nat)
    requires Core(s0, g0) && Added(s0, g0, s, g, i, batched)
    ensures i + 1 !in ViewOf(s0, g0.live)
    ensures h in ViewOf(s, g.live) <==> h in ViewOf(s0, g0.live) || h == i + 1
    ensures h in ViewOf(s0, g0.live) ==> ViewOf(s, g.live)[h] == ViewOf(s0, g0.live)[h]
  {
    hide Core, NewHandle, EntryOf;
    if h in ViewOf(s0, g0.live) {
      assert s[h - 1] == s0[h - 1];
    }
  }

  /** The walks visit the free list and the batch list. */
  lemma WalksAre(s: seq<Slot>, g: Shape, h: Header)
    requires Core(s, g) && Lists(s, g, h) && !h.purging
    ensures FreeWalk(s, h.firstFree, h.freeCount) == g.free
    ensures BatchWalk(s, h.firstBatchPlusOne, |s|) == g.batch
    ensures |g.free| == h.freeCount && Distinct(g.free) && Distinct(g.batch)
    ensures g.free != [] ==> g.free[|g.free| - 1] + 1 == h.lastFreePlusOne
    ensures forall x: nat :: x in g.free || x in g.batch ==> x < |s|
  {
    hide FreeWalk, BatchWalk, FreeChain, BatchChain, Forest, Marks;
    FreeWalkIs(s, g.free, h);
    BatchWalkIs(s, g.batch, h);
  }

  lemma FreeWalkIs(s: seq<Slot>, free: seq<nat>, h: Header)
    requires FreeChain(s, free, h.freeCount, h.firstFree, h.lastFreePlusOne)
    ensures FreeWalk(s, h.firstFree, h.freeCount) == free && |free| == h.freeCount
    ensures free != [] ==> free[|free| - 1] + 1 == h.lastFreePlusOne
  {
    if free != [] {
      FreeWalkVisits(s, free, 0);
      assert free[0..] == free;
    }
  }

  lemma BatchWalkIs(s: seq<Slot>, batch: seq<nat>, h: Header)
    requires BatchChain(s, batch, h.firstBatchPlusOne)
    requires Distinct(batch) && forall x: nat :: x in batch ==> x < |s|
    ensures BatchWalk(s, h.firstBatchPlusOne, |s|) == batch
  {
    DistinctFits(batch, |s|);
    hide BatchChain, BatchWalk;
    BatchWalkVisits(s, batch, h.firstBatchPlusOne, 0, |s|);
    FirstOnBatch(s, batch, h.firstBatchPlusOne);
    assert batch[0..] == batch;
  }

  lemma FirstOnBatch(s: seq<Slot>, batch: seq<nat>, firstPlusOne: nat)
    requires BatchChain(s, batch, firstPlusOne)
    ensures firstPlusOne == PlusOneAt(batch, 0)
  {}

  lemma MarkedSlot(s: seq<Slot>, g: Shape, x: nat)
    requires Core(s, g) && g.limbo == {} && x < |s|
    ensures x in g.free <==> s[x].typ == TYPE_NONE && x !in g.batch
    ensures x in g.batch ==> s[x].batched
  {
    assert MarkOk(s, g, x);
  }

  /** The free slots, as seen from outside. */
  lemma FreeSlotsAre(s: seq<Slot>, g: Shape)
    requires Core(s, g) && g.limbo == {}
    ensures |g.free| == |set x: nat | x < |s| && x + 1 !in ViewOf(s, g.live) && x !in g.batch|
  {
    DistinctSize(g.free);
    var unused := set x: nat | x < |s| && x + 1 !in ViewOf(s, g.live) && x !in g.batch;
    hide ViewOf;
    forall x: nat
      ensures x in unused <==> x in ToSet(g.free)
    {
      if x < |s| {
        assert x + 1 in ViewOf(s, g.live) <==> x in g.live;
      }
    }
    assert unused == ToSet(g.free);
  }

  lemma NewEntry(s: Slot, i: nat, batched: bool)
    requires NewHandle(s, i, batched)
    ensures EntryOf(s).parent == NULL && EntryOf(s).batched == batched
  {}

  lemma AddedStaysClosed(s0: seq<Slot>, g0: Shape, s: seq<Slot>, g: Shape, i: nat, batched: bool)
    requires Core(s0, g0) && g0.limbo == {} && Added(s0, g0, s, g, i, batched) && BatchClosed(s0, g0)
    ensures BatchClosed(s, g)
  {
    forall x: nat | x in g.live
      ensures BatchClosedAt(s, x)
    {
      if x != i {
        assert s[x] == s0[x];
        assert BatchClosedAt(s0, x);
        if s0[x].siblings.parent != NULL {
          ParentIsUsed(s0, g0, x);
          assert s[s0[x].siblings.parent - 1] == s0[s0[x].siblings.parent - 1];
        }
      }
    }
  }

  /** The index with the new handle, whose key has the given parent once it is adopted (r). */
  lemma AddedIndex(s0: seq<Slot>, g0: Shape, index0: map<Key, nat>, s: seq<Slot>, g: Shape, i: nat, batched: bool,
                   r: seq<Slot>, parent: nat)
    requires Index(s0, g0.live, index0) && Added(s0, g0, s, g, i, batched)
    requires Core(s0, g0) && |r| == |s|
    requires forall x: nat {:trigger r[x]} :: x in g0.live ==> KeyOf(r[x]) == KeyOf(s[x]) && r[x].flags == s[x].flags
    requires r[i].flags.multi || Key(r[i].data, r[i].typ, parent) !in index0
    requires ParentIfPrivate(r[i]) == parent
    ensures Index(r, g.live,
                  if r[i].flags.multi then index0 else index0[Key(r[i].data, r[i].typ, parent) := i + 1])
  {
    forall x: nat | x in g0.live && x < |s0|
      ensures KeyOf(r[x]) == KeyOf(s0[x]) && r[x].flags == s0[x].flags
    {
      assert s[x] == s0[x];
      assert KeyOf(r[x]) == KeyOf(s[x]);
    }
    IndexAdd(s0, g0.live, index0, r, i);
  }

  lemma EntryAt(s: seq<Slot>, live: set<nat>, h: nat)
    requires h in ViewOf(s, live)
    ensures 0 < h <= |s| && ViewOf(s, live)[h] == EntryOf(s[h - 1])
  {}

  lemma ReadyToAdopt(s0: seq<Slot>, g0: Shape, s: seq<Slot>, g: Shape, p: nat, c: nat, batched: bool)
    requires Core(s, g) && Added(s0, g0, s, g, c, batched) && p in g0.live
    ensures Forest(s, g) && p < |s| && c < |s| && p in g.live && c in g.live && p != c
    ensures c < |g.kids| && s[c].siblings.parent == NULL && g.kids[c] == []
  {}

  /** Adopting the new handle c: all that holds of the base afterwards. */
  lemma AdoptAdded(s0: seq<Slot>, g0: Shape, index0: map<Key, nat>, s: seq<Slot>, g: Shape, h: Header,
                   p: nat, c: nat, batched: bool)
    requires Core(s0, g0) && g0.limbo == {} && p in g0.live && Index(s0, g0.live, index0)
    requires Added(s0, g0, s, g, c, batched) && Core(s, g) && Lists(s, g, h) && BatchClosed(s, g)
    requires batched == (h.batchSize != 0)
    requires s[c].flags.multi || Key(s[c].data, s[c].typ, if s[c].flags.privat then p + 1 else NULL) !in index0
    ensures p < |s| && c < |s| && s[p].children.prev < |s| && p < |g.kids| == |g.depth| && c < |g.depth|
    ensures var r, g' := Adopted(s, p, c), WithChild(g, p, c);
            && Core(r, g') && Lists(r, g', h) && BatchClosed(r, g') && g'.limbo == {} && g'.live == g.live
            && Index(r, g'.live,
                     if s[c].flags.multi then index0
                     else index0[Key(s[c].data, s[c].typ, if s[c].flags.privat then p + 1 else NULL) := c + 1])
            && ViewOf(r, g'.live) == ViewOf(s, g.live)[c + 1 := EntryOf(s[c]).(parent := p + 1)]
  {
    ReadyToAdopt(s0, g0, s, g, p, c, batched);
    ShapeFits(s, g);
    assert s[c].batched == batched && g.limbo == {};
    hide Core, Lists, Index, BatchClosed, Added, Adopted, WithChild, Forest;
    AdoptShape(s, g, p, c);
    AdoptKeepsRest(s, g, Adopted(s, p, c), WithChild(g, p, c), h, p, c, batched);
    AdoptedIndex(s0, g0, index0, s, g, Adopted(s, p, c), p, c, batched);
  }

  lemma AdoptShape(s: seq<Slot>, g: Shape, p: nat, c: nat)
    requires Forest(s, g) && p < |s| == |g.kids| == |g.depth| && c < |s| && p in g.live && c in g.live && p != c
    requires s[c].siblings.parent == NULL && g.kids[c] == []
    ensures s[p].children.prev < |s|
    ensures var r, g' := Adopted(s, p, c), WithChild(g, p, c);
            && |r| == |s| && Forest(r, g') && g' == g.(kids := g'.kids, depth := g'.depth, top := g'.top)
            && forall x: nat {:trigger AdoptedAt(s, r, c, p, x)} :: x < |s| ==> AdoptedAt(s, r, c, p, x)
  {
    AdoptKeepsForest(s, g, p, c);
    LastChild(s, g, p, c);
    hide Forest, AdoptedAt;
    forall x: nat | x < |s|
      ensures AdoptedAt(s, Adopted(s, p, c), c, p, x)
    {
      AdoptEffect(s, p, c, x);
    }
  }

  lemma AdoptedIndex(s0: seq<Slot>, g0: Shape, index0: map<Key, nat>, s: seq<Slot>, g: Shape, r: seq<Slot>,
                     p: nat, c: nat, batched: bool)
    requires Core(s0, g0) && Index(s0, g0.live, index0) && Added(s0, g0, s, g, c, batched)
    requires p < |s| == |r| && c < |s| && p in g0.live
    requires forall x: nat {:trigger AdoptedAt(s, r, c, p, x)} :: x < |s| ==> AdoptedAt(s, r, c, p, x)
    requires s[c].flags.multi || Key(s[c].data, s[c].typ, if s[c].flags.privat then p + 1 else NULL) !in index0
    ensures Index(r, g.live,
                  if s[c].flags.multi then index0
                  else index0[Key(s[c].data, s[c].typ, if s[c].flags.privat then p + 1 else NULL) := c + 1])
  {
    hide Index;
    forall x: nat | x in g0.live
      ensures KeyOf(r[x]) == KeyOf(s[x]) && r[x].flags == s[x].flags
    {
      assert s[x] == s0[x];
      assert AdoptedAt(s, r, c, p, x);
    }
    assert AdoptedAt(s, r, c, p, c);
    AddedIndex(s0, g0, index0, s, g, c, batched, r, if s[c].flags.privat then p + 1 else NULL);
  }

  /** Adopting c writes nothing but ring links, and c's parent. */
  ghost predicate AdoptedAt(s: seq<Slot>, r: seq<Slot>, c: nat, p: nat, x: nat) {
    && x < |s| == |r| && SameButLinks(s[x], r[x])
    && r[x].siblings.parent == if x == c then p + 1 else s[x].siblings.parent
  }

  lemma AdoptKeepsRest(s: seq<Slot>, g: Shape, r: seq<Slot>, g': Shape, h: Header, p: nat, c: nat, batched: bool)
    requires Core(s, g) && Lists(s, g, h) && BatchClosed(s, g) && |r| == |s| && p < |s| && c < |s|
    requires p in g.live && c in g.live && s[c].batched == batched == (h.batchSize != 0)
    requires g' == g.(kids := g'.kids, depth := g'.depth, top := g'.top) && Forest(r, g')
    requires forall x: nat {:trigger AdoptedAt(s, r, c, p, x)} :: x < |s| ==> AdoptedAt(s, r, c, p, x)
    ensures Core(r, g') && Lists(r, g', h) && BatchClosed(r, g')
    ensures ViewOf(r, g'.live) == ViewOf(s, g.live)[c + 1 := EntryOf(s[c]).(parent := p + 1)]
  {
    forall x: nat | x < |s|
      ensures SameButLinks(s[x], r[x]) && MarkOk(r, g', x)
    {
      assert AdoptedAt(s, r, c, p, x);
      assert MarkOk(s, g, x);
    }
    ListsFrame(s, r, g, g', h);
    AdoptStaysClosed(s, g, r, h, p, c);
    AdoptKeepsView(s, g, r, p, c);
  }

  lemma AdoptStaysClosed(s: seq<Slot>, g: Shape, r: seq<Slot>, h: Header, p: nat, c: nat)
    requires Core(s, g) && Lists(s, g, h) && BatchClosed(s, g) && |r| == |s| && p < |s| && c < |s|
    requires p in g.live && s[c].batched == (h.batchSize != 0)
    requires forall x: nat {:trigger AdoptedAt(s, r, c, p, x)} :: x < |s| ==> AdoptedAt(s, r, c, p, x)
    ensures BatchClosed(r, g)
  {
    assert MarkOk(s, g, p);
    hide Core;
    forall x: nat | x in g.live
      ensures BatchClosedAt(r, x)
    {
      assert BatchClosedAt(s, x);
      assert AdoptedAt(s, r, c, p, x) && AdoptedAt(s, r, c, p, p);
      var up := r[x].siblings.parent;
      if x != c && 0 < up <= |s| {
        assert AdoptedAt(s, r, c, p, up - 1);
      }
    }
  }

  lemma AdoptKeepsView(s: seq<Slot>, g: Shape, r: seq<Slot>, p: nat, c: nat)
    requires |r| == |s| && c < |s| && c in g.live
    requires forall x: nat {:trigger AdoptedAt(s, r, c, p, x)} :: x < |s| ==> AdoptedAt(s, r, c, p, x)
    ensures ViewOf(r, g.live) == ViewOf(s, g.live)[c + 1 := EntryOf(s[c]).(parent := p + 1)]
  {
    var v, v' := ViewOf(s, g.live), ViewOf(r, g.live);
    forall h | h in v'
      ensures h in v && v'[h] == v[c + 1 := EntryOf(s[c]).(parent := p + 1)][h]
    {
      assert AdoptedAt(s, r, c, p, h - 1);
    }
  }

  lemma FreedShrinks(s: seq<Slot>, g: Shape, r: seq<Slot>, g': Shape, i: nat)
    requires Freed(s, g, r, g', i)
    ensures |g.free| <= |g'.free|
    ensures |r| == |s| && g'.live <= g.live && g'.limbo == g.limbo - {i} && i !in g'.live && g'.batch == g.batch
  {}

  lemma BatchIsDistinct(s: seq<Slot>, g: Shape)
    requires Core(s, g)
    ensures Distinct(g.batch)
  {}

  /** One step of PVRSRVLookupSubHandle towards the root. */
  lemma StepUp(s: seq<Slot>, g: Shape, p: nat, ancestor: nat)
    requires Core(s, g) && g.limbo == {} && p in g.live && s[p].siblings.parent != ancestor
    ensures var v, up := ViewOf(s, g.live), s[p].siblings.parent;
            && (up != NULL ==> up in v && |g.depth| == |s| && g.depth[up - 1] < g.depth[p])
            && (StrictlyBelow(v, p + 1, ancestor) <==> up != NULL && StrictlyBelow(v, up, ancestor))
  {
    var v, up := ViewOf(s, g.live), s[p].siblings.parent;
    assert v[p + 1].parent == up;
    if up != NULL {
      ParentIsUsed(s, g, p);
      assert ParentOk(s, g, p);
      assert KidsOk(s, g, up - 1);
      assert ChildOk(s, g, up - 1, p);
      BelowSteps(v, up, ancestor);
    }
  }

  lemma GrownKeepsView(s0: seq<Slot>, g0: Shape, s: seq<Slot>, g: Shape)
    requires Core(s0, g0) && GrownSlots(s0, g0, s) && (g == g0 || g == Grown(g0, |s0|, |s|))
    ensures ViewOf(s, g.live) == ViewOf(s0, g0.live)
  {
    GrownLive(g0, |s0|, |s|);
    GrowKeepsKeys(s0, g0, s);
    var v, v0 := ViewOf(s, g.live), ViewOf(s0, g0.live);
    forall h: nat
      ensures h in v <==> h in v0
      ensures h in v ==> v[h] == v0[h]
    {
      if h in v0 {
        assert s[h - 1] == s0[h - 1];
      }
    }
  }

  lemma ClosedBatch(s: seq<Slot>, g: Shape, h: Header)
    requires Lists(s, g, h) && g.batch == []
    ensures Lists(s, g, h.(firstBatchPlusOne := 0, batchSize := 0))
  {}

  lemma ShapeFits(s: seq<Slot>, g: Shape)
    requires Core(s, g)
    ensures |g.kids| == |s| == |g.depth|
  {}

  lemma CutKeepsRest(s: seq<Slot>, g: Shape, n: nat, index: map<Key, nat>)
    requires Core(s, g) && n <= |s| && n <= |g.kids| && n <= |g.depth| && g.limbo == {} && BatchClosed(s, g)
    requires forall x: nat :: n <= x < |s| ==> x in g.free
    requires Index(s, g.live, index)
    ensures Index(s[..n], g.live, index) && BatchClosed(s[..n], Cut(g, n))
  {
    forall x: nat | x in g.live
      ensures x < n && Indexed(s[..n], index, x) && BatchClosedAt(s[..n], x)
    {
      assert Indexed(s, index, x) && BatchClosedAt(s, x);
      assert x < |s| && x !in g.free;
    }
    forall k | k in index
      ensures Binds(s[..n], g.live, k, index[k])
    {
      assert Binds(s, g.live, k, index[k]);
    }
  }

  /** Along a way up, slots get less deep. */
  lemma {:induction false} DepthGrows(s: seq<Slot>, g: Shape, p: seq<nat>)
    requires Core(s, g) && g.limbo == {} && Path(ViewOf(s, g.live), p)
    ensures forall j :: 0 <= j < |p| ==> 0 < p[j] <= |g.depth|
    ensures |p| > 1 ==> g.depth[p[|p| - 1] - 1] < g.depth[p[0] - 1]
    ensures g.depth[p[|p| - 1] - 1] <= g.depth[p[0] - 1]
  {
    if |p| > 1 {
      DepthGrows(s, g, p[1..]);
      var x := p[0] - 1;
      assert ViewOf(s, g.live)[p[0]].parent == p[1];
      assert ParentOk(s, g, x);
      assert KidsOk(s, g, p[1] - 1);
      assert ChildOk(s, g, p[1] - 1, x);
      assert p[1..][|p| - 2] == p[|p| - 1];
    }
  }
}
