/** A bridge call with its handle batch: pvr/bridged_pvr_bridge.h opens and commits the batch of a
    process, and the dispatcher of pvr/bridged_pvr_bridge.c releases what is still open at its
    only exit. */
module BridgeSession {
  import opened HandleModel
  import opened HandleView
  import opened HandleBatch
  import opened HandleBase

  // ---------------------------------------------------------------- runs of changes

  /** What one request of a bridge function did to the handles. */
  datatype Change = Added(h: nat, entry: Entry) | Dropped(h: nat) | Shared(h: nat) | Failed | NotFound

  ghost function Apply(v: HandleMap, c: Change): HandleMap {
    match c
    case Added(h, entry) => v[h := entry]
    case Dropped(h) => v - Subtree(v, h)
    case _ => v
  }

  ghost function Run(v: HandleMap, changes: seq<Change>): HandleMap {
    if changes == [] then v else Apply(Run(v, changes[..|changes| - 1]), changes[|changes| - 1])
  }

  /** Additions are new and batched, under a parent that is there; drops are of what is there. */
  ghost predicate Allowed(v: HandleMap, c: Change) {
    match c
    case Added(h, entry) => h != NULL && h !in v && entry.batched && (entry.parent == NULL || entry.parent in v)
    case Dropped(h) => h in v
    case _ => true
  }

  ghost predicate PossibleRun(v: HandleMap, changes: seq<Change>) {
    forall i: nat {:trigger changes[i]} :: i < |changes| ==> Allowed(Run(v, changes[..i]), changes[i])
  }

  /** One of the drops took this handle: it or an ancestor of it was dropped. */
  ghost predicate Taken(v: HandleMap, changes: seq<Change>, x: nat) {
    exists i: nat :: i < |changes| && changes[i].Dropped? && Below(v, x, changes[i].h)
  }

  /** The handles there were, without those dropped and what was below them. */
  ghost function Remaining(v: HandleMap, changes: seq<Change>): HandleMap {
    map x | x in v && !Taken(v, changes, x) :: v[x]
  }

  /** A map of handles outside any batch: none is batched, and all parents are there. */
  ghost predicate Rooted(v: HandleMap) {
    && (forall x :: x in v ==> x != NULL && !v[x].batched)
    && (forall x :: x in v ==> v[x].parent == NULL || v[x].parent in v)
  }

  /** What the run made of the map so far: of the old handles those not taken, unchanged; every
      new one is batched. */
  ghost predicate Explains(v: HandleMap, changes: seq<Change>, w: HandleMap) {
    && NULL !in w
    && (forall x :: x in w && !w[x].batched ==> x in v && w[x] == v[x] && !Taken(v, changes, x))
    && (forall x :: x in v && !Taken(v, changes, x) ==> x in w && w[x] == v[x])
  }

  lemma {:induction false} RunExplained(v: HandleMap, changes: seq<Change>)
    requires Rooted(v) && PossibleRun(v, changes)
    ensures Explains(v, changes, Run(v, changes))
  {
    if changes != [] {
      var n := |changes| - 1;
      var before, c := changes[..n], changes[n];
      forall i: nat | i < n
        ensures Allowed(Run(v, before[..i]), before[i])
      {
        assert before[..i] == changes[..i];
        assert Allowed(Run(v, changes[..i]), changes[i]);
      }
      RunExplained(v, before);
      assert Allowed(Run(v, changes[..n]), changes[n]);
      ChangeExplained(v, before, Run(v, before), c);
      assert before + [c] == changes;
    }
  }

  lemma TakenMore(v: HandleMap, changes: seq<Change>, c: Change, x: nat)
    ensures Taken(v, changes + [c], x) <==> Taken(v, changes, x) || (c.Dropped? && Below(v, x, c.h))
  {
    var more := changes + [c];
    if Taken(v, changes, x) {
      var i: nat :| i < |changes| && changes[i].Dropped? && Below(v, x, changes[i].h);
      assert more[i] == changes[i];
    }
    assert more[|changes|] == c;
  }

  lemma ChangeExplained(v: HandleMap, changes: seq<Change>, w: HandleMap, c: Change)
    requires Rooted(v) && Explains(v, changes, w) && Allowed(w, c)
    ensures Explains(v, changes + [c], Apply(w, c))
  {
    var w' := Apply(w, c);
    forall x
      ensures Taken(v, changes + [c], x) <==> Taken(v, changes, x) || (c.Dropped? && Below(v, x, c.h))
    {
      TakenMore(v, changes, c, x);
    }
    if c.Dropped? {
      forall x | x in v && !Taken(v, changes, x)
        ensures Below(v, x, c.h) <==> Below(w, x, c.h)
      {
        if Below(v, x, c.h) {
          var p :| IsPath(v, p, x, c.h);
          WayUpSurvives(v, changes, w, p);
          assert IsPath(w, p, x, c.h);
        }
        if Below(w, x, c.h) {
          var p :| IsPath(w, p, x, c.h);
          WayUpIsOld(v, changes, w, p);
          assert IsPath(v, p, x, c.h);
        }
      }
    }
  }

  /** The way up from an old handle that is still there is still there. */
  lemma {:induction false} WayUpSurvives(v: HandleMap, changes: seq<Change>, w: HandleMap, p: seq<nat>)
    requires Rooted(v) && Explains(v, changes, w) && Path(v, p) && !Taken(v, changes, p[0])
    ensures Path(w, p)
  {
    if |p| > 1 {
      if Taken(v, changes, p[1]) {
        var i: nat :| i < |changes| && changes[i].Dropped? && Below(v, p[1], changes[i].h);
        BelowParent(v, p[0], changes[i].h);
        assert false;
      }
      WayUpSurvives(v, changes, w, p[1..]);
    }
  }

  lemma {:induction false} WayUpIsOld(v: HandleMap, changes: seq<Change>, w: HandleMap, p: seq<nat>)
    requires Rooted(v) && Explains(v, changes, w) && Path(w, p) && p[0] in v && !Taken(v, changes, p[0])
    ensures Path(v, p)
  {
    if |p| > 1 {
      assert w[p[0]] == v[p[0]] && v[p[0]].parent == p[1];
      assert p[1] in w;
      if Taken(v, changes, p[1]) {
        var i: nat :| i < |changes| && changes[i].Dropped? && Below(v, p[1], changes[i].h);
        BelowParent(v, p[0], changes[i].h);
        assert false;
      }
      WayUpIsOld(v, changes, w, p[1..]);
    }
  }

  /** Releasing a batch leaves exactly the handles from before it, but for those released during
      it with all that was below them. */
  lemma ReleasedBatchIsUndone(v: HandleMap, changes: seq<Change>)
    requires Rooted(v) && PossibleRun(v, changes)
    ensures Unbatched(Run(v, changes)) == Remaining(v, changes)
  {
    RunExplained(v, changes);
  }

  // ---------------------------------------------------------------- the session

  /** What a bridge function may ask of the handle base.  memOk and bucketOk say whether the array and
      the hash table would get the memory they may need for it. */
  datatype Request =
    | Alloc(data: nat, typ: nat, flags: Flags, memOk: bool, bucketOk: bool)
    | AllocSub(data: nat, typ: nat, flags: Flags, memOk: bool, bucketOk: bool, parent: nat)
    | Release(h: nat, typ: nat)

  /** Requests name types and handles of 32 bits. */
  predicate WellFormed(r: Request) {
    && r.typ != TYPE_NONE
    && (r.AllocSub? ==> r.parent < U32_SIZE)
    && (r.Release? ==> r.h < U32_SIZE)
  }

  /** Whether a handle is free, or could be if the array grew, or the limit is reached. */
  datatype Space = Free | Growable | Full

  /** A new handle can be had. */
  predicate Possible(r: Request, space: Space)
    requires !r.Release?
  {
    && (space.Free? || (space.Growable? && r.memOk))
    && (r.flags.multi || r.bucketOk)
  }

  /** The parent asked for, if any, and the key that stands for what is asked for. */
  function ParentAsked(r: Request): nat { match r case AllocSub(_, _, _, _, _, parent) => parent case _ => NULL }

  function KeyAsked(r: Request): Key
    requires !r.Release?
  {
    Key(r.data, r.typ, if r.flags.privat then ParentAsked(r) else NULL)
  }

  /** The existing handle is given out once more: both are SHARED and, where a parent is asked for, it
      is the same one. */
  predicate GivesOut(v: HandleMap, r: Request, x: nat)
    requires !r.Release? && x in v
  {
    r.flags.shared && v[x].flags.shared && (r.AllocSub? ==> v[x].parent == ParentAsked(r))
  }

  /** A handle that is not MULTI stands for what is asked for. */
  ghost predicate Clashes(v: HandleMap, r: Request, x: nat)
    requires !r.Release?
  {
    !r.flags.multi && x != NULL && Stands(v, KeyAsked(r), x)
  }

  /** The one change a request leads to, but for the number of a new handle. */
  ghost predicate Answers(v: HandleMap, r: Request, c: Change, space: Space, batched: bool) {
    if r.Release? then c == if r.h in v && v[r.h].typ == r.typ then Dropped(r.h) else NotFound
    else if r.AllocSub? && ParentAsked(r) !in v then c == Failed
    else
      && (forall x {:trigger Clashes(v, r, x)} :: Clashes(v, r, x) ==>
            c == if GivesOut(v, r, x) then Shared(x) else Failed)
      && ((forall x {:trigger Clashes(v, r, x)} :: !Clashes(v, r, x)) ==>
            if Possible(r, space)
            then && c.Added? && c.h != NULL && c.h !in v
                 && c.entry == Entry(r.data, r.typ, r.flags, ParentAsked(r), batched)
            else c == Failed)
  }

  /** How many handles were added. */
  ghost function Additions(changes: seq<Change>): nat {
    if changes == [] then 0 else
      Additions(changes[..|changes| - 1]) + if changes[|changes| - 1].Added? then 1 else 0
  }

  /** The base before the first request: how many handles are free, how many slots are on the batch
      list, and how many there can be. */
  datatype Start = Start(free: nat, batch: nat, limit: nat)

  /** Request i was answered as the map before it demands.  As long as no more handles were added than
      were free in the beginning, one is free, and the limit is reached only if all slots are in use. */
  ghost predicate AnsweredAt(v: HandleMap, requests: seq<Request>, changes: seq<Change>, spaces: seq<Space>,
                             batched: bool, start: Start, i: nat)
  {
    i < |changes| <= |requests| && |spaces| == |changes| &&
    var w, added := Run(v, changes[..i]), Additions(changes[..i]);
    && Answers(w, requests[i], changes[i], spaces[i], batched)
    && (added < start.free ==> spaces[i].Free?)
    && (spaces[i].Full? ==> start.limit <= |w| + start.batch + if batched then added else 0)
  }

  ghost predicate Answered(v: HandleMap, requests: seq<Request>, changes: seq<Change>, spaces: seq<Space>,
                           batched: bool, start: Start)
  {
    && |spaces| == |changes| <= |requests|
    && forall i: nat {:trigger AnsweredAt(v, requests, changes, spaces, batched, start, i)} ::
         i < |changes| ==> AnsweredAt(v, requests, changes, spaces, batched, start, i)
  }

  /** What a batch is for: as long as no more handles were added than it reserved, none is refused for
      want of space, whatever memory there is. */
  lemma ReservedIsThere(v: HandleMap, requests: seq<Request>, changes: seq<Change>, spaces: seq<Space>,
                        start: Start, i: nat)
    requires Answered(v, requests, changes, spaces, true, start) && i < |changes|
    requires Additions(changes[..i]) < start.free && !requests[i].Release?
    requires requests[i].AllocSub? ==> ParentAsked(requests[i]) in Run(v, changes[..i])
    requires forall x {:trigger Clashes(Run(v, changes[..i]), requests[i], x)} ::
               !Clashes(Run(v, changes[..i]), requests[i], x)
    requires requests[i].flags.multi || requests[i].bucketOk
    ensures changes[i].Added?
  {
    assert AnsweredAt(v, requests, changes, spaces, true, start, i);
  }

  ghost function Failures(changes: seq<Change>): nat {
    if changes == [] then 0 else
      Failures(changes[..|changes| - 1]) + if changes[|changes| - 1].Failed? then 1 else 0
  }

  class Process {
    const base: Base
    var handlesBatched: bool

    ghost predicate Valid()
      reads this, base, base.hash, base.hash.table
    {
      base.Valid() && !base.purging && (handlesBatched <==> base.batchSize != 0)
    }

    constructor (keyHash: Key -> nat)
      ensures Valid() && fresh(base) && fresh(base.hash) && fresh(base.hash.table) && base.View() == map[]
    {
      base := new Base(keyHash);
      handlesBatched := false;
    }

    /** NewHandleBatch */
    method NewHandleBatch(size: nat, memOk: bool) returns (e: Error)
      requires Valid() && !handlesBatched && size < U32_SIZE
      modifies this, base
      ensures Valid() <==>
                e != OK || size <= old(base.freeCount) || old(base.freeCount) == 0 || old(base.firstFree) != 0
      ensures base.View() == old(base.View()) && (handlesBatched <==> e == OK)
      ensures e == OK <==>
                size != 0
                && (size <= old(base.freeCount)
                    || (size - old(base.freeCount) <= base.maxIndexPlusOne - |old(base.slots)| && memOk))
      ensures base.maxIndexPlusOne == old(base.maxIndexPlusOne)
      ensures handlesBatched ==> size <= base.freeCount && (Valid() ==> base.g.batch == [])
      ensures base.batchAllocFailures == 0
    {
      e := base.NewBatch(size, memOk);
      if e == OK {
        handlesBatched := true;
      }
    }

    /** CommitHandleBatch */
    method CommitHandleBatch() returns (e: Error)
      requires Valid() && handlesBatched
      modifies this, base, base.hash, base.hash.table
      ensures Valid() && !handlesBatched && (base.hash.table == old(base.hash.table) || fresh(base.hash.table))
      ensures base.View() ==
                if old(base.batchAllocFailures) == 0 then Settled(old(base.View())) else Unbatched(old(base.View()))
    {
      handlesBatched := false;
      ghost var processed;
      e, processed := base.CommitOrRelease(true);
    }

    /** ReleaseHandleBatch */
    method ReleaseHandleBatch()
      requires Valid()
      modifies this, base, base.hash, base.hash.table
      ensures Valid() && !handlesBatched && (base.hash.table == old(base.hash.table) || fresh(base.hash.table))
      ensures base.View() == if old(handlesBatched) then Unbatched(old(base.View())) else old(base.View())
    {
      if handlesBatched {
        handlesBatched := false;
        ghost var processed;
        var e;
        e, processed := base.CommitOrRelease(false);
      }
    }

    ghost function SpaceLeft(): Space
      reads base
    {
      if base.freeCount > 0 then Free else if |base.slots| < base.maxIndexPlusOne then Growable else Full
    }

    /** Where the limit is reached, all slots are in use, by handles or by what a batch released. */
    lemma FullIsFull()
      requires Valid() && SpaceLeft().Full?
      ensures base.maxIndexPlusOne <= |base.View()| + |base.g.batch|
    {
      base.FreeCountIsExact();
      AllInUse(base.View(), base.g.batch, |base.slots|);
    }

    /** One request of a bridge function. */
    method Serve(r: Request) returns (ghost c: Change, ghost space: Space)
      requires Valid() && WellFormed(r)
      modifies base, base.hash, base.hash.table
      ensures Valid() && (base.hash.table == old(base.hash.table) || fresh(base.hash.table))
      ensures handlesBatched == old(handlesBatched) && base.batchSize == old(base.batchSize)
      ensures base.maxIndexPlusOne == old(base.maxIndexPlusOne) && space == old(SpaceLeft())
      ensures base.View() == Apply(old(base.View()), c) && Answers(old(base.View()), r, c, space, handlesBatched)
      ensures handlesBatched ==> Allowed(old(base.View()), c)
      ensures Spent(old(base.freeCount), |old(base.g.batch)|, base.freeCount, |base.g.batch|, c.Added?, handlesBatched)
      ensures base.batchAllocFailures ==
                if handlesBatched && c.Failed? then (old(base.batchAllocFailures) + 1) % U32_SIZE
                else old(base.batchAllocFailures)
    {
      hide Base.Valid, Base.View, Found, Subtree, Stands, Clashes, Answers, Apply, Allowed;
      space := SpaceLeft();
      ghost var v := base.View();
      match r
      case Alloc(data, typ, flags, memOk, bucketOk) =>
        OneClashes(r);
        var e, h := base.Alloc(data, typ, flags, memOk, bucketOk);
        c := Outcome(v, base.View(), r, Found(v, KeyAsked(r)), e == OK, h, space, handlesBatched);
      case AllocSub(data, typ, flags, memOk, bucketOk, parent) =>
        OneClashes(r);
        var e, h := base.AllocSub(data, typ, flags, parent, memOk, bucketOk);
        c := Outcome(v, base.View(), r, Found(v, KeyAsked(r)), e == OK, h, space, handlesBatched);
      case Release(h, typ) =>
        var e := base.Release(h, typ);
        c := if e == OK then Dropped(h) else NotFound;
        assert Answers(v, r, c, space, handlesBatched) && base.View() == Apply(v, c) && Allowed(v, c) by {
          Dropping(v, r, c, space, handlesBatched);
        }
    }

    /** Only one handle clashes with what is asked for, the one that is found. */
    lemma OneClashes(r: Request)
      requires Valid() && !r.Release?
      ensures var f := Found(base.View(), KeyAsked(r));
              && (f != NULL ==> f in base.View())
              && forall x {:trigger Clashes(base.View(), r, x)} ::
                   Clashes(base.View(), r, x) <==> !r.flags.multi && x != NULL && x == f
    {
      var k, f := KeyAsked(r), Found(base.View(), KeyAsked(r));
      forall x: nat | x != NULL && Stands(base.View(), k, x)
        ensures x == f
      {
        base.KeysAreUnique(k, x, f);
      }
    }

    /** The requests of a bridge function, one after the other. */
    method ServeAll(requests: seq<Request>) returns (ghost changes: seq<Change>, ghost spaces: seq<Space>)
      requires Valid() && base.batchAllocFailures == 0 && forall r :: r in requests ==> WellFormed(r)
      modifies base, base.hash, base.hash.table
      ensures Valid() && (base.hash.table == old(base.hash.table) || fresh(base.hash.table))
      ensures handlesBatched == old(handlesBatched) && |changes| == |requests|
      ensures base.View() == Run(old(base.View()), changes) && base.maxIndexPlusOne == old(base.maxIndexPlusOne)
      ensures handlesBatched ==>
                PossibleRun(old(base.View()), changes) && base.batchAllocFailures == Failures(changes) % U32_SIZE
      ensures Answered(old(base.View()), requests, changes, spaces, handlesBatched,
                       Start(old(base.freeCount), |old(base.g.batch)|, base.maxIndexPlusOne))
    {
      hide Base.Inv, Base.Bare, BatchClosed, ViewOf, Run, PossibleRun, Answers, Failures, Additions, Answered;
      ghost var v, start := base.View(), Start(base.freeCount, |base.g.batch|, base.maxIndexPlusOne);
      NothingRun(v);
      NothingAnswered(v, requests, handlesBatched, start);
      changes, spaces := [], [];
      for i := 0 to |requests|
        invariant Valid() && (base.hash.table == old(base.hash.table) || fresh(base.hash.table))
        invariant handlesBatched == old(handlesBatched) && |changes| == i
        invariant base.View() == Run(v, changes) && base.maxIndexPlusOne == start.limit
        invariant handlesBatched ==> PossibleRun(v, changes)
        invariant handlesBatched ==> base.batchAllocFailures == Failures(changes) % U32_SIZE
        invariant start.free <= base.freeCount + Additions(changes)
        invariant |base.g.batch| == start.batch + if handlesBatched then Additions(changes) else 0
        invariant Answered(v, requests, changes, spaces, handlesBatched, start)
      {
        if SpaceLeft().Full? {
          FullIsFull();
        }
        ghost var c, space := Serve(requests[i]);
        RunMore(v, changes, c);
        AnsweredMore(v, requests, changes, spaces, handlesBatched, start, c, space);
        changes, spaces := changes + [c], spaces + [space];
      }
    }

    /** BridgedDispatchKM around one bridge function: it may open a batch (a size of 0 stands for
        not doing so), serves its requests, commits the batch unless it exits early, and what is
        still open is released on the way out. */
    method Dispatch(size: nat, requests: seq<Request>, commits: bool, memOk: bool)
      returns (began: bool, ghost changes: seq<Change>, ghost spaces: seq<Space>)
      requires Valid() && !handlesBatched && size < U32_SIZE && forall r :: r in requests ==> WellFormed(r)
      requires size <= base.freeCount || base.freeCount == 0 || base.firstFree != 0
      modifies this, base, base.hash, base.hash.table
      ensures Valid() && !handlesBatched && base.batchSize == 0
      ensures began <==>
                size != 0
                && (size <= old(base.freeCount)
                    || (size - old(base.freeCount) <= old(base.maxIndexPlusOne) - |old(base.slots)| && memOk))
      ensures |changes| == if began || size == 0 then |requests| else 0
      ensures Answered(old(base.View()), requests, changes, spaces, began,
                       Start(if began then size else old(base.freeCount), 0, old(base.maxIndexPlusOne)))
      ensures began ==> PossibleRun(old(base.View()), changes)
      ensures var v := old(base.View());
              base.View() == if !began then Run(v, changes)
                             else if commits && Failures(changes) % U32_SIZE == 0 then Settled(Run(v, changes))
                             else Remaining(v, changes)
    {
      ghost var v := base.View();
      hide Base.Inv, Base.Bare, BatchClosed, ViewOf, Run, PossibleRun, Settled, Unbatched, Remaining, Answered;
      hide Failures;
      NothingRun(v);
      NothingAnswered(v, requests, false, Start(base.freeCount, 0, base.maxIndexPlusOne));
      changes, spaces, began := [], [], false;
      SettledBase();
      NoBatchList();
      if size != 0 {
        var e := NewHandleBatch(size, memOk);
        if e != OK {
          ReleaseHandleBatch();
          return;
        }
        began := true;
      }
      ghost var free := base.freeCount;
      changes, spaces := ServeAll(requests);
      if began {
        FewerFree(v, requests, changes, spaces, began, Start(free, 0, base.maxIndexPlusOne), size);
        ReleasedBatchIsUndone(v, changes);
        if commits {
          var _ := CommitHandleBatch();
        }
      }
      ReleaseHandleBatch();
    }

    lemma NoBatchList()
      requires Valid() && !handlesBatched
      ensures base.g.batch == []
    {
      base.NoBatch();
    }

    lemma SettledBase()
      requires Valid() && !handlesBatched
      ensures Rooted(base.View())
    {
      var v := base.View();
      forall h | h in v
        ensures h != NULL && !v[h].batched && (v[h].parent == NULL || v[h].parent in v)
      {
        base.HandlesFormForest(h);
        assert MarkOk(base.slots, base.g, h - 1);
      }
    }
  }

  lemma Dropping(v: HandleMap, r: Request, c: Change, space: Space, batched: bool)
    requires r.Release? && c == if r.h in v && v[r.h].typ == r.typ then Dropped(r.h) else NotFound
    ensures Answers(v, r, c, space, batched) && Allowed(v, c)
    ensures Apply(v, c) == if c.Dropped? then v - Subtree(v, r.h) else v
  {}

  /** What the result of an allocation says of the change. */
  lemma Outcome(v: HandleMap, w: HandleMap, r: Request, f: nat, ok: bool, h: nat, space: Space, batched: bool)
    returns (c: Change)
    requires !r.Release? && (f != NULL ==> f in v)
    requires forall x {:trigger Clashes(v, r, x)} :: Clashes(v, r, x) <==> !r.flags.multi && x != NULL && x == f
    requires r.AllocSub? && ParentAsked(r) !in v ==> !ok && w == v
    requires (r.AllocSub? ==> ParentAsked(r) in v) && !r.flags.multi && f != NULL ==>
               w == v && if GivesOut(v, r, f) then ok && h == f else !ok
    requires (r.AllocSub? ==> ParentAsked(r) in v) && (r.flags.multi || f == NULL) ==>
               && (ok <==> Possible(r, space)) && (ok ==> h != NULL && h !in v)
               && w == if ok then v[h := Entry(r.data, r.typ, r.flags, ParentAsked(r), batched)] else v
    ensures Answers(v, r, c, space, batched) && w == Apply(v, c) && (batched ==> Allowed(v, c))
    ensures (c.Failed? <==> !ok) && (c.Added? <==> ok && h !in v)
  {
    hide Clashes;
    c := if !ok then Failed else if h in v then Shared(h) else Added(h, w[h]);
    assert f != NULL && !r.flags.multi ==> Clashes(v, r, f);
  }

  lemma NothingAnswered(v: HandleMap, requests: seq<Request>, batched: bool, start: Start)
    ensures Answered(v, requests, [], [], batched, start)
  {}

  lemma AnsweredMore(v: HandleMap, requests: seq<Request>, changes: seq<Change>, spaces: seq<Space>,
                     batched: bool, start: Start, c: Change, space: Space)
    requires Answered(v, requests, changes, spaces, batched, start) && |changes| < |requests|
    requires Answers(Run(v, changes), requests[|changes|], c, space, batched)
    requires Additions(changes) < start.free ==> space.Free?
    requires space.Full? ==> start.limit <= |Run(v, changes)| + start.batch + if batched then Additions(changes) else 0
    ensures Answered(v, requests, changes + [c], spaces + [space], batched, start)
  {
    hide Answers;
    var more, spaces' := changes + [c], spaces + [space];
    forall i: nat | i < |more|
      ensures AnsweredAt(v, requests, more, spaces', batched, start, i)
    {
      if i < |changes| {
        assert AnsweredAt(v, requests, changes, spaces, batched, start, i);
        assert more[..i] == changes[..i];
      } else {
        assert more[..i] == changes;
      }
    }
  }

  lemma FewerFree(v: HandleMap, requests: seq<Request>, changes: seq<Change>, spaces: seq<Space>,
                  batched: bool, start: Start, free: nat)
    requires Answered(v, requests, changes, spaces, batched, start) && free <= start.free
    ensures Answered(v, requests, changes, spaces, batched, start.(free := free))
  {
    hide Answers;
    forall i: nat | i < |changes|
      ensures AnsweredAt(v, requests, changes, spaces, batched, start.(free := free), i)
    {
      assert AnsweredAt(v, requests, changes, spaces, batched, start, i);
    }
  }

  /** Slots that are not unused belong to a handle or to the batch list. */
  lemma AllInUse(v: HandleMap, batch: seq<nat>, n: nat)
    requires |set x: nat | x < n && x + 1 !in v && x !in batch| == 0
    ensures n <= |v| + |batch|
  {
    var unused := set x: nat | x < n && x + 1 !in v && x !in batch;
    forall x: nat | x < n
      ensures x + 1 in v || x in batch
    {
      assert x !in unused;
    }
    CountInUse(v.Keys, batch, n);
    assert |v.Keys| == |v|;
  }

  lemma {:induction false} CountInUse(keys: set<nat>, batch: seq<nat>, n: nat)
    requires forall x: nat :: x < n ==> x + 1 in keys || x in batch
    ensures n <= |keys| + |batch|
  {
    if n > 0 {
      var x := n - 1;
      if n in keys {
        CountInUse(keys - {n}, batch, x);
      } else {
        assert x in batch;
        var i :| 0 <= i < |batch| && batch[i] == x;
        var rest := batch[..i] + batch[i + 1..];
        forall y: nat | y < x && y in batch
          ensures y in rest
        {
          var j :| 0 <= j < |batch| && batch[j] == y;
          assert rest[if j < i then j else j - 1] == y;
        }
        CountInUse(keys, rest, x);
      }
    }
  }

  lemma RunMore(v: HandleMap, changes: seq<Change>, c: Change)
    ensures Run(v, changes + [c]) == Apply(Run(v, changes), c)
    ensures Failures(changes + [c]) == Failures(changes) + if c.Failed? then 1 else 0
    ensures Additions(changes + [c]) == Additions(changes) + if c.Added? then 1 else 0
    ensures PossibleRun(v, changes) && Allowed(Run(v, changes), c) ==> PossibleRun(v, changes + [c])
  {
    var more := changes + [c];
    assert more[..|changes|] == changes;
    if PossibleRun(v, changes) && Allowed(Run(v, changes), c) {
      forall i: nat | i < |more|
        ensures Allowed(Run(v, more[..i]), more[i])
      {
        if i < |changes| {
          assert more[..i] == changes[..i] && more[i] == changes[i];
        }
      }
    }
  }

  lemma NothingRun(v: HandleMap)
    ensures Run(v, []) == v && PossibleRun(v, []) && Failures([]) == 0 && Additions([]) == 0
  {}
}
