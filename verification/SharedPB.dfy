/** The shared parameter buffer of pvr/pb.c: one process creates it under a lock, all share it, and
    its memory is freed when the last of them has let go of it. */
module SharedPB {

  datatype Option<T> = None | Some(value: T)

  datatype Error = OK | GENERIC | OUT_OF_MEMORY | PROCESSING_BLOCKED | INVALID_PARAMS

  const NO_PROCESS := 0

  /** struct PVRSRV_STUB_PBDESC: the count of references, and the memory blocks that were handed
      over: the shared descriptor, the hardware descriptor, the block, and the subblocks. */
  class Stub {
    var refCount: nat
    const totalSize: nat
    const main: seq<nat>
    const subs: seq<nat>

    constructor (totalSize: nat, main: seq<nat>, subs: seq<nat>)
      ensures refCount == 1 && this.totalSize == totalSize && this.main == main && this.subs == subs
    {
      refCount, this.totalSize, this.main, this.subs := 1, totalSize, main, subs;
    }

    ghost function Blocks(): multiset<nat> {
      multiset(main) + multiset(subs)
    }
  }

  /** What the resource manager has registered for a process: a share in the parameter buffer, or the
      lock under which it is created. */
  datatype Item = Share(process: nat, stub: Stub) | CreateLock(process: nat)

  type Items = map<nat, Item>

  /** The shares in a stub. */
  ghost function Shares(items: Items, s: Stub): set<nat> {
    set id | id in items && items[id].Share? && items[id].stub == s
  }

  /** Every share is in the parameter buffer there is. */
  ghost predicate SharesIn(items: Items, stubs: seq<Stub>) {
    forall id :: id in items && items[id].Share? ==> items[id].stub in stubs
  }

  /** The one CREATE_LOCK item is the lock. */
  ghost predicate LockIs(items: Items, lockItem: Option<nat>, lockProcess: nat) {
    && (lockItem.None? <==> lockProcess == NO_PROCESS)
    && (forall id :: id in items && items[id].CreateLock? ==> lockItem == Some(id))
    && (lockItem.Some? ==> lockItem.value in items && items[lockItem.value] == CreateLock(lockProcess))
  }

  lemma NewShare(items: Items, lockItem: Option<nat>, lockProcess: nat, id: nat, process: nat, s: Stub)
    requires id !in items && LockIs(items, lockItem, lockProcess)
    requires SharesIn(items, [s])
    ensures var r := items[id := Share(process, s)];
            Shares(r, s) == Shares(items, s) + {id} && SharesIn(r, [s]) && LockIs(r, lockItem, lockProcess)
    ensures |Shares(items[id := Share(process, s)], s)| == |Shares(items, s)| + 1
  {
    assert Shares(items[id := Share(process, s)], s) == Shares(items, s) + {id};
  }

  lemma OneShareLess(items: Items, stubs: seq<Stub>, lockItem: Option<nat>, lockProcess: nat, id: nat)
    requires id in items && items[id].Share? && SharesIn(items, stubs) && LockIs(items, lockItem, lockProcess)
    ensures var r, s := items - {id}, items[id].stub;
            && s in stubs && |Shares(r, s)| == |Shares(items, s)| - 1
            && SharesIn(r, stubs) && LockIs(r, lockItem, lockProcess)
            && (Shares(r, s) == {} && stubs == [s] ==> SharesIn(r, []))
  {
    assert Shares(items - {id}, items[id].stub) == Shares(items, items[id].stub) - {id};
    assert forall i :: i in items - {id} && (items - {id})[i].Share? && (items - {id})[i].stub == items[id].stub
                       ==> i in Shares(items - {id}, items[id].stub);
  }

  lemma LockGone(items: Items, lockItem: Option<nat>, lockProcess: nat, id: nat)
    requires id in items && items[id].CreateLock? && LockIs(items, lockItem, lockProcess)
    ensures lockItem == Some(id) && LockIs(items - {id}, None, NO_PROCESS)
    ensures SharesIn(items, []) ==> SharesIn(items - {id}, [])
  {}

  lemma LockTaken(items: Items, id: nat, process: nat)
    requires id !in items && LockIs(items, None, NO_PROCESS) && process != NO_PROCESS
    ensures LockIs(items[id := CreateLock(process)], Some(id), process)
    ensures SharesIn(items, []) ==> SharesIn(items[id := CreateLock(process)], [])
  {}

  lemma NoSharesLeft(items: Items, stubs: seq<Stub>)
    requires items == map[]
    ensures forall s {:trigger Shares(items, s)} :: s in stubs ==> |Shares(items, s)| == 0
  {
    assert forall s {:trigger Shares(items, s)} :: s in stubs ==> Shares(items, s) == {};
  }

  lemma SomeShares(items: Items, s: Stub)
    requires SharesIn(items, [])
    ensures SharesIn(items, [s])
  {}

  lemma NoShare(items: Items, s: Stub)
    requires SharesIn(items, [])
    ensures Shares(items, s) == {}
  {}

  class Device {
    var stubs: seq<Stub>
    var lockItem: Option<nat>
    var lockProcess: nat
    var items: map<nat, Item>

    // The memory handed over so far, and the part of it that was freed.
    ghost var handed: multiset<nat>
    ghost var freed: multiset<nat>

    ghost function Held(): multiset<nat>
      reads this`stubs
    {
      if stubs == [] then multiset{} else stubs[0].Blocks()
    }

    ghost predicate Valid()
      reads this, stubs
    {
      && |stubs| <= 1 && handed == freed + Held()
      && SharesIn(items, stubs) && LockIs(items, lockItem, lockProcess)
      && (stubs != [] ==> 0 < stubs[0].refCount == |Shares(items, stubs[0])|)
      && (lockItem.Some? ==> stubs == [])
    }

    constructor ()
      ensures Valid() && stubs == [] && items == map[] && handed == multiset{}
    {
      stubs, lockItem, lockProcess, items := [], None, NO_PROCESS, map[];
      handed, freed := multiset{}, multiset{};
    }

    // ---------------------------------------------------------------- what follows from it

    /** There is one parameter buffer at most, and none as long as somebody may create one. */
    lemma LockKeepsOthersOut()
      requires Valid()
      ensures |stubs| <= 1 && (lockProcess != NO_PROCESS ==> stubs == [])
    {}

    /** Once nothing is registered any more, all memory that was ever handed over has been freed,
        each block as often as it was handed over. */
    lemma AllIsFreedInTheEnd()
      requires Valid() && items == map[]
      ensures freed == handed && stubs == [] && lockProcess == NO_PROCESS
    {
      NoSharesLeft(items, stubs);
    }

    // ---------------------------------------------------------------- the resource manager

    /** ResManRegisterRes, when the item can be allocated. */
    method Register(item: Item) returns (id: nat)
      modifies this`items
      ensures id !in old(items) && items == old(items)[id := item]
    {
      id := FreshId(items.Keys);
      items := items[id := item];
    }

    /** ResManFreeResByPtr: the item is taken off the list, and its callback runs. */
    method FreeItem(id: nat)
      requires Valid() && id in items
      modifies this, stubs
      ensures Valid() && items == old(items) - {id} && handed == old(handed)
      ensures old(items)[id].CreateLock? ==> lockItem == None && lockProcess == NO_PROCESS
      ensures old(items)[id].CreateLock? ==> stubs == old(stubs) == [] && freed == old(freed)
      ensures old(items)[id].Share? ==> lockItem == old(lockItem) && lockProcess == old(lockProcess)
      ensures stubs == [] || stubs == old(stubs)
    {
      hide Shares, LockIs, SharesIn, Stub.Blocks;
      var item := items[id];
      match item
      case CreateLock(_) =>
        LockGone(items, lockItem, lockProcess, id);
        items := items - {id};
        lockProcess, lockItem := NO_PROCESS, None;
      case Share(_, s) =>
        OneShareLess(items, stubs, lockItem, lockProcess, id);
        items := items - {id};
        assert stubs == [s];
        var e := Cleanup(s);
    }

    /** SGXCleanupSharedPBDescKM: one reference less and, if it was the last, everything is freed. */
    method Cleanup(s: Stub) returns (e: Error)
      requires |stubs| <= 1 && forall t :: t in stubs ==> t.refCount > 0
      modifies this`stubs, this`freed, s
      ensures s !in old(stubs) ==>
                e == INVALID_PARAMS && stubs == old(stubs) && freed == old(freed) && s.refCount == old(s.refCount)
      ensures s in old(stubs) ==>
                && e == OK && s.refCount == old(s.refCount) - 1
                && stubs == (if s.refCount == 0 then [] else old(stubs))
                && freed == old(freed) + if s.refCount == 0 then s.Blocks() else multiset{}
    {
      for k := 0 to |stubs|
        invariant s !in stubs[..k] && stubs == old(stubs) && freed == old(freed) && s.refCount == old(s.refCount)
      {
        if stubs[k] == s {
          s.refCount := s.refCount - 1;
          if s.refCount == 0 {
            stubs := stubs[..k] + stubs[k + 1..];
            FreeAll(s.subs);
            FreeAll(s.main);
          }
          return OK;
        }
      }
      return INVALID_PARAMS;
    }

    /** Frees memory blocks one by one. */
    method FreeAll(blocks: seq<nat>)
      modifies this`freed
      ensures freed == old(freed) + multiset(blocks)
    {
      for k := 0 to |blocks|
        invariant freed == old(freed) + multiset(blocks[..k])
      {
        assert blocks[..k + 1] == blocks[..k] + [blocks[k]];
        freed := freed + multiset{blocks[k]};
      }
      assert blocks[..|blocks|] == blocks;
    }

    /** PVRSRVResManDisconnect: what a process still has registered when it ends goes, the lock
        first. */
    method Disconnect(process: nat)
      requires Valid() && process != NO_PROCESS
      modifies this, stubs
      ensures Valid() && handed == old(handed) && lockProcess != process
      ensures items == map id | id in old(items) && old(items)[id].process != process :: old(items)[id]
    {
      hide Shares, LockIs, SharesIn, Held;
      ghost var before := items;
      LockFacts();
      if lockItem.Some? && items[lockItem.value].process == process {
        FreeItem(lockItem.value);
      }
      while exists id :: id in items && items[id].process == process
        invariant Valid() && handed == old(handed) && (stubs == [] || stubs == old(stubs))
        invariant lockProcess != process
        invariant forall id {:trigger id in items} :: id in items ==> id in before && items[id] == before[id]
        invariant forall id {:trigger id in before} :: id in before && before[id].process != process ==> id in items
        decreases |items|
      {
        var id :| id in items && items[id].process == process;
        ghost var prior := items;
        FreeItem(id);
        assert prior.Keys == items.Keys + {id};
      }
    }

    // ---------------------------------------------------------------- the calls

    /** SGXFindSharedPBDescKM: a share in the parameter buffer if there is one; otherwise, on
        request, the lock for creating it. */
    method Find(process: nat, lockOnFailure: bool, memOk: bool, registerOk: bool)
      returns (e: Error, share: Option<nat>, main: seq<nat>, subs: seq<nat>)
      requires Valid() && process != NO_PROCESS
      modifies this, stubs
      ensures Valid() && stubs == old(stubs) && handed == old(handed) && freed == old(freed)
      ensures share.Some? <==> stubs != [] && memOk && registerOk
      ensures share.Some? ==>
                && e == OK && share.value !in old(items) && items == old(items)[share.value := Share(process, stubs[0])]
                && main == stubs[0].main && subs == stubs[0].subs && lockItem == old(lockItem)
      ensures share.None? && stubs != [] ==> e != OK && items == old(items)
      ensures stubs == [] && e == OK ==> lockProcess == if lockOnFailure then process else old(lockProcess)
      ensures stubs == [] && !lockOnFailure ==> e == OK && items == old(items)
      ensures stubs == [] && lockOnFailure ==>
                e == if old(lockProcess) != NO_PROCESS then PROCESSING_BLOCKED else if registerOk then OK else GENERIC
      ensures e != OK ==> items == old(items) && lockProcess == old(lockProcess)
    {
      share, main, subs := None, [], [];
      if stubs != [] {
        var s := stubs[0];
        if !memOk {
          return OUT_OF_MEMORY, None, [], [];
        }
        if !registerOk {
          return GENERIC, None, [], [];
        }
        ghost var before := items;
        var id := Register(Share(process, s));
        assert stubs == [s];
        NewShare(before, lockItem, lockProcess, id, process, s);
        main := s.main;
        subs := [];
        for i := 0 to |s.subs|
          invariant subs == s.subs[..i]
          invariant stubs == old(stubs) && s.refCount == old(s.refCount) && lockItem == old(lockItem)
          invariant lockProcess == old(lockProcess) && handed == old(handed) && freed == old(freed)
          invariant id !in old(items) && items == old(items)[id := Share(process, s)]
        {
          subs := subs + [s.subs[i]];
        }
        s.refCount := s.refCount + 1;
        return OK, Some(id), main, subs;
      }
      if lockOnFailure {
        if lockItem.None? {
          if !registerOk {
            return GENERIC, None, [], [];
          }
          ghost var before := items;
          var id := Register(CreateLock(process));
          LockTaken(before, id, process);
          lockItem, lockProcess := Some(id), process;
        } else {
          return PROCESSING_BLOCKED, None, [], [];
        }
      }
      return OK, None, [], [];
    }

    /** SGXAddSharedPBDescKM: the process that has the lock turns the memory into the parameter
        buffer and gives the lock up.  The memory is handed over in any case: whenever the call
        fails it is freed. */
    method Add(process: nat, totalSize: nat, main: seq<nat>, subs: seq<nat>, stubOk: bool, subsOk: bool,
               dissociateOk: bool, registerOk: bool)
      returns (e: Error, share: Option<nat>)
      requires Valid() && process != NO_PROCESS
      modifies this, stubs
      ensures Valid() && handed == old(handed) + multiset(main) + multiset(subs)
      ensures e == OK <==> old(lockProcess) == process && stubOk && subsOk && dissociateOk && registerOk
      ensures e == OUT_OF_MEMORY <==> old(lockProcess) == process && (!stubOk || !subsOk)
      ensures lockProcess == if old(lockProcess) == process then NO_PROCESS else old(lockProcess)
      ensures e == OK ==>
                && share.Some? && old(stubs) == [] && |stubs| == 1 && fresh(stubs[0]) && freed == old(freed)
                && stubs[0].main == main && stubs[0].subs == subs && stubs[0].totalSize == totalSize
                && items == map[share.value := Share(process, stubs[0])]
      ensures e != OK ==> stubs == old(stubs) && freed == old(freed) + multiset(main) + multiset(subs)
    {
      hide Shares, LockIs, SharesIn, Valid;
      LockFacts();
      if lockProcess != process {
        Refuse(main, subs);
        return GENERIC, None;
      }
      FreeItem(lockItem.value);
      // Nobody else can have added a parameter buffer while the lock was held.
      assert stubs == [];
      if !stubOk || !subsOk || !dissociateOk || !registerOk {
        Refuse(main, subs);
        return if !stubOk || !subsOk then OUT_OF_MEMORY else GENERIC, None;
      }
      var id := Create(process, totalSize, main, subs);
      return OK, Some(id);
    }

    lemma LockFacts()
      requires Valid()
      ensures lockProcess != NO_PROCESS <==> lockItem.Some?
      ensures lockItem.Some? ==>
                lockItem.value in items && items[lockItem.value] == CreateLock(lockProcess) && stubs == []
    {}

    /** Without parameter buffer and without lock nothing is registered. */
    lemma NothingRegistered()
      requires Valid() && stubs == [] && lockItem == None
      ensures items == map[]
    {
      assert items.Keys == {};
    }

    /** The failing exits: the memory handed over is freed at once. */
    method Refuse(main: seq<nat>, subs: seq<nat>)
      requires Valid()
      modifies this`handed, this`freed
      ensures Valid() && handed == old(handed) + multiset(main) + multiset(subs)
      ensures freed == old(freed) + multiset(main) + multiset(subs)
    {
      hide Shares, LockIs, SharesIn, Held;
      Balance(handed, freed, Held(), multiset(main), multiset(subs));
      handed := handed + multiset(main) + multiset(subs);
      FreeAll(subs);
      FreeAll(main);
    }

    /** The last part of SGXAddSharedPBDescKM: the stub is linked, with one share in it. */
    method Create(process: nat, totalSize: nat, main: seq<nat>, subs: seq<nat>) returns (id: nat)
      requires Valid() && stubs == [] && lockItem == None && lockProcess == NO_PROCESS
      modifies this`stubs, this`items, this`handed
      ensures handed == old(handed) + multiset(main) + multiset(subs)
      ensures Valid() && |stubs| == 1 && fresh(stubs[0])
      ensures stubs[0].main == main && stubs[0].subs == subs && stubs[0].totalSize == totalSize
      ensures items == map[id := Share(process, stubs[0])]
    {
      NothingRegistered();
      hide Shares, LockIs, SharesIn;
      handed := handed + multiset(main) + multiset(subs);
      var s := new Stub(totalSize, main, subs);
      ghost var before := items;
      id := Register(Share(process, s));
      stubs := [s] + stubs;
      assert stubs == [s];
      NoShare(before, s);
      SomeShares(before, s);
      NewShare(before, None, NO_PROCESS, id, process, s);
    }
  }

  /** A buffer that was added has one share, and releasing that frees everything. */
  method AddAndRelease(d: Device, process: nat, totalSize: nat, main: seq<nat>, subs: seq<nat>) returns (e: Error)
    requires d.Valid() && process != NO_PROCESS && d.lockProcess == process && d.handed == d.freed
    modifies d, d.stubs
    ensures d.Valid() && e == OK && d.items == map[] && d.stubs == []
    ensures d.handed == d.freed == old(d.handed) + multiset(main) + multiset(subs)
  {
    hide Shares, LockIs, SharesIn;
    var share;
    e, share := d.Add(process, totalSize, main, subs, true, true, true, true);
    d.FreeItem(share.value);
    assert d.items == map[];
    d.AllIsFreedInTheEnd();
  }

  lemma Balance(handed: multiset<nat>, freed: multiset<nat>, held: multiset<nat>, m: multiset<nat>, s: multiset<nat>)
    requires handed == freed + held
    ensures handed + m + s == freed + s + m + held && freed + s + m == freed + m + s
  {}

  /** A number not in use. */
  method FreshId(used: set<nat>) returns (id: nat)
    ensures id !in used
  {
    id := 0;
    var rest := used;
    while rest != {}
      invariant forall x :: x in used && x !in rest ==> x < id
      decreases rest
    {
      var x :| x in rest;
      if id <= x {
        id := x + 1;
      }
      rest := rest - {x};
    }
  }
}
