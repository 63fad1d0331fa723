/** The offset records of pvr/mmap.c: who may map which memory area at which offset, from the time a
    process asks for it to the time the last mapping is gone. */
module MMap {
  import opened MemArea

  // ---------------------------------------------------------------- offsets

  const FIRST_SPECIAL_PFN := 0x8000_0000
  const LAST_SPECIAL_PFN := 0xffff_ffff
  const MAX_MMAP_HANDLE := 0x7fff_ffff

  predicate PFNIsSpecial(pfn: nat) { FIRST_SPECIAL_PFN <= pfn <= LAST_SPECIAL_PFN }

  function HandleToMMapOffset(handle: nat): nat {
    if PFNIsSpecial(handle) then 0 else (handle + FIRST_SPECIAL_PFN) % U32
  }

  function MMapOffsetToHandle(pfn: nat): nat
    requires pfn < U32
  {
    if PFNIsPhysical(pfn) then 0 else pfn - FIRST_SPECIAL_PFN
  }

  /** Handles up to the limit, and no others, come back from their offsets, and no such offset is the
      number of a physical page. */
  lemma OffsetsAreHandles(handle: nat)
    requires handle < U32
    ensures HandleToMMapOffset(handle) < U32
    ensures MMapOffsetToHandle(HandleToMMapOffset(handle)) == handle <==> handle <= MAX_MMAP_HANDLE
    ensures handle <= MAX_MMAP_HANDLE <==> PFNIsSpecial(HandleToMMapOffset(handle))
    ensures handle > MAX_MMAP_HANDLE ==> HandleToMMapOffset(handle) == 0
    ensures handle < FIRST_SPECIAL_PFN ==> MMapOffsetToHandle(handle) == 0
  {}

  // ---------------------------------------------------------------- lists

  ghost predicate Distinct<T>(xs: seq<T>) {
    forall i, j :: 0 <= i < j < |xs| ==> xs[i] != xs[j]
  }

  /** list_del */
  function Del<T(==)>(xs: seq<T>, x: T): seq<T> {
    if xs == [] then [] else if xs[0] == x then xs[1..] else [xs[0]] + Del(xs[1..], x)
  }

  lemma {:induction false} DelRemoves<T>(xs: seq<T>, x: T)
    requires Distinct(xs)
    ensures Distinct(Del(xs, x)) && forall y :: y in Del(xs, x) <==> y in xs && y != x
  {
    if xs != [] {
      assert forall y :: y in xs <==> y == xs[0] || y in xs[1..];
      DelRemoves(xs[1..], x);
      assert xs[0] !in xs[1..];
    }
  }

  lemma AddDistinct<T>(xs: seq<T>, x: T)
    requires Distinct(xs) && x !in xs
    ensures Distinct(xs + [x]) && forall y :: y in xs + [x] <==> y in xs || y == x
  {}

  lemma {:induction false} InDel<T>(xs: seq<T>, x: T, y: T)
    requires Distinct(xs)
    ensures y in Del(xs, x) <==> y in xs && y != x
  {
    if xs != [] {
      assert xs[0] !in xs[1..];
      assert y in xs <==> y == xs[0] || y in xs[1..];
      InDel(xs[1..], x, y);
    }
  }

  lemma DelFirst<T>(xs: seq<T>)
    requires xs != []
    ensures Del(xs, xs[0]) == xs[1..]
  {}

  // ---------------------------------------------------------------- the records

  datatype Error = OK | GENERIC | INVALID_PARAMS | OUT_OF_MEMORY | BAD_HANDLE

  const EINVAL := 22
  const EAGAIN := 11

  /** The part of struct LinuxMemArea that concerns mapping. */
  class MappedArea {
    const area: Area
    var registered: bool
    var records: seq<Record>

    constructor (area: Area)
      ensures this.area == area && !registered && records == []
    {
      this.area, registered, records := area, false, [];
    }
  }

  /** struct KV_OFFSET_STRUCT */
  class Record {
    const area: MappedArea
    const mmapOffset: nat
    const realSize: nat
    const tid: nat
    const pid: nat
    var mapped: nat
    var onList: bool
    var refCount: nat
    var userVAddr: nat

    constructor (area: MappedArea, mmapOffset: nat, realSize: nat, tid: nat, pid: nat)
      ensures this.area == area && this.mmapOffset == mmapOffset && this.realSize == realSize
      ensures this.tid == tid && this.pid == pid && mapped == 0 && !onList && refCount == 0 && userVAddr == 0
    {
      this.area, this.mmapOffset, this.realSize, this.tid, this.pid := area, mmapOffset, realSize, tid, pid;
      mapped, onList, refCount, userVAddr := 0, false, 0, 0;
    }
  }

  /** What mmap needs to know of an area is what the record says. */
  ghost predicate Describes(r: Record) {
    && Good(r.area.area) && InPages(r.area.area, 0)
    && r.realSize == RealByteSize(r.area.area)
    && OffsetFits(r.area.area, r.mmapOffset)
  }

  /** The number of the first page of a contiguous area, and no page number for another one. */
  ghost predicate OffsetFits(a: Area, offset: nat)
    requires InPages(a, 0)
  {
    if PhysIsContig(a) then offset == ToCpuPfn(a, 0) else PFNIsSpecial(offset)
  }

  /** The records of an area are its own, and no two are of the same process. */
  ghost predicate OneEach(records: seq<Record>, a: MappedArea) {
    && Distinct(records)
    && (forall r :: r in records ==> r.area == a)
    && (forall r, s :: r in records && s in records && r.pid == s.pid ==> r == s)
  }

  lemma OneLess(records: seq<Record>, a: MappedArea, r: Record)
    requires OneEach(records, a)
    ensures OneEach(Del(records, r), a) && forall s :: s in Del(records, r) <==> s in records && s != r
  {
    DelRemoves(records, r);
    forall s, t | s in Del(records, r) && t in Del(records, r) && s.pid == t.pid
      ensures s == t
    {
      InDel(records, r, s);
      InDel(records, r, t);
    }
  }

  lemma NoRecords(a: MappedArea)
    ensures OneEach([], a)
  {}

  lemma OwnArea(records: seq<Record>, a: MappedArea, r: Record)
    requires OneEach(records, a) && r in records
    ensures r.area == a
  {}

  lemma OneMore(records: seq<Record>, a: MappedArea, r: Record)
    requires OneEach(records, a) && r.area == a && forall s :: s in records ==> s.pid != r.pid
    ensures OneEach(records + [r], a)
  {
    assert r !in records;
  }

  /** The offset by which an area is asked for: its first page if it is contiguous, else made from
      the handle. */
  function MMapOffset(a: Area, handle: nat): nat
    requires InPages(a, 0)
  {
    if PhysIsContig(a) then ToCpuPfn(a, 0) else HandleToMMapOffset(handle)
  }

  /** A contiguous area's offset passes for a page number, and any other area's does not. */
  lemma MMapOffsetFits(a: Area, handle: nat)
    requires Good(a) && InPages(a, 0) && handle <= MAX_MMAP_HANDLE
    ensures OffsetFits(a, MMapOffset(a, handle))
    ensures PFNIsPhysical(MMapOffset(a, handle)) <==> PhysIsContig(a)
  {
    if PhysIsContig(a) {
      ContigFits(a, 0);
    } else {
      OffsetsAreHandles(handle);
    }
  }

  /** The offset of a contiguous area, or of a part of one, is the number of the page it starts in. */
  lemma OffsetOfBlock(a: Area, base: nat, handle: nat)
    requires Good(a) && InPages(a, 0) && StartsAt(Root(a), base) && PhysIsContig(a)
    ensures MMapOffset(a, handle) == (base + TotalOffset(a)) / 4096
  {
    PartEnds(a);
    AddressInRoot(a, 0);
    assert ByteFrom(Root(a), base, TotalOffset(a));
  }

  class Registry {
    var areas: seq<MappedArea>
    var pending: seq<Record>

    ghost var known: set<MappedArea>
    ghost var open: multiset<Record>    // the mappings that users have, each by its record

    ghost function Records(): set<Record>
      reads this, known
    {
      set a, r | a in known && r in a.records :: r
    }

    /** An area has one record for each process at most, and none once it is not registered. */
    ghost predicate AreaOk(a: MappedArea)
      reads this, a
    {
      && Good(a.area) && OneEach(a.records, a)
      && (a.registered <==> a in areas) && (!a.registered ==> a.records == [])
    }

    /** A record is pending exactly as long as it is not mapped, and it counts its mappings. */
    ghost predicate RecordOk(r: Record)
      reads this, r`mapped, r`onList, r`userVAddr
    {
      && Describes(r) && (r.onList <==> r in pending) && (r in pending <==> r.mapped == 0)
      && r.mapped == open[r] && (r.mapped == 0 ==> r.userVAddr == 0)
    }

    ghost predicate Linked()
      reads this, known, Records()
    {
      && Distinct(areas) && Distinct(pending)
      && (forall a :: a in areas ==> a in known)
      && (forall a :: a in known ==> AreaOk(a))
      && (forall r :: r in pending ==> r.area in known && r in r.area.records)
      && (forall r :: r in open ==> r.area in known && r in r.area.records)
    }

    ghost predicate OthersOk(x: Record?)
      reads this, known, Records()
    {
      forall a, r :: a in known && r in a.records && r != x ==> RecordOk(r)
    }

    ghost predicate Valid()
      reads this, known, Records()
    {
      Linked() && OthersOk(null)
    }

    constructor ()
      ensures Valid() && areas == [] && known == {}
    {
      areas, pending, known, open := [], [], {}, multiset{};
    }

    /** Each record is in one area's list only. */
    lemma OneHome(a: MappedArea, b: MappedArea, r: Record)
      requires Valid() && a in known && b in known && r in a.records && r in b.records
      ensures a == b
    {
      Homes(a, r);
      Homes(b, r);
    }

    /** DestroyOffsetStruct */
    method Destroy(r: Record)
      requires Linked() && OthersOk(r) && r.area in known && r in r.area.records
      requires (r.onList <==> r in pending) && open[r] == 0
      modifies this`pending, r.area`records
      ensures Valid() && pending == Del(old(pending), r)
      ensures r.area.records == Del(old(r.area.records), r)
    {
      hide OneEach, Distinct, Del, Describes;
      ghost var a, recs, pend := r.area, r.area.records, pending;
      assert AreaOk(a);
      OneLess(recs, a, r);
      DelRemoves(pending, r);
      r.area.records := Del(r.area.records, r);
      if r.onList {
        pending := Del(pending, r);
      } else {
        NotThere(pending, r);
      }
      forall b | b in known
        ensures AreaOk(b)
      {
        assert old(AreaOk(b));
      }
      forall b, x | b in known && x in b.records
        ensures RecordOk(x)
      {
        assert x in old(b.records) && old(AreaOk(b));
        OwnArea(old(b.records), b, x);
        assert old(RecordOk(x));
      }
    }

    lemma Homes(b: MappedArea, x: Record)
      requires Linked() && b in known && x in b.records
      ensures x.area == b
    {
    }

    /** PVRMMapRegisterArea */
    method RegisterArea(a: MappedArea) returns (e: Error)
      requires Valid() && Good(a.area) && (a !in known ==> !a.registered && a.records == [])
      modifies this`areas, this`known, a`registered
      ensures Valid() && known == old(known) + {a} && a.registered && a.records == old(a.records)
      ensures e == if old(a.registered) then INVALID_PARAMS else OK
      ensures areas == old(areas) + if old(a.registered) then [] else [a]
    {
      if a.registered {
        return INVALID_PARAMS;
      }
      hide Linked, OthersOk, AreaOk, RecordOk, Good;
      Know(a);
      List(a);
      return OK;
    }

    /** An area that is not registered and has no records does no harm. */
    ghost method Know(a: MappedArea)
      requires Valid() && Good(a.area) && (a !in known ==> !a.registered && a.records == [])
      modifies this`known
      ensures Valid() && known == old(known) + {a}
    {
      NoRecords(a);
      hide OneEach, Describes, Good, Distinct;
      assert a !in known ==> a !in areas;
      known := known + {a};
      forall b | b in known
        ensures AreaOk(b)
      {
        assert b in old(known) ==> old(AreaOk(b));
      }
      forall b, x | b in known && x in b.records
        ensures RecordOk(x)
      {
        assert b in old(known) && old(RecordOk(x));
      }
    }

    /** The area is added to those that are registered. */
    method List(a: MappedArea)
      requires Valid() && a in known && !a.registered
      modifies this`areas, a`registered
      ensures Valid() && a.registered && areas == old(areas) + [a]
    {
      hide OneEach, Describes, Good, Distinct;
      assert AreaOk(a);
      AddDistinct(areas, a);
      areas := areas + [a];
      a.registered := true;
      forall b | b in known
        ensures AreaOk(b)
      {
        assert old(AreaOk(b));
      }
      forall b, x | b in known && x in b.records
        ensures RecordOk(x)
      {
        assert old(RecordOk(x));
      }
    }

    // ---------------------------------------------------------------- asking for an area

    /** PVRMMapOSMemHandleToMMapData: the process gets its record of the area, a new and pending one
        if it has none yet.  The dispatcher makes sure that the process asking is the current one. */
    method GetMMapData(lookupOk: bool, a: MappedArea, handle: nat, pid: nat, tid: nat, memOk: bool)
      returns (e: Error, mmapOffset: nat, byteOffset: nat, realSize: nat, userVAddr: nat, ghost r: Record?)
      requires Valid() && a in known && a.registered && handle <= MAX_MMAP_HANDLE
      modifies this`pending, a`records, a.records
      ensures Valid()
      ensures e == (if !lookupOk then BAD_HANDLE else if r == null then OUT_OF_MEMORY else OK)
      ensures lookupOk && r == null ==> !memOk && forall x :: x in old(a.records) ==> x.pid != pid
      ensures r == null ==> pending == old(pending) && a.records == old(a.records)
      ensures e == OK ==>
                && r != null && r in a.records && r.pid == pid && Describes(r)
                && mmapOffset == r.mmapOffset && userVAddr == r.userVAddr && realSize == r.realSize
                && byteOffset == ByteOffset(a.area)
      ensures e == OK && r in old(a.records) ==>
                a.records == old(a.records) && pending == old(pending) && r.refCount == old(r.refCount) + 1
      ensures e == OK && r !in old(a.records) ==>
                && fresh(r) && a.records == old(a.records) + [r] && pending == old(pending) + [r] && r.refCount == 1
                && r.tid == tid && InPages(a.area, 0) && r.mmapOffset == MMapOffset(a.area, handle)
      ensures forall x :: x in old(a.records) && x != r ==> x.refCount == old(x.refCount)
    {
      e, mmapOffset, byteOffset, realSize, userVAddr, r := BAD_HANDLE, 0, 0, 0, 0, null;
      if !lookupOk {
        return;
      }
      RegisteredFacts(a);
      hide Valid, Describes, Good, InPages, OffsetFits;
      realSize, byteOffset := DetermineUsersSizeAndByteOffset(a.area);
      var x := Obtain(a, handle, pid, tid, realSize, memOk);
      e, r := OUT_OF_MEMORY, x;
      if x != null {
        SizeOf(x, a);
        mmapOffset, userVAddr := x.mmapOffset, x.userVAddr;
        e := OK;
      }
    }

    /** The record of the area that the process has, or a new one. */
    method Obtain(a: MappedArea, handle: nat, pid: nat, tid: nat, realSize: nat, memOk: bool) returns (r: Record?)
      requires Valid() && a in known && a.registered && handle <= MAX_MMAP_HANDLE
      requires Good(a.area) && InPages(a.area, 0) && realSize == RealByteSize(a.area)
      modifies this`pending, a`records, a.records
      ensures Valid()
      ensures r == null ==> !memOk && pending == old(pending) && a.records == old(a.records)
      ensures r == null ==> forall x :: x in old(a.records) ==> x.pid != pid
      ensures r != null ==> r in a.records && r.area == a && r.pid == pid && Describes(r)
      ensures r != null && r in old(a.records) ==>
                a.records == old(a.records) && pending == old(pending) && r.refCount == old(r.refCount) + 1
      ensures r != null && r !in old(a.records) ==>
                && fresh(r) && a.records == old(a.records) + [r] && pending == old(pending) + [r] && r.refCount == 1
                && r.tid == tid && InPages(a.area, 0) && r.mmapOffset == MMapOffset(a.area, handle)
      ensures forall x :: x in old(a.records) && x != r ==> x.refCount == old(x.refCount)
    {
      hide Valid, Describes, Good, InPages, OffsetFits;
      r := FindByPid(a, pid);
      if r != null {
        Refer(r);
      } else {
        MMapOffsetFits(a.area, handle);
        if memOk {
          r := Create(a, MMapOffset(a.area, handle), realSize, tid, pid);
        }
      }
    }

    lemma SizeOf(r: Record, a: MappedArea)
      requires Describes(r) && r.area == a
      ensures InPages(a.area, 0) && r.realSize == RealByteSize(a.area)
    {}

    lemma RegisteredFacts(a: MappedArea)
      requires Valid() && a in known
      ensures Good(a.area) && InPages(a.area, 0)
    {
      assert AreaOk(a);
      BytesAreInPages(a.area, 0);
    }

    /** The record that a process has of an area. */
    method FindByPid(a: MappedArea, pid: nat) returns (r: Record?)
      requires Valid() && a in known
      ensures Valid()
      ensures r != null ==> r in a.records && r.pid == pid && r.area == a && Describes(r)
      ensures r == null ==> forall x :: x in a.records ==> x.pid != pid
    {
      for k := 0 to |a.records|
        invariant forall i :: 0 <= i < k ==> a.records[i].pid != pid
      {
        r := a.records[k];
        if r.pid == pid {
          Homes(a, r);
          assert RecordOk(r);
          return;
        }
      }
      return null;
    }

    /** One more reference to a record. */
    method Refer(r: Record)
      requires Valid() && r.area in known && r in r.area.records
      modifies r`refCount
      ensures Valid() && r.refCount == old(r.refCount) + 1
    {
      r.refCount := r.refCount + 1;
      forall b, x | b in known && x in b.records
        ensures RecordOk(x)
      {
        assert old(RecordOk(x));
      }
    }

    /** A new record of the area, pending. */
    method Create(a: MappedArea, mmapOffset: nat, realSize: nat, tid: nat, pid: nat) returns (r: Record)
      requires Valid() && a in known && a.registered && forall x :: x in a.records ==> x.pid != pid
      requires InPages(a.area, 0) && realSize == RealByteSize(a.area) && OffsetFits(a.area, mmapOffset)
      modifies this`pending, a`records
      ensures Valid() && a.records == old(a.records) + [r] && pending == old(pending) + [r]
      ensures fresh(r) && r.area == a && Describes(r) && r.pid == pid && r.tid == tid
      ensures r.mmapOffset == mmapOffset && r.realSize == realSize
      ensures r.refCount == 1 && r.userVAddr == 0
    {
      hide Linked, Distinct, OneEach, AreaOk, RecordOk, Describes, InPages, Good, OffsetFits;
      r := NewRecord(a, mmapOffset, realSize, tid, pid);
      Pend(r);
    }

    /** CreateOffsetStruct */
    method NewRecord(a: MappedArea, mmapOffset: nat, realSize: nat, tid: nat, pid: nat) returns (r: Record)
      requires Valid() && a in known && a.registered && forall x :: x in a.records ==> x.pid != pid
      requires InPages(a.area, 0) && realSize == RealByteSize(a.area) && OffsetFits(a.area, mmapOffset)
      modifies a`records
      ensures Linked() && OthersOk(r) && a.records == old(a.records) + [r]
      ensures fresh(r) && r.area == a && Describes(r) && r.pid == pid && r.tid == tid
      ensures r.mmapOffset == mmapOffset && r.realSize == realSize
      ensures r !in pending && !r.onList && r.mapped == open[r] == r.refCount == r.userVAddr == 0
    {
      assert AreaOk(a);
      r := new Record(a, mmapOffset, realSize, tid, pid);
      assert Describes(r);
      hide Distinct, OneEach, Describes, InPages, Good, OffsetFits;
      OneMore(a.records, a, r);
      a.records := a.records + [r];
      forall b | b in known
        ensures AreaOk(b)
      {
        assert old(AreaOk(b));
      }
      forall b, x | b in known && x in b.records && x != r
        ensures RecordOk(x)
      {
        assert old(RecordOk(x));
      }
    }

    /** A new record is referred to, and waits for being mapped. */
    method Pend(r: Record)
      requires Linked() && OthersOk(r) && r.area in known && r in r.area.records
      requires r !in pending && !r.onList && r.mapped == open[r] == 0 && r.userVAddr == 0 && Describes(r)
      modifies this`pending, r`onList, r`refCount
      ensures Valid() && pending == old(pending) + [r] && r.refCount == old(r.refCount) + 1
    {
      hide OneEach, Describes, Distinct;
      AddDistinct(pending, r);
      pending := pending + [r];
      r.onList := true;
      r.refCount := r.refCount + 1;
      forall b | b in known
        ensures AreaOk(b)
      {
        assert old(AreaOk(b));
      }
      forall b, x | b in known && x in b.records
        ensures RecordOk(x)
      {
        assert x != r ==> old(RecordOk(x));
      }
    }

    /** PVRMMapReleaseMMapData: one reference less; with the last, the process is told to unmap. */
    method ReleaseMMapData(lookupOk: bool, a: MappedArea, pid: nat)
      returns (e: Error, unmap: bool, realSize: nat, userVAddr: nat)
      requires Valid() && a in known
      modifies a.records
      ensures Valid()
      ensures e == OK <==> lookupOk && exists r :: r in a.records && r.pid == pid && old(r.refCount) > 0
      ensures e == OK ==>
                exists r :: Released(r, unmap, realSize, userVAddr) && r in a.records && r.pid == pid
                            && r.refCount == old(r.refCount) - 1
      ensures forall r :: r in a.records && (e != OK || r.pid != pid) ==> r.refCount == old(r.refCount)
    {
      e, unmap, realSize, userVAddr := BAD_HANDLE, false, 0, 0;
      if !lookupOk {
        return;
      }
      assert AreaOk(a);
      e := GENERIC;
      for k := 0 to |a.records|
        invariant forall i :: 0 <= i < k ==> a.records[i].pid != pid
        invariant forall r :: r in a.records ==> r.refCount == old(r.refCount)
        invariant Valid() && e == GENERIC
      {
        var r := a.records[k];
        if r.pid == pid {
          if r.refCount == 0 {
            return;
          }
          r.refCount := r.refCount - 1;
          forall b, x | b in known && x in b.records
            ensures RecordOk(x)
          {
            assert old(RecordOk(x));
          }
          unmap := r.refCount == 0 && r.userVAddr != 0;
          userVAddr := if unmap then r.userVAddr else 0;
          realSize := if unmap then r.realSize else 0;
          assert Released(r, unmap, realSize, userVAddr);
          e := OK;
          return;
        }
      }
    }

    /** What the process is told when it lets go of the record. */
    static predicate Released(r: Record, unmap: bool, realSize: nat, userVAddr: nat)
      reads r
    {
      && (unmap <==> r.refCount == 0 && r.userVAddr != 0)
      && userVAddr == (if unmap then r.userVAddr else 0) && realSize == (if unmap then r.realSize else 0)
    }

    // ---------------------------------------------------------------- mapping

    /** FindOffsetStructByOffset */
    method Find(mmapOffset: nat, size: nat, pid: nat, tid: nat) returns (r: Record?)
      requires Valid()
      ensures Valid()
      ensures r != null ==> r in pending && Matches(r, mmapOffset, size, pid, tid)
      ensures r == null ==> forall x :: x in pending ==> !Matches(x, mmapOffset, size, pid, tid)
      ensures r == null ==>
                forall x :: x in pending && x.mmapOffset == mmapOffset && x.realSize == size && x.pid == pid ==>
                  PFNIsPhysical(mmapOffset) && x.tid != tid
    {
      for k := 0 to |pending|
        invariant forall i :: 0 <= i < k ==> !Matches(pending[i], mmapOffset, size, pid, tid)
      {
        if Matches(pending[k], mmapOffset, size, pid, tid) {
          return pending[k];
        }
      }
      return null;
    }

    static predicate Matches(r: Record, mmapOffset: nat, size: nat, pid: nat, tid: nat) {
      r.mmapOffset == mmapOffset && r.realSize == size && r.pid == pid && (!PFNIsPhysical(mmapOffset) || r.tid == tid)
    }

    /** Taking a record off the list of those that are pending. */
    method Unlist(r: Record)
      requires Valid() && r in pending
      modifies this`pending, r`onList
      ensures Linked() && OthersOk(r) && r.area in known && r in r.area.records
      ensures !r.onList && pending == Del(old(pending), r) && r !in pending
      ensures r.mapped == open[r] == 0 && r.userVAddr == 0 && Describes(r)
    {
      hide OneEach, Describes;
      assert RecordOk(r);
      DelRemoves(pending, r);
      InDel(pending, r, r);
      pending := Del(pending, r);
      r.onList := false;
      forall b | b in known
        ensures AreaOk(b)
      {
        assert old(AreaOk(b));
      }
      forall b, x | b in known && x in b.records && x != r
        ensures RecordOk(x)
      {
        assert old(RecordOk(x));
      }
    }

    /** PVRMMap: the user maps the area whose record is pending.  If that succeeds, and the kernel asked
        for at least one page, every byte of the area is where the user was told it would be; if not,
        the record is gone. */
    method Map(vma: Vma, pid: nat, tid: nat, flagsOk: bool, cacheTypeOk: bool, kernel: Kernel)
      returns (e: int, ghost r: Record?)
      requires Valid()
      modifies this`pending, this`open, vma, pending, known
      ensures Valid() && known == old(known)
      ensures r == null <==>
                !flagsOk || forall x :: x in old(pending) ==> !Matches(x, vma.pgoff, vma.count * PAGE, pid, tid)
      ensures r != null ==>
                && r.mmapOffset == vma.pgoff && r.realSize == vma.count * PAGE
                && (PFNIsPhysical(vma.pgoff) ==> r.tid == tid)
                && (e == 0 <==> cacheTypeOk && CanMap(r.area.area, 0, vma.pgoff, vma.count, kernel))
                && (e == -EINVAL <==> !cacheTypeOk)
      ensures r == null ==> e == -EINVAL && pending == old(pending) && open == old(open)
      ensures r != null ==> r in old(pending) && r.pid == pid && pending == Del<Record>(old(pending), r)
      ensures e == 0 ==>
                && r != null && r in r.area.records && open == old(open) + multiset{r}
                && r.mapped == 1 && r.userVAddr == vma.start
                && (vma.count > 0 ==> ShowsArea(vma, r.area.area))
      ensures e != 0 && r != null ==>
                && (e == -EINVAL || e == -EAGAIN) && open == old(open)
                && r.area.records == Del<Record>(old(r.area.records), r)
      ensures forall a :: a in known && (r == null || e == 0 || a != r.area) ==> a.records == old(a.records)
      ensures forall x :: x in old(pending) ==> x.refCount == old(x.refCount)
      ensures forall x :: x in old(pending) && x != r ==> x.mapped == old(x.mapped) && x.userVAddr == old(x.userVAddr)
    {
      hide Valid, Linked, OthersOk, Describes, ShowsArea, CanMap, Del;
      e, r := -EINVAL, null;
      if !flagsOk {
        return;
      }
      var x := Find(vma.pgoff, vma.count * PAGE, pid, tid);
      if x == null {
        return;
      }
      r := x;
      Unlist(x);
      e := MapUnlisted(x, vma, cacheTypeOk, kernel);
    }

    /** The part of PVRMMap after the record was taken off the list. */
    method MapUnlisted(r: Record, vma: Vma, cacheTypeOk: bool, kernel: Kernel) returns (e: int)
      requires Linked() && OthersOk(r) && r.area in known && r in r.area.records
      requires !r.onList && r !in pending && r.mapped == open[r] == 0 && r.userVAddr == 0 && Describes(r)
      requires r.realSize == vma.count * PAGE && r.mmapOffset == vma.pgoff
      modifies this`pending, this`open, vma, r`userVAddr, r`mapped, r.area`records
      ensures Valid() && pending == old(pending)
      ensures e == if !cacheTypeOk then -EINVAL
                   else if CanMap(r.area.area, 0, vma.pgoff, vma.count, kernel) then 0 else -EAGAIN
      ensures e == 0 ==>
                && r.area.records == old(r.area.records) && open == old(open) + multiset{r}
                && r.mapped == 1 && r.userVAddr == vma.start
                && (vma.count > 0 ==> ShowsArea(vma, r.area.area))
      ensures e != 0 ==> open == old(open) && r.area.records == Del(old(r.area.records), r)
    {
      hide OneEach, Describes, Good, InPages, RecordOk, ShowsArea, CanMap;
      NotThere(pending, r);
      // The size in the record is the size of the area, so that CheckSize finds nothing wrong.
      RightSize(r, vma.count);
      if !cacheTypeOk {
        Destroy(r);
        return -EINVAL;
      }
      var ok := MapArea(r, vma, kernel);
      if !ok {
        Destroy(r);
        return -EAGAIN;
      }
      r.userVAddr := vma.start;
      Opened(r);
      return 0;
    }

    method MapArea(r: Record, vma: Vma, kernel: Kernel) returns (ok: bool)
      requires Linked() && OthersOk(r) && Describes(r) && r.realSize == vma.count * PAGE && r.mmapOffset == vma.pgoff
      modifies vma
      ensures Linked() && OthersOk(r) && (ok && vma.count > 0 ==> ShowsArea(vma, r.area.area))
      ensures ok <==> CanMap(r.area.area, 0, vma.pgoff, vma.count, kernel)
    {
      RightSize(r, vma.count);
      hide Linked, OthersOk;
      ok := MapWhole(r.area.area, vma, kernel);
    }

    lemma RightSize(r: Record, count: nat)
      requires Describes(r) && r.realSize == count * PAGE
      ensures Good(r.area.area) && InPages(r.area.area, 0) && count * PAGE == RealByteSize(r.area.area)
      ensures PFNIsPhysical(r.mmapOffset) ==> PhysIsContig(r.area.area) && ToCpuPfn(r.area.area, 0) == r.mmapOffset
    {}

    /** MMapVOpen, for a record that is no longer pending. */
    method Opened(r: Record)
      requires Linked() && OthersOk(r) && r.area in known && r in r.area.records
      requires !r.onList && r !in pending && r.mapped == open[r] && Describes(r)
      modifies this`open, r`mapped
      ensures Valid() && r.mapped == old(r.mapped) + 1 && open == old(open) + multiset{r}
    {
      hide OneEach, Describes;
      r.mapped := r.mapped + 1;
      open := open + multiset{r};
      forall b | b in known
        ensures AreaOk(b)
      {
        assert old(AreaOk(b));
      }
      forall b, x | b in known && x in b.records
        ensures RecordOk(x)
      {
        assert x != r ==> old(RecordOk(x));
      }
    }

    /** MMapVOpen: one more mapping of an area that is mapped. */
    method VOpen(r: Record)
      requires Valid() && r in open
      modifies this`open, r`mapped
      ensures Valid() && r.mapped == old(r.mapped) + 1 && open == old(open) + multiset{r}
    {
      assert RecordOk(r);
      Opened(r);
    }

    /** MMapVClose: one mapping less; the record goes with the last. */
    method VClose(r: Record)
      requires Valid() && r in open
      modifies this`open, this`pending, r, r.area`records
      ensures Valid() && open == old(open) - multiset{r} && pending == old(pending)
      ensures r.area.records == if open[r] == 0 then Del(old(r.area.records), r) else old(r.area.records)
    {
      hide OneEach, AreaOk, RecordOk, Describes, Linked, OthersOk, Del;
      Closed(r);
      if r.mapped == 0 {
        NotThere(pending, r);
        Destroy(r);
      }
    }

    /** One mapping less to count. */
    method Closed(r: Record)
      requires Valid() && r in open
      modifies this`open, r`mapped
      ensures Linked() && OthersOk(r) && (r.mapped > 0 ==> Valid()) && r.area in known && r in r.area.records
      ensures open == old(open) - multiset{r} && r.mapped == open[r] && !r.onList && r !in pending
    {
      hide OneEach, Describes, Good, Distinct;
      assert RecordOk(r);
      r.mapped := r.mapped - 1;
      open := open - multiset{r};
      forall b | b in known
        ensures AreaOk(b)
      {
        assert old(AreaOk(b));
      }
      forall b, x | b in known && x in b.records && (x != r || r.mapped > 0)
        ensures RecordOk(x)
      {
        assert old(RecordOk(x));
      }
    }

    // ---------------------------------------------------------------- taking areas and processes away

    /** PVRMMapRemoveRegisteredArea: succeeds exactly if no record of the area is mapped, and then no
        record of it is left.  Otherwise every mapped one stays. */
    method RemoveArea(a: MappedArea) returns (e: Error)
      requires Valid() && a in known && a.registered
      modifies this`pending, this`areas, a
      ensures Valid() && open == old(open)
      ensures e == OK <==> forall r :: r in old(a.records) ==> r.mapped == 0
      ensures e == OK ==>
                && !a.registered && a !in areas && a.records == [] && areas == Del(old(areas), a)
                && forall r :: r in Records() || r in pending ==> r.area != a
      ensures e != OK ==>
                && e == GENERIC && a.registered && areas == old(areas)
                && forall r :: r in old(a.records) && r.mapped != 0 ==> r in a.records
    {
      hide Valid;
      ghost var before, gone := a.records, 0;
      while a.records != []
        invariant Valid() && a.registered && areas == old(areas) && gone <= |before| && a.records == before[gone..]
        invariant forall i :: 0 <= i < gone ==> before[i].mapped == 0
        decreases |a.records|
      {
        assert a.records[0] == before[gone];
        if a.records[0].mapped != 0 {
          return GENERIC;
        }
        DestroyFirst(a);
        gone := gone + 1;
      }
      Forget(a);
      return OK;
    }

    method DestroyFirst(a: MappedArea)
      requires Valid() && a in known && a.registered && a.records != [] && a.records[0].mapped == 0
      modifies this`pending, a`records
      ensures Valid() && a.records == old(a.records)[1..]
    {
      hide OneEach, Describes;
      var r := a.records[0];
      assert r in a.records && AreaOk(a);
      OwnArea(a.records, a, r);
      assert RecordOk(r);
      DelFirst(a.records);
      Destroy(r);
    }

    /** Taking an area without records off the list of areas. */
    method Forget(a: MappedArea)
      requires Valid() && a in known && a.registered && a.records == []
      modifies this`areas, a`registered
      ensures Valid() && !a.registered && a !in areas && areas == Del(old(areas), a)
      ensures forall r :: r in Records() || r in pending ==> r.area != a
    {
      hide OneEach, Describes, Del, Good;
      assert AreaOk(a);
      DelRemoves(areas, a);
      areas := Del(areas, a);
      a.registered := false;
      forall b | b in known
        ensures AreaOk(b)
      {
        assert old(AreaOk(b));
        InDel(old(areas), a, b);
      }
      forall b, x | b in known && x in b.records
        ensures RecordOk(x) && x.area != a
      {
        assert old(RecordOk(x));
        OwnArea(b.records, b, x);
      }
    }

    /** LinuxMMapPerProcessDisconnect: the records that the process has pending go, and only those. */
    method Disconnect(pid: nat)
      requires Valid()
      modifies this`pending, known
      ensures Valid() && known == old(known) && open == old(open) && pending == Others(old(pending), pid)
      ensures forall a {:trigger a in known} :: a in known ==> KeptExcept(old(a.records), a.records, pid, open)
      ensures forall a, r :: a in known && r in a.records && r.pid == pid ==> r.mapped > 0
    {
      hide KeptExcept, Others, Valid;
      NoneGone(pid);
      ghost var before := pending;
      ghost var was := map a | a in known :: a.records;
      DropAllPending(pid, was);
      NonePending(pid, before);
    }

    /** The loop over the pending records. */
    method DropAllPending(pid: nat, ghost was: map<MappedArea, seq<Record>>)
      requires Valid()
      requires forall a {:trigger a in known} :: a in known ==> a in was && KeptExcept(was[a], a.records, pid, open)
      modifies this`pending, known
      ensures Valid() && pending == Others(old(pending), pid)
      ensures forall a {:trigger a in known} :: a in known ==> a in was && KeptExcept(was[a], a.records, pid, open)
    {
      hide KeptExcept, Others, Valid;
      var todo := pending;
      PendingIsDistinct();
      OthersAtEnds(todo, pid);
      for k := 0 to |todo|
        invariant Valid() && pending == Others(todo[..k], pid) + todo[k..]
        invariant forall a {:trigger a in known} :: a in known ==> a in was && KeptExcept(was[a], a.records, pid, open)
      {
        var r := todo[k];
        OthersNext(todo, k, pid);
        if r.pid == pid {
          PendingIsKnown(r);
          DropPending(r, was);
        }
      }
    }

    lemma PendingIsDistinct()
      requires Valid()
      ensures Distinct(pending)
    {}

    lemma PendingIsKnown(r: Record)
      requires Valid() && r in pending
      ensures r.area in known
    {}

    lemma NoneGone(pid: nat)
      ensures forall a {:trigger a in known} :: a in known ==> KeptExcept(a.records, a.records, pid, open)
    {}

    lemma NonePending(pid: nat, before: seq<Record>)
      requires Valid() && pending == Others(before, pid)
      ensures forall a, r :: a in known && r in a.records && r.pid == pid ==> r.mapped > 0
    {
      forall a, r | a in known && r in a.records && r.pid == pid
        ensures r.mapped > 0
      {
        assert RecordOk(r) && r !in pending;
      }
    }

    method DropPending(r: Record, ghost was: map<MappedArea, seq<Record>>)
      requires Valid() && r in pending && r.area in known
      requires forall a {:trigger a in known} :: a in known ==> a in was && KeptExcept(was[a], a.records, r.pid, open)
      modifies this`pending, r.area`records
      ensures Valid() && pending == Del(old(pending), r)
      ensures forall a {:trigger a in known} :: a in known ==> a in was && KeptExcept(was[a], a.records, r.pid, open)
    {
      hide KeptExcept, Valid;
      ghost var before := r.area.records;
      DestroyPending(r);
      KeptTwice(was[r.area], before, r.area.records, r.pid, open);
    }

    method DestroyPending(r: Record)
      requires Valid() && r in pending
      modifies this`pending, r.area`records
      ensures Valid() && pending == Del(old(pending), r) && open[r] == 0
      ensures KeptExcept(old(r.area.records), r.area.records, r.pid, open)
    {
      hide OneEach, Describes;
      assert RecordOk(r) && AreaOk(r.area);
      OneLess(r.area.records, r.area, r);
      KeptAfterDel(r.area.records, r.area, r, open);
      Destroy(r);
    }
  }

  lemma KeptAfterDel(records: seq<Record>, a: MappedArea, r: Record, open: multiset<Record>)
    requires OneEach(records, a) && open[r] == 0
    ensures KeptExcept(records, Del(records, r), r.pid, open)
  {
    forall x | x in Del(records, r)
      ensures x in records
    {
      InDel(records, r, x);
    }
    forall x | x in records && (x.pid != r.pid || open[x] > 0)
      ensures x in Del(records, r)
    {
      InDel(records, r, x);
    }
  }

  lemma KeptTwice(was: seq<Record>, now: seq<Record>, later: seq<Record>, pid: nat, open: multiset<Record>)
    requires KeptExcept(was, now, pid, open) && KeptExcept(now, later, pid, open)
    ensures KeptExcept(was, later, pid, open)
  {}

  /** The records of other processes. */
  function Others(xs: seq<Record>, pid: nat): (r: seq<Record>)
    ensures forall x :: x in r ==> x in xs && x.pid != pid
  {
    if xs == [] then [] else
      var last := xs[|xs| - 1];
      Others(xs[..|xs| - 1], pid) + if last.pid == pid then [] else [last]
  }

  /** Only records of the process went, and none that is mapped. */
  ghost predicate KeptExcept(was: seq<Record>, now: seq<Record>, pid: nat, open: multiset<Record>) {
    && (forall r :: r in now ==> r in was)
    && (forall r :: r in was && (r.pid != pid || open[r] > 0) ==> r in now)
  }

  /** Where the loop over the pending records of a process starts and ends. */
  lemma OthersAtEnds(xs: seq<Record>, pid: nat)
    ensures Others(xs[..0], pid) + xs[0..] == xs && Others(xs[..|xs|], pid) + xs[|xs|..] == Others(xs, pid)
  {
    assert xs[..|xs|] == xs;
  }

  /** What one round of it has to do. */
  lemma OthersNext(xs: seq<Record>, k: nat, pid: nat)
    requires k < |xs| && Distinct(xs)
    ensures xs[k] in Others(xs[..k], pid) + xs[k..]
    ensures Others(xs[..k + 1], pid) + xs[k + 1..] ==
              if xs[k].pid == pid then Del(Others(xs[..k], pid) + xs[k..], xs[k]) else Others(xs[..k], pid) + xs[k..]
  {
    var front, x, rest := Others(xs[..k], pid), xs[k], xs[k + 1..];
    assert xs[..k + 1][..k] == xs[..k];
    assert xs[k..] == [x] + rest;
    assert front + xs[k..] == front + [x] + rest;
    assert x !in xs[..k];
    hide Others, Del;
    DelMiddle(front, x, rest);
  }

  lemma {:induction false} DelMiddle<T>(front: seq<T>, x: T, rest: seq<T>)
    requires x !in front
    ensures Del(front + [x] + rest, x) == front + rest
  {
    var all := front + [x] + rest;
    if front == [] {
      assert all[1..] == rest;
    } else {
      assert all[1..] == front[1..] + [x] + rest;
      DelMiddle(front[1..], x, rest);
    }
  }

  lemma {:induction false} NotThere<T>(xs: seq<T>, x: T)
    requires x !in xs
    ensures Del(xs, x) == xs
  {
    if xs != [] {
      NotThere(xs[1..], x);
      assert xs == [xs[0]] + xs[1..];
    }
  }
}
