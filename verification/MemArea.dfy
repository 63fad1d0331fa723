/** The memory areas of pvr/mm.c, as far as addresses go: what physical address each byte of an area
    has, and how pvr/mmap.c maps an area, or a part of one, to a user's addresses. */
module MemArea {

  const PAGE := 4096
  const U32 := 0x1_0000_0000

  /** struct LinuxMemArea.  An EXTERNAL_KV area has a base address or a list of pages; pages of the
      other two kinds of list are given by number. */
  datatype Area =
    | IORemap(phys: nat, bytes: nat)
    | ExternalContig(base: nat, bytes: nat)
    | ExternalPages(addrs: seq<nat>, bytes: nat)
    | IO(phys: nat, bytes: nat)
    | VMalloc(pfns: seq<nat>, bytes: nat)
    | AllocPages(pfns: seq<nat>, bytes: nat)
    | SubAlloc(parent: Area, offset: nat, bytes: nat)

  /** RANGE_TO_PAGES and PAGE_ALIGN, in 32-bit arithmetic. */
  function RangeToPages(bytes: nat): nat { (bytes + PAGE - 1) % U32 / PAGE }

  function PageAlign(n: nat): nat { (n + PAGE - 1) % U32 / PAGE * PAGE }

  /** What fits into as many pages as the code computes. */
  lemma PagesSuffice(bytes: nat)
    requires bytes < U32
    ensures bytes <= RangeToPages(bytes) * PAGE <==> bytes <= U32 - PAGE
    ensures bytes <= U32 - PAGE ==> RangeToPages(bytes) == (bytes + PAGE - 1) / PAGE
  {}

  /** No area is empty or wraps around the address space, page lists have as many pages as are
      computed and those hold the area, and a part lies within its parent. */
  ghost predicate Good(a: Area) {
    && 0 < a.bytes < U32
    && match a
       case IORemap(phys, bytes) => phys + bytes <= U32
       case IO(phys, bytes) => phys + bytes <= U32
       case ExternalContig(base, bytes) => base + bytes <= U32
       case ExternalPages(addrs, bytes) =>
         && |addrs| == RangeToPages(bytes) && bytes <= |addrs| * PAGE
         && forall i :: 0 <= i < |addrs| ==> addrs[i] % PAGE == 0 && addrs[i] < U32
       case VMalloc(pfns, bytes) => |pfns| == RangeToPages(bytes) && bytes <= |pfns| * PAGE
       case AllocPages(pfns, bytes) => |pfns| == RangeToPages(bytes) && bytes <= |pfns| * PAGE
       case SubAlloc(parent, offset, bytes) => Good(parent) && offset + bytes <= parent.bytes
  }

  /** The byte is in a page the area has. */
  predicate InPages(a: Area, x: nat) {
    match a
    case ExternalPages(addrs, _) => x / PAGE < |addrs|
    case VMalloc(pfns, _) => x / PAGE < |pfns|
    case AllocPages(pfns, _) => x / PAGE < |pfns|
    case SubAlloc(parent, offset, _) => InPages(parent, offset + x)
    case _ => true
  }

  /** LinuxMemAreaToCpuPAddr */
  function ToCpuPAddr(a: Area, x: nat): nat
    requires InPages(a, x)
  {
    match a
    case IORemap(phys, _) => phys + x
    case ExternalContig(base, _) => base + x
    case ExternalPages(addrs, _) => addrs[x / PAGE] + x % PAGE
    case IO(phys, _) => phys + x
    case VMalloc(pfns, _) => pfns[x / PAGE] * PAGE + x % PAGE
    case AllocPages(pfns, _) => pfns[x / PAGE] * PAGE + x % PAGE
    case SubAlloc(parent, offset, _) => ToCpuPAddr(parent, offset + x)
  }

  /** LinuxMemAreaToCpuPFN */
  function ToCpuPfn(a: Area, x: nat): nat
    requires InPages(a, x)
  {
    ToCpuPAddr(a, x) / PAGE
  }

  /** LinuxMemAreaPhysIsContig */
  predicate PhysIsContig(a: Area) {
    match a
    case IORemap(_, _) => true
    case IO(_, _) => true
    case ExternalContig(_, _) => true
    case ExternalPages(_, _) => false
    case VMalloc(_, _) => false
    case AllocPages(_, _) => false
    case SubAlloc(parent, _, _) => PhysIsContig(parent)
  }

  datatype Option<T> = None | Some(value: T)

  /** LinuxMemAreaOffsetToPage; a page is given by its number. */
  function OffsetToPage(a: Area, x: nat): Option<nat>
    requires InPages(a, x)
  {
    match a
    case AllocPages(pfns, _) => Some(pfns[x / PAGE])
    case VMalloc(pfns, _) => Some(pfns[x / PAGE])
    case SubAlloc(parent, offset, _) => OffsetToPage(parent, offset + x)
    case _ => None
  }

  // ---------------------------------------------------------------- what holds of every area

  /** Every byte of an area, however deep a part of another it is, is in its pages. */
  lemma {:induction false} BytesAreInPages(a: Area, x: nat)
    requires Good(a) && x < a.bytes
    ensures InPages(a, x) && ToCpuPAddr(a, x) / PAGE == ToCpuPfn(a, x)
  {
    match a
    case SubAlloc(parent, offset, _) => BytesAreInPages(parent, offset + x);
    case _ => PageOfByte(a.bytes, RangeToPages(a.bytes), x);
  }

  lemma PageOfByte(bytes: nat, n: nat, x: nat)
    requires x < bytes
    ensures bytes <= n * PAGE ==> x / PAGE < n
  {}

  /** Where an area's bytes are contiguous, so are their addresses. */
  lemma {:induction false} ContigAddresses(a: Area, x: nat, d: nat)
    requires PhysIsContig(a)
    ensures InPages(a, x) && InPages(a, x + d) && ToCpuPAddr(a, x + d) == ToCpuPAddr(a, x) + d
  {
    match a
    case SubAlloc(parent, offset, _) =>
      ContigAddresses(parent, offset + x, d);
      assert offset + (x + d) == offset + x + d;
    case _ =>
  }

  lemma {:induction false} ContigFits(a: Area, x: nat)
    requires Good(a) && PhysIsContig(a) && x < a.bytes
    ensures InPages(a, x) && ToCpuPAddr(a, x) < U32 && PFNIsPhysical(ToCpuPfn(a, x))
  {
    match a
    case SubAlloc(parent, offset, _) => ContigFits(parent, offset + x);
    case _ =>
  }

  /** Where the page of byte v starts. */
  ghost function PageStart(v: nat): nat { v / PAGE * PAGE }

  ghost predicate InOnePage(m: nat, n: nat) { m / PAGE == n / PAGE }

  /** Two bytes are at the same place in their pages. */
  ghost predicate SamePlace(m: nat, n: nat) { m % PAGE == n % PAGE }

  /** Where they are not, a byte's place in its page is its place in a page of the root. */
  lemma {:induction false} PagedAddresses(a: Area, x: nat)
    requires Good(a) && !PhysIsContig(a) && InPages(a, x)
    ensures SamePlace(ToCpuPAddr(a, x), TotalOffset(a) + x)
  {
    hide SamePlace;
    match a
    case SubAlloc(parent, offset, _) =>
      PagedAddresses(parent, offset + x);
      assert TotalOffset(a) + x == TotalOffset(parent) + (offset + x);
    case ExternalPages(addrs, _) => PlaceKept(addrs[x / PAGE] / PAGE, addrs[x / PAGE], x);
    case VMalloc(pfns, _) => PlaceKept(pfns[x / PAGE], pfns[x / PAGE] * PAGE, x);
    case AllocPages(pfns, _) => PlaceKept(pfns[x / PAGE], pfns[x / PAGE] * PAGE, x);
  }

  lemma PlaceKept(pfn: nat, addr: nat, x: nat)
    requires addr == pfn * PAGE
    ensures SamePlace(addr + x % PAGE, x)
  {
    assert (addr + x % 4096) % 4096 == x % 4096;
  }

  /** Two bytes in the same page of the root are in the same physical page. */
  lemma {:induction false} SamePage(a: Area, x: nat, y: nat)
    requires Good(a) && !PhysIsContig(a) && InPages(a, x)
    requires InOnePage(TotalOffset(a) + x, TotalOffset(a) + y)
    ensures InPages(a, y) && ToCpuPfn(a, y) == ToCpuPfn(a, x)
  {
    if a.SubAlloc? {
      assert TotalOffset(a) + x == TotalOffset(a.parent) + (a.offset + x);
      assert TotalOffset(a) + y == TotalOffset(a.parent) + (a.offset + y);
      SamePage(a.parent, a.offset + x, a.offset + y);
    } else {
      assert x / PAGE == y / PAGE;
      RootPage(a, x);
      RootPage(a, y);
    }
  }

  lemma RootPage(a: Area, x: nat)
    requires Good(a) && !PhysIsContig(a) && !a.SubAlloc?
    ensures var pages := if a.ExternalPages? then a.addrs else a.pfns;
            && (InPages(a, x) <==> x / PAGE < |pages|)
            && (InPages(a, x) ==>
                  ToCpuPfn(a, x) == if a.ExternalPages? then pages[x / PAGE] / PAGE else pages[x / PAGE])
  {}

  /** The area that is not part of another one. */
  ghost function Root(a: Area): Area {
    match a
    case SubAlloc(parent, _, _) => Root(parent)
    case _ => a
  }

  /** However deep a part is nested, its bytes are those of the root from its total offset on; and it is
      said to be contiguous exactly if the root is registers, other device memory or a single block. */
  lemma {:induction false} AddressInRoot(a: Area, x: nat)
    ensures InPages(a, x) <==> InPages(Root(a), TotalOffset(a) + x)
    ensures InPages(a, x) ==> ToCpuPAddr(a, x) == ToCpuPAddr(Root(a), TotalOffset(a) + x)
    ensures PhysIsContig(a) <==> Root(a).IORemap? || Root(a).IO? || Root(a).ExternalContig?
    ensures !Root(a).SubAlloc?
  {
    if a.SubAlloc? {
      AddressInRoot(a.parent, a.offset + x);
      assert TotalOffset(a) + x == TotalOffset(a.parent) + (a.offset + x);
    }
  }

  /** How far into its root an area starts. */
  ghost function TotalOffset(a: Area): nat {
    match a
    case SubAlloc(parent, offset, _) => TotalOffset(parent) + offset
    case _ => 0
  }

  /** The page of a byte, where there is a page at all, is the one its address is in. */
  lemma {:induction false} PageOfAddress(a: Area, x: nat)
    requires Good(a) && InPages(a, x)
    ensures OffsetToPage(a, x).Some? <==> Root(a).VMalloc? || Root(a).AllocPages?
    ensures OffsetToPage(a, x).Some? ==> OffsetToPage(a, x).value == ToCpuPfn(a, x)
  {
    match a
    case SubAlloc(parent, offset, _) => PageOfAddress(parent, offset + x);
    case _ =>
  }

  // ---------------------------------------------------------------- making areas

  /** Byte x of one area is byte offset + x of the other. */
  ghost predicate SameByte(a: Area, x: nat, b: Area, offset: nat) {
    InPages(a, x) && InPages(b, offset + x) && ToCpuPAddr(a, x) == ToCpuPAddr(b, offset + x)
  }

  /** Byte x is at its place in the page whose address the list has for it. */
  ghost predicate ByteOn(a: Area, addrs: seq<nat>, x: nat) {
    InPages(a, x) && x / 4096 < |addrs| && ToCpuPAddr(a, x) == addrs[x / 4096] + x % 4096
  }

  /** Each page follows the one before. */
  ghost predicate Consecutive(addrs: seq<nat>, n: nat)
    requires n <= |addrs|
  {
    forall i: nat {:trigger addrs[i]} :: i < n ==> addrs[i] == KthPage(addrs[0], i)
  }

  function KthPage(addr: nat, k: nat): nat { (addr + k * PAGE) % U32 }

  lemma NextPage(addr: nat, k: nat)
    ensures KthPage(addr, k + 1) == (KthPage(addr, k) + PAGE) % U32
  {
    var n := addr + k * 4096;
    var q, r := n / 0x1_0000_0000, n % 0x1_0000_0000;
    assert n == q * 0x1_0000_0000 + r;
    if r + PAGE < U32 {
      Remainder(n + 4096, q, r + 4096);
      Remainder(r + 4096, 0, r + 4096);
    } else {
      Remainder(n + 4096, q + 1, r + 4096 - 0x1_0000_0000);
      Remainder(r + 4096, 1, r + 4096 - 0x1_0000_0000);
    }
  }

  lemma Remainder(n: nat, q: nat, r: nat)
    requires r < 0x1_0000_0000 && n == q * 0x1_0000_0000 + r
    ensures n % U32 == r
  {}

  /** PagesAreContiguous */
  method PagesAreContiguous(addrs: seq<nat>, bytes: nat) returns (yes: bool)
    requires 0 < |addrs| && RangeToPages(bytes) <= |addrs| && addrs[0] < U32
    ensures yes <==> Consecutive(addrs, RangeToPages(bytes))
  {
    assert KthPage(addrs[0], 0) == addrs[0];
    hide KthPage;
    var i, check := 0, addrs[0];
    while i < RangeToPages(bytes)
      invariant i <= RangeToPages(bytes) && check == KthPage(addrs[0], i)
      invariant Consecutive(addrs, i)
    {
      if addrs[i] != check {
        return false;
      }
      NextPage(addrs[0], i);
      i, check := i + 1, (check + PAGE) % U32;
    }
    return true;
  }

  /** NewExternalKVLinuxMemArea, for memory given by its list of pages.  Whether or not the list is
      recognised as contiguous, every byte has the address the list gives it. */
  method NewExternalPages(addrs: seq<nat>, bytes: nat) returns (a: Area)
    requires Good(ExternalPages(addrs, bytes))
    requires Consecutive(addrs, |addrs|) ==> addrs[0] + bytes <= U32
    ensures Good(a) && a.bytes == bytes && (PhysIsContig(a) <==> Consecutive(addrs, |addrs|))
    ensures forall x: nat {:trigger SameByte(a, x, ExternalPages(addrs, bytes), 0)} :: x < bytes ==>
              SameByte(a, x, ExternalPages(addrs, bytes), 0)
    ensures forall x: nat {:trigger ByteOn(a, addrs, x)} :: x < bytes ==> ByteOn(a, addrs, x)
  {
    var contig := PagesAreContiguous(addrs, bytes);
    a := if contig then ExternalContig(addrs[0], bytes) else ExternalPages(addrs, bytes);
    forall x: nat | x < bytes
      ensures SameByte(a, x, ExternalPages(addrs, bytes), 0)
    {
      assert x == x / PAGE * PAGE + x % PAGE;
      PageOfByte(bytes, |addrs|, x);
    }
    forall x: nat | x < bytes
      ensures ByteOn(a, addrs, x)
    {
      assert SameByte(a, x, ExternalPages(addrs, bytes), 0);
    }
  }

  /** Byte x of the area is that far after the address. */
  ghost predicate ByteFrom(a: Area, base: nat, x: nat) {
    InPages(a, x) && ToCpuPAddr(a, x) == base + x
  }

  /** The area starts at the address and goes on from there. */
  ghost predicate StartsAt(a: Area, base: nat) {
    forall x: nat {:trigger ByteFrom(a, base, x)} :: x < a.bytes ==> ByteFrom(a, base, x)
  }

  /** Byte x is at its place in the page that the list has for it. */
  ghost predicate ByteIn(a: Area, pfns: seq<nat>, x: nat) {
    InPages(a, x) && x / 4096 < |pfns| && ToCpuPAddr(a, x) == pfns[x / 4096] * 4096 + x % 4096
  }

  ghost predicate LiesIn(a: Area, pfns: seq<nat>) {
    forall x: nat {:trigger ByteIn(a, pfns, x)} :: x < a.bytes ==> ByteIn(a, pfns, x)
  }

  /** NewIOLinuxMemArea, if the record of the area can be allocated. */
  method NewIO(base: nat, bytes: nat, recordOk: bool) returns (a: Option<Area>)
    requires 0 < bytes < U32 && base + bytes <= U32
    ensures a.Some? <==> recordOk
    ensures a.Some? ==> a.value.IO? && Good(a.value) && a.value.bytes == bytes && StartsAt(a.value, base)
  {
    if !recordOk {
      return None;
    }
    return Some(IO(base, bytes));
  }

  /** NewIORemapLinuxMemArea, if ioremap succeeds as well. */
  method NewIORemap(base: nat, bytes: nat, recordOk: bool, remapOk: bool) returns (a: Option<Area>)
    requires 0 < bytes < U32 && base + bytes <= U32
    ensures a.Some? <==> recordOk && remapOk
    ensures a.Some? ==> a.value.IORemap? && Good(a.value) && a.value.bytes == bytes && StartsAt(a.value, base)
  {
    if !recordOk || !remapOk {
      return None;
    }
    return Some(IORemap(base, bytes));
  }

  /** NewExternalKVLinuxMemArea, for a block that is known to be contiguous. */
  method NewExternalBlock(base: nat, bytes: nat, recordOk: bool) returns (a: Option<Area>)
    requires 0 < bytes < U32 && base + bytes <= U32
    ensures a.Some? <==> recordOk
    ensures a.Some? ==> a.value.ExternalContig? && Good(a.value) && a.value.bytes == bytes && StartsAt(a.value, base)
  {
    if !recordOk {
      return None;
    }
    return Some(ExternalContig(base, bytes));
  }

  /** NewVMallocLinuxMemArea: vmalloc takes the pages from wherever they are. */
  method NewVMalloc(bytes: nat, recordOk: bool, pages: Option<seq<nat>>) returns (a: Option<Area>)
    requires 0 < bytes < U32 && (pages.Some? ==> |pages.value| == RangeToPages(bytes) && bytes <= |pages.value| * PAGE)
    ensures a.Some? <==> recordOk && pages.Some?
    ensures a.Some? ==> a.value.VMalloc? && Good(a.value) && a.value.bytes == bytes && LiesIn(a.value, pages.value)
  {
    if !recordOk || pages.None? {
      return None;
    }
    a := Some(VMalloc(pages.value, bytes));
    forall x: nat | x < bytes
      ensures ByteIn(a.value, pages.value, x)
    {
      BytesAreInPages(a.value, x);
    }
  }

  /** NewAllocPagesLinuxMemArea: page after page is taken from the system and, if one cannot be had,
      all are given back. */
  method NewAllocPages(bytes: nat, recordOk: bool, listOk: bool, page: nat -> Option<nat>)
    returns (a: Option<Area>, ghost held: nat)
    requires 0 < bytes <= U32 - PAGE
    ensures a.Some? <==> recordOk && listOk && forall i: nat :: i < RangeToPages(bytes) ==> page(i).Some?
    ensures a.None? ==> held == 0
    ensures a.Some? ==>
              && held == RangeToPages(bytes) && a.value.AllocPages? && Good(a.value) && a.value.bytes == bytes
              && LiesIn(a.value, a.value.pfns)
              && forall i: nat :: i < held ==> i < |a.value.pfns| && page(i) == Some(a.value.pfns[i])
  {
    held := 0;
    if !recordOk || !listOk {
      return None, held;
    }
    var pfns: seq<nat> := [];
    while |pfns| < RangeToPages(bytes)
      invariant |pfns| <= RangeToPages(bytes) && held == |pfns|
      invariant forall i: nat :: i < |pfns| ==> page(i) == Some(pfns[i])
    {
      var next := page(|pfns|);
      if next.None? {
        var i := |pfns|;
        while i > 0
          invariant held == i
        {
          i := i - 1;
          held := held - 1;
        }
        return None, held;
      }
      pfns := pfns + [next.value];
      held := held + 1;
    }
    PagesSuffice(bytes);
    a := Some(AllocPages(pfns, bytes));
    forall x: nat | x < bytes
      ensures ByteIn(a.value, pfns, x)
    {
      BytesAreInPages(a.value, x);
    }
  }

  /** NewSubLinuxMemArea: byte x of a part is byte offset + x of the whole. */
  method NewSub(parent: Area, offset: nat, bytes: nat) returns (a: Area)
    requires Good(parent) && 0 < bytes && offset + bytes <= parent.bytes
    ensures Good(a) && a.bytes == bytes && (PhysIsContig(a) <==> PhysIsContig(parent))
    ensures forall x: nat {:trigger SameByte(a, x, parent, offset)} :: x < bytes ==> SameByte(a, x, parent, offset)
  {
    a := SubAlloc(parent, offset, bytes);
    forall x: nat | x < bytes
      ensures SameByte(a, x, parent, offset)
    {
      BytesAreInPages(parent, offset + x);
    }
  }

  // ---------------------------------------------------------------- what the user maps

  /** DetermineUsersSizeAndByteOffset: the first byte's place in its page, and how much whole pages
      it takes to cover the area from there. */
  ghost function ByteOffset(a: Area): nat
    requires InPages(a, 0)
  {
    ToCpuPAddr(a, 0) % PAGE
  }

  ghost function RealByteSize(a: Area): nat
    requires InPages(a, 0)
  {
    PageAlign((a.bytes + ByteOffset(a)) % U32)
  }

  /** The size comes out right unless it takes all pages of the address space; then it is 0. */
  predicate TooLarge(bytes: nat, offset: nat) { bytes + offset > U32 - PAGE }

  lemma SizeIsRight(a: Area)
    requires Good(a) && InPages(a, 0)
    ensures TooLarge(a.bytes, ByteOffset(a)) ==> RealByteSize(a) == 0 && PhysIsContig(a)
    ensures !TooLarge(a.bytes, ByteOffset(a)) ==>
              && a.bytes + ByteOffset(a) <= RealByteSize(a) < a.bytes + ByteOffset(a) + PAGE
              && RealByteSize(a) % PAGE == 0
  {
    if PhysIsContig(a) {
      ContigEnds(a);
      hide Good, InPages, ToCpuPAddr, PhysIsContig;
      AlignCovers(a.bytes + ByteOffset(a));
    } else {
      PagedEnds(a);
      PagedStart(a);
      hide Good, InPages, ToCpuPAddr, TotalOffset, PhysIsContig, ByteOffset;
      OffsetInPage(TotalOffset(a), ByteOffset(a));
      AlignCovers(a.bytes + ByteOffset(a));
    }
  }

  lemma OffsetInPage(t: nat, o: nat)
    requires o == t % PAGE
    ensures o <= t
  {}

  lemma PagedStart(a: Area)
    requires Good(a) && !PhysIsContig(a) && InPages(a, 0)
    ensures ByteOffset(a) == TotalOffset(a) % PAGE
  {
    PagedAddresses(a, 0);
  }

  lemma AlignCovers(n: nat)
    requires n <= U32
    ensures n <= U32 - PAGE ==> n <= PageAlign(n % U32) < n + PAGE && PageAlign(n % U32) % PAGE == 0
    ensures n > U32 - PAGE ==> PageAlign(n % U32) == 0
  {
    var m := n % 0x1_0000_0000 + 4095;
    if n <= U32 - PAGE {
      assert n % 0x1_0000_0000 == n && m % 0x1_0000_0000 == m;
    } else if n < U32 {
      assert n % 0x1_0000_0000 == n && m % 0x1_0000_0000 == m - 0x1_0000_0000;
    }
  }

  /** A contiguous area ends within the address space. */
  lemma {:induction false} ContigEnds(a: Area)
    requires Good(a) && PhysIsContig(a)
    ensures InPages(a, 0) && ToCpuPAddr(a, 0) + a.bytes <= U32 && ByteOffset(a) + a.bytes <= U32
  {
    if a.SubAlloc? {
      ContigEnds(a.parent);
      ContigAddresses(a.parent, 0, a.offset);
    }
    OffsetInPage(ToCpuPAddr(a, 0), ToCpuPAddr(a, 0) % PAGE);
  }

  /** Another one ends within its root, which is not that large. */
  lemma {:induction false} PagedEnds(a: Area)
    requires Good(a) && !PhysIsContig(a)
    ensures TotalOffset(a) + a.bytes <= U32 - PAGE
  {
    if a.SubAlloc? {
      PagedEnds(a.parent);
    } else {
      PagesSuffice(a.bytes);
    }
  }

  method DetermineUsersSizeAndByteOffset(a: Area) returns (size: nat, offset: nat)
    requires Good(a) && InPages(a, 0)
    ensures size == RealByteSize(a) && offset == ByteOffset(a)
    ensures size == if TooLarge(a.bytes, offset) then 0 else (a.bytes + offset + PAGE - 1) / PAGE * PAGE
    ensures size % PAGE == 0 && (a.bytes + offset <= size <==> !TooLarge(a.bytes, offset))
    ensures TooLarge(a.bytes, offset) ==> PhysIsContig(a)
  {
    SizeIsRight(a);
    hide Good;
    offset := ToCpuPAddr(a, 0) % PAGE;
    size := PageAlign((a.bytes + offset) % U32);
    LeastPages(size, a.bytes + offset);
  }

  lemma LeastPages(size: nat, n: nat)
    ensures n <= size < n + PAGE && size % PAGE == 0 ==> size == (n + PAGE - 1) / PAGE * PAGE
  {}

  /** Counted from t's page, byte t + j is byte v. */
  lemma PagesFrom(t: nat, j: nat, v: nat)
    requires v == t % PAGE + j
    ensures InOnePage(t + j, t + PageStart(v)) && SamePlace(t + j, v)
    ensures t + j == (t / PAGE + v / PAGE) * PAGE + v % PAGE
  {
    assert t + j == t / PAGE * PAGE + v;
    assert t + PageStart(v) == (t / PAGE + v / PAGE) * PAGE + t % PAGE;
  }

  /** The user's page k, of those the area takes, is where it should be: it has a page of the area,
      which for a contiguous area is the k-th from the first. */
  lemma UserPage(a: Area, k: nat)
    requires Good(a) && InPages(a, 0) && k * PAGE < RealByteSize(a)
    ensures InPages(a, k * PAGE)
    ensures PhysIsContig(a) ==> ToCpuPfn(a, k * PAGE) == ToCpuPfn(a, 0) + k
  {
    if PhysIsContig(a) {
      ContigAddresses(a, 0, k * PAGE);
    } else {
      UserPagedPage(a, k);
    }
  }

  /** The page of the root that k * PAGE is in has, at the latest, the last byte of the area. */
  lemma UserPagedPage(a: Area, k: nat)
    requires Good(a) && !PhysIsContig(a) && InPages(a, 0) && k * PAGE < RealByteSize(a)
    ensures InPages(a, k * PAGE)
  {
    hide ToCpuPAddr, InPages, TotalOffset, Good, PhysIsContig, RealByteSize, ByteOffset, InOnePage, SamePlace;
    hide ToCpuPfn;
    var x := ByteInPage(a, k);
    BytesAreInPages(a, x);
    SamePage(a, x, k * PAGE);
  }

  /** A byte of the area in the user's page k. */
  lemma ByteInPage(a: Area, k: nat) returns (x: nat)
    requires Good(a) && !PhysIsContig(a) && InPages(a, 0) && k * PAGE < RealByteSize(a)
    ensures x < a.bytes && InOnePage(TotalOffset(a) + x, TotalOffset(a) + k * PAGE)
  {
    assert 0 < a.bytes;
    hide ToCpuPAddr, InPages, TotalOffset, Good, PhysIsContig, RealByteSize, ByteOffset, InOnePage, SamePlace;
    hide PageStart;
    PagedStart(a);
    SizeIsRight(a);
    x := SomeByte(a.bytes, ByteOffset(a), RealByteSize(a), k);
    PagesFrom(TotalOffset(a), x, ByteOffset(a) + x);
  }

  lemma LastPage(n: nat, size: nat, k: nat)
    requires 0 < n && size < n + PAGE && size % PAGE == 0 && k * PAGE < size
    ensures k <= (n - 1) / PAGE
  {}

  lemma SomeByte(bytes: nat, o: nat, size: nat, k: nat) returns (x: nat)
    requires 0 < bytes && o < PAGE && k * PAGE < size && size < bytes + o + PAGE && size % PAGE == 0
    ensures x < bytes && PageStart(o + x) == k * PAGE
  {
    LastPage(bytes + o, size, k);
    x := if k == 0 then 0 else k * PAGE - o;
  }

  /** Byte j of the area, which is ByteOffset + j bytes into the user's pages, is in the page that is
      mapped there and at the same place in it; and that is among the pages mapped unless the area
      takes all pages of the address space. */
  lemma UserByte(a: Area, j: nat)
    requires Good(a) && j < a.bytes && InPages(a, 0)
    ensures var v := ByteOffset(a) + j;
            && (v < RealByteSize(a) <==> !TooLarge(a.bytes, ByteOffset(a)))
            && InPages(a, j) && InPages(a, PageStart(v))
            && ToCpuPAddr(a, j) == ToCpuPfn(a, PageStart(v)) * PAGE + v % PAGE
  {
    hide ToCpuPAddr, InPages, TotalOffset, Good, PhysIsContig, ByteOffset, RealByteSize, TooLarge, ToCpuPfn;
    var v := ByteOffset(a) + j;
    UserByteInSize(a, j);
    BytesAreInPages(a, j);
    UserByteHasPage(a, j, v);
    if PhysIsContig(a) {
      UserContigByte(a, j, v);
    } else {
      UserPagedByte(a, j, v);
    }
  }

  lemma UserByteInSize(a: Area, j: nat)
    requires Good(a) && j < a.bytes && InPages(a, 0)
    ensures ByteOffset(a) + j < RealByteSize(a) <==> !TooLarge(a.bytes, ByteOffset(a))
  {
    SizeIsRight(a);
    hide ToCpuPAddr, InPages, Good, PhysIsContig, ByteOffset, RealByteSize;
  }

  lemma UserByteHasPage(a: Area, j: nat, v: nat)
    requires Good(a) && j < a.bytes && InPages(a, 0) && v == ByteOffset(a) + j
    ensures InPages(a, PageStart(v))
  {
    UserByteInSize(a, j);
    if PhysIsContig(a) {
      ContigAddresses(a, 0, PageStart(v));
    } else {
      SizeIsRight(a);
      PageStarts(v, RealByteSize(a));
      hide ToCpuPAddr, InPages, Good, PhysIsContig, ByteOffset, RealByteSize;
      UserPage(a, v / PAGE);
    }
  }

  lemma PageStarts(v: nat, size: nat)
    requires v < size
    ensures PageStart(v) < size
  {}

  lemma UserContigByte(a: Area, j: nat, v: nat)
    requires Good(a) && PhysIsContig(a) && InPages(a, 0) && InPages(a, j) && v == ByteOffset(a) + j
    requires InPages(a, PageStart(v))
    ensures ToCpuPAddr(a, j) == ToCpuPfn(a, PageStart(v)) * PAGE + v % PAGE
  {
    ContigAddresses(a, 0, j);
    ContigAddresses(a, 0, PageStart(v));
    hide ToCpuPAddr, InPages, Good, PhysIsContig;
    PlaceInPage(ToCpuPAddr(a, 0), j, v);
  }

  /** Counted from t, the page of byte v starts in the page of byte j. */
  lemma PlaceInPage(t: nat, j: nat, v: nat)
    requires v == t % PAGE + j
    ensures t + j == (t + PageStart(v)) / PAGE * PAGE + v % PAGE
  {
    PagesFrom(t, j, v);
    WholeAndPart(t + j, t + j, v, (t + PageStart(v)) / PAGE);
  }

  lemma UserPagedByte(a: Area, j: nat, v: nat)
    requires Good(a) && !PhysIsContig(a) && InPages(a, 0) && InPages(a, j) && v == ByteOffset(a) + j
    requires InPages(a, PageStart(v))
    ensures ToCpuPAddr(a, j) == ToCpuPfn(a, PageStart(v)) * PAGE + v % PAGE
  {
    hide ToCpuPAddr, InPages, TotalOffset, Good, PhysIsContig, ByteOffset, InOnePage, SamePlace, ToCpuPfn, PageStart;
    PagedStart(a);
    PagedAddresses(a, j);
    PfnOf(a, j);
    var t := TotalOffset(a);
    PagesFrom(t, j, v);
    SamePage(a, j, PageStart(v));
    WholeAndPart(ToCpuPAddr(a, j), t + j, v, ToCpuPfn(a, PageStart(v)));
  }

  lemma PfnOf(a: Area, x: nat)
    requires InPages(a, x)
    ensures ToCpuPfn(a, x) == ToCpuPAddr(a, x) / PAGE
  {
    hide ToCpuPAddr, InPages;
  }

  lemma WholeAndPart(addr: nat, n: nat, v: nat, q: nat)
    requires SamePlace(addr, n) && SamePlace(n, v) && q == addr / PAGE
    ensures addr == q * PAGE + v % PAGE
  {}

  // ---------------------------------------------------------------- mapping

  /** struct vm_area_struct: a range of whole user pages, and which physical page each is mapped to
      so far. */
  class Vma {
    const start: nat
    const count: nat      // of pages
    const pgoff: nat
    var pages: map<nat, nat>

    constructor (start: nat, count: nat, pgoff: nat)
      ensures this.start == start && this.count == count && this.pgoff == pgoff && pages == map[]
    {
      this.start, this.count, this.pgoff, pages := start, count, pgoff, map[];
    }

    /** Where the user's byte v, counted from the start, leads. */
    ghost function At(v: nat): nat
      requires v / PAGE in pages
      reads this
    {
      pages[v / PAGE] * PAGE + v % PAGE
    }
  }

  const LAST_PHYSICAL_PFN := 0x7fff_ffff

  predicate PFNIsPhysical(pfn: nat) { pfn <= LAST_PHYSICAL_PFN }

  ghost predicate HasPage(a: Area, x: nat, k: nat) {
    InPages(a, x + k * PAGE)
  }

  /** Page k of the range is mapped to the page of byte x + k * PAGE. */
  ghost predicate MapsPage(vma: Vma, a: Area, x: nat, k: nat)
    reads vma
  {
    HasPage(a, x, k) && k in vma.pages && vma.pages[k] == ToCpuPfn(a, x + k * PAGE)
  }

  /** What the kernel answers: whether the range can be mapped at once, which page numbers are valid, and
      which pages can be inserted. */
  datatype Kernel = Kernel(remapOk: bool, pfnValid: nat -> bool, insertOk: nat -> bool)

  ghost predicate PageIsValid(a: Area, x: nat, k: nat, kernel: Kernel) {
    HasPage(a, x, k) && kernel.pfnValid(ToCpuPfn(a, x + k * PAGE))
  }

  ghost predicate PageCanMap(a: Area, x: nat, k: nat, kernel: Kernel) {
    PageIsValid(a, x, k, kernel) && kernel.insertOk(k)
  }

  /** The range is contiguous and can be mapped at once, or all its pages can be mapped. */
  ghost predicate CanMap(a: Area, x: nat, pgoff: nat, count: nat, kernel: Kernel) {
    || (PFNIsPhysical(pgoff) && kernel.remapOk)
    || forall k: nat {:trigger PageCanMap(a, x, k, kernel)} :: k < count ==> PageCanMap(a, x, k, kernel)
  }

  /** The pages that IO_REMAP_PFN_RANGE maps a range to. */
  function Consecutively(pfn: nat, n: nat): (m: map<nat, nat>)
    ensures forall k: nat {:trigger k in m} :: k in m <==> k < n
    ensures forall k: nat {:trigger m[k]} :: k < n ==> m[k] == pfn + k
  {
    if n == 0 then map[] else Consecutively(pfn, n - 1)[n - 1 := pfn + (n - 1)]
  }

  /** DoMapToUser: from its root an area is mapped as a whole if it is contiguous, and else, or if
      that fails, page by page. */
  method DoMapToUser(a: Area, vma: Vma, offset: nat, kernel: Kernel) returns (ok: bool)
    requires forall k: nat {:trigger HasPage(a, offset, k)} :: k < vma.count ==> HasPage(a, offset, k)
    requires PFNIsPhysical(vma.pgoff) ==> PhysIsContig(a) && InPages(a, offset) && ToCpuPfn(a, offset) == vma.pgoff
    modifies vma
    ensures ok <==> CanMap(a, offset, vma.pgoff, vma.count, kernel)
    ensures ok ==> forall k: nat {:trigger MapsPage(vma, a, offset, k)} :: k < vma.count ==> MapsPage(vma, a, offset, k)
    decreases a
  {
    if a.SubAlloc? {
      var deeper := a.offset + offset;
      forall k: nat
        ensures HasPage(a.parent, deeper, k) <==> HasPage(a, offset, k)
        ensures PageCanMap(a.parent, deeper, k, kernel) <==> PageCanMap(a, offset, k, kernel)
      {
        assert a.offset + (offset + k * PAGE) == a.offset + offset + k * PAGE;
      }
      forall k: nat | k < vma.count
        ensures HasPage(a.parent, deeper, k)
      {
        assert HasPage(a, offset, k);
      }
      ok := DoMapToUser(a.parent, vma, deeper, kernel);
      if ok {
        forall k: nat | k < vma.count
          ensures MapsPage(vma, a, offset, k)
        {
          assert HasPage(a, offset, k) && MapsPage(vma, a.parent, deeper, k);
          assert a.offset + (offset + k * PAGE) == a.offset + offset + k * PAGE;
        }
      } else {
        assert CanMap(a, offset, vma.pgoff, vma.count, kernel)
           ==> CanMap(a.parent, deeper, vma.pgoff, vma.count, kernel);
      }
      return;
    }
    if PFNIsPhysical(vma.pgoff) {
      if kernel.remapOk {
        vma.pages := Consecutively(vma.pgoff, vma.count);
        forall k: nat | k < vma.count
          ensures MapsPage(vma, a, offset, k)
        {
          ContigAddresses(a, offset, k * PAGE);
        }
        return true;
      }
    }
    ok := MapByPages(a, vma, offset, kernel);
  }

  /** The path for pages that are not contiguous, or where mapping them at once failed. */
  method MapByPages(a: Area, vma: Vma, offset: nat, kernel: Kernel) returns (ok: bool)
    requires forall k: nat {:trigger HasPage(a, offset, k)} :: k < vma.count ==> HasPage(a, offset, k)
    modifies vma
    ensures ok <==> forall k: nat {:trigger PageCanMap(a, offset, k, kernel)} ::
              k < vma.count ==> PageCanMap(a, offset, k, kernel)
    ensures ok ==> forall k: nat {:trigger MapsPage(vma, a, offset, k)} :: k < vma.count ==> MapsPage(vma, a, offset, k)
  {
    var x, i := offset, 0;
    while i < vma.count
      invariant i <= vma.count && x == offset + i * PAGE
      invariant forall k: nat {:trigger PageIsValid(a, offset, k, kernel)} ::
                  k < i ==> PageIsValid(a, offset, k, kernel)
    {
      assert HasPage(a, offset, i) && (PageIsValid(a, offset, i, kernel) <==> kernel.pfnValid(ToCpuPfn(a, x)));
      if !kernel.pfnValid(ToCpuPfn(a, x)) {
        assert !PageCanMap(a, offset, i, kernel);
        return false;
      }
      x, i := x + PAGE, i + 1;
    }
    x, i := offset, 0;
    while i < vma.count
      invariant i <= vma.count && x == offset + i * PAGE
      invariant forall k: nat {:trigger PageCanMap(a, offset, k, kernel)} :: k < i ==> PageCanMap(a, offset, k, kernel)
      invariant forall k: nat {:trigger MapsPage(vma, a, offset, k)} :: k < i ==> MapsPage(vma, a, offset, k)
    {
      assert HasPage(a, offset, i) && PageIsValid(a, offset, i, kernel);
      var pfn := ToCpuPfn(a, x);
      if !kernel.insertOk(i) {
        assert !PageCanMap(a, offset, i, kernel);
        return false;
      }
      ghost var before := vma.pages;
      assert forall k: nat {:trigger HasPage(a, offset, k)} :: k < i ==> MapsPage(vma, a, offset, k);
      vma.pages := vma.pages[i := pfn];
      forall k: nat | k < i
        ensures MapsPage(vma, a, offset, k)
      {
        assert HasPage(a, offset, k) && k in before && before[k] == ToCpuPfn(a, offset + k * PAGE);
      }
      assert MapsPage(vma, a, offset, i);
      x, i := x + PAGE, i + 1;
    }
    return true;
  }

  /** Byte j of the area is ByteOffset + j bytes after the start, for every j. */
  ghost predicate ShowsArea(vma: Vma, a: Area)
    reads vma
  {
    && InPages(a, 0)
    && forall j: nat {:trigger ShowsByte(vma, a, j)} :: j < a.bytes ==> ShowsByte(vma, a, j)
  }

  ghost predicate ShowsByte(vma: Vma, a: Area, j: nat)
    requires InPages(a, 0)
    reads vma
  {
    && InPages(a, j) && (ByteOffset(a) + j) / PAGE in vma.pages
    && vma.At(ByteOffset(a) + j) == ToCpuPAddr(a, j)
  }

  /** An area mapped to as many pages as the code computes: if these are any, byte j of the area is
      ByteOffset + j bytes after the start, for every j. */
  method MapWhole(a: Area, vma: Vma, kernel: Kernel) returns (ok: bool)
    requires Good(a) && InPages(a, 0) && vma.count * PAGE == RealByteSize(a)
    requires PFNIsPhysical(vma.pgoff) ==> PhysIsContig(a) && ToCpuPfn(a, 0) == vma.pgoff
    modifies vma
    ensures ok <==> CanMap(a, 0, vma.pgoff, vma.count, kernel)
    ensures ok && vma.count > 0 ==> ShowsArea(vma, a)
    ensures vma.count == 0 <==> TooLarge(a.bytes, ByteOffset(a))
  {
    forall k: nat | k < vma.count
      ensures HasPage(a, 0, k)
    {
      UserPage(a, k);
    }
    SizeIsRight(a);
    ok := DoMapToUser(a, vma, 0, kernel);
    if ok && vma.count > 0 {
      forall j: nat | j < a.bytes
        ensures ShowsByte(vma, a, j)
      {
        ByteShown(a, vma, j);
      }
    }
  }

  lemma ByteShown(a: Area, vma: Vma, j: nat)
    requires Good(a) && InPages(a, 0) && j < a.bytes && vma.count * PAGE == RealByteSize(a) != 0
    requires forall k: nat {:trigger MapsPage(vma, a, 0, k)} :: k < vma.count ==> MapsPage(vma, a, 0, k)
    ensures ShowsByte(vma, a, j)
  {
    SizeIsRight(a);
    UserByte(a, j);
    hide Good, InPages, ToCpuPAddr, RealByteSize, ByteOffset, TooLarge, ToCpuPfn;
    var k := (ByteOffset(a) + j) / PAGE;
    PageStarts(ByteOffset(a) + j, vma.count * PAGE);
    assert MapsPage(vma, a, 0, k);
    assert 0 + k * PAGE == k * PAGE;
  }

  /** What the user of a contiguous area sees, or of a part of one, nested to any depth: byte j of the part
      is the byte that far after the start of the part, counted from the base address. */
  lemma UserOfBlock(a: Area, vma: Vma, base: nat, j: nat)
    requires Good(a) && ShowsArea(vma, a) && j < a.bytes && StartsAt(Root(a), base)
    requires Root(a).IO? || Root(a).IORemap? || Root(a).ExternalContig?
    ensures ByteOffset(a) == (base + TotalOffset(a)) % 4096
    ensures (ByteOffset(a) + j) / PAGE in vma.pages
    ensures vma.At(ByteOffset(a) + j) == base + TotalOffset(a) + j
  {
    PartEnds(a);
    AddressInRoot(a, 0);
    AddressInRoot(a, j);
    assert ByteFrom(Root(a), base, TotalOffset(a)) && ByteFrom(Root(a), base, TotalOffset(a) + j);
    assert ShowsByte(vma, a, j);
  }

  lemma {:induction false} PartEnds(a: Area)
    requires Good(a)
    ensures TotalOffset(a) + a.bytes <= Root(a).bytes
  {
    if a.SubAlloc? {
      PartEnds(a.parent);
    }
  }

  /** What the user of pages from anywhere sees: byte j of the part is at its place in the page that was
      taken for it. */
  lemma UserOfPages(a: Area, vma: Vma, pfns: seq<nat>, j: nat)
    requires Good(a) && ShowsArea(vma, a) && j < a.bytes && LiesIn(Root(a), pfns)
    requires Root(a).VMalloc? || Root(a).AllocPages?
    ensures (ByteOffset(a) + j) / PAGE in vma.pages && (TotalOffset(a) + j) / 4096 < |pfns|
    ensures var y := TotalOffset(a) + j; vma.At(ByteOffset(a) + j) == pfns[y / 4096] * 4096 + y % 4096
  {
    PartEnds(a);
    AddressInRoot(a, j);
    assert ByteIn(Root(a), pfns, TotalOffset(a) + j);
    assert ShowsByte(vma, a, j);
  }
}
