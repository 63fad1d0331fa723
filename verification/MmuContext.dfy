/** Mapping and unmapping pages of one context in pvr/mmu.c. */
module MmuContext {
  import opened PageTables

  /** Page number v goes through a table that is there. */
  ghost predicate BackedAt(t: seq<PtInfo>, v: nat) {
    v / PT_SIZE < |t| && t[v / PT_SIZE].Table?
  }

  ghost predicate Backed(t: seq<PtInfo>, v: nat, n: nat) {
    forall u: nat {:trigger BackedAt(t, u)} :: v <= u < v + n ==> BackedAt(t, u)
  }

  /** The n pages from v on have no valid entry. */
  ghost predicate Unmapped(t: seq<PtInfo>, v: nat, n: nat) {
    forall u: nat {:trigger Word(t, u)} :: v <= u < v + n ==> !IsValid(Word(t, u))
  }

  /** The words of the pages from v on are ws; all other words are as before. */
  ghost predicate Rewritten(t: seq<PtInfo>, t': seq<PtInfo>, v: nat, ws: seq<nat>) {
    forall u: nat {:trigger Word(t', u)} :: Word(t', u) == if v <= u < v + |ws| then ws[u - v] else Word(t, u)
  }

  ghost function Zeros(n: nat): (z: seq<nat>)
    ensures |z| == n && forall i :: 0 <= i < n ==> z[i] == 0
  {
    seq(n, _ => 0)
  }

  function PagesOf(size: nat): nat {
    (size + PAGE_SIZE - 1) / PAGE_SIZE
  }

  /** The physical address of page i of a contiguous block, or of a DUMMY one. */
  function PhysAt(paddr: nat, i: nat, flags: MemFlags): nat {
    if flags.dummy then paddr else (paddr + i * PAGE_SIZE) % ADDRESS_SPACE
  }

  /** What the pages of a contiguous block are mapped to. */
  ghost function BlockWords(n: nat, paddr: nat, flags: MemFlags): (ws: seq<nat>)
    ensures |ws| == n && forall j: nat :: j < n ==> ws[j] == Pte(PhysAt(paddr, j, flags), flags)
  {
    seq<nat>(n, (i: nat) => Pte(PhysAt(paddr, i, flags), flags))
  }

  ghost function ShadowWords(n: nat, phys: nat -> nat, flags: MemFlags): (ws: seq<nat>)
    ensures |ws| == n
    ensures forall j: nat :: j < n ==> ws[j] == Pte(phys(if flags.dummy then 0 else j * PAGE_SIZE), flags)
  {
    seq<nat>(n, (i: nat) => Pte(phys(if flags.dummy then 0 else i * PAGE_SIZE), flags))
  }

  ghost function ScatterWords(n: nat, addrs: seq<nat>, flags: MemFlags): (ws: seq<nat>)
    requires n <= |addrs|
    ensures |ws| == n && forall j: nat :: j < n ==> ws[j] == Pte(addrs[j], flags)
  {
    seq<nat>(n, (i: nat) requires i < |addrs| => Pte(addrs[i], flags))
  }

  lemma PhysAtNext(paddr: nat, i: nat, flags: MemFlags)
    requires paddr < ADDRESS_SPACE
    ensures PhysAt(paddr, 0, flags) == paddr && PhysAt(paddr, i, flags) < ADDRESS_SPACE
    ensures PhysAt(paddr, i + 1, flags)
         == (PhysAt(paddr, i, flags) + if flags.dummy then 0 else PAGE_SIZE) % ADDRESS_SPACE
  {
    if flags.dummy {
      Remainder(paddr, 0, paddr);
    } else {
      Remainder(paddr, 0, paddr);
      WrapsLater(paddr + i * PAGE_SIZE, PAGE_SIZE);
    }
  }

  /** Cutting to 32 bits twice is like cutting once. */
  lemma WrapsLater(n: nat, d: nat)
    requires d < ADDRESS_SPACE
    ensures n % ADDRESS_SPACE < ADDRESS_SPACE
    ensures (n + d) % ADDRESS_SPACE == (n % ADDRESS_SPACE + d) % ADDRESS_SPACE
  {
    var q, r := n / ADDRESS_SPACE, n % ADDRESS_SPACE;
    if r + d < ADDRESS_SPACE {
      Remainder(n + d, q, r + d);
      Remainder(r + d, 0, r + d);
    } else {
      Remainder(n + d, q + 1, r + d - ADDRESS_SPACE);
      Remainder(r + d, 1, r + d - ADDRESS_SPACE);
    }
  }

  lemma Remainder(n: nat, q: nat, r: nat)
    requires r < 0x1_0000_0000 && n == q * 0x1_0000_0000 + r
    ensures n % ADDRESS_SPACE == r
  {}

  lemma RewrittenMore(t: seq<PtInfo>, t1: seq<PtInfo>, t2: seq<PtInfo>, v: nat, ws: seq<nat>, w: nat)
    requires Rewritten(t, t1, v, ws) && SameKinds(t, t1)
    requires SameKinds(t1, t2)
    requires forall u: nat {:trigger Word(t2, u)} :: Word(t2, u) == if u == v + |ws| then w else Word(t1, u)
    ensures Rewritten(t, t2, v, ws + [w]) && SameKinds(t, t2)
  {}

  lemma PageNumbers(addr: nat, i: nat)
    requires addr + i * PAGE_SIZE < ADDRESS_SPACE
    ensures var a := addr + i * PAGE_SIZE;
            && a / PAGE_SIZE == addr / PAGE_SIZE + i
            && a / TABLE_SPAN == a / PAGE_SIZE / PT_SIZE < PD_SIZE
  {}

  class Context {
    const pd: array<nat>
    const tables: array<PtInfo>

    ghost predicate Good()
      reads tables
    {
      pd.Length == PD_SIZE && GoodTables(tables[..])
    }

    /** The part of MMU_Initialise that makes a context: an empty directory. */
    constructor ()
      ensures Good() && fresh(pd) && fresh(tables)
      ensures forall i :: 0 <= i < PD_SIZE ==> pd[i] == 0 && tables[i] == NoTable
    {
      pd := new nat[PD_SIZE](_ => 0);
      tables := new PtInfo[PD_SIZE](_ => NoTable);
    }

    /** MMU_MapPage.  The count goes up whatever the entry was, so that it stays right exactly when
        the page was not mapped yet. */
    method MapPage(vaddr: nat, paddr: nat, flags: MemFlags)
      requires Good() && vaddr < ADDRESS_SPACE && BackedAt(tables[..], vaddr / PAGE_SIZE)
      modifies tables
      ensures SameKinds(old(tables[..]), tables[..])
      ensures forall u: nat {:trigger Word(tables[..], u)} ::
                Word(tables[..], u) == if u == vaddr / PAGE_SIZE then Pte(paddr, flags) else Word(old(tables[..]), u)
      ensures Good() <==> !IsValid(Word(old(tables[..]), vaddr / PAGE_SIZE))
    {
      PageNumbers(vaddr, 0);
      var d, i := vaddr / TABLE_SPAN, vaddr / PAGE_SIZE % PT_SIZE;
      ghost var t := tables[..];
      assert GoodTable(t[d]);
      WithWordSets(t, vaddr / PAGE_SIZE, Pte(paddr, flags), tables[d].valid + 1);
      tables[d] := tables[d].(valid := tables[d].valid + 1);
      tables[d] := tables[d].(page := tables[d].page[i := Pte(paddr, flags)]);
      assert tables[..] == WithWord(t, vaddr / PAGE_SIZE, Pte(paddr, flags), t[d].valid + 1);
    }

    /** MMU_MapScatter: a list of pages. */
    method MapScatter(vaddr: nat, addrs: seq<nat>, size: nat, flags: MemFlags)
      requires Good() && size <= |addrs| * PAGE_SIZE && vaddr + PagesOf(size) * PAGE_SIZE <= ADDRESS_SPACE
      requires Backed(tables[..], vaddr / PAGE_SIZE, PagesOf(size))
      requires Unmapped(tables[..], vaddr / PAGE_SIZE, PagesOf(size))
      modifies tables
      ensures Good() && SameKinds(old(tables[..]), tables[..])
      ensures Rewritten(old(tables[..]), tables[..], vaddr / PAGE_SIZE,
                        ScatterWords(PagesOf(size), addrs, flags))
    {
      ghost var t, v, ws := tables[..], vaddr / PAGE_SIZE, [];
      var i, count, dev := 0, 0, vaddr;
      while count < size
        invariant 0 <= i <= PagesOf(size) && count == i * PAGE_SIZE
        invariant dev == vaddr + i * PAGE_SIZE
        invariant Good() && SameKinds(t, tables[..]) && |ws| == i
        invariant Rewritten(t, tables[..], v, ws)
        invariant forall j :: 0 <= j < i ==> ws[j] == Pte(addrs[j], flags)
        decreases size - count
      {
        PageNumbers(vaddr, i);
        ghost var t1 := tables[..];
        assert BackedAt(t, v + i) && !IsValid(Word(t, v + i));
        MapPage(dev, addrs[i], flags);
        RewrittenMore(t, t1, tables[..], v, ws, Pte(addrs[i], flags));
        ws := ws + [Pte(addrs[i], flags)];
        i, count, dev := i + 1, count + PAGE_SIZE, dev + PAGE_SIZE;
      }
      assert ws == ScatterWords(PagesOf(size), addrs, flags);
    }

    /** MMU_MapPages: consecutive pages or, for a DUMMY allocation, one page over and over. */
    method MapPages(vaddr: nat, paddr: nat, size: nat, flags: MemFlags)
      requires Good() && vaddr + PagesOf(size) * PAGE_SIZE <= ADDRESS_SPACE && paddr < ADDRESS_SPACE
      requires Backed(tables[..], vaddr / PAGE_SIZE, PagesOf(size))
      requires Unmapped(tables[..], vaddr / PAGE_SIZE, PagesOf(size))
      modifies tables
      ensures Good() && SameKinds(old(tables[..]), tables[..])
      ensures Rewritten(old(tables[..]), tables[..], vaddr / PAGE_SIZE,
                        BlockWords(PagesOf(size), paddr, flags))
    {
      hide PhysAt, Pte, Word;
      assert PhysAt(paddr, 0, flags) == paddr by { PhysAtNext(paddr, 0, flags); }
      ghost var t, v, ws := tables[..], vaddr / PAGE_SIZE, [];
      var pAdvance := if flags.dummy then 0 else PAGE_SIZE;
      var count, dev, addr := 0, vaddr, paddr;
      ghost var i := 0;
      while count < size
        invariant 0 <= i <= PagesOf(size) && count == i * PAGE_SIZE
        invariant dev == vaddr + i * PAGE_SIZE && addr == PhysAt(paddr, i, flags)
        invariant Good() && SameKinds(t, tables[..]) && |ws| == i
        invariant Rewritten(t, tables[..], v, ws)
        invariant forall j :: 0 <= j < i ==> ws[j] == Pte(PhysAt(paddr, j, flags), flags)
        decreases size - count
      {
        PageNumbers(vaddr, i);
        ghost var t1 := tables[..];
        assert BackedAt(t, v + i) && !IsValid(Word(t, v + i));
        PhysAtNext(paddr, i, flags);
        MapPage(dev, addr, flags);
        RewrittenMore(t, t1, tables[..], v, ws, Pte(addr, flags));
        ws := ws + [Pte(addr, flags)];
        count, dev, addr := count + PAGE_SIZE, dev + PAGE_SIZE, (addr + pAdvance) % ADDRESS_SPACE;
        i := i + 1;
      }
      assert ws == BlockWords(PagesOf(size), paddr, flags);
    }

    /** MMU_MapShadow: the pages behind a range of CPU memory, whose physical addresses are found
        by offset; for a DUMMY allocation, its first page over and over. */
    method MapShadow(vaddr: nat, size: nat, phys: nat -> nat, flags: MemFlags) returns (mapped: nat)
      requires Good() && size % PAGE_SIZE == 0 && vaddr + size <= ADDRESS_SPACE
      requires Backed(tables[..], vaddr / PAGE_SIZE, size / PAGE_SIZE)
      requires Unmapped(tables[..], vaddr / PAGE_SIZE, size / PAGE_SIZE)
      modifies tables
      ensures Good() && SameKinds(old(tables[..]), tables[..]) && mapped == vaddr
      ensures Rewritten(old(tables[..]), tables[..], vaddr / PAGE_SIZE, ShadowWords(size / PAGE_SIZE, phys, flags))
    {
      hide Pte, Word;
      mapped := vaddr;
      ghost var t, v, ws, k: nat := tables[..], vaddr / PAGE_SIZE, [], 0;
      var pAdvance := if flags.dummy then 0 else PAGE_SIZE;
      var i, offset, dev := 0, 0, vaddr;
      while i < size
        invariant i == k * PAGE_SIZE <= size && dev == vaddr + i && offset == if flags.dummy then 0 else i
        invariant Good() && SameKinds(t, tables[..]) && |ws| == k
        invariant Rewritten(t, tables[..], v, ws)
        invariant forall j: nat :: j < k ==> ws[j] == Pte(phys(if flags.dummy then 0 else j * PAGE_SIZE), flags)
        decreases size - i
      {
        PageNumbers(vaddr, k);
        ghost var t1 := tables[..];
        assert BackedAt(t, v + k) && !IsValid(Word(t, v + k));
        MapPage(dev, phys(offset), flags);
        RewrittenMore(t, t1, tables[..], v, ws, Pte(phys(offset), flags));
        ws := ws + [Pte(phys(offset), flags)];
        dev, offset, i := dev + PAGE_SIZE, offset + pAdvance, i + PAGE_SIZE;
        k := k + 1;
      }
      assert ws == ShadowWords(size / PAGE_SIZE, phys, flags);
    }

    /** MMU_UnmapPages.  A page without table is skipped. */
    method UnmapPages(vaddr: nat, pageCount: nat)
      requires Good() && vaddr + pageCount * PAGE_SIZE <= ADDRESS_SPACE
      requires forall u: nat {:trigger StuckAt(tables[..], u)} ::
                 vaddr / PAGE_SIZE <= u < vaddr / PAGE_SIZE + pageCount ==> !StuckAt(tables[..], u)
      modifies tables
      ensures Good() && SameKinds(old(tables[..]), tables[..])
      ensures Rewritten(old(tables[..]), tables[..], vaddr / PAGE_SIZE, Zeros(pageCount))
    {
      ghost var t, v := tables[..], vaddr / PAGE_SIZE;
      var dev := vaddr;
      for i := 0 to pageCount
        invariant dev == vaddr + i * PAGE_SIZE && Good() && SameKinds(t, tables[..])
        invariant Rewritten(t, tables[..], v, Zeros(i))
      {
        PageNumbers(vaddr, i);
        ghost var t1 := tables[..];
        var d, k := dev / TABLE_SPAN, dev / PAGE_SIZE % PT_SIZE;
        assert t1[d] == tables[d] && t[d] == old(tables[d]) && !StuckAt(t, v + i);
        if tables[d].Table? {
          ClearEntry(d, k);
        }
        RewrittenMore(t, t1, tables[..], v, Zeros(i), 0);
        assert Zeros(i) + [0] == Zeros(i + 1);
        dev := dev + PAGE_SIZE;
      }
    }

    /** One entry set to 0 and no longer counted if it was valid. */
    method ClearEntry(d: nat, k: nat)
      requires Good() && d < PD_SIZE && k < PT_SIZE && tables[d].Table?
      modifies tables
      ensures Good() && SameKinds(old(tables[..]), tables[..])
      ensures forall u: nat {:trigger Word(tables[..], u)} ::
                Word(tables[..], u) == if u == d * PT_SIZE + k then 0 else Word(old(tables[..]), u)
      ensures forall e: nat {:trigger tables[e]} :: e < PD_SIZE && e != d ==> tables[e] == old(tables[e])
    {
      ghost var t := tables[..];
      var v := d * PT_SIZE + k;
      assert v / PT_SIZE == d && v % PT_SIZE == k;
      assert GoodTable(t[d]);
      ValidsZero(t[d].page);
      var valid := tables[d].valid;
      if IsValid(tables[d].page[k]) {
        valid := valid - 1;
        tables[d] := tables[d].(valid := valid);
      }
      WithWordSets(t, v, 0, valid);
      tables[d] := tables[d].(page := tables[d].page[k := 0]);
      assert tables[..] == WithWord(t, v, 0, valid);
    }

    /** MMU_GetPhysPageAddr */
    method GetPhysPageAddr(vaddr: nat) returns (paddr: nat)
      requires Good() && vaddr < ADDRESS_SPACE && !tables[vaddr / TABLE_SPAN].NoPage?
      ensures paddr == Translate(tables[..], vaddr / PAGE_SIZE)
    {
      PageNumbers(vaddr, 0);
      var d := vaddr / TABLE_SPAN;
      if tables[d] == NoTable {
        return 0;
      }
      assert GoodTable(tables[..][d]);
      var word := tables[d].page[vaddr / PAGE_SIZE % PT_SIZE];
      return AddrOf(word);
    }
  }

  /** A page that was mapped is found: what MMU_GetPhysPageAddr gives is the page that was supplied, and
      for an address at the start of a page that very address. */
  method MapAndFind(c: Context, vaddr: nat, paddr: nat, flags: MemFlags) returns (found: nat)
    requires c.Good() && vaddr < ADDRESS_SPACE && BackedAt(c.tables[..], vaddr / PAGE_SIZE)
    requires !IsValid(Word(c.tables[..], vaddr / PAGE_SIZE))
    modifies c.tables
    ensures c.Good() && found % 4096 == 0 && found <= paddr < found + 4096
    ensures paddr % 4096 == 0 ==> found == paddr
    ensures HasAccess(Word(c.tables[..], vaddr / PAGE_SIZE), flags)
  {
    hide Word, Pte, HasAccess;
    SlotOfPage(vaddr);
    assert c.tables[..][vaddr / TABLE_SPAN].Table?;
    c.MapPage(vaddr, paddr, flags);
    assert c.tables[..][vaddr / TABLE_SPAN].Table?;
    found := c.GetPhysPageAddr(vaddr);
    SamePage(Word(c.tables[..], vaddr / PAGE_SIZE), paddr);
    assert HasAccess(Word(c.tables[..], vaddr / PAGE_SIZE), flags);
  }

  lemma SlotOfPage(vaddr: nat)
    requires vaddr < ADDRESS_SPACE
    ensures vaddr / PAGE_SIZE / PT_SIZE == vaddr / TABLE_SPAN < PD_SIZE
  {
    PageNumbers(vaddr, 0);
  }

  lemma SamePage(word: nat, paddr: nat)
    requires AddrOf(word) == AddrOf(paddr)
    ensures AddrOf(word) <= paddr < AddrOf(word) + 4096
    ensures paddr % 4096 == 0 ==> AddrOf(word) == paddr
  {
    hide AddrOf;
    if paddr % 4096 == 0 {
      AlignedIsItsPage(paddr);
    }
  }

  /** After mapping, each page translates to the one supplied, and nowhere else anything changed;
      unmapping takes exactly that back. */
  lemma MapThenUnmap(t: seq<PtInfo>, t1: seq<PtInfo>, t2: seq<PtInfo>, v: nat, addrs: seq<nat>, flags: MemFlags)
    requires GoodTables(t) && Unmapped(t, v, |addrs|)
    requires Rewritten(t, t1, v, ScatterWords(|addrs|, addrs, flags))
    requires Rewritten(t1, t2, v, Zeros(|addrs|))
    ensures forall u: nat :: v <= u < v + |addrs| ==> Translate(t1, u) == AddrOf(addrs[u - v]) && Translate(t2, u) == 0
    ensures forall u: nat :: v <= u < v + |addrs| && addrs[u - v] % 4096 == 0 ==> Translate(t1, u) == addrs[u - v]
    ensures forall u: nat :: u < v || v + |addrs| <= u ==> Translate(t1, u) == Translate(t, u)
    ensures forall u: nat {:trigger Word(t2, u)} :: Word(t2, u) == Word(t, u)
  {
    hide Word, Pte, Rewritten, AddrOf;
    forall u: nat
      ensures Word(t2, u) == Word(t, u)
    {
      BackAgain(t, t1, t2, v, addrs, flags, u);
    }
    forall u: nat | v <= u < v + |addrs|
      ensures Translate(t1, u) == AddrOf(addrs[u - v]) && Translate(t2, u) == 0
      ensures addrs[u - v] % 4096 == 0 ==> Translate(t1, u) == addrs[u - v]
    {
      MappedAt(t, t1, t2, v, addrs, flags, u);
      SamePage(addrs[u - v], addrs[u - v]);
    }
    forall u: nat | u < v || v + |addrs| <= u
      ensures Translate(t1, u) == Translate(t, u)
    {
      KeptOutside(t, t1, v, ScatterWords(|addrs|, addrs, flags), u);
    }
  }

  lemma KeptOutside(t: seq<PtInfo>, t1: seq<PtInfo>, v: nat, ws: seq<nat>, u: nat)
    requires Rewritten(t, t1, v, ws) && (u < v || v + |ws| <= u)
    ensures Word(t1, u) == Word(t, u) && Translate(t1, u) == Translate(t, u)
  {
    hide Word;
    assert Word(t1, u) == Word(t, u);
  }

  lemma WrittenAt(t: seq<PtInfo>, t1: seq<PtInfo>, v: nat, ws: seq<nat>, u: nat)
    requires Rewritten(t, t1, v, ws) && v <= u < v + |ws|
    ensures Word(t1, u) == ws[u - v]
  {
    hide Word;
  }

  lemma MappedAt(t: seq<PtInfo>, t1: seq<PtInfo>, t2: seq<PtInfo>, v: nat, addrs: seq<nat>, flags: MemFlags, u: nat)
    requires v <= u < v + |addrs|
    requires Rewritten(t, t1, v, ScatterWords(|addrs|, addrs, flags))
    requires Rewritten(t1, t2, v, Zeros(|addrs|))
    ensures Translate(t1, u) == AddrOf(addrs[u - v]) && Translate(t2, u) == 0
  {
    hide Word, Pte, Rewritten;
    WrittenAt(t, t1, v, ScatterWords(|addrs|, addrs, flags), u);
    WrittenAt(t1, t2, v, Zeros(|addrs|), u);
  }

  lemma BackAgain(t: seq<PtInfo>, t1: seq<PtInfo>, t2: seq<PtInfo>, v: nat, addrs: seq<nat>, flags: MemFlags, u: nat)
    requires GoodTables(t) && Unmapped(t, v, |addrs|)
    requires Rewritten(t, t1, v, ScatterWords(|addrs|, addrs, flags))
    requires Rewritten(t1, t2, v, Zeros(|addrs|))
    ensures Word(t2, u) == Word(t, u)
  {
    hide Word, Pte, Rewritten, GoodTables;
    if v <= u < v + |addrs| {
      WrittenAt(t1, t2, v, Zeros(|addrs|), u);
      assert !IsValid(Word(t, u));
      WordIsGood(t, u);
    } else {
      KeptOutside(t, t1, v, ScatterWords(|addrs|, addrs, flags), u);
      KeptOutside(t1, t2, v, Zeros(|addrs|), u);
    }
  }

  lemma WordIsGood(t: seq<PtInfo>, u: nat)
    requires GoodTables(t)
    ensures Word(t, u) == 0 || IsValid(Word(t, u))
  {
    if u / PT_SIZE < |t| && t[u / PT_SIZE].Table? {
      assert GoodTable(t[u / PT_SIZE]);
    }
  }
}
