/** The page directories of all contexts of a device in pvr/mmu.c: tables come and go with the
    ranges allocated in a heap, and shared heaps show up in every context's directory. */
module Mmu {
  import opened PageTables
  import opened MmuContext

  /** struct MMU_HEAP: a range of addresses, with the context whose tables back it. */
  datatype Heap = Heap(ctx: Context, base: nat, size: nat, shared: bool)

  /** ui32PTBaseIndex in units of tables, and ui32PTPageCount, as _AllocPageTables computes them. */
  function FirstSlot(h: Heap): nat { h.base / PAGE_SIZE / PT_SIZE }

  function TableCount(h: Heap): nat { (h.size / PAGE_SIZE + PT_SIZE - 1) / PT_SIZE }

  predicate InHeap(h: Heap, slot: nat) {
    FirstSlot(h) <= slot < FirstSlot(h) + TableCount(h)
  }

  /** The address is one of the heap's. */
  predicate AddressIn(h: Heap, a: nat) {
    h.base <= a < h.base + h.size
  }

  /** A heap of whole pages that starts with a table has the slots through which its addresses go, and no
      others. */
  lemma SlotsOfHeap(h: Heap, slot: nat)
    requires h.base % TABLE_SPAN == 0 && h.size % PAGE_SIZE == 0
    ensures InHeap(h, slot) <==> exists a: nat {:trigger AddressIn(h, a)} :: AddressIn(h, a) && a / TABLE_SPAN == slot
  {
    var first, n := h.base / 0x40_0000, h.size / 4096;
    assert h.base == first * 0x40_0000 && h.size == n * 4096;
    assert FirstSlot(h) == first && TableCount(h) == (n + 1023) / 1024;
    if InHeap(h, slot) {
      var a := slot * 0x40_0000;
      assert (slot - first) * 1024 < n;
      assert AddressIn(h, a) && a / TABLE_SPAN == slot;
    }
    forall a: nat | AddressIn(h, a) && a / TABLE_SPAN == slot
      ensures InHeap(h, slot)
    {
      AddressHasSlot(first, n, a - h.base, slot);
    }
  }

  lemma SlotInRange(a: nat)
    ensures a / TABLE_SPAN < PD_SIZE <==> a < ADDRESS_SPACE
  {}

  /** The address of byte d of page i of a range. */
  ghost function ByteOf(vaddr: nat, i: nat, d: nat): nat { vaddr + i * 4096 + d }

  lemma PageOfByte(vaddr: nat, i: nat, d: nat)
    requires vaddr % PAGE_SIZE == 0 && d < 4096
    ensures ByteOf(vaddr, i, d) / PAGE_SIZE == vaddr / PAGE_SIZE + i && ByteOf(vaddr, i, d) % 4096 == d
  {
    var k := vaddr / 4096;
    assert vaddr == k * 4096;
    assert ByteOf(vaddr, i, d) == (k + i) * 4096 + d;
  }

  lemma AddressHasSlot(first: nat, n: nat, x: nat, slot: nat)
    requires x < n * 4096 && (first * 0x40_0000 + x) / 0x40_0000 == slot
    ensures first <= slot < first + (n + 1023) / 1024
  {
    var k := x / 0x40_0000;
    assert slot == first + k;
    assert k * 0x40_0000 <= x;
  }

  /** No directory slot belongs to two heaps that could both use it in one directory. */
  ghost predicate Separate(h: Heap, h': Heap) {
    h.shared || h'.shared || h.ctx == h'.ctx ==> forall s: nat :: !(InHeap(h, s) && InHeap(h', s))
  }

  // ---------------------------------------------------------------- which slots a range touches

  /** How many tables _DeferredAllocPagetables looks at, in 32-bit arithmetic. */
  function TablesFor(vaddr: nat, size: nat): int
    requires vaddr < ADDRESS_SPACE
  {
    var last := ADDRESS_SPACE - 1;
    var padded := (size + TABLE_SPAN - 1) % ADDRESS_SPACE;
    var high := if last - vaddr < padded then last else (vaddr + size + TABLE_SPAN - 1) % ADDRESS_SPACE;
    high / TABLE_SPAN - vaddr / TABLE_SPAN
  }

  /** How many slots a range that is not empty touches. */
  function SlotsTouched(vaddr: nat, size: nat): nat
    requires 0 < size
  {
    (vaddr + size - 1) / TABLE_SPAN - vaddr / TABLE_SPAN + 1
  }

  /** The slots a range that is not empty touches are those that many from its first on, exactly if
      the range stays below the last table's span; otherwise the count falls short by one or, where the
      padded size wraps around, is 0. */
  lemma CoverageIsExact(vaddr: nat, size: nat)
    requires 0 < size && vaddr + size <= ADDRESS_SPACE
    ensures TablesFor(vaddr, size) == SlotsTouched(vaddr, size) <==> vaddr + size <= ADDRESS_SPACE - TABLE_SPAN
    ensures TablesFor(vaddr, size) <= SlotsTouched(vaddr, size)
    ensures vaddr + size > ADDRESS_SPACE - TABLE_SPAN ==>
              TablesFor(vaddr, size) == if size > ADDRESS_SPACE - TABLE_SPAN then 0 else SlotsTouched(vaddr, size) - 1
  {
    assert (vaddr + size + TABLE_SPAN - 1) / TABLE_SPAN == (vaddr + size - 1) / TABLE_SPAN + 1;
    if vaddr + size <= ADDRESS_SPACE - TABLE_SPAN {
      assert vaddr + size + TABLE_SPAN - 1 < ADDRESS_SPACE;
    } else {
      assert (vaddr + size - 1) / TABLE_SPAN == PD_SIZE - 1;
      assert (ADDRESS_SPACE - 1) / TABLE_SPAN == PD_SIZE - 1;
    }
  }

  // ---------------------------------------------------------------- the device

  /** In slot s, directory c has what the heap's own directory has. */
  ghost predicate AgreesAt(c: Context, h: Heap, s: nat)
    reads c.pd, h.ctx.pd
  {
    s < c.pd.Length && s < h.ctx.pd.Length && c.pd[s] == h.ctx.pd[s]
  }

  /** The heap's directory leads to the table of slot s, if there is one, and nowhere else. */
  ghost predicate BackedSlot(h: Heap, s: nat)
    reads h.ctx.pd, h.ctx.tables
  {
    s < h.ctx.pd.Length && s < h.ctx.tables.Length && h.ctx.pd[s] == DirEntry(h.ctx.tables[s])
  }

  /** Neither the heap's own directory, nor for a shared heap any other, leads anywhere in slot s. */
  ghost predicate EmptyAt(h: Heap, contexts: seq<Context>, s: nat)
    reads h.ctx.tables, set c | c in contexts :: c.pd
  {
    && s < h.ctx.tables.Length && h.ctx.tables[s] == NoTable
    && forall c :: c in contexts && (c == h.ctx || h.shared) ==> s < c.pd.Length && c.pd[s] == 0
  }

  ghost predicate Agrees(c: Context, h: Heap)
    reads c.pd, h.ctx.pd
  {
    forall s: nat {:trigger AgreesAt(c, h, s)} :: InHeap(h, s) ==> AgreesAt(c, h, s)
  }

  ghost predicate PageInHeap(h: Heap, v: nat) {
    InHeap(h, v / PT_SIZE)
  }

  /** How many of the n pages from v on come before the first whose table record has no page. */
  ghost function Reached(t: seq<PtInfo>, v: nat, n: nat): nat
    decreases n
  {
    if n == 0 || StuckAt(t, v) then 0 else 1 + Reached(t, v + 1, n - 1)
  }

  /** All pages are reached exactly if every record in the way has its page. */
  lemma {:induction false} ReachedBounds(t: seq<PtInfo>, v: nat, n: nat)
    ensures Reached(t, v, n) <= n
    ensures forall u: nat {:trigger StuckAt(t, u)} :: v <= u < v + Reached(t, v, n) ==> !StuckAt(t, u)
    ensures Reached(t, v, n) < n ==> StuckAt(t, v + Reached(t, v, n))
    ensures Reached(t, v, n) == n <==> forall u: nat {:trigger StuckAt(t, u)} :: v <= u < v + n ==> !StuckAt(t, u)
    decreases n
  {
    if n != 0 && !StuckAt(t, v) {
      ReachedBounds(t, v + 1, n - 1);
      assert v + 1 + Reached(t, v + 1, n - 1) == v + Reached(t, v, n);
    }
  }

  lemma ValidIsNotStuck(t: seq<PtInfo>, u: nat)
    requires IsValid(Word(t, u))
    ensures !StuckAt(t, u)
  {}

  /** A range that is mapped as a whole is reached as a whole: no record in its way lacks its page. */
  lemma MappedIsReached(t: seq<PtInfo>, v: nat, n: nat)
    requires forall u: nat {:trigger Word(t, u)} :: v <= u < v + n ==> IsValid(Word(t, u))
    ensures Reached(t, v, n) == n
  {
    ReachedBounds(t, v, n);
    forall u: nat | v <= u < v + n
      ensures !StuckAt(t, u)
    {
      ValidIsNotStuck(t, u);
    }
  }

  /** Whether a slot can be given a table, if its record and its page can be allocated or not. */
  predicate CanBack(t: PtInfo, memOk: bool, pageOk: bool) {
    match t
    case NoTable => memOk && pageOk
    case NoPage => pageOk
    case Table(_, _, _) => true
  }

  /** What becomes of a slot that is to get a table: it may be left with a record without page. */
  function BackedBy(t: PtInfo, memOk: bool, pageOk: bool, page: nat): PtInfo {
    if t.Table? || (t.NoTable? && !memOk) then t
    else if pageOk then Table(page, seq(PT_SIZE, _ => 0), 0) else NoPage
  }

  /** All of n slots can be given tables. */
  ghost predicate CanBackAll(t: seq<PtInfo>, first: nat, n: int, memOk: nat -> bool, pageOk: nat -> bool) {
    forall s: nat {:trigger t[s]} :: first <= s < first + n && s < |t| ==> CanBack(t[s], memOk(s), pageOk(s))
  }

  /** What becomes of the slots when n of them are tried. */
  ghost predicate Tried(t: seq<PtInfo>, t': seq<PtInfo>, first: nat, n: nat,
                        memOk: nat -> bool, pageOk: nat -> bool, page: nat -> nat)
  {
    && |t'| == |t|
    && forall s: nat {:trigger t'[s]} :: s < |t| ==>
         t'[s] == if first <= s < first + n then BackedBy(t[s], memOk(s), pageOk(s), page(s)) else t[s]
  }

  /** Slots without table outside of n slots are as before. */
  ghost predicate GapsStay(t: seq<PtInfo>, t': seq<PtInfo>, first: nat, n: nat) {
    && |t'| == |t|
    && forall s: nat {:trigger t'[s]} :: s < |t| && !(first <= s < first + n) && !t[s].Table? ==> t'[s] == t[s]
  }

  lemma TriedLeavesGaps(t: seq<PtInfo>, t1: seq<PtInfo>, first: nat, n: nat, m: nat,
                        memOk: nat -> bool, pageOk: nat -> bool, page: nat -> nat)
    requires Tried(t, t1, first, n, memOk, pageOk, page) && n <= m
    ensures GapsStay(t, t1, first, m)
    ensures forall t2 {:trigger SameKinds(t1, t2)} :: SameKinds(t1, t2) ==> GapsStay(t, t2, first, m)
  {
    forall t2 | SameKinds(t1, t2)
      ensures GapsStay(t, t2, first, m)
    {
      forall s: nat | s < |t| && !(first <= s < first + m) && !t[s].Table?
        ensures t2[s] == t[s]
      {
        assert t1[s] == t[s];
      }
    }
  }

  /** All n slots have tables. */
  ghost predicate AllBacked(t: seq<PtInfo>, first: nat, n: int) {
    forall s: nat {:trigger t[s]} :: first <= s < first + n && s < |t| ==> t[s].Table?
  }

  lemma TriedOneMore(t: seq<PtInfo>, t1: seq<PtInfo>, t2: seq<PtInfo>, first: nat, n: nat,
                     memOk: nat -> bool, pageOk: nat -> bool, page: nat -> nat)
    requires Tried(t, t1, first, n, memOk, pageOk, page) && first + n < |t| == |t2|
    requires forall s: nat {:trigger t2[s]} :: s < |t| ==>
               t2[s] == if s == first + n then BackedBy(t1[s], memOk(s), pageOk(s), page(s)) else t1[s]
    ensures Tried(t, t2, first, n + 1, memOk, pageOk, page)
    ensures AllBacked(t1, first, n) ==> AllBacked(t2, first, if t2[first + n].Table? then n + 1 else n)
    ensures !t2[first + n].Table? ==> forall k: int :: n < k ==> !CanBackAll(t, first, k, memOk, pageOk)
  {
    assert t1[first + n] == t[first + n];
  }

  lemma TriedAll(t: seq<PtInfo>, t1: seq<PtInfo>, first: nat, n: nat, count: int,
                 memOk: nat -> bool, pageOk: nat -> bool, page: nat -> nat)
    requires Tried(t, t1, first, n, memOk, pageOk, page) && AllBacked(t1, first, n) && count <= n
    ensures CanBackAll(t, first, count, memOk, pageOk) && AllBacked(t1, first, count)
  {
    forall s: nat | first <= s < first + count && s < |t|
      ensures CanBack(t[s], memOk(s), pageOk(s))
    {
      assert t1[s].Table?;
    }
  }

  lemma MappedIsValid(t: seq<PtInfo>, t1: seq<PtInfo>, v: nat, o: Origin, n: nat, flags: MemFlags)
    requires o.Scattered? ==> n <= |o.addrs|
    requires Rewritten(t, t1, v, PageWords(o, n, flags))
    ensures forall u: nat {:trigger Word(t1, u)} :: v <= u < v + n ==> IsValid(Word(t1, u))
  {
    hide Word, PageWords, PageAt, Pte;
    forall u: nat | v <= u < v + n
      ensures IsValid(Word(t1, u))
    {
      assert Word(t1, u) == PageWords(o, n, flags)[u - v];
    }
  }

  /** Words that were 0, were written and are 0 again are as they were. */
  lemma BackToZero(t: seq<PtInfo>, t1: seq<PtInfo>, t2: seq<PtInfo>, v: nat, ws: seq<nat>)
    requires Rewritten(t, t1, v, ws) && ((t2 == t1 && ws == []) || Rewritten(t1, t2, v, Zeros(|ws|)))
    requires forall u: nat {:trigger Word(t, u)} :: v <= u < v + |ws| ==> Word(t, u) == 0
    ensures forall u: nat {:trigger Word(t2, u)} :: Word(t2, u) == Word(t, u)
  {
    hide Word;
    forall u: nat
      ensures Word(t2, u) == Word(t, u)
    {
      assert Word(t1, u) == if v <= u < v + |ws| then ws[u - v] else Word(t, u);
    }
  }

  lemma ZeroTranslates(t: seq<PtInfo>, v: nat, n: nat)
    requires forall u: nat {:trigger Word(t, u)} :: v <= u < v + n ==> Word(t, u) == 0
    ensures forall u: nat :: v <= u < v + n ==> Translate(t, u) == 0
  {}

  /** A table without valid entries leads nowhere. */
  lemma NothingLeft(t: seq<PtInfo>, d: nat)
    requires GoodTables(t) && d < PD_SIZE && t[d].Table? && t[d].valid == 0
    ensures forall u: nat {:trigger Word(t, u)} :: u / PT_SIZE == d ==> Word(t, u) == 0
  {
    assert GoodTable(t[d]);
    ValidsZero(t[d].page);
  }

  /** A table that the unmapping came by is still there only if some entry is still valid. */
  ghost predicate TouchedAt(t: seq<PtInfo>, v: nat) {
    v / PT_SIZE < |t| && (t[v / PT_SIZE].Table? ==> t[v / PT_SIZE].valid > 0)
  }

  /** A slot changes its kind only by losing its table. */
  ghost predicate LaterKind(was: PtInfo, now: PtInfo) {
    if was.Table? then (now.Table? && now.addr == was.addr) || now == NoTable else now == was
  }

  ghost predicate LaterKinds(t: seq<PtInfo>, t': seq<PtInfo>) {
    |t| == |t'| && forall s: nat {:trigger t'[s]} :: s < |t| ==> LaterKind(t[s], t'[s])
  }

  ghost predicate Touched(t: seq<PtInfo>, v: nat, n: nat) {
    forall u: nat {:trigger TouchedAt(t, u)} :: v <= u < v + n ==> TouchedAt(t, u)
  }

  lemma UnmappedMore(t: seq<PtInfo>, t1: seq<PtInfo>, t2: seq<PtInfo>, v: nat, n: nat, stuck: bool)
    requires Rewritten(t, t1, v, Zeros(n)) && Touched(t1, v, n) && LaterKinds(t, t1) && |t2| == |t1|
    requires forall u: nat {:trigger Word(t2, u)} :: Word(t2, u) == if u == v + n && !stuck then 0 else Word(t1, u)
    requires !stuck ==> TouchedAt(t2, v + n)
    requires forall s: nat {:trigger t2[s]} :: s < |t2| ==>
               LaterKind(t1[s], t2[s]) && (s != (v + n) / PT_SIZE || stuck ==> t2[s] == t1[s])
    ensures var m := if stuck then n else n + 1;
            Rewritten(t, t2, v, Zeros(m)) && Touched(t2, v, m) && LaterKinds(t, t2)
    ensures forall u: nat {:trigger StuckAt(t1, u)} :: StuckAt(t1, u) <==> StuckAt(t, u)
  {
    forall u: nat | v <= u < v + (if stuck then n else n + 1)
      ensures TouchedAt(t2, u)
    {
      assert u < v + n ==> TouchedAt(t1, u);
    }
  }

  /** Where the physical pages of an allocation come from: a contiguous block, memory of the operating
      system whose pages are found by offset, or a list of pages. */
  datatype Origin = Contiguous(paddr: nat) | Environment(phys: nat -> nat) | Scattered(addrs: seq<nat>)

  /** There are enough pages.  Memory of the operating system comes in whole pages. */
  ghost predicate Supplies(o: Origin, size: nat) {
    match o
    case Contiguous(paddr) => paddr < ADDRESS_SPACE
    case Environment(_) => size % PAGE_SIZE == 0
    case Scattered(addrs) => size <= |addrs| * PAGE_SIZE
  }

  /** The physical address of page i. */
  ghost function PageAt(o: Origin, i: nat, flags: MemFlags): nat
    requires o.Scattered? ==> i < |o.addrs|
  {
    match o
    case Contiguous(paddr) => PhysAt(paddr, i, flags)
    case Environment(phys) => phys(if flags.dummy then 0 else i * PAGE_SIZE)
    case Scattered(addrs) => addrs[i]
  }

  /** What the pages are mapped to. */
  ghost function PageWords(o: Origin, n: nat, flags: MemFlags): (ws: seq<nat>)
    requires o.Scattered? ==> n <= |o.addrs|
    ensures |ws| == n && forall i: nat :: i < n ==> ws[i] == Pte(PageAt(o, i, flags), flags)
  {
    match o
    case Contiguous(paddr) => BlockWords(n, paddr, flags)
    case Environment(phys) => ShadowWords(n, phys, flags)
    case Scattered(addrs) => ScatterWords(n, addrs, flags)
  }

  lemma EnoughPages(o: Origin, size: nat)
    requires Supplies(o, size)
    ensures o.Scattered? ==> PagesOf(size) <= |o.addrs|
    ensures o.Environment? ==> PagesOf(size) == size / PAGE_SIZE && PagesOf(size) * PAGE_SIZE == size
  {}

  /** What the device finds for an address: nothing, or where it is in physical memory. */
  datatype Place = Fault | Physical(addr: nat)

  /** How the device finds an address through a directory, by the layout of pvr/sgxmmu.h: the upper 10
      bits select the directory entry, which has the address of a table; the next 10 bits select the
      word in that table; the last 12 bits are the place in the page. */
  ghost function Walk(pd: seq<nat>, memory: nat -> seq<nat>, a: nat): Place
    requires |pd| == 1024 && a < 0x1_0000_0000
  {
    var pde := pd[a / 0x40_0000];
    if pde % 2 == 0 then Fault else
    var page := memory(pde - pde % 4096);
    if |page| != 1024 then Fault else
    var pte := page[a / 4096 % 1024];
    if pte % 2 == 0 then Fault else Physical(pte - pte % 4096 + a % 4096)
  }

  /** The tables are in memory where the records say. */
  ghost predicate InMemory(t: seq<PtInfo>, memory: nat -> seq<nat>) {
    forall s: nat {:trigger t[s]} :: s < |t| && t[s].Table? ==> memory(AddrOf(t[s].addr)) == t[s].page
  }

  /** Walking through the entry and the table is looking up the word. */
  lemma WalkIsWord(pd: seq<nat>, memory: nat -> seq<nat>, t: seq<PtInfo>, a: nat)
    requires |pd| == 1024 && a < 0x1_0000_0000 && GoodTables(t) && InMemory(t, memory)
    requires pd[a / 0x40_0000] == DirEntry(t[a / 0x40_0000])
    ensures Walk(pd, memory, a) ==
              var w := Word(t, a / PAGE_SIZE); if IsValid(w) then Physical(AddrOf(w) + a % 4096) else Fault
  {
    var s, v := a / 0x40_0000, a / 4096;
    assert v / 1024 == s;
    assert GoodTable(t[s]);
    if t[s].Table? {
      var e := DirEntry(t[s]);
      assert e - e % 4096 == AddrOf(e);
      var w := t[s].page[v % 1024];
      assert w - w % 4096 == AddrOf(w);
    }
  }

  class Device {
    var contexts: seq<Context>
    var heaps: seq<Heap>

    /** The directories and the table lists of all contexts. */
    ghost function Pds(): set<object>
      reads this
    {
      set c | c in contexts :: c.pd
    }

    ghost function Tables(): set<object>
      reads this
    {
      set c | c in contexts :: c.tables
    }

    /** Contexts share no memory; heaps lie in the directory and keep apart. */
    ghost predicate WellFormed()
      reads this
    {
      && (forall i, j :: 0 <= i < j < |contexts| ==>
            contexts[i] != contexts[j] && contexts[i].pd != contexts[j].pd && contexts[i].tables != contexts[j].tables)
      && (forall h :: h in heaps ==>
            h.ctx in contexts && h.base % TABLE_SPAN == 0 && FirstSlot(h) + TableCount(h) <= PD_SIZE)
      && (forall i, j :: 0 <= i < j < |heaps| ==> Separate(heaps[i], heaps[j]))
    }

    /** Everything but the agreement of the directories. */
    ghost predicate Sound()
      reads this, Pds(), Tables()
    {
      && WellFormed()
      && (forall c :: c in contexts ==> c.Good())
      && (forall h, s: nat {:trigger BackedSlot(h, s)} :: h in heaps && InHeap(h, s) ==> BackedSlot(h, s))
    }

    /** All directories agree on all shared heaps. */
    ghost predicate Valid()
      reads this, Pds(), Tables()
    {
      Sound() && forall h, c {:trigger Agrees(c, h)} :: h in heaps && h.shared && c in contexts ==> Agrees(c, h)
    }

    constructor ()
      ensures Valid() && contexts == [] && heaps == []
    {
      contexts, heaps := [], [];
    }

    /** Writes one directory slot: in every context's directory for a shared heap, else in the
        heap's own. */
    method SetEntry(h: Heap, slot: nat, entry: nat)
      requires WellFormed() && h.ctx in contexts && slot < PD_SIZE
      requires forall c :: c in contexts ==> c.pd.Length == PD_SIZE
      modifies Pds()
      ensures forall c, s: nat {:trigger c.pd[s]} :: c in contexts && s < PD_SIZE ==>
                c.pd[s] == if s == slot && (h.shared || c == h.ctx) then entry else old(c.pd[s])
    {
      if h.shared {
        for k := 0 to |contexts|
          invariant forall c, s: nat {:trigger c.pd[s]} :: c in contexts && s < PD_SIZE ==>
                      c.pd[s] == if s == slot && c in contexts[..k] then entry else old(c.pd[s])
        {
          contexts[k].pd[slot] := entry;
        }
        assert contexts[..|contexts|] == contexts;
      } else {
        h.ctx.pd[slot] := entry;
      }
    }

    /** A new record in one slot of the heap's own table list, with the directory entry to it. */
    method Place(h: Heap, slot: nat, info: PtInfo, entry: nat)
      requires Sound() && h in heaps && InHeap(h, slot) && slot < PD_SIZE
      requires GoodTable(info) && entry == DirEntry(info)
      modifies Pds(), h.ctx.tables
      ensures Sound() && (old(Valid()) ==> Valid())
      ensures forall c, s: nat {:trigger c.pd[s]} :: c in contexts && s < PD_SIZE ==>
                c.pd[s] == if s == slot && (h.shared || c == h.ctx) then entry else old(c.pd[s])
      ensures forall s: nat {:trigger h.ctx.tables[s]} :: s < PD_SIZE ==>
                h.ctx.tables[s] == if s == slot then info else old(h.ctx.tables[s])
    {
      SlotInDirectory(h, slot);
      h.ctx.tables[slot] := info;
      SetEntry(h, slot, entry);
      forall c | c in contexts
        ensures c.Good()
      {
        assert old(c.Good());
        forall s: nat | s < PD_SIZE
          ensures GoodTable(c.tables[s])
        {
          assert GoodTable(old(c.tables[..])[s]);
        }
      }
      forall h', s: nat | h' in heaps && InHeap(h', s)
        ensures BackedSlot(h', s)
      {
        assert old(BackedSlot(h', s));
        if s == slot && h' != h {
          HeapsApart(h, h', s);
        }
      }
      if old(Valid()) {
        forall h', c | h' in heaps && h'.shared && c in contexts
          ensures Agrees(c, h')
        {
          assert old(Agrees(c, h'));
          forall s: nat | InHeap(h', s)
            ensures AgreesAt(c, h', s)
          {
            assert old(AgreesAt(c, h', s));
            if s == slot && h' != h {
              HeapsApart(h, h', s);
            }
          }
        }
      }
    }

    /** A record that has no page yet. */
    method NewRecord(h: Heap, slot: nat)
      requires Valid() && h in heaps && InHeap(h, slot) && slot < PD_SIZE && h.ctx.tables[slot] == NoTable
      modifies h.ctx.tables
      ensures Valid()
      ensures forall s: nat {:trigger h.ctx.tables[s]} :: s < PD_SIZE ==>
                h.ctx.tables[s] == if s == slot then NoPage else old(h.ctx.tables[s])
    {
      h.ctx.tables[slot] := NoPage;
      forall c | c in contexts
        ensures c.Good()
      {
        assert old(c.Good());
        forall s: nat | s < PD_SIZE
          ensures GoodTable(c.tables[s])
        {
          assert GoodTable(old(c.tables[..])[s]);
        }
      }
      forall h', s: nat | h' in heaps && InHeap(h', s)
        ensures BackedSlot(h', s)
      {
        assert old(BackedSlot(h', s));
      }
      forall h', c | h' in heaps && h'.shared && c in contexts
        ensures Agrees(c, h')
      {
        assert old(Agrees(c, h'));
        assert forall s: nat :: InHeap(h', s) ==> old(AgreesAt(c, h', s));
      }
    }

    /** What the directories agree on: in a shared heap, every context's directory leads to the very
        tables that the heap's owner keeps. */
    lemma SharedTablesAreSeen(h: Heap, c: Context, s: nat)
      requires Valid() && h in heaps && c in contexts && InHeap(h, s) && (h.shared || c == h.ctx)
      ensures c.pd.Length == PD_SIZE == h.ctx.tables.Length && s < PD_SIZE
      ensures c.pd[s] == DirEntry(h.ctx.tables[s])
    {
      SlotInDirectory(h, s);
      assert BackedSlot(h, s);
      if h.shared {
        assert Agrees(c, h) && AgreesAt(c, h, s);
      }
    }

    /** Every address of a heap has a directory slot, which is one of the heap's. */
    lemma AddressHasEntry(h: Heap, a: nat)
      requires WellFormed() && h in heaps && h.size % PAGE_SIZE == 0 && AddressIn(h, a)
      ensures a < ADDRESS_SPACE && a / TABLE_SPAN < PD_SIZE && InHeap(h, a / TABLE_SPAN)
    {
      SlotsOfHeap(h, a / TABLE_SPAN);
      SlotInRange(a);
    }

    /** In every context a shared heap belongs to, and for a heap of its own in the owner, the device
        finds each address of the heap where the owner's tables lead. */
    lemma DeviceFinds(h: Heap, c: Context, memory: nat -> seq<nat>, a: nat)
      requires Valid() && h in heaps && c in contexts && (h.shared || c == h.ctx)
      requires h.size % PAGE_SIZE == 0 && AddressIn(h, a) && InMemory(h.ctx.tables[..], memory)
      ensures c.pd.Length == 1024 && a < 0x1_0000_0000
      ensures Walk(c.pd[..], memory, a) ==
                var w := Word(h.ctx.tables[..], a / PAGE_SIZE);
                if IsValid(w) then Physical(AddrOf(w) + a % 4096) else Fault
    {
      AddressHasEntry(h, a);
      SharedTablesAreSeen(h, c, a / TABLE_SPAN);
      GoodContext(h);
      WalkIsWord(c.pd[..], memory, h.ctx.tables[..], a);
    }

    /** After an allocation was mapped, every context concerned sees byte d of its page i in the page that
        was supplied for it, at its place in that page. */
    lemma AllocationIsSeen(h: Heap, c: Context, memory: nat -> seq<nat>, t: seq<PtInfo>,
                           vaddr: nat, o: Origin, n: nat, flags: MemFlags, i: nat, d: nat)
      requires Valid() && h in heaps && c in contexts && (h.shared || c == h.ctx)
      requires h.size % PAGE_SIZE == 0 && InMemory(h.ctx.tables[..], memory)
      requires (o.Scattered? ==> n <= |o.addrs|) && i < n && d < 4096
      requires Rewritten(t, h.ctx.tables[..], vaddr / PAGE_SIZE, PageWords(o, n, flags))
      requires vaddr % PAGE_SIZE == 0 && AddressIn(h, ByteOf(vaddr, i, d))
      ensures c.pd.Length == 1024 && ByteOf(vaddr, i, d) < 0x1_0000_0000
      ensures Walk(c.pd[..], memory, ByteOf(vaddr, i, d)) == Physical(AddrOf(PageAt(o, i, flags)) + d)
    {
      hide Valid, AddressIn, Walk, Word, PageAt, PageWords, Pte, AddrOf, IsValid, Rewritten, InMemory, ByteOf;
      DeviceFinds(h, c, memory, ByteOf(vaddr, i, d));
      PageOfByte(vaddr, i, d);
      var v := vaddr / PAGE_SIZE;
      WrittenAt(t, h.ctx.tables[..], v, PageWords(o, n, flags), v + i);
      assert v + i - v == i;
    }

    /** Two different heaps with a slot in common are private to different contexts. */
    lemma HeapsApart(h: Heap, h': Heap, s: nat)
      requires WellFormed() && h in heaps && h' in heaps && h != h' && InHeap(h, s) && InHeap(h', s)
      ensures !h.shared && !h'.shared && h.ctx != h'.ctx
    {
      var i :| 0 <= i < |heaps| && heaps[i] == h;
      var j :| 0 <= j < |heaps| && heaps[j] == h';
      if i < j {
        assert Separate(heaps[i], heaps[j]);
      } else {
        assert Separate(heaps[j], heaps[i]);
      }
    }

    lemma SlotInDirectory(h: Heap, s: nat)
      requires WellFormed() && h in heaps && InHeap(h, s)
      ensures s < PD_SIZE && h.ctx in contexts
    {}

    // ---------------------------------------------------------------- allocating tables

    /** _DeferredAllocPagetables: a table for every slot of the range that has none.  Records and
        pages are allocated slot by slot, and the first allocation that fails ends it. */
    method DeferredAllocPagetables(h: Heap, vaddr: nat, size: nat,
                                   memOk: nat -> bool, pageOk: nat -> bool, page: nat -> nat)
      returns (ok: bool, ghost tried: nat)
      requires Valid() && h in heaps && vaddr < ADDRESS_SPACE
      requires forall s: nat :: vaddr / TABLE_SPAN <= s < vaddr / TABLE_SPAN + TablesFor(vaddr, size) ==> InHeap(h, s)
      modifies Pds(), h.ctx.tables
      ensures Valid()
      ensures ok <==> CanBackAll(old(h.ctx.tables[..]), vaddr / TABLE_SPAN, TablesFor(vaddr, size), memOk, pageOk)
      ensures Tried(old(h.ctx.tables[..]), h.ctx.tables[..], vaddr / TABLE_SPAN, tried, memOk, pageOk, page)
      ensures ok ==> AllBacked(h.ctx.tables[..], vaddr / TABLE_SPAN, TablesFor(vaddr, size))
      ensures ok ==> tried == if TablesFor(vaddr, size) < 0 then 0 else TablesFor(vaddr, size)
      ensures !ok ==>
                && 0 < tried <= TablesFor(vaddr, size) && vaddr / TABLE_SPAN + tried <= PD_SIZE
                && AllBacked(h.ctx.tables[..], vaddr / TABLE_SPAN, tried - 1)
                && !h.ctx.tables[vaddr / TABLE_SPAN + tried - 1].Table?
      ensures forall v: nat {:trigger Word(h.ctx.tables[..], v)} ::
                Word(h.ctx.tables[..], v) == Word(old(h.ctx.tables[..]), v)
    {
      hide Sound, Agrees, BackedSlot, WellFormed, Word, Tried, CanBackAll, AllBacked;
      var pdIndex, count := vaddr / TABLE_SPAN, TablesFor(vaddr, size);
      ghost var t := h.ctx.tables[..];
      NoneTried(t, pdIndex, memOk, pageOk, page);
      tried := 0;
      var i: nat := 0;
      while i < count
        invariant i == tried && (i <= count || (count < 0 && i == 0))
        invariant Valid() && contexts == old(contexts) && heaps == old(heaps)
        invariant Tried(t, h.ctx.tables[..], pdIndex, i, memOk, pageOk, page) && AllBacked(h.ctx.tables[..], pdIndex, i)
        invariant forall v: nat {:trigger Word(h.ctx.tables[..], v)} :: Word(h.ctx.tables[..], v) == Word(t, v)
      {
        var s := pdIndex + i;
        assert InHeap(h, s);
        ghost var t1 := h.ctx.tables[..];
        GoodContext(h);
        TriedSize(t, t1, pdIndex, i, memOk, pageOk, page);
        tried := tried + 1;
        ok := BackSlot(h, s, memOk(s), pageOk(s), page(s));
        TriedOneMore(t, t1, h.ctx.tables[..], pdIndex, i, memOk, pageOk, page);
        if !ok {
          return false, tried;
        }
        i := i + 1;
      }
      TriedAll(t, h.ctx.tables[..], pdIndex, i, count, memOk, pageOk, page);
      return true, tried;
    }

    lemma NoneTried(t: seq<PtInfo>, first: nat, memOk: nat -> bool, pageOk: nat -> bool, page: nat -> nat)
      ensures Tried(t, t, first, 0, memOk, pageOk, page) && AllBacked(t, first, 0)
    {}

    lemma TriedSize(t: seq<PtInfo>, t1: seq<PtInfo>, first: nat, n: nat,
                    memOk: nat -> bool, pageOk: nat -> bool, page: nat -> nat)
      requires Tried(t, t1, first, n, memOk, pageOk, page)
      ensures |t1| == |t|
    {}

    /** One slot of _DeferredAllocPagetables. */
    method BackSlot(h: Heap, slot: nat, memOk: bool, pageOk: bool, page: nat) returns (ok: bool)
      requires Valid() && h in heaps && InHeap(h, slot)
      modifies Pds(), h.ctx.tables
      ensures Valid() && slot < PD_SIZE
      ensures ok <==> h.ctx.tables[slot].Table?
      ensures ok <==> CanBack(old(h.ctx.tables[slot]), memOk, pageOk)
      ensures |h.ctx.tables[..]| == |old(h.ctx.tables[..])| == PD_SIZE
      ensures forall s: nat {:trigger h.ctx.tables[..][s]} :: s < PD_SIZE ==>
                h.ctx.tables[..][s] == if s == slot then BackedBy(old(h.ctx.tables[..])[s], memOk, pageOk, page)
                                       else old(h.ctx.tables[..])[s]
      ensures forall v: nat {:trigger Word(h.ctx.tables[..], v)} ::
                Word(h.ctx.tables[..], v) == Word(old(h.ctx.tables[..]), v)
    {
      SlotInDirectory(h, slot);
      if h.ctx.tables[slot] == NoTable {
        if !memOk {
          return false;
        }
        NewRecord(h, slot);
      }
      if h.ctx.tables[slot] == NoPage {
        if !pageOk {
          return false;
        }
        EmptyPage(page);
        Place(h, slot, Table(page, seq(PT_SIZE, _ => 0), 0), AddrOf(page) + 1);
      }
      return true;
    }

    // ---------------------------------------------------------------- freeing tables

    /** _DeferredFreePageTable, for table number ptIndex of the heap: whatever the table led to, its
        slot leads nowhere afterwards. */
    method DeferredFreePageTable(h: Heap, ptIndex: nat)
      requires Valid() && h in heaps && ptIndex < TableCount(h)
      requires FirstSlot(h) + ptIndex < PD_SIZE
      modifies Pds(), h.ctx.tables
      ensures Valid()
      ensures forall s: nat {:trigger h.ctx.tables[s]} :: s < PD_SIZE ==>
                h.ctx.tables[s] == if s == FirstSlot(h) + ptIndex then NoTable else old(h.ctx.tables[s])
      ensures forall v: nat {:trigger Word(h.ctx.tables[..], v)} ::
                Word(h.ctx.tables[..], v)
                == if v / PT_SIZE == FirstSlot(h) + ptIndex then 0 else Word(old(h.ctx.tables[..]), v)
    {
      SlotInDirectory(h, FirstSlot(h) + ptIndex);
      var pdIndex := h.base / TABLE_SPAN;
      assert pdIndex == FirstSlot(h);
      ghost var t := h.ctx.tables[..];
      Place(h, pdIndex + ptIndex, NoTable, 0);
      assert h.ctx.tables[..] == t[pdIndex + ptIndex := NoTable];
    }

    /** MMU_UnmapPagesAndFreePTs.  A page whose table record has no page is met again and again,
        since the address is not moved on; so the loop gets no further than the first such page. */
    method UnmapPagesAndFreePTs(h: Heap, vaddr: nat, pageCount: nat)
      requires Valid() && h in heaps && vaddr + pageCount * PAGE_SIZE <= ADDRESS_SPACE
      requires forall u: nat {:trigger PageInHeap(h, u)} ::
                 vaddr / PAGE_SIZE <= u < vaddr / PAGE_SIZE + pageCount ==> PageInHeap(h, u)
      modifies Pds(), h.ctx.tables
      ensures Valid()
      ensures var done := Reached(old(h.ctx.tables[..]), vaddr / PAGE_SIZE, pageCount);
              && Rewritten(old(h.ctx.tables[..]), h.ctx.tables[..], vaddr / PAGE_SIZE, Zeros(done))
              && Touched(h.ctx.tables[..], vaddr / PAGE_SIZE, done)
      ensures LaterKinds(old(h.ctx.tables[..]), h.ctx.tables[..])
    {
      hide Sound, Agrees, BackedSlot, WellFormed, Word;
      ghost var t, v, k := h.ctx.tables[..], vaddr / PAGE_SIZE, Reached(h.ctx.tables[..], vaddr / PAGE_SIZE, pageCount);
      ReachedBounds(t, v, pageCount);
      var dev := vaddr;
      ghost var done := 0;
      for i := 0 to pageCount
        invariant done == (if i < k then i else k) && dev == vaddr + done * PAGE_SIZE
        invariant Valid() && contexts == old(contexts) && heaps == old(heaps)
        invariant Rewritten(t, h.ctx.tables[..], v, Zeros(done))
        invariant Touched(h.ctx.tables[..], v, done) && LaterKinds(t, h.ctx.tables[..])
      {
        assert PageInHeap(h, v + done) && (done < k ==> !StuckAt(t, v + done));
        PageNumbers(vaddr, done);
        ghost var t1 := h.ctx.tables[..];
        var stuck := UnmapOne(h, dev);
        UnmappedMore(t, t1, h.ctx.tables[..], v, done, stuck);
        if !stuck {
          dev := dev + PAGE_SIZE;
          done := done + 1;
        }
      }
    }

    /** One round of that loop: whether the page's record has no page. */
    method UnmapOne(h: Heap, dev: nat) returns (stuck: bool)
      requires Valid() && h in heaps && dev < ADDRESS_SPACE && PageInHeap(h, dev / PAGE_SIZE)
      modifies Pds(), h.ctx.tables
      ensures Valid() && |h.ctx.tables[..]| == |old(h.ctx.tables[..])| == PD_SIZE
      ensures dev / TABLE_SPAN < PD_SIZE && dev / PAGE_SIZE / PT_SIZE == dev / TABLE_SPAN
      ensures stuck <==> StuckAt(old(h.ctx.tables[..]), dev / PAGE_SIZE)
      ensures forall u: nat {:trigger Word(h.ctx.tables[..], u)} ::
                Word(h.ctx.tables[..], u) ==
                  if u == dev / PAGE_SIZE && !stuck then 0 else Word(old(h.ctx.tables[..]), u)
      ensures !stuck ==> TouchedAt(h.ctx.tables[..], dev / PAGE_SIZE)
      ensures forall s: nat {:trigger h.ctx.tables[..][s]} :: s < PD_SIZE ==>
                && LaterKind(old(h.ctx.tables[..])[s], h.ctx.tables[..][s])
                && (s != dev / PAGE_SIZE / PT_SIZE || stuck ==> h.ctx.tables[..][s] == old(h.ctx.tables[..])[s])
    {
      PageNumbers(dev, 0);
      SlotInDirectory(h, dev / PAGE_SIZE / PT_SIZE);
      var d, k := dev / TABLE_SPAN, dev / PAGE_SIZE % PT_SIZE;
      assert dev / PAGE_SIZE == d * PT_SIZE + k;
      if h.ctx.tables[d] == NoTable {
        return false;
      }
      if h.ctx.tables[d] == NoPage {
        return true;
      }
      ClearAt(h, d, k);
      if h.ctx.tables[d].valid == 0 {
        GoodContext(h);
        ghost var t1 := h.ctx.tables[..];
        NothingLeft(t1, d);
        DeferredFreePageTable(h, d - h.base / PAGE_SIZE / PT_SIZE);
        assert forall u: nat {:trigger Word(h.ctx.tables[..], u)} :: Word(h.ctx.tables[..], u) == Word(t1, u);
      }
      return false;
    }

    /** Clearing an entry concerns no directory. */
    method ClearAt(h: Heap, d: nat, k: nat)
      requires Valid() && h in heaps && d < PD_SIZE && k < PT_SIZE && h.ctx.tables[d].Table?
      modifies h.ctx.tables
      ensures Valid() && h.ctx.tables[d].Table? && h.ctx.tables[d].addr == old(h.ctx.tables[d]).addr
      ensures forall u: nat {:trigger Word(h.ctx.tables[..], u)} ::
                Word(h.ctx.tables[..], u) == if u == d * PT_SIZE + k then 0 else Word(old(h.ctx.tables[..]), u)
      ensures forall s: nat {:trigger h.ctx.tables[s]} :: s < PD_SIZE && s != d ==>
                h.ctx.tables[s] == old(h.ctx.tables[s])
    {
      ghost var t := h.ctx.tables[..];
      h.ctx.ClearEntry(d, k);
      assert h.ctx.tables[..][d].Table? && h.ctx.tables[..][d].addr == t[d].addr by { assert t[d].Table?; }
      forall c | c in contexts
        ensures c.Good()
      {
        assert old(c.Good());
        assert c != h.ctx ==> c.tables[..] == old(c.tables[..]);
      }
      forall h', s: nat | h' in heaps && InHeap(h', s)
        ensures BackedSlot(h', s)
      {
        assert old(BackedSlot(h', s));
        SlotInDirectory(h', s);
        assert DirEntry(h'.ctx.tables[..][s]) == DirEntry(old(h'.ctx.tables[..])[s]);
      }
      forall h', c | h' in heaps && h'.shared && c in contexts
        ensures Agrees(c, h')
      {
        assert old(Agrees(c, h'));
        assert forall s: nat :: InHeap(h', s) ==> old(AgreesAt(c, h', s));
      }
    }

    // ---------------------------------------------------------------- mapping

    /** The part of DevMemoryAlloc that maps the pages, by MMU_MapPages, MMU_MapShadow or
        MMU_MapScatter: the tables are those of the heap's context, and no directory is concerned. */
    method Map(h: Heap, vaddr: nat, o: Origin, size: nat, flags: MemFlags)
      requires Valid() && h in heaps && vaddr + PagesOf(size) * PAGE_SIZE <= ADDRESS_SPACE && Supplies(o, size)
      requires Backed(h.ctx.tables[..], vaddr / PAGE_SIZE, PagesOf(size))
      requires Unmapped(h.ctx.tables[..], vaddr / PAGE_SIZE, PagesOf(size))
      modifies h.ctx.tables
      ensures Valid() && SameKinds(old(h.ctx.tables[..]), h.ctx.tables[..])
      ensures o.Scattered? ==> PagesOf(size) <= |o.addrs|
      ensures Rewritten(old(h.ctx.tables[..]), h.ctx.tables[..], vaddr / PAGE_SIZE,
                        PageWords(o, PagesOf(size), flags))
    {
      hide Rewritten, BlockWords, ShadowWords, ScatterWords;
      EnoughPages(o, size);
      ghost var t := h.ctx.tables[..];
      match o {
        case Contiguous(paddr) => h.ctx.MapPages(vaddr, paddr, size, flags);
        case Environment(phys) => var mapped := h.ctx.MapShadow(vaddr, size, phys, flags);
        case Scattered(addrs) => h.ctx.MapScatter(vaddr, addrs, size, flags);
      }
      forall c | c in contexts
        ensures c.Good()
      {
        assert old(c.Good());
        assert c != h.ctx ==> c.tables[..] == old(c.tables[..]);
      }
      forall h', s: nat | h' in heaps && InHeap(h', s)
        ensures BackedSlot(h', s)
      {
        assert old(BackedSlot(h', s));
        SlotInDirectory(h', s);
        assert DirEntry(h'.ctx.tables[..][s]) == DirEntry(old(h'.ctx.tables[..])[s]);
      }
      forall h', c | h' in heaps && h'.shared && c in contexts
        ensures Agrees(c, h')
      {
        assert old(Agrees(c, h'));
        assert forall s: nat :: InHeap(h', s) ==> old(AgreesAt(c, h', s));
      }
    }

    /** An allocation in a heap as DevMemoryAlloc makes it: tables first, then the pages are mapped.
        The tables are always enough, because the range ends below the last table's span. */
    method AllocAndMap(h: Heap, vaddr: nat, o: Origin, size: nat, flags: MemFlags,
                       memOk: nat -> bool, pageOk: nat -> bool, page: nat -> nat) returns (ok: bool)
      requires Valid() && h in heaps && Supplies(o, size)
      requires 0 < size && vaddr + PagesOf(size) * PAGE_SIZE <= ADDRESS_SPACE - TABLE_SPAN
      requires forall s: nat :: vaddr / TABLE_SPAN <= s <= (vaddr + size - 1) / TABLE_SPAN ==> InHeap(h, s)
      requires Unmapped(h.ctx.tables[..], vaddr / PAGE_SIZE, PagesOf(size))
      modifies Pds(), h.ctx.tables
      ensures Valid()
      ensures ok <==> CanBackAll(old(h.ctx.tables[..]), vaddr / TABLE_SPAN, SlotsTouched(vaddr, size), memOk, pageOk)
      ensures GapsStay(old(h.ctx.tables[..]), h.ctx.tables[..], vaddr / TABLE_SPAN, SlotsTouched(vaddr, size))
      ensures o.Scattered? ==> PagesOf(size) <= |o.addrs|
      ensures Rewritten(old(h.ctx.tables[..]), h.ctx.tables[..], vaddr / PAGE_SIZE,
                        if ok then PageWords(o, PagesOf(size), flags) else [])
    {
      hide Sound, Agrees, BackedSlot, WellFormed, Word, TablesFor, CanBackAll, Tried, AllBacked, GapsStay, SameKinds;
      CoverageIsExact(vaddr, size);
      EnoughPages(o, size);
      ghost var t, v, n := h.ctx.tables[..], vaddr / PAGE_SIZE, PagesOf(size);
      ghost var tried;
      ok, tried := DeferredAllocPagetables(h, vaddr, size, memOk, pageOk, page);
      ghost var t1 := h.ctx.tables[..];
      TriedLeavesGaps(t, t1, vaddr / TABLE_SPAN, tried, SlotsTouched(vaddr, size), memOk, pageOk, page);
      if ok {
        GoodContext(h);
        ReadyToMap(t, t1, vaddr, size);
        Map(h, vaddr, o, size, flags);
        forall u: nat
          ensures Word(h.ctx.tables[..], u)
               == if v <= u < v + n then PageWords(o, n, flags)[u - v] else Word(t, u)
        {
          assert Word(t1, u) == Word(t, u);
        }
      }
    }

    /** All pages of the range have tables, and still no valid entry. */
    lemma ReadyToMap(t: seq<PtInfo>, t1: seq<PtInfo>, vaddr: nat, size: nat)
      requires 0 < size && vaddr + PagesOf(size) * PAGE_SIZE <= ADDRESS_SPACE && |t1| == PD_SIZE
      requires AllBacked(t1, vaddr / TABLE_SPAN, SlotsTouched(vaddr, size))
      requires Unmapped(t, vaddr / PAGE_SIZE, PagesOf(size))
      requires forall u: nat {:trigger Word(t1, u)} :: Word(t1, u) == Word(t, u)
      ensures Backed(t1, vaddr / PAGE_SIZE, PagesOf(size)) && Unmapped(t1, vaddr / PAGE_SIZE, PagesOf(size))
    {
      hide Word;
      forall u: nat | vaddr / PAGE_SIZE <= u < vaddr / PAGE_SIZE + PagesOf(size)
        ensures BackedAt(t1, u) && !IsValid(Word(t1, u))
      {
        PageNumbers(vaddr, u - vaddr / PAGE_SIZE);
        assert t1[u / PT_SIZE].Table?;
        assert Word(t1, u) == Word(t, u);
      }
    }

    /** The whole life of an allocation: allocated, mapped and freed again.  All its pages are unmapped,
        no word of any other page is affected, and of its tables only those remain that others use. */
    method AllocAndFree(h: Heap, vaddr: nat, o: Origin, size: nat, flags: MemFlags,
                        memOk: nat -> bool, pageOk: nat -> bool, page: nat -> nat) returns (ok: bool)
      requires Valid() && h in heaps && Supplies(o, size)
      requires 0 < size && vaddr + PagesOf(size) * PAGE_SIZE <= ADDRESS_SPACE - TABLE_SPAN
      requires forall s: nat :: vaddr / TABLE_SPAN <= s <= (vaddr + size - 1) / TABLE_SPAN ==> InHeap(h, s)
      requires Unmapped(h.ctx.tables[..], vaddr / PAGE_SIZE, PagesOf(size))
      modifies Pds(), h.ctx.tables
      ensures Valid()
      ensures forall u: nat {:trigger Word(h.ctx.tables[..], u)} ::
                Word(h.ctx.tables[..], u) == Word(old(h.ctx.tables[..]), u)
      ensures forall u: nat :: vaddr / PAGE_SIZE <= u < vaddr / PAGE_SIZE + PagesOf(size) ==>
                Translate(h.ctx.tables[..], u) == 0
      ensures ok ==> Touched(h.ctx.tables[..], vaddr / PAGE_SIZE, PagesOf(size))
    {
      hide Sound, Agrees, BackedSlot, WellFormed, Word, Pte, Rewritten, CanBackAll, Touched;
      ghost var t, v, n := h.ctx.tables[..], vaddr / PAGE_SIZE, PagesOf(size);
      UnmappedIsZero(h, v, n);
      ok := AllocAndMap(h, vaddr, o, size, flags, memOk, pageOk, page);
      ghost var t1 := h.ctx.tables[..];
      if ok {
        MappedIsValid(t, t1, v, o, n, flags);
        MappedIsReached(t1, v, n);
        RangeInHeap(h, vaddr, size);
        UnmapPagesAndFreePTs(h, vaddr, PagesOf(size));
      }
      BackToZero(t, t1, h.ctx.tables[..], v, if ok then PageWords(o, n, flags) else []);
      ZeroTranslates(h.ctx.tables[..], v, n);
    }

    lemma RangeInHeap(h: Heap, vaddr: nat, size: nat)
      requires 0 < size && vaddr + PagesOf(size) * PAGE_SIZE <= ADDRESS_SPACE
      requires forall s: nat :: vaddr / TABLE_SPAN <= s <= (vaddr + size - 1) / TABLE_SPAN ==> InHeap(h, s)
      ensures forall u: nat {:trigger PageInHeap(h, u)} ::
                vaddr / PAGE_SIZE <= u < vaddr / PAGE_SIZE + PagesOf(size) ==> PageInHeap(h, u)
    {
      forall u: nat | vaddr / PAGE_SIZE <= u < vaddr / PAGE_SIZE + PagesOf(size)
        ensures PageInHeap(h, u)
      {
        PageNumbers(vaddr, u - vaddr / PAGE_SIZE);
      }
    }

    lemma UnmappedIsZero(h: Heap, v: nat, n: nat)
      requires Sound() && h in heaps && Unmapped(h.ctx.tables[..], v, n)
      ensures forall u: nat {:trigger Word(h.ctx.tables[..], u)} :: v <= u < v + n ==> Word(h.ctx.tables[..], u) == 0
    {
      GoodContext(h);
      forall u: nat | v <= u < v + n
        ensures Word(h.ctx.tables[..], u) == 0
      {
        WordIsGood(h.ctx.tables[..], u);
      }
    }

    lemma GoodContext(h: Heap)
      requires Sound() && h in heaps
      ensures h.ctx.Good() && |h.ctx.tables[..]| == PD_SIZE
    {}

    // ---------------------------------------------------------------- contexts and heaps

    /** MMU_InsertHeap: copies the heap's directory entries to the context's directory. */
    method InsertHeap(c: Context, h: Heap)
      requires Sound() && h in heaps && h.shared && c in contexts
      modifies c.pd
      ensures Sound() && Agrees(c, h)
      ensures h.size % PAGE_SIZE == 0 ==>
                forall a: nat {:trigger AddressIn(h, a)} :: AddressIn(h, a) ==> AgreesAt(c, h, a / TABLE_SPAN)
      ensures forall s: nat {:trigger c.pd[s]} :: s < PD_SIZE && !InHeap(h, s) ==> c.pd[s] == old(c.pd[s])
      ensures c == h.ctx ==> c.pd[..] == old(c.pd[..])
    {
      var first := h.base / TABLE_SPAN;
      assert first == FirstSlot(h);
      for i := 0 to TableCount(h)
        invariant forall s: nat {:trigger c.pd[s]} :: s < PD_SIZE ==>
                    c.pd[s] == if first <= s < first + i then old(h.ctx.pd[s]) else old(c.pd[s])
        invariant c != h.ctx ==> h.ctx.pd[..] == old(h.ctx.pd[..])
      {
        SlotInDirectory(h, first + i);
        c.pd[first + i] := h.ctx.pd[first + i];
      }
      forall h', s: nat | h' in heaps && InHeap(h', s)
        ensures BackedSlot(h', s)
      {
        assert old(BackedSlot(h', s));
        if h'.ctx == c && h' != h && InHeap(h, s) {
          HeapsApart(h, h', s);
        }
      }
      forall s: nat | InHeap(h, s)
        ensures AgreesAt(c, h, s)
      {
        SlotInDirectory(h, s);
      }
      forall a: nat | h.size % PAGE_SIZE == 0 && AddressIn(h, a)
        ensures AgreesAt(c, h, a / TABLE_SPAN)
      {
        AddressHasEntry(h, a);
      }
    }

    /** A new context as BM_CreateContext sets it up: MMU_Initialise puts it at the head of the
        list, with an empty directory, and then every shared heap is inserted. */
    method CreateContext() returns (c: Context)
      requires Valid()
      modifies this`contexts
      ensures Valid() && contexts == [c] + old(contexts) && fresh(c) && fresh(c.pd) && fresh(c.tables)
      ensures c in contexts && c.Good()
      ensures forall s: nat {:trigger c.tables[s]} :: s < PD_SIZE ==> c.tables[s] == NoTable
      ensures forall s: nat {:trigger c.pd[s]} ::
                s < PD_SIZE && (forall h :: h in heaps && h.shared ==> !InHeap(h, s)) ==> c.pd[s] == 0
    {
      c := new Context();
      ghost var before := contexts;
      AddContext(c);
      hide Sound, Agrees, InHeap;
      InsertShared(c, before);
      forall h, x | h in heaps && h.shared && x in contexts
        ensures Agrees(x, h)
      {
        var j :| 0 <= j < |heaps| && heaps[j] == h;
        assert x == c ==> Agrees(c, heaps[j]);
      }
    }

    /** The loop over the shared heaps. */
    method InsertShared(c: Context, ghost before: seq<Context>)
      requires Sound() && Newest(c, before) && c.Good() && ClearElsewhere(c)
      requires forall h, x {:trigger Agrees(x, h)} :: h in heaps && h.shared && x in before ==> Agrees(x, h)
      modifies c.pd
      ensures Sound() && Newest(c, before) && c.Good() && ClearElsewhere(c)
      ensures forall h, x {:trigger Agrees(x, h)} :: h in heaps && h.shared && x in before ==> Agrees(x, h)
      ensures forall j {:trigger heaps[j]} :: 0 <= j < |heaps| && heaps[j].shared ==> Agrees(c, heaps[j])
    {
      hide Sound, Agrees, ClearElsewhere, Newest;
      for i := 0 to |heaps|
        invariant Sound() && Newest(c, before) && c.Good() && ClearElsewhere(c)
        invariant forall h, x {:trigger Agrees(x, h)} :: h in heaps && h.shared && x in before ==> Agrees(x, h)
        invariant forall j {:trigger heaps[j]} :: 0 <= j < i && heaps[j].shared ==> Agrees(c, heaps[j])
      {
        if heaps[i].shared {
          InsertNext(c, i, before);
        }
      }
    }

    /** The directory is empty where no shared heap is. */
    ghost predicate ClearElsewhere(c: Context)
      reads this, c.pd
    {
      c.pd.Length == PD_SIZE
      && forall s: nat {:trigger c.pd[s]} ::
           s < PD_SIZE && (forall h :: h in heaps && h.shared ==> !InHeap(h, s)) ==> c.pd[s] == 0
    }

    /** The context was put before all others, and no heap is its own. */
    ghost predicate Newest(c: Context, before: seq<Context>)
      reads this
    {
      contexts == [c] + before && c !in before && forall h :: h in heaps ==> h.ctx in before
    }

    lemma ApartFromNewest(c: Context, before: seq<Context>, x: Context)
      requires WellFormed() && Newest(c, before) && x in before
      ensures x != c && x.pd != c.pd
    {
      var i :| 0 <= i < |before| && before[i] == x;
      assert contexts[0] == c && contexts[i + 1] == x;
    }

    /** Linking a context that is not on the list yet. */
    method AddContext(c: Context)
      requires Valid() && c.Good() && c !in contexts && c.pd !in Pds() && c.tables !in Tables()
      modifies this`contexts
      ensures Sound() && Newest(c, old(contexts))
      ensures forall h, x {:trigger Agrees(x, h)} :: h in heaps && h.shared && x in old(contexts) ==> Agrees(x, h)
    {
      ghost var before := contexts;
      contexts := [c] + contexts;
      assert forall x :: x in contexts <==> x == c || x in before;
    }

    /** One shared heap inserted, while others have been before it. */
    method InsertNext(c: Context, i: nat, ghost before: seq<Context>)
      requires Sound() && Newest(c, before) && ClearElsewhere(c) && i < |heaps| && heaps[i].shared
      requires forall h, x {:trigger Agrees(x, h)} :: h in heaps && h.shared && x in before ==> Agrees(x, h)
      requires forall j {:trigger heaps[j]} :: 0 <= j < i && heaps[j].shared ==> Agrees(c, heaps[j])
      modifies c.pd
      ensures Sound() && Newest(c, before) && c.Good() && ClearElsewhere(c)
      ensures forall h, x {:trigger Agrees(x, h)} :: h in heaps && h.shared && x in before ==> Agrees(x, h)
      ensures forall j {:trigger heaps[j]} :: 0 <= j <= i && heaps[j].shared ==> Agrees(c, heaps[j])
    {
      InsertHeap(c, heaps[i]);
      forall h, x | h in heaps && h.shared && x in before
        ensures Agrees(x, h)
      {
        assert old(Agrees(x, h));
        ApartFromNewest(c, before, x);
        ApartFromNewest(c, before, h.ctx);
        assert forall s: nat :: InHeap(h, s) ==> old(AgreesAt(x, h, s));
      }
      forall j | 0 <= j < i && heaps[j].shared
        ensures Agrees(c, heaps[j])
      {
        assert old(Agrees(c, heaps[j])) && Separate(heaps[j], heaps[i]);
        forall s: nat | InHeap(heaps[j], s)
          ensures AgreesAt(c, heaps[j], s)
        {
          assert old(AgreesAt(c, heaps[j], s));
        }
      }
    }

    /** MMU_Finalise: the directory is zeroed and the context unlinked, wherever in the list it is.
        That leaves the device valid exactly if the context owns no heap any more. */
    method RemoveContext(c: Context)
      requires Valid() && c in contexts
      modifies this`contexts, c.pd
      ensures Valid() <==> forall h :: h in heaps ==> h.ctx != c
      ensures exists i :: 0 <= i < |old(contexts)| && old(contexts)[i] == c
                          && contexts == old(contexts)[..i] + old(contexts)[i + 1..]
      ensures c !in contexts && forall x :: x in old(contexts) && x != c ==> x in contexts
      ensures forall d :: 0 <= d < c.pd.Length ==> c.pd[d] == 0
    {
      assert c.Good();
      hide Agrees, BackedSlot, WellFormed, Context.Good;
      ghost var before := contexts;
      for i := 0 to PD_SIZE
        invariant contexts == before && forall d :: 0 <= d < i ==> c.pd[d] == 0
      {
        c.pd[i] := 0;
      }
      Unlink(c);
      if forall h :: h in heaps ==> h.ctx != c {
        forall h, x | h in heaps && h.shared && x in contexts
          ensures Agrees(x, h)
        {
          assert old(Agrees(x, h));
        }
        forall h, s: nat | h in heaps && InHeap(h, s)
          ensures BackedSlot(h, s)
        {
          assert old(BackedSlot(h, s));
        }
      }
    }

    /** The context is taken out of the list. */
    method Unlink(c: Context)
      requires WellFormed() && c in contexts
      modifies this`contexts
      ensures WellFormed() <==> forall h :: h in heaps ==> h.ctx != c
      ensures WellFormed() ==> forall h :: h in heaps ==> h.ctx in contexts
      ensures exists i :: 0 <= i < |old(contexts)| && old(contexts)[i] == c
                          && contexts == old(contexts)[..i] + old(contexts)[i + 1..]
      ensures forall x :: x in contexts <==> x in old(contexts) && x != c
      ensures forall x :: x in contexts ==> x.pd != c.pd && x.tables != c.tables
    {
      hide Separate;
      var k := PlaceInList(c);
      ApartWithout(contexts, k);
      contexts := contexts[..k] + contexts[k + 1..];
    }

    method PlaceInList(c: Context) returns (k: nat)
      requires c in contexts
      ensures k < |contexts| && contexts[k] == c
    {
      k := 0;
      while k < |contexts| && contexts[k] != c
        invariant k <= |contexts| && c !in contexts[..k]
      {
        k := k + 1;
      }
      assert contexts[..|contexts|] == contexts;
    }

    /** MMU_Create: a heap whose slots nobody uses yet. */
    method AddHeap(h: Heap)
      requires Valid() && h.ctx in contexts && h.base % TABLE_SPAN == 0 && FirstSlot(h) + TableCount(h) <= PD_SIZE
      requires forall h' :: h' in heaps ==> Separate(h', h)
      requires forall c, s: nat {:trigger c.pd[s]} ::
                 c in contexts && (c == h.ctx || h.shared) && InHeap(h, s) && s < PD_SIZE ==> c.pd[s] == 0
      requires forall s: nat {:trigger h.ctx.tables[s]} :: InHeap(h, s) && s < PD_SIZE ==> !h.ctx.tables[s].Table?
      modifies this`heaps
      ensures Valid() && heaps == old(heaps) + [h]
    {
      ghost var before := heaps;
      heaps := heaps + [h];
      forall c, h' | h' in heaps && h'.shared && c in contexts
        ensures Agrees(c, h')
      {
        if h' in before {
          assert old(Agrees(c, h'));
        } else {
          assert c.Good() && h.ctx.Good();
          assert forall s: nat :: InHeap(h, s) ==> AgreesAt(c, h, s);
        }
      }
      forall h', s: nat | h' in heaps && InHeap(h', s)
        ensures BackedSlot(h', s)
      {
        assert h' in before ==> old(BackedSlot(h', s));
        assert h'.ctx.Good();
      }
    }

    /** MMU_Delete: all tables of the heap are freed, and its slots are empty in every directory that
        had them. */
    method DeleteHeap(k: nat)
      requires Valid() && k < |heaps|
      modifies this`heaps, Pds(), heaps[k].ctx.tables
      ensures Valid() && heaps == old(heaps[..k] + heaps[k + 1..])
      ensures forall s: nat {:trigger old(heaps[k]).ctx.tables[s]} :: s < PD_SIZE ==>
                old(heaps[k]).ctx.tables[s] == if InHeap(old(heaps[k]), s) then NoTable else old(heaps[k].ctx.tables[s])
      ensures forall c, s: nat {:trigger c.pd[s]} ::
                (c in contexts && s < PD_SIZE && InHeap(old(heaps[k]), s)
                 && (c == old(heaps[k]).ctx || old(heaps[k]).shared)) ==> c.pd[s] == 0
      ensures old(heaps[k]).size % PAGE_SIZE == 0 ==>
                forall a: nat {:trigger AddressIn(old(heaps[k]), a)} :: AddressIn(old(heaps[k]), a) ==>
                  EmptyAt(old(heaps[k]), contexts, a / TABLE_SPAN)
    {
      var h := heaps[k];
      var i := 0;
      while i < TableCount(h)
        invariant 0 <= i <= TableCount(h) && Valid() && heaps == old(heaps) && contexts == old(contexts)
        invariant forall s: nat {:trigger h.ctx.tables[s]} :: s < PD_SIZE ==>
                    h.ctx.tables[s] == if FirstSlot(h) <= s < FirstSlot(h) + i then NoTable else old(h.ctx.tables[s])
      {
        SlotInDirectory(h, FirstSlot(h) + i);
        DeferredFreePageTable(h, i);
        i := i + 1;
      }
      forall c, s: nat | c in contexts && s < PD_SIZE && InHeap(h, s) && (c == h.ctx || h.shared)
        ensures c.pd[s] == 0
      {
        assert BackedSlot(h, s);
        if h.shared {
          assert Agrees(c, h) && AgreesAt(c, h, s);
        }
      }
      forall a: nat | h.size % PAGE_SIZE == 0 && AddressIn(h, a)
        ensures EmptyAt(h, contexts, a / TABLE_SPAN)
      {
        AddressHasEntry(h, a);
      }
      DropHeap(k);
    }

    method DropHeap(k: nat)
      requires Valid() && k < |heaps|
      modifies this`heaps
      ensures Valid() && heaps == old(heaps[..k] + heaps[k + 1..])
    {
      hide Separate, Agrees;
      SeparateWithout(heaps, k);
      heaps := heaps[..k] + heaps[k + 1..];
    }
  }

  /** A device with one heap of three tables, of which the second has a record without page. */
  method OnePageMissing() returns (d: Device, h: Heap)
    ensures fresh(d) && fresh(d.Pds()) && fresh(h.ctx.tables)
    ensures d.Valid() && h in d.heaps && h.base == 0 && h.size == 3 * TABLE_SPAN
    ensures h.ctx.tables.Length == PD_SIZE
    ensures h.ctx.tables[0] == NoTable && h.ctx.tables[1] == NoPage && h.ctx.tables[2] == NoTable
    ensures forall u: nat {:trigger Word(h.ctx.tables[..], u)} :: Word(h.ctx.tables[..], u) == 0
  {
    d, h := OneHeap();
    hide Device.Sound, Device.WellFormed, Agrees, BackedSlot, Word;
    ghost var t := h.ctx.tables[..];
    var ok;
    ghost var tried;
    ok, tried := d.DeferredAllocPagetables(h, TABLE_SPAN, TABLE_SPAN, _ => true, _ => false, _ => 0);
    assert h.ctx.tables[..][0] == NoTable && h.ctx.tables[..][1] == NoPage && h.ctx.tables[..][2] == NoTable by {
      assert t[0] == NoTable && t[1] == NoTable && t[2] == NoTable;
    }
  }

  /** A device with that heap and nothing in it. */
  method OneHeap() returns (d: Device, h: Heap)
    ensures fresh(d) && fresh(d.Pds()) && fresh(h.ctx.tables)
    ensures d.Valid() && h in d.heaps && h.base == 0 && h.size == 3 * TABLE_SPAN
    ensures |h.ctx.tables[..]| == PD_SIZE && forall s :: 0 <= s < PD_SIZE ==> h.ctx.tables[..][s] == NoTable
    ensures forall u: nat {:trigger Word(h.ctx.tables[..], u)} :: Word(h.ctx.tables[..], u) == 0
  {
    d := new Device();
    var c := d.CreateContext();
    h := Heap(c, 0, 3 * TABLE_SPAN, false);
    d.AddHeap(h);
    assert h in d.heaps;
    NothingMapped(c.tables[..]);
    hide Device.Sound;
    d.GoodContext(h);
  }

  lemma NothingMapped(t: seq<PtInfo>)
    requires forall s: nat {:trigger t[s]} :: s < |t| ==> t[s] == NoTable
    ensures forall u: nat {:trigger Word(t, u)} :: Word(t, u) == 0
  {}

  /** Unmapping can stand still: in a heap of three tables, the page of the second could not be
      allocated while pages are mapped through the first and the third.  Freeing the range from the one
      to the other unmaps the first and never gets to the last. */
  method StandsStill() returns (d: Device, h: Heap, ghost before: seq<PtInfo>)
    ensures fresh(d) && d.Valid() && h in d.heaps && StuckAt(before, PT_SIZE)
    ensures IsValid(Word(before, PT_SIZE - 1)) && Word(h.ctx.tables[..], PT_SIZE - 1) == 0
    ensures IsValid(Word(before, 2 * PT_SIZE)) && Word(h.ctx.tables[..], 2 * PT_SIZE) == Word(before, 2 * PT_SIZE)
  {
    d, h := OnePageMissing();
    hide Device.Sound, Device.WellFormed, Agrees, BackedSlot, Word, Pte, Reached;
    ghost var t := h.ctx.tables[..];
    MapOne(d, h, TABLE_SPAN - PAGE_SIZE);
    ghost var t1 := h.ctx.tables[..];
    assert t1[1] == NoPage by { assert t[1] == NoPage; }
    MapOne(d, h, 2 * TABLE_SPAN);
    before := h.ctx.tables[..];
    assert before[1] == NoPage by { assert t1[1] == NoPage; }
    assert StuckAt(before, PT_SIZE);
    ValidIsNotStuck(before, PT_SIZE - 1);
    ReachedBounds(before, PT_SIZE - 1, PT_SIZE + 2);
    d.UnmapPagesAndFreePTs(h, TABLE_SPAN - PAGE_SIZE, PT_SIZE + 2);
    assert Reached(before, PT_SIZE - 1, PT_SIZE + 2) == 1;
  }

  lemma OneAlignedPage(vaddr: nat)
    requires vaddr % PAGE_SIZE == 0
    ensures PagesOf(PAGE_SIZE) == 1 && SlotsTouched(vaddr, PAGE_SIZE) == 1
    ensures (vaddr + PAGE_SIZE - 1) / TABLE_SPAN == vaddr / TABLE_SPAN
  {
    var q := vaddr / 4096;
    assert vaddr == q * 4096;
    assert (vaddr + 4095) / 4194304 == q / 1024 == vaddr / 4194304;
  }

  lemma AllCanBeBacked(t: seq<PtInfo>, first: nat, yes: nat -> bool)
    requires forall s :: yes(s)
    ensures CanBackAll(t, first, 1, yes, yes)
  {}

  /** A page of a slot that is unused gets mapped. */
  method MapOne(d: Device, h: Heap, vaddr: nat)
    requires d.Valid() && h in d.heaps && vaddr % PAGE_SIZE == 0 && vaddr + PAGE_SIZE <= ADDRESS_SPACE - TABLE_SPAN
    requires InHeap(h, vaddr / TABLE_SPAN) && !IsValid(Word(h.ctx.tables[..], vaddr / PAGE_SIZE))
    modifies d.Pds(), h.ctx.tables
    ensures d.Valid() && GapsStay(old(h.ctx.tables[..]), h.ctx.tables[..], vaddr / TABLE_SPAN, 1)
    ensures forall u: nat {:trigger Word(h.ctx.tables[..], u)} ::
              if u == vaddr / PAGE_SIZE then IsValid(Word(h.ctx.tables[..], u))
              else Word(h.ctx.tables[..], u) == Word(old(h.ctx.tables[..]), u)
  {
    hide Device.Sound, Device.WellFormed, Agrees, BackedSlot, Word, Pte, SlotsTouched, PagesOf, CanBackAll, InHeap;
    OneAlignedPage(vaddr);
    var yes: nat -> bool := _ => true;
    AllCanBeBacked(h.ctx.tables[..], vaddr / TABLE_SPAN, yes);
    var flags := MemFlags(true, true, false, false, false);
    var ok := d.AllocAndMap(h, vaddr, Contiguous(0), PAGE_SIZE, flags, yes, yes, _ => 0);
  }

  lemma SeparateWithout(heaps: seq<Heap>, k: nat)
    requires k < |heaps| && forall i, j :: 0 <= i < j < |heaps| ==> Separate(heaps[i], heaps[j])
    ensures var r := heaps[..k] + heaps[k + 1..];
            && (forall h :: h in r ==> h in heaps)
            && forall i, j :: 0 <= i < j < |r| ==> Separate(r[i], r[j])
  {
    hide Separate;
    var r := heaps[..k] + heaps[k + 1..];
    forall i, j | 0 <= i < j < |r|
      ensures Separate(r[i], r[j])
    {
      var i', j' := if i < k then i else i + 1, if j < k then j else j + 1;
      assert r[i] == heaps[i'] && r[j] == heaps[j'];
    }
  }

  lemma ApartWithout(cs: seq<Context>, k: nat)
    requires k < |cs|
    requires forall i, j :: 0 <= i < j < |cs| ==> cs[i] != cs[j] && cs[i].pd != cs[j].pd && cs[i].tables != cs[j].tables
    ensures var r := cs[..k] + cs[k + 1..];
            && (forall i, j :: 0 <= i < j < |r| ==> r[i] != r[j] && r[i].pd != r[j].pd && r[i].tables != r[j].tables)
            && (forall x :: x in cs <==> x == cs[k] || x in r)
            && (forall x :: x in r ==> x != cs[k] && x.pd != cs[k].pd && x.tables != cs[k].tables)
  {
    var r := cs[..k] + cs[k + 1..];
    assert cs == cs[..k] + [cs[k]] + cs[k + 1..];
    forall i | 0 <= i < |r|
      ensures r[i] == cs[if i < k then i else i + 1]
    {}
  }

  lemma EmptyPage(addr: nat)
    ensures GoodTable(Table(addr, seq(PT_SIZE, _ => 0), 0))
  {
    ValidsZero(seq(PT_SIZE, _ => 0));
  }
}
