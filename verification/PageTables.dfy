/** The two-level page tables of pvr/mmu.c, one context at a time: mapping, unmapping, translating.
    Addresses and table words are 32-bit numbers; constants are those of pvr/sgxmmu.h. */
module PageTables {

  const PAGE_SIZE := 4096
  const PT_SIZE := 1024
  const PD_SIZE := 1024
  const TABLE_SPAN := 4096 * 1024
  const ADDRESS_SPACE := 0x1_0000_0000

  // The words: bit 0 says VALID, bits 1 to 4 are access flags, the upper 20 bits the page address.
  const PTE_WRITEONLY := 2
  const PTE_READONLY := 4
  const PTE_CACHECONSISTENT := 8
  const PTE_EDMPROTECT := 16

  predicate IsValid(word: nat) { word % 2 == 1 }

  /** The page address in a word, as its mask 0xFFFFF000 takes it out. */
  function AddrOf(word: nat): (a: nat)
    ensures a % 4096 == 0 && a <= word < a + 4096
  {
    word / PAGE_SIZE * PAGE_SIZE
  }

  lemma AlignedIsItsPage(addr: nat)
    requires addr % 4096 == 0
    ensures AddrOf(addr) == addr
  {}

  datatype MemFlags = MemFlags(read: bool, write: bool, cacheConsistent: bool, edmProtect: bool, dummy: bool)

  function MmuFlags(f: MemFlags): (r: nat)
    ensures r < 32 && r % 2 == 0
    ensures r / 2 % 2 == 1 <==> f.write && !f.read
    ensures r / 4 % 2 == 1 <==> f.read && !f.write
    ensures r / 8 % 2 == 1 <==> f.cacheConsistent
    ensures r / 16 % 2 == 1 <==> f.edmProtect
  {
    (if f.read && f.write then 0 else if f.read then PTE_READONLY else if f.write then PTE_WRITEONLY else 0)
    + (if f.cacheConsistent then PTE_CACHECONSISTENT else 0)
    + (if f.edmProtect then PTE_EDMPROTECT else 0)
  }

  /** The table word for a page: valid, with the page's address and the bits for access. */
  function Pte(addr: nat, f: MemFlags): (w: nat)
    ensures IsValid(w) && AddrOf(w) == AddrOf(addr) && w != 0
    ensures HasAccess(w, f)
  {
    var flags := MmuFlags(f);
    PteParts(addr / PAGE_SIZE, flags);
    AddrOf(addr) + 1 + flags
  }

  /** Bit 1 says write-only, bit 2 read-only, bit 3 cache consistent and bit 4 protected for the event
      manager; bits 5 to 11 are not used. */
  ghost predicate HasAccess(w: nat, f: MemFlags) {
    && (w / 2 % 2 == 1 <==> f.write && !f.read)
    && (w / 4 % 2 == 1 <==> f.read && !f.write)
    && (w / 8 % 2 == 1 <==> f.cacheConsistent)
    && (w / 16 % 2 == 1 <==> f.edmProtect)
    && w % 4096 < 32
  }

  lemma PteParts(q: nat, flags: nat)
    requires flags < 32 && flags % 2 == 0
    ensures var w := q * PAGE_SIZE + 1 + flags;
            && w / PAGE_SIZE == q && w % 2 == 1 && w % 4096 == 1 + flags
            && w / 2 % 2 == flags / 2 % 2 && w / 4 % 2 == flags / 4 % 2
            && w / 8 % 2 == flags / 8 % 2 && w / 16 % 2 == flags / 16 % 2
  {
    EvenPlus(q * 2048, 1 + flags);
    EvenPlus(flags / 2, 1);
    BitStays(q, flags, 1, 1024);
    BitStays(q, flags, 2, 512);
    BitStays(q, flags, 4, 256);
    BitStays(q, flags, 8, 128);
    assert (q * 4096 + 1 + flags) / 4096 == q && (q * 4096 + 1 + flags) % 4096 == 1 + flags;
  }

  /** The bit worth 2 * e of an even number stays when a multiple of 4096 and 1 are added. */
  lemma BitStays(q: nat, flags: nat, e: nat, f: nat)
    requires flags % 2 == 0 && 0 < e && e * f == 1024
    ensures (q * 4096 + 1 + flags) / (2 * e) % 2 == flags / (2 * e) % 2
  {
    var k, s := flags / 2 / e, flags / 2 % e;
    var d, qf := 2 * e, q * f;
    assert flags == d * k + 2 * s by {
      assert flags / 2 == e * k + s;
      assert 2 * (e * k) == d * k;
    }
    assert q * 4096 + 1 + flags == d * (2 * qf + k) + (2 * s + 1) by {
      Expand(e, f, q, k);
    }
    Over(d, flags, k, 2 * s);
    Over(d, q * 4096 + 1 + flags, 2 * qf + k, 2 * s + 1);
    EvenPlus(qf, k);
  }

  lemma Expand(e: nat, f: nat, q: nat, k: nat)
    requires e * f == 1024
    ensures 2 * e * (2 * (q * f) + k) == q * 4096 + 2 * e * k
  {
    assert e * (q * f) == q * (e * f);
    assert 2 * e * (2 * (q * f) + k) == 4 * (e * (q * f)) + 2 * e * k;
  }

  lemma EvenPlus(k: nat, n: nat)
    ensures (2 * k + n) % 2 == n % 2
  {
    var h, b := n / 2, n % 2;
    assert n == 2 * h + b;
    assert 2 * k + n == 2 * (k + h) + b;
  }

  lemma Over(d: nat, n: nat, k: nat, r: nat)
    requires n == d * k + r && r < d
    ensures n / d == k
  {
    var q, r' := n / d, n % d;
    assert n == d * q + r';
    if k < q {
      Larger(d, k, q);
    } else if q < k {
      Larger(d, q, k);
    }
  }

  lemma Larger(d: nat, x: nat, y: nat)
    requires x < y
    ensures d * x + d <= d * y
  {
    var z := y - x - 1;
    assert d * y == d * x + d + d * z by { assert y == x + 1 + z; }
  }

  /** struct MMU_PT_INFO as a directory slot has it: none, one whose page could not be allocated, or
      one with its page, where that is in memory, and the count of valid entries. */
  datatype PtInfo = NoTable | NoPage | Table(addr: nat, page: seq<nat>, valid: nat)

  /** The directory entry that leads to the table. */
  function DirEntry(t: PtInfo): (e: nat)
    ensures t.Table? <==> IsValid(e)
    ensures t.Table? ==> AddrOf(e) == AddrOf(t.addr) && e % 4096 == 1
    ensures !t.Table? ==> e == 0
  {
    if t.Table? then PteParts(t.addr / PAGE_SIZE, 0); AddrOf(t.addr) + 1 else 0
  }

  /** How many entries are valid. */
  ghost function Valids(page: seq<nat>): nat {
    if page == [] then 0 else
      Valids(page[..|page| - 1]) + if IsValid(page[|page| - 1]) then 1 else 0
  }

  lemma {:induction false} ValidsUpdate(page: seq<nat>, i: nat, w: nat)
    requires i < |page|
    ensures Valids(page[i := w]) ==
              Valids(page) - (if IsValid(page[i]) then 1 else 0) + (if IsValid(w) then 1 else 0)
  {
    var n := |page| - 1;
    if i == n {
      assert page[i := w][..n] == page[..n];
    } else {
      assert page[i := w][..n] == page[..n][i := w];
      ValidsUpdate(page[..n], i, w);
    }
  }

  lemma {:induction false} ValidsZero(page: seq<nat>)
    ensures Valids(page) == 0 <==> forall i :: 0 <= i < |page| ==> !IsValid(page[i])
  {
    if page != [] {
      var n := |page| - 1;
      ValidsZero(page[..n]);
      if forall i :: 0 <= i < |page| ==> !IsValid(page[i]) {
        assert forall i :: 0 <= i < n ==> page[..n][i] == page[i];
      } else {
        var i :| 0 <= i < |page| && IsValid(page[i]);
        assert i < n ==> page[..n][i] == page[i];
      }
    }
  }

  /** The count is right, and what is not valid is zero. */
  ghost predicate GoodTable(t: PtInfo) {
    t.Table? ==>
      && |t.page| == PT_SIZE && t.valid == Valids(t.page)
      && forall i :: 0 <= i < PT_SIZE ==> t.page[i] == 0 || IsValid(t.page[i])
  }

  /** The word that page number v goes through; 0 where there is no table. */
  function Word(tables: seq<PtInfo>, v: nat): nat {
    if v / PT_SIZE < |tables| && tables[v / PT_SIZE].Table? && v % PT_SIZE < |tables[v / PT_SIZE].page|
    then tables[v / PT_SIZE].page[v % PT_SIZE] else 0
  }

  /** The record for page number v has no page. */
  ghost predicate StuckAt(t: seq<PtInfo>, v: nat) {
    v / PT_SIZE < |t| && t[v / PT_SIZE].NoPage?
  }

  /** MMU_GetPhysPageAddr, as a function of the tables: where page number v leads. */
  function Translate(tables: seq<PtInfo>, v: nat): nat {
    AddrOf(Word(tables, v))
  }

  /** Tables stay where they were or are missing as they were. */
  ghost predicate SameKinds(t: seq<PtInfo>, t': seq<PtInfo>) {
    |t| == |t'| && forall i: nat {:trigger t'[i]} {:trigger t[i]} :: i < |t| ==>
      (t'[i].Table? <==> t[i].Table?) && (if t[i].Table? then t'[i].addr == t[i].addr else t'[i] == t[i])
  }

  ghost predicate GoodTables(t: seq<PtInfo>) {
    |t| == PD_SIZE && forall i: nat {:trigger t[i]} :: i < |t| ==> GoodTable(t[i])
  }

  /** One word set, with the count adjusted or not. */
  function WithWord(t: seq<PtInfo>, v: nat, w: nat, valid: nat): (r: seq<PtInfo>)
    requires v / PT_SIZE < |t| && t[v / PT_SIZE].Table? && v % PT_SIZE < |t[v / PT_SIZE].page|
  {
    var p := t[v / PT_SIZE];
    t[v / PT_SIZE := p.(page := p.page[v % PT_SIZE := w], valid := valid)]
  }

  lemma WithWordSets(t: seq<PtInfo>, v: nat, w: nat, valid: nat)
    requires GoodTables(t) && v / PT_SIZE < PD_SIZE && t[v / PT_SIZE].Table?
    ensures var t' := WithWord(t, v, w, valid);
            && SameKinds(t, t')
            && (forall u: nat {:trigger Word(t', u)} :: Word(t', u) == if u == v then w else Word(t, u))
            && (GoodTables(t') <==>
                  (w == 0 || IsValid(w))
                  && valid == t[v / PT_SIZE].valid
                              - (if IsValid(Word(t, v)) then 1 else 0) + (if IsValid(w) then 1 else 0))
  {
    var t', d := WithWord(t, v, w, valid), v / PT_SIZE;
    var p := t[d].page;
    ValidsUpdate(p, v % PT_SIZE, w);
    forall u: nat
      ensures Word(t', u) == if u == v then w else Word(t, u)
    {
      assert u == u / PT_SIZE * PT_SIZE + u % PT_SIZE;
      assert v == v / PT_SIZE * PT_SIZE + v % PT_SIZE;
    }
    assert t'[d].page == p[v % PT_SIZE := w] && t'[d].page[v % PT_SIZE] == w;
    assert GoodTables(t') ==> GoodTable(t'[d]);
  }
}
