/** The dump buffers of pvr/pvr_debugfs.c: a log kept in pages that are allocated as it grows, and
    the merging of the lists of buffers to be dumped. */
module PagedLog {

  const PAGE_SIZE := 4096
  const ENOMEM := 12

  datatype Option<T> = None | Some(value: T)

  type Byte = bv8
  type Page = seq<Byte>

  class Log {
    const pages: array<Option<Page>>
    var size: nat
    var held: nat    // pages taken from the system and not given back

    ghost var bytes: seq<Byte>

    /** The pages that size bytes need. */
    static function PagesOf(size: nat): nat { (size + PAGE_SIZE - 1) / PAGE_SIZE }

    /** Byte i of the log is where it should be. */
    ghost predicate StoredAt(i: nat)
      reads this, pages
    {
      && i < |bytes| && i / PAGE_SIZE < pages.Length && pages[i / PAGE_SIZE].Some?
      && |pages[i / PAGE_SIZE].value| == PAGE_SIZE && pages[i / PAGE_SIZE].value[i % PAGE_SIZE] == bytes[i]
    }

    /** Page p is there exactly if a byte is in it. */
    ghost predicate PageOk(p: nat)
      reads this, pages
    {
      && p < pages.Length && (pages[p].Some? <==> p * PAGE_SIZE < size)
      && (pages[p].Some? ==> |pages[p].value| == PAGE_SIZE)
    }

    ghost predicate Valid()
      reads this, pages
    {
      && size == |bytes| <= pages.Length * PAGE_SIZE && held == PagesOf(size)
      && (forall p: nat {:trigger PageOk(p)} {:trigger pages[p]} :: p < pages.Length ==> PageOk(p))
      && (forall i: nat {:trigger StoredAt(i)} :: i < size ==> StoredAt(i))
    }

    constructor (capacity: nat)
      ensures Valid() && bytes == [] && pages.Length == capacity && fresh(pages)
    {
      pages := new Option<Page>[capacity](_ => None);
      size, held, bytes := 0, 0, [];
    }

    /** The array has room for page p, and the system has one for it. */
    predicate CanGet(p: nat, pageOk: nat -> bool) { p < pages.Length && pageOk(p) }

    /** hwrec_pages_write: appends the buffer.  If a page cannot be had, because the array is full
        or the system is out of memory, the log ends before that page with a part of the buffer. */
    method Write(buffer: seq<Byte>, pageOk: nat -> bool) returns (r: int)
      requires Valid()
      modifies this, pages
      ensures Valid() && r <= |buffer|
      ensures r == |buffer| <==>
                forall p: nat {:trigger CanGet(p, pageOk)} ::
                  PagesOf(old(size)) <= p < PagesOf(old(size) + |buffer|) ==> CanGet(p, pageOk)
      ensures r == |buffer| ==> bytes == old(bytes) + buffer
      ensures r != |buffer| ==>
                r == -ENOMEM && size % PAGE_SIZE == 0 && !CanGet(size / PAGE_SIZE, pageOk)
                && old(size) <= size < old(size) + |buffer| && bytes == old(bytes) + buffer[..size - old(size)]
      ensures old(size) + |buffer| > pages.Length * PAGE_SIZE ==> r == -ENOMEM
    {
      hide Ready, StoredAt, PageOk, PagesOf, CanGet;
      var rest := buffer;
      var done := 0;
      while rest != []
        invariant Valid() && done + |rest| == |buffer| && rest == buffer[done..]
        invariant bytes == old(bytes) + buffer[..done] && size == old(size) + done
        invariant forall p: nat {:trigger CanGet(p, pageOk)} ::
                    PagesOf(old(size)) <= p < PagesOf(size) ==> CanGet(p, pageOk)
        decreases |rest|
      {
        var offset := size % PAGE_SIZE;
        if offset == 0 {
          NextPageIs(old(size), size, |rest|);
          var ok := NewPage(pageOk);
          if !ok {
            return -ENOMEM;
          }
        } else {
          PartlyFilled();
        }
        var count := if |rest| > PAGE_SIZE - offset then PAGE_SIZE - offset else |rest|;
        NextPart(old(bytes), buffer, done, count);
        SamePageStill(size, count);
        Copy(rest[..count]);
        rest := rest[count..];
        done := done + count;
      }
      return done;
    }

    /** At a page boundary the next page is the first that is not needed yet. */
    static lemma NextPageIs(before: nat, size: nat, more: nat)
      requires size % PAGE_SIZE == 0 && 0 < more && before <= size
      ensures PagesOf(before) <= PagesOf(size) == size / PAGE_SIZE < PagesOf(size + more)
    {}

    static lemma SamePageStill(size: nat, count: nat)
      requires 0 < count <= PAGE_SIZE - size % PAGE_SIZE
      ensures PagesOf(size + count) == size / PAGE_SIZE + 1
      ensures size % PAGE_SIZE != 0 ==> PagesOf(size) == size / PAGE_SIZE + 1
    {}

    static lemma NextPart(before: seq<Byte>, buffer: seq<Byte>, done: nat, count: nat)
      requires done + count <= |buffer|
      ensures before + buffer[..done] + buffer[done..][..count] == before + buffer[..done + count]
      ensures buffer[done..][count..] == buffer[done + count..]
    {
      assert buffer[..done] + buffer[done..][..count] == buffer[..done + count];
    }

    /** There is a page for the next byte. */
    ghost predicate Ready()
      reads this, pages
    {
      && size == |bytes| < pages.Length * PAGE_SIZE
      && held == size / PAGE_SIZE + 1
      && (forall p: nat {:trigger pages[p]} :: p < pages.Length ==>
            (pages[p].Some? <==> p <= size / PAGE_SIZE) && (pages[p].Some? ==> |pages[p].value| == PAGE_SIZE))
      && (forall i: nat {:trigger StoredAt(i)} :: i < size ==> StoredAt(i))
    }

    lemma PartlyFilled()
      requires Valid() && size % PAGE_SIZE != 0
      ensures Ready()
    {}

    /** The next page, if there is room for one and the system has one. */
    method NewPage(pageOk: nat -> bool) returns (ok: bool)
      requires Valid() && size % PAGE_SIZE == 0
      modifies this`held, pages
      ensures ok <==> CanGet(size / PAGE_SIZE, pageOk)
      ensures if ok then Ready() else Valid()
      ensures size == pages.Length * PAGE_SIZE ==> !ok
    {
      var page := size / PAGE_SIZE;
      if page >= pages.Length {
        return false;
      }
      ok := pageOk(page);
      pages[page] := if ok then Some(AnyPage()) else None;
      if ok {
        held := held + 1;
      }
      forall i: nat | i < size
        ensures StoredAt(i)
      {
        assert old(StoredAt(i)) && i / PAGE_SIZE < page;
      }
    }

    /** memcpy to the end of the log, within the last page. */
    method Copy(part: seq<Byte>)
      requires Ready() && 0 < |part| <= PAGE_SIZE - size % PAGE_SIZE
      modifies this`size, this`bytes, pages
      ensures Valid() && bytes == old(bytes) + part
    {
      var offset, page := size % PAGE_SIZE, size / PAGE_SIZE;
      var was := pages[page].value;
      pages[page] := Some(was[..offset] + part + was[offset + |part|..]);
      size := size + |part|;
      bytes := bytes + part;
      assert PagesOf(size) == page + 1;
      forall i: nat | i < size
        ensures StoredAt(i)
      {
        if i < old(size) {
          assert old(StoredAt(i));
        }
      }
    }

    /** hwrec_pages_free: gives every page back. */
    method Free()
      requires Valid()
      modifies this, pages
      ensures Valid() && bytes == [] && held == 0 && forall p :: 0 <= p < pages.Length ==> pages[p] == None
    {
      if size == 0 {
        assert forall p: nat :: p < pages.Length ==> PageOk(p);
        return;
      }
      var i := 0;
      while i * PAGE_SIZE < size
        invariant i <= PagesOf(size) && held == PagesOf(size) - i
        invariant size == old(size) && size <= pages.Length * PAGE_SIZE
        invariant forall p: nat {:trigger pages[p]} :: p < pages.Length ==>
                    (pages[p].Some? <==> i <= p && p * PAGE_SIZE < size)
      {
        assert pages[i].Some?;
        held := held - 1;
        pages[i] := None;
        i := i + 1;
      }
      size, bytes := 0, [];
    }

    /** hwrec_mem_read: as much of what was asked for as the log and the page have; the position
        moves on by that. */
    method Read(pos: int, count: nat) returns (data: seq<Byte>, next: int)
      requires Valid()
      ensures next == pos + |data| && |data| <= count
      ensures 0 <= pos < size ==> next <= size && data == bytes[pos..next] && (0 < count ==> data != [])
      ensures 0 <= pos < size ==>
                next <= (pos / 4096 + 1) * 4096 && (|data| == count || next == size || next % 4096 == 0)
      ensures !(0 <= pos < size) ==> data == []
    {
      if 0 <= pos < size {
        var n := if count < size - pos then count else size - pos;
        var page, offset := pos / PAGE_SIZE, pos % PAGE_SIZE;
        n := if n < PAGE_SIZE - offset then n else PAGE_SIZE - offset;
        assert StoredAt(pos);
        data := pages[page].value[offset..offset + n];
        forall k | 0 <= k < n
          ensures data[k] == bytes[pos + k]
        {
          assert StoredAt(pos + k);
          assert (pos + k) / PAGE_SIZE == page && (pos + k) % PAGE_SIZE == offset + k;
        }
        next := pos + n;
      } else {
        data, next := [], pos;
      }
    }

    /** Reading from the start until nothing comes any more, in pieces of any sizes, gives the log. */
    method ReadAll(counts: nat -> nat) returns (all: seq<Byte>)
      requires Valid() && forall k :: 0 < counts(k)
      ensures all == bytes
    {
      all := [];
      var data, pos := Read(0, counts(0));
      ghost var last := 0;
      var k := 1;
      while data != []
        invariant 0 <= last <= size && all == bytes[..last]
        invariant data != [] ==> pos == last + |data| <= size && data == bytes[last..pos]
        invariant data == [] ==> last == size
        decreases size - last, |data|
      {
        all := all + data;
        last := pos;
        data, pos := Read(pos, counts(k));
        k := k + 1;
      }
    }
  }

  /** What a newly allocated page happens to hold. */
  function AnyPage(): (p: Page)
    ensures |p| == PAGE_SIZE
  {
    seq(PAGE_SIZE, _ => 0)
  }

  // ---------------------------------------------------------------- merging the lists of buffers

  /** struct render_state_buf_info; `corrupt` is the topmost bit of its type. */
  datatype Info = Info(bufId: nat, offset: nat, size: nat, kind: nat, corrupt: bool)

  /** Item p is the first with its id. */
  ghost predicate IsFirst(all: seq<Info>, p: nat) {
    p < |all| && forall q: nat {:trigger all[q]} :: q < p ==> all[q].bufId != all[p].bufId
  }

  /** Some item with the same id is different. */
  ghost predicate Disputed(all: seq<Info>, p: nat) {
    p < |all| && exists q: nat :: q < |all| && all[q].bufId == all[p].bufId && all[q] != all[p]
  }

  function Marked(x: Info, disputed: bool): Info { if disputed then x.(corrupt := true) else x }

  /** The list has the first item with each id, in order, and those are marked corrupt that another
      one contradicts; `places` says where the items come from. */
  ghost predicate Merged(all: seq<Info>, list: seq<Info>, places: seq<nat>) {
    && |places| == |list|
    && (forall i, j :: 0 <= i < j < |places| ==> places[i] < places[j])
    && (forall j: nat {:trigger places[j]} :: j < |places| ==>
          IsFirst(all, places[j]) && list[j] == Marked(all[places[j]], Disputed(all, places[j])))
    && (forall q: nat {:trigger Covered(all, places, q)} :: q < |all| ==> Covered(all, places, q))
  }

  /** The first item with the id of item q is in the list. */
  ghost predicate Covered(all: seq<Info>, places: seq<nat>, q: nat) {
    q < |all| && exists j: nat {:trigger places[j]} ::
      j < |places| && places[j] < |all| && all[places[j]].bufId == all[q].bufId
  }

  /** No two items of a merged list have the same id, and there are not more than there were. */
  lemma MergedIsUnique(all: seq<Info>, list: seq<Info>, places: seq<nat>)
    requires Merged(all, list, places)
    ensures forall i, j :: 0 <= i < j < |list| ==> list[i].bufId != list[j].bufId
    ensures |list| <= |all|
  {
    forall i, j | 0 <= i < j < |list|
      ensures list[i].bufId != list[j].bufId
    {
      assert IsFirst(all, places[i]) && IsFirst(all, places[j]);
      assert all[places[i]].bufId != all[places[j]].bufId;
    }
    GrowsAsFast(places, |list|);
    if list != [] {
      assert IsFirst(all, places[|list| - 1]);
    }
  }

  lemma {:induction false} GrowsAsFast(places: seq<nat>, n: nat)
    requires n <= |places| && forall i, j :: 0 <= i < j < |places| ==> places[i] < places[j]
    ensures n > 0 ==> places[n - 1] >= n - 1
  {
    if n > 1 {
      GrowsAsFast(places, n - 1);
    }
  }

  /** One more item, with an id that is in the list already. */
  lemma MergedSeen(all: seq<Info>, list: seq<Info>, places: seq<nat>, x: Info, j: nat)
    requires Merged(all, list, places) && j < |list| && list[j].bufId == x.bufId
    ensures Merged(all + [x], if x != list[j] then list[j := list[j].(corrupt := true)] else list, places)
  {
    var all', list' := all + [x], if x != list[j] then list[j := list[j].(corrupt := true)] else list;
    MergedIsUnique(all, list, places);
    forall k: nat | k < |places|
      ensures IsFirst(all', places[k]) && list'[k] == Marked(all'[places[k]], Disputed(all', places[k]))
    {
      var p := places[k];
      assert IsFirst(all, p) && all'[p] == all[p];
      assert forall q: nat :: q < |all| ==> all'[q] == all[q];
      DisputedMore(all, x, p);
    }
    forall q: nat | q < |all'|
      ensures Covered(all', places, q)
    {
      if q < |all| {
        assert Covered(all, places, q);
        var k: nat :| k < |places| && places[k] < |all| && all[places[k]].bufId == all[q].bufId;
        assert all'[places[k]] == all[places[k]];
      } else {
        assert IsFirst(all, places[j]);
        assert all'[places[j]] == all[places[j]];
      }
    }
  }

  lemma DisputedMore(all: seq<Info>, x: Info, p: nat)
    requires p < |all|
    ensures Disputed(all + [x], p) <==> Disputed(all, p) || (x.bufId == all[p].bufId && x != all[p])
  {
    var all' := all + [x];
    if Disputed(all, p) {
      var q: nat :| q < |all| && all[q].bufId == all[p].bufId && all[q] != all[p];
      assert all'[q] == all[q];
    }
    if x.bufId == all[p].bufId && x != all[p] {
      assert all'[|all|] == x;
    }
  }

  /** One more item, with a new id. */
  lemma MergedNew(all: seq<Info>, list: seq<Info>, places: seq<nat>, x: Info)
    requires Merged(all, list, places) && forall j :: 0 <= j < |list| ==> list[j].bufId != x.bufId
    ensures Merged(all + [x], list + [x], places + [|all|])
  {
    var all', list', places' := all + [x], list + [x], places + [|all|];
    forall q: nat | q < |all|
      ensures all'[q] == all[q] && all[q].bufId != x.bufId
    {
      assert Covered(all, places, q);
      var k: nat :| k < |places| && places[k] < |all| && all[places[k]].bufId == all[q].bufId;
      assert IsFirst(all, places[k]) && list[k].bufId == all[places[k]].bufId;
    }
    forall k: nat | k < |places'|
      ensures places'[k] < |all'| && IsFirst(all', places'[k])
      ensures list'[k] == Marked(all'[places'[k]], Disputed(all', places'[k]))
    {
      if k < |places| {
        assert IsFirst(all, places[k]);
        DisputedMore(all, x, places[k]);
      }
    }
    forall q: nat | q < |all'|
      ensures Covered(all', places', q)
    {
      if q < |all| {
        assert Covered(all, places, q);
        var k: nat :| k < |places| && places[k] < |all| && all[places[k]].bufId == all[q].bufId;
        assert places'[k] == places[k];
      } else {
        assert places'[|places|] == |all|;
      }
    }
  }

  /** struct render_state_buf_list, with room for a fixed number of items. */
  class BufList {
    const info: array<Info>
    var cnt: nat

    ghost var all: seq<Info>      // everything that was added
    ghost var places: seq<nat>

    ghost predicate Valid()
      reads this, info
    {
      cnt <= info.Length && Merged(all, info[..cnt], places)
    }

    constructor (capacity: nat)
      ensures Valid() && all == [] && info.Length == capacity && fresh(info)
    {
      info := new Info[capacity](_ => Info(0, 0, 0, 0, false));
      cnt, all, places := 0, [], [];
    }

    /** add_uniq_items.  There is room, if there was room for all the items without merging. */
    method AddUniqItems(src: seq<Info>)
      requires Valid() && |all| + |src| <= info.Length
      modifies this, info
      ensures Valid() && all == old(all) + src
    {
      hide Merged;
      for i := 0 to |src|
        invariant Valid() && all == old(all) + src[..i]
      {
        AddUniqItem(src[i]);
        assert src[..i + 1] == src[..i] + [src[i]];
      }
      assert src[..|src|] == src;
    }

    method AddUniqItem(x: Info)
      requires Valid() && |all| < info.Length
      modifies this, info
      ensures Valid() && all == old(all) + [x]
    {
      hide Merged;
      ghost var list := info[..cnt];
      var j := 0;
      while j < cnt && info[j].bufId != x.bufId
        invariant j <= cnt && forall k :: 0 <= k < j ==> info[k].bufId != x.bufId
      {
        j := j + 1;
      }
      if j < cnt {
        MergedSeen(all, list, places, x, j);
        if x != info[j] {
          info[j] := info[j].(corrupt := true);
        }
        assert info[..cnt] == if x != list[j] then list[j := list[j].(corrupt := true)] else list;
      } else {
        MergedIsUnique(all, list, places);
        MergedNew(all, list, places, x);
        info[cnt] := x;
        cnt := cnt + 1;
        assert info[..cnt] == list + [x];
        places := places + [|all|];
      }
      all := all + [x];
    }
  }

  ghost function Flat(lists: seq<Option<seq<Info>>>): seq<Info> {
    if lists == [] then [] else
      Flat(lists[..|lists| - 1]) + match lists[|lists| - 1] { case None => [] case Some(l) => l }
  }

  /** create_merged_uniq_list: room for all items of all lists is enough, and what comes out is the
      merger of them all. */
  method CreateMergedUniqList(lists: seq<Option<seq<Info>>>, memOk: bool) returns (r: Option<BufList>)
    ensures r.Some? <==> memOk
    ensures r.Some? ==> fresh(r.value) && r.value.Valid() && r.value.all == Flat(lists)
  {
    var total := 0;
    for i := 0 to |lists|
      invariant total == |Flat(lists[..i])|
    {
      assert lists[..i + 1][..i] == lists[..i];
      if lists[i].Some? {
        total := total + |lists[i].value|;
      }
    }
    assert lists[..|lists|] == lists;
    if !memOk {
      return None;
    }
    var dbl := new BufList(total);
    for i := 0 to |lists|
      invariant fresh(dbl) && fresh(dbl.info) && dbl.Valid() && dbl.all == Flat(lists[..i]) && dbl.info.Length == total
    {
      assert lists[..i + 1][..i] == lists[..i];
      FlatFits(lists, i + 1);
      if lists[i].Some? {
        dbl.AddUniqItems(lists[i].value);
      }
    }
    return Some(dbl);
  }

  lemma {:induction false} FlatFits(lists: seq<Option<seq<Info>>>, n: nat)
    requires n <= |lists|
    ensures |Flat(lists[..n])| <= |Flat(lists)|
    decreases |lists| - n
  {
    if n == |lists| {
      assert lists[..n] == lists;
    } else {
      assert lists[..n + 1][..n] == lists[..n];
      FlatFits(lists, n + 1);
    }
  }
}
