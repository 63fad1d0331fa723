/** The handle base as its users see it: a map from handles to what they stand for. */
module HandleView {
  import opened HandleModel
  import opened HandleRings
  import opened HandleFreeing

  type HandleMap = map<nat, Entry>

  ghost function EntryOf(s: Slot): Entry {
    Entry(s.data, s.typ, s.flags, s.siblings.parent, s.batched)
  }

  ghost function HandlesOf(live: set<nat>, bound: nat): (handles: set<nat>)
    ensures forall h: nat {:trigger h in handles} :: h in handles <==> 1 <= h <= bound && h - 1 in live
  {
    var handles := set i | i in live && i < bound :: i + 1;
    assert forall i :: i in live && i < bound ==> i + 1 in handles;
    handles
  }

  ghost function ViewOf(slots: seq<Slot>, live: set<nat>): (v: HandleMap)
    ensures forall h: nat {:trigger h in v} :: h in v <==> 1 <= h <= |slots| && h - 1 in live
    ensures forall h: nat {:trigger v[h]} :: h in v ==> v[h] == EntryOf(slots[h - 1])
  {
    map h | h in HandlesOf(live, |slots|) :: EntryOf(slots[h - 1])
  }

  /** A way up from p[0] along parent handles. */
  ghost predicate Path(v: HandleMap, p: seq<nat>) {
    && p != []
    && (forall i :: 0 <= i < |p| ==> p[i] in v)
    && (forall i :: 0 <= i < |p| - 1 ==> v[p[i]].parent == p[i + 1])
  }

  ghost predicate IsPath(v: HandleMap, p: seq<nat>, x: nat, h: nat) {
    Path(v, p) && p[0] == x && p[|p| - 1] == h
  }

  /** x is h or a descendant of h. */
  ghost predicate Below(v: HandleMap, x: nat, h: nat) {
    exists p :: IsPath(v, p, x, h)
  }

  ghost function Subtree(v: HandleMap, h: nat): set<nat> {
    set x | x in v && Below(v, x, h)
  }

  lemma BelowSelf(v: HandleMap, h: nat)
    requires h in v
    ensures Below(v, h, h)
  {
    assert IsPath(v, [h], h, h);
  }

  lemma BelowParent(v: HandleMap, x: nat, h: nat)
    requires x in v && Below(v, v[x].parent, h)
    ensures Below(v, x, h)
  {
    var p :| IsPath(v, p, v[x].parent, h);
    assert IsPath(v, [x] + p, x, h);
  }

  /** x is a descendant of h. */
  ghost predicate StrictlyBelow(v: HandleMap, x: nat, h: nat) {
    x in v && Below(v, v[x].parent, h)
  }

  lemma BelowSteps(v: HandleMap, x: nat, h: nat)
    requires x in v && x != h
    ensures Below(v, x, h) <==> StrictlyBelow(v, x, h)
  {
    if Below(v, x, h) {
      var p :| IsPath(v, p, x, h);
      assert IsPath(v, p[1..], v[x].parent, h);
    }
    if StrictlyBelow(v, x, h) {
      BelowParent(v, x, h);
    }
  }

  // ---------------------------------------------------------------- looking up by key

  ghost function KeyOfEntry(e: Entry): Key {
    Key(e.data, e.typ, if e.flags.privat then e.parent else NULL)
  }

  /** h stands for the key, as far as the hash table is concerned. */
  ghost predicate Stands(v: HandleMap, k: Key, h: nat) {
    h in v && !v[h].flags.multi && KeyOfEntry(v[h]) == k
  }

  /** The index finds exactly the handle that stands for the key, and there is at most one. */
  lemma IndexFinds(s: seq<Slot>, live: set<nat>, index: map<Key, nat>, k: Key, h: nat)
    requires Index(s, live, index) && forall i :: i in live ==> i < |s|
    ensures Stands(ViewOf(s, live), k, h) <==> k in index && index[k] == h
  {
    if k in index {
      assert Binds(s, live, k, index[k]);
    }
    if Stands(ViewOf(s, live), k, h) {
      assert Indexed(s, index, h - 1);
    }
  }

  /** The handle that stands for a key, or NULL. */
  ghost function Found(v: HandleMap, k: Key): (h: nat)
    ensures h == NULL || Stands(v, k, h)
    ensures h == NULL ==> forall x :: x != NULL ==> !Stands(v, k, x)
  {
    if exists x: nat :: x != NULL && Stands(v, k, x) then
      var x: nat :| x != NULL && Stands(v, k, x); x
    else NULL
  }

  lemma IndexFindsFound(s: seq<Slot>, live: set<nat>, index: map<Key, nat>, k: Key)
    requires Index(s, live, index) && forall i :: i in live ==> i < |s|
    ensures Found(ViewOf(s, live), k) == if k in index then index[k] else NULL
    ensures k in index ==> index[k] != NULL
  {
    var f := Found(ViewOf(s, live), k);
    IndexFinds(s, live, index, k, f);
    if k in index {
      assert Binds(s, live, k, index[k]);
      IndexFinds(s, live, index, k, index[k]);
    }
  }

  /** No two handles stand for the same key. */
  lemma StandsUnique(s: seq<Slot>, live: set<nat>, index: map<Key, nat>, k: Key, h: nat, h': nat)
    requires Index(s, live, index) && forall i :: i in live ==> i < |s|
    requires Stands(ViewOf(s, live), k, h) && Stands(ViewOf(s, live), k, h')
    ensures h == h' == Found(ViewOf(s, live), k)
  {
    IndexFinds(s, live, index, k, h);
    IndexFinds(s, live, index, k, h');
    IndexFindsFound(s, live, index, k);
  }

  // ---------------------------------------------------------------- freeing

  /** A gone slot was below the freed one. */
  lemma {:induction false} GoneIsBelow(s: seq<Slot>, g: Shape, gone: set<nat>, i: nat, x: nat)
    requires Core(s, g) && i in g.live && gone <= g.live && x in gone
    requires forall y: nat {:trigger GoneWith(s, gone + {i}, i, y)} :: y in gone ==> GoneWith(s, gone + {i}, i, y)
    ensures Below(ViewOf(s, g.live), x + 1, i + 1)
    decreases if x < |g.depth| then g.depth[x] else 0
  {
    var v := ViewOf(s, g.live);
    if x == i {
      BelowSelf(v, i + 1);
    } else {
      assert GoneWith(s, gone + {i}, i, x);
      var up := s[x].siblings.parent;
      assert ParentOk(s, g, x);
      assert KidsOk(s, g, up - 1);
      assert ChildOk(s, g, up - 1, x);
      if up - 1 == i {
        BelowSelf(v, i + 1);
      } else {
        GoneIsBelow(s, g, gone, i, up - 1);
      }
      assert v[x + 1].parent == up;
      BelowParent(v, x + 1, i + 1);
    }
  }

  /** Nothing below a slot that is not live any more is live. */
  lemma {:induction false} BelowIsGone(s: seq<Slot>, g: Shape, r: seq<Slot>, g': Shape, p: seq<nat>, i: nat)
    requires Core(r, g') && g'.limbo == {} && |r| == |s| && i !in g'.live
    requires forall x: nat {:trigger KeptAt(s, r, x)} :: x in g'.live || x in g'.limbo ==> KeptAt(s, r, x)
    requires Path(ViewOf(s, g.live), p) && p[|p| - 1] == i + 1
    ensures p[0] - 1 !in g'.live
    decreases |p|
  {
    var x := p[0] - 1;
    if |p| > 1 && x in g'.live {
      BelowIsGone(s, g, r, g', p[1..], i);
      assert KeptAt(s, r, x);
      assert ViewOf(s, g.live)[p[0]].parent == p[1];
      ParentIsUsed(r, g', x);
    }
  }

  lemma ParentIsUsed(s: seq<Slot>, g: Shape, x: nat)
    requires Core(s, g) && x in g.live && s[x].siblings.parent != NULL
    ensures s[x].siblings.parent - 1 in g.live || s[x].siblings.parent - 1 in g.limbo
  {
    assert ParentOk(s, g, x);
    assert KidsOk(s, g, s[x].siblings.parent - 1);
  }

  /** FreeHandle makes exactly the handle and its descendants stop resolving. */
  lemma FreedIsSubtree(s: seq<Slot>, g: Shape, r: seq<Slot>, g': Shape, i: nat)
    requires Core(s, g) && Core(r, g') && g.limbo == {} && i in g.live && Freed(s, g, r, g', i)
    ensures ViewOf(r, g'.live) == ViewOf(s, g.live) - Subtree(ViewOf(s, g.live), i + 1)
  {
    hide Core, ViewOf;
    var v, v' := ViewOf(s, g.live), ViewOf(r, g'.live);
    forall h | h in v
      ensures h in v' <==> !Below(v, h, i + 1)
    {
      if h - 1 !in g'.live {
        var gone := g.live - g'.live;
        assert gone + {i} == gone;
        GoneIsBelow(s, g, gone, i, h - 1);
      } else if Below(v, h, i + 1) {
        var p :| IsPath(v, p, h, i + 1);
        BelowIsGone(s, g, r, g', p, i);
        assert false;
      }
    }
    forall h | h in v'
      ensures h in v && v'[h] == v[h]
    {
      assert KeptAt(s, r, h - 1);
    }
  }

  /** Freeing a slot that is freed already takes no live handle with it. */
  lemma {:induction false} NobodyBelow(s: seq<Slot>, g: Shape, gone: set<nat>, i: nat, x: nat)
    requires Core(s, g) && i !in g.live && i < |g.kids| && g.kids[i] == [] && gone <= g.live
    requires forall y: nat {:trigger GoneWith(s, gone + {i}, i, y)} :: y in gone ==> GoneWith(s, gone + {i}, i, y)
    ensures x !in gone
    decreases if x < |g.depth| then g.depth[x] else 0
  {
    if x in gone {
      assert GoneWith(s, gone + {i}, i, x);
      var up := s[x].siblings.parent;
      assert ParentOk(s, g, x);
      assert KidsOk(s, g, up - 1);
      assert ChildOk(s, g, up - 1, x);
      NobodyBelow(s, g, gone, i, up - 1);
    }
  }

  lemma FreedAgainKeepsView(s: seq<Slot>, g: Shape, r: seq<Slot>, g': Shape, i: nat)
    requires Core(s, g) && i !in g.live && i < |g.kids| && g.kids[i] == [] && Freed(s, g, r, g', i)
    ensures g'.live == g.live && ViewOf(r, g'.live) == ViewOf(s, g.live)
  {
    forall x: nat
      ensures x !in g.live - g'.live
    {
      NobodyBelow(s, g, g.live - g'.live, i, x);
    }
    forall h | h in ViewOf(s, g.live)
      ensures h in ViewOf(r, g'.live) && ViewOf(r, g'.live)[h] == ViewOf(s, g.live)[h]
    {
      assert h - 1 in g.live - g'.live || h - 1 in g'.live;
      assert KeptAt(s, r, h - 1);
    }
    assert forall x :: x in g.live ==> x in g'.live || x in g.live - g'.live;
  }
}
