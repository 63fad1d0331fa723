/** The sibling rings of pvr/handle.c: HandleListRemove takes a handle out of its parent's ring,
    HandleListInsertBefore appends one; both keep the forest of rings well formed. */
module HandleRings {
  import opened HandleModel

  // ---------------------------------------------------------------- one ring

  ghost function PlaceOf(ks: seq<nat>, i: nat): (q: nat)
    requires i in ks
    ensures q < |ks| && ks[q] == i
  {
    var q :| 0 <= q < |ks| && ks[q] == i;
    q
  }

  ghost function Without(ks: seq<nat>, i: nat): (r: seq<nat>)
    requires i in ks
    ensures |r| == |ks| - 1
  {
    var q := PlaceOf(ks, i);
    ks[..q] + ks[q + 1..]
  }

  lemma WithoutMembers(ks: seq<nat>, i: nat)
    requires Distinct(ks) && i in ks
    ensures Distinct(Without(ks, i))
    ensures forall k :: k in Without(ks, i) <==> k in ks && k != i
  {
    var q, r := PlaceOf(ks, i), Without(ks, i);
    forall k | k in ks && k != i
      ensures k in r
    {
      var j :| 0 <= j < |ks| && ks[j] == k;
      assert k == if j < q then r[j] else r[j - 1];
    }
  }

  /** Bypassing the child at place q + 1 leaves the ring of the others. */
  lemma RingWithout(s: seq<Slot>, r: seq<Slot>, p: nat, ks: seq<nat>, q: nat)
    requires |r| == |s| && Ring(s, p, ks) && Distinct(ks) && q < |ks|
    requires forall j :: 0 <= j <= |ks| && j != q + 1 ==>
               var x := Nth(p, ks, j);
               && At(r, p, x).prev == (if x == Nth(p, ks, q + 2) then Nth(p, ks, q) else At(s, p, x).prev)
               && At(r, p, x).next == (if x == Nth(p, ks, q) then Nth(p, ks, q + 2) else At(s, p, x).next)
    ensures Ring(r, p, ks[..q] + ks[q + 1..])
  {
    var ks' := ks[..q] + ks[q + 1..];
    forall j: nat | j <= |ks'|
      ensures Linked(r, p, ks', j)
    {
      var o := if j <= q then j else j + 1;
      var o' := if j + 1 <= q then j + 1 else j + 2;
      assert Nth(p, ks', j) == Nth(p, ks, o);
      assert Nth(p, ks', j + 1) == Nth(p, ks, o');
      assert Linked(s, p, ks, o) && Linked(s, p, ks, o' - 1);
      assert o' == |ks| + 1 ==> Nth(p, ks, o') == Nth(p, ks, 0);
    }
  }

  /** Putting c between p and its predecessor makes it the last child. */
  lemma RingAppend(s: seq<Slot>, r: seq<Slot>, p: nat, ks: seq<nat>, c: nat)
    requires |r| == |s| && Ring(s, p, ks) && Distinct(ks) && c < |s| && c != p && c !in ks
    requires var last := Nth(p, ks, |ks|);
             && At(r, p, c).prev == last && At(r, p, c).next == p
             && forall j :: 0 <= j <= |ks| ==>
                  var x := Nth(p, ks, j);
                  && At(r, p, x).prev == (if x == p then c else At(s, p, x).prev)
                  && At(r, p, x).next == (if x == last then c else At(s, p, x).next)
    ensures Ring(r, p, ks + [c])
  {
    var ks' := ks + [c];
    forall j: nat | j <= |ks'|
      ensures Linked(r, p, ks', j)
    {
      if j <= |ks| {
        assert Nth(p, ks', j) == Nth(p, ks, j);
        assert Linked(s, p, ks, j);
        if j < |ks| {
          assert Nth(p, ks', j + 1) == Nth(p, ks, j + 1);
        }
      } else {
        assert Nth(p, ks, 0) == p;
      }
    }
  }

  /** A ring is not disturbed by writes elsewhere. */
  lemma RingUntouched(s: seq<Slot>, r: seq<Slot>, p: nat, ks: seq<nat>)
    requires |r| >= |s| && Ring(s, p, ks)
    requires r[p].children == s[p].children
    requires forall j :: 0 <= j < |ks| ==> r[ks[j]].siblings == s[ks[j]].siblings
    ensures Ring(r, p, ks)
  {
    forall j: nat | j <= |ks|
      ensures Linked(r, p, ks, j)
    {
      assert Linked(s, p, ks, j);
    }
  }

  // ---------------------------------------------------------------- leaving a ring

  /** HandleListRemove on the siblings of slot i. */
  function Unlinked(slots: seq<Slot>, i: nat): (r: seq<Slot>)
    requires i < |slots|
    requires var e := slots[i].siblings;
             e.next != i ==> 0 < e.parent <= |slots| && e.prev < |slots| && e.next < |slots|
    ensures |r| == |slots|
  {
    var e := slots[i].siblings;
    if e.next == i then slots else
      var p := e.parent - 1;
      var s1 := Put(slots, p, e.prev, At(slots, p, e.prev).(next := e.next));
      var s2 := Put(s1, p, e.next, At(s1, p, e.next).(prev := e.prev));
      s2[i := s2[i].(siblings := Links(i, i, NULL))]
  }

  /** HandleListRemove writes nothing but the neighbours' links and the entry's own. */
  lemma UnlinkEffect(slots: seq<Slot>, i: nat, x: nat)
    requires i < |slots| && x < |slots|
    requires var e := slots[i].siblings;
             && 0 < e.parent <= |slots| && e.parent - 1 != i
             && e.prev < |slots| && e.next < |slots| && e.prev != i && e.next != i
    ensures var e := slots[i].siblings;
            var p := e.parent - 1;
            var r := Unlinked(slots, i);
            if x == i then r[x] == slots[x].(siblings := Links(i, i, NULL)) else
              var l := At(slots, p, x);
              var l' := Links(if x == e.next then e.prev else l.prev,
                              if x == e.prev then e.next else l.next, l.parent);
              r[x] == if x == p then slots[x].(children := l') else slots[x].(siblings := l')
  {
  }

  /** Everything but the links of the slot. */
  ghost predicate SameButLinks(s: Slot, r: Slot) {
    r == s.(children := r.children, siblings := r.siblings)
  }

  /** How HandleListRemove may change slot x when i leaves the ring of p, whose children were ks. */
  ghost predicate LeftAt(s: seq<Slot>, r: seq<Slot>, p: nat, ks: seq<nat>, i: nat, x: nat) {
    && x < |s| == |r|
    && SameButLinks(s[x], r[x])
    && r[x].children.parent == s[x].children.parent
    && (x != p ==> r[x].children == s[x].children)
    && (if x == i then r[x].siblings == Links(i, i, NULL)
        else r[x].siblings.parent == s[x].siblings.parent && (x !in ks ==> r[x].siblings == s[x].siblings))
  }

  ghost predicate LeftRing(s: seq<Slot>, r: seq<Slot>, p: nat, ks: seq<nat>, i: nat) {
    && |r| == |s|
    && forall x: nat {:trigger LeftAt(s, r, p, ks, i, x)} :: x < |s| ==> LeftAt(s, r, p, ks, i, x)
  }

  /** Where a live child sits in its parent's ring, and who its neighbours are. */
  lemma Neighbours(slots: seq<Slot>, g: Shape, i: nat)
    requires Forest(slots, g) && i in g.live && i < |slots|
    requires slots[i].siblings.parent != NULL
    ensures var e := slots[i].siblings;
            && e.parent <= |slots|
            && var p := e.parent - 1;
            && p != i && i in g.kids[p]
            && KidsOk(slots, g, p) && Ring(slots, p, g.kids[p]) && Distinct(g.kids[p])
            && var q := PlaceOf(g.kids[p], i);
            && e.prev == Nth(p, g.kids[p], q) < |slots| && e.prev != i
            && e.next == Nth(p, g.kids[p], q + 2) < |slots| && e.next != i
  {
    var p := slots[i].siblings.parent - 1;
    assert ParentOk(slots, g, i);
    assert KidsOk(slots, g, p);
    var q := PlaceOf(g.kids[p], i);
    assert ChildOk(slots, g, p, g.kids[p][q]);
    assert Nth(p, g.kids[p], q + 1) == i;
    assert Linked(slots, p, g.kids[p], q) && Linked(slots, p, g.kids[p], q + 1);
  }

  lemma UnlinkLeavesRing(slots: seq<Slot>, g: Shape, i: nat)
    requires Forest(slots, g) && i in g.live && i < |slots|
    requires slots[i].siblings.parent != NULL
    ensures var e := slots[i].siblings;
            && 0 < e.parent <= |slots| && e.prev < |slots| && e.next < |slots| && e.next != i
            && i in g.kids[e.parent - 1]
            && LeftRing(slots, Unlinked(slots, i), e.parent - 1, g.kids[e.parent - 1], i)
            && Ring(Unlinked(slots, i), e.parent - 1, Without(g.kids[e.parent - 1], i))
  {
    var p := slots[i].siblings.parent - 1;
    Neighbours(slots, g, i);
    var ks := g.kids[p];
    var q := PlaceOf(ks, i);
    var r := Unlinked(slots, i);
    hide Unlinked, Forest, KidsOk, Ring, LeftRing;
    UnlinkLeavesOthers(slots, p, ks, q, i);
    forall j | 0 <= j <= |ks| && j != q + 1
      ensures Nth(p, ks, j) < |slots|
      ensures var x := Nth(p, ks, j);
              && At(r, p, x).prev == (if x == Nth(p, ks, q + 2) then Nth(p, ks, q) else At(slots, p, x).prev)
              && At(r, p, x).next == (if x == Nth(p, ks, q) then Nth(p, ks, q + 2) else At(slots, p, x).next)
    {
      RingMember(slots, p, ks, j);
      UnlinkEffect(slots, i, Nth(p, ks, j));
    }
    RingWithout(slots, r, p, ks, q);
  }

  /** Whatever is not in the ring stays as it is. */
  lemma UnlinkLeavesOthers(slots: seq<Slot>, p: nat, ks: seq<nat>, q: nat, i: nat)
    requires i < |slots| && p < |slots| && p != i
    requires var e := slots[i].siblings;
             && e.parent == p + 1 && e.prev == Nth(p, ks, q) < |slots| && e.prev != i
             && e.next == Nth(p, ks, q + 2) < |slots| && e.next != i
    ensures LeftRing(slots, Unlinked(slots, i), p, ks, i)
  {
    hide Unlinked;
    forall x: nat | x < |slots|
      ensures LeftAt(slots, Unlinked(slots, i), p, ks, i, x)
    {
      UnlinkEffect(slots, i, x);
      assert Nth(p, ks, q) == p || Nth(p, ks, q) in ks;
      assert Nth(p, ks, q + 2) == p || Nth(p, ks, q + 2) in ks;
    }
  }

  lemma RingMember(slots: seq<Slot>, p: nat, ks: seq<nat>, j: nat)
    requires Ring(slots, p, ks) && j <= |ks|
    ensures Nth(p, ks, j) < |slots|
    ensures 0 < j ==> Nth(p, ks, j) != p
  {
  }

  /** Slot i leaves the live handles for limbo and its parent's ring for none. */
  ghost function Detached(slots: seq<Slot>, g: Shape, i: nat): (g': Shape)
    requires i < |slots| == |g.kids|
    requires var up := slots[i].siblings.parent; up != NULL ==> up <= |slots| && i in g.kids[up - 1]
    ensures g' == g.(live := g.live - {i}, limbo := g.limbo + {i}, kids := g'.kids)
  {
    var up := slots[i].siblings.parent;
    g.(live := g.live - {i}, limbo := g.limbo + {i},
       kids := if up == NULL then g.kids else g.kids[up - 1 := Without(g.kids[up - 1], i)])
  }

  /** HandleListRemove on a live handle keeps the forest, the handle being in limbo from then on. */
  lemma DetachKeepsForest(slots: seq<Slot>, g: Shape, i: nat, r: seq<Slot>)
    requires Forest(slots, g) && i in g.live && i < |slots| == |r|
    requires slots[i].siblings.parent == NULL ==> r == slots
    requires var up := slots[i].siblings.parent;
             up != NULL ==> up <= |slots| && i in g.kids[up - 1]
                            && LeftRing(slots, r, up - 1, g.kids[up - 1], i)
                            && Ring(r, up - 1, Without(g.kids[up - 1], i))
    ensures Forest(r, Detached(slots, g, i))
  {
    var g' := Detached(slots, g, i);
    var up := slots[i].siblings.parent;
    forall x: nat | x < |slots|
      ensures ParentOk(r, g', x)
    {
      assert ParentOk(slots, g, x);
      if up != NULL {
        assert LeftAt(slots, r, up - 1, g.kids[up - 1], i, x);
        assert KidsOk(slots, g, up - 1);
        WithoutMembers(g.kids[up - 1], i);
      }
    }
    forall p: nat | p < |slots|
      ensures KidsOk(r, g', p)
    {
      DetachKeepsKids(slots, g, i, r, p);
    }
  }

  lemma DetachKeepsKids(slots: seq<Slot>, g: Shape, i: nat, r: seq<Slot>, p: nat)
    requires Forest(slots, g) && i in g.live && i < |slots| == |r| && p < |slots|
    requires slots[i].siblings.parent == NULL ==> r == slots
    requires var up := slots[i].siblings.parent;
             up != NULL ==> up <= |slots| && i in g.kids[up - 1]
                            && LeftRing(slots, r, up - 1, g.kids[up - 1], i)
                            && Ring(r, up - 1, Without(g.kids[up - 1], i))
    ensures KidsOk(r, Detached(slots, g, i), p)
  {
    var g' := Detached(slots, g, i);
    var up := slots[i].siblings.parent;
    assert KidsOk(slots, g, p);
    forall j | 0 <= j < |g'.kids[p]|
      ensures ChildOk(r, g', p, g'.kids[p][j])
    {
      var k := g'.kids[p][j];
      if up != NULL && p == up - 1 {
        WithoutMembers(g.kids[p], i);
      }
      assert k in g.kids[p];
      assert ChildOk(slots, g, p, k);
      assert k != i;
      if up != NULL {
        assert LeftAt(slots, r, up - 1, g.kids[up - 1], i, k);
      }
    }
    if up != NULL {
      assert LeftAt(slots, r, up - 1, g.kids[up - 1], i, p);
      if p == up - 1 {
        WithoutMembers(g.kids[p], i);
      } else if HasRing(g', p) {
        KidsStayOut(slots, g, up - 1, p);
        forall j | 0 <= j < |g.kids[p]|
          ensures r[g.kids[p][j]].siblings == slots[g.kids[p][j]].siblings
        {
          assert LeftAt(slots, r, up - 1, g.kids[up - 1], i, g.kids[p][j]);
        }
        RingUntouched(slots, r, p, g.kids[p]);
      }
    }
  }

  /** No slot is in two rings. */
  lemma KidsStayOut(slots: seq<Slot>, g: Shape, p: nat, p': nat)
    requires Forest(slots, g) && p < |slots| && p' < |slots| && p != p'
    ensures forall j :: 0 <= j < |g.kids[p']| ==> g.kids[p'][j] !in g.kids[p]
  {
    assert KidsOk(slots, g, p) && KidsOk(slots, g, p');
    forall j | 0 <= j < |g.kids[p']|
      ensures g.kids[p'][j] !in g.kids[p]
    {
      var k := g.kids[p'][j];
      assert ChildOk(slots, g, p', k);
      forall j' | 0 <= j' < |g.kids[p]|
        ensures g.kids[p][j'] != k
      {
        assert ChildOk(slots, g, p, g.kids[p][j']);
      }
    }
  }

  // ---------------------------------------------------------------- joining a ring

  /** HandleListInsertBefore: slot c becomes the last child of p. */
  function Adopted(slots: seq<Slot>, p: nat, c: nat): (r: seq<Slot>)
    requires p < |slots| && c < |slots| && slots[p].children.prev < |slots|
    ensures |r| == |slots|
  {
    var last := slots[p].children.prev;
    var s1 := slots[c := slots[c].(siblings := slots[c].siblings.(prev := last))];
    var s2 := s1[p := s1[p].(children := s1[p].children.(prev := c))];
    var s3 := s2[c := s2[c].(siblings := s2[c].siblings.(next := p))];
    var s4 := Put(s3, p, last, At(s3, p, last).(next := c));
    s4[c := s4[c].(siblings := s4[c].siblings.(parent := p + 1))]
  }

  lemma AdoptEffect(slots: seq<Slot>, p: nat, c: nat, x: nat)
    requires p < |slots| && c < |slots| && x < |slots| && p != c
    requires slots[p].children.prev < |slots| && slots[p].children.prev != c
    ensures var last := slots[p].children.prev;
            var r := Adopted(slots, p, c);
            if x == c then r[x] == slots[x].(siblings := Links(last, p, p + 1)) else
              var l := At(slots, p, x);
              var l' := Links(if x == p then c else l.prev, if x == last then c else l.next, l.parent);
              r[x] == if x == p then slots[x].(children := l') else slots[x].(siblings := l')
  {
  }

  ghost function WithChild(g: Shape, p: nat, c: nat): (g': Shape)
    requires p < |g.kids| == |g.depth| && c < |g.depth|
    ensures g'.batch == g.batch
  {
    g.(kids := g.kids[p := g.kids[p] + [c]], depth := g.depth[c := g.depth[p] + 1],
       top := if g.top < g.depth[p] + 1 then g.depth[p] + 1 else g.top)
  }

  /** The last place of the ring of p. */
  lemma LastChild(slots: seq<Slot>, g: Shape, p: nat, c: nat)
    requires Forest(slots, g) && p < |slots| && p in g.live
    requires c < |slots| && c != p && slots[c].siblings.parent == NULL
    ensures KidsOk(slots, g, p) && Ring(slots, p, g.kids[p]) && c !in g.kids[p]
    ensures slots[p].children.prev == Nth(p, g.kids[p], |g.kids[p]|) < |slots|
    ensures slots[p].children.prev != c
  {
    assert KidsOk(slots, g, p);
    assert Linked(slots, p, g.kids[p], |g.kids[p]|);
    forall j | 0 <= j < |g.kids[p]|
      ensures g.kids[p][j] != c
    {
      assert ChildOk(slots, g, p, g.kids[p][j]);
    }
  }

  /** AdoptChild: a live handle without parent or children becomes a child of p. */
  lemma AdoptKeepsForest(slots: seq<Slot>, g: Shape, p: nat, c: nat)
    requires Forest(slots, g) && p < |slots| && c < |slots| && p in g.live && c in g.live && p != c
    requires slots[c].siblings.parent == NULL && g.kids[c] == []
    ensures slots[p].children.prev < |slots|
    ensures Forest(Adopted(slots, p, c), WithChild(g, p, c))
  {
    LastChild(slots, g, p, c);
    var r, g' := Adopted(slots, p, c), WithChild(g, p, c);
    hide Adopted;
    forall x: nat | x < |slots|
      ensures ParentOk(r, g', x)
    {
      assert ParentOk(slots, g, x);
      AdoptEffect(slots, p, c, x);
      if x == c {
        assert g'.kids[p][|g.kids[p]|] == c;
      } else if x in g.live && slots[x].siblings.parent != NULL {
        assert r[x].siblings.parent == slots[x].siblings.parent;
      } else if HasRing(g, x) {
        assert slots[p].children.prev == p || ChildOk(slots, g, p, slots[p].children.prev);
      }
    }
    forall x: nat | x < |slots|
      ensures KidsOk(r, g', x)
    {
      if x == p {
        AdoptExtendsRing(slots, g, p, c);
      } else {
        AdoptKeepsKids(slots, g, p, c, x);
      }
    }
  }

  lemma AdoptExtendsRing(slots: seq<Slot>, g: Shape, p: nat, c: nat)
    requires Forest(slots, g) && p < |slots| && c < |slots| && p in g.live && c in g.live && p != c
    requires slots[c].siblings.parent == NULL && g.kids[c] == []
    requires slots[p].children.prev < |slots|
    ensures KidsOk(Adopted(slots, p, c), WithChild(g, p, c), p)
  {
    LastChild(slots, g, p, c);
    var r, g', ks := Adopted(slots, p, c), WithChild(g, p, c), g.kids[p];
    hide Adopted, Forest;
    forall j | 0 <= j <= |ks|
      ensures Nth(p, ks, j) < |slots|
      ensures var x, last := Nth(p, ks, j), Nth(p, ks, |ks|);
              && At(r, p, x).prev == (if x == p then c else At(slots, p, x).prev)
              && At(r, p, x).next == (if x == last then c else At(slots, p, x).next)
    {
      RingMember(slots, p, ks, j);
      AdoptEffect(slots, p, c, Nth(p, ks, j));
    }
    AdoptEffect(slots, p, c, c);
    AdoptEffect(slots, p, c, p);
    RingAppend(slots, r, p, ks, c);
    forall j | 0 <= j < |ks| + 1
      ensures ChildOk(r, g', p, g'.kids[p][j])
    {
      if j < |ks| {
        assert ChildOk(slots, g, p, ks[j]);
        AdoptEffect(slots, p, c, ks[j]);
      }
    }
  }

  lemma AdoptKeepsKids(slots: seq<Slot>, g: Shape, p: nat, c: nat, x: nat)
    requires Forest(slots, g) && p < |slots| && c < |slots| && p in g.live && c in g.live && p != c
    requires slots[c].siblings.parent == NULL && g.kids[c] == []
    requires slots[p].children.prev < |slots| && x < |slots| && x != p
    ensures KidsOk(Adopted(slots, p, c), WithChild(g, p, c), x)
  {
    LastChild(slots, g, p, c);
    var r, g' := Adopted(slots, p, c), WithChild(g, p, c);
    assert KidsOk(slots, g, x);
    KidsStayOut(slots, g, p, x);
    assert slots[p].children.prev == p || slots[p].children.prev in g.kids[p];
    hide Adopted, Forest, Ring;
    AdoptEffect(slots, p, c, x);
    forall j | 0 <= j < |g.kids[x]|
      ensures ChildOk(r, g', x, g.kids[x][j])
      ensures r[g.kids[x][j]].siblings == slots[g.kids[x][j]].siblings
    {
      assert ChildOk(slots, g, x, g.kids[x][j]);
      AdoptEffect(slots, p, c, g.kids[x][j]);
    }
    if HasRing(g, x) {
      RingUntouched(slots, r, x, g.kids[x]);
    }
  }
}
