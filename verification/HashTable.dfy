/** The chained hash table of pvr/hash.c, which grows and shrinks with its load.  A chain is the
    sequence of buckets reached by following pNext. */
module HashTable {

  datatype Bucket<K> = Bucket(k: K, v: nat)

  type Chain<K> = seq<Bucket<K>>

  /** All buckets of a bucket table, with multiplicities. */
  ghost function All<K>(chains: seq<Chain<K>>): multiset<Bucket<K>> {
    if chains == [] then multiset{} else All(chains[..|chains| - 1]) + multiset(chains[|chains| - 1])
  }

  lemma {:induction false} AllUpdate<K>(chains: seq<Chain<K>>, i: nat, c: Chain<K>)
    requires i < |chains|
    ensures All(chains[i := c]) + multiset(chains[i]) == All(chains) + multiset(c)
  {
    var n := |chains| - 1;
    if i == n {
      assert chains[i := c][..n] == chains[..n];
    } else {
      assert chains[i := c][..n] == chains[..n][i := c];
      assert chains[i := c][n] == chains[n];
      AllUpdate(chains[..n], i, c);
      var last := multiset(chains[n]);
      assert All(chains[i := c]) + multiset(chains[i]) == All(chains[..n][i := c]) + multiset(chains[i]) + last;
      assert All(chains) + multiset(c) == All(chains[..n]) + multiset(c) + last;
    }
  }

  lemma Cancel<T>(x: multiset<T>, y: multiset<T>, z: multiset<T>)
    requires x + z == y + z
    ensures x == y
  {
    forall e: T ensures x[e] == y[e] {
      assert (x + z)[e] == (y + z)[e];
    }
  }

  lemma {:induction false} AllMember<K>(chains: seq<Chain<K>>, b: Bucket<K>)
    ensures b in All(chains) <==> exists i :: 0 <= i < |chains| && b in chains[i]
  {
    if chains != [] {
      var n := |chains| - 1;
      AllMember(chains[..n], b);
      if b in All(chains) && b !in chains[n] {
        var i :| 0 <= i < n && b in chains[..n][i];
        assert b in chains[i];
      }
      if i :| 0 <= i < |chains| && b in chains[i] {
        if i < n {
          assert b in chains[..n][i];
        }
      }
    }
  }

  lemma {:induction false} AllEmpty<K>(chains: seq<Chain<K>>)
    requires forall i :: 0 <= i < |chains| ==> chains[i] == []
    ensures All(chains) == multiset{}
  {
    if chains != [] {
      AllEmpty(chains[..|chains| - 1]);
    }
  }

  lemma NoChains<K>(chains: seq<Chain<K>>)
    requires chains == []
    ensures All(chains) == multiset{}
  {}

  lemma NextChain<K>(chains: seq<Chain<K>>, i: nat)
    requires i < |chains|
    ensures All(chains[..i + 1]) == All(chains[..i]) + multiset(chains[i])
  {
    assert chains[..i + 1][..i] == chains[..i];
  }

  /** A bucket at the given place of a chain, taken out. */
  lemma CutOut<K>(c: Chain<K>, j: nat)
    requires j < |c|
    ensures multiset(c[..j] + c[j + 1..]) + multiset{c[j]} == multiset(c)
  {
    assert c == c[..j] + [c[j]] + c[j + 1..];
  }

  lemma HeadAndRest<K>(c: Chain<K>)
    requires c != []
    ensures multiset(c) == multiset{c[0]} + multiset(c[1..])
  {
    assert c == [c[0]] + c[1..];
  }

  ghost predicate HasKey<K(!new)>(buckets: multiset<Bucket<K>>, k: K) {
    exists v :: Bucket(k, v) in buckets
  }

  /** The buckets are exactly the bindings of the map, each once. */
  ghost predicate Represents<K(!new)>(buckets: multiset<Bucket<K>>, m: map<K, nat>) {
    forall k, v :: buckets[Bucket(k, v)] == if k in m && m[k] == v then 1 else 0
  }

  class Table<K(==,!new)> {
    const hash: K -> nat
    const minimumSize: nat
    var table: array<Chain<K>>
    var count: nat

    /** Every bucket sits in the chain its key hashes to, and uCount counts the buckets. */
    ghost predicate Valid()
      reads this, table
    {
      && 0 < minimumSize <= table.Length
      && WellPlaced(table[..])
      && |Buckets()| == count
    }

    ghost function Buckets(): multiset<Bucket<K>>
      reads this, table
    {
      All(table[..])
    }

    ghost predicate WellPlaced(chains: seq<Chain<K>>) {
      forall i, b :: 0 <= i < |chains| && b in chains[i] ==> hash(b.k) % |chains| == i
    }

    constructor (initialLen: nat, hash: K -> nat)
      requires 0 < initialLen
      ensures Valid() && fresh(table) && this.hash == hash && minimumSize == initialLen
      ensures Buckets() == multiset{}
    {
      this.hash := hash;
      minimumSize := initialLen;
      count := 0;
      table := new Chain<K>[initialLen](_ => []);
      new;
      AllEmpty(table[..]);
    }

    /** _ChainInsert: puts a bucket at the head of its chain. */
    method ChainInsert(b: Bucket<K>, into: array<Chain<K>>)
      requires into.Length > 0 && WellPlaced(into[..])
      modifies into
      ensures WellPlaced(into[..])
      ensures All(into[..]) == old(All(into[..])) + multiset{b}
      ensures var index := hash(b.k) % into.Length;
              into[..] == old(into[..])[index := [b] + old(into[index])]
    {
      var index := hash(b.k) % into.Length;
      ghost var was := into[..];
      var chain := [b] + into[index];
      into[index] := chain;
      AllUpdate(was, index, chain);
      assert into[..] == was[index := chain];
      assert All(was) + multiset(chain) == All(was) + multiset{b} + multiset(was[index]);
      Cancel(All(into[..]), All(was) + multiset{b}, multiset(was[index]));
    }

    /** _Rehash: moves every bucket of the old table into the new one. */
    method Rehash(oldTable: array<Chain<K>>, newTable: array<Chain<K>>)
      requires oldTable != newTable && newTable.Length > 0
      requires forall i :: 0 <= i < newTable.Length ==> newTable[i] == []
      modifies newTable
      ensures WellPlaced(newTable[..])
      ensures All(newTable[..]) == All(oldTable[..])
    {
      AllEmpty(newTable[..]);
      assert WellPlaced(newTable[..]);
      hide WellPlaced, All;
      NoChains(oldTable[..0]);
      for index := 0 to oldTable.Length
        invariant WellPlaced(newTable[..])
        invariant All(newTable[..]) == All(oldTable[..index])
      {
        var bucket := oldTable[index];
        ghost var before := All(newTable[..]);
        while bucket != []
          invariant WellPlaced(newTable[..])
          invariant All(newTable[..]) + multiset(bucket) == before + multiset(oldTable[index])
          decreases |bucket|
        {
          var next := bucket[1..];
          HeadAndRest(bucket);
          ChainInsert(bucket[0], newTable);
          bucket := next;
        }
        NextChain(oldTable[..], index);
      }
      assert oldTable[..oldTable.Length] == oldTable[..];
    }

    /** _Resize: the bucket table gets the new size unless its allocation fails. */
    method Resize(newSize: nat, memOk: bool) returns (ok: bool)
      requires Valid() && minimumSize <= newSize
      modifies this`table
      ensures Valid() && Buckets() == old(Buckets())
      ensures ok == (memOk || newSize == old(table.Length))
      ensures table.Length == if ok then newSize else old(table.Length)
      ensures if ok && newSize != old(table.Length) then fresh(table) else table == old(table)
    {
      if newSize != table.Length {
        if !memOk {
          return false;
        }
        var newTable := new Chain<K>[newSize](_ => []);
        Rehash(table, newTable);
        table := newTable;
      }
      return true;
    }

    /** HASH_Insert_Extended.  The key is not looked up first: an equal key may already be there. */
    method Insert(k: K, v: nat, bucketOk: bool, resizeOk: bool) returns (ok: bool)
      requires Valid()
      modifies this`table, this`count, table
      ensures Valid() && (table == old(table) || fresh(table))
      ensures ok == bucketOk
      ensures Buckets() == old(Buckets()) + if ok then multiset{Bucket(k, v)} else multiset{}
      ensures count == old(count) + if ok then 1 else 0
      ensures table.Length == if ok && resizeOk && count * 2 > old(table.Length) then old(table.Length) * 2
                              else old(table.Length)
    {
      if !bucketOk {
        return false;
      }
      ChainInsert(Bucket(k, v), table);
      count := count + 1;
      if count * 2 > table.Length {
        var _ := Resize(table.Length * 2, resizeOk);
      }
      return true;
    }

    /** HASH_Remove_Extended: unlinks the first bucket with that key; 0 when there is none. */
    method Remove(k: K, resizeOk: bool) returns (v: nat)
      requires Valid()
      modifies this`table, this`count, table
      ensures Valid() && (table == old(table) || fresh(table))
      ensures old(HasKey(Buckets(), k)) ==>
                Bucket(k, v) in old(Buckets()) && Buckets() == old(Buckets()) - multiset{Bucket(k, v)}
      ensures !old(HasKey(Buckets(), k)) ==> v == 0 && Buckets() == old(Buckets())
      ensures count == old(count) - if old(HasKey(Buckets(), k)) then 1 else 0
      ensures var n := old(table.Length);
              table.Length == if old(HasKey(Buckets(), k)) && resizeOk && n > count * 4 && n > minimumSize
                              then if n / 2 > minimumSize then n / 2 else minimumSize
                              else n
    {
      var index := hash(k) % table.Length;
      var j := 0;
      while j < |table[index]|
        invariant 0 <= j <= |table[index]|
        invariant forall i :: 0 <= i < j ==> table[index][i].k != k
      {
        if table[index][j].k == k {
          v := table[index][j].v;
          Unlink(index, j);
          if table.Length > count * 4 && table.Length > minimumSize {
            var half := table.Length / 2;
            var _ := Resize(if half > minimumSize then half else minimumSize, resizeOk);
          }
          return;
        }
        j := j + 1;
      }
      v := 0;
      NotInOtherChains(k, index);
    }

    /** Takes one bucket out of its chain. */
    method Unlink(index: nat, j: nat)
      requires Valid() && index < table.Length && j < |table[index]|
      modifies this`count, table
      ensures Valid()
      ensures old(table[index][j]) in old(Buckets())
      ensures Buckets() == old(Buckets()) - multiset{old(table[index][j])}
    {
      ghost var was := table[..];
      var rest := table[index][..j] + table[index][j + 1..];
      UnlinkFromChains(was, index, j, rest);
      table[index] := rest;
      assert table[..] == was[index := rest];
      count := count - 1;
    }

    lemma UnlinkFromChains(was: seq<Chain<K>>, index: nat, j: nat, rest: Chain<K>)
      requires WellPlaced(was) && index < |was| && j < |was[index]|
      requires rest == was[index][..j] + was[index][j + 1..]
      ensures WellPlaced(was[index := rest])
      ensures was[index][j] in All(was)
      ensures All(was[index := rest]) == All(was) - multiset{was[index][j]}
      ensures |All(was[index := rest])| == |All(was)| - 1
    {
      var b := was[index][j];
      AllMember(was, b);
      CutOut(was[index], j);
      AllUpdate(was, index, rest);
      assert All(was[index := rest]) + multiset{b} + multiset(rest) == All(was) + multiset(rest);
      Cancel(All(was[index := rest]) + multiset{b}, All(was), multiset(rest));
    }

    /** HASH_Retrieve_Extended: the value of the first bucket with that key; 0 when there is none. */
    method Retrieve(k: K) returns (v: nat)
      requires Valid()
      ensures HasKey(Buckets(), k) ==> Bucket(k, v) in Buckets()
      ensures !HasKey(Buckets(), k) ==> v == 0
    {
      var index := hash(k) % table.Length;
      var j := 0;
      while j < |table[index]|
        invariant 0 <= j <= |table[index]|
        invariant forall i :: 0 <= i < j ==> table[index][i].k != k
      {
        if table[index][j].k == k {
          AllMember(table[..], table[index][j]);
          return table[index][j].v;
        }
        j := j + 1;
      }
      v := 0;
      NotInOtherChains(k, index);
    }

    /** A key missing from the chain it hashes to is missing from the whole table. */
    lemma NotInOtherChains(k: K, index: nat)
      requires Valid() && index == hash(k) % table.Length
      requires forall j :: 0 <= j < |table[index]| ==> table[index][j].k != k
      ensures !HasKey(Buckets(), k)
    {
      forall v ensures Bucket(k, v) !in Buckets() {
        AllMember(table[..], Bucket(k, v));
      }
    }
  }

  // With unique keys, the table is a map.

  lemma EmptyRepresents<K(!new)>()
    ensures Represents<K>(multiset{}, map[])
  {}

  lemma InsertRefinesUpdate<K(!new)>(buckets: multiset<Bucket<K>>, m: map<K, nat>, k: K, v: nat)
    requires Represents(buckets, m) && k !in m
    ensures Represents(buckets + multiset{Bucket(k, v)}, m[k := v])
  {}

  lemma RemoveRefinesDelete<K(!new)>(buckets: multiset<Bucket<K>>, m: map<K, nat>, k: K, v: nat)
    requires Represents(buckets, m) && Bucket(k, v) in buckets
    ensures k in m && v == m[k]
    ensures Represents(buckets - multiset{Bucket(k, v)}, m - {k})
  {
    assert buckets[Bucket(k, v)] == 1;
  }

  lemma HasKeyIffInMap<K(!new)>(buckets: multiset<Bucket<K>>, m: map<K, nat>, k: K)
    requires Represents(buckets, m)
    ensures HasKey(buckets, k) <==> k in m
    ensures k in m ==> Bucket(k, m[k]) in buckets
    ensures forall v :: Bucket(k, v) in buckets ==> k in m && v == m[k]
  {
    if k in m {
      assert buckets[Bucket(k, m[k])] == 1;
    }
  }

  /** With a key inserted twice, which of the two values is found is not determined by the
      buckets: no map is represented any more. */
  lemma DuplicateKeyRepresentsNoMap<K(!new)>(buckets: multiset<Bucket<K>>, m: map<K, nat>, k: K, v: nat,
                                             m': map<K, nat>)
    requires Represents(buckets, m) && k in m
    ensures !Represents(buckets + multiset{Bucket(k, v)}, m')
  {
    var more := buckets + multiset{Bucket(k, v)};
    assert buckets[Bucket(k, m[k])] == 1;
    assert more[Bucket(k, v)] >= 1 && more[Bucket(k, m[k])] >= 1;
    assert v == m[k] ==> more[Bucket(k, v)] == 2;
  }
}
