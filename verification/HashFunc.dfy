/** The default hash of pvr/hash.c: a 32-bit mixing of each key word, summed over the words. */
module HashFunc {

  // The eight steps of the mixing and what undoes each.  A shift-and-add multiplies by an odd
  // number and is undone by that number's inverse modulo 2^32; a shift-and-xor is undone by
  // xoring with ever doubled shifts.

  function Add12(x: bv32): bv32 { x + (x << 12) }

  function Unadd12(y: bv32): bv32 { y * 0x00fff001 }

  function Add4(x: bv32): bv32 { x + (x << 4) }

  function Unadd4(y: bv32): bv32 { y * 0xf0f0f0f1 }

  function Add10(x: bv32): bv32 { x + (x << 10) }

  function Unadd10(y: bv32): bv32 { y * 0xc00ffc01 }

  function Add7(x: bv32): bv32 { x + (x << 7) }

  function Unadd7(y: bv32): bv32 { y * 0x0fe03f81 }

  function Xor22(x: bv32): bv32 { x ^ (x >> 22) }

  function Xor9(x: bv32): bv32 { x ^ (x >> 9) }

  function Unxor9(y: bv32): bv32 {
    var a := y ^ (y >> 9);
    a ^ (a >> 18)
  }

  function Xor2(x: bv32): bv32 { x ^ (x >> 2) }

  function Unxor2(y: bv32): bv32 {
    var a := y ^ (y >> 2);
    var b := a ^ (a >> 4);
    var c := b ^ (b >> 8);
    c ^ (c >> 16)
  }

  function Xor12(x: bv32): bv32 { x ^ (x >> 12) }

  function Unxor12(y: bv32): bv32 {
    var a := y ^ (y >> 12);
    a ^ (a >> 24)
  }

  /** The mixing of one key word. */
  function Mix(w: bv32): bv32 {
    Xor12(Add7(Xor2(Add10(Xor9(Add4(Xor22(Add12(w))))))))
  }

  /** Takes the mixing apart, last step first. */
  function Unmix(h: bv32): bv32 {
    Unadd12(Xor22(Unadd4(Unxor9(Unadd10(Unxor2(Unadd7(Unxor12(h))))))))
  }

  lemma Add12Times(x: bv32)
    ensures Add12(x) == x * 4097
  {}

  lemma Add12TimesAll()
    ensures forall x :: Add12(x) == x * 4097
  {
    hide *;
    forall x ensures Add12(x) == x * 4097 { Add12Times(x); }
  }

  lemma Unadd12Times(x: bv32)
    ensures Unadd12(x * 4097) == x
  {}

  lemma Add12Inverse(y: bv32)
    ensures Add12(y * 0x00fff001) == y
  {
    hide *;
    Add12TimesAll();
  }

  lemma Undo12(x: bv32)
    ensures Unadd12(Add12(x)) == x
  {
    hide *;
    Add12Times(x);
    Unadd12Times(x);
  }

  lemma Redo12(y: bv32)
    ensures Add12(Unadd12(y)) == y
  {
    hide Add12;
    Add12Inverse(y);
  }

  lemma Add4Times(x: bv32)
    ensures Add4(x) == x * 17
  {}

  lemma Add4TimesAll()
    ensures forall x :: Add4(x) == x * 17
  {
    hide *;
    forall x ensures Add4(x) == x * 17 { Add4Times(x); }
  }

  lemma Unadd4Times(x: bv32)
    ensures Unadd4(x * 17) == x
  {}

  lemma Add4Inverse(y: bv32)
    ensures Add4(y * 0xf0f0f0f1) == y
  {
    hide *;
    Add4TimesAll();
  }

  lemma Undo4(x: bv32)
    ensures Unadd4(Add4(x)) == x
  {
    hide *;
    Add4Times(x);
    Unadd4Times(x);
  }

  lemma Redo4(y: bv32)
    ensures Add4(Unadd4(y)) == y
  {
    hide Add4;
    Add4Inverse(y);
  }

  lemma Add10Times(x: bv32)
    ensures Add10(x) == x * 1025
  {}

  lemma Add10TimesAll()
    ensures forall x :: Add10(x) == x * 1025
  {
    hide *;
    forall x ensures Add10(x) == x * 1025 { Add10Times(x); }
  }

  lemma Unadd10Times(x: bv32)
    ensures Unadd10(x * 1025) == x
  {}

  lemma Add10Inverse(y: bv32)
    ensures Add10(y * 0xc00ffc01) == y
  {
    hide *;
    Add10TimesAll();
  }

  lemma Undo10(x: bv32)
    ensures Unadd10(Add10(x)) == x
  {
    hide *;
    Add10Times(x);
    Unadd10Times(x);
  }

  lemma Redo10(y: bv32)
    ensures Add10(Unadd10(y)) == y
  {
    hide Add10;
    Add10Inverse(y);
  }

  lemma Add7Times(x: bv32)
    ensures Add7(x) == x * 129
  {}

  lemma Add7TimesAll()
    ensures forall x :: Add7(x) == x * 129
  {
    hide *;
    forall x ensures Add7(x) == x * 129 { Add7Times(x); }
  }

  lemma Unadd7Times(x: bv32)
    ensures Unadd7(x * 129) == x
  {}

  lemma Add7Inverse(y: bv32)
    ensures Add7(y * 0x0fe03f81) == y
  {
    hide *;
    Add7TimesAll();
  }

  lemma Undo7(x: bv32)
    ensures Unadd7(Add7(x)) == x
  {
    hide *;
    Add7Times(x);
    Unadd7Times(x);
  }

  lemma Redo7(y: bv32)
    ensures Add7(Unadd7(y)) == y
  {
    hide Add7;
    Add7Inverse(y);
  }

  lemma Unxor9Inline(x: bv32)
    ensures Unxor9(x ^ (x >> 9)) == x
  {}

  lemma Xor9Inline(y: bv32)
    ensures var a := y ^ (y >> 9); Xor9(a ^ (a >> 18)) == y
  {}

  lemma UndoXor9(x: bv32)
    ensures Unxor9(Xor9(x)) == x
  {
    hide Unxor9;
    Unxor9Inline(x);
  }

  lemma RedoXor9(x: bv32)
    ensures Xor9(Unxor9(x)) == x
  {
    hide Xor9;
    Xor9Inline(x);
  }

  lemma Unxor2Inline(x: bv32)
    ensures Unxor2(x ^ (x >> 2)) == x
  {}

  lemma Xor2Inline(y: bv32)
    ensures var a := y ^ (y >> 2); var b := a ^ (a >> 4); var c := b ^ (b >> 8); Xor2(c ^ (c >> 16)) == y
  {}

  lemma UndoXor2(x: bv32)
    ensures Unxor2(Xor2(x)) == x
  {
    hide Unxor2;
    Unxor2Inline(x);
  }

  lemma RedoXor2(x: bv32)
    ensures Xor2(Unxor2(x)) == x
  {
    hide Xor2;
    Xor2Inline(x);
  }

  lemma Unxor12Inline(x: bv32)
    ensures Unxor12(x ^ (x >> 12)) == x
  {}

  lemma Xor12Inline(y: bv32)
    ensures var a := y ^ (y >> 12); Xor12(a ^ (a >> 24)) == y
  {}

  lemma UndoXor12(x: bv32)
    ensures Unxor12(Xor12(x)) == x
  {
    hide Unxor12;
    Unxor12Inline(x);
  }

  lemma RedoXor12(x: bv32)
    ensures Xor12(Unxor12(x)) == x
  {
    hide Xor12;
    Xor12Inline(x);
  }

  lemma UndoXor22(x: bv32)
    ensures Xor22(Xor22(x)) == x
  {}

  /** Mixing loses nothing: Unmix recovers the word. */
  lemma UnmixMix(w: bv32)
    ensures Unmix(Mix(w)) == w
  {
    hide Add12, Xor22, Add4, Xor9, Add10, Xor2, Add7, Xor12;
    hide Unadd12, Unadd4, Unxor9, Unadd10, Unxor2, Unadd7, Unxor12;
    var a := Add12(w);
    var b := Xor22(a);
    var c := Add4(b);
    var d := Xor9(c);
    var e := Add10(d);
    var f := Xor2(e);
    var g := Add7(f);
    UndoXor12(g);
    Undo7(f);
    UndoXor2(e);
    Undo10(d);
    UndoXor9(c);
    Undo4(b);
    UndoXor22(a);
    Undo12(w);
  }

  /** ... and every 32-bit value is the mixing of exactly one word. */
  lemma MixUnmix(h: bv32)
    ensures Mix(Unmix(h)) == h
  {
    hide Add12, Xor22, Add4, Xor9, Add10, Xor2, Add7, Xor12;
    hide Unadd12, Unadd4, Unxor9, Unadd10, Unxor2, Unadd7, Unxor12;
    var g := Unxor12(h);
    var f := Unadd7(g);
    var e := Unxor2(f);
    var d := Unadd10(e);
    var c := Unxor9(d);
    var b := Unadd4(c);
    var a := Xor22(b);
    RedoXor12(h);
    Redo7(g);
    RedoXor2(f);
    Redo10(e);
    RedoXor9(d);
    Redo4(c);
    UndoXor22(b);
    Redo12(a);
  }

  /** The number a word stands for. */
  function Num(x: bv32): (n: nat)
    ensures n < 0x1_0000_0000
  {
    x as nat
  }

  lemma BackAndForth(x: bv32)
    ensures 0 <= x as nat < 0x1_0000_0000 && (x as nat) as bv32 == x
  {}

  lemma NumInjective(x: bv32, y: bv32)
    ensures Num(x) == Num(y) <==> x == y
  {
    BackAndForth(x);
    BackAndForth(y);
  }

  /** The sum of two words, which wraps around. */
  function Plus(x: nat, y: nat): (z: nat)
    ensures z < 0x1_0000_0000
  {
    (x + y) % 0x1_0000_0000
  }

  /** Only what is left modulo 2^32 of a summand matters. */
  lemma PlusOfRest(x: nat, y: nat)
    ensures Plus(x % 0x1_0000_0000, y) == (x + y) % 0x1_0000_0000
    ensures Plus(x % 0x1_0000_0000, y % 0x1_0000_0000) == (x + y) % 0x1_0000_0000
  {
    var p, a := x / 0x1_0000_0000, x % 0x1_0000_0000;
    var q, b := y / 0x1_0000_0000, y % 0x1_0000_0000;
    assert x == p * 0x1_0000_0000 + a && y == q * 0x1_0000_0000 + b;
    SameRest(x + y, p, a + y);
    SameRest(x + y, p + q, a + b);
  }

  lemma SameRest(n: nat, k: nat, m: nat)
    requires n == k * 0x1_0000_0000 + m
    ensures n % 0x1_0000_0000 == m % 0x1_0000_0000
  {
    var j, r := m / 0x1_0000_0000, m % 0x1_0000_0000;
    assert m == j * 0x1_0000_0000 + r;
    RestIs(n, k + j, r);
  }

  lemma RestIs(n: nat, k: nat, r: nat)
    requires n == k * 0x1_0000_0000 + r && r < 0x1_0000_0000
    ensures n % 0x1_0000_0000 == r
  {}

  lemma PlusSwaps(x: nat, y: nat, z: nat)
    ensures Plus(Plus(x, y), z) == Plus(Plus(x, z), y)
  {}

  /** The hash of a key: the sum, modulo 2^32, of its mixed words. */
  function Hash(words: seq<bv32>): nat {
    if words == [] then 0 else Plus(Hash(words[..|words| - 1]), Num(Mix(words[|words| - 1])))
  }

  lemma HashPrefix(words: seq<bv32>, i: nat)
    requires i < |words|
    ensures Hash(words[..i + 1]) == Plus(Hash(words[..i]), Num(Mix(words[i])))
  {
    hide Mix, Plus, Num;
    assert words[..i + 1][..i] == words[..i];
  }

  /** The sum of the mixed words, without a limit. */
  ghost function SumOfMixes(words: seq<bv32>): nat {
    if words == [] then 0 else Num(Mix(words[0])) + SumOfMixes(words[1..])
  }

  lemma {:induction false} SumOfTwo(a: seq<bv32>, b: seq<bv32>)
    ensures SumOfMixes(a + b) == SumOfMixes(a) + SumOfMixes(b)
    decreases |a|
  {
    hide Mix, Num;
    if a == [] {
      assert a + b == b;
    } else {
      assert (a + b)[1..] == a[1..] + b;
      SumOfTwo(a[1..], b);
    }
  }

  lemma SumOfOne(w: bv32)
    ensures SumOfMixes([w]) == Num(Mix(w))
  {
    hide Mix, Num;
    assert [w][1..] == [];
  }

  /** The hash is what is left of that sum in 32 bits. */
  lemma {:induction false} HashIsSum(words: seq<bv32>)
    ensures Hash(words) == SumOfMixes(words) % 0x1_0000_0000
    decreases |words|
  {
    hide Mix, Num;
    if words != [] {
      var n := |words| - 1;
      HashIsSum(words[..n]);
      assert words == words[..n] + [words[n]];
      SumOfTwo(words[..n], [words[n]]);
      SumOfOne(words[n]);
      PlusOfRest(SumOfMixes(words[..n]), Num(Mix(words[n])));
    }
  }

  /** Where a key is split does not matter: the hashes of the parts add up, with wrap-around. */
  lemma HashOfParts(a: seq<bv32>, b: seq<bv32>)
    ensures Hash(a + b) == (Hash(a) + Hash(b)) % 0x1_0000_0000
  {
    hide Hash, SumOfMixes;
    HashIsSum(a);
    HashIsSum(b);
    HashIsSum(a + b);
    SumOfTwo(a, b);
    PlusOfRest(SumOfMixes(a), SumOfMixes(b));
  }

  /** HASH_Func_Default: walks over the key words and sums up their mixings. */
  method HashFuncDefault(words: seq<bv32>) returns (h: nat)
    ensures h == Hash(words) == SumOfMixes(words) % 0x1_0000_0000
  {
    hide *;
    HashIsSum(words);
    h := 0;
    assert words[..0] == [] && Hash([]) == 0 by { HashEmpty(); }
    for i := 0 to |words|
      invariant h == Hash(words[..i])
    {
      var part := Mix(words[i]);
      HashPrefix(words, i);
      h := Plus(h, Num(part));
    }
    assert words[..|words|] == words;
  }

  lemma HashEmpty()
    ensures Hash([]) == 0
  {}

  lemma HashOne(a: bv32)
    ensures Hash([a]) == Num(Mix(a))
  {
    hide Mix, Num;
    assert [a][..0] == [];
  }

  lemma HashLast(words: seq<bv32>)
    requires words != []
    ensures Hash(words) == Plus(Hash(words[..|words| - 1]), Num(Mix(words[|words| - 1])))
  {
    hide Mix, Plus, Num;
  }

  /** Any word can be taken out of the sum. */
  lemma {:induction false} HashWithout(words: seq<bv32>, i: nat)
    requires i < |words|
    ensures Hash(words) == Plus(Hash(words[..i] + words[i + 1..]), Num(Mix(words[i])))
    decreases |words|
  {
    hide *;
    var n := |words| - 1;
    var rest := words[..i] + words[i + 1..];
    HashLast(words);
    if i == n {
      assert rest == words[..n];
    } else {
      var front := words[..n];
      HashWithout(front, i);
      HashLast(rest);
      assert rest[..|rest| - 1] == front[..i] + front[i + 1..];
      assert rest[|rest| - 1] == words[n] && front[i] == words[i];
      PlusSwaps(Hash(front[..i] + front[i + 1..]), Num(Mix(words[i])), Num(Mix(words[n])));
    }
  }

  /** A table with one-word keys never sees two distinct keys with the same full hash. */
  lemma OneWordKeysNeverCollide(a: bv32, b: bv32)
    ensures Hash([a]) == Hash([b]) <==> a == b
  {
    hide *;
    HashOne(a);
    HashOne(b);
    NumInjective(Mix(a), Mix(b));
    UnmixMix(a);
    UnmixMix(b);
  }

  /** Longer keys do collide: the sum does not see the order of the words. */
  lemma {:induction false} WordOrderIsLost(a: seq<bv32>, b: seq<bv32>)
    requires multiset(a) == multiset(b)
    ensures Hash(a) == Hash(b)
    decreases |a|
  {
    hide *;
    if a == [] {
      assert |b| == |multiset(b)| == |multiset(a)| == 0;
    } else {
      var n := |a| - 1;
      assert a[n] in multiset(a);
      var j :| 0 <= j < |b| && b[j] == a[n];
      WithoutOne(a, n);
      WithoutOne(b, j);
      WordOrderIsLost(a[..n] + a[n + 1..], b[..j] + b[j + 1..]);
      HashWithout(a, n);
      HashWithout(b, j);
    }
  }

  lemma WithoutOne(words: seq<bv32>, i: nat)
    requires i < |words|
    ensures multiset(words[..i] + words[i + 1..]) == multiset(words) - multiset{words[i]}
  {
    hide *;
    assert words == words[..i] + [words[i]] + words[i + 1..];
  }
}
