/** The swap chain of pvr/omaplfb_displayclass.c: buffers of a size that suits both the GPU and the
    frame buffer driver, one after the other in the frame buffer. */
module SwapChain {

  const PAGE := 4096
  const U32 := 0x1_0000_0000
  const STRIDE_LIMIT := 0x10_0000   // strides below this many bytes can be multiplied by PAGE

  // ---------------------------------------------------------------- divisors and multiples

  predicate Divides(d: nat, n: nat) { 0 < d && n % d == 0 }

  /** Multiplying by a positive number keeps the order. */
  lemma Order(d: nat, x: int, y: int)
    requires 0 < d
    ensures x <= y <==> d * x <= d * y
    ensures x < y ==> d * x + d <= d * y
  {
    if x < y {
      Below(d, x, y);
    } else if y < x {
      Below(d, y, x);
    }
  }

  lemma Below(d: nat, x: int, y: int)
    requires 0 < d && x < y
    ensures d * x + d <= d * y
  {
    var k := y - x - 1;
    assert d * y == d * x + d + d * k by {
      assert y == x + 1 + k;
    }
    assert 0 <= d * k;
  }

  lemma Exactly(n: nat, d: nat, k: nat)
    requires 0 < d && n == d * k
    ensures n % d == 0 && n / d == k
  {
    var q, r := n / d, n % d;
    assert n == d * q + r;
    assert d * (k - q) == r;
    Order(d, q, k);
    Order(d, k, q);
  }

  lemma Quotient(n: nat, d: nat)
    requires Divides(d, n)
    ensures n == d * (n / d)
  {}

  /** g divides both numbers and is a combination of them: it is their greatest common divisor, and
      every common divisor divides it. */
  ghost predicate IsGcd(g: nat, a: nat, b: nat, u: int, v: int) {
    Divides(g, a) && Divides(g, b) && g == u * a + v * b
  }

  lemma GcdIsGreatest(g: nat, a: nat, b: nat, u: int, v: int, d: nat)
    requires IsGcd(g, a, b, u, v) && Divides(d, a) && Divides(d, b)
    ensures Divides(d, g) && d <= g
  {
    Quotient(a, d);
    Quotient(b, d);
    var c := u * (a / d) + v * (b / d);
    Combined(d, a / d, b / d, u, v);
    Order(d, c, 0);
    Exactly(g, d, c);
    Order(d, 1, c);
  }

  lemma Combined(d: nat, x: nat, y: nat, u: int, v: int)
    ensures u * (d * x) + v * (d * y) == d * (u * x + v * y)
  {
    assert u * (d * x) == d * (u * x);
    assert v * (d * y) == d * (v * y);
  }

  /** A common multiple that divides all common multiples. */
  ghost predicate IsLcm(l: nat, a: nat, b: nat) {
    && 0 < l && Divides(a, l) && Divides(b, l)
    && forall m: nat {:trigger Divides(a, m)} :: Divides(a, m) && Divides(b, m) ==> Divides(l, m)
  }

  lemma LcmFromGcd(a: nat, b: nat, g: nat, u: int, v: int)
    requires 0 < a && 0 < b && IsGcd(g, a, b, u, v)
    ensures (a * b) % g == 0 && IsLcm(a * b / g, a, b)
  {
    var s, p := a / g, b / g;
    Quotient(a, g);
    Quotient(b, g);
    assert a * b == g * (s * b) by { assert (g * s) * b == g * (s * b); }
    Exactly(a * b, g, s * b);
    var l := s * b;
    assert l == a * p by { assert s * (g * p) == (g * s) * p; }
    Order(g, s, 0);
    Order(b, s, 0);
    Exactly(l, b, s);
    Exactly(l, a, p);
    forall m: nat | Divides(a, m) && Divides(b, m)
      ensures Divides(l, m)
    {
      MultipleOfLcm(a, b, g, u, v, s, l, m);
    }
  }

  lemma MultipleOfLcm(a: nat, b: nat, g: nat, u: int, v: int, s: nat, l: nat, m: nat)
    requires 0 < a && 0 < b && 0 < g && g == u * a + v * b && a == g * s && l == s * b && 0 < l
    requires Divides(a, m) && Divides(b, m)
    ensures Divides(l, m)
  {
    var x, y := m / a, m / b;
    Quotient(m, a);
    Quotient(m, b);
    var k := u * y + v * x;
    Scaled(a, b, u, v, x, y, m);
    assert a * b == g * l by { assert (g * s) * b == g * (s * b); }
    assert (g * l) * k == g * (l * k);
    Order(g, m, l * k);
    Order(g, l * k, m);
    Order(l, 0, k);
    Exactly(m, l, k);
  }

  lemma Scaled(a: nat, b: nat, u: int, v: int, x: nat, y: nat, m: nat)
    requires m == a * x && m == b * y
    ensures (u * a + v * b) * m == (a * b) * (u * y + v * x)
  {
    assert (u * a) * (b * y) == (a * b) * (u * y);
    assert (v * b) * (a * x) == (a * b) * (v * x);
  }

  ghost predicate Combination(n: nat, a: nat, b: nat, u: int, v: int) {
    n == u * a + v * b
  }

  /** Whatever divides a and b divides a0 and b0. */
  ghost predicate NoNewDivisors(a0: nat, b0: nat, a: nat, b: nat) {
    forall d: nat {:trigger Divides(d, a)} {:trigger Divides(d, b)} ::
      Divides(d, a) && Divides(d, b) ==> Divides(d, a0) && Divides(d, b0)
  }

  /** gcd: Euclid's algorithm, with the combination it comes from. */
  method Gcd(a0: nat, b0: nat) returns (g: nat, ghost u: int, ghost v: int)
    requires 0 < a0 && 0 < b0
    ensures Divides(g, a0) && Divides(g, b0)
    ensures forall d: nat {:trigger Divides(d, a0)} :: Divides(d, a0) && Divides(d, b0) ==> Divides(d, g) && d <= g
    ensures IsGcd(g, a0, b0, u, v)
  {
    assert Combination(a0, a0, b0, 1, 0) && Combination(b0, a0, b0, 0, 1);
    assert NoNewDivisors(a0, b0, a0, b0) && NoNewDivisors(a0, b0, b0, a0);
    hide Combination, NoNewDivisors;
    var a, b := a0, b0;
    ghost var ua: int, va: int, ub: int, vb: int := 1, 0, 0, 1;
    if a < b {
      a, b := b, a;
      ua, va, ub, vb := 0, 1, 1, 0;
    }
    var r := a % b;
    while r != 0
      invariant 0 < b && r == a % b
      invariant Combination(a, a0, b0, ua, va) && Combination(b, a0, b0, ub, vb) && NoNewDivisors(a0, b0, a, b)
      decreases b
    {
      ghost var q := a / b;
      EuclidStep(a0, b0, a, b, ua, va, ub, vb);
      ua, va, ub, vb := ub, vb, ua - q * ub, va - q * vb;
      a, b := b, r;
      r := a % b;
    }
    EuclidEnds(a0, b0, a, b, ub, vb);
    forall d: nat | Divides(d, a0) && Divides(d, b0)
      ensures Divides(d, b) && d <= b
    {
      GcdIsGreatest(b, a0, b0, ub, vb, d);
    }
    return b, ub, vb;
  }

  lemma EuclidEnds(a0: nat, b0: nat, a: nat, b: nat, u: int, v: int)
    requires 0 < b && a % b == 0 && Combination(b, a0, b0, u, v) && NoNewDivisors(a0, b0, a, b)
    ensures IsGcd(b, a0, b0, u, v)
  {
    assert Divides(b, a) && Divides(b, b);
  }

  lemma EuclidStep(a0: nat, b0: nat, a: nat, b: nat, ua: int, va: int, ub: int, vb: int)
    requires 0 < b && NoNewDivisors(a0, b0, a, b)
    requires Combination(a, a0, b0, ua, va) && Combination(b, a0, b0, ub, vb)
    ensures Combination(a % b, a0, b0, ua - a / b * ub, va - a / b * vb) && NoNewDivisors(a0, b0, b, a % b)
    ensures 0 <= a % b < b
  {
    var q, r := a / b, a % b;
    assert a == q * b + r;
    RemainderCombination(a0, b0, a, b, q, ua, va, ub, vb);
    forall d: nat | Divides(d, b) && Divides(d, r)
      ensures Divides(d, a0) && Divides(d, b0)
    {
      BackStep(a, b, q, r, d);
    }
  }

  lemma RemainderCombination(a0: nat, b0: nat, a: nat, b: nat, q: nat, ua: int, va: int, ub: int, vb: int)
    requires a == ua * a0 + va * b0 && b == ub * a0 + vb * b0
    ensures a - q * b == (ua - q * ub) * a0 + (va - q * vb) * b0
  {
    assert q * b == q * (ub * a0) + q * (vb * b0);
    assert (ua - q * ub) * a0 == ua * a0 - q * (ub * a0);
    assert (va - q * vb) * b0 == va * b0 - q * (vb * b0);
  }

  lemma BackStep(a: nat, b: nat, q: nat, r: nat, d: nat)
    requires a == q * b + r && Divides(d, b) && Divides(d, r)
    ensures Divides(d, a)
  {
    Quotient(b, d);
    Quotient(r, d);
    assert q * (d * (b / d)) == d * (q * (b / d));
    Exactly(a, d, q * (b / d) + r / d);
  }

  // ---------------------------------------------------------------- the size of a buffer

  /** A number the code computes, unless it divides by zero. */
  datatype Outcome = Value(v: nat) | Trap

  /** The least size that both the page size and the stride divide. */
  ghost predicate LeastAligned(stride: nat, size: nat, r: nat) {
    && size <= r && Divides(stride, r) && Divides(PAGE, r)
    && forall m: nat {:trigger Divides(stride, m)} :: size <= m && Divides(stride, m) && Divides(PAGE, m) ==> r <= m
  }

  /** The product divided by the greatest common divisor. */
  function Multiple(stride: nat, g: nat): nat
    requires 0 < g
  {
    stride * PAGE / g
  }

  /** The same as the code computes it: the product is cut to 32 bits. */
  function MultipleIn32Bits(stride: nat, g: nat): nat
    requires 0 < g
  {
    stride * PAGE % U32 / g
  }

  /** The least common multiple in sgx_buffer_align, whose product is cut to 32 bits.  It is that of
      the stride modulo 1 MB: right exactly if the product fits, and zero exactly if nothing of the
      product is left. */
  method CommonMultiple(stride: nat) returns (lcm: nat, ghost full: nat)
    requires 0 < stride < U32
    ensures IsLcm(lcm, stride, PAGE) <==> stride < STRIDE_LIMIT
    ensures lcm < U32 && (lcm == 0 <==> stride % STRIDE_LIMIT == 0)
    ensures lcm != 0 ==> IsLcm(lcm, stride % STRIDE_LIMIT, PAGE)
    ensures IsLcm(full, stride, PAGE) && lcm <= full
  {
    hide IsGcd, IsLcm, Divides, Multiple, MultipleIn32Bits;
    var g;
    ghost var u, v;
    g, u, v := Gcd(stride, PAGE);
    GcdOfPage(stride, g, u, v);
    CutMultiple(stride, g, u, v);
    full := Multiple(stride, g);
    lcm := MultipleIn32Bits(stride, g);
  }

  /** What is left of the multiple when the product is cut. */
  lemma CutMultiple(stride: nat, g: nat, u: int, v: int)
    requires 0 < stride < U32 && 0 < g <= PAGE && IsGcd(g, stride, PAGE, u, v)
    ensures var full, lcm := Multiple(stride, g), MultipleIn32Bits(stride, g);
            && (IsLcm(lcm, stride, PAGE) <==> stride < STRIDE_LIMIT)
            && lcm < U32 && (lcm == 0 <==> stride % STRIDE_LIMIT == 0)
            && (lcm != 0 ==> IsLcm(lcm, stride % STRIDE_LIMIT, PAGE))
            && IsLcm(full, stride, PAGE) && lcm <= full
  {
    hide IsLcm, Divides;
    var full, lcm := Multiple(stride, g), MultipleIn32Bits(stride, g);
    CutProduct(stride);
    LcmFromGcd(stride, PAGE, g, u, v);
    WrapsToZero(stride, g);
    NotLarger(stride * PAGE % U32, g);
    var w := stride % STRIDE_LIMIT;
    if w != 0 {
      var c := stride / STRIDE_LIMIT * 256;
      GcdOfRest(g, stride, PAGE, w, c, u, v);
      LcmFromGcd(w, PAGE, g, u, u * c + v);
    }
    if stride >= STRIDE_LIMIT {
      DividesProduct(g, stride, u, v);
      Shorter(stride * PAGE, g);
      LcmIsUnique(stride, lcm, full);
    }
  }

  /** The product is cut to that of the stride modulo 1 MB. */
  lemma CutProduct(stride: nat)
    ensures stride * PAGE % U32 == stride % STRIDE_LIMIT * PAGE < U32
    ensures stride < STRIDE_LIMIT ==> stride % STRIDE_LIMIT == stride && stride * PAGE % U32 == stride * PAGE
    ensures stride >= STRIDE_LIMIT ==> U32 <= stride * PAGE
    ensures stride == stride / STRIDE_LIMIT * 256 * PAGE + stride % STRIDE_LIMIT
  {
    var k, w := stride / 0x10_0000, stride % 0x10_0000;
    assert stride == 0x10_0000 * k + w;
    assert stride * 4096 == 0x1_0000_0000 * k + w * 4096;
  }

  lemma NotLarger(n: nat, g: nat)
    requires 0 < g
    ensures 0 <= n / g <= n
  {
    var q := n / g;
    assert n == g * q + n % g;
    Order(g, q, -1);
    if q > 0 {
      Below(q, 0, g);
    }
  }

  lemma DividesProduct(g: nat, stride: nat, u: int, v: int)
    requires IsGcd(g, stride, PAGE, u, v)
    ensures stride * PAGE % g == 0
  {
    Quotient(stride, g);
    var q := stride / g;
    assert g * q * PAGE == g * (q * PAGE);
    Exactly(stride * PAGE, g, q * PAGE);
  }

  /** A number and what is left of it modulo a multiple of b have the same greatest common divisor
      with b. */
  lemma GcdOfRest(g: nat, a: nat, b: nat, w: nat, c: nat, u: int, v: int)
    requires IsGcd(g, a, b, u, v) && a == c * b + w
    ensures IsGcd(g, w, b, u, u * c + v)
  {
    assert u * w + (u * c + v) * b == u * a + v * b by {
      assert u * (c * b + w) == u * (c * b) + u * w;
      assert u * (c * b) == u * c * b;
      assert (u * c + v) * b == u * c * b + v * b;
    }
    DividesRest(g, a, b, w, c);
  }

  lemma DividesRest(g: nat, a: nat, b: nat, w: nat, c: nat)
    requires Divides(g, a) && Divides(g, b) && a == c * b + w
    ensures Divides(g, w)
  {
    Quotient(a, g);
    Quotient(b, g);
    var x, y := a / g, b / g;
    assert c * (g * y) == g * (c * y);
    var z: int := x - c * y;
    assert w == g * z;
    Order(g, 0, z);
    Order(g, z, -1);
    Exactly(w, g, z);
  }

  lemma GcdOfPage(stride: nat, g: nat, u: int, v: int)
    requires IsGcd(g, stride, PAGE, u, v)
    ensures 0 < g <= PAGE
  {}

  lemma Shorter(n: nat, g: nat)
    requires U32 <= n && 0 < g <= PAGE && n % g == 0
    ensures n % U32 / g < n / g
  {
    var m := n % U32;
    assert m <= n - U32 by {
      assert n == U32 * (n / U32) + m;
    }
    assert n == g * (n / g);
    assert m == g * (m / g) + m % g;
    Order(g, n / g, m / g);
  }

  lemma LcmIsUnique(stride: nat, l: nat, m: nat)
    requires 0 < stride && IsLcm(m, stride, PAGE) && l < m
    ensures !IsLcm(l, stride, PAGE)
  {
    assert 0 < l < m ==> !Divides(m, l);
  }

  lemma WrapsToZero(stride: nat, g: nat)
    requires 0 < g <= PAGE
    ensures stride * PAGE % U32 / g == 0 <==> stride % STRIDE_LIMIT == 0
  {
    CutProduct(stride);
    if stride % STRIDE_LIMIT > 0 {
      AtLeastOne(stride % STRIDE_LIMIT * PAGE, g);
    } else {
      SmallQuotient(0, g);
    }
  }

  lemma AtLeastOne(n: nat, g: nat)
    requires 0 < g <= n
    ensures n / g > 0
  {}

  /** The sum in roundup fits into 32 bits. */
  ghost predicate RoundingFits(stride: nat, size: nat) {
    exists l: nat {:trigger IsLcm(l, stride, PAGE)} :: IsLcm(l, stride, PAGE) && size + l - 1 < U32
  }

  /** sgx_buffer_align.  It returns the least size that suits the page size and the stride modulo
      1 MB, or 0 if the sum in roundup does not fit into 32 bits.  For strides below 1 MB that is the
      size wanted, and for any stride it is so exactly if the stride divides it. */
  method BufferAlign(stride: nat, size: nat) returns (r: Outcome)
    requires stride < U32 && size < U32
    ensures r.Trap? <==> Traps(stride, size)
    ensures stride == 0 || size == 0 ==> r == Value(0)
    ensures r.Value? ==> r.v < U32 && (r.v == 0 <==> NoSize(stride, size))
    ensures r.Value? && r.v != 0 ==> LeastAligned(stride % STRIDE_LIMIT, size, r.v)
    ensures r.Value? && r.v != 0 ==> (LeastAligned(stride, size, r.v) <==> Divides(stride, r.v))
    ensures r.Value? && r.v != 0 ==> (LeastAligned(stride, size, r.v) <==> SuitsResidue(stride, size))
  {
    hide IsLcm, LeastAligned, RoundingFits, SuitsResidue;
    if stride == 0 || size == 0 {
      return Value(0);
    }
    ghost var full;
    var lcm;
    lcm, full := CommonMultiple(stride);
    if lcm == 0 {
      return Trap;
    }
    var rounded := RoundedUp(size, lcm);
    FitsWithLcm(stride % STRIDE_LIMIT, size, lcm);
    RoundUp(stride % STRIDE_LIMIT, size, lcm);
    if size + lcm - 1 < U32 {
      ResidueWillDo(stride, size, lcm, full);
      OnlyOneLeast(stride, size, rounded);
    }
    return Value(rounded);
  }

  /** The stride divides the least size for what is left of it modulo 1 MB. */
  ghost predicate SuitsResidue(stride: nat, size: nat) {
    exists m: nat {:trigger LeastAligned(stride % STRIDE_LIMIT, size, m)} ::
      LeastAligned(stride % STRIDE_LIMIT, size, m) && Divides(stride, m)
  }

  lemma OnlyOneLeast(stride: nat, size: nat, r: nat)
    requires LeastAligned(stride % STRIDE_LIMIT, size, r)
    ensures SuitsResidue(stride, size) <==> Divides(stride, r)
  {
    var w := stride % STRIDE_LIMIT;
    forall m: nat | LeastAligned(w, size, m)
      ensures m == r
    {
      assert Divides(w, m) && Divides(w, r);
    }
  }

  /** A non-zero stride of which nothing is left modulo 1 MB makes the code divide by zero. */
  predicate Traps(stride: nat, size: nat) {
    stride != 0 && size != 0 && stride % STRIDE_LIMIT == 0
  }

  /** No size can be given. */
  ghost predicate NoSize(stride: nat, size: nat) {
    stride == 0 || size == 0 || !RoundingFits(stride % STRIDE_LIMIT, size)
  }

  /** The least size for a smaller multiple is the least for a larger one exactly if it is a multiple
      of the stride at all. */
  lemma ResidueWillDo(stride: nat, size: nat, lcm: nat, full: nat)
    requires 0 < stride && 0 < size && 0 < lcm <= full && IsLcm(full, stride, PAGE)
    requires LeastAligned(stride % STRIDE_LIMIT, size, (size + lcm - 1) / lcm * lcm)
    ensures var r := (size + lcm - 1) / lcm * lcm;
            0 < r && (LeastAligned(stride, size, r) <==> Divides(stride, r))
  {
    var r := (size + lcm - 1) / lcm * lcm;
    assert size <= r < size + lcm by {
      assert size + lcm - 1 == lcm * ((size + lcm - 1) / lcm) + (size + lcm - 1) % lcm;
    }
    if Divides(stride, r) {
      forall m: nat | size <= m && Divides(stride, m) && Divides(PAGE, m)
        ensures r <= m
      {
        Quotient(m, full);
        Quotient(r, full);
        Order(full, m / full, r / full);
      }
    }
  }

  lemma OwnMultiple(stride: nat, size: nat)
    requires 0 < stride && stride % PAGE == 0 && size + stride - 1 < U32
    ensures RoundingFits(stride, size)
  {
    assert Divides(stride, stride);
    assert IsLcm(stride, stride, PAGE);
  }

  /** The least aligned size is known by being one that is less than a stride too large. */
  lemma LeastIs(stride: nat, size: nat, r: nat, m: nat)
    requires LeastAligned(stride, size, r) && Divides(stride, m) && Divides(PAGE, m) && size <= m < size + stride
    ensures r == m
  {
    Quotient(r, stride);
    Quotient(m, stride);
    Order(stride, r / stride, m / stride);
  }

  /** Above 1 MB either is possible: for a stride of 0x101000 bytes 600 lines get the right size, and
      for one of 0x103000 bytes a single line does not. */
  method AboveTheLimit() returns (right: Outcome, wrong: Outcome)
    ensures right == Value(600 * 0x10_1000) && LeastAligned(0x10_1000, 600 * 0x10_1000, right.v)
    ensures wrong == Value(0x10_5000) && !LeastAligned(0x10_3000, 0x10_3000, wrong.v)
  {
    hide LeastAligned, RoundingFits;
    OwnMultiple(0x1000, 600 * 0x10_1000);
    right := BufferAlign(0x10_1000, 600 * 0x10_1000);
    LeastIs(0x1000, 600 * 0x10_1000, right.v, 600 * 0x10_1000);
    OwnMultiple(0x3000, 0x10_3000);
    wrong := BufferAlign(0x10_3000, 0x10_3000);
    LeastIs(0x3000, 0x10_3000, wrong.v, 0x10_5000);
  }

  /** roundup, in 32-bit arithmetic. */
  method RoundedUp(size: nat, lcm: nat) returns (r: nat)
    requires 0 < lcm < U32 && 0 < size < U32
    ensures r < U32 && r == if size + lcm - 1 < U32 then (size + lcm - 1) / lcm * lcm else 0
  {
    var sum := (size + lcm - 1) % U32;
    RoundedIsSmaller(sum, lcm);
    r := sum / lcm * lcm % U32;
    if size + lcm - 1 >= U32 {
      assert sum < lcm;
      SmallQuotient(sum, lcm);
    }
  }

  lemma FitsWithLcm(stride: nat, size: nat, lcm: nat)
    requires 0 < stride && IsLcm(lcm, stride, PAGE)
    ensures RoundingFits(stride, size) <==> size + lcm - 1 < U32
  {
    SameLcm(stride, lcm);
    hide IsLcm;
  }

  lemma RoundedIsSmaller(sum: nat, lcm: nat)
    requires 0 < lcm && sum < U32
    ensures 0 <= sum / lcm * lcm < U32
  {
    assert sum == lcm * (sum / lcm) + sum % lcm;
  }

  lemma SmallQuotient(sum: nat, lcm: nat)
    requires sum < lcm
    ensures sum / lcm == 0
  {}

  lemma SameLcm(stride: nat, lcm: nat)
    requires 0 < stride && IsLcm(lcm, stride, PAGE)
    ensures forall l: nat {:trigger IsLcm(l, stride, PAGE)} :: IsLcm(l, stride, PAGE) ==> l == lcm
  {
    forall l: nat | IsLcm(l, stride, PAGE)
      ensures l == lcm
    {
      if l < lcm {
        LcmIsUnique(stride, l, lcm);
      } else if lcm < l {
        LcmIsUnique(stride, lcm, l);
      }
    }
  }

  lemma RoundUp(stride: nat, size: nat, lcm: nat)
    requires 0 < stride && 0 < size && IsLcm(lcm, stride, PAGE)
    ensures LeastAligned(stride, size, (size + lcm - 1) / lcm * lcm)
  {
    var q := (size + lcm - 1) / lcm;
    var r := q * lcm;
    assert size <= r < size + lcm by {
      assert size + lcm - 1 == lcm * q + (size + lcm - 1) % lcm;
    }
    MultipleOf(r, lcm, q, stride);
    MultipleOf(r, lcm, q, PAGE);
    forall m: nat | size <= m && Divides(stride, m) && Divides(PAGE, m)
      ensures r <= m
    {
      assert Divides(lcm, m);
      Quotient(m, lcm);
      Order(lcm, m / lcm, q);
    }
  }

  lemma MultipleOf(r: nat, lcm: nat, q: nat, d: nat)
    requires r == q * lcm && Divides(d, lcm)
    ensures Divides(d, r)
  {
    Quotient(lcm, d);
    assert q * (d * (lcm / d)) == d * (q * (lcm / d));
    Exactly(r, d, q * (lcm / d));
  }

  // ---------------------------------------------------------------- the swap chain

  datatype Error = OK | NOT_SUPPORTED | FLIP_CHAIN_EXISTS | TOOMANYBUFFERS | INVALID_PARAMS | OUT_OF_MEMORY | NO_EVENTS

  /** struct OMAPLFB_BUFFER; the next buffer by its index. */
  datatype Buffer = Buffer(sysAddr: nat, cpuAddr: nat, sync: nat, next: nat)

  datatype Option<T> = None | Some(value: T)

  /** The buffer shown after buffer i. */
  function NextOf(i: nat, count: nat): nat { if i + 1 == count then 0 else i + 1 }

  /** The buffer shown k flips after the first one. */
  function Shown(b: seq<Buffer>, k: nat): nat {
    if k == 0 then 0 else
      var i := Shown(b, k - 1);
      if i < |b| then b[i].next else i
  }

  /** Following the links from the first buffer on shows every buffer once and comes back. */
  ghost predicate IsRing(b: seq<Buffer>) {
    && (forall k: nat {:trigger Shown(b, k)} :: k < |b| ==> Shown(b, k) == k)
    && Shown(b, |b|) == 0
  }

  lemma RingCloses(b: seq<Buffer>)
    requires b != [] && forall i: nat {:trigger b[i]} :: i < |b| ==> b[i].next == NextOf(i, |b|)
    ensures IsRing(b)
  {
    forall k: nat | k < |b|
      ensures Shown(b, k) == k
    {
      InOrder(b, k);
    }
    InOrder(b, |b| - 1);
  }

  lemma {:induction false} InOrder(b: seq<Buffer>, k: nat)
    requires k < |b| && forall i: nat {:trigger b[i]} :: i < |b| ==> b[i].next == NextOf(i, |b|)
    ensures Shown(b, k) == k
  {
    if k > 0 {
      InOrder(b, k - 1);
    }
  }

  /** Where buffer i starts in the frame buffer. */
  function Offset(i: nat, rounded: nat): nat { i * rounded }

  class Display {
    const sysAddr: nat
    const cpuAddr: nat
    const fbSize: nat
    const stride: nat
    const height: nat
    var rounded: nat
    var maxBuffers: nat
    var maxChains: nat
    var yresVirtual: nat
    var yoffset: nat
    var chain: Option<array<Buffer>>

    /** The chains whose memory was freed. */
    ghost var dead: set<array<Buffer>>

    /** ui32BufferSize */
    function Size(): nat { stride * height % U32 }

    /** The size of a buffer is what sgx_buffer_align gives, and the number of buffers follows. */
    ghost predicate Sized()
      reads this
    {
      && stride < U32 && fbSize < U32
      && maxBuffers == (if rounded == 0 then 0 else fbSize / rounded)
      && maxChains == (if maxBuffers == 0 then 0 else 1)
      && (rounded == 0 <==> NoSize(stride, Size()))
      && (rounded != 0 ==> LeastAligned(stride % STRIDE_LIMIT, Size(), rounded))
    }

    /** The swap chain that is recorded can be used. */
    ghost predicate Usable()
      reads this, if chain.Some? then {chain.value} else {}
    {
      chain.Some? && chain.value !in dead && Good(chain.value)
    }

    /** A chain of that many buffers fits into the frame buffer. */
    ghost predicate HasRoom(count: nat)
      reads this`rounded
    {
      0 < rounded && Offset(count, rounded) <= fbSize
    }

    /** Buffer i starts i buffer sizes after the start of the frame buffer, and the next one to be
        shown is the one after it. */
    ghost predicate Placed(b: array<Buffer>, i: nat)
      reads this`rounded, b
    {
      && i < b.Length && b[i].cpuAddr == cpuAddr + Offset(i, rounded)
      && b[i].sysAddr == (sysAddr + Offset(i, rounded)) % U32
      && b[i].next == NextOf(i, b.Length)
    }

    ghost predicate InFrameBuffer(b: array<Buffer>)
      reads this`rounded
    {
      Offset(b.Length, rounded) <= fbSize && 0 < rounded
    }

    ghost predicate Good(b: array<Buffer>)
      reads this`rounded, b
    {
      InFrameBuffer(b) && forall i: nat {:trigger b[i]} :: i < b.Length ==> Placed(b, i)
    }

    /** SetDevinfo, with CalcSwapChainSize: the description of the frame buffer gives the size of a
        buffer and how many there can be, unless the code divides by zero. */
    constructor (sysAddr: nat, cpuAddr: nat, fbSize: nat, stride: nat, yres: nat, yresVirtual: nat)
      requires stride < U32 && fbSize < U32 && !Traps(stride, stride * yres % U32)
      ensures Sized() && chain == None && dead == {}
      ensures this.stride == stride && this.height == yres && this.fbSize == fbSize
      ensures this.sysAddr == sysAddr && this.cpuAddr == cpuAddr && this.yresVirtual == yresVirtual && yoffset == 0
      ensures stride < STRIDE_LIMIT && rounded != 0 ==> LeastAligned(stride, Size(), rounded)
    {
      hide LeastAligned, NoSize;
      this.sysAddr, this.cpuAddr, this.fbSize, this.stride, this.height := sysAddr, cpuAddr, fbSize, stride, yres;
      chain, yoffset, this.yresVirtual, dead := None, 0, yresVirtual, {};
      var size := stride * yres % U32;
      var aligned := BufferAlign(stride, size);
      rounded := aligned.v;
      if aligned.v != 0 {
        maxBuffers := fbSize / aligned.v;
      } else {
        maxBuffers := 0;
      }
      new;
      if maxBuffers == 0 {
        maxChains := 0;
      } else {
        maxChains := 1;
      }
    }

    /** The stride of a buffer size that is not 0 is not 0 either. */
    lemma StrideIsPositive()
      requires Sized() && rounded != 0
      ensures 0 < stride
      ensures stride < STRIDE_LIMIT ==> Divides(stride, rounded)
    {
      hide RoundingFits, Divides;
      if stride < STRIDE_LIMIT {
        CutProduct(stride);
      }
    }

    /** CreateDCSwapChain, for at least one buffer; its caller asks for two or more.  If the
        registration for frame buffer events fails, the chain is freed but still recorded. */
    method Create(count: nat, sync: seq<nat>, attributesOk: bool, memOk: bool, eventsOk: bool) returns (e: Error)
      requires Sized() && 0 < count <= |sync| && count < U32
      modifies this`chain, this`yresVirtual, this`dead
      ensures Sized()
      ensures e == OK <==> HasRoom(count) && old(chain) == None && attributesOk && memOk && eventsOk
      ensures e == NO_EVENTS <==> HasRoom(count) && old(chain) == None && attributesOk && memOk && !eventsOk
      ensures e == FLIP_CHAIN_EXISTS <==> HasRoom(1) && old(chain) != None
      ensures e == NOT_SUPPORTED <==> !HasRoom(1)
      ensures e == TOOMANYBUFFERS <==> HasRoom(1) && old(chain) == None && !HasRoom(count)
      ensures e == INVALID_PARAMS <==> HasRoom(count) && old(chain) == None && !attributesOk
      ensures e == OUT_OF_MEMORY <==> HasRoom(count) && old(chain) == None && attributesOk && !memOk
      ensures e == OK ==>
                && Usable() && fresh(chain.value) && chain.value.Length == count
                && (forall i :: 0 <= i < count ==> chain.value[i].sync == sync[i])
                && Offset(count, rounded) / stride <= yresVirtual
                && yresVirtual in {old(yresVirtual), Offset(count, rounded) / stride}
                && old(yresVirtual) <= yresVirtual
      ensures e == NO_EVENTS ==> chain.Some? && fresh(chain.value) && dead == old(dead) + {chain.value}
      ensures e != NO_EVENTS ==> dead == old(dead)
      ensures e != OK && e != NO_EVENTS ==> chain == old(chain)
      ensures e != OK ==> yresVirtual == old(yresVirtual)
    {
      hide LeastAligned, NoSize;
      Fits(count, rounded, fbSize);
      Fits(1, rounded, fbSize);
      if maxChains == 0 {
        return NOT_SUPPORTED;
      }
      StrideIsPositive();
      if chain != None {
        return FLIP_CHAIN_EXISTS;
      }
      if count > maxBuffers {
        return TOOMANYBUFFERS;
      }
      // The product cannot have overflowed, so that the next test repeats the one above.
      ProductFits(count, rounded, fbSize);
      if rounded * count % U32 > fbSize {
        return TOOMANYBUFFERS;
      }
      if !attributesOk {
        return INVALID_PARAMS;
      }
      if !memOk {
        return OUT_OF_MEMORY;
      }
      var buffers := Fill(count, sync);
      chain := Some(buffers);
      if !eventsOk {
        dead := dead + {buffers};
        return NO_EVENTS;
      }
      var lines := rounded * count % U32 / stride;
      if yresVirtual < lines {
        yresVirtual := lines;
      }
      return OK;
    }

    /** DestroyDCSwapChain, for a handle that was given out and not destroyed yet. */
    method Destroy(c: array<Buffer>) returns (e: Error)
      requires c !in dead
      modifies this`chain, this`yoffset, this`dead
      ensures e == if old(chain) == Some(c) then OK else INVALID_PARAMS
      ensures e == OK ==> chain == None && yoffset == 0 && dead == old(dead) + {c}
      ensures e != OK ==> chain == old(chain) && yoffset == old(yoffset) && dead == old(dead)
    {
      if chain != Some(c) {
        return INVALID_PARAMS;
      }
      chain, yoffset := None, 0;
      dead := dead + {c};
      return OK;
    }

    /** The two loops over the new buffers. */
    method Fill(count: nat, sync: seq<nat>) returns (b: array<Buffer>)
      requires 0 < count <= |sync| && 0 < rounded && count * rounded <= fbSize < U32
      ensures fresh(b) && b.Length == count && Good(b) && forall i :: 0 <= i < count ==> b[i].sync == sync[i]
      ensures IsRing(b[..])
    {
      b := new Buffer[count](_ => Buffer(0, 0, 0, 0));
      var i := 0;
      while i < count - 1
        invariant i <= count - 1 && forall j :: 0 <= j < i ==> b[j].next == j + 1
      {
        b[i] := b[i].(next := i + 1);
        i := i + 1;
      }
      b[i] := b[i].(next := 0);
      Place(b, sync);
      RingCloses(b[..]);
    }

    method Place(b: array<Buffer>, sync: seq<nat>)
      requires b.Length <= |sync| && InFrameBuffer(b) && fbSize < U32
      requires forall j: nat {:trigger b[j]} :: j < b.Length ==> b[j].next == NextOf(j, b.Length)
      modifies b
      ensures Good(b) && forall i :: 0 <= i < b.Length ==> b[i].sync == sync[i]
    {
      hide Offset;
      for i := 0 to b.Length
        invariant forall j: nat {:trigger b[j]} :: j < b.Length ==> b[j].next == NextOf(j, b.Length)
        invariant forall j: nat {:trigger b[j]} :: j < i ==>
                    && b[j].cpuAddr == cpuAddr + Offset(j, rounded) && b[j].sync == sync[j]
                    && b[j].sysAddr == (sysAddr + Offset(j, rounded)) % U32
      {
        OffsetFits(b, i);
        var offset := Offset(i, rounded) % U32;
        b[i] := b[i].(sync := sync[i], sysAddr := (sysAddr + offset) % U32, cpuAddr := cpuAddr + offset);
      }
      forall j: nat | j < b.Length
        ensures Placed(b, j)
      {
        assert b[j].next == NextOf(j, b.Length);
      }
    }

    /** The product that gives the offset does not overflow. */
    lemma OffsetFits(b: array<Buffer>, i: nat)
      requires i < b.Length && InFrameBuffer(b) && fbSize < U32
      ensures Offset(i, rounded) % U32 == Offset(i, rounded)
    {
      Order(rounded, i, b.Length);
    }

    /** ProcessFlip: the buffer is shown by moving the visible lines to it.  The division leaves no
        remainder exactly if the stride divides the buffer's offset, as for every stride below 1 MB,
        and then all lines of the buffer are among the virtual lines. */
    method Flip(i: nat)
      requires Sized() && Usable() && i < chain.value.Length
      modifies this`yoffset
      ensures yoffset * stride == Offset(i, rounded) <==> Divides(stride, Offset(i, rounded))
      ensures stride < STRIDE_LIMIT || Divides(stride, rounded) ==>
                && yoffset * stride == Offset(i, rounded)
                && (stride * height < U32 && Offset(chain.value.Length, rounded) / stride <= yresVirtual ==>
                      yoffset + height <= yresVirtual)
    {
      hide Sized, Offset, Divides;
      assert Placed(chain.value, i);
      StrideIsPositive();
      if Divides(stride, rounded) {
        FlipLines(i, chain.value.Length);
      }
      var offset := chain.value[i].cpuAddr - cpuAddr;
      yoffset := offset / stride;
      NoRemainder(offset, stride);
    }

    lemma FlipLines(i: nat, count: nat)
      requires Sized() && 0 < rounded && i < count && Divides(stride, rounded)
      ensures 0 < stride && Offset(i, rounded) / stride * stride == Offset(i, rounded)
      ensures stride * height < U32 ==> Offset(i, rounded) / stride + height <= Offset(count, rounded) / stride
    {
      assert stride * height < U32 ==> stride * height <= rounded;
      hide LeastAligned;
      LinesOf(i, stride, rounded);
      if stride * height < U32 {
        EnoughLines(i, count, stride, rounded, height);
      }
    }

    /** Different buffers share no byte of the frame buffer. */
    lemma BuffersAreDisjoint(b: array<Buffer>, i: nat, j: nat)
      requires Good(b) && i < j < b.Length
      ensures cpuAddr <= b[i].cpuAddr && b[i].cpuAddr + rounded <= b[j].cpuAddr
      ensures b[j].cpuAddr + rounded <= cpuAddr + fbSize
    {
      assert Placed(b, i) && Placed(b, j);
      Order(rounded, i, j);
      Order(rounded, j, b.Length);
    }
  }

  /** The requests that can follow. */
  datatype Call =
    | CreateCall(count: nat, sync: seq<nat>, attributesOk: bool, memOk: bool, eventsOk: bool)
    | DestroyCall(chain: array<Buffer>)

  /** Once the registration for events has failed, nothing helps any more: whatever chains are asked
      for, and whatever chains are destroyed, every request is refused and the dead chain stays. */
  method NothingHelps(d: Display, calls: seq<Call>) returns (results: seq<Error>)
    requires d.Sized() && d.HasRoom(1) && d.chain.Some? && d.chain.value in d.dead
    requires forall k :: 0 <= k < |calls| ==>
               match calls[k]
               case CreateCall(count, sync, _, _, _) => 0 < count <= |sync| && count < U32
               case DestroyCall(c) => c !in d.dead
    modifies d
    ensures d.chain == old(d.chain) && d.dead == old(d.dead) && |results| == |calls|
    ensures forall k :: 0 <= k < |calls| ==>
              results[k] == if calls[k].CreateCall? then FLIP_CHAIN_EXISTS else INVALID_PARAMS
  {
    hide LeastAligned, NoSize, Offset;
    results := [];
    for k := 0 to |calls|
      invariant d.Sized() && d.HasRoom(1) && d.chain == old(d.chain) && d.dead == old(d.dead) && |results| == k
      invariant forall j :: 0 <= j < k ==>
                  results[j] == if calls[j].CreateCall? then FLIP_CHAIN_EXISTS else INVALID_PARAMS
    {
      var e;
      match calls[k] {
        case CreateCall(count, sync, attributesOk, memOk, eventsOk) =>
          e := d.Create(count, sync, attributesOk, memOk, eventsOk);
        case DestroyCall(c) =>
          e := d.Destroy(c);
      }
      results := results + [e];
    }
  }

  /** It takes one failed registration: here, for two buffers of 16 lines in a frame buffer of 1 MB,
      after which the same request without any failure is refused. */
  method EventsFailOnce() returns (d: Display, first: Error, second: Error)
    ensures first == NO_EVENTS && second == FLIP_CHAIN_EXISTS
    ensures d.chain.Some? && d.chain.value in d.dead
  {
    OwnMultiple(4096, 0x1_0000);
    d := new Display(0, 0, 0x10_0000, 4096, 16, 16);
    assert Divides(4096, 0x1_0000);
    assert d.rounded == 0x1_0000;
    first := d.Create(2, [0, 0], true, true, false);
    second := d.Create(2, [0, 0], true, true, true);
  }

  lemma NoRemainder(n: nat, d: nat)
    requires 0 < d
    ensures n / d * d == n <==> Divides(d, n)
  {
    assert n == d * (n / d) + n % d;
  }

  lemma ProductFits(count: nat, rounded: nat, size: nat)
    requires count * rounded <= size < U32
    ensures rounded * count == Offset(count, rounded) && rounded * count % U32 == rounded * count
  {}

  /** As many buffers fit as the division says. */
  lemma Fits(count: nat, rounded: nat, size: nat)
    requires 0 < count
    ensures 0 < rounded ==> (count <= size / rounded <==> count * rounded <= size)
    ensures 0 < rounded ==> (size / rounded == 0 <==> size < rounded)
    ensures 0 < rounded ==> rounded <= count * rounded
  {
    if 0 < rounded {
      var q := size / rounded;
      assert size == rounded * q + size % rounded;
      Order(rounded, count, q);
      Order(rounded, q, count);
      Order(rounded, 1, count);
      Order(rounded, q, 0);
      Order(rounded, 1, q);
    }
  }

  /** Lines before buffer i. */
  lemma LinesOf(i: nat, stride: nat, rounded: nat)
    requires Divides(stride, rounded)
    ensures i * rounded / stride * stride == i * rounded && i * rounded / stride == i * (rounded / stride)
  {
    Quotient(rounded, stride);
    assert i * (stride * (rounded / stride)) == stride * (i * (rounded / stride));
    Exactly(i * rounded, stride, i * (rounded / stride));
  }

  lemma EnoughLines(i: nat, count: nat, stride: nat, rounded: nat, height: nat)
    requires i < count && Divides(stride, rounded) && stride * height <= rounded
    ensures i * rounded / stride + height <= count * rounded / stride
  {
    LinesOf(i, stride, rounded);
    LinesOf(count, stride, rounded);
    var lines := rounded / stride;
    Quotient(rounded, stride);
    Order(stride, height, lines);
    if lines > 0 {
      Order(lines, i, count);
    }
  }
}
