/**
 * Powers of polynomials (src/poly.rs `pow_n` and `pow_i`): repeated
 * multiplication as the reference definition, `pow_n` as the squaring loop
 * proved against it, and `pow_i`'s shortcuts proved to agree with it.
 */
module PolyPower {
  import opened Nodes
  import opened Wrappers
  import opened Monomials
  import opened Polys
  import opened PolyProduct
  import opened PolyRing

  /** `p` multiplied by itself `n` times; the empty product is `Poly::int(1)`. */
  ghost function PowR(p: PolyMap, n: nat): (r: PolyMap)
    requires NoZero(p)
    ensures NoZero(r)
    decreases n
  {
    if n == 0 then One() else Times(p, PowR(p, n - 1))
  }

  // The lemmas below only ever apply `PowR` to plain variables and relate
  // exponents through their preconditions: an exponent written as a sum or
  // difference inside `PowR` sends the solver into long searches.

  lemma PowCongr(p: PolyMap, n1: nat, n2: nat)
    requires NoZero(p) && n1 == n2
    ensures PowR(p, n1) == PowR(p, n2)
  {
  }

  lemma PowZero(p: PolyMap, n: nat)
    requires NoZero(p) && n == 0
    ensures PowR(p, n) == One()
  {
  }

  lemma PowSucc(p: PolyMap, n: nat, n1: nat)
    requires NoZero(p) && n1 == n + 1
    ensures PowR(p, n1) == Times(p, PowR(p, n))
  {
  }

  /** Powers of a canonical polynomial are canonical. */
  lemma {:induction false} PowCanonical(p: PolyMap, n: nat)
    requires Canonical(p)
    ensures Canonical(PowR(p, n))
    decreases n
  {
    if n > 0 {
      var n0 := n - 1;
      PowCanonical(p, n0);
      PowSucc(p, n0, n);
      TimesCanonical(p, PowR(p, n0));
    }
  }

  lemma PowOne(p: PolyMap)
    requires Canonical(p)
    ensures PowR(p, 1) == p
  {
    TimesOne(p);
  }

  lemma PowTwo(p: PolyMap)
    requires Canonical(p)
    ensures PowR(p, 2) == Times(p, p)
  {
    PowOne(p);
  }

  /** If `x = a·b`, `y = p·x` and `z = p·a`, then `y = z·b`. */
  lemma PeelFactor(p: PolyMap, a: PolyMap, b: PolyMap, x: PolyMap, y: PolyMap, z: PolyMap)
    requires Canonical(p) && Canonical(a) && Canonical(b)
    requires x == Times(a, b) && y == Times(p, x) && z == Times(p, a)
    ensures y == Times(z, b)
  {
    TimesAssoc(p, a, b);
  }

  lemma PowAddZero(p: PolyMap, m: nat, k: nat, n: nat)
    requires Canonical(p) && m == 0 && n == k
    ensures PowR(p, n) == Times(PowR(p, m), PowR(p, k))
  {
    PowCanonical(p, k);
    PowCongr(p, n, k);
    PowZero(p, m);
    TimesOne(PowR(p, k));
  }

  lemma PowAddStep(p: PolyMap, j: nat, m: nat, k: nat, n0: nat, n: nat)
    requires Canonical(p) && m == j + 1 && n == n0 + 1
    requires PowR(p, n0) == Times(PowR(p, j), PowR(p, k))
    ensures PowR(p, n) == Times(PowR(p, m), PowR(p, k))
  {
    PowCanonical(p, j);
    PowCanonical(p, k);
    PowSucc(p, n0, n);
    PowSucc(p, j, m);
    PeelFactor(p, PowR(p, j), PowR(p, k), PowR(p, n0), PowR(p, n), PowR(p, m));
  }

  /** `p^(m+k) == p^m · p^k` */
  lemma {:induction false} PowAdd(p: PolyMap, m: nat, k: nat, n: nat)
    requires Canonical(p) && n == m + k
    ensures PowR(p, n) == Times(PowR(p, m), PowR(p, k))
    decreases m
  {
    if m == 0 {
      PowAddZero(p, m, k, n);
    } else {
      var j, n0 := m - 1, n - 1;
      PowAdd(p, j, k, n0);
      PowAddStep(p, j, m, k, n0, n);
    }
  }

  lemma PowSquareStep(p: PolyMap, h0: nat, h: nat, n0: nat, n: nat)
    requires Canonical(p) && h == h0 + 1 && n == n0 + 2
    requires PowR(Times(p, p), h0) == PowR(p, n0)
    ensures PowR(Times(p, p), h) == PowR(p, n)
  {
    var two := 2;
    PowSucc(Times(p, p), h0, h);
    PowAdd(p, two, n0, n);
    PowTwo(p);
  }

  /** `(p·p)^h == p^(2h)`: squaring the base halves the exponent. */
  lemma {:induction false} PowSquare(p: PolyMap, h: nat, n: nat)
    requires Canonical(p) && n == 2 * h
    ensures Canonical(Times(p, p))
    ensures PowR(Times(p, p), h) == PowR(p, n)
    decreases h
  {
    TimesCanonical(p, p);
    if h == 0 {
      PowZero(Times(p, p), h);
      PowZero(p, n);
    } else {
      var h0, n0 := h - 1, n - 2;
      PowSquare(p, h0, n0);
      PowSquareStep(p, h0, h, n0, n);
    }
  }

  /** One round of the `pow_n` loop keeps `acc · base^k` unchanged. */
  lemma PowNStep(r: PolyMap, b: PolyMap, k: nat, h: nat)
    requires Canonical(r) && Canonical(b) && h == k / 2
    ensures Canonical(Times(b, b)) && Canonical(Times(r, b))
    ensures k % 2 == 1 ==>
      Times(Times(r, b), PowR(Times(b, b), h)) == Times(r, PowR(b, k))
    ensures k % 2 == 0 ==> PowR(Times(b, b), h) == PowR(b, k)
  {
    var n2 := 2 * h;
    PowSquare(b, h, n2);
    TimesCanonical(r, b);
    PowCanonical(b, n2);
    if k % 2 == 1 {
      PowSucc(b, n2, k);
      TimesAssoc(r, b, PowR(b, n2));
    } else {
      PowCongr(b, n2, k);
    }
  }

  /** The loop invariant of `pow_n` survives a round that multiplies `acc`
      by `base` when `k` is odd, halves `k` and squares `base`. */
  lemma PowNRound(p: PolyMap, n: nat, r: PolyMap, b: PolyMap, k: nat, h: nat, r1: PolyMap, b1: PolyMap)
    requires Canonical(p) && Canonical(r) && Canonical(b) && h == k / 2
    requires Times(r, PowR(b, k)) == PowR(p, n)
    requires b1 == Times(b, b) && r1 == (if k % 2 == 1 then Times(r, b) else r)
    ensures Canonical(r1) && Canonical(b1)
    ensures Times(r1, PowR(b1, h)) == PowR(p, n)
  {
    PowNStep(r, b, k, h);
    if k % 2 == 1 {
      assert r1 == Times(r, b);
    } else {
      assert r1 == r && PowR(b1, h) == PowR(b, k);
    }
  }

  /** `pow_n`: exponentiation by squaring. `acc` collects the factors for the
      odd bits of `n` while `base` is squared. */
  method PowN(p: PolyMap, n: nat) returns (r: PolyMap)
    requires Canonical(p)
    ensures r == PowR(p, n)
  {
    var b, k := p, n;
    r := One();
    PowCanonical(p, n);
    TimesOne(PowR(p, n));
    while k > 1
      invariant Canonical(r) && Canonical(b)
      invariant Times(r, PowR(b, k)) == PowR(p, n)
      decreases k
    {
      ghost var r0, b0, k0 := r, b, k;
      if k % 2 == 1 {
        r := Mul(r, b);
      }
      k := k / 2;
      b := Mul(b, b);
      PowNRound(p, n, r0, b0, k0, k, r, b);
    }
    if k == 1 {
      PowOne(b);
      r := Mul(r, b);
    } else {
      PowZero(b, k);
      TimesOne(r);
    }
  }

  /** A power mentions no node its base does not. */
  lemma {:induction false} PowRHandles(p: PolyMap, n: nat)
    requires Canonical(p)
    ensures PolyHandles(PowR(p, n)) <= PolyHandles(p)
    decreases n
  {
    if n == 0 {
      PowZero(p, n);
      assert PolyHandles(One()) == {};
    } else {
      var n0 := n - 1;
      PowRHandles(p, n0);
      PowCanonical(p, n0);
      PowSucc(p, n0, n);
      TimesCanonical(p, PowR(p, n0));
    }
  }

  /** `r^n` for a natural `n`. */
  function NatPow(r: real, n: nat): real
    decreases n
  {
    if n == 0 then 1.0 else Product(r, NatPow(r, n - 1))
  }

  lemma {:induction false} NatPowNonZero(r: real, n: nat)
    requires r != 0.0
    ensures NatPow(r, n) != 0.0
    decreases n
  {
    if n > 0 {
      NatPowNonZero(r, n - 1);
    }
  }

  /** `Rational::pow` with an `i32` exponent; a negative exponent inverts. */
  function RatPow(r: real, i: int): (s: real)
    requires r != 0.0 || i >= 0
    ensures r != 0.0 ==> s != 0.0
  {
    if i >= 0 then
      if r != 0.0 then NatPowNonZero(r, i); NatPow(r, i) else NatPow(r, i)
    else
      NatPowNonZero(r, -i);
      1.0 / NatPow(r, -i)
  }

  /** `pow_i` replaces the polynomial by a fresh node raised to `i`: more than
      one term and `i` outside 1..3. */
  predicate PowIOpaque(p: PolyMap, i: int)
  {
    i != 0 && AsRational(p).None? && |p| != 1 && !(0 < i < 4)
  }

  /** The single term of a one-term polynomial. */
  ghost function OnlyKey(p: PolyMap): (b: Base)
    requires |p| == 1
    ensures b in p
  {
    var b :| b in p; b
  }

  /** `pow_i(p, i)`. The constant case raises the rational; a single term has
      its exponents scaled by `i` and its coefficient raised to `i`; small
      positive powers of longer sums go through `pow_n`; anything else is the
      node `h` that `builder.poly(p)` interns, to the power `i`. */
  ghost function PowI(p: PolyMap, i: I32, h: Handle): (r: Result<PolyMap, Error>)
    requires Canonical(p)
    ensures r.Err? <==> i < 0 && IsZero(p)
    ensures r.Err? ==> r.error == DivZero
    ensures r.Ok? ==> Canonical(r.value)
    ensures PowIOpaque(p, i) ==> r == Ok(Monomial([(h, i)], 1.0))
  {
    if i == 0 then Ok(One())
    else if AsRational(p).Some? then
      var c := AsRational(p).value;
      if c == 0.0 && i < 0 then Err(DivZero) else Ok(Rational(RatPow(c, i)))
    else if |p| == 1 then
      var b := OnlyKey(p);
      ScaleBaseFacts(b, i);
      Ok(Monomial(ScaleBase(b, i), RatPow(p[b], i)))
    else if 0 < i < 4 then PowCanonical(p, i as nat); Ok(PowR(p, i))
    else Ok(Monomial([(h, i)], 1.0))
  }

  /** The reciprocal of a nonzero constant is a constant. */
  lemma RecipConstant(y: real)
    requires y != 0.0
    ensures !PowIOpaque(Rational(y), -1) && PowI(Rational(y), -1, Handle(0, 0)) == Ok(Rational(1.0 / y))
  {
    assert NatPow(y, 1) == y;
  }

  lemma ScaleBaseOne(b: Base)
    ensures ScaleBase(b, 1) == b
  {
    assert ScaleBase(b, 1) == b by {
      forall k | 0 <= k < |b| ensures ScaleBase(b, 1)[k] == b[k] {
      }
    }
  }

  /** The `n`-th power of a single term: exponents times `n`, coefficient to
      the `n`. */
  lemma {:induction false} PowTerm(b: Base, c: real, n: nat)
    requires CanonicalBase(b) && c != 0.0 && n >= 1
    ensures Canonical(map[b := c])
    ensures PowR(map[b := c], n) == map[ScaleBase(b, n) := NatPow(c, n)]
    decreases n
  {
    var t := map[b := c];
    if n == 1 {
      PowOne(t);
      ScaleBaseOne(b);
      assert NatPow(c, 1) == Product(c, 1.0);
    } else {
      PowTerm(b, c, n - 1);
      NatPowNonZero(c, n - 1);
      TimesMonomials(b, c, ScaleBase(b, n - 1), NatPow(c, n - 1));
      MulBaseScale(b, n - 1);
    }
  }

  lemma ConstantPow(c: real, n: nat)
    requires n >= 1
    ensures PowR(Rational(c), n) == Rational(NatPow(c, n))
  {
    if c == 0.0 {
      ZeroPow(n);
    } else {
      PowTerm([], c, n);
      NatPowNonZero(c, n);
      assert ScaleBase([], n) == [];
    }
  }

  lemma {:induction false} ZeroPow(n: nat)
    requires n >= 1
    ensures PowR(Zero(), n) == Zero()
    ensures NatPow(0.0, n) == 0.0
    decreases n
  {
    TimesZero(PowR(Zero(), n - 1));
  }

  /** `pow_i` mentions only the nodes of `p`, or, when it makes `p` a node
      of its own, only that node `h`. */
  lemma PowIHandles(p: PolyMap, i: I32, h: Handle)
    requires Canonical(p)
    ensures PowI(p, i, h).Ok? && !PowIOpaque(p, i) ==> PolyHandles(PowI(p, i, h).value) <= PolyHandles(p)
    ensures PowIOpaque(p, i) ==> PolyHandles(PowI(p, i, h).value) == {h}
  {
    var r := PowI(p, i, h);
    if r.Ok? {
      var q := r.value;
      if i == 0 || AsRational(p).Some? {
        assert forall k | k in q :: k == [];
      } else if |p| == 1 {
        var b := OnlyKey(p);
        ScaleBaseFacts(b, i);
        KeyHandles(b, p);
        assert q.Keys == {ScaleBase(b, i)};
      } else if 0 < i < 4 {
        PowRHandles(p, i as nat);
      } else {
        var b: Base := [(h, i as int)];
        assert q.Keys == {b} && b[0].0 == h;
      }
    }
  }

  /** Every positive power `pow_i` computes without a new node is `p`
      multiplied by itself `i` times. */
  lemma PowIIsPower(p: PolyMap, i: I32, h: Handle)
    requires Canonical(p) && i > 0 && !PowIOpaque(p, i)
    ensures PowI(p, i, h) == Ok(PowR(p, i))
  {
    if AsRational(p).Some? {
      var c := AsRational(p).value;
      if |p| == 0 {
        assert p == Rational(0.0);
      } else {
        SingleKey(p, []);
      }
      ConstantPow(c, i);
    } else if |p| == 1 {
      var b := OnlyKey(p);
      SingleKey(p, b);
      PowTerm(b, p[b], i);
    }
  }

  lemma ProductInverse(x: real)
    requires x != 0.0
    ensures Product(x, 1.0 / x) == 1.0
  {
  }

  /** `r^i · r^-i == 1` for a nonzero rational. */
  lemma RatPowInverse(c: real, i: int)
    requires c != 0.0 && i > 0
    ensures RatPow(c, i) != 0.0 && RatPow(c, -i) != 0.0
    ensures Product(RatPow(c, i), RatPow(c, -i)) == 1.0
  {
    NatPowNonZero(c, i);
    ProductInverse(NatPow(c, i));
  }

  /** `pow_i` of a single term with a nonzero exponent: the term with its
      exponents scaled and its coefficient raised to `i`. */
  lemma PowISingle(p: PolyMap, i: I32, h: Handle)
    requires Canonical(p) && |p| == 1 && i != 0
    ensures OnlyKey(p) in p && p[OnlyKey(p)] != 0.0
    ensures PowI(p, i, h) == Ok(map[ScaleBase(OnlyKey(p), i) := RatPow(p[OnlyKey(p)], i)])
  {
    var b := OnlyKey(p);
    SingleKey(p, b);
    if b == [] {
      assert ScaleBase(b, i) == [];
    }
  }

  /** For a single term (a nonzero constant included), `pow_i(-i)` is the
      multiplicative inverse of `pow_i(i)`. */
  lemma PowIInverse(p: PolyMap, i: I32, h: Handle)
    requires Canonical(p) && |p| == 1 && 0 < i
    ensures PowI(p, i, h).Ok? && PowI(p, -i, h).Ok?
    ensures Times(PowI(p, i, h).value, PowI(p, -i, h).value) == One()
  {
    var b := OnlyKey(p);
    PowISingle(p, i, h);
    PowISingle(p, -i, h);
    var x, y := RatPow(p[b], i), RatPow(p[b], -i);
    RatPowInverse(p[b], i);
    TimesMonomials(ScaleBase(b, i), x, ScaleBase(b, -i), y);
    MulBaseInverseScaled(b, i);
    assert One() == map[[] := 1.0];
  }

  /** A single term times its `pow_i(-1)` is 1. */
  lemma TimesInverse(p: PolyMap, h: Handle)
    requires Canonical(p) && |p| == 1
    ensures PowI(p, -1, h).Ok? && Times(p, PowI(p, -1, h).value) == One()
  {
    var b := OnlyKey(p);
    SingleKey(p, b);
    PowISingle(p, -1, h);
    var c, y := p[b], RatPow(p[b], -1);
    RatPowInverse(c, 1);
    assert RatPow(c, 1) == c by {
      assert NatPow(c, 1) == Product(c, 1.0);
    }
    ScaleBaseOne(b);
    MulBaseInverseScaled(b, 1);
    TimesMonomials(b, c, ScaleBase(b, -1), y);
    assert One() == map[[] := 1.0];
  }

  lemma MulBaseInverseScaled(b: Base, i: int)
    requires CanonicalBase(b) && i != 0
    ensures MulBase(ScaleBase(b, i), ScaleBase(b, -i)) == []
  {
    ScaleBaseFacts(b, i);
    ScaleBaseFacts(b, -i);
    var l := MulBase(ScaleBase(b, i), ScaleBase(b, -i));
    MulBaseCanonical(ScaleBase(b, i), ScaleBase(b, -i));
    forall v ensures ExpOf(l, v) == ExpOf([], v) {
      MulBaseExp(ScaleBase(b, i), ScaleBase(b, -i), v);
    }
    CanonicalExt(l, []);
  }
}
