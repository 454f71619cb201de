/**
 * The algebra of `Mul for Poly` (src/poly.rs): the product of canonical
 * polynomials is canonical, commutative, associative, distributes over
 * `Add`, and has `Poly::int(1)` as identity; `pow_n` computes the n-th
 * power by repeated squaring.
 */
module PolyRing {
  import opened Nodes
  import opened Monomials
  import opened Polys
  import opened PolyProduct

  /** `Poly::int(1)` */
  function One(): (r: PolyMap)
    ensures Canonical(r) && AsRational(r).Some? && AsRational(r).value == 1.0
  {
    Int(1)
  }

  lemma KeyHandles(b: Base, p: PolyMap)
    requires b in p
    ensures BaseHandles(b) <= PolyHandles(p)
  {
    forall v | v in BaseHandles(b) ensures v in PolyHandles(p) {
      var i :| 0 <= i < |b| && b[i].0 == v;
    }
  }

  lemma PolyHandlesSub(r: PolyMap, m: PolyMap, k: Base)
    requires r.Keys <= m.Keys + {k}
    ensures PolyHandles(r) <= PolyHandles(m) + BaseHandles(k)
  {
    forall v | v in PolyHandles(r) ensures v in PolyHandles(m) + BaseHandles(k) {
      var b: Base, i: int :| b in r && 0 <= i < |b| && b[i].0 == v;
      if b != k {
        assert v in PolyHandles(m);
      }
    }
  }

  /** Every product term is canonical and mentions only handles of the factors. */
  lemma {:induction false} SumPairsCanonical(s: set<Pair>, p: PolyMap, q: PolyMap)
    requires Canonical(p) && Canonical(q) && PairsOf(s, p, q)
    ensures Canonical(SumPairs(s, p, q))
    ensures PolyHandles(SumPairs(s, p, q)) <= PolyHandles(p) + PolyHandles(q)
    decreases |s|
  {
    if s != {} {
      var x := SumPairsUnfold(s, p, q);
      var m := SumPairs(s - {x}, p, q);
      SumPairsCanonical(s - {x}, p, q);
      MulBaseCanonical(x.0, x.1);
      MulBaseHandles(x.0, x.1);
      KeyHandles(x.0, p);
      KeyHandles(x.1, q);
      PolyHandlesSub(AddPair(m, x, p, q), m, MulBase(x.0, x.1));
    }
  }

  /** The product of canonical polynomials is canonical. */
  lemma TimesCanonical(p: PolyMap, q: PolyMap)
    requires Canonical(p) && Canonical(q)
    ensures Canonical(Times(p, q))
    ensures PolyHandles(Times(p, q)) <= PolyHandles(p) + PolyHandles(q)
  {
    PairsFacts(p, q);
    SumPairsCanonical(Pairs(p, q), p, q);
  }

  lemma AddPairPlus(m1: PolyMap, m2: PolyMap, x: Pair, p: PolyMap, q: PolyMap)
    requires NoZero(m1) && NoZero(m2) && NoZero(p) && NoZero(q) && x.0 in p && x.1 in q
    ensures AddPair(Plus(m1, m2), x, p, q) == Plus(m1, AddPair(m2, x, p, q))
  {
    var l, r := AddPair(Plus(m1, m2), x, p, q), Plus(m1, AddPair(m2, x, p, q));
    forall b ensures Coef(l, b) == Coef(r, b) {
    }
    CoefExt(l, r);
  }

  /** A sum over two disjoint sets of pairs is the sum of the two sums. */
  lemma {:induction false} SumPairsUnion(s1: set<Pair>, s2: set<Pair>, p: PolyMap, q: PolyMap)
    requires NoZero(p) && NoZero(q) && PairsOf(s1, p, q) && PairsOf(s2, p, q) && s1 !! s2
    ensures SumPairs(s1 + s2, p, q) == Plus(SumPairs(s1, p, q), SumPairs(s2, p, q))
    decreases |s2|
  {
    if s2 == {} {
      assert s1 + s2 == s1;
      PlusLaws(SumPairs(s1, p, q), Zero(), Zero());
    } else {
      var y := SumPairsUnfold(s2, p, q);
      SumPairsUnion(s1, s2 - {y}, p, q);
      SumPairsUnionStep(s1, s2, p, q, y);
    }
  }

  lemma MinusUnion(s1: set<Pair>, s2: set<Pair>, y: Pair)
    requires y !in s1
    ensures (s1 + s2) - {y} == s1 + (s2 - {y})
  {
  }

  /** The inductive step of `SumPairsUnion`: the pair `y` taken out of `s2`. */
  lemma SumPairsUnionStep(s1: set<Pair>, s2: set<Pair>, p: PolyMap, q: PolyMap, y: Pair)
    requires NoZero(p) && NoZero(q) && PairsOf(s1, p, q) && PairsOf(s2, p, q) && s1 !! s2 && y in s2
    requires SumPairs(s2, p, q) == AddPair(SumPairs(s2 - {y}, p, q), y, p, q)
    requires SumPairs(s1 + (s2 - {y}), p, q) == Plus(SumPairs(s1, p, q), SumPairs(s2 - {y}, p, q))
    ensures SumPairs(s1 + s2, p, q) == Plus(SumPairs(s1, p, q), SumPairs(s2, p, q))
  {
    MinusUnion(s1, s2, y);
    SumPairsPick(s1 + s2, p, q, y);
    AddPairPlus(SumPairs(s1, p, q), SumPairs(s2 - {y}, p, q), y, p, q);
  }

  /** The sum depends only on the coefficients the pairs select. */
  lemma {:induction false} SumPairsAgree(s: set<Pair>, p1: PolyMap, q1: PolyMap, p2: PolyMap, q2: PolyMap)
    requires NoZero(p1) && NoZero(q1) && NoZero(p2) && NoZero(q2)
    requires PairsOf(s, p1, q1) && PairsOf(s, p2, q2)
    requires forall x | x in s :: p1[x.0] == p2[x.0] && q1[x.1] == q2[x.1]
    ensures SumPairs(s, p1, q1) == SumPairs(s, p2, q2)
    decreases |s|
  {
    if s != {} {
      var x := SumPairsUnfold(s, p1, q1);
      SumPairsPick(s, p2, q2, x);
      SumPairsAgree(s - {x}, p1, q1, p2, q2);
      assert p1[x.0] == p2[x.0] && q1[x.1] == q2[x.1];
      assert Weight(x, p1, q1) == Weight(x, p2, q2);
    }
  }

  /** `p · q` splits into the product of one term of `p` and the rest. */
  lemma TimesSplitLeft(p: PolyMap, q: PolyMap, a: Base)
    requires NoZero(p) && NoZero(q) && a in p
    ensures Times(p, q) == Plus(Times(map[a := p[a]], q), Times(p - {a}, q))
  {
    var t := map[a := p[a]];
    PairsFacts(p, q);
    PairsFacts(t, q);
    PairsFacts(p - {a}, q);
    var s1, s2 := Pairs(t, q), Pairs(p - {a}, q);
    assert s1 + s2 == Pairs(p, q) by {
      forall x | x in Pairs(p, q) ensures x in s1 + s2 {
        assert x == (x.0, x.1);
        if x.0 == a {
          assert x.0 in t;
        } else {
          assert x.0 in p - {a};
        }
      }
    }
    SumPairsUnion(s1, s2, p, q);
    SumPairsAgree(s1, p, q, t, q);
    SumPairsAgree(s2, p, q, p - {a}, q);
  }

  lemma TimesSplitRight(p: PolyMap, q: PolyMap, b: Base)
    requires NoZero(p) && NoZero(q) && b in q
    ensures Times(p, q) == Plus(Times(p, map[b := q[b]]), Times(p, q - {b}))
  {
    var t := map[b := q[b]];
    PairsFacts(p, q);
    PairsFacts(p, t);
    PairsFacts(p, q - {b});
    var s1, s2 := Pairs(p, t), Pairs(p, q - {b});
    assert s1 + s2 == Pairs(p, q) by {
      forall x | x in Pairs(p, q) ensures x in s1 + s2 {
        assert x == (x.0, x.1);
        if x.1 == b {
          assert x.1 in t;
        } else {
          assert x.1 in q - {b};
        }
      }
    }
    SumPairsUnion(s1, s2, p, q);
    SumPairsAgree(s1, p, q, p, t);
    SumPairsAgree(s2, p, q, p, q - {b});
  }

  /** Multiplying by the empty polynomial gives the empty polynomial. */
  lemma TimesZero(p: PolyMap)
    requires NoZero(p)
    ensures Times(Zero(), p) == Zero() && Times(p, Zero()) == Zero()
  {
    assert Pairs(Zero(), p) == {};
    assert Pairs(p, Zero()) == {};
  }

  /** The product of two single terms: bases merged, coefficients multiplied. */
  lemma TimesMonomials(a: Base, c: real, b: Base, d: real)
    requires c != 0.0 && d != 0.0
    ensures Times(map[a := c], map[b := d]) == map[MulBase(a, b) := Product(c, d)]
  {
    var p, q := map[a := c], map[b := d];
    PairsFacts(p, q);
    assert Pairs(p, q) == {(a, b)};
    var x := SumPairsUnfold(Pairs(p, q), p, q);
    assert x == (a, b);
    assert x.0 == a && x.1 == b;
    assert Pairs(p, q) - {x} == {};
    assert Weight(x, p, q) == Product(c, d);
  }

  lemma WeightScale(x: Pair, p: PolyMap, q: PolyMap, p2: PolyMap, c: real)
    requires x.0 in p && x.1 in q && x.0 in p2 && p2[x.0] == Product(p[x.0], c)
    ensures Weight(x, p2, q) == Product(Weight(x, p, q), c)
  {
    ProductSwap(p[x.0], q[x.1], c);
  }

  lemma AddPairScale(m: PolyMap, x: Pair, p: PolyMap, q: PolyMap, p2: PolyMap, c: real)
    requires NoZero(m) && NoZero(p) && NoZero(q) && c != 0.0
    requires x.0 in p && x.1 in q && x.0 in p2 && p2[x.0] == Product(p[x.0], c)
    ensures AddPair(Scale(m, c), x, p2, q) == Scale(AddPair(m, x, p, q), c)
  {
    WeightScale(x, p, q, p2, c);
    ScaleAddTo(m, MulBase(x.0, x.1), Weight(x, p, q), c);
  }

  /** Scaling the left coefficients by `c` scales the sum by `c`. */
  lemma {:induction false} SumPairsScale(s: set<Pair>, p: PolyMap, q: PolyMap, p2: PolyMap, c: real)
    requires NoZero(p) && NoZero(q) && NoZero(p2) && c != 0.0
    requires PairsOf(s, p, q) && PairsOf(s, p2, q)
    requires forall x | x in s :: p2[x.0] == Product(p[x.0], c)
    ensures SumPairs(s, p2, q) == Scale(SumPairs(s, p, q), c)
    decreases |s|
  {
    if s == {} {
    } else {
      var x := SumPairsUnfold(s, p, q);
      SumPairsPick(s, p2, q, x);
      SumPairsScale(s - {x}, p, q, p2, c);
      AddPairScale(SumPairs(s - {x}, p, q), x, p, q, p2, c);
    }
  }

  /** A single term with coefficient `c` times `s` is `c` times the term
      with coefficient 1. */
  lemma TimesTermScale(a: Base, c: real, s: PolyMap)
    requires NoZero(s) && c != 0.0
    ensures Times(map[a := c], s) == Scale(Times(map[a := 1.0], s), c)
  {
    var p, p2 := map[a := 1.0], map[a := c];
    PairsFacts(p, s);
    PairsFacts(p2, s);
    assert Pairs(p, s) == Pairs(p2, s);
    SumPairsScale(Pairs(p, s), p, s, p2, c);
  }

  /** Two terms on the same base multiply out to their sum's product. */
  lemma TimesTermSum(a: Base, c: real, d: real, s: PolyMap)
    requires NoZero(s) && c != 0.0 && d != 0.0
    ensures c + d == 0.0 ==> Plus(Times(map[a := c], s), Times(map[a := d], s)) == Zero()
    ensures c + d != 0.0 ==> Plus(Times(map[a := c], s), Times(map[a := d], s)) == Times(map[a := c + d], s)
  {
    var t := Times(map[a := 1.0], s);
    TimesTermScale(a, c, s);
    TimesTermScale(a, d, s);
    ScaleSum(t, c, d);
    if c + d != 0.0 {
      TimesTermScale(a, c + d, s);
    }
  }

  /** `add_to` of a monomial absent from `w` adds one term's product. */
  lemma TimesAddToFresh(w: PolyMap, a: Base, c: real, s: PolyMap)
    requires NoZero(w) && NoZero(s) && c != 0.0 && a !in w
    ensures Times(AddTo(w, a, c), s) == Plus(Times(map[a := c], s), Times(w, s))
  {
    var w2 := w[a := c];
    assert AddTo(w, a, c) == w2;
    TimesSplitLeft(w2, s, a);
    assert w2 - {a} == w;
  }

  /** `add_to` that cancels the term on `a` removes that term's product. */
  lemma TimesAddToCancel(w: PolyMap, a: Base, c: real, s: PolyMap)
    requires NoZero(w) && NoZero(s) && c != 0.0 && a in w && c + w[a] == 0.0
    ensures Times(AddTo(w, a, c), s) == Plus(Times(map[a := c], s), Times(w, s))
  {
    var d := w[a];
    var tc, td, rest := Times(map[a := c], s), Times(map[a := d], s), Times(w - {a}, s);
    TimesSplitLeft(w, s, a);
    PlusLaws(tc, td, rest);
    TimesTermSum(a, c, d, s);
    assert AddTo(w, a, c) == w - {a};
    PlusLaws(Zero(), rest, Zero());
    PlusLaws(rest, Zero(), Zero());
  }

  /** `add_to` that changes the coefficient on `a` to `c + w[a]`. */
  lemma TimesAddToSum(w: PolyMap, a: Base, c: real, s: PolyMap)
    requires NoZero(w) && NoZero(s) && c != 0.0 && a in w && c + w[a] != 0.0
    ensures Times(AddTo(w, a, c), s) == Plus(Times(map[a := c], s), Times(w, s))
  {
    var d := w[a];
    var tc, td, rest := Times(map[a := c], s), Times(map[a := d], s), Times(w - {a}, s);
    TimesAddToSplit(w, a, c, s);
    TimesTermSum(a, c, d, s);
    TimesSplitLeft(w, s, a);
    Regroup(Times(AddTo(w, a, c), s), Times(map[a := c + d], s), tc, td, rest, Times(w, s));
  }

  /** Regrouping `x = (tc + td) + rest` as `tc + (td + rest)`. */
  lemma Regroup(x: PolyMap, t: PolyMap, tc: PolyMap, td: PolyMap, rest: PolyMap, y: PolyMap)
    requires x == Plus(t, rest) && t == Plus(tc, td) && y == Plus(td, rest)
    ensures x == Plus(tc, y)
  {
    PlusAssoc(tc, td, rest);
  }

  /** After `add_to` that keeps the term on `a`, the product splits into
      that term's product and the rest's. */
  lemma TimesAddToSplit(w: PolyMap, a: Base, c: real, s: PolyMap)
    requires NoZero(w) && NoZero(s) && a in w && c + w[a] != 0.0
    ensures Times(AddTo(w, a, c), s) == Plus(Times(map[a := c + w[a]], s), Times(w - {a}, s))
  {
    var w2 := w[a := c + w[a]];
    AddToPresent(w, a, c);
    TimesSplitLeft(w2, s, a);
    assert w2 - {a} == w - {a};
  }

  lemma AddToPresent(w: PolyMap, a: Base, c: real)
    requires a in w && c + w[a] != 0.0
    ensures AddTo(w, a, c) == w[a := c + w[a]]
  {
  }

  /** `add_to` on the left factor adds one term's product. */
  lemma TimesAddTo(w: PolyMap, a: Base, c: real, s: PolyMap)
    requires NoZero(w) && NoZero(s) && c != 0.0
    ensures Times(AddTo(w, a, c), s) == Plus(Times(map[a := c], s), Times(w, s))
  {
    if a !in w {
      TimesAddToFresh(w, a, c, s);
    } else if c + w[a] == 0.0 {
      TimesAddToCancel(w, a, c, s);
    } else {
      TimesAddToSum(w, a, c, s);
    }
  }

  lemma PlusAddTo(u: PolyMap, v: PolyMap, a: Base)
    requires NoZero(u) && NoZero(v) && a in u
    ensures Plus(u, v) == AddTo(Plus(u - {a}, v), a, u[a])
  {
    var l := AddTo(Plus(u - {a}, v), a, u[a]);
    forall k ensures Coef(Plus(u, v), k) == Coef(l, k) {
    }
    CoefExt(Plus(u, v), l);
  }

  lemma TimesPlusLeftStep(u: PolyMap, v: PolyMap, s: PolyMap, a: Base)
    requires NoZero(u) && NoZero(v) && NoZero(s) && a in u
    requires Times(Plus(u - {a}, v), s) == Plus(Times(u - {a}, s), Times(v, s))
    ensures Times(Plus(u, v), s) == Plus(Times(u, s), Times(v, s))
  {
    var c, u2 := u[a], u - {a};
    var ta, tu2, tv := Times(map[a := c], s), Times(u2, s), Times(v, s);
    PlusAddTo(u, v, a);
    TimesAddTo(Plus(u2, v), a, c, s);
    assert Times(Plus(u, v), s) == Plus(ta, Plus(tu2, tv));
    TimesSplitLeft(u, s, a);
    PlusLaws(ta, tu2, tv);
  }

  /** Multiplication distributes over addition (left operand). */
  lemma {:induction false} TimesPlusLeft(u: PolyMap, v: PolyMap, s: PolyMap)
    requires NoZero(u) && NoZero(v) && NoZero(s)
    ensures Times(Plus(u, v), s) == Plus(Times(u, s), Times(v, s))
    decreases |u|
  {
    if u == map[] {
      PlusLaws(v, Zero(), Zero());
      PlusLaws(v, u, Zero());
      TimesZero(s);
      PlusLaws(Times(v, s), Zero(), Zero());
      PlusLaws(Times(v, s), Times(u, s), Zero());
    } else {
      var a :| a in u;
      TimesPlusLeft(u - {a}, v, s);
      TimesPlusLeftStep(u, v, s, a);
    }
  }

  lemma AddPairSwap(m: PolyMap, x: Pair, p: PolyMap, q: PolyMap)
    requires Canonical(p) && Canonical(q) && x.0 in p && x.1 in q
    ensures AddPair(m, x, p, q) == AddPair(m, (x.1, x.0), q, p)
  {
    MulBaseComm(x.0, x.1);
    assert Weight(x, p, q) == Weight((x.1, x.0), q, p);
  }

  function Swap(s: set<Pair>): set<Pair>
  {
    set x | x in s :: (x.1, x.0)
  }

  lemma SwapFacts(s: set<Pair>, x: Pair)
    requires x in s
    ensures (x.1, x.0) in Swap(s)
    ensures Swap(s - {x}) == Swap(s) - {(x.1, x.0)}
  {
    var y := (x.1, x.0);
    forall z | z in Swap(s) - {y} ensures z in Swap(s - {x}) {
      var w :| w in s && z == (w.1, w.0);
      assert w != x;
    }
  }

  /** Swapping the factors of every pair leaves the sum unchanged. */
  lemma {:induction false} SumPairsSwap(s: set<Pair>, p: PolyMap, q: PolyMap)
    requires Canonical(p) && Canonical(q) && PairsOf(s, p, q)
    ensures PairsOf(Swap(s), q, p)
    ensures SumPairs(s, p, q) == SumPairs(Swap(s), q, p)
    decreases |s|
  {
    if s == {} {
      assert Swap(s) == {};
    } else {
      var x := SumPairsUnfold(s, p, q);
      var y := (x.1, x.0);
      SwapFacts(s, x);
      SumPairsSwap(s - {x}, p, q);
      SumPairsPick(Swap(s), q, p, y);
      AddPairSwap(SumPairs(s - {x}, p, q), x, p, q);
    }
  }

  /** Multiplication is commutative. */
  lemma TimesComm(p: PolyMap, q: PolyMap)
    requires Canonical(p) && Canonical(q)
    ensures Times(p, q) == Times(q, p)
  {
    PairsFacts(p, q);
    PairsFacts(q, p);
    SumPairsSwap(Pairs(p, q), p, q);
    assert Swap(Pairs(p, q)) == Pairs(q, p) by {
      forall z | z in Pairs(q, p) ensures z in Swap(Pairs(p, q)) {
        assert (z.1, z.0) in Pairs(p, q);
      }
    }
  }

  /** Multiplication distributes over addition (right operand). */
  lemma TimesPlusRight(s: PolyMap, u: PolyMap, v: PolyMap)
    requires Canonical(s) && Canonical(u) && Canonical(v)
    ensures Times(s, Plus(u, v)) == Plus(Times(s, u), Times(s, v))
  {
    PlusCanonical(u, v);
    TimesComm(s, Plus(u, v));
    TimesComm(s, u);
    TimesComm(s, v);
    TimesPlusLeft(u, v, s);
  }

  lemma TimesOneStep(p: PolyMap, b: Base)
    requires Canonical(p) && b in p
    requires Times(One(), p - {b}) == p - {b}
    ensures Times(One(), p) == p
  {
    var t := map[b := p[b]];
    TimesSplitRight(One(), p, b);
    assert One() == map[[] := 1.0];
    TimesMonomials([], 1.0, b, p[b]);
    assert MulBase([], b) == b;
    assert Times(One(), t) == t;
    PlusTerm(p, b);
  }

  lemma PlusTerm(p: PolyMap, b: Base)
    requires NoZero(p) && b in p
    ensures Plus(map[b := p[b]], p - {b}) == p
  {
    var l := Plus(map[b := p[b]], p - {b});
    forall k ensures Coef(l, k) == Coef(p, k) {
    }
    CoefExt(l, p);
  }

  /** `1 · p == p` and `p · 1 == p`. */
  lemma {:induction false} TimesOne(p: PolyMap)
    requires Canonical(p)
    ensures Times(One(), p) == p && Times(p, One()) == p
    decreases |p|
  {
    TimesComm(One(), p);
    if p == map[] {
      TimesZero(One());
    } else {
      var b :| b in p;
      TimesOne(p - {b});
      TimesOneStep(p, b);
    }
  }

  /** One term of a canonical polynomial, and the rest, are canonical. */
  lemma TermCanonical(p: PolyMap, a: Base)
    requires Canonical(p) && a in p
    ensures Canonical(map[a := p[a]]) && Canonical(p - {a})
  {
  }

  /** Constants multiply as numbers (the product passed as `xy`). */
  lemma TimesRationals(x: real, y: real, xy: real)
    requires xy == x * y
    ensures Times(Rational(x), Rational(y)) == Rational(xy)
  {
    if x == 0.0 || y == 0.0 {
      TimesZero(Rational(x));
      TimesZero(Rational(y));
    } else {
      TimesMonomials([], x, [], y);
      assert MulBase([], []) == [];
    }
  }

  /** Times the reciprocal of a nonzero constant is division by it. */
  lemma TimesRecip(x: real, y: real)
    requires y != 0.0
    ensures Times(Rational(x), Rational(1.0 / y)) == Rational(x / y)
  {
    RecipProduct(x, y);
    TimesRationals(x, 1.0 / y, x / y);
  }

  lemma RecipProduct(x: real, y: real)
    requires y != 0.0
    ensures x * (1.0 / y) == x / y
  {
  }

  lemma TimesMonomials3(a: Base, c: real, b: Base, d: real, e: Base, f: real)
    requires CanonicalBase(a) && CanonicalBase(b) && CanonicalBase(e)
    requires c != 0.0 && d != 0.0 && f != 0.0
    ensures Times(Times(map[a := c], map[b := d]), map[e := f])
         == Times(map[a := c], Times(map[b := d], map[e := f]))
  {
    var ab, be := MulBase(a, b), MulBase(b, e);
    TimesMonomials(a, c, b, d);
    TimesMonomials(ab, Product(c, d), e, f);
    TimesMonomials(b, d, e, f);
    TimesMonomials(a, c, be, Product(d, f));
    MulBaseAssoc(a, b, e);
    ProductAssoc(c, d, f);
  }

  lemma TimesAssoc2Step(t: PolyMap, u: PolyMap, s: PolyMap, e: Base)
    requires Canonical(t) && Canonical(u) && Canonical(s) && e in s
    requires |t| == 1 && |u| == 1
    requires Times(Times(t, u), s - {e}) == Times(t, Times(u, s - {e}))
    ensures Times(Times(t, u), s) == Times(t, Times(u, s))
  {
    var te, s2 := map[e := s[e]], s - {e};
    TermCanonical(s, e);
    var a :| a in t;
    var b :| b in u;
    SingleKey(t, a);
    SingleKey(u, b);
    TimesMonomials3(a, t[a], b, u[b], e, s[e]);
    TimesCanonical(t, u);
    TimesCanonical(u, te);
    TimesCanonical(u, s2);
    TimesSplitRight(Times(t, u), s, e);
    TimesSplitRight(u, s, e);
    TimesPlusRight(t, Times(u, te), Times(u, s2));
  }

  /** Associativity when the first two factors are single terms. */
  lemma {:induction false} TimesAssoc2(t: PolyMap, u: PolyMap, s: PolyMap)
    requires Canonical(t) && Canonical(u) && Canonical(s) && |t| == 1 && |u| == 1
    ensures Times(Times(t, u), s) == Times(t, Times(u, s))
    decreases |s|
  {
    TimesCanonical(t, u);
    if s == map[] {
      TimesZero(Times(t, u));
      TimesZero(u);
      TimesZero(t);
    } else {
      var e :| e in s;
      TermCanonical(s, e);
      TimesAssoc2(t, u, s - {e});
      TimesAssoc2Step(t, u, s, e);
    }
  }

  lemma TimesAssoc1Step(t: PolyMap, q: PolyMap, s: PolyMap, b: Base)
    requires Canonical(t) && Canonical(q) && Canonical(s) && b in q && |t| == 1
    requires Times(Times(t, q - {b}), s) == Times(t, Times(q - {b}, s))
    ensures Times(Times(t, q), s) == Times(t, Times(q, s))
  {
    var tb, q2 := map[b := q[b]], q - {b};
    TermCanonical(q, b);
    TimesAssoc2(t, tb, s);
    TimesCanonical(t, tb);
    TimesCanonical(t, q2);
    TimesCanonical(tb, s);
    TimesCanonical(q2, s);
    TimesSplitRight(t, q, b);
    TimesPlusLeft(Times(t, tb), Times(t, q2), s);
    TimesSplitLeft(q, s, b);
    TimesPlusRight(t, Times(tb, s), Times(q2, s));
  }

  /** Associativity when the first factor is a single term. */
  lemma {:induction false} TimesAssoc1(t: PolyMap, q: PolyMap, s: PolyMap)
    requires Canonical(t) && Canonical(q) && Canonical(s) && |t| == 1
    ensures Times(Times(t, q), s) == Times(t, Times(q, s))
    decreases |q|
  {
    if q == map[] {
      TimesZero(t);
      TimesZero(s);
      TimesCanonical(q, s);
      TimesZero(t);
    } else {
      var b :| b in q;
      TermCanonical(q, b);
      TimesAssoc1(t, q - {b}, s);
      TimesAssoc1Step(t, q, s, b);
    }
  }

  lemma TimesAssocStep(p: PolyMap, q: PolyMap, s: PolyMap, a: Base)
    requires Canonical(p) && Canonical(q) && Canonical(s) && a in p
    requires Times(Times(p - {a}, q), s) == Times(p - {a}, Times(q, s))
    ensures Times(Times(p, q), s) == Times(p, Times(q, s))
  {
    var ta, p2 := map[a := p[a]], p - {a};
    TermCanonical(p, a);
    TimesAssoc1(ta, q, s);
    TimesCanonical(ta, q);
    TimesCanonical(p2, q);
    TimesCanonical(q, s);
    TimesSplitLeft(p, q, a);
    TimesPlusLeft(Times(ta, q), Times(p2, q), s);
    TimesSplitLeft(p, Times(q, s), a);
  }

  /** Multiplication is associative. */
  lemma {:induction false} TimesAssoc(p: PolyMap, q: PolyMap, s: PolyMap)
    requires Canonical(p) && Canonical(q) && Canonical(s)
    ensures Times(Times(p, q), s) == Times(p, Times(q, s))
    decreases |p|
  {
    if p == map[] {
      TimesZero(q);
      TimesZero(s);
      TimesCanonical(q, s);
      TimesZero(Times(q, s));
    } else {
      var a :| a in p;
      TermCanonical(p, a);
      TimesAssoc(p - {a}, q, s);
      TimesAssocStep(p, q, s, a);
    }
  }
}
