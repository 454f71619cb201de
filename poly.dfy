/**
 * The canonical polynomial of src/poly.rs: a map from monomials to nonzero
 * rational coefficients (`HashMap<Base, Rational>`), with `add_to`, the
 * constructors, the queries, `Add`, scalar `MulAssign`, `split` and `==`.
 * Rationals are exact: Dafny's `real`.
 */
module Polys {
  import opened Nodes
  import opened Wrappers
  import opened Monomials

  /** "never contains a zero" */
  predicate NoZero(p: PolyMap)
  {
    forall k | k in p :: p[k] != 0.0
  }

  /** The representation invariant: no zero coefficient, and every monomial
      sorted with no repeated base and no zero exponent. */
  predicate Canonical(p: PolyMap)
  {
    NoZero(p) && forall k | k in p :: CanonicalBase(k)
  }

  /** The coefficient of monomial `k`, 0 when absent. */
  function Coef(p: PolyMap, k: Base): real
  {
    if k in p then p[k] else 0.0
  }

  /** Two polynomials without zero entries are equal when all coefficients are. */
  lemma CoefExt(p: PolyMap, q: PolyMap)
    requires NoZero(p) && NoZero(q)
    requires forall k :: Coef(p, k) == Coef(q, k)
    ensures p == q
  {
    forall k | k in p ensures k in q && q[k] == p[k] {
      assert Coef(p, k) == Coef(q, k);
    }
    forall k | k in q ensures k in p {
      assert Coef(p, k) == Coef(q, k);
    }
    assert p.Keys == q.Keys;
  }

  /** `add_to`: a vacant key receives `r`; an occupied one is summed, and a
      sum of zero removes the key. */
  function AddTo(p: PolyMap, k: Base, r: real): (q: PolyMap)
    ensures Coef(q, k) == Coef(p, k) + r
    ensures forall k' :: k' != k ==> Coef(q, k') == Coef(p, k')
    ensures q.Keys <= p.Keys + {k}
    ensures k in p && p[k] + r == 0.0 ==> k !in q
    ensures NoZero(p) && r != 0.0 ==> NoZero(q)
  {
    if k !in p then p[k := r]
    else if p[k] + r == 0.0 then p - {k}
    else p[k := p[k] + r]
  }

  /** `Poly::zero`: every coefficient is 0. */
  function Zero(): (p: PolyMap)
    ensures Canonical(p) && forall k :: Coef(p, k) == 0.0
  {
    map[]
  }

  /** `Poly::one`: a single term. The source sorts `base` first; every caller
      passes a base that is already sorted. */
  function Monomial(base: Base, fac: real): (p: PolyMap)
    ensures Coef(p, base) == fac && forall k | k != base :: Coef(p, k) == 0.0
    ensures CanonicalBase(base) && fac != 0.0 ==> Canonical(p)
  {
    map[base := fac]
  }

  /** `Poly::rational` */
  function Rational(r: real): (p: PolyMap)
    ensures Canonical(p)
    ensures AsRational(p) == Some(r)
  {
    if r == 0.0 then Zero() else Monomial([], r)
  }

  /** `Poly::int` */
  function Int(i: I64): (p: PolyMap)
    ensures Canonical(p) && AsRational(p) == Some(i as real)
  {
    Rational(i as real)
  }

  /** `Poly::from_node`: the polynomial inside a `Poly` node, any other node
      `n` (held by handle `h`) as the one-term polynomial `1·h¹`. */
  function FromNode(h: Handle, n: Node): (p: PolyMap)
    ensures n.Poly? ==> p == n.p
    ensures !n.Poly? ==> |p| == 1 && AsRational(p) == None && Canonical(p)
    ensures !n.Poly? ==> forall k | k in p :: k == [(h, 1)] && p[k] == 1.0
  {
    if n.Poly? then n.p else Monomial([(h, 1)], 1.0)
  }

  lemma FromNodeFacts(h: Handle, n: Node)
    requires n.Poly? ==> Canonical(n.p)
    ensures Canonical(FromNode(h, n))
    ensures PolyHandles(FromNode(h, n)) <= Children(n) + {h}
  {
    if !n.Poly? {
      var p := FromNode(h, n);
      forall v | v in PolyHandles(p) ensures v == h {
        var b: Base, i: int :| b in p && 0 <= i < |b| && b[i].0 == v;
      }
    }
  }

  /** `is_zero`: on a polynomial without zero entries, every coefficient
      is 0. */
  predicate IsZero(p: PolyMap): (z: bool)
    ensures NoZero(p) ==> (z <==> forall k :: Coef(p, k) == 0.0)
  {
    if |p| == 0 then true
    else
      SomeKey(p);
      false
  }

  /** A nonempty polynomial has a term. */
  lemma SomeKey(p: PolyMap)
    requires |p| != 0
    ensures exists k :: k in p && Coef(p, k) == p[k]
  {
    assert p.Keys != {};
    var k :| k in p.Keys;
    assert Coef(p, k) == p[k];
  }

  /** A polynomial whose only monomial can be `[]` has at most one term. */
  lemma ConstantKeys(p: PolyMap)
    requires forall k | k in p :: k == []
    ensures |p| <= 1
  {
    if [] in p {
      assert p.Keys == {[]};
    } else {
      assert p.Keys == {};
    }
  }

  /** `as_rational`: 0 for the empty map, the coefficient of a lone
      constant term, nothing otherwise. */
  function AsRational(p: PolyMap): (r: Option<real>)
    ensures r.Some? <==> forall k | k in p :: k == []
    ensures r.Some? ==> r.value == Coef(p, [])
  {
    if |p| == 0 then Some(0.0)
    else if |p| == 1 then
      if [] in p then SingleKey(p, []); Some(p[[]]) else SomeKey(p); None
    else
      if forall k | k in p :: k == [] then ConstantKeys(p); None else None
  }

  /** `as_int`: the rational value when it is an integer. */
  function AsInt(p: PolyMap): (r: Option<int>)
    ensures r.Some? ==> AsRational(p) == Some(r.value as real)
    ensures AsRational(p).Some? && AsRational(p).value == AsRational(p).value.Floor as real ==> r.Some?
  {
    match AsRational(p)
    case Some(q) => if q.Floor as real == q then Some(q.Floor) else None
    case None => None
  }

  lemma SingleKey(p: PolyMap, k: Base)
    requires |p| == 1 && k in p
    ensures p == map[k := p[k]]
  {
    var rest := p.Keys - {k};
    assert |rest| == |p.Keys| - 1 == 0;
    assert p.Keys == {k};
  }

  /** `as_rational` inverts `rational` on canonical polynomials, and the
      empty map is the only zero. */
  lemma AsRationalExact(p: PolyMap, r: real)
    requires Canonical(p)
    ensures AsRational(p) == Some(r) <==> p == Rational(r)
    ensures IsZero(p) <==> AsRational(p) == Some(0.0)
  {
    if |p| == 1 && [] in p {
      SingleKey(p, []);
    }
  }

  /** The sum of two polynomials, coefficient by coefficient, zero sums dropped. */
  function Plus(p: PolyMap, q: PolyMap): (r: PolyMap)
    ensures forall k :: Coef(r, k) == Coef(p, k) + Coef(q, k)
    ensures NoZero(r) && r.Keys <= p.Keys + q.Keys
  {
    map k | k in p.Keys + q.Keys && Coef(p, k) + Coef(q, k) != 0.0 :: Coef(p, k) + Coef(q, k)
  }

  /** `Add for Poly`: every term of `q` is added into `p` with `add_to`. */
  method Add(p: PolyMap, q: PolyMap) returns (r: PolyMap)
    requires NoZero(p) && NoZero(q)
    ensures r == Plus(p, q)
  {
    r := p;
    var rest := q.Keys;
    while rest != {}
      invariant rest <= q.Keys
      invariant NoZero(r)
      invariant forall k :: Coef(r, k) == Coef(p, k) + (if k in q && k !in rest then Coef(q, k) else 0.0)
      decreases |rest|
    {
      var k :| k in rest;
      r := AddTo(r, k, q[k]);
      rest := rest - {k};
    }
    CoefExt(r, Plus(p, q));
  }

  lemma PlusCanonical(p: PolyMap, q: PolyMap)
    requires Canonical(p) && Canonical(q)
    ensures Canonical(Plus(p, q))
    ensures PolyHandles(Plus(p, q)) <= PolyHandles(p) + PolyHandles(q)
  {
    var r := Plus(p, q);
    forall v | v in PolyHandles(r) ensures v in PolyHandles(p) + PolyHandles(q) {
      var b: Base, i: int :| b in r && 0 <= i < |b| && b[i].0 == v;
    }
  }

  /** `add` is commutative and associative, with the empty map as identity. */
  lemma PlusLaws(p: PolyMap, q: PolyMap, s: PolyMap)
    requires NoZero(p)
    ensures Plus(p, q) == Plus(q, p)
    ensures Plus(Plus(p, q), s) == Plus(p, Plus(q, s))
    ensures Plus(p, Zero()) == p
  {
    CoefExt(Plus(p, q), Plus(q, p));
    CoefExt(Plus(Plus(p, q), s), Plus(p, Plus(q, s)));
    CoefExt(Plus(p, Zero()), p);
  }

  lemma PlusAssoc(p: PolyMap, q: PolyMap, s: PolyMap)
    ensures Plus(Plus(p, q), s) == Plus(p, Plus(q, s))
  {
    CoefExt(Plus(Plus(p, q), s), Plus(p, Plus(q, s)));
  }

  /** The product of two coefficients. Kept behind a name so that contracts
      about scaled polynomials do not hand the solver bare nonlinear terms. */
  function Product(c: real, d: real): real
  {
    c * d
  }

  lemma ProductSwap(a: real, b: real, c: real)
    ensures Product(Product(a, c), b) == Product(Product(a, b), c)
  {
  }

  lemma ProductAssoc(a: real, b: real, c: real)
    ensures Product(Product(a, b), c) == Product(a, Product(b, c))
  {
  }

  lemma ProductDistrib(a: real, b: real, c: real)
    ensures Product(a, c) + Product(b, c) == Product(a + b, c)
    ensures Product(c, a) + Product(c, b) == Product(c, a + b)
  {
  }

  /** `MulAssign<Rational>` as written: every coefficient times `k`, keys kept. */
  function ScaleAsWritten(p: PolyMap, k: real): (r: PolyMap)
    ensures r.Keys == p.Keys
    ensures forall b | b in p :: r[b] == Product(p[b], k)
  {
    map b | b in p :: Product(p[b], k)
  }

  /** `MulAssign<Rational>` (and `MulAssign<i64>`, which converts first):
      the in-place loop over the values. */
  method MulAssign(p: PolyMap, k: real) returns (r: PolyMap)
    ensures r == ScaleAsWritten(p, k)
  {
    r := p;
    var rest := p.Keys;
    while rest != {}
      invariant rest <= p.Keys && r.Keys == p.Keys
      invariant forall b | b in p :: r[b] == if b in rest then p[b] else Product(p[b], k)
      decreases |rest|
    {
      var b :| b in rest;
      r := r[b := r[b] * k];
      rest := rest - {b};
    }
  }

  /** Scaling by 0 as written keeps every key with a zero coefficient: the
      result breaks "never contains a zero" and is not `==` to `zero()`,
      although it stands for the zero polynomial. */
  lemma ScaleByZeroKeepsZeros()
    ensures var p := ScaleAsWritten(Rational(1.0), 0.0);
      && !NoZero(p) && !IsZero(p) && !PolyEq(p, Zero())
  {
    var p := ScaleAsWritten(Rational(1.0), 0.0);
    assert [] in p;
  }

  /** Scalar multiplication that keeps the invariant: scaling by 0 gives
      `zero()`, any other factor multiplies each coefficient. */
  function Scale(p: PolyMap, k: real): (r: PolyMap)
    requires NoZero(p)
    ensures NoZero(r)
    ensures forall b :: Coef(r, b) == Product(Coef(p, b), k)
    ensures k != 0.0 ==> r.Keys == p.Keys
    ensures k == 0.0 ==> IsZero(r)
  {
    if k == 0.0 then Zero() else ScaleAsWritten(p, k)
  }

  /** For every factor but 0 the corrected scaling is `MulAssign` as written. */
  lemma ScaleIsAsWritten(p: PolyMap, k: real)
    requires NoZero(p) && k != 0.0
    ensures Scale(p, k) == ScaleAsWritten(p, k)
  {
  }

  lemma ScaleCoef(p: PolyMap, c: real, b: Base)
    requires NoZero(p)
    ensures Coef(Scale(p, c), b) == Product(Coef(p, b), c)
  {
  }

  /** Scaling commutes with `add_to` of a scaled amount. */
  lemma ScaleAddTo(m: PolyMap, k: Base, r: real, c: real)
    requires NoZero(m) && r != 0.0 && c != 0.0
    ensures AddTo(Scale(m, c), k, Product(r, c)) == Scale(AddTo(m, k, r), c)
  {
    var sm, am := Scale(m, c), AddTo(m, k, r);
    var l, q := AddTo(sm, k, Product(r, c)), Scale(am, c);
    forall b ensures Coef(l, b) == Coef(q, b) {
      if b == k {
        ProductDistrib(Coef(m, k), r, c);
      }
    }
    CoefExt(l, q);
  }

  /** Scaling by `c` and by `d` adds up to scaling by `c + d`. */
  lemma ScaleSum(t: PolyMap, c: real, d: real)
    requires NoZero(t)
    ensures Plus(Scale(t, c), Scale(t, d)) == Scale(t, c + d)
  {
    var l, r := Plus(Scale(t, c), Scale(t, d)), Scale(t, c + d);
    forall b ensures Coef(l, b) == Coef(r, b) {
      ProductDistrib(c, d, Coef(t, b));
    }
    CoefExt(l, r);
  }

  lemma ScaleCanonical(p: PolyMap, k: real)
    requires Canonical(p)
    ensures Canonical(Scale(p, k)) && PolyHandles(Scale(p, k)) <= PolyHandles(p)
  {
  }

  /** `Scale` distributes over the sum and scaling by 1 changes nothing. */
  lemma ScaleLaws(p: PolyMap, q: PolyMap, k: real)
    requires NoZero(p) && NoZero(q)
    ensures Scale(Plus(p, q), k) == Plus(Scale(p, k), Scale(q, k))
    ensures Scale(p, 1.0) == p
  {
    var l, r := Scale(Plus(p, q), k), Plus(Scale(p, k), Scale(q, k));
    forall b ensures Coef(l, b) == Coef(r, b) {
      ProductDistrib(Coef(p, b), Coef(q, b), k);
    }
    CoefExt(l, r);
    CoefExt(Scale(p, 1.0), p);
  }

  /** `PartialEq for Poly`: same size and every entry found in the other. */
  predicate PolyEq(p: PolyMap, q: PolyMap)
  {
    |p| == |q| && forall k | k in p :: k in q && q[k] == p[k]
  }

  /** `==` on polynomials is map equality. */
  lemma PolyEqIsEquality(p: PolyMap, q: PolyMap)
    ensures PolyEq(p, q) <==> p == q
  {
    if PolyEq(p, q) {
      assert p.Keys <= q.Keys;
      var extra := q.Keys - p.Keys;
      assert |q.Keys| == |p.Keys| + |extra|;
      assert extra == {};
      assert p.Keys == q.Keys;
    }
  }

  /** `q` is one term of `p`. */
  predicate IsTermOf(q: PolyMap, p: PolyMap)
  {
    |q| == 1 && forall k | k in q :: k in p && q[k] == p[k]
  }

  /** The monomials occurring in a list of polynomials. */
  function TermKeys(ps: seq<PolyMap>): set<Base>
  {
    if ps == [] then {} else ps[0].Keys + TermKeys(ps[1..])
  }

  lemma {:induction false} TermKeysSnoc(ps: seq<PolyMap>, t: PolyMap)
    ensures TermKeys(ps + [t]) == TermKeys(ps) + t.Keys
  {
    if ps != [] {
      assert (ps + [t])[1..] == ps[1..] + [t];
      TermKeysSnoc(ps[1..], t);
    }
  }

  /** `out` lists terms of `p`, each monomial in at most one of them. */
  predicate Pieces(out: seq<PolyMap>, p: PolyMap)
  {
    out == [] || (IsTermOf(out[0], p) && out[0].Keys !! TermKeys(out[1..]) && Pieces(out[1..], p))
  }

  lemma {:induction false} PiecesSnoc(out: seq<PolyMap>, p: PolyMap, k: Base)
    requires Pieces(out, p) && k in p && k !in TermKeys(out)
    ensures Pieces(out + [map[k := p[k]]], p)
  {
    var t := map[k := p[k]];
    if out != [] {
      assert (out + [t])[1..] == out[1..] + [t];
      PiecesSnoc(out[1..], p, k);
      TermKeysSnoc(out[1..], t);
    }
  }

  lemma SplitStep(p: PolyMap, out: seq<PolyMap>, rest: set<Base>, k: Base)
    requires rest <= p.Keys && k in rest
    requires Pieces(out, p) && TermKeys(out) == p.Keys - rest
    ensures Pieces(out + [map[k := p[k]]], p)
    ensures TermKeys(out + [map[k := p[k]]]) == p.Keys - (rest - {k})
  {
    var t := map[k := p[k]];
    assert t.Keys == {k};
    PiecesSnoc(out, p, k);
    TermKeysSnoc(out, t);
  }

  /** `split`: one single-term polynomial per term of `p`, no term twice,
      none missing. */
  method Split(p: PolyMap) returns (out: seq<PolyMap>)
    ensures |out| == |p|
    ensures Pieces(out, p)
    ensures TermKeys(out) == p.Keys
  {
    out := [];
    var rest := p.Keys;
    assert |p.Keys| == |p|;
    while rest != {}
      invariant rest <= p.Keys
      invariant |out| + |rest| == |p|
      invariant Pieces(out, p)
      invariant TermKeys(out) == p.Keys - rest
      decreases |rest|
    {
      var k :| k in rest;
      SplitStep(p, out, rest, k);
      out := out + [map[k := p[k]]];
      rest := rest - {k};
    }
  }

  /** The terms of `p` whose monomial is in `ks`. */
  function Restrict(p: PolyMap, ks: set<Base>): (r: PolyMap)
    ensures forall k :: Coef(r, k) == if k in ks then Coef(p, k) else 0.0
    ensures Canonical(p) ==> Canonical(r)
  {
    map k | k in p && k in ks :: p[k]
  }

  /** Constants add as numbers. */
  lemma PlusRationals(x: real, y: real)
    ensures Plus(Rational(x), Rational(y)) == Rational(x + y)
  {
    var l, r := Plus(Rational(x), Rational(y)), Rational(x + y);
    forall k ensures Coef(l, k) == Coef(r, k) {
    }
    CoefExt(l, r);
  }

  /** Keeping no monomial gives zero; keeping every one gives `p` back. */
  lemma RestrictEnds(p: PolyMap)
    ensures Restrict(p, {}) == Zero() && Restrict(p, p.Keys) == p
  {
  }

  /** The sum of a list of polynomials, `zero()` for none. */
  function SumAll(ps: seq<PolyMap>): PolyMap
  {
    if ps == [] then Zero() else Plus(ps[0], SumAll(ps[1..]))
  }

  /** Adding pieces of `p` gives the terms of `p` they cover. */
  lemma {:induction false} SumPieces(p: PolyMap, out: seq<PolyMap>)
    requires NoZero(p) && Pieces(out, p)
    ensures SumAll(out) == Restrict(p, TermKeys(out))
  {
    if out != [] {
      var k := PieceHead(p, out);
      SumPieces(p, out[1..]);
      RestrictAdd(p, k, TermKeys(out[1..]));
    }
  }

  /** The first piece is the single term of `p` at some monomial `k`, which
      no later piece holds. */
  lemma PieceHead(p: PolyMap, out: seq<PolyMap>) returns (k: Base)
    requires Pieces(out, p) && out != []
    ensures k in p && k !in TermKeys(out[1..]) && out[0] == map[k := p[k]]
    ensures TermKeys(out) == {k} + TermKeys(out[1..])
  {
    k :| k in out[0];
    SingleKey(out[0], k);
  }

  /** One more term of `p` added to a restriction of `p`. */
  lemma RestrictAdd(p: PolyMap, k: Base, ks: set<Base>)
    requires NoZero(p) && k in p && k !in ks
    ensures Plus(map[k := p[k]], Restrict(p, ks)) == Restrict(p, {k} + ks)
  {
    var l, r := Plus(map[k := p[k]], Restrict(p, ks)), Restrict(p, {k} + ks);
    forall b ensures Coef(l, b) == Coef(r, b) {
    }
    CoefExt(l, r);
  }

  /** Adding the pieces `split` returns gives back the polynomial. */
  lemma SplitRecombines(p: PolyMap, out: seq<PolyMap>)
    requires NoZero(p) && Pieces(out, p) && TermKeys(out) == p.Keys
    ensures SumAll(out) == p
  {
    SumPieces(p, out);
    CoefExt(Restrict(p, TermKeys(out)), p);
  }
}
