/**
 * `Mul for Poly` (src/poly.rs): every pair of terms is multiplied, the
 * product monomial is built by the position/swap_remove/push loop and
 * sorted, and its coefficient is added in with `add_to`.
 */
module PolyProduct {
  import opened Nodes
  import opened Monomials
  import opened Polys

  // The product of two monomials, as the loop inside `mul` builds it.

  predicate DistinctHandles(b: Base)
  {
    forall i, j | 0 <= i < j < |b| :: b[i].0 != b[j].0
  }

  predicate NonZeroExps(b: Base)
  {
    forall i | 0 <= i < |b| :: b[i].1 != 0
  }

  lemma {:induction false} ExpOfAt(s: Base, i: int)
    requires DistinctHandles(s) && 0 <= i < |s|
    ensures ExpOf(s, s[i].0) == s[i].1
  {
    if i > 0 {
      assert s[0].0 != s[i].0;
      ExpOfAt(s[1..], i - 1);
    }
  }

  lemma {:induction false} ExpOfAbsent(s: Base, u: Handle)
    requires forall k | 0 <= k < |s| :: s[k].0 != u
    ensures ExpOf(s, u) == 0
  {
    if s != [] {
      ExpOfAbsent(s[1..], u);
    }
  }

  /** The exponent of `u` in a base without repeated handles: the entry for
      `u` if there is one, 0 otherwise. */
  lemma ExpOfDistinct(s: Base, u: Handle)
    requires DistinctHandles(s)
    ensures u in BaseHandles(s) ==> exists i | 0 <= i < |s| :: s[i].0 == u && ExpOf(s, u) == s[i].1
    ensures u !in BaseHandles(s) ==> ExpOf(s, u) == 0
  {
    if u in BaseHandles(s) {
      var i :| 0 <= i < |s| && s[i].0 == u;
      ExpOfAt(s, i);
    } else {
      ExpOfAbsent(s, u);
    }
  }

  /** `base[i].1 += n` */
  lemma AddAtExp(s: Base, i: int, n: int, u: Handle)
    requires DistinctHandles(s) && 0 <= i < |s|
    ensures var t := s[i := (s[i].0, s[i].1 + n)];
      DistinctHandles(t) && ExpOf(t, u) == ExpOf(s, u) + (if u == s[i].0 then n else 0)
  {
    var t := s[i := (s[i].0, s[i].1 + n)];
    assert BaseHandles(t) == BaseHandles(s) by {
      forall h | h in BaseHandles(s) ensures h in BaseHandles(t) {
        var k :| 0 <= k < |s| && s[k].0 == h;
        assert t[k].0 == h;
      }
    }
    ExpOfDistinct(s, u);
    ExpOfDistinct(t, u);
    if u == s[i].0 {
      ExpOfAt(s, i);
      ExpOfAt(t, i);
    }
  }

  /** `base.swap_remove(i)` on an entry whose exponent is 0. */
  function SwapRemove(s: Base, i: int): (t: Base)
    requires 0 <= i < |s|
    ensures |t| == |s| - 1
  {
    var last := s[|s| - 1];
    if i == |s| - 1 then s[..|s| - 1] else s[..|s| - 1][i := last]
  }

  lemma SwapRemoveExp(s: Base, i: int, u: Handle)
    requires DistinctHandles(s) && 0 <= i < |s| && s[i].1 == 0
    ensures DistinctHandles(SwapRemove(s, i))
    ensures NonZeroExps(s[i := (s[i].0, 1)]) ==> NonZeroExps(SwapRemove(s, i))
    ensures ExpOf(SwapRemove(s, i), u) == ExpOf(s, u)
  {
    var t := SwapRemove(s, i);
    assert forall k | 0 <= k < |t| :: exists m | 0 <= m < |s| && m != i :: t[k] == s[m];
    if NonZeroExps(s[i := (s[i].0, 1)]) {
      forall k | 0 <= k < |t| ensures t[k].1 != 0 {
        var m :| 0 <= m < |s| && m != i && t[k] == s[m];
        assert s[i := (s[i].0, 1)][m] == s[m];
      }
    }
    forall k, l | 0 <= k < l < |t| ensures t[k].0 != t[l].0 {
      if l == i {
        assert t[l] == s[|s| - 1];
      } else if k == i {
        assert t[k] == s[|s| - 1] && t[l] == s[l];
      }
    }
    forall m | 0 <= m < |s| && m != i ensures s[m].0 in BaseHandles(t) {
      if m == |s| - 1 {
        assert t[i] == s[m];
      } else {
        assert t[m] == s[m];
      }
    }
    ExpOfDistinct(s, u);
    ExpOfDistinct(t, u);
    if u in BaseHandles(t) {
      var k :| 0 <= k < |t| && t[k].0 == u && ExpOf(t, u) == t[k].1;
      var m :| 0 <= m < |s| && m != i && t[k] == s[m];
      ExpOfAt(s, m);
    } else if u in BaseHandles(s) {
      var m :| 0 <= m < |s| && s[m].0 == u;
      ExpOfAt(s, m);
    }
  }

  lemma PushExp(s: Base, x: (Handle, int), u: Handle)
    requires DistinctHandles(s) && forall k | 0 <= k < |s| :: s[k].0 != x.0
    ensures DistinctHandles(s + [x])
    ensures ExpOf(s + [x], u) == ExpOf(s, u) + (if u == x.0 then x.1 else 0)
  {
    var t := s + [x];
    ExpOfDistinct(s, u);
    ExpOfDistinct(t, u);
    if u == x.0 {
      ExpOfAt(t, |s|);
    } else if u in BaseHandles(t) {
      var k :| 0 <= k < |t| && t[k].0 == u && ExpOf(t, u) == t[k].1;
      assert t[k] == s[k];
      ExpOfAt(s, k);
    } else {
      assert forall k | 0 <= k < |s| :: s[k].0 != u by {
        forall k | 0 <= k < |s| ensures s[k].0 != u {
          assert t[k] == s[k];
        }
      }
    }
  }

  /** The loop over `b_base`: find the entry for each base of `b` by
      `position`; add to it (removing it with `swap_remove` when the
      exponent reaches 0) or push a new entry. */
  method CombineBase(a: Base, b: Base) returns (base: Base)
    requires CanonicalBase(a) && CanonicalBase(b)
    ensures DistinctHandles(base) && NonZeroExps(base)
    ensures forall u :: ExpOf(base, u) == ExpOf(a, u) + ExpOf(b, u)
  {
    base := a;
    var j := 0;
    assert b[0..] == b;
    while j < |b|
      invariant 0 <= j <= |b|
      invariant DistinctHandles(base) && NonZeroExps(base)
      invariant forall u :: ExpOf(base, u) == ExpOf(a, u) + ExpOf(b, u) - ExpOf(b[j..], u)
    {
      var (v, n) := b[j];
      ghost var old_base := base;
      var i := 0;
      while i < |base| && base[i].0 != v
        invariant 0 <= i <= |base|
        invariant forall k | 0 <= k < i :: base[k].0 != v
      {
        i := i + 1;
      }
      if i < |base| {
        base := base[i := (base[i].0, base[i].1 + n)];
        forall u ensures ExpOf(base, u) == ExpOf(old_base, u) + (if u == v then n else 0) {
          AddAtExp(old_base, i, n, u);
        }
        if base[i].1 == 0 {
          ghost var mid := base;
          assert DistinctHandles(mid) by {
            AddAtExp(old_base, i, n, v);
          }
          assert mid[i := (mid[i].0, 1)] == old_base[i := (old_base[i].0, 1)];
          base := SwapRemove(base, i);
          forall u ensures ExpOf(base, u) == ExpOf(mid, u) {
            SwapRemoveExp(mid, i, u);
          }
          SwapRemoveExp(mid, i, v);
        } else {
          AddAtExp(old_base, i, n, v);
        }
      } else {
        base := base + [(v, n)];
        forall u ensures ExpOf(base, u) == ExpOf(old_base, u) + (if u == v then n else 0) {
          PushExp(old_base, (v, n), u);
        }
        PushExp(old_base, (v, n), v);
      }
      forall u ensures ExpOf(b[j..], u) == (if u == v then n else 0) + ExpOf(b[j + 1..], u) {
        assert b[j..][1..] == b[j + 1..];
        if u == v {
          var rest := b[j + 1..];
          assert Above(rest, v) by {
            forall k | 0 <= k < |rest| ensures HandleLess(v, rest[k].0) {
              assert rest[k] == b[j + 1 + k];
            }
          }
          AboveExpZero(rest, v);
        }
      }
      j := j + 1;
    }
    assert b[|b|..] == [];
  }

  /** `sort_by` on the combined base, by handle (the exponent never breaks
      a tie: handles are distinct). */
  function InsertBase(x: (Handle, int), s: Base): Base
  {
    if s == [] then [x]
    else if HandleLess(x.0, s[0].0) then [x] + s
    else [s[0]] + InsertBase(x, s[1..])
  }

  function SortBase(s: Base): Base
  {
    if s == [] then [] else InsertBase(s[0], SortBase(s[1..]))
  }

  lemma {:induction false} InsertBaseFacts(x: (Handle, int), s: Base, v: Handle)
    requires CanonicalBase(s) && x.1 != 0 && x.0 !in BaseHandles(s)
    ensures CanonicalBase(InsertBase(x, s))
    ensures BaseHandles(InsertBase(x, s)) == {x.0} + BaseHandles(s)
    ensures ExpOf(InsertBase(x, s), v) == if v == x.0 then x.1 else ExpOf(s, v)
    ensures Above(s, v) && HandleLess(v, x.0) ==> Above(InsertBase(x, s), v)
  {
    var r := InsertBase(x, s);
    if s == [] {
      ConsHandles(x, []);
      ConsCanonical(x, []);
    } else if HandleLess(x.0, s[0].0) {
      ConsHandles(x, s);
      ConsCanonical(x, s);
      assert Above(s, x.0) by {
        forall k | 0 <= k < |s| ensures HandleLess(x.0, s[k].0) {
          if k > 0 {
            assert HandleLess(s[0].0, s[k].0);
          }
        }
      }
      if v == x.0 {
        AboveExpZero(s, v);
      }
    } else {
      assert s[0].0 != x.0 by {
        assert s[0].0 in BaseHandles(s);
      }
      assert HandleLess(s[0].0, x.0);
      TailAbove(s);
      ConsHandles(s[0], s[1..]);
      assert s == [s[0]] + s[1..];
      InsertBaseFacts(x, s[1..], v);
      InsertBaseFacts(x, s[1..], s[0].0);
      ConsHandles(s[0], InsertBase(x, s[1..]));
      ConsCanonical(s[0], InsertBase(x, s[1..]));
      if v == x.0 {
        assert ExpOf(r, v) == ExpOf(InsertBase(x, s[1..]), v);
      }
      if Above(s, v) && HandleLess(v, x.0) {
        assert HandleLess(v, s[0].0);
        AboveTransitive(s[1..], v, s[0].0);
        InsertBaseFacts(x, s[1..], v);
        ConsCanonical(s[0], InsertBase(x, s[1..]));
        forall k | 0 <= k < |r| ensures HandleLess(v, r[k].0) {
          if k > 0 {
            assert r[k] == InsertBase(x, s[1..])[k - 1];
          }
        }
      }
    }
  }

  lemma {:induction false} SortBaseFacts(s: Base, v: Handle)
    requires DistinctHandles(s) && NonZeroExps(s)
    ensures CanonicalBase(SortBase(s))
    ensures BaseHandles(SortBase(s)) == BaseHandles(s)
    ensures ExpOf(SortBase(s), v) == ExpOf(s, v)
  {
    if s != [] {
      var t := s[1..];
      assert DistinctHandles(t) && NonZeroExps(t) by {
        forall i, j | 0 <= i < j < |t| ensures t[i].0 != t[j].0 {
          assert t[i] == s[i + 1] && t[j] == s[j + 1];
        }
        forall i | 0 <= i < |t| ensures t[i].1 != 0 {
          assert t[i] == s[i + 1];
        }
      }
      SortBaseFacts(t, v);
      SortBaseFacts(t, s[0].0);
      assert s == [s[0]] + t;
      ConsHandles(s[0], t);
      assert s[0].0 !in BaseHandles(t);
      InsertBaseFacts(s[0], SortBase(t), v);
    }
  }

  /** The product monomial as `mul` computes it is the sorted merge
      `MulBase`. */
  method MultiplyBase(a: Base, b: Base) returns (base: Base)
    requires CanonicalBase(a) && CanonicalBase(b)
    ensures base == MulBase(a, b)
  {
    var combined := CombineBase(a, b);
    base := SortBase(combined);
    forall v ensures ExpOf(base, v) == ExpOf(MulBase(a, b), v) {
      SortBaseFacts(combined, v);
      MulBaseExp(a, b, v);
    }
    SortBaseFacts(combined, Handle(0, 0));
    MulBaseCanonical(a, b);
    CanonicalExt(base, MulBase(a, b));
  }

  // The product of two polynomials.

  type Pair = (Base, Base)

  /** The `cartesian_product` of the terms of `p` and of `q`. */
  function Pairs(p: PolyMap, q: PolyMap): set<Pair>
  {
    set a, b | a in p && b in q :: (a, b)
  }

  predicate PairsOf(s: set<Pair>, p: PolyMap, q: PolyMap)
  {
    forall x | x in s :: x.0 in p && x.1 in q
  }

  ghost function Pick(s: set<Pair>): Pair
    requires s != {}
  {
    var x :| x in s; x
  }

  /** The coefficient of the product of one pair of terms. */
  function Weight(x: Pair, p: PolyMap, q: PolyMap): real
    requires x.0 in p && x.1 in q
  {
    Product(p[x.0], q[x.1])
  }

  /** `add_to` of the product of one pair of terms. */
  function AddPair(m: PolyMap, x: Pair, p: PolyMap, q: PolyMap): (r: PolyMap)
    requires x.0 in p && x.1 in q
  {
    AddTo(m, MulBase(x.0, x.1), Weight(x, p, q))
  }

  /** The product terms of the pairs in `s`, each added in with `add_to`. */
  ghost function SumPairs(s: set<Pair>, p: PolyMap, q: PolyMap): (r: PolyMap)
    requires NoZero(p) && NoZero(q) && PairsOf(s, p, q)
    ensures NoZero(r)
    decreases |s|
  {
    if s == {} then Zero()
    else
      var x := Pick(s);
      AddPair(SumPairs(s - {x}, p, q), x, p, q)
  }

  /** Two `add_to`s of nonzero amounts commute. */
  lemma AddPairComm(m: PolyMap, x: Pair, y: Pair, p: PolyMap, q: PolyMap)
    requires NoZero(m) && NoZero(p) && NoZero(q) && x.0 in p && x.1 in q && y.0 in p && y.1 in q
    ensures NoZero(AddPair(m, x, p, q))
    ensures AddPair(AddPair(m, x, p, q), y, p, q) == AddPair(AddPair(m, y, p, q), x, p, q)
  {
    var l, r := AddPair(AddPair(m, x, p, q), y, p, q), AddPair(AddPair(m, y, p, q), x, p, q);
    forall b ensures Coef(l, b) == Coef(r, b) {
    }
    CoefExt(l, r);
  }

  /** One step of `SumPairs`: the pair it adds last. */
  lemma SumPairsUnfold(s: set<Pair>, p: PolyMap, q: PolyMap) returns (x: Pair)
    requires NoZero(p) && NoZero(q) && PairsOf(s, p, q) && s != {}
    ensures x in s
    ensures SumPairs(s, p, q) == AddPair(SumPairs(s - {x}, p, q), x, p, q)
  {
    x := Pick(s);
  }

  /** The pairs may be added in any order: any pair can be taken last. */
  lemma {:induction false} SumPairsPick(s: set<Pair>, p: PolyMap, q: PolyMap, y: Pair)
    requires NoZero(p) && NoZero(q) && PairsOf(s, p, q) && y in s
    ensures SumPairs(s, p, q) == AddPair(SumPairs(s - {y}, p, q), y, p, q)
    decreases |s|
  {
    var x := SumPairsUnfold(s, p, q);
    if x != y {
      assert s - {x} - {y} == s - {y} - {x};
      SumPairsPick(s - {x}, p, q, y);
      SumPairsPick(s - {y}, p, q, x);
      AddPairComm(SumPairs(s - {x} - {y}, p, q), x, y, p, q);
    }
  }

  /** The product of two polynomials: the sum of the products of all pairs
      of terms. */
  ghost function Times(p: PolyMap, q: PolyMap): (r: PolyMap)
    requires NoZero(p) && NoZero(q)
    ensures NoZero(r)
  {
    SumPairs(Pairs(p, q), p, q)
  }

  lemma PairsFacts(p: PolyMap, q: PolyMap)
    ensures PairsOf(Pairs(p, q), p, q)
    ensures forall a, b | a in p && b in q :: (a, b) in Pairs(p, q)
  {
  }

  lemma MulStep(p: PolyMap, q: PolyMap, todo: set<Pair>, x: Pair)
    requires NoZero(p) && NoZero(q) && todo <= Pairs(p, q) && x in todo
    ensures PairsOf(Pairs(p, q) - todo, p, q) && x.0 in p && x.1 in q
    ensures SumPairs(Pairs(p, q) - (todo - {x}), p, q) == AddPair(SumPairs(Pairs(p, q) - todo, p, q), x, p, q)
  {
    PairsFacts(p, q);
    var done := Pairs(p, q) - (todo - {x});
    SumPairsPick(done, p, q, x);
    assert done - {x} == Pairs(p, q) - todo;
  }

  /** `Mul for Poly`: one `add_to` per pair of terms. */
  method Mul(p: PolyMap, q: PolyMap) returns (r: PolyMap)
    requires Canonical(p) && Canonical(q)
    ensures r == Times(p, q)
  {
    r := map[];
    var todo := Pairs(p, q);
    PairsFacts(p, q);
    while todo != {}
      invariant todo <= Pairs(p, q)
      invariant PairsOf(Pairs(p, q) - todo, p, q)
      invariant r == SumPairs(Pairs(p, q) - todo, p, q)
      decreases |todo|
    {
      var x :| x in todo;
      MulStep(p, q, todo, x);
      var base := MultiplyBase(x.0, x.1);
      r := AddTo(r, base, p[x.0] * q[x.1]);
      todo := todo - {x};
    }
    assert Pairs(p, q) - todo == Pairs(p, q);
  }
}
