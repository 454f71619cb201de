/**
 * Monomials (`Base = Vec<(NodeRc, i64)>` in src/poly.rs): the canonical
 * shape of a base list, the product of two monomials as computed inside
 * `Mul for Poly`, exponent scaling from `pow_i`, and `cmp_base`.
 */
module Monomials {
  import opened Nodes

  /** The order handles are sorted by inside a monomial. */
  predicate HandleLess(a: Handle, b: Handle)
  {
    a.id < b.id || (a.id == b.id && a.hash < b.hash)
  }

  /** Every handle of `b` lies strictly above `v`. */
  predicate Above(b: Base, v: Handle)
  {
    forall i | 0 <= i < |b| :: HandleLess(v, b[i].0)
  }

  /** A canonical monomial: no zero exponent, bases strictly increasing
      (hence no base twice). */
  predicate CanonicalBase(b: Base)
  {
    && (forall i | 0 <= i < |b| :: b[i].1 != 0)
    && (forall i, j | 0 <= i < j < |b| :: HandleLess(b[i].0, b[j].0))
  }

  function BaseHandles(b: Base): set<Handle>
  {
    set i | 0 <= i < |b| :: b[i].0
  }

  /** The exponent `v` carries in `b`, 0 when `v` does not occur. */
  function ExpOf(b: Base, v: Handle): int
  {
    if b == [] then 0 else if b[0].0 == v then b[0].1 else ExpOf(b[1..], v)
  }

  lemma ConsCanonical(x: (Handle, int), t: Base)
    ensures CanonicalBase([x] + t) <==> x.1 != 0 && CanonicalBase(t) && Above(t, x.0)
  {
    var s := [x] + t;
    if x.1 != 0 && CanonicalBase(t) && Above(t, x.0) {
      forall i, j | 0 <= i < j < |s| ensures HandleLess(s[i].0, s[j].0) {
        if i > 0 {
          assert s[i] == t[i - 1] && s[j] == t[j - 1];
        } else {
          assert s[j] == t[j - 1];
        }
      }
    }
    if CanonicalBase(s) {
      assert s[0] == x;
      forall i | 0 <= i < |t| ensures t[i].1 != 0 {
        assert t[i] == s[i + 1];
      }
      forall i, j | 0 <= i < j < |t| ensures HandleLess(t[i].0, t[j].0) {
        assert t[i] == s[i + 1] && t[j] == s[j + 1];
      }
      forall i | 0 <= i < |t| ensures HandleLess(x.0, t[i].0) {
        assert t[i] == s[i + 1];
        assert HandleLess(s[0].0, s[i + 1].0);
      }
    }
  }

  lemma {:induction false} AboveExpZero(b: Base, v: Handle)
    requires Above(b, v)
    ensures ExpOf(b, v) == 0
  {
    if b != [] {
      assert HandleLess(v, b[0].0);
      assert Above(b[1..], v) by {
        forall i | 0 <= i < |b[1..]| ensures HandleLess(v, b[1..][i].0) {
          assert b[1..][i] == b[i + 1];
        }
      }
      AboveExpZero(b[1..], v);
    }
  }

  lemma AboveTransitive(b: Base, u: Handle, v: Handle)
    requires Above(b, v) && HandleLess(u, v)
    ensures Above(b, u)
  {
  }

  /** The product of two monomials: a merge of two sorted base lists that
      adds the exponents of a shared base and drops a base whose exponent
      becomes 0. */
  function MulBase(a: Base, b: Base): Base
    decreases |a| + |b|
  {
    if a == [] then b
    else if b == [] then a
    else if HandleLess(a[0].0, b[0].0) then [a[0]] + MulBase(a[1..], b)
    else if HandleLess(b[0].0, a[0].0) then [b[0]] + MulBase(a, b[1..])
    else
      var e := a[0].1 + b[0].1;
      if e == 0 then MulBase(a[1..], b[1..]) else [(a[0].0, e)] + MulBase(a[1..], b[1..])
  }

  lemma {:induction false} MulBaseAbove(a: Base, b: Base, v: Handle)
    requires Above(a, v) && Above(b, v)
    ensures Above(MulBase(a, b), v)
    decreases |a| + |b|
  {
    if a == [] || b == [] {
    } else if HandleLess(a[0].0, b[0].0) {
      MulBaseAbove(a[1..], b, v);
    } else if HandleLess(b[0].0, a[0].0) {
      MulBaseAbove(a, b[1..], v);
    } else {
      MulBaseAbove(a[1..], b[1..], v);
    }
  }

  lemma TailAbove(b: Base)
    requires CanonicalBase(b) && b != []
    ensures CanonicalBase(b[1..]) && Above(b[1..], b[0].0)
  {
    assert b == [b[0]] + b[1..];
    ConsCanonical(b[0], b[1..]);
  }

  /** The product of two canonical monomials is canonical. */
  lemma {:induction false} MulBaseCanonical(a: Base, b: Base)
    requires CanonicalBase(a) && CanonicalBase(b)
    ensures CanonicalBase(MulBase(a, b))
    decreases |a| + |b|
  {
    if a == [] || b == [] {
    } else {
      TailAbove(a);
      TailAbove(b);
      if HandleLess(a[0].0, b[0].0) {
        MulBaseCanonical(a[1..], b);
        assert Above(b, a[0].0);
        MulBaseAbove(a[1..], b, a[0].0);
        ConsCanonical(a[0], MulBase(a[1..], b));
      } else if HandleLess(b[0].0, a[0].0) {
        MulBaseCanonical(a, b[1..]);
        assert Above(a, b[0].0);
        MulBaseAbove(a, b[1..], b[0].0);
        ConsCanonical(b[0], MulBase(a, b[1..]));
      } else {
        MulBaseCanonical(a[1..], b[1..]);
        var e := a[0].1 + b[0].1;
        if e != 0 {
          assert a[0].0 == b[0].0;
          MulBaseAbove(a[1..], b[1..], a[0].0);
          ConsCanonical((a[0].0, e), MulBase(a[1..], b[1..]));
        }
      }
    }
  }

  /** Exponents add under the product of canonical monomials. */
  lemma {:induction false} MulBaseExp(a: Base, b: Base, v: Handle)
    requires CanonicalBase(a) && CanonicalBase(b)
    ensures ExpOf(MulBase(a, b), v) == ExpOf(a, v) + ExpOf(b, v)
    decreases |a| + |b|
  {
    if a == [] || b == [] {
    } else {
      TailAbove(a);
      TailAbove(b);
      if HandleLess(a[0].0, b[0].0) {
        MulBaseExp(a[1..], b, v);
        assert ([a[0]] + MulBase(a[1..], b))[1..] == MulBase(a[1..], b);
        if v == a[0].0 {
          AboveExpZero(a[1..], v);
          assert Above(b, v);
          AboveExpZero(b, v);
        }
      } else if HandleLess(b[0].0, a[0].0) {
        MulBaseExp(a, b[1..], v);
        assert ([b[0]] + MulBase(a, b[1..]))[1..] == MulBase(a, b[1..]);
        if v == b[0].0 {
          AboveExpZero(b[1..], v);
          assert Above(a, v);
          AboveExpZero(a, v);
        }
      } else {
        assert a[0].0 == b[0].0;
        MulBaseExp(a[1..], b[1..], v);
        var e := a[0].1 + b[0].1;
        if v == a[0].0 {
          AboveExpZero(a[1..], v);
          AboveExpZero(b[1..], v);
          if e != 0 {
            assert ([(a[0].0, e)] + MulBase(a[1..], b[1..]))[0] == (v, e);
          } else {
            MulBaseAbove(a[1..], b[1..], v);
            AboveExpZero(MulBase(a[1..], b[1..]), v);
          }
        } else if e != 0 {
          assert ([(a[0].0, e)] + MulBase(a[1..], b[1..]))[1..] == MulBase(a[1..], b[1..]);
        }
      }
    }
  }

  /** The first node of a monomial carries the first exponent. */
  lemma ExpOfHead(b: Base)
    ensures b != [] ==> ExpOf(b, b[0].0) == b[0].1
  {
  }

  /** A canonical monomial is determined by its exponents. */
  lemma {:induction false} CanonicalExt(a: Base, b: Base)
    requires CanonicalBase(a) && CanonicalBase(b)
    requires forall v :: ExpOf(a, v) == ExpOf(b, v)
    ensures a == b
    decreases |a| + |b|
  {
    if a == [] && b == [] {
    } else if a == [] {
      ExpOfHead(b);
      assert false;
    } else if b == [] {
      ExpOfHead(a);
      assert false;
    } else {
      TailAbove(a);
      TailAbove(b);
      var x, y := a[0].0, b[0].0;
      if HandleLess(x, y) {
        assert Above(b, x);
        AboveExpZero(b, x);
        ExpOfHead(a);
        assert false;
      } else if HandleLess(y, x) {
        assert Above(a, y);
        AboveExpZero(a, y);
        ExpOfHead(b);
        assert false;
      } else {
        assert x == y;
        assert a[0].1 == ExpOf(a, x) == ExpOf(b, x) == b[0].1;
        forall v ensures ExpOf(a[1..], v) == ExpOf(b[1..], v) {
          if v == x {
            AboveExpZero(a[1..], v);
            AboveExpZero(b[1..], v);
          } else {
            assert ExpOf(a, v) == ExpOf(a[1..], v);
            assert ExpOf(b, v) == ExpOf(b[1..], v);
          }
        }
        CanonicalExt(a[1..], b[1..]);
        assert a == [a[0]] + a[1..];
        assert b == [b[0]] + b[1..];
      }
    }
  }

  /** Monomial product is commutative on canonical monomials. */
  lemma MulBaseComm(a: Base, b: Base)
    requires CanonicalBase(a) && CanonicalBase(b)
    ensures MulBase(a, b) == MulBase(b, a)
  {
    MulBaseCanonical(a, b);
    MulBaseCanonical(b, a);
    forall v ensures ExpOf(MulBase(a, b), v) == ExpOf(MulBase(b, a), v) {
      MulBaseExp(a, b, v);
      MulBaseExp(b, a, v);
    }
    CanonicalExt(MulBase(a, b), MulBase(b, a));
  }

  /** Monomial product is associative on canonical monomials. */
  lemma MulBaseAssoc(a: Base, b: Base, c: Base)
    requires CanonicalBase(a) && CanonicalBase(b) && CanonicalBase(c)
    ensures MulBase(MulBase(a, b), c) == MulBase(a, MulBase(b, c))
  {
    MulBaseCanonical(a, b);
    MulBaseCanonical(b, c);
    MulBaseCanonical(MulBase(a, b), c);
    MulBaseCanonical(a, MulBase(b, c));
    forall v ensures ExpOf(MulBase(MulBase(a, b), c), v) == ExpOf(MulBase(a, MulBase(b, c)), v) {
      MulBaseExp(MulBase(a, b), c, v);
      MulBaseExp(a, b, v);
      MulBaseExp(a, MulBase(b, c), v);
      MulBaseExp(b, c, v);
    }
    CanonicalExt(MulBase(MulBase(a, b), c), MulBase(a, MulBase(b, c)));
  }

  lemma {:induction false} MulBaseHandles(a: Base, b: Base)
    ensures BaseHandles(MulBase(a, b)) <= BaseHandles(a) + BaseHandles(b)
    decreases |a| + |b|
  {
    if a == [] || b == [] {
    } else if HandleLess(a[0].0, b[0].0) {
      MulBaseHandles(a[1..], b);
      assert BaseHandles(a) == {a[0].0} + BaseHandles(a[1..]) by {
        assert forall i | 0 < i < |a| :: a[i] == a[1..][i - 1];
      }
      ConsHandles(a[0], MulBase(a[1..], b));
    } else if HandleLess(b[0].0, a[0].0) {
      MulBaseHandles(a, b[1..]);
      assert BaseHandles(b) == {b[0].0} + BaseHandles(b[1..]) by {
        assert forall i | 0 < i < |b| :: b[i] == b[1..][i - 1];
      }
      ConsHandles(b[0], MulBase(a, b[1..]));
    } else {
      MulBaseHandles(a[1..], b[1..]);
      assert BaseHandles(a) == {a[0].0} + BaseHandles(a[1..]) by {
        assert forall i | 0 < i < |a| :: a[i] == a[1..][i - 1];
      }
      assert BaseHandles(b) == {b[0].0} + BaseHandles(b[1..]) by {
        assert forall i | 0 < i < |b| :: b[i] == b[1..][i - 1];
      }
      ConsHandles((a[0].0, a[0].1 + b[0].1), MulBase(a[1..], b[1..]));
    }
  }

  lemma ConsHandles(x: (Handle, int), t: Base)
    ensures BaseHandles([x] + t) == {x.0} + BaseHandles(t)
  {
    var s := [x] + t;
    forall h | h in BaseHandles(s) ensures h in {x.0} + BaseHandles(t) {
      var i :| 0 <= i < |s| && s[i].0 == h;
      if i > 0 {
        assert s[i] == t[i - 1];
      }
    }
    forall h | h in {x.0} + BaseHandles(t) ensures h in BaseHandles(s) {
      if h == x.0 {
        assert s[0].0 == h;
      } else {
        var i :| 0 <= i < |t| && t[i].0 == h;
        assert s[i + 1] == t[i];
      }
    }
  }

  /** Every exponent multiplied by `i`, as `pow_i` does to a single term. */
  function ScaleBase(b: Base, i: int): (r: Base)
    ensures |r| == |b|
    ensures forall k | 0 <= k < |b| :: r[k] == (b[k].0, b[k].1 * i)
  {
    if b == [] then [] else [(b[0].0, b[0].1 * i)] + ScaleBase(b[1..], i)
  }

  lemma ScaleBaseFacts(b: Base, i: int)
    requires CanonicalBase(b) && i != 0
    ensures CanonicalBase(ScaleBase(b, i))
    ensures BaseHandles(ScaleBase(b, i)) == BaseHandles(b)
    ensures forall v :: ExpOf(ScaleBase(b, i), v) == ExpOf(b, v) * i
  {
    var r := ScaleBase(b, i);
    forall k | 0 <= k < |b| ensures r[k].1 != 0 {
      assert r[k].1 == b[k].1 * i;
    }
    forall v ensures ExpOf(r, v) == ExpOf(b, v) * i {
      ScaleExp(b, i, v);
    }
  }

  lemma {:induction false} ScaleExp(b: Base, i: int, v: Handle)
    ensures ExpOf(ScaleBase(b, i), v) == ExpOf(b, v) * i
  {
    if b != [] {
      ScaleExp(b[1..], i, v);
      assert ScaleBase(b, i)[1..] == ScaleBase(b[1..], i);
    }
  }

  /** Multiplying a monomial by its `i`-th power gives its `(i+1)`-th power:
      the single-term shortcut of `pow_i` agrees with repeated products. */
  lemma MulBaseScale(b: Base, i: int)
    requires CanonicalBase(b) && i != 0 && i != -1
    ensures MulBase(b, ScaleBase(b, i)) == ScaleBase(b, i + 1)
  {
    ScaleBaseFacts(b, i);
    ScaleBaseFacts(b, i + 1);
    MulBaseCanonical(b, ScaleBase(b, i));
    forall v ensures ExpOf(MulBase(b, ScaleBase(b, i)), v) == ExpOf(ScaleBase(b, i + 1), v) {
      MulBaseExp(b, ScaleBase(b, i), v);
      assert ExpOf(b, v) + ExpOf(b, v) * i == ExpOf(b, v) * (i + 1);
    }
    CanonicalExt(MulBase(b, ScaleBase(b, i)), ScaleBase(b, i + 1));
  }

  /** A monomial times its inverse is the empty monomial. */
  lemma MulBaseInverse(b: Base)
    requires CanonicalBase(b)
    ensures MulBase(b, ScaleBase(b, -1)) == []
  {
    ScaleBaseFacts(b, -1);
    MulBaseCanonical(b, ScaleBase(b, -1));
    forall v ensures ExpOf(MulBase(b, ScaleBase(b, -1)), v) == ExpOf([], v) {
      MulBaseExp(b, ScaleBase(b, -1), v);
    }
    CanonicalExt(MulBase(b, ScaleBase(b, -1)), []);
  }

  // ---------------------------------------------------------------------
  // cmp_base

  /** `std::cmp::Ordering`. */
  datatype Ordering = Less | Equal | Greater

  function Flip(o: Ordering): Ordering
  {
    match o
    case Less => Greater
    case Equal => Equal
    case Greater => Less
  }

  function CmpInt(x: int, y: int): Ordering
  {
    if x < y then Less else if x == y then Equal else Greater
  }

  /** `Ord for NodeRc`, taken here as the order handles are sorted by. */
  function CmpHandle(a: Handle, b: Handle): Ordering
  {
    if HandleLess(a, b) then Less else if a == b then Equal else Greater
  }

  /** The first loop of `cmp_base`: the handles, pairwise, first difference wins. */
  function CmpHandles(a: Base, b: Base): Ordering
    requires |a| == |b|
  {
    if a == [] then Equal
    else if CmpHandle(a[0].0, b[0].0) != Equal then CmpHandle(a[0].0, b[0].0)
    else CmpHandles(a[1..], b[1..])
  }

  /** The second loop of `cmp_base`: the exponents, pairwise. */
  function CmpExps(a: Base, b: Base): Ordering
    requires |a| == |b|
  {
    if a == [] then Equal
    else if CmpInt(a[0].1, b[0].1) != Equal then CmpInt(a[0].1, b[0].1)
    else CmpExps(a[1..], b[1..])
  }

  /** `cmp_base`: length first, then the bases, then the exponents. */
  function CmpBase(a: Base, b: Base): Ordering
  {
    if |a| != |b| then CmpInt(|a|, |b|)
    else if CmpHandles(a, b) != Equal then CmpHandles(a, b)
    else CmpExps(a, b)
  }

  /** `cmp_base` as written: two loops with early returns. */
  method CompareBase(a: Base, b: Base) returns (o: Ordering)
    ensures o == CmpBase(a, b)
  {
    if |a| != |b| {
      return CmpInt(|a|, |b|);
    }
    var i := 0;
    while i < |a|
      invariant 0 <= i <= |a|
      invariant CmpHandles(a, b) == CmpHandles(a[i..], b[i..])
    {
      var c := CmpHandle(a[i].0, b[i].0);
      if c != Equal {
        return c;
      }
      i := i + 1;
    }
    assert CmpHandles(a, b) == Equal;
    i := 0;
    while i < |a|
      invariant 0 <= i <= |a|
      invariant CmpExps(a, b) == CmpExps(a[i..], b[i..])
    {
      var c := CmpInt(a[i].1, b[i].1);
      if c != Equal {
        return c;
      }
      i := i + 1;
    }
    o := Equal;
  }

  lemma {:induction false} CmpHandlesFacts(a: Base, b: Base)
    requires |a| == |b|
    ensures CmpHandles(a, b) == Equal <==> (forall i | 0 <= i < |a| :: a[i].0 == b[i].0)
    ensures CmpHandles(b, a) == Flip(CmpHandles(a, b))
  {
    if a != [] {
      CmpHandlesFacts(a[1..], b[1..]);
      if (forall i | 0 <= i < |a| :: a[i].0 == b[i].0) {
        assert forall i | 0 <= i < |a[1..]| :: a[1..][i] == a[i + 1] && b[1..][i] == b[i + 1];
      }
      if CmpHandles(a, b) == Equal {
        forall i | 0 <= i < |a| ensures a[i].0 == b[i].0 {
          if i > 0 {
            assert a[i] == a[1..][i - 1] && b[i] == b[1..][i - 1];
          }
        }
      }
    }
  }

  lemma {:induction false} CmpExpsFacts(a: Base, b: Base)
    requires |a| == |b|
    ensures CmpExps(a, b) == Equal <==> (forall i | 0 <= i < |a| :: a[i].1 == b[i].1)
    ensures CmpExps(b, a) == Flip(CmpExps(a, b))
  {
    if a != [] {
      CmpExpsFacts(a[1..], b[1..]);
      if (forall i | 0 <= i < |a| :: a[i].1 == b[i].1) {
        assert forall i | 0 <= i < |a[1..]| :: a[1..][i] == a[i + 1] && b[1..][i] == b[i + 1];
      }
      if CmpExps(a, b) == Equal {
        forall i | 0 <= i < |a| ensures a[i].1 == b[i].1 {
          if i > 0 {
            assert a[i] == a[1..][i - 1] && b[i] == b[1..][i - 1];
          }
        }
      }
    }
  }

  /** `cmp_base` says Equal exactly for equal monomials, and swapping its
      arguments flips the answer. */
  lemma CmpBaseFacts(a: Base, b: Base)
    ensures CmpBase(a, b) == Equal <==> a == b
    ensures CmpBase(b, a) == Flip(CmpBase(a, b))
  {
    if |a| == |b| {
      CmpHandlesFacts(a, b);
      CmpExpsFacts(a, b);
      if CmpBase(a, b) == Equal {
        assert forall i | 0 <= i < |a| :: a[i] == b[i];
      }
    }
  }
}
