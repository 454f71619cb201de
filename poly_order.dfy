/**
 * The total order on polynomials (src/poly.rs `cmp_poly`): the term count
 * first, then the sorted lists of monomials compared pairwise with
 * `cmp_base`. Coefficients never take part.
 */
module PolyOrder {
  import opened Nodes
  import opened Monomials
  import opened Polys
  import opened SeqLaws

  /** The derived order on `(NodeRc, i64)`: the handle, then the exponent. */
  predicate EntryLess(x: (Handle, int), y: (Handle, int))
  {
    HandleLess(x.0, y.0) || (x.0 == y.0 && x.1 < y.1)
  }

  /** The derived order on `Vec<(NodeRc, i64)>` that `sort` uses:
      lexicographic, a proper prefix before its extensions. */
  predicate BaseLess(a: Base, b: Base)
    decreases |a|
  {
    |b| > 0 && (|a| == 0 || EntryLess(a[0], b[0]) || (a[0] == b[0] && BaseLess(a[1..], b[1..])))
  }

  lemma {:induction false} BaseLessIrreflexive(a: Base)
    ensures !BaseLess(a, a)
    decreases |a|
  {
    if |a| > 0 {
      BaseLessIrreflexive(a[1..]);
    }
  }

  lemma {:induction false} BaseLessTransitive(a: Base, b: Base, c: Base)
    requires BaseLess(a, b) && BaseLess(b, c)
    ensures BaseLess(a, c)
    decreases |a|
  {
    if |a| > 0 && a[0] == b[0] && b[0] == c[0] {
      BaseLessTransitive(a[1..], b[1..], c[1..]);
    }
  }

  lemma {:induction false} BaseLessTotal(a: Base, b: Base)
    requires a != b
    ensures BaseLess(a, b) || BaseLess(b, a)
    decreases |a|
  {
    if |a| > 0 && |b| > 0 && a[0] == b[0] {
      assert a == [a[0]] + a[1..] && b == [b[0]] + b[1..];
      BaseLessTotal(a[1..], b[1..]);
    }
  }

  lemma BelowAll(x: Base, m: Base, ks: set<Base>)
    requires BaseLess(x, m) && forall k | k in ks && k != m :: BaseLess(m, k)
    ensures forall k | k in ks && k != x :: BaseLess(x, k)
  {
    forall k | k in ks && k != x ensures BaseLess(x, k) {
      if k != m {
        BaseLessTransitive(x, m, k);
      }
    }
  }

  /** The least monomial of a nonempty set. */
  ghost function MinBase(ks: set<Base>): (m: Base)
    requires ks != {}
    ensures m in ks && forall k | k in ks && k != m :: BaseLess(m, k)
    decreases |ks|
  {
    var x :| x in ks;
    if ks == {x} then x
    else
      var m' := MinBase(ks - {x});
      if BaseLess(x, m') then
        BelowAll(x, m', ks - {x});
        x
      else
        BaseLessTotal(x, m');
        m'
  }

  /** A least element is the least element. */
  lemma MinBaseUnique(ks: set<Base>, m: Base)
    requires m in ks && forall k | k in ks && k != m :: BaseLess(m, k)
    ensures m == MinBase(ks)
  {
    var n := MinBase(ks);
    if m != n {
      BaseLessTransitive(m, n, m);
      BaseLessIrreflexive(m);
    }
  }

  predicate Increasing(s: seq<Base>)
  {
    forall i, j | 0 <= i < j < |s| :: BaseLess(s[i], s[j])
  }

  lemma ConsIncreasing(m: Base, r: seq<Base>)
    requires Increasing(r) && forall j | 0 <= j < |r| :: BaseLess(m, r[j])
    ensures Increasing([m] + r)
  {
    var s := [m] + r;
    forall i, j | 0 <= i < j < |s| ensures BaseLess(s[i], s[j]) {
      assert s[j] == r[j - 1];
      if i > 0 {
        assert s[i] == r[i - 1];
      }
    }
  }

  /** The monomials of a polynomial in the order `sort` leaves them in
      (the keys are distinct, so the coefficients never decide). */
  ghost function SortedKeys(ks: set<Base>): (s: seq<Base>)
    ensures |s| == |ks| && Increasing(s)
    ensures forall k :: k in s <==> k in ks
    decreases |ks|
  {
    if ks == {} then []
    else
      var m := MinBase(ks);
      var r := SortedKeys(ks - {m});
      assert forall j | 0 <= j < |r| :: r[j] in ks - {m};
      ConsIncreasing(m, r);
      [m] + r
  }

  /** The loop of `cmp_poly` over the two sorted lists, zipped: the first
      pair that `cmp_base` does not call Equal decides. */
  function CmpSorted(xs: seq<Base>, ys: seq<Base>): Ordering
    requires |xs| == |ys|
  {
    if xs == [] then Equal
    else if CmpBase(xs[0], ys[0]) != Equal then CmpBase(xs[0], ys[0])
    else CmpSorted(xs[1..], ys[1..])
  }

  /** `cmp_poly` */
  ghost function CmpPoly(a: PolyMap, b: PolyMap): Ordering
  {
    if |a| != |b| then CmpInt(|a|, |b|)
    else CmpSorted(SortedKeys(a.Keys), SortedKeys(b.Keys))
  }

  lemma {:induction false} CmpSortedFacts(xs: seq<Base>, ys: seq<Base>)
    requires |xs| == |ys|
    ensures CmpSorted(xs, ys) == Equal <==> xs == ys
    ensures CmpSorted(ys, xs) == Flip(CmpSorted(xs, ys))
    decreases |xs|
  {
    if xs != [] {
      CmpBaseFacts(xs[0], ys[0]);
      CmpSortedFacts(xs[1..], ys[1..]);
      assert xs == [xs[0]] + xs[1..] && ys == [ys[0]] + ys[1..];
    }
  }

  /** `cmp_poly` calls two polynomials Equal exactly when they have the same
      monomials, whatever their coefficients, and swapping the arguments
      flips the answer. A polynomial with fewer terms is always Less. */
  lemma CmpPolyFacts(a: PolyMap, b: PolyMap)
    ensures CmpPoly(a, b) == Equal <==> a.Keys == b.Keys
    ensures CmpPoly(b, a) == Flip(CmpPoly(a, b))
    ensures |a| < |b| ==> CmpPoly(a, b) == Less
  {
    var xs, ys := SortedKeys(a.Keys), SortedKeys(b.Keys);
    if |a| == |b| {
      CmpSortedFacts(xs, ys);
      if xs == ys {
        assert forall k :: k in a.Keys <==> k in b.Keys by {
          forall k ensures k in a.Keys <==> k in b.Keys {
            assert k in xs <==> k in ys;
          }
        }
      }
    }
  }

  /** Finds the least monomial with one pass over the set. */
  method MinKey(ks: set<Base>) returns (m: Base)
    requires ks != {}
    ensures m == MinBase(ks)
  {
    m :| m in ks;
    var todo := ks - {m};
    while todo != {}
      invariant todo <= ks && m in ks && m !in todo
      invariant forall k | k in ks - todo && k != m :: BaseLess(m, k)
      decreases |todo|
    {
      var y :| y in todo;
      if BaseLess(y, m) {
        BelowAll(y, m, ks - todo);
        m := y;
      } else {
        BaseLessTotal(y, m);
      }
      todo := todo - {y};
    }
    MinBaseUnique(ks, m);
  }

  lemma SortedKeysStep(ks: set<Base>, m: Base, s: seq<Base>)
    requires ks != {} && m == MinBase(ks)
    ensures s + SortedKeys(ks) == (s + [m]) + SortedKeys(ks - {m})
  {
    var r := SortedKeys(ks - {m});
    assert SortedKeys(ks) == [m] + r;
    Assoc(s, [m], r);
  }

  /** `sort` on the monomials: repeatedly moves the least one out. */
  method SortKeys(ks: set<Base>) returns (s: seq<Base>)
    ensures s == SortedKeys(ks)
  {
    var rest := ks;
    s := [];
    while rest != {}
      invariant rest <= ks
      invariant s + SortedKeys(rest) == SortedKeys(ks)
      decreases |rest|
    {
      var m := MinKey(rest);
      SortedKeysStep(rest, m, s);
      s := s + [m];
      rest := rest - {m};
    }
  }

  /** `cmp_poly` as written: the term counts, then a loop with early return
      over the zipped sorted monomials. */
  method ComparePoly(a: PolyMap, b: PolyMap) returns (o: Ordering)
    ensures o == CmpPoly(a, b)
  {
    if |a| != |b| {
      return CmpInt(|a|, |b|);
    }
    var ea := SortKeys(a.Keys);
    var eb := SortKeys(b.Keys);
    var i := 0;
    while i < |ea|
      invariant 0 <= i <= |ea| == |eb|
      invariant CmpSorted(ea, eb) == CmpSorted(ea[i..], eb[i..])
    {
      var c := CompareBase(ea[i], eb[i]);
      if c != Equal {
        return c;
      }
      assert ea[i..][1..] == ea[i + 1..] && eb[i..][1..] == eb[i + 1..];
      i := i + 1;
    }
    o := Equal;
  }
}
