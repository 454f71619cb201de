/**
 * What `substitute` of core/src/builder.rs computes: a tuple is rebuilt
 * part by part, a variable becomes its image, and a polynomial whose
 * monomials are made of variables becomes the sum over its terms of the
 * coefficient times the powers of the variables' images. Substituting
 * nothing into such a polynomial gives it back.
 */
module SubstLaws {
  import opened Wrappers
  import opened Nodes
  import opened Polys
  import opened Monomials
  import opened PolyProduct
  import opened PolyRing
  import opened PolyPower
  import opened PolyOrder
  import opened Interning
  import opened Building
  import opened BuilderSteps
  import opened BuilderLaws

  /** What a node becomes when it is a variable: its image when the map
      names it, itself otherwise. */
  ghost function Image(s: Store, env: Env, v: Handle): (y: Handle)
    requires Consistent(s) && Held(s, v) && EnvHeld(s, env)
    ensures Held(s, y)
  {
    match Deref(s, v)
    case Var(name) => if name in env then env[name] else v
    case _ => v
  }

  lemma ImageExtends(s: Store, t: Store, env: Env, v: Handle)
    requires Consistent(s) && Consistent(t) && Extends(s, t) && Held(s, v) && EnvHeld(s, env)
    ensures Held(t, v) && EnvHeld(t, env) && Image(t, env, v) == Image(s, env, v)
  {
    DerefExtends(s, t, v);
    EnvExtends(s, t, env);
  }

  // ---------------------------------------------------------------------
  // Tuples

  /** A successful build ends in a tuple whose part `k` is what
      `substitute` made of `xs[k]`. */
  ghost predicate SubstOfParts(s: Store, r: Built, env: Env, top: nat, xs: seq<Handle>)
  {
    && TupleOfLength(r, |xs|)
    && (r.1.Ok? ==>
          forall k | 0 <= k < |xs| ::
            StepGives(s, r.0, SubstStep(env, top), xs[k], xs[k], Deref(r.0, r.1.value).parts[k]))
  }

  /** `substitute` on a tuple substitutes into every part, in order. */
  lemma SubstTuple(s: Store, h: Handle, env: Env)
    requires Consistent(s) && Held(s, h) && EnvHeld(s, env) && Deref(s, h).Tuple?
    ensures SubstOfParts(s, Subst(s, h, env), env, h.id, Deref(s, h).parts)
  {
    var parts := Deref(s, h).parts;
    PartsOfNode(s, h);
    var (t, hs) := SubstAll(s, parts, env, h.id);
    var r := Subst(s, h, env);
    assert r == TupleOf(t, hs);
    if r.1.Ok? {
      TracedParts(s, t, r.0, SubstStep(env, h.id), parts, parts, hs.value);
    }
  }

  /** `substitute`'s closure, applied to a variable in a later store,
      returned the variable's image. */
  lemma SubstVarStep(s: Store, w: Store, env: Env, top: nat, x: Handle, z: Handle)
    requires Consistent(s) && Held(s, x) && EnvHeld(s, env) && Deref(s, x).Var?
    requires StepGives(s, w, SubstStep(env, top), x, x, z)
    ensures z == Image(s, env, x)
  {
    var t := StepOrigin(s, w, SubstStep(env, top), x, x, z);
    ImageExtends(s, t, env, x);
    SubstVar(t, x, env);
  }

  /** A successful build ends in a tuple whose part `k` is the image of
      `xs[k]` wherever `xs[k]` is a variable. */
  ghost predicate ImagesOfParts(s: Store, r: Built, env: Env, xs: seq<Handle>)
    requires Consistent(s) && EnvHeld(s, env)
  {
    && TupleOfLength(r, |xs|)
    && (r.1.Ok? ==>
          forall k | 0 <= k < |xs| && Held(s, xs[k]) && Deref(s, xs[k]).Var? ::
            Deref(r.0, r.1.value).parts[k] == Image(s, env, xs[k]))
  }

  lemma ImagesParts(s: Store, r: Built, env: Env, top: nat, xs: seq<Handle>)
    requires Consistent(s) && EnvHeld(s, env) && SubstOfParts(s, r, env, top, xs)
    ensures ImagesOfParts(s, r, env, xs)
  {
    if r.1.Ok? {
      var parts := Deref(r.0, r.1.value).parts;
      forall k | 0 <= k < |xs| && Held(s, xs[k]) && Deref(s, xs[k]).Var?
        ensures parts[k] == Image(s, env, xs[k])
      {
        SubstVarStep(s, r.0, env, top, xs[k], parts[k]);
      }
    }
  }

  /** `substitute` on a tuple replaces every variable part by its image:
      `(x, y)` with `x ↦ a` becomes `(a, y)`. */
  lemma SubstTupleVars(s: Store, h: Handle, env: Env)
    requires Consistent(s) && Held(s, h) && EnvHeld(s, env) && Deref(s, h).Tuple?
    ensures ImagesOfParts(s, Subst(s, h, env), env, Deref(s, h).parts)
  {
    SubstTuple(s, h, env);
    ImagesParts(s, Subst(s, h, env), env, h.id, Deref(s, h).parts);
  }

  // ---------------------------------------------------------------------
  // Polynomials

  predicate IsI32(e: int)
  {
    -0x8000_0000 <= e < 0x8000_0000
  }

  /** A factor `v^e` whose substitution is plain: `v` is a variable, `e`
      fits in `i32`, and the image of `v` is a scalar whose `e`-th power
      exists and needs no node of its own. */
  ghost predicate PlainFactor(s: Store, env: Env, v: Handle, e: int)
    requires Consistent(s) && EnvHeld(s, env)
  {
    && Held(s, v) && Deref(s, v).Var? && IsI32(e)
    && var y := Image(s, env, v);
       && Scalar(s, y)
       && !PowIOpaque(PolyOf(s, y), e)
       && PowI(PolyOf(s, y), e as I32, Handle(0, 0)).Ok?
  }

  /** The polynomial `pow_i(poly(image of v), e)`. */
  ghost function FactorPoly(s: Store, env: Env, v: Handle, e: int): (q: PolyMap)
    requires Consistent(s) && EnvHeld(s, env) && PlainFactor(s, env, v, e)
    ensures Canonical(q)
  {
    PowI(PolyOf(s, Image(s, env, v)), e as I32, Handle(0, 0)).value
  }

  lemma FactorExtends(s: Store, t: Store, env: Env, v: Handle, e: int)
    requires Consistent(s) && Consistent(t) && Extends(s, t) && EnvHeld(s, env)
    requires PlainFactor(s, env, v, e)
    ensures EnvHeld(t, env) && PlainFactor(t, env, v, e)
    ensures FactorPoly(t, env, v, e) == FactorPoly(s, env, v, e)
  {
    var y := Image(s, env, v);
    ImageExtends(s, t, env, v);
    DerefExtends(s, t, v);
    DerefExtends(s, t, y);
    PolyOfExtends(s, t, y);
  }

  /** Every factor of the monomial is plain. */
  ghost predicate PlainBase(s: Store, env: Env, b: Base)
    requires Consistent(s) && EnvHeld(s, env)
    decreases |b|
  {
    b == [] || (PlainFactor(s, env, b[0].0, b[0].1) && PlainBase(s, env, b[1..]))
  }

  /** `acc` times the factors of `b`, multiplied in from the left. */
  ghost function FactorsFrom(s: Store, env: Env, b: Base, acc: PolyMap): (r: PolyMap)
    requires Consistent(s) && EnvHeld(s, env) && PlainBase(s, env, b) && Canonical(acc)
    ensures Canonical(r)
    decreases |b|
  {
    if b == [] then acc
    else
      var q := FactorPoly(s, env, b[0].0, b[0].1);
      TimesCanonical(acc, q);
      FactorsFrom(s, env, b[1..], Times(acc, q))
  }

  lemma {:induction false} BaseExtends(s: Store, t: Store, env: Env, b: Base, acc: PolyMap)
    requires Consistent(s) && Consistent(t) && Extends(s, t) && EnvHeld(s, env)
    requires PlainBase(s, env, b) && Canonical(acc)
    ensures EnvHeld(t, env) && PlainBase(t, env, b)
    ensures FactorsFrom(t, env, b, acc) == FactorsFrom(s, env, b, acc)
    decreases |b|
  {
    EnvExtends(s, t, env);
    if b != [] {
      FactorExtends(s, t, env, b[0].0, b[0].1);
      var q := FactorPoly(s, env, b[0].0, b[0].1);
      TimesCanonical(acc, q);
      BaseExtends(s, t, env, b[1..], Times(acc, q));
    }
  }

  /** `pow_i` on a plain factor's image interns the factor's power. */
  lemma RaiseFactor(s: Store, env: Env, v: Handle, e: int)
    requires Consistent(s) && EnvHeld(s, env) && PlainFactor(s, env, v, e)
    ensures InternsPoly(s, UniformOne(s, PowIOp(e as I32), Image(s, env, v)), FactorPoly(s, env, v, e))
  {
    UniformOneShape(s, PowIOp(e as I32), Image(s, env, v));
  }

  /** One factor: its variable becomes its image, `pow_i` raises it, and
      `mul` multiplies it into the accumulator. */
  lemma FactorStep(s: Store, env: Env, b: Base, acc: Handle, top: nat) returns (w: Store, a: Result<Handle, Error>)
    requires Consistent(s) && Held(s, acc) && Deref(s, acc).Poly? && EnvHeld(s, env)
    requires BaseBelow(s, b, top) && b != [] && PlainBase(s, env, b)
    ensures Consistent(w) && Extends(s, w)
    ensures a.Err? ==> SubstFactors(s, env, b, acc, top).1 == Err(HashCollision)
    ensures a.Ok? ==>
      && Held(w, a.value) && EnvHeld(w, env) && BaseBelow(w, b[1..], top)
      && Deref(w, a.value) == Poly(Times(Deref(s, acc).p, FactorPoly(s, env, b[0].0, b[0].1)))
      && SubstFactors(s, env, b, acc, top) == SubstFactors(w, env, b[1..], a.value, top)
  {
    var (v, e) := b[0];
    var y := Image(s, env, v);
    SubstVar(s, v, env);
    assert Subst(s, v, env) == (s, Ok(y));
    RaiseFactor(s, env, v, e);
    var (u, z) := UniformOne(s, PowIOp(e as I32), y);
    if z.Err? {
      w, a := u, Err(HashCollision);
    } else {
      DerefExtends(s, u, acc);
      var r := Uniform(u, MulOp, acc, z.value);
      MulScalars(u, acc, z.value);
      ExtendsTrans(s, u, r.0);
      w, a := r.0, r.1;
      if a.Ok? {
        EnvExtends(s, w, env);
        BaseBelowExtends(s, w, b[1..], top);
      }
    }
  }

  /** The factors of a plain monomial multiplied into a polynomial node:
      the node of the accumulator times the factors' powers. */
  lemma {:induction false} SubstFactorsValue(s: Store, env: Env, b: Base, acc: Handle, top: nat)
    requires Consistent(s) && Held(s, acc) && Deref(s, acc).Poly? && EnvHeld(s, env)
    requires BaseBelow(s, b, top) && PlainBase(s, env, b)
    ensures var r := SubstFactors(s, env, b, acc, top);
      && (r.1.Ok? ==> Deref(r.0, r.1.value) == Poly(FactorsFrom(s, env, b, Deref(s, acc).p)))
      && (r.1.Err? ==> r.1.error == HashCollision)
    decreases |b|
  {
    if b != [] {
      var w, a := FactorStep(s, env, b, acc, top);
      if a.Ok? {
        var q := FactorPoly(s, env, b[0].0, b[0].1);
        var p := Deref(s, acc).p;
        TimesCanonical(p, q);
        BaseExtends(s, w, env, b[1..], Times(p, q));
        SubstFactorsValue(w, env, b[1..], a.value, top);
      }
    }
  }

  /** A term starts from the node of its coefficient: `int(1)` times
      `rational(fac)`. */
  lemma TermStart(s: Store, env: Env, b: Base, fac: real, top: nat) returns (v: Store, a: Result<Handle, Error>)
    requires Consistent(s) && EnvHeld(s, env) && BaseBelow(s, b, top)
    ensures Consistent(v) && Extends(s, v)
    ensures a.Err? ==> SubstTerm(s, env, b, fac, top).1 == Err(HashCollision)
    ensures a.Ok? ==>
      && Held(v, a.value) && Deref(v, a.value) == Poly(Rational(fac))
      && EnvHeld(v, env) && BaseBelow(v, b, top)
      && SubstTerm(s, env, b, fac, top) == SubstFactors(v, env, b, a.value, top)
  {
    var (t, c) := RationalNode(s, fac);
    if c.Err? {
      v, a := t, Err(HashCollision);
    } else {
      var (u, one) := IntNode(t, 1);
      ExtendsTrans(s, t, u);
      if one.Err? {
        v, a := u, Err(HashCollision);
      } else {
        DerefExtends(t, u, c.value);
        var r := Uniform(u, MulOp, one.value, c.value);
        MulScalars(u, one.value, c.value);
        assert Rational(1 as I64 as real) == One();
        TimesOne(Rational(fac));
        ExtendsTrans(s, u, r.0);
        v, a := r.0, r.1;
        if a.Ok? {
          EnvExtends(s, v, env);
          BaseBelowExtends(s, v, b, top);
        }
      }
    }
  }

  /** A plain term of a polynomial substitutes to the node of its
      coefficient times its factors' powers. */
  lemma SubstTermValue(s: Store, env: Env, b: Base, fac: real, top: nat)
    requires Consistent(s) && EnvHeld(s, env) && BaseBelow(s, b, top) && PlainBase(s, env, b)
    ensures var r := SubstTerm(s, env, b, fac, top);
      && (r.1.Ok? ==> Deref(r.0, r.1.value) == Poly(FactorsFrom(s, env, b, Rational(fac))))
      && (r.1.Err? ==> r.1.error == HashCollision)
  {
    var v, a := TermStart(s, env, b, fac, top);
    if a.Ok? {
      BaseExtends(s, v, env, b, Rational(fac));
      SubstFactorsValue(v, env, b, a.value, top);
    }
  }

  /** Every monomial of the list is plain. */
  ghost predicate PlainTerms(s: Store, env: Env, terms: seq<(Base, real)>)
    requires Consistent(s) && EnvHeld(s, env)
    decreases |terms|
  {
    terms == [] || (PlainBase(s, env, terms[0].0) && PlainTerms(s, env, terms[1..]))
  }

  /** `acc` plus, term by term, the coefficient times the factors' powers. */
  ghost function SumFrom(s: Store, env: Env, terms: seq<(Base, real)>, acc: PolyMap): (r: PolyMap)
    requires Consistent(s) && EnvHeld(s, env) && PlainTerms(s, env, terms) && Canonical(acc)
    ensures Canonical(r)
    decreases |terms|
  {
    if terms == [] then acc
    else
      var q := FactorsFrom(s, env, terms[0].0, Rational(terms[0].1));
      PlusCanonical(acc, q);
      SumFrom(s, env, terms[1..], Plus(acc, q))
  }

  lemma {:induction false} TermsExtends(s: Store, t: Store, env: Env, terms: seq<(Base, real)>, acc: PolyMap)
    requires Consistent(s) && Consistent(t) && Extends(s, t) && EnvHeld(s, env)
    requires PlainTerms(s, env, terms) && Canonical(acc)
    ensures EnvHeld(t, env) && PlainTerms(t, env, terms)
    ensures SumFrom(t, env, terms, acc) == SumFrom(s, env, terms, acc)
    decreases |terms|
  {
    EnvExtends(s, t, env);
    if terms != [] {
      BaseExtends(s, t, env, terms[0].0, Rational(terms[0].1));
      var q := FactorsFrom(s, env, terms[0].0, Rational(terms[0].1));
      PlusCanonical(acc, q);
      TermsExtends(s, t, env, terms[1..], Plus(acc, q));
    }
  }

  /** One term of the sum: substituted, then added to the running total. */
  lemma SumStep(s: Store, env: Env, terms: seq<(Base, real)>, acc: Handle, top: nat) returns (u: Store, a: Result<Handle, Error>)
    requires Consistent(s) && Held(s, acc) && Deref(s, acc).Poly? && EnvHeld(s, env)
    requires TermsBelow(s, terms, top) && terms != [] && PlainTerms(s, env, terms)
    ensures Consistent(u) && Extends(s, u)
    ensures a.Err? ==> SubstSum(s, env, terms, acc, top).1 == Err(HashCollision)
    ensures a.Ok? ==>
      && Held(u, a.value) && EnvHeld(u, env) && TermsBelow(u, terms[1..], top)
      && Deref(u, a.value) == Poly(Plus(Deref(s, acc).p, FactorsFrom(s, env, terms[0].0, Rational(terms[0].1))))
      && SubstSum(s, env, terms, acc, top) == SubstSum(u, env, terms[1..], a.value, top)
  {
    var (b, fac) := terms[0];
    var (t, x) := SubstTerm(s, env, b, fac, top);
    SubstTermValue(s, env, b, fac, top);
    if x.Err? {
      u, a := t, Err(HashCollision);
    } else {
      DerefExtends(s, t, acc);
      var r := Uniform(t, AddOp, acc, x.value);
      AddScalars(t, acc, x.value);
      ExtendsTrans(s, t, r.0);
      u, a := r.0, r.1;
      if a.Ok? {
        EnvExtends(s, u, env);
        TermsBelowExtends(s, u, terms[1..], top);
      }
    }
  }

  lemma {:induction false} SubstSumValue(s: Store, env: Env, terms: seq<(Base, real)>, acc: Handle, top: nat)
    requires Consistent(s) && Held(s, acc) && Deref(s, acc).Poly? && EnvHeld(s, env)
    requires TermsBelow(s, terms, top) && PlainTerms(s, env, terms)
    ensures var r := SubstSum(s, env, terms, acc, top);
      && (r.1.Ok? ==> Deref(r.0, r.1.value) == Poly(SumFrom(s, env, terms, Deref(s, acc).p)))
      && (r.1.Err? ==> r.1.error == HashCollision)
    decreases |terms|
  {
    if terms != [] {
      var u, a := SumStep(s, env, terms, acc, top);
      if a.Ok? {
        var q := FactorsFrom(s, env, terms[0].0, Rational(terms[0].1));
        var p := Deref(s, acc).p;
        PlusCanonical(p, q);
        TermsExtends(s, u, env, terms[1..], Plus(p, q));
        SubstSumValue(u, env, terms[1..], a.value, top);
      }
    }
  }

  /** `substitute` on a polynomial whose monomials are plain: the node of
      the sum over its terms of the coefficient times the powers of the
      variables' images. It fails only with the hash collision. */
  lemma SubstPolyValue(s: Store, h: Handle, env: Env)
    requires Consistent(s) && Held(s, h) && EnvHeld(s, env) && Deref(s, h).Poly?
    requires PlainTerms(s, env, Terms(Deref(s, h).p))
    ensures var r := Subst(s, h, env);
      && (r.1.Ok? ==> Deref(r.0, r.1.value) == Poly(SumFrom(s, env, Terms(Deref(s, h).p), Zero())))
      && (r.1.Err? ==> r.1.error == HashCollision)
  {
    var terms := Terms(Deref(s, h).p);
    var (t, z) := IntNode(s, 0);
    if z.Ok? {
      assert Rational(0 as I64 as real) == Zero();
      TermsOfNode(s, h);
      TermsBelowExtends(s, t, terms, h.id);
      EnvExtends(s, t, env);
      TermsExtends(s, t, env, terms, Zero());
      SubstSumValue(t, env, terms, z.value, h.id);
    }
  }

  // ---------------------------------------------------------------------
  // Substituting nothing

  /** Every node of the monomial is a variable the map does not name, with
      an `i32` exponent. */
  ghost predicate UnmappedBase(s: Store, env: Env, b: Base)
    requires Consistent(s)
    decreases |b|
  {
    b == [] ||
      (&& Held(s, b[0].0) && Deref(s, b[0].0).Var? && Deref(s, b[0].0).name !in env
       && IsI32(b[0].1)
       && UnmappedBase(s, env, b[1..]))
  }

  lemma RatPowOne(i: int)
    ensures RatPow(1.0, i) == 1.0
  {
    var n: nat := if i >= 0 then i else -i;
    NatPowOne(n);
  }

  lemma {:induction false} NatPowOne(n: nat)
    ensures NatPow(1.0, n) == 1.0
    decreases n
  {
    if n > 0 {
      NatPowOne(n - 1);
    }
  }

  /** An unmapped variable raised to `e ≠ 0` is the single term `v^e`. */
  lemma UnmappedFactor(s: Store, env: Env, v: Handle, e: int)
    requires Consistent(s) && EnvHeld(s, env) && Held(s, v) && Deref(s, v).Var?
    requires Deref(s, v).name !in env && IsI32(e) && e != 0
    ensures PlainFactor(s, env, v, e)
    ensures FactorPoly(s, env, v, e) == map[[(v, e)] := 1.0]
  {
    var p := PolyOf(s, v);
    assert Image(s, env, v) == v;
    assert p == map[[(v, 1)] := 1.0];
    assert |p| == 1 && OnlyKey(p) == [(v, 1)];
    PowISingle(p, e as I32, Handle(0, 0));
    assert ScaleBase([(v, 1)], e) == [(v, e)];
    RatPowOne(e);
  }

  /** Multiplying a canonical base by a single factor above all its nodes
      appends the factor. */
  lemma {:induction false} MulBaseSnoc(a: Base, x: (Handle, int))
    requires CanonicalBase(a + [x])
    ensures MulBase(a, [x]) == a + [x]
    decreases |a|
  {
    if a != [] {
      assert (a + [x])[0] == a[0] && (a + [x])[|a|] == x;
      assert HandleLess(a[0].0, x.0);
      assert (a + [x])[1..] == a[1..] + [x];
      TailAbove(a + [x]);
      MulBaseSnoc(a[1..], x);
      assert a == [a[0]] + a[1..];
    }
  }

  /** One unmapped factor multiplied into `c·a`. */
  lemma IdentityStep(s: Store, env: Env, a: Base, x: (Handle, int), c: real)
    requires Consistent(s) && EnvHeld(s, env) && Held(s, x.0) && Deref(s, x.0).Var?
    requires Deref(s, x.0).name !in env && IsI32(x.1)
    requires CanonicalBase(a + [x]) && c != 0.0
    ensures PlainFactor(s, env, x.0, x.1)
    ensures Times(map[a := c], FactorPoly(s, env, x.0, x.1)) == map[a + [x] := c]
  {
    assert (a + [x])[|a|] == x;
    UnmappedFactor(s, env, x.0, x.1);
    TimesMonomials(a, c, [x], 1.0);
    MulBaseSnoc(a, x);
    assert Product(c, 1.0) == c;
  }

  lemma CanonicalPrefix(a: Base, b: Base)
    requires CanonicalBase(a + b) && b != []
    ensures CanonicalBase(a + [b[0]]) && a + b == (a + [b[0]]) + b[1..]
  {
    var a' := a + [b[0]];
    assert forall i | 0 <= i < |a'| :: a'[i] == (a + b)[i];
  }

  /** The factors of an unmapped monomial, multiplied into `c·a`, rebuild
      `c·(a b)`. */
  lemma {:induction false} FactorsIdentity(s: Store, env: Env, a: Base, b: Base, c: real)
    requires Consistent(s) && EnvHeld(s, env) && UnmappedBase(s, env, b)
    requires CanonicalBase(a + b) && CanonicalBase(a) && c != 0.0
    ensures PlainBase(s, env, b)
    ensures FactorsFrom(s, env, b, map[a := c]) == map[a + b := c]
    decreases |b|
  {
    if b == [] {
      assert a + b == a;
    } else {
      var a' := a + [b[0]];
      CanonicalPrefix(a, b);
      IdentityStep(s, env, a, b[0], c);
      FactorsIdentity(s, env, a', b[1..], c);
    }
  }

  /** Every monomial of `p` is unmapped. */
  ghost predicate UnmappedPoly(s: Store, env: Env, p: PolyMap)
    requires Consistent(s)
  {
    forall b | b in p :: UnmappedBase(s, env, b)
  }

  /** The monomials a list of terms mentions. */
  function TermBases(terms: seq<(Base, real)>): set<Base>
    decreases |terms|
  {
    if terms == [] then {} else {terms[0].0} + TermBases(terms[1..])
  }

  /** `terms` lists terms of `p`, none of them with a monomial in `ks` and
      no monomial twice. */
  ghost predicate TermsOf(p: PolyMap, terms: seq<(Base, real)>, ks: set<Base>)
    decreases |terms|
  {
    terms == [] ||
      (&& terms[0].0 in p && terms[0].1 == p[terms[0].0] && terms[0].0 !in ks
       && TermsOf(p, terms[1..], {terms[0].0} + ks))
  }

  /** One term of `p`, rebuilt from its unmapped factors and added to the
      part of `p` already summed. */
  lemma TermIdentity(s: Store, env: Env, p: PolyMap, b: Base, ks: set<Base>)
    requires Consistent(s) && EnvHeld(s, env) && Canonical(p)
    requires b in p && b !in ks && UnmappedBase(s, env, b)
    ensures PlainBase(s, env, b)
    ensures Plus(Restrict(p, ks), FactorsFrom(s, env, b, Rational(p[b]))) == Restrict(p, {b} + ks)
  {
    assert [] + b == b;
    FactorsIdentity(s, env, [], b, p[b]);
    assert map[[] := p[b]] == Rational(p[b]);
    RestrictAdd(p, b, ks);
    PlusLaws(map[b := p[b]], Restrict(p, ks), Zero());
  }

  /** The terms of `p` rebuilt and added, one by one, to the part of `p`
      already summed. */
  lemma {:induction false} SumIdentity(s: Store, env: Env, p: PolyMap, terms: seq<(Base, real)>, ks: set<Base>)
    requires Consistent(s) && EnvHeld(s, env) && Canonical(p) && UnmappedPoly(s, env, p)
    requires TermsOf(p, terms, ks)
    ensures PlainTerms(s, env, terms)
    ensures SumFrom(s, env, terms, Restrict(p, ks)) == Restrict(p, ks + TermBases(terms))
    decreases |terms|
  {
    if terms == [] {
      assert ks + TermBases(terms) == ks;
    } else {
      var b := terms[0].0;
      TermIdentity(s, env, p, b, ks);
      SumIdentity(s, env, p, terms[1..], {b} + ks);
      SumCons(s, env, terms, Restrict(p, ks));
      BasesCons(terms, ks);
    }
  }

  lemma BasesCons(terms: seq<(Base, real)>, ks: set<Base>)
    requires terms != []
    ensures {terms[0].0} + ks + TermBases(terms[1..]) == ks + TermBases(terms)
  {
  }

  /** `SumFrom` takes the first term and goes on with the rest. */
  lemma SumCons(s: Store, env: Env, terms: seq<(Base, real)>, acc: PolyMap)
    requires Consistent(s) && EnvHeld(s, env) && terms != [] && Canonical(acc)
    requires PlainBase(s, env, terms[0].0) && PlainTerms(s, env, terms[1..])
    ensures PlainTerms(s, env, terms)
    ensures Canonical(Plus(acc, FactorsFrom(s, env, terms[0].0, Rational(terms[0].1))))
    ensures SumFrom(s, env, terms, acc)
         == SumFrom(s, env, terms[1..], Plus(acc, FactorsFrom(s, env, terms[0].0, Rational(terms[0].1))))
  {
    PlusCanonical(acc, FactorsFrom(s, env, terms[0].0, Rational(terms[0].1)));
  }

  lemma {:induction false} TermsOfIndex(p: PolyMap, terms: seq<(Base, real)>, ks: set<Base>)
    requires forall i | 0 <= i < |terms| :: terms[i].0 in p && terms[i].1 == p[terms[i].0] && terms[i].0 !in ks
    requires forall i, j | 0 <= i < j < |terms| :: terms[i].0 != terms[j].0
    ensures TermsOf(p, terms, ks)
    ensures TermBases(terms) == set i | 0 <= i < |terms| :: terms[i].0
    decreases |terms|
  {
    if terms != [] {
      var rest := terms[1..];
      forall i | 0 <= i < |rest|
        ensures rest[i].0 in p && rest[i].1 == p[rest[i].0] && rest[i].0 !in {terms[0].0} + ks
      {
        assert rest[i] == terms[i + 1];
      }
      forall i, j | 0 <= i < j < |rest| ensures rest[i].0 != rest[j].0 {
        assert rest[i] == terms[i + 1] && rest[j] == terms[j + 1];
      }
      TermsOfIndex(p, rest, {terms[0].0} + ks);
      var all := set i | 0 <= i < |terms| :: terms[i].0;
      forall k | k in all ensures k in TermBases(terms) {
        var i :| 0 <= i < |terms| && terms[i].0 == k;
        if i > 0 {
          assert rest[i - 1] == terms[i];
        }
      }
      forall k | k in TermBases(terms) ensures k in all {
        if k != terms[0].0 {
          var i :| 0 <= i < |rest| && rest[i].0 == k;
          assert terms[i + 1] == rest[i];
        }
      }
    }
  }

  /** A polynomial whose variables are all unmapped is rebuilt exactly. */
  lemma PolyIdentity(s: Store, env: Env, p: PolyMap)
    requires Consistent(s) && EnvHeld(s, env) && Canonical(p) && UnmappedPoly(s, env, p)
    ensures PlainTerms(s, env, Terms(p)) && SumFrom(s, env, Terms(p), Zero()) == p
  {
    TermsOfPoly(p);
    SumIdentity(s, env, p, Terms(p), {});
    RestrictEnds(p);
    assert {} + p.Keys == p.Keys;
  }

  /** `Terms(p)` names no monomial twice. */
  lemma TermsDistinct(p: PolyMap)
    ensures forall i, j | 0 <= i < j < |Terms(p)| :: Terms(p)[i].0 != Terms(p)[j].0
  {
    var terms := Terms(p);
    var ks := SortedKeys(p.Keys);
    forall i, j | 0 <= i < j < |terms| ensures terms[i].0 != terms[j].0 {
      assert terms[i].0 == ks[i] && terms[j].0 == ks[j];
      BaseLessIrreflexive(ks[i]);
    }
  }

  /** `Terms(p)` names every monomial of `p`. */
  lemma TermsCover(p: PolyMap)
    ensures forall k | k in p :: exists i | 0 <= i < |Terms(p)| :: Terms(p)[i].0 == k
  {
    var terms := Terms(p);
    var ks := SortedKeys(p.Keys);
    forall k | k in p ensures exists i | 0 <= i < |terms| :: terms[i].0 == k {
      assert k in ks;
      var i :| 0 <= i < |ks| && ks[i] == k;
      assert terms[i].0 == k;
    }
  }

  /** The terms `Terms(p)` lists are all of `p`'s, each once. */
  lemma TermsOfPoly(p: PolyMap)
    ensures TermsOf(p, Terms(p), {}) && TermBases(Terms(p)) == p.Keys
  {
    var terms := Terms(p);
    TermsDistinct(p);
    TermsOfIndex(p, terms, {});
    TermsCover(p);
    var all := set i | 0 <= i < |terms| :: terms[i].0;
    assert all == p.Keys;
  }

  /** `substitute` with a map that names none of a polynomial's variables
      returns the polynomial's own node: `x·y + 2` with `{z ↦ a}` is
      `x·y + 2` again. It fails only with the hash collision. */
  lemma SubstNothing(s: Store, h: Handle, env: Env)
    requires Consistent(s) && Held(s, h) && EnvHeld(s, env) && Deref(s, h).Poly?
    requires UnmappedPoly(s, env, Deref(s, h).p)
    ensures var r := Subst(s, h, env);
      && (r.1.Ok? ==> r.1.value == h)
      && (r.1.Err? ==> r.1.error == HashCollision)
  {
    PolyIdentity(s, env, Deref(s, h).p);
    SubstPolyValue(s, h, env);
    var r := Subst(s, h, env);
    if r.1.Ok? {
      DerefExtends(s, r.0, h);
      HeldHandlesEq(r.0, r.1.value, h);
    }
  }
}
