/**
 * What the builder of core/src/builder.rs promises about the nodes it
 * makes: the shapes `uniform` and `uniform_one` produce, the polynomial a
 * scalar `add`, `sub`, `mul`, `div`, `neg` or `pow` interns, the cases that
 * fail with `DivZero`, `ShapeMismatch` or `IntegerError`, and what `init`
 * and `apply` do together.
 */
module BuilderLaws {
  import opened Wrappers
  import opened Nodes
  import opened Polys
  import opened PolyProduct
  import opened PolyRing
  import opened PolyPower
  import opened Interning
  import opened Numerals
  import opened Building
  import opened BuilderSteps

  /** A node `uniform` does not broadcast over: anything but a tuple. */
  predicate Scalar(s: Store, h: Handle)
    requires Consistent(s) && Held(s, h)
  {
    !Deref(s, h).Tuple?
  }

  /** The node a successful build ends in holds the polynomial `p`; a
      failed one is the hash collision, with the store untouched. */
  ghost predicate InternsPoly(s: Store, r: Built, p: PolyMap)
    requires Yields(s, r)
  {
    && (r.1.Ok? ==> Deref(r.0, r.1.value) == Poly(p))
    && (r.1.Err? ==> r == (s, Err(HashCollision)))
  }

  /** Like `InternsPoly`, for a build of several steps: the earlier steps
      may have interned nodes before a collision stopped it. */
  ghost predicate BuildsPoly(s: Store, r: Built, p: PolyMap)
    requires Yields(s, r)
  {
    && (r.1.Ok? ==> Deref(r.0, r.1.value) == Poly(p))
    && (r.1.Err? ==> r.1.error == HashCollision)
  }

  // ---------------------------------------------------------------------
  // `uniform` and `uniform_one`: shapes

  /** Two tuples of different lengths: `ShapeMismatch(len a, len b)`, and
      nothing is interned. */
  lemma UniformMismatch(s: Store, op: BinOp, a: Handle, b: Handle)
    requires Consistent(s) && Held(s, a) && Held(s, b)
    requires Deref(s, a).Tuple? && Deref(s, b).Tuple?
    requires |Deref(s, a).parts| != |Deref(s, b).parts|
    ensures Uniform(s, op, a, b) == (s, Err(ShapeMismatch(|Deref(s, a).parts|, |Deref(s, b).parts|)))
  {
  }

  /** A successful build ends in a tuple of `n` parts. */
  ghost predicate TupleOfLength(r: Built, n: nat)
  {
    r.1.Ok? ==>
      Consistent(r.0) && Held(r.0, r.1.value) &&
      Deref(r.0, r.1.value).Tuple? && |Deref(r.0, r.1.value).parts| == n
  }

  /** A successful build ends in a tuple whose part `k` is what `uniform`'s
      closure built from `xs[k]` and `ys[k]`. */
  ghost predicate Zipped(s: Store, r: Built, op: BinOp, xs: seq<Handle>, ys: seq<Handle>)
    requires Yields(s, r) && |ys| == |xs|
  {
    r.1.Ok? ==>
      && Deref(r.0, r.1.value).Tuple? && |Deref(r.0, r.1.value).parts| == |xs|
      && forall k | 0 <= k < |xs| :: StepGives(s, r.0, PairStep(op), xs[k], ys[k], Deref(r.0, r.1.value).parts[k])
  }

  /** Combining two equally long sequences element by element ends in a
      tuple with one part per element, part `k` built from element `k`. */
  lemma ZipTupleShape(s: Store, op: BinOp, xs: seq<Handle>, ys: seq<Handle>)
    requires Consistent(s) && AllHeld(s, xs) && AllHeld(s, ys) && |xs| == |ys|
    ensures TupleOfLength(ZipTuple(s, op, xs, ys), |xs|)
    ensures Zipped(s, ZipTuple(s, op, xs, ys), op, xs, ys)
  {
    var (u, zs) := MapPairs(s, op, xs, ys);
    var r := ZipTuple(s, op, xs, ys);
    if r.1.Ok? {
      TracedParts(s, u, r.0, PairStep(op), xs, ys, zs.value);
    }
  }

  /** Two tuples of the same length are combined part by part: part `k` is
      the closure applied to part `k` of each. */
  lemma UniformBoth(s: Store, op: BinOp, a: Handle, b: Handle)
    requires Consistent(s) && Held(s, a) && Held(s, b)
    requires Deref(s, a).Tuple? && Deref(s, b).Tuple?
    requires |Deref(s, a).parts| == |Deref(s, b).parts|
    ensures TupleOfLength(Uniform(s, op, a, b), |Deref(s, a).parts|)
    ensures Zipped(s, Uniform(s, op, a, b), op, Deref(s, a).parts, Deref(s, b).parts)
  {
    TupleParts(s, a);
    TupleParts(s, b);
    ZipTupleShape(s, op, Deref(s, a).parts, Deref(s, b).parts);
    assert Uniform(s, op, a, b) == ZipTuple(s, op, Deref(s, a).parts, Deref(s, b).parts);
  }

  /** A tuple and a scalar: the scalar is repeated once per part, and part
      `k` is the closure applied to part `k` and the scalar. */
  lemma UniformLeft(s: Store, op: BinOp, a: Handle, b: Handle)
    requires Consistent(s) && Held(s, a) && Held(s, b)
    requires Deref(s, a).Tuple? && !Deref(s, b).Tuple?
    ensures TupleOfLength(Uniform(s, op, a, b), |Deref(s, a).parts|)
    ensures Zipped(s, Uniform(s, op, a, b), op, Deref(s, a).parts, Repeat(b, |Deref(s, a).parts|))
  {
    var ta := Deref(s, a).parts;
    TupleParts(s, a);
    RepeatHeld(s, b, |ta|);
    ZipTupleShape(s, op, ta, Repeat(b, |ta|));
    assert Uniform(s, op, a, b) == ZipTuple(s, op, ta, Repeat(b, |ta|));
  }

  /** A scalar and a tuple: the scalar is repeated once per part, and part
      `k` is the closure applied to the scalar and part `k`. */
  lemma UniformRight(s: Store, op: BinOp, a: Handle, b: Handle)
    requires Consistent(s) && Held(s, a) && Held(s, b)
    requires !Deref(s, a).Tuple? && Deref(s, b).Tuple?
    ensures TupleOfLength(Uniform(s, op, a, b), |Deref(s, b).parts|)
    ensures Zipped(s, Uniform(s, op, a, b), op, Repeat(a, |Deref(s, b).parts|), Deref(s, b).parts)
  {
    var tb := Deref(s, b).parts;
    TupleParts(s, b);
    RepeatHeld(s, a, |tb|);
    ZipTupleShape(s, op, Repeat(a, |tb|), tb);
    assert Uniform(s, op, a, b) == ZipTuple(s, op, Repeat(a, |tb|), tb);
  }

  /** Two scalars: the operation's closure, applied once. */
  lemma UniformScalars(s: Store, op: BinOp, a: Handle, b: Handle)
    requires Consistent(s) && Held(s, a) && Held(s, b) && Scalar(s, a) && Scalar(s, b)
    ensures Uniform(s, op, a, b) == Binary(s, op, a, b)
  {
  }

  /** A successful build ends in a tuple whose part `k` is what
      `uniform_one`'s closure built from `xs[k]`. */
  ghost predicate Mapped(s: Store, r: Built, op: UnOp, xs: seq<Handle>)
    requires Yields(s, r)
  {
    r.1.Ok? ==>
      && Deref(r.0, r.1.value).Tuple? && |Deref(r.0, r.1.value).parts| == |xs|
      && forall k | 0 <= k < |xs| :: StepGives(s, r.0, UnaryStep(op), xs[k], xs[k], Deref(r.0, r.1.value).parts[k])
  }

  /** `uniform_one` applies the closure directly to anything but a tuple,
      and maps a tuple part by part: part `k` is the closure applied to part
      `k`. */
  lemma UniformOneShape(s: Store, op: UnOp, a: Handle)
    requires Consistent(s) && Held(s, a)
    ensures Scalar(s, a) ==> UniformOne(s, op, a) == Unary(s, op, a)
    ensures !Scalar(s, a) ==> TupleOfLength(UniformOne(s, op, a), |Deref(s, a).parts|)
    ensures !Scalar(s, a) ==> Mapped(s, UniformOne(s, op, a), op, Deref(s, a).parts)
  {
    if !Scalar(s, a) {
      var ta := Deref(s, a).parts;
      TupleParts(s, a);
      var (t, ys) := MapOne(s, op, ta);
      var r := UniformOne(s, op, a);
      assert r == TupleOf(t, ys);
      if r.1.Ok? {
        TracedParts(s, t, r.0, UnaryStep(op), ta, ta, ys.value);
      }
    }
  }

  /** `func`'s closure, applied to `x` in a later store, built `f(x)`. */
  lemma FuncStep(s: Store, w: Store, f: Transient, x: Handle, z: Handle)
    requires Consistent(s) && Held(s, x)
    requires StepGives(s, w, UnaryStep(FuncOp(f)), x, x, z)
    ensures Deref(w, z) == Func(f, x)
  {
    var t := StepOrigin(s, w, UnaryStep(FuncOp(f)), x, x, z);
    HeldExtends(s, t, x);
    UnaryStepIs(FuncOp(f), t, x);
    var r := Unary(t, FuncOp(f), x);
    assert Deref(r.0, z) == Func(f, x);
  }

  /** `pow_i`'s closure, applied to `x` in a later store, built the node of
      `poly(x)^i` when that power needs no node of its own. */
  lemma PowIStep(s: Store, w: Store, i: I32, x: Handle, z: Handle)
    requires Consistent(s) && Held(s, x) && !PowIOpaque(PolyOf(s, x), i)
    requires StepGives(s, w, UnaryStep(PowIOp(i)), x, x, z)
    ensures PowI(PolyOf(s, x), i, Handle(0, 0)).Ok?
    ensures Deref(w, z) == Poly(PowI(PolyOf(s, x), i, Handle(0, 0)).value)
  {
    var t := StepOrigin(s, w, UnaryStep(PowIOp(i)), x, x, z);
    PolyOfExtends(s, t, x);
    UnaryStepIs(PowIOp(i), t, x);
  }

  /** Part `k` of a mapped tuple. */
  lemma MappedAt(s: Store, r: Built, op: UnOp, xs: seq<Handle>, k: nat)
    requires Yields(s, r) && Mapped(s, r, op, xs) && r.1.Ok? && k < |xs|
    ensures Deref(r.0, r.1.value).Tuple? && |Deref(r.0, r.1.value).parts| == |xs|
    ensures StepGives(s, r.0, UnaryStep(op), xs[k], xs[k], Deref(r.0, r.1.value).parts[k])
  {
  }

  /** A successful build ends in a tuple whose part `k` is the node
      `f(xs[k])`. */
  ghost predicate FuncOfParts(r: Built, f: Transient, xs: seq<Handle>)
  {
    && TupleOfLength(r, |xs|)
    && (r.1.Ok? ==> forall k | 0 <= k < |xs| :: Deref(r.0, Deref(r.0, r.1.value).parts[k]) == Func(f, xs[k]))
  }

  /** A successful build ends in a tuple whose part `k` is the node of
      `poly(xs[k])^i` wherever that power needs no node of its own. */
  ghost predicate PowIOfParts(s: Store, r: Built, i: I32, xs: seq<Handle>)
    requires Consistent(s)
  {
    && TupleOfLength(r, |xs|)
    && (r.1.Ok? ==>
          forall k | 0 <= k < |xs| && Held(s, xs[k]) && !PowIOpaque(PolyOf(s, xs[k]), i) ::
            PowI(PolyOf(s, xs[k]), i, Handle(0, 0)).Ok? &&
            Deref(r.0, Deref(r.0, r.1.value).parts[k]) == Poly(PowI(PolyOf(s, xs[k]), i, Handle(0, 0)).value))
  }

  lemma FuncParts(s: Store, r: Built, f: Transient, xs: seq<Handle>)
    requires Consistent(s) && AllHeld(s, xs) && Yields(s, r)
    requires TupleOfLength(r, |xs|) && Mapped(s, r, FuncOp(f), xs)
    ensures FuncOfParts(r, f, xs)
  {
    if r.1.Ok? {
      var parts := Deref(r.0, r.1.value).parts;
      AllHeldIndex(s, xs);
      forall k | 0 <= k < |xs| ensures Deref(r.0, parts[k]) == Func(f, xs[k]) {
        MappedAt(s, r, FuncOp(f), xs, k);
        FuncStep(s, r.0, f, xs[k], parts[k]);
      }
    }
  }

  lemma PowIParts(s: Store, r: Built, i: I32, xs: seq<Handle>)
    requires Consistent(s) && Yields(s, r)
    requires TupleOfLength(r, |xs|) && Mapped(s, r, PowIOp(i), xs)
    ensures PowIOfParts(s, r, i, xs)
  {
    if r.1.Ok? {
      var parts := Deref(r.0, r.1.value).parts;
      forall k | 0 <= k < |xs| && Held(s, xs[k]) && !PowIOpaque(PolyOf(s, xs[k]), i)
        ensures PowI(PolyOf(s, xs[k]), i, Handle(0, 0)).Ok?
        ensures Deref(r.0, parts[k]) == Poly(PowI(PolyOf(s, xs[k]), i, Handle(0, 0)).value)
      {
        MappedAt(s, r, PowIOp(i), xs, k);
        PowIStep(s, r.0, i, xs[k], parts[k]);
      }
    }
  }

  /** `uniform_one` with `func` on a tuple: part `k` of the result is the
      node `f(part k)`. */
  lemma UniformOneFunc(s: Store, f: Transient, a: Handle)
    requires Consistent(s) && Held(s, a) && Deref(s, a).Tuple?
    ensures FuncOfParts(UniformOne(s, FuncOp(f), a), f, Deref(s, a).parts)
  {
    UniformOneShape(s, FuncOp(f), a);
    TupleParts(s, a);
    FuncParts(s, UniformOne(s, FuncOp(f), a), f, Deref(s, a).parts);
  }

  /** `uniform_one` with `pow_i(i)` on a tuple: part `k` of the result is
      the node of `poly(part k)^i` wherever that power needs no node of its
      own. */
  lemma UniformOnePowI(s: Store, i: I32, a: Handle)
    requires Consistent(s) && Held(s, a) && Deref(s, a).Tuple?
    ensures PowIOfParts(s, UniformOne(s, PowIOp(i), a), i, Deref(s, a).parts)
  {
    UniformOneShape(s, PowIOp(i), a);
    PowIParts(s, UniformOne(s, PowIOp(i), a), i, Deref(s, a).parts);
  }

  /** The polynomial `add`, `sub` or `mul` makes of two scalar operands. */
  ghost function Arith(op: BinOp, p: PolyMap, q: PolyMap): PolyMap
    requires NoZero(p) && NoZero(q)
  {
    if op == AddOp then Plus(p, q)
    else if op == SubOp then Plus(p, Scale(q, -1.0))
    else Times(p, q)
  }

  /** Part `k` of a zipped tuple. */
  lemma ZippedAt(s: Store, r: Built, op: BinOp, xs: seq<Handle>, ys: seq<Handle>, k: nat)
    requires Yields(s, r) && |ys| == |xs| && Zipped(s, r, op, xs, ys) && r.1.Ok? && k < |xs|
    ensures Deref(r.0, r.1.value).Tuple? && |Deref(r.0, r.1.value).parts| == |xs|
    ensures StepGives(s, r.0, PairStep(op), xs[k], ys[k], Deref(r.0, r.1.value).parts[k])
  {
  }

  /** The closure of `add`, `sub` or `mul`, applied to two scalars in a
      later store, built the node of their polynomials' sum, difference or
      product. */
  lemma ArithStep(s: Store, w: Store, op: BinOp, x: Handle, y: Handle, z: Handle)
    requires Consistent(s) && Held(s, x) && Held(s, y) && Scalar(s, x) && Scalar(s, y)
    requires op in {AddOp, SubOp, MulOp}
    requires StepGives(s, w, PairStep(op), x, y, z)
    ensures Deref(w, z) == Poly(Arith(op, PolyOf(s, x), PolyOf(s, y)))
  {
    var t := StepOrigin(s, w, PairStep(op), x, y, z);
    PolyOfExtends(s, t, x);
    PolyOfExtends(s, t, y);
    PairStepIs(op, t, x, y);
    BinaryArith(t, op, x, y);
  }

  /** Part `k` of a tuple, where `xs[k]` and `ys[k]` are scalars, is the
      node of `op` applied to their polynomials. */
  ghost predicate ArithPart(s: Store, r: Built, op: BinOp, xs: seq<Handle>, ys: seq<Handle>, k: nat)
    requires Consistent(s) && |ys| == |xs| && TupleOfLength(r, |xs|) && r.1.Ok? && k < |xs|
  {
    Held(s, xs[k]) && Held(s, ys[k]) && Scalar(s, xs[k]) && Scalar(s, ys[k]) ==>
      Deref(r.0, Deref(r.0, r.1.value).parts[k]) == Poly(Arith(op, PolyOf(s, xs[k]), PolyOf(s, ys[k])))
  }

  /** A successful build ends in a tuple of `|xs|` parts, each as
      `ArithPart` says. */
  ghost predicate ArithOfParts(s: Store, r: Built, op: BinOp, xs: seq<Handle>, ys: seq<Handle>)
    requires Consistent(s) && |ys| == |xs|
  {
    && TupleOfLength(r, |xs|)
    && (r.1.Ok? ==> forall k | 0 <= k < |xs| :: ArithPart(s, r, op, xs, ys, k))
  }

  lemma ArithParts(s: Store, r: Built, op: BinOp, xs: seq<Handle>, ys: seq<Handle>)
    requires Consistent(s) && Yields(s, r) && |ys| == |xs| && op in {AddOp, SubOp, MulOp}
    requires TupleOfLength(r, |xs|) && Zipped(s, r, op, xs, ys)
    ensures ArithOfParts(s, r, op, xs, ys)
  {
    if r.1.Ok? {
      forall k | 0 <= k < |xs| ensures ArithPart(s, r, op, xs, ys, k) {
        ArithPartAt(s, r, op, xs, ys, k);
      }
    }
  }

  lemma ArithPartAt(s: Store, r: Built, op: BinOp, xs: seq<Handle>, ys: seq<Handle>, k: nat)
    requires Consistent(s) && Yields(s, r) && |ys| == |xs| && op in {AddOp, SubOp, MulOp}
    requires TupleOfLength(r, |xs|) && Zipped(s, r, op, xs, ys) && r.1.Ok? && k < |xs|
    ensures ArithPart(s, r, op, xs, ys, k)
  {
    if Held(s, xs[k]) && Held(s, ys[k]) && Scalar(s, xs[k]) && Scalar(s, ys[k]) {
      ZippedAt(s, r, op, xs, ys, k);
      ArithStep(s, r.0, op, xs[k], ys[k], Deref(r.0, r.1.value).parts[k]);
    }
  }

  /** The operand list a broadcast pairs up: a tuple's parts, or a scalar
      repeated `n` times. */
  function Spread(s: Store, h: Handle, n: nat): seq<Handle>
    requires Consistent(s) && Held(s, h)
  {
    if Deref(s, h).Tuple? then Deref(s, h).parts else Repeat(h, n)
  }

  /** `add`, `sub` and `mul` with a tuple operand of `n` parts (two tuples
      of `n` parts each, or a tuple and a scalar) give a tuple whose part
      `k`, where both operands' `k`-th elements are scalars, is the node of
      their polynomials' sum, difference or product. So `(x, y) + k` is
      `(x + k, y + k)`. */
  lemma UniformArith(s: Store, op: BinOp, a: Handle, b: Handle, n: nat)
    requires Consistent(s) && Held(s, a) && Held(s, b) && op in {AddOp, SubOp, MulOp}
    requires Deref(s, a).Tuple? || Deref(s, b).Tuple?
    requires Deref(s, a).Tuple? ==> |Deref(s, a).parts| == n
    requires Deref(s, b).Tuple? ==> |Deref(s, b).parts| == n
    ensures |Spread(s, a, n)| == n && |Spread(s, b, n)| == n
    ensures ArithOfParts(s, Uniform(s, op, a, b), op, Spread(s, a, n), Spread(s, b, n))
  {
    var r := Uniform(s, op, a, b);
    if Deref(s, a).Tuple? && Deref(s, b).Tuple? {
      UniformBoth(s, op, a, b);
    } else if Deref(s, a).Tuple? {
      UniformLeft(s, op, a, b);
    } else {
      UniformRight(s, op, a, b);
    }
    ArithParts(s, r, op, Spread(s, a, n), Spread(s, b, n));
  }

  // ---------------------------------------------------------------------
  // Arithmetic on scalars

  /** The closures of `add`, `sub` and `mul` on two nodes. */
  lemma BinaryArith(s: Store, op: BinOp, a: Handle, b: Handle)
    requires Consistent(s) && Held(s, a) && Held(s, b) && op in {AddOp, SubOp, MulOp}
    ensures op == AddOp ==> Binary(s, op, a, b) == AddNodes(s, a, b)
    ensures op == SubOp ==> Binary(s, op, a, b) == SubNodes(s, a, b)
    ensures op == MulOp ==> Binary(s, op, a, b) == MulNodes(s, a, b)
  {
  }

  /** The closure of `div` on two nodes. */
  lemma BinaryDiv(s: Store, a: Handle, b: Handle)
    requires Consistent(s) && Held(s, a) && Held(s, b)
    ensures Binary(s, DivOp, a, b) == DivNodes(s, a, b)
  {
  }

  /** `add`: the node of `poly(a) + poly(b)`. */
  lemma AddScalars(s: Store, a: Handle, b: Handle)
    requires Consistent(s) && Held(s, a) && Held(s, b) && Scalar(s, a) && Scalar(s, b)
    ensures InternsPoly(s, Uniform(s, AddOp, a, b), Plus(PolyOf(s, a), PolyOf(s, b)))
  {
    UniformScalars(s, AddOp, a, b);
    BinaryArith(s, AddOp, a, b);
  }

  /** `sub`: the node of `poly(a) + poly(b) · (-1)`. */
  lemma SubScalars(s: Store, a: Handle, b: Handle)
    requires Consistent(s) && Held(s, a) && Held(s, b) && Scalar(s, a) && Scalar(s, b)
    ensures InternsPoly(s, Uniform(s, SubOp, a, b), Plus(PolyOf(s, a), Scale(PolyOf(s, b), -1.0)))
  {
    UniformScalars(s, SubOp, a, b);
    BinaryArith(s, SubOp, a, b);
  }

  /** `mul`: the node of `poly(a) · poly(b)`. */
  lemma MulScalars(s: Store, a: Handle, b: Handle)
    requires Consistent(s) && Held(s, a) && Held(s, b) && Scalar(s, a) && Scalar(s, b)
    ensures InternsPoly(s, Uniform(s, MulOp, a, b), Times(PolyOf(s, a), PolyOf(s, b)))
  {
    UniformScalars(s, MulOp, a, b);
    BinaryArith(s, MulOp, a, b);
  }

  /** `add` and `mul` of scalars do not depend on the operands' order: the
      same node is interned into the same store. */
  lemma ScalarsCommute(s: Store, op: BinOp, a: Handle, b: Handle)
    requires Consistent(s) && Held(s, a) && Held(s, b) && Scalar(s, a) && Scalar(s, b)
    requires op == AddOp || op == MulOp
    ensures Uniform(s, op, a, b) == Uniform(s, op, b, a)
  {
    var pa, pb := PolyOf(s, a), PolyOf(s, b);
    if op == AddOp {
      PlusLaws(pa, pb, pb);
    } else {
      TimesComm(pa, pb);
    }
  }

  /** `a - a` is the zero polynomial. */
  lemma SubSelf(s: Store, a: Handle)
    requires Consistent(s) && Held(s, a) && Scalar(s, a)
    ensures InternsPoly(s, Uniform(s, SubOp, a, a), Zero())
  {
    var p := PolyOf(s, a);
    ScaleLaws(p, p, 1.0);
    ScaleSum(p, 1.0, -1.0);
    assert Scale(p, 0.0) == Zero();
  }

  /** The closure of `div` fails with `DivZero` exactly when the divisor
      is the zero polynomial. */
  lemma DivNodesZero(s: Store, a: Handle, b: Handle)
    requires Consistent(s) && Held(s, a) && Held(s, b)
    ensures DivNodes(s, a, b).1 == Err(DivZero) <==> IsZero(PolyOf(s, b))
    ensures IsZero(PolyOf(s, b)) ==> DivNodes(s, a, b) == (s, Err(DivZero))
  {
  }

  /** `div` fails with `DivZero` exactly when the divisor is the zero
      polynomial, and then nothing is interned. */
  lemma DivZeroIff(s: Store, a: Handle, b: Handle)
    requires Consistent(s) && Held(s, a) && Held(s, b) && Scalar(s, a) && Scalar(s, b)
    ensures Uniform(s, DivOp, a, b).1 == Err(DivZero) <==> IsZero(PolyOf(s, b))
    ensures IsZero(PolyOf(s, b)) ==> Uniform(s, DivOp, a, b) == (s, Err(DivZero))
  {
    UniformScalars(s, DivOp, a, b);
    BinaryDiv(s, a, b);
    DivNodesZero(s, a, b);
  }

  /** The closure of `div` on a single term and itself. */
  lemma DivNodesSelf(s: Store, a: Handle)
    requires Consistent(s) && Held(s, a) && |PolyOf(s, a)| == 1
    ensures InternsPoly(s, DivNodes(s, a, a), One())
  {
    TimesInverse(PolyOf(s, a), Handle(0, 0));
    DivNodesValue(s, a, a);
  }

  /** Where `pow_i(b, -1)` needs no node of its own and succeeds, `div`
      interns `a · b^-1`. */
  lemma DivNodesValue(s: Store, a: Handle, b: Handle)
    requires Consistent(s) && Held(s, a) && Held(s, b)
    requires !PowIOpaque(PolyOf(s, b), -1) && PowI(PolyOf(s, b), -1, Handle(0, 0)).Ok?
    ensures var q := PowI(PolyOf(s, b), -1, Handle(0, 0)).value;
      Canonical(Times(PolyOf(s, a), q)) &&
      InternsPoly(s, DivNodes(s, a, b), Times(PolyOf(s, a), q))
  {
    TimesCanonical(PolyOf(s, a), PowI(PolyOf(s, b), -1, Handle(0, 0)).value);
  }

  /** Dividing a single term (a variable, a function node or a nonzero
      constant) by itself gives 1. */
  lemma DivSelf(s: Store, a: Handle)
    requires Consistent(s) && Held(s, a) && Scalar(s, a) && |PolyOf(s, a)| == 1
    ensures InternsPoly(s, Uniform(s, DivOp, a, a), One())
  {
    UniformScalars(s, DivOp, a, a);
    BinaryDiv(s, a, a);
    DivNodesSelf(s, a);
  }

  /** `neg` is `mul` by the node `int(-1)` it makes first. */
  lemma NegUnfold(s: Store, a: Handle, t: Store, m: Handle)
    requires Consistent(s) && Held(s, a) && IntNode(s, -1) == (t, Ok(m))
    ensures Held(t, a) && Held(t, m)
    ensures Neg(s, a) == Uniform(t, MulOp, m, a)
  {
    HeldExtends(s, t, a);
  }

  /** `neg`: the node of `poly(a) · (-1)`. */
  lemma NegScalar(s: Store, a: Handle)
    requires Consistent(s) && Held(s, a) && Scalar(s, a)
    ensures var r := Neg(s, a);
      && (r.1.Ok? ==> Deref(r.0, r.1.value) == Poly(Scale(PolyOf(s, a), -1.0)))
      && (r.1.Err? ==> r.1.error == HashCollision)
  {
    var (t, m) := IntNode(s, -1);
    if m.Ok? {
      var p := PolyOf(s, a);
      NegUnfold(s, a, t, m.value);
      PolyOfExtends(s, t, a);
      TimesTermScale([], -1.0, p);
      TimesOne(p);
      assert One() == map[[] := 1.0];
      assert Rational(-1.0) == map[[] := -1.0];
      MulScalars(t, m.value, a);
    }
  }

  // ---------------------------------------------------------------------
  // `pow`

  /** `pow` with an exponent that is an `i32` integer hands it to `pow_i`
      on the base; any other exponent is read as `exp(log(a) · b)`. */
  lemma PowDispatch(s: Store, a: Handle, b: Handle)
    requires Consistent(s) && Held(s, a) && Held(s, b) && Scalar(s, a) && Scalar(s, b)
    ensures SmallExponent(s, b).Some? ==>
      Uniform(s, PowOp, a, b) == UniformOne(s, PowIOp(SmallExponent(s, b).value), a)
    ensures SmallExponent(s, b).None? ==> Uniform(s, PowOp, a, b) == ExpLog(s, a, b)
  {
    UniformScalars(s, PowOp, a, b);
  }

  /** `z` is `exp(m)` where `m` holds `g · pb` and `g` is `log(a)`. */
  ghost predicate ExpOfLog(w: Store, z: Handle, a: Handle, pb: PolyMap)
    requires Consistent(w) && NoZero(pb)
  {
    && Held(w, z)
    && exists g, m ::
         && Held(w, g) && Held(w, m)
         && Deref(w, g) == Func(Log, a)
         && Deref(w, m) == Poly(Times(Monomial([(g, 1)], 1.0), pb))
         && Deref(w, z) == Func(Exp, m)
  }

  /** The fallback of `pow` on two scalars: `exp(log(a) · b)`, the product
      being the polynomial of the `log` node times that of `b`. A failure is
      a hash collision. */
  lemma ExpLogScalars(s: Store, a: Handle, b: Handle)
    requires Consistent(s) && Held(s, a) && Held(s, b) && Scalar(s, a) && Scalar(s, b)
    ensures var r := ExpLog(s, a, b);
      && (r.1.Err? ==> r.1.error == HashCollision)
      && (r.1.Ok? ==> ExpOfLog(r.0, r.1.value, a, PolyOf(s, b)))
  {
    var (t, g) := UniformOne(s, FuncOp(Log), a);
    FuncOfScalar(s, Log, a);
    if g.Err? {
      assert ExpLog(s, a, b) == (t, Err(g.error));
    } else {
      PolyOfExtends(s, t, b);
      var (u, m) := Uniform(t, MulOp, g.value, b);
      MulScalars(t, g.value, b);
      ExpLogSteps(s, a, b, t, g.value, u, m);
      if m.Ok? {
        ExpOfProduct(t, u, a, g.value, m.value, PolyOf(s, b));
      }
    }
  }

  lemma ExpLogSteps(s: Store, a: Handle, b: Handle, t: Store, g: Handle, u: Store, m: Result<Handle, Error>)
    requires Consistent(s) && Held(s, a) && Held(s, b)
    requires UniformOne(s, FuncOp(Log), a) == (t, Ok(g)) && Held(t, b)
    requires Uniform(t, MulOp, g, b) == (u, m)
    ensures m.Err? ==> ExpLog(s, a, b) == (u, Err(m.error))
    ensures m.Ok? ==> ExpLog(s, a, b) == UniformOne(u, FuncOp(Exp), m.value)
  {
  }

  /** `exp(m)`, where `m` holds `log(a)` times `pb`. */
  lemma ExpOfProduct(t: Store, u: Store, a: Handle, g: Handle, m: Handle, pb: PolyMap)
    requires Consistent(t) && Consistent(u) && Extends(t, u) && NoZero(pb)
    requires Held(t, g) && Deref(t, g) == Func(Log, a)
    requires Held(u, m) && Deref(u, m) == Poly(Times(PolyOf(t, g), pb))
    ensures var r := UniformOne(u, FuncOp(Exp), m);
      && (r.1.Err? ==> r.1.error == HashCollision)
      && (r.1.Ok? ==> ExpOfLog(r.0, r.1.value, a, pb))
  {
    var r := UniformOne(u, FuncOp(Exp), m);
    FuncOfScalar(u, Exp, m);
    if r.1.Ok? {
      DerefExtends(t, u, g);
      DerefExtends(u, r.0, g);
      DerefExtends(u, r.0, m);
      ExpOfLogWitness(r.0, r.1.value, a, pb, g, m);
    }
  }

  /** `func` on a scalar interns `f(x)`. */
  lemma FuncOfScalar(s: Store, f: Transient, x: Handle)
    requires Consistent(s) && Held(s, x) && Scalar(s, x)
    ensures InternsNode(s, UniformOne(s, FuncOp(f), x), Func(f, x))
  {
    UniformOneShape(s, FuncOp(f), x);
  }

  lemma ExpOfLogWitness(w: Store, z: Handle, a: Handle, pb: PolyMap, g: Handle, m: Handle)
    requires Consistent(w) && NoZero(pb) && Held(w, z) && Held(w, g) && Held(w, m)
    requires Deref(w, g) == Func(Log, a)
    requires Deref(w, m) == Poly(Times(Monomial([(g, 1)], 1.0), pb))
    requires Deref(w, z) == Func(Exp, m)
    ensures ExpOfLog(w, z, a, pb)
  {
  }


  /** A constant to a natural power that fits `i32` is folded to the
      constant `c^k`. */
  lemma PowConstants(s: Store, a: Handle, b: Handle, c: real, k: nat)
    requires k < 0x8000_0000
    requires Consistent(s) && Held(s, a) && Held(s, b)
    requires Deref(s, a) == Poly(Rational(c)) && Deref(s, b) == Poly(Int(k as I64))
    ensures InternsPoly(s, Uniform(s, PowOp, a, b), Rational(RatPow(c, k)))
  {
    assert Uniform(s, PowOp, a, b) == Unary(s, PowIOp(k as I32), a) by {
      assert SmallExponent(s, b) == Some(k as I32) by {
        assert AsInt(Int(k as I64)) == Some(k);
      }
      PowDispatch(s, a, b);
      UniformOneShape(s, PowIOp(k as I32), a);
    }
    PowIConstant(s, a, c, k);
  }

  /** `pow_i` of a constant node by a natural exponent. */
  lemma PowIConstant(s: Store, a: Handle, c: real, k: nat)
    requires k < 0x8000_0000
    requires Consistent(s) && Held(s, a) && Deref(s, a) == Poly(Rational(c))
    ensures InternsPoly(s, Unary(s, PowIOp(k as I32), a), Rational(RatPow(c, k)))
  {
    if k == 0 {
      assert One() == Rational(RatPow(c, k));
    }
  }

  /** `3^3` is `27`. */
  lemma ThreeCubed(s: Store, a: Handle, b: Handle)
    requires Consistent(s) && Held(s, a) && Held(s, b)
    requires Deref(s, a) == Poly(Int(3)) && Deref(s, b) == Poly(Int(3))
    ensures InternsPoly(s, Uniform(s, PowOp, a, b), Int(27))
  {
    PowConstants(s, a, b, 3.0, 3);
    assert RatPow(3.0, 3) == 27.0;
  }

  // ---------------------------------------------------------------------
  // `sum` and `product`

  /** `sum` of nothing is `0`; a failure is the hash collision, with the
      store untouched. */
  lemma SumOfNone(s: Store)
    requires Consistent(s)
    ensures InternsPoly(s, SumOf(s, []), Zero())
  {
    assert Rational(0 as I64 as real) == Zero();
  }

  /** `product` of nothing is `1`; a failure is the hash collision, with
      the store untouched. */
  lemma ProductOfNone(s: Store)
    requires Consistent(s)
    ensures InternsPoly(s, ProductOf(s, []), One())
  {
    assert Rational(1 as I64 as real) == One();
  }

  /** The items of a fold whose `Ok` nodes are all scalars. */
  ghost predicate ScalarItems(s: Store, items: seq<Result<Handle, Error>>)
    requires Consistent(s) && ItemsHeld(s, items)
    decreases |items|
  {
    items == [] || ((items[0].Ok? ==> Scalar(s, items[0].value)) && ScalarItems(s, items[1..]))
  }

  lemma {:induction false} ScalarItemsExtends(s: Store, t: Store, items: seq<Result<Handle, Error>>)
    requires Consistent(s) && Consistent(t) && Extends(s, t) && ItemsHeld(s, items) && ScalarItems(s, items)
    ensures ItemsHeld(t, items) && ScalarItems(t, items)
    decreases |items|
  {
    ItemsHeldExtends(s, t, items);
    if items != [] {
      if items[0].Ok? {
        DerefExtends(s, t, items[0].value);
      }
      ScalarItemsExtends(s, t, items[1..]);
    }
  }

  /** The polynomials of items that are all `Ok`, in order. */
  ghost function ItemPolys(s: Store, items: seq<Result<Handle, Error>>): (ps: seq<PolyMap>)
    requires Consistent(s) && ItemsHeld(s, items) && AllOk(items)
    ensures |ps| == |items| && forall k | 0 <= k < |ps| :: NoZero(ps[k])
    decreases |items|
  {
    if items == [] then []
    else
      assert AllOk(items[1..]) by {
        forall i | 0 <= i < |items[1..]| ensures items[1..][i].Ok? {
          assert items[1..][i] == items[i + 1];
        }
      }
      var p := PolyOf(s, items[0].value);
      [p] + ItemPolys(s, items[1..])
  }

  lemma {:induction false} ItemPolysExtends(s: Store, t: Store, items: seq<Result<Handle, Error>>)
    requires Consistent(s) && Consistent(t) && Extends(s, t) && ItemsHeld(s, items) && AllOk(items)
    ensures ItemsHeld(t, items) && ItemPolys(t, items) == ItemPolys(s, items)
    decreases |items|
  {
    ItemsHeldExtends(s, t, items);
    if items != [] {
      PolyOfExtends(s, t, items[0].value);
      assert AllOk(items[1..]) by {
        forall i | 0 <= i < |items[1..]| ensures items[1..][i].Ok? {
          assert items[1..][i] == items[i + 1];
        }
      }
      ItemPolysExtends(s, t, items[1..]);
    }
  }

  /** The left fold of `add` or `mul` over polynomials, from `acc`. */
  ghost function FoldPolys(op: BinOp, acc: PolyMap, ps: seq<PolyMap>): (r: PolyMap)
    requires NoZero(acc) && forall k | 0 <= k < |ps| :: NoZero(ps[k])
    ensures NoZero(r)
    decreases |ps|
  {
    if ps == [] then acc
    else
      var a := Arith(op, acc, ps[0]);
      assert NoZero(a);
      FoldPolys(op, a, ps[1..])
  }

  /** One step of a fold over scalars: the accumulator becomes the node of
      `op` on the two polynomials, or the fold stops at the hash collision. */
  lemma FoldScalarStep(s: Store, op: BinOp, acc: Handle, items: seq<Result<Handle, Error>>)
    returns (t: Store, a: Result<Handle, Error>)
    requires Consistent(s) && Held(s, acc) && Scalar(s, acc) && op in {AddOp, MulOp}
    requires ItemsHeld(s, items) && ScalarItems(s, items) && items != [] && items[0].Ok?
    ensures Consistent(t) && Extends(s, t)
    ensures a.Err? ==> Fold(s, op, acc, items) == (s, Err(HashCollision))
    ensures a.Ok? ==>
      && Held(t, a.value) && Deref(t, a.value).Poly?
      && PolyOf(t, a.value) == Arith(op, PolyOf(s, acc), PolyOf(s, items[0].value))
      && ItemsHeld(t, items[1..]) && ScalarItems(t, items[1..])
      && Fold(s, op, acc, items) == Fold(t, op, a.value, items[1..])
  {
    var x := items[0].value;
    var r := Uniform(s, op, acc, x);
    t, a := r.0, r.1;
    if op == AddOp { AddScalars(s, acc, x); } else { MulScalars(s, acc, x); }
    if a.Ok? {
      ScalarItemsExtends(s, t, items[1..]);
    }
  }

  /** A fold of `add` or `mul` over scalars, from a polynomial node, ends in
      the node of the folded polynomials. It fails only with the first item's error or with the
      hash collision. */
  lemma {:induction false} FoldScalars(s: Store, op: BinOp, acc: Handle, items: seq<Result<Handle, Error>>)
    requires Consistent(s) && Held(s, acc) && Deref(s, acc).Poly? && op in {AddOp, MulOp}
    requires ItemsHeld(s, items) && ScalarItems(s, items)
    ensures var r := Fold(s, op, acc, items);
      && (r.1.Ok? ==> Deref(r.0, r.1.value) == Poly(FoldPolys(op, PolyOf(s, acc), ItemPolys(s, items))))
      && (r.1.Err? ==> r.1.error == HashCollision || Collect(items) == Err(r.1.error))
    decreases |items|
  {
    if items != [] && items[0].Ok? {
      var t, a := FoldScalarStep(s, op, acc, items);
      if a.Ok? {
        FoldScalars(t, op, a.value, items[1..]);
        var r := Fold(t, op, a.value, items[1..]);
        if r.1.Ok? {
          ItemPolysExtends(s, t, items[1..]);
          assert ItemPolys(s, items) == [PolyOf(s, items[0].value)] + ItemPolys(s, items[1..]);
        }
      }
    }
  }

  /** `sum` of scalars is the node of the sum of their polynomials; it fails
      only with the first item's error or with the hash collision. */
  lemma SumOfScalars(s: Store, items: seq<Result<Handle, Error>>)
    requires Consistent(s) && ItemsHeld(s, items) && ScalarItems(s, items)
    ensures var r := SumOf(s, items);
      && (r.1.Ok? ==> Deref(r.0, r.1.value) == Poly(FoldPolys(AddOp, Zero(), ItemPolys(s, items))))
      && (r.1.Err? ==> r.1.error == HashCollision || Collect(items) == Err(r.1.error))
  {
    var (t, z) := IntNode(s, 0);
    if z.Ok? {
      assert Rational(0 as I64 as real) == Zero();
      ScalarItemsExtends(s, t, items);
      FoldScalars(t, AddOp, z.value, items);
      if SumOf(s, items).1.Ok? {
        ItemPolysExtends(s, t, items);
      }
    }
  }

  /** `product` of scalars is the node of the product of their polynomials;
      it fails only with the first item's error or with the hash collision. */
  lemma ProductOfScalars(s: Store, items: seq<Result<Handle, Error>>)
    requires Consistent(s) && ItemsHeld(s, items) && ScalarItems(s, items)
    ensures var r := ProductOf(s, items);
      && (r.1.Ok? ==> Deref(r.0, r.1.value) == Poly(FoldPolys(MulOp, One(), ItemPolys(s, items))))
      && (r.1.Err? ==> r.1.error == HashCollision || Collect(items) == Err(r.1.error))
  {
    var (t, z) := IntNode(s, 1);
    if z.Ok? {
      assert Rational(1 as I64 as real) == One();
      ScalarItemsExtends(s, t, items);
      FoldScalars(t, MulOp, z.value, items);
      if ProductOf(s, items).1.Ok? {
        ItemPolysExtends(s, t, items);
      }
    }
  }

  // ---------------------------------------------------------------------
  // Literals

  /** What `to_string` prints, `decimal` reads back as the same integer. */
  lemma DecimalShow(s: Store, i: I64)
    requires Consistent(s)
    ensures var r := Decimal(s, ShowInt(i));
      r.1 != Err(IntegerError) && (r.1.Ok? ==> Deref(r.0, r.1.value) == Poly(Int(i)))
  {
    ParseShow(i);
  }

  /** `div` of two constant nodes, the divisor nonzero, interns their
      quotient. */
  lemma DivConstants(s: Store, a: Handle, b: Handle, x: real, y: real)
    requires Consistent(s) && Held(s, a) && Held(s, b) && y != 0.0
    requires Deref(s, a) == Poly(Rational(x)) && Deref(s, b) == Poly(Rational(y))
    ensures InternsPoly(s, Uniform(s, DivOp, a, b), Rational(x / y))
  {
    UniformScalars(s, DivOp, a, b);
    BinaryDiv(s, a, b);
    RecipConstant(y);
    DivNodesValue(s, a, b);
    TimesRecip(x, y);
  }

  /** `div(int(j), int(d))` for `d > 0` interns the constant `j / d`. */
  lemma DivIntsValue(s: Store, j: I64, d: I64)
    requires Consistent(s) && d > 0
    ensures BuildsPoly(s, DivInts(s, j, d), Rational(j as real / d as real))
  {
    var (t1, b) := IntNode(s, j);
    if b.Ok? {
      var (t2, c) := IntNode(t1, d);
      if c.Ok? {
        HeldExtends(t1, t2, b.value);
        DerefExtends(t1, t2, b.value);
        DivConstants(t2, b.value, c.value, j as real, d as real);
      }
    }
  }

  /** `add` of two constant nodes interns their sum (passed as `z`). */
  lemma AddConstants(s: Store, a: Handle, b: Handle, x: real, y: real, z: real)
    requires Consistent(s) && Held(s, a) && Held(s, b) && z == x + y
    requires Deref(s, a) == Poly(Rational(x)) && Deref(s, b) == Poly(Rational(y))
    ensures InternsPoly(s, Uniform(s, AddOp, a, b), Rational(z))
  {
    AddScalars(s, a, b);
    PlusRationals(x, y);
  }

  /** `add(int(i), div(int(j), int(d)))` for `d > 0` interns the constant
      `w = i + j / d`. */
  lemma AddFractionValue(s: Store, i: I64, j: I64, d: I64, w: real)
    requires Consistent(s) && d > 0 && w == i as real + j as real / d as real
    ensures BuildsPoly(s, AddFraction(s, i, j, d), Rational(w))
  {
    var r := AddFraction(s, i, j, d);
    var (t1, a) := IntNode(s, i);
    if a.Ok? {
      var (t2, q) := DivInts(t1, j, d);
      DivIntsValue(t1, j, d);
      if q.Ok? {
        HeldExtends(t1, t2, a.value);
        DerefExtends(t1, t2, a.value);
        var v := j as real / d as real;
        AddConstants(t2, a.value, q.value, i as real, v, w);
        assert r == Uniform(t2, AddOp, a.value, q.value);
      } else {
        assert r == (t2, Err(q.error));
      }
    } else {
      assert r == (t1, Err(a.error));
    }
  }

  /** Both sides of the decimal point of `lit` parse. */
  predicate DecimalParses(lit: string)
    requires '.' in lit
  {
    ParseI64(lit[..Find(lit, '.')]).Some? && ParseI64(lit[Find(lit, '.') + 1..]).Some?
  }

  /** The number a decimal literal denotes to `decimal_float`: `i + j / 10^k`
      for the integer part `i`, the fraction digits `j` and `k` digits after
      the point. The sign of `i` does not apply to `j / 10^k`. */
  function DecimalValue(lit: string): real
    requires '.' in lit && DecimalParses(lit)
  {
    var dp := Find(lit, '.');
    ParseI64(lit[..dp]).value as real + ParseI64(lit[dp + 1..]).value as real / Pow10(|lit| - dp - 1) as real
  }

  /** `decimal_float` fails with `IntegerError` exactly when one side of the
      point does not parse; otherwise it builds the constant
      `DecimalValue(lit)`, unless a hash collision stops it. */
  lemma DecimalFloatValue(s: Store, lit: string)
    requires Consistent(s) && '.' in lit && |lit| - Find(lit, '.') - 1 <= 18
    ensures DecimalFloat(s, lit).1 == Err(IntegerError) <==> !DecimalParses(lit)
    ensures DecimalParses(lit) ==> BuildsPoly(s, DecimalFloat(s, lit), Rational(DecimalValue(lit)))
  {
    if DecimalParses(lit) {
      DecimalFloatBuilds(s, lit);
    } else {
      assert DecimalFloat(s, lit) == (s, Err(IntegerError));
    }
  }

  lemma DecimalFloatBuilds(s: Store, lit: string)
    requires Consistent(s) && '.' in lit && |lit| - Find(lit, '.') - 1 <= 18 && DecimalParses(lit)
    ensures BuildsPoly(s, DecimalFloat(s, lit), Rational(DecimalValue(lit)))
    ensures DecimalFloat(s, lit).1 != Err(IntegerError)
  {
    var dp := Find(lit, '.');
    var k := |lit| - dp - 1;
    if DecimalParses(lit) {
      var i, j := ParseI64(lit[..dp]).value, ParseI64(lit[dp + 1..]).value;
      DecimalFloatParsed(s, lit, i, j);
      AddFractionValue(s, i, j, Pow10(k) as I64, DecimalValue(lit));
    }
  }

  lemma DecimalFloatParsed(s: Store, lit: string, i: I64, j: I64)
    requires Consistent(s) && '.' in lit && |lit| - Find(lit, '.') - 1 <= 18
    requires ParseI64(lit[..Find(lit, '.')]) == Some(i) && ParseI64(lit[Find(lit, '.') + 1..]) == Some(j)
    ensures Pow10(|lit| - Find(lit, '.') - 1) < 0x8000_0000_0000_0000
    ensures DecimalFloat(s, lit) == AddFraction(s, i, j, Pow10(|lit| - Find(lit, '.') - 1) as I64)
  {
    Pow10Bound(|lit| - Find(lit, '.') - 1);
  }

  /** `-1.5` reads as `-1 + 5/10`, that is `-0.5`. */
  lemma DecimalFloatNegative()
    ensures DecimalParses("-1.5") && DecimalValue("-1.5") == -0.5
  {
    var lit := "-1.5";
    assert Find(lit, '.') == 2;
    assert lit[..2] == "-1" && lit[3..] == "5";
    assert ShowInt(-1) == "-1" && ShowInt(5) == "5";
    ParseShow(-1);
    ParseShow(5);
  }


  // ---------------------------------------------------------------------
  // `substitute`, `init` and `apply`

  /** A variable is replaced by its image when the map has one, and kept
      otherwise; nothing is interned either way. */
  lemma SubstVar(s: Store, h: Handle, env: Env)
    requires Consistent(s) && Held(s, h) && EnvHeld(s, env) && Deref(s, h).Var?
    ensures Deref(s, h).name in env ==> Subst(s, h, env) == (s, Ok(env[Deref(s, h).name]))
    ensures Deref(s, h).name !in env ==> Subst(s, h, env) == (s, Ok(h))
  {
  }

  /** `apply` on a variable that names a definition applies that
      definition. */
  lemma ApplyNamed(s: Store, defs: Defs, left: Handle, right: Handle)
    requires Consistent(s) && DefsHeld(s, defs) && Held(s, left) && Held(s, right)
    requires Deref(s, left).Var? && Deref(s, left).name in defs
    ensures Apply(s, defs, left, right) == ApplyDef(s, defs[Deref(s, left).name], right)
  {
  }

  /** A one-argument definition applied to a scalar substitutes the scalar
      for its argument. */
  lemma ApplyDefScalar(s: Store, d: Definition, right: Handle)
    requires Consistent(s) && Held(s, d.expr) && Held(s, right) && Scalar(s, right)
    requires |d.args| == 1
    ensures EnvHeld(s, map[d.args[0] := right])
    ensures ApplyDef(s, d, right) == Subst(s, d.expr, map[d.args[0] := right])
  {
    assert Zip(d.args, [right]) == [(d.args[0], right)];
    assert Bind(d.args, [right]) == map[d.args[0] := right];
  }

  /** A definition whose arity matches the tuple's length binds its
      parameters to the parts, in order, and substitutes once. */
  lemma ApplyDefBind(s: Store, d: Definition, right: Handle)
    requires Consistent(s) && Held(s, d.expr) && Held(s, right) && Deref(s, right).Tuple?
    requires |d.args| != 1 && |d.args| == |Deref(s, right).parts|
    ensures EnvHeld(s, Bind(d.args, Deref(s, right).parts))
    ensures ApplyDef(s, d, right) == Subst(s, d.expr, Bind(d.args, Deref(s, right).parts))
  {
    TupleParts(s, right);
    BindHeld(s, d.args, Deref(s, right).parts);
  }

  /** `r` is a tuple whose part `k` is the one-parameter definition `d`
      instantiated with `xs[k]`. */
  ghost predicate DefOfParts(s: Store, r: Built, d: Definition, xs: seq<Handle>)
  {
    && TupleOfLength(r, |xs|)
    && (r.1.Ok? ==>
          forall k | 0 <= k < |xs| ::
            StepGives(s, r.0, DefStep(d), xs[k], xs[k], Deref(r.0, r.1.value).parts[k]))
  }

  /** A one-parameter definition applied to a tuple is applied to each part:
      part `k` of the result is the body with the parameter bound to part `k`
      of the argument. */
  lemma ApplyDefTuple(s: Store, d: Definition, right: Handle)
    requires Consistent(s) && Held(s, d.expr) && Held(s, right) && Deref(s, right).Tuple?
    requires |d.args| == 1
    ensures DefOfParts(s, ApplyDef(s, d, right), d, Deref(s, right).parts)
  {
    var parts := Deref(s, right).parts;
    TupleParts(s, right);
    var (t, hs) := SubstEach(s, d, parts);
    var r := ApplyDef(s, d, right);
    assert r == TupleOf(t, hs);
    if r.1.Ok? {
      TracedParts(s, t, r.0, DefStep(d), parts, parts, hs.value);
    }
  }

  /** Substituting `y` for `x` in `f(x)` is `f` applied to `y`. */
  lemma SubstFunc(s: Store, h: Handle, f: Transient, x: Handle, y: Handle)
    requires Consistent(s) && Held(s, h) && Held(s, y)
    requires Deref(s, h) == Func(f, x) && Held(s, x) && Deref(s, x) == Var("x")
    ensures EnvHeld(s, map["x" := y])
    ensures Subst(s, h, map["x" := y]) == UniformOne(s, FuncOp(f), y)
  {
    SubstVar(s, x, map["x" := y]);
  }

  /** After `init`, applying `sin`, `cos`, `exp` or `log` to a scalar is the
      same as `func` with that function: the definition's body `f(x)` with
      `x` replaced. */
  lemma ApplyInstalled(s: Store, defs: Defs, entry: (string, Transient), x: Handle, left: Handle, right: Handle)
    requires Consistent(s) && DefsHeld(s, defs) && Installed(s, defs, entry, x)
    requires Held(s, x) && Deref(s, x) == Var("x")
    requires Held(s, left) && Deref(s, left) == Var(entry.0)
    requires Held(s, right) && Scalar(s, right)
    ensures Apply(s, defs, left, right) == UniformOne(s, FuncOp(entry.1), right)
  {
    var d := defs[entry.0];
    ApplyNamed(s, defs, left, right);
    ApplyDefScalar(s, d, right);
    SubstFunc(s, d.expr, entry.1, x, right);
  }
}
