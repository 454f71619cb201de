/**
 * The expression builder of core/src/builder.rs.
 *
 * Every builder operation interns the nodes it makes, so each one is
 * modelled as a function from the cache's store to the store afterwards
 * and the operation's result. Interning can fail only with
 * `HashCollision` (the `assert_eq!` of `Cache::intern`); the other errors
 * are the builder's own: `ShapeMismatch` from broadcasting and `apply`,
 * `DivZero` from a zero divisor, `IntegerError` from literals.
 */
module Building {
  import opened Nodes
  import opened Wrappers
  import opened Monomials
  import opened Polys
  import opened PolyProduct
  import opened PolyRing
  import opened PolyPower
  import opened PolyOrder
  import opened Interning
  import opened Numerals

  /** A builder call: the store afterwards and the node (or error) it returns. */
  type Built = (Store, Result<Handle, Error>)
  type BuiltAll = (Store, Result<seq<Handle>, Error>)

  /** The store only grew, and a returned handle is live in it. */
  ghost predicate Yields(s: Store, r: Built)
  {
    Consistent(r.0) && Extends(s, r.0) && (r.1.Ok? ==> Held(r.0, r.1.value))
  }

  /** A successful build ends in a handle to node `n`; a failed one is the
      hash collision, with the store untouched. */
  ghost predicate InternsNode(s: Store, r: Built, n: Node)
    requires Yields(s, r)
  {
    && (r.1.Ok? ==> Deref(r.0, r.1.value) == n)
    && (r.1.Err? ==> r == (s, Err(HashCollision)))
  }

  /** Every handle of `hs` is live in `s`. */
  predicate AllHeld(s: Store, hs: seq<Handle>)
    decreases |hs|
  {
    hs == [] || (Held(s, hs[0]) && AllHeld(s, hs[1..]))
  }

  lemma {:induction false} AllHeldIndex(s: Store, hs: seq<Handle>)
    ensures AllHeld(s, hs) <==> forall i | 0 <= i < |hs| :: Held(s, hs[i])
    decreases |hs|
  {
    if hs != [] {
      AllHeldIndex(s, hs[1..]);
    }
  }

  ghost predicate YieldsAll(s: Store, r: BuiltAll)
  {
    Consistent(r.0) && Extends(s, r.0) && (r.1.Ok? ==> AllHeld(r.0, r.1.value))
  }

  lemma {:induction false} AllHeldExtends(s: Store, t: Store, hs: seq<Handle>)
    requires Extends(s, t) && AllHeld(s, hs)
    ensures AllHeld(t, hs)
    decreases |hs|
  {
    if hs != [] {
      HeldExtends(s, t, hs[0]);
      AllHeldExtends(s, t, hs[1..]);
    }
  }

  /** Chains two builder steps: the second started where the first ended. */
  lemma YieldsTrans(s: Store, t: Store, r: Built)
    requires Consistent(t) && Extends(s, t) && Yields(t, r)
    ensures Yields(s, r)
  {
    ExtendsTrans(s, t, r.0);
  }

  /** The node at a handle that is still live, and the node the handle keeps
      pointing to as the store grows. */
  lemma DerefExtends(s: Store, t: Store, h: Handle)
    requires Consistent(s) && Consistent(t) && Extends(s, t) && Held(s, h)
    ensures Held(t, h) && Deref(t, h) == Deref(s, h)
  {
    HeldExtends(s, t, h);
  }

  /** `poly(node)`: the polynomial a node stands for. */
  ghost function PolyOf(s: Store, h: Handle): (p: PolyMap)
    requires Consistent(s) && Held(s, h)
    ensures Buildable(s, Poly(p))
    ensures Deref(s, h).Poly? ==> p == Deref(s, h).p
    ensures !Deref(s, h).Poly? ==> p == Monomial([(h, 1)], 1.0)
  {
    var n := Deref(s, h);
    FromNodeFacts(h, n);
    FromNode(h, n)
  }

  lemma PolyOfExtends(s: Store, t: Store, h: Handle)
    requires Consistent(s) && Consistent(t) && Extends(s, t) && Held(s, h)
    ensures Held(t, h) && PolyOf(t, h) == PolyOf(s, h)
  {
    DerefExtends(s, t, h);
  }

  /** `Builder::poly` / `Builder::intern(Node::Poly(p))` */
  ghost function PolyNode(s: Store, p: PolyMap): (r: Built)
    requires Consistent(s) && Buildable(s, Poly(p))
    ensures Yields(s, r)
    ensures r.1.Ok? ==> Deref(r.0, r.1.value) == Poly(p)
    ensures r.1.Err? ==> r.1.error == HashCollision && r.0 == s
  {
    Interned(s, Poly(p))
  }

  lemma NoHandles(p: PolyMap, s: Store)
    requires Canonical(p) && forall k | k in p :: k == []
    ensures Buildable(s, Poly(p))
  {
    assert PolyHandles(p) == {};
  }

  /** `Builder::rational` */
  ghost function RationalNode(s: Store, c: real): (r: Built)
    requires Consistent(s)
    ensures Yields(s, r)
    ensures r.1.Ok? ==> Deref(r.0, r.1.value) == Poly(Rational(c))
    ensures r.1.Err? ==> r.1.error == HashCollision && r.0 == s
  {
    NoHandles(Rational(c), s);
    PolyNode(s, Rational(c))
  }

  /** `Builder::int` */
  ghost function IntNode(s: Store, i: I64): (r: Built)
    requires Consistent(s)
    ensures Yields(s, r)
    ensures r.1.Ok? ==> Deref(r.0, r.1.value) == Poly(Rational(i as real))
    ensures r.1.Err? ==> r.1.error == HashCollision && r.0 == s
  {
    RationalNode(s, i as real)
  }

  /** `Builder::var` */
  ghost function VarNode(s: Store, name: string): (r: Built)
    requires Consistent(s)
    ensures Yields(s, r)
    ensures r.1.Ok? ==> Deref(r.0, r.1.value) == Var(name)
    ensures r.1.Err? ==> r.1.error == HashCollision && r.0 == s
  {
    Interned(s, Var(name))
  }

  lemma TupleBuildable(s: Store, hs: seq<Handle>)
    requires AllHeld(s, hs)
    ensures Buildable(s, Tuple(hs))
  {
    AllHeldIndex(s, hs);
    forall c | c in Children(Tuple(hs)) ensures Held(s, c) && c.id < |s.nodes| {
      var i :| 0 <= i < |hs| && hs[i] == c;
    }
  }

  lemma FuncBuildable(s: Store, f: Transient, g: Handle)
    requires Held(s, g)
    ensures Buildable(s, Func(f, g))
  {
    assert Children(Func(f, g)) == {g};
  }

  /** `Builder::tuple` over parts already evaluated: the first error, or
      the tuple of the parts. */
  ghost function TupleOf(s: Store, parts: Result<seq<Handle>, Error>): (r: Built)
    requires Consistent(s) && (parts.Ok? ==> AllHeld(s, parts.value))
    ensures Yields(s, r)
    ensures parts.Err? ==> r == (s, Err(parts.error))
    ensures parts.Ok? && r.1.Ok? ==> Deref(r.0, r.1.value) == Tuple(parts.value)
    ensures parts.Ok? && r.1.Err? ==> r.1.error == HashCollision
  {
    match parts
    case Err(e) => (s, Err(e))
    case Ok(hs) =>
      TupleBuildable(s, hs);
      Interned(s, Tuple(hs))
  }

  lemma OpaqueTerm(s: Store, h: Handle, i: int)
    requires Held(s, h) && i != 0
    ensures Buildable(s, Poly(Monomial([(h, i)], 1.0)))
  {
    var q := Monomial([(h, i)], 1.0);
    forall v | v in PolyHandles(q) ensures v == h {
      var b: Base, j: int :| b in q && 0 <= j < |b| && b[j].0 == v;
    }
  }

  /** `poly(b).pow_i(self, i)`: the node `builder.poly(p)` is interned only
      in the case where `pow_i` uses it. */
  ghost function PolyPowI(s: Store, p: PolyMap, i: I32): (r: (Store, Result<PolyMap, Error>))
    requires Consistent(s) && Buildable(s, Poly(p))
    ensures Consistent(r.0) && Extends(s, r.0)
    ensures r.1.Ok? ==> Buildable(r.0, Poly(r.1.value))
    ensures !PowIOpaque(p, i) ==> r == (s, PowI(p, i, Handle(0, 0)))
    ensures r.1.Err? ==> r.0 == s && r.1.error in {DivZero, HashCollision}
    ensures PowIOpaque(p, i) && r.1.Err? ==> r.1.error == HashCollision
    ensures PowIOpaque(p, i) && r.1.Ok? ==>
      var n := PolyNode(s, p);
      n.1.Ok? && r == (n.0, Ok(Monomial([(n.1.value, i as int)], 1.0)))
  {
    if PowIOpaque(p, i) then
      var (t, h) := PolyNode(s, p);
      if h.Err? then (t, Err(h.error))
      else
        OpaqueTerm(t, h.value, i);
        (t, Ok(Monomial([(h.value, i)], 1.0)))
    else
      PowIHandles(p, i, Handle(0, 0));
      (s, PowI(p, i, Handle(0, 0)))
  }

  /** A polynomial made from two buildable ones mentions only their nodes. */
  lemma BuildableFrom(s: Store, p: PolyMap, q: PolyMap, r: PolyMap)
    requires Buildable(s, Poly(p)) && Buildable(s, Poly(q)) && Canonical(r)
    requires PolyHandles(r) <= PolyHandles(p) + PolyHandles(q)
    ensures Buildable(s, Poly(r))
  {
  }

  /** The one-argument closures `uniform_one` maps: `pow_i` and `func`. */
  datatype UnOp = PowIOp(i: I32) | FuncOp(tag: Transient)

  /** The two-argument closures `uniform` maps: `add`, `sub`, `mul`, `div`
      and `pow`. */
  datatype BinOp = AddOp | SubOp | MulOp | DivOp | PowOp

  /** `|a, i| Ok(self.poly(poly(a).pow_i(self, i)?))` and
      `|g, f| Ok(self.intern(Node::Func(f, g)))`. */
  ghost function Unary(s: Store, op: UnOp, a: Handle): (r: Built)
    requires Consistent(s) && Held(s, a)
    ensures Yields(s, r)
    ensures op.FuncOp? ==> InternsNode(s, r, Func(op.tag, a))
    ensures op.PowIOp? && !PowIOpaque(PolyOf(s, a), op.i) ==>
      match PowI(PolyOf(s, a), op.i, Handle(0, 0))
      case Ok(q) => InternsNode(s, r, Poly(q))
      case Err(e) => r == (s, Err(e))
    ensures op.PowIOp? && PowIOpaque(PolyOf(s, a), op.i) ==>
      var n := PolyNode(s, PolyOf(s, a));
      && (r.1.Ok? ==> n.1.Ok? && Deref(r.0, r.1.value) == Poly(Monomial([(n.1.value, op.i as int)], 1.0)))
      && (r.1.Err? ==> r.1.error == HashCollision)
  {
    match op
    case PowIOp(i) =>
      var (t, q) := PolyPowI(s, PolyOf(s, a), i);
      if q.Err? then (t, Err(q.error))
      else
        var r := PolyNode(t, q.value);
        YieldsTrans(s, t, r);
        r
    case FuncOp(f) =>
      FuncBuildable(s, f, a);
      Interned(s, Func(f, a))
  }

  /** One more element mapped: the store grows along the way and the
      results so far stay live. */
  lemma ConsStep(s: Store, t: Store, u: Store, y: Handle, ys: seq<Handle>)
    requires Yields(s, (t, Ok(y))) && YieldsAll(t, (u, Ok(ys)))
    ensures YieldsAll(s, (u, Ok([y] + ys)))
  {
    ExtendsTrans(s, t, u);
    HeldExtends(t, u, y);
  }

  lemma ErrStep(s: Store, t: Store, u: Store, e: Error)
    requires Consistent(u) && Extends(s, t) && Extends(t, u)
    ensures YieldsAll(s, (u, Err(e)))
  {
    ExtendsTrans(s, t, u);
  }

  // ---------------------------------------------------------------------
  // Traces: the order in which a mapping builds its results. Every element
  // is built in the store the previous elements left behind, so "result
  // `k` is the closure applied to element `k`" is stated with the list of
  // stores `ts`, `ts[k]` being the store before element `k` and `ts[k + 1]`
  // the store after it.

  lemma ExtendsRefl(s: Store)
    ensures Extends(s, s)
  {
    assert s.nodes[..|s.nodes|] == s.nodes;
  }

  /** A closure a mapping applies to one element `x` (with `y`, the element
      it is paired with, for `uniform`'s zip). */
  type StepFn = (Store, Handle, Handle) --> Built

  /** `uniform_one`'s closure. */
  ghost function UnaryStep(op: UnOp): StepFn
  {
    (s: Store, x: Handle, y: Handle) requires Consistent(s) && Held(s, x) => Unary(s, op, x)
  }

  /** `uniform`'s closure. */
  ghost function PairStep(op: BinOp): StepFn
    decreases Rank(op), 1, 1
  {
    (s: Store, x: Handle, y: Handle) requires Consistent(s) && Held(s, x) && Held(s, y) => Binary(s, op, x, y)
  }

  /** `substitute` with a fixed map, on nodes below slot `top`. */
  ghost function SubstStep(env: Env, top: nat): StepFn
    decreases top, 1, 0
  {
    (s: Store, x: Handle, y: Handle) requires Consistent(s) && Held(s, x) && EnvHeld(s, env) && x.id < top =>
      Subst(s, x, env)
  }

  /** A definition's body with its one parameter bound to `x` (the arity-1
      case of `apply`). */
  ghost function DefStep(d: Definition): StepFn
  {
    (s: Store, x: Handle, y: Handle) requires Consistent(s) && Held(s, x) && Held(s, d.expr) =>
      BindHeld(s, d.args, [x]);
      Subst(s, d.expr, Bind(d.args, [x]))
  }

  /** `zs[k]` is the closure `f` applied to `xs[k]` (paired with `ys[k]`) in
      store `ts[k]`, which it turns into `ts[k + 1]`; every store extends
      the one before it. */
  ghost predicate Trace(ts: seq<Store>, f: StepFn, xs: seq<Handle>, ys: seq<Handle>, zs: seq<Handle>)
    decreases |xs|
  {
    && |ts| == |xs| + 1 && |ys| == |xs| && |zs| == |xs|
    && Consistent(ts[0])
    && (xs != [] ==>
          && f.requires(ts[0], xs[0], ys[0])
          && f(ts[0], xs[0], ys[0]) == (ts[1], Ok(zs[0]))
          && Extends(ts[0], ts[1]) && Held(ts[1], zs[0])
          && Trace(ts[1..], f, xs[1..], ys[1..], zs[1..]))
  }

  /** There is a trace of `xs` from `s` to `u` with results `zs`. */
  ghost predicate Traced(s: Store, u: Store, f: StepFn, xs: seq<Handle>, ys: seq<Handle>, zs: seq<Handle>)
  {
    exists ts :: Trace(ts, f, xs, ys, zs) && ts[0] == s && ts[|xs|] == u
  }

  lemma TracedNil(f: StepFn, s: Store)
    requires Consistent(s)
    ensures Traced(s, s, f, [], [], [])
  {
    assert Trace([s], f, [], [], []);
  }

  /** A trace of the rest, preceded by a successful first step. */
  lemma TracedCons(f: StepFn, s: Store, xs: seq<Handle>, ys: seq<Handle>, t: Store, z: Handle, u: Store, zs: seq<Handle>)
    requires Consistent(s) && xs != [] && |ys| == |xs|
    requires f.requires(s, xs[0], ys[0]) && f(s, xs[0], ys[0]) == (t, Ok(z))
    requires Extends(s, t) && Held(t, z)
    requires Traced(t, u, f, xs[1..], ys[1..], zs)
    ensures Traced(s, u, f, xs, ys, [z] + zs)
  {
    var ts :| Trace(ts, f, xs[1..], ys[1..], zs) && ts[0] == t && ts[|xs| - 1] == u;
    var us := [s] + ts;
    assert us[1..] == ts && ([z] + zs)[1..] == zs;
    assert Trace(us, f, xs, ys, [z] + zs);
    assert us[|xs|] == u;
  }

  /** `ta.iter().map(|a| f(a, t))` collected: the first error stops it. */
  ghost function MapOne(s: Store, op: UnOp, xs: seq<Handle>): (r: BuiltAll)
    requires Consistent(s) && AllHeld(s, xs)
    ensures YieldsAll(s, r)
    ensures r.1.Ok? ==> |r.1.value| == |xs|
    ensures r.1.Ok? ==> Traced(s, r.0, UnaryStep(op), xs, xs, r.1.value)
    decreases |xs|
  {
    if xs == [] then
      TracedNil(UnaryStep(op), s);
      (s, Ok([]))
    else
      var first := Unary(s, op, xs[0]);
      if first.1.Err? then (first.0, Err(first.1.error))
      else
        AllHeldExtends(s, first.0, xs[1..]);
        var rest := MapOne(first.0, op, xs[1..]);
        if rest.1.Err? then
          ErrStep(s, first.0, rest.0, rest.1.error);
          rest
        else
          ConsStep(s, first.0, rest.0, first.1.value, rest.1.value);
          TracedCons(UnaryStep(op), s, xs, xs, first.0, first.1.value, rest.0, rest.1.value);
          Prepend([first.1.value], rest)
  }

  /** Puts `acc` in front of a mapping's results. */
  function Prepend(acc: seq<Handle>, r: BuiltAll): BuiltAll
  {
    (r.0, if r.1.Ok? then Ok(acc + r.1.value) else r.1)
  }

  lemma TupleParts(s: Store, h: Handle)
    requires Consistent(s) && Held(s, h) && Deref(s, h).Tuple?
    ensures AllHeld(s, Deref(s, h).parts)
  {
    var parts := Deref(s, h).parts;
    forall i | 0 <= i < |parts| ensures Held(s, parts[i]) {
      assert parts[i] in Children(Deref(s, h));
    }
    AllHeldIndex(s, parts);
  }

  /** `uniform_one`: a tuple is mapped element by element into a new tuple,
      anything else is handed to the closure. */
  ghost function UniformOne(s: Store, op: UnOp, a: Handle): (r: Built)
    requires Consistent(s) && Held(s, a)
    ensures Yields(s, r)
  {
    match Deref(s, a)
    case Tuple(ta) =>
      TupleParts(s, a);
      var (t, ys) := MapOne(s, op, ta);
      var r := TupleOf(t, ys);
      YieldsTrans(s, t, r);
      r
    case _ => Unary(s, op, a)
  }

  function Rank(op: BinOp): nat
  {
    if op == PowOp then 1 else 0
  }

  /** `n` copies of `h`: the scalar side of a broadcast. */
  function Repeat(h: Handle, n: nat): (hs: seq<Handle>)
    ensures |hs| == n && forall i | 0 <= i < n :: hs[i] == h
  {
    seq(n, _ => h)
  }

  /** The integer exponent `pow` hands to `pow_i`: the value of a `Poly`
      node that is an integer fitting `i32`. */
  ghost function SmallExponent(s: Store, b: Handle): (e: Option<I32>)
    requires Consistent(s) && Held(s, b)
    ensures e.Some? ==> Deref(s, b).Poly? && AsRational(Deref(s, b).p) == Some(e.value as real)
    ensures Deref(s, b).Poly? && AsRational(Deref(s, b).p).Some? ==>
      var q := AsRational(Deref(s, b).p).value;
      q == q.Floor as real && -0x8000_0000 <= q.Floor < 0x8000_0000 ==> e == Some(q.Floor as I32)
  {
    match Deref(s, b)
    case Poly(p) =>
      (match AsInt(p)
       case Some(i) => if -0x8000_0000 <= i < 0x8000_0000 then Some(i as I32) else None
       case None => None)
    case _ => None
  }

  /** `|a, b| Ok(self.poly(poly(a) + poly(b)))` */
  ghost function AddNodes(s: Store, a: Handle, b: Handle): (r: Built)
    requires Consistent(s) && Held(s, a) && Held(s, b)
    ensures Yields(s, r)
    ensures InternsNode(s, r, Poly(Plus(PolyOf(s, a), PolyOf(s, b))))
  {
    var pa, pb := PolyOf(s, a), PolyOf(s, b);
    PlusCanonical(pa, pb);
    BuildableFrom(s, pa, pb, Plus(pa, pb));
    PolyNode(s, Plus(pa, pb))
  }

  /** `|a, b| Ok(self.poly(poly(a) + poly(b) * (-1)))` */
  ghost function SubNodes(s: Store, a: Handle, b: Handle): (r: Built)
    requires Consistent(s) && Held(s, a) && Held(s, b)
    ensures Yields(s, r)
    ensures InternsNode(s, r, Poly(Plus(PolyOf(s, a), Scale(PolyOf(s, b), -1.0))))
  {
    var pa, pb := PolyOf(s, a), PolyOf(s, b);
    ScaleCanonical(pb, -1.0);
    PlusCanonical(pa, Scale(pb, -1.0));
    BuildableFrom(s, pa, pb, Plus(pa, Scale(pb, -1.0)));
    PolyNode(s, Plus(pa, Scale(pb, -1.0)))
  }

  /** `|a, b| Ok(self.poly(poly(a) * poly(b)))` */
  ghost function MulNodes(s: Store, a: Handle, b: Handle): (r: Built)
    requires Consistent(s) && Held(s, a) && Held(s, b)
    ensures Yields(s, r)
    ensures InternsNode(s, r, Poly(Times(PolyOf(s, a), PolyOf(s, b))))
  {
    var pa, pb := PolyOf(s, a), PolyOf(s, b);
    TimesCanonical(pa, pb);
    BuildableFrom(s, pa, pb, Times(pa, pb));
    PolyNode(s, Times(pa, pb))
  }

  /** `|a, b| Ok(self.poly(poly(a) * poly(b).pow_i(self, -1)?))` */
  ghost function DivNodes(s: Store, a: Handle, b: Handle): (r: Built)
    requires Consistent(s) && Held(s, a) && Held(s, b)
    ensures Yields(s, r)
    ensures r.1 == Err(DivZero) <==> IsZero(PolyOf(s, b))
    ensures r.1.Err? ==> r.0 == s && r.1.error in {DivZero, HashCollision}
  {
    var pa, pb := PolyOf(s, a), PolyOf(s, b);
    var (t, q) := PolyPowI(s, pb, -1);
    if q.Err? then (t, Err(q.error))
    else
      BuildableExtends(s, t, Poly(pa));
      TimesCanonical(pa, q.value);
      BuildableFrom(t, pa, q.value, Times(pa, q.value));
      var r := PolyNode(t, Times(pa, q.value));
      YieldsTrans(s, t, r);
      r
  }

  /** The closures of `add`, `sub`, `mul`, `div` and `pow`, applied to two
      nodes neither of which is being broadcast over. `pow` hands an
      integer exponent to `pow_i` and rewrites anything else as
      `exp(log(a) * b)`. */
  ghost function Binary(s: Store, op: BinOp, a: Handle, b: Handle): (r: Built)
    requires Consistent(s) && Held(s, a) && Held(s, b)
    ensures Yields(s, r)
    ensures op == PowOp && SmallExponent(s, b).Some? ==>
      r == UniformOne(s, PowIOp(SmallExponent(s, b).value), a)
    ensures op == PowOp && SmallExponent(s, b).None? ==> r == ExpLog(s, a, b)
    decreases Rank(op), 1, 0
  {
    match op
    case AddOp => AddNodes(s, a, b)
    case SubOp => SubNodes(s, a, b)
    case MulOp => MulNodes(s, a, b)
    case DivOp => DivNodes(s, a, b)
    case PowOp =>
      match SmallExponent(s, b)
      case Some(i) => UniformOne(s, PowIOp(i), a)
      case None => ExpLog(s, a, b)
  }

  /** `func(Exp, mul(func(Log, a)?, b)?)`, the general case of `pow`. */
  ghost function ExpLog(s: Store, a: Handle, b: Handle): (r: Built)
    requires Consistent(s) && Held(s, a) && Held(s, b)
    ensures Yields(s, r)
    decreases Rank(PowOp), 0, 0
  {
    var (t, g) := UniformOne(s, FuncOp(Log), a);
    if g.Err? then (t, Err(g.error))
    else
      HeldExtends(s, t, b);
      var (u, m) := Uniform(t, MulOp, g.value, b);
      ExtendsTrans(s, t, u);
      if m.Err? then (u, Err(m.error))
      else
        var r := UniformOne(u, FuncOp(Exp), m.value);
        YieldsTrans(s, u, r);
        r
  }

  /** `zip(..).map(|(a, b)| f(a, b))` collected: the first error stops it. */
  ghost function MapPairs(s: Store, op: BinOp, xs: seq<Handle>, ys: seq<Handle>): (r: BuiltAll)
    requires Consistent(s) && AllHeld(s, xs) && AllHeld(s, ys) && |xs| == |ys|
    ensures YieldsAll(s, r)
    ensures r.1.Ok? ==> |r.1.value| == |xs|
    ensures r.1.Ok? ==> Traced(s, r.0, PairStep(op), xs, ys, r.1.value)
    decreases Rank(op), 2, |xs|
  {
    if xs == [] then
      TracedNil(PairStep(op), s);
      (s, Ok([]))
    else
      var (t, z) := Binary(s, op, xs[0], ys[0]);
      if z.Err? then (t, Err(z.error))
      else
        AllHeldExtends(s, t, xs[1..]);
        AllHeldExtends(s, t, ys[1..]);
        var (u, zs) := MapPairs(t, op, xs[1..], ys[1..]);
        if zs.Err? then
          ErrStep(s, t, u, zs.error);
          (u, Err(zs.error))
        else
          ConsStep(s, t, u, z.value, zs.value);
          PairTraced(s, op, xs, ys, t, z.value, u, zs.value);
          (u, Ok([z.value] + zs.value))
  }

  lemma PairTraced(s: Store, op: BinOp, xs: seq<Handle>, ys: seq<Handle>, t: Store, z: Handle, u: Store, zs: seq<Handle>)
    requires Consistent(s) && xs != [] && |ys| == |xs| && Held(s, xs[0]) && Held(s, ys[0])
    requires Binary(s, op, xs[0], ys[0]) == (t, Ok(z))
    requires Traced(t, u, PairStep(op), xs[1..], ys[1..], zs)
    ensures Traced(s, u, PairStep(op), xs, ys, [z] + zs)
    decreases Rank(op), 1, 2
  {
    TracedCons(PairStep(op), s, xs, ys, t, z, u, zs);
  }

  /** `self.tuple(..)` over the pairs `uniform` zips. */
  ghost function ZipTuple(s: Store, op: BinOp, xs: seq<Handle>, ys: seq<Handle>): (r: Built)
    requires Consistent(s) && AllHeld(s, xs) && AllHeld(s, ys) && |xs| == |ys|
    ensures Yields(s, r)
    decreases Rank(op), 3, 0
  {
    var (t, zs) := MapPairs(s, op, xs, ys);
    var r := TupleOf(t, zs);
    YieldsTrans(s, t, r);
    r
  }

  lemma RepeatHeld(s: Store, h: Handle, n: nat)
    requires Held(s, h)
    ensures AllHeld(s, Repeat(h, n))
  {
    AllHeldIndex(s, Repeat(h, n));
  }

  /** `uniform`: two tuples are combined element by element when their
      lengths agree (else `ShapeMismatch`), a tuple and a scalar by
      broadcasting the scalar, two scalars directly. */
  ghost function Uniform(s: Store, op: BinOp, a: Handle, b: Handle): (r: Built)
    requires Consistent(s) && Held(s, a) && Held(s, b)
    ensures Yields(s, r)
    decreases Rank(op), 4, 0
  {
    match (Deref(s, a), Deref(s, b))
    case (Tuple(ta), Tuple(tb)) =>
      if |ta| != |tb| then (s, Err(ShapeMismatch(|ta|, |tb|)))
      else
        TupleParts(s, a);
        TupleParts(s, b);
        ZipTuple(s, op, ta, tb)
    case (Tuple(ta), _) =>
      TupleParts(s, a);
      RepeatHeld(s, b, |ta|);
      ZipTuple(s, op, ta, Repeat(b, |ta|))
    case (_, Tuple(tb)) =>
      TupleParts(s, b);
      RepeatHeld(s, a, |tb|);
      ZipTuple(s, op, Repeat(a, |tb|), tb)
    case _ => Binary(s, op, a, b)
  }

  /** `neg`: `mul(int(-1), a)`. */
  ghost function Neg(s: Store, a: Handle): (r: Built)
    requires Consistent(s) && Held(s, a)
    ensures Yields(s, r)
  {
    var (t, m) := IntNode(s, -1);
    if m.Err? then (t, Err(m.error))
    else
      HeldExtends(s, t, a);
      var r := Uniform(t, MulOp, m.value, a);
      YieldsTrans(s, t, r);
      r
  }

  /** The evaluated items of an iterator of `NodeResult`s: every node among
      them is live. */
  predicate ItemsHeld(s: Store, items: seq<Result<Handle, Error>>)
    decreases |items|
  {
    items == [] || ((items[0].Ok? ==> Held(s, items[0].value)) && ItemsHeld(s, items[1..]))
  }

  lemma {:induction false} ItemsHeldExtends(s: Store, t: Store, items: seq<Result<Handle, Error>>)
    requires Extends(s, t) && ItemsHeld(s, items)
    ensures ItemsHeld(t, items)
    decreases |items|
  {
    if items != [] {
      if items[0].Ok? {
        HeldExtends(s, t, items[0].value);
      }
      ItemsHeldExtends(s, t, items[1..]);
    }
  }

  predicate AllOk(items: seq<Result<Handle, Error>>)
  {
    forall i | 0 <= i < |items| :: items[i].Ok?
  }

  /** The first `k` steps of a fold from `acc` succeed: each of the first
      `k` items is `Ok`, and combining the accumulator with it succeeds. */
  ghost predicate FoldOk(s: Store, op: BinOp, acc: Handle, items: seq<Result<Handle, Error>>, k: nat)
    requires Consistent(s) && Held(s, acc) && ItemsHeld(s, items)
    decreases k
  {
    k <= |items| &&
    (k == 0 ||
      (items[0].Ok? &&
       var (t, a) := Uniform(s, op, acc, items[0].value);
       a.Ok? &&
       (ItemsHeldExtends(s, t, items[1..]);
        FoldOk(t, op, a.value, items[1..], k - 1))))
  }

  /** `try_fold(items, acc, |a, b| uniform(a, b, op))`: combines the
      accumulator with each item in turn and stops at the first error, be it
      an item's own or the combination's. */
  ghost function Fold(s: Store, op: BinOp, acc: Handle, items: seq<Result<Handle, Error>>): (r: Built)
    requires Consistent(s) && Held(s, acc) && ItemsHeld(s, items)
    ensures Yields(s, r)
    ensures items == [] ==> r == (s, Ok(acc))
    ensures items != [] && items[0].Err? ==> r == (s, Err(items[0].error))
    ensures r.1.Ok? ==> AllOk(items)
    ensures forall k | 0 <= k < |items| && items[k].Err? && FoldOk(s, op, acc, items, k) :: r.1 == Err(items[k].error)
    decreases |items|
  {
    if items == [] then (s, Ok(acc))
    else if items[0].Err? then (s, Err(items[0].error))
    else
      var (t, a) := Uniform(s, op, acc, items[0].value);
      if a.Err? then (t, Err(a.error))
      else
        ItemsHeldExtends(s, t, items[1..]);
        var r := Fold(t, op, a.value, items[1..]);
        YieldsTrans(s, t, r);
        assert forall k | 0 < k < |items| :: items[k] == items[1..][k - 1];
        assert r.1.Ok? ==> AllOk(items) by {
          if r.1.Ok? {
            forall i | 0 <= i < |items| ensures items[i].Ok? {
              if i > 0 {
                assert items[i] == items[1..][i - 1];
              }
            }
          }
        }
        r
  }

  /** `sum`: the fold of `add` from `int(0)`. */
  ghost function SumOf(s: Store, items: seq<Result<Handle, Error>>): (r: Built)
    requires Consistent(s) && ItemsHeld(s, items)
    ensures Yields(s, r)
    ensures r.1.Ok? ==> AllOk(items)
  {
    var (t, z) := IntNode(s, 0);
    if z.Err? then (t, Err(z.error))
    else
      ItemsHeldExtends(s, t, items);
      var r := Fold(t, AddOp, z.value, items);
      YieldsTrans(s, t, r);
      r
  }

  /** `product`: the fold of `mul` from `int(1)`. */
  ghost function ProductOf(s: Store, items: seq<Result<Handle, Error>>): (r: Built)
    requires Consistent(s) && ItemsHeld(s, items)
    ensures Yields(s, r)
    ensures r.1.Ok? ==> AllOk(items)
  {
    var (t, z) := IntNode(s, 1);
    if z.Err? then (t, Err(z.error))
    else
      ItemsHeldExtends(s, t, items);
      var r := Fold(t, MulOp, z.value, items);
      YieldsTrans(s, t, r);
      r
  }

  /** `collect::<Result<Vec<_>, _>>()`: all the nodes, or the first error. */
  function Collect(items: seq<Result<Handle, Error>>): (r: Result<seq<Handle>, Error>)
    ensures r.Ok? <==> AllOk(items)
    ensures r.Ok? ==> |r.value| == |items| && forall i | 0 <= i < |items| :: r.value[i] == items[i].value
    ensures r.Err? ==> exists k | 0 <= k < |items| :: items[k] == Err(r.error) && AllOk(items[..k])
    decreases |items|
  {
    if items == [] then Ok([])
    else if items[0].Err? then
      assert items[..0] == [];
      Err(items[0].error)
    else
      match Collect(items[1..])
      case Err(e) =>
        var k :| 0 <= k < |items[1..]| && items[1..][k] == Err(e) && AllOk(items[1..][..k]);
        assert items[..k + 1] == [items[0]] + items[1..][..k];
        Err(e)
      case Ok(hs) => Ok([items[0].value] + hs)
  }

  lemma {:induction false} CollectHeld(s: Store, items: seq<Result<Handle, Error>>)
    requires ItemsHeld(s, items) && Collect(items).Ok?
    ensures AllHeld(s, Collect(items).value)
    decreases |items|
  {
    if items != [] {
      CollectHeld(s, items[1..]);
    }
  }

  /** `tuple`: the tuple of the items, or the first error among them. */
  ghost function TupleNode(s: Store, items: seq<Result<Handle, Error>>): (r: Built)
    requires Consistent(s) && ItemsHeld(s, items)
    ensures Yields(s, r)
  {
    var c := Collect(items);
    if c.Ok? then
      CollectHeld(s, items);
      TupleOf(s, c)
    else TupleOf(s, c)
  }

  /** The names a substitution replaces, each with a live node. */
  type Env = map<string, Handle>

  predicate EnvHeld(s: Store, env: Env)
  {
    forall name | name in env :: Held(s, env[name])
  }

  lemma EnvExtends(s: Store, t: Store, env: Env)
    requires Extends(s, t) && EnvHeld(s, env)
    ensures EnvHeld(t, env)
  {
    forall name | name in env ensures Held(t, env[name]) {
      HeldExtends(s, t, env[name]);
    }
  }

  /** The monomial's nodes are live and older than slot `top`. */
  predicate BaseBelow(s: Store, b: Base, top: nat)
    decreases |b|
  {
    b == [] || (Held(s, b[0].0) && b[0].0.id < top && BaseBelow(s, b[1..], top))
  }

  predicate TermsBelow(s: Store, terms: seq<(Base, real)>, top: nat)
    decreases |terms|
  {
    terms == [] || (BaseBelow(s, terms[0].0, top) && TermsBelow(s, terms[1..], top))
  }

  lemma {:induction false} BaseBelowExtends(s: Store, t: Store, b: Base, top: nat)
    requires Extends(s, t) && BaseBelow(s, b, top)
    ensures BaseBelow(t, b, top)
    decreases |b|
  {
    if b != [] {
      HeldExtends(s, t, b[0].0);
      BaseBelowExtends(s, t, b[1..], top);
    }
  }

  lemma {:induction false} TermsBelowExtends(s: Store, t: Store, terms: seq<(Base, real)>, top: nat)
    requires Extends(s, t) && TermsBelow(s, terms, top)
    ensures TermsBelow(t, terms, top)
    decreases |terms|
  {
    if terms != [] {
      BaseBelowExtends(s, t, terms[0].0, top);
      TermsBelowExtends(s, t, terms[1..], top);
    }
  }

  predicate PartsBelow(parts: seq<Handle>, top: nat)
    decreases |parts|
  {
    parts == [] || (parts[0].id < top && PartsBelow(parts[1..], top))
  }

  /** `p.factors()`: the terms of `p`, monomials in increasing order (the
      source walks its hash map in an order it does not fix). */
  ghost function Terms(p: PolyMap): (terms: seq<(Base, real)>)
    ensures |terms| == |p|
    ensures forall i | 0 <= i < |terms| :: terms[i].0 in p && terms[i].1 == p[terms[i].0]
  {
    var ks := SortedKeys(p.Keys);
    seq(|ks|, i requires 0 <= i < |ks| => (ks[i], p[ks[i]]))
  }

  lemma {:induction false} BaseBelowIndex(s: Store, b: Base, top: nat)
    requires forall j | 0 <= j < |b| :: Held(s, b[j].0) && b[j].0.id < top
    ensures BaseBelow(s, b, top)
    decreases |b|
  {
    if b != [] {
      BaseBelowIndex(s, b[1..], top);
    }
  }

  lemma {:induction false} TermsBelowIndex(s: Store, terms: seq<(Base, real)>, top: nat)
    requires forall i | 0 <= i < |terms| :: BaseBelow(s, terms[i].0, top)
    ensures TermsBelow(s, terms, top)
    decreases |terms|
  {
    if terms != [] {
      TermsBelowIndex(s, terms[1..], top);
    }
  }

  lemma {:induction false} PartsBelowIndex(parts: seq<Handle>, top: nat)
    requires forall i | 0 <= i < |parts| :: parts[i].id < top
    ensures PartsBelow(parts, top)
    decreases |parts|
  {
    if parts != [] {
      PartsBelowIndex(parts[1..], top);
    }
  }

  lemma TermsOfNode(s: Store, h: Handle)
    requires Consistent(s) && Held(s, h) && Deref(s, h).Poly?
    ensures TermsBelow(s, Terms(Deref(s, h).p), h.id)
  {
    var p := Deref(s, h).p;
    var terms := Terms(p);
    forall i | 0 <= i < |terms| ensures BaseBelow(s, terms[i].0, h.id) {
      var b := terms[i].0;
      forall j | 0 <= j < |b| ensures Held(s, b[j].0) && b[j].0.id < h.id {
        assert b[j].0 in PolyHandles(p);
        assert b[j].0 in Children(Deref(s, h));
      }
      BaseBelowIndex(s, b, h.id);
    }
    TermsBelowIndex(s, terms, h.id);
  }

  lemma PartsOfNode(s: Store, h: Handle)
    requires Consistent(s) && Held(s, h) && Deref(s, h).Tuple?
    ensures AllHeld(s, Deref(s, h).parts) && PartsBelow(Deref(s, h).parts, h.id)
  {
    TupleParts(s, h);
    var parts := Deref(s, h).parts;
    forall i | 0 <= i < |parts| ensures parts[i].id < h.id {
      assert parts[i] in Children(Deref(s, h));
    }
    PartsBelowIndex(parts, h.id);
  }

  /** `substitute`: a variable the map names becomes its image, any other
      stays; tuples and functions are rebuilt around their substituted
      parts; a polynomial is rebuilt as the sum over its terms of the
      coefficient times the substituted bases raised to their exponents. */
  ghost function Subst(s: Store, h: Handle, env: Env): (r: Built)
    requires Consistent(s) && Held(s, h) && EnvHeld(s, env)
    ensures Yields(s, r)
    decreases h.id, 3, 0
  {
    match Deref(s, h)
    case Var(name) => if name in env then (s, Ok(env[name])) else (s, Ok(h))
    case Tuple(parts) =>
      PartsOfNode(s, h);
      var (t, hs) := SubstAll(s, parts, env, h.id);
      var r := TupleOf(t, hs);
      YieldsTrans(s, t, r);
      r
    case Func(f, g) =>
      assert g in Children(Deref(s, h));
      var (t, x) := Subst(s, g, env);
      if x.Err? then (t, Err(x.error))
      else
        var r := UniformOne(t, FuncOp(f), x.value);
        YieldsTrans(s, t, r);
        r
    case Poly(p) =>
      var (t, z) := IntNode(s, 0);
      if z.Err? then (t, Err(z.error))
      else
        TermsOfNode(s, h);
        TermsBelowExtends(s, t, Terms(p), h.id);
        EnvExtends(s, t, env);
        var r := SubstSum(t, env, Terms(p), z.value, h.id);
        YieldsTrans(s, t, r);
        r
  }

  /** `parts.iter().map(|n| self.substitute(n, map))` collected. */
  ghost function SubstAll(s: Store, parts: seq<Handle>, env: Env, top: nat): (r: BuiltAll)
    requires Consistent(s) && AllHeld(s, parts) && PartsBelow(parts, top) && EnvHeld(s, env)
    ensures YieldsAll(s, r)
    ensures r.1.Ok? ==> |r.1.value| == |parts|
    ensures r.1.Ok? ==> Traced(s, r.0, SubstStep(env, top), parts, parts, r.1.value)
    decreases top, 2, |parts|
  {
    if parts == [] then
      TracedNil(SubstStep(env, top), s);
      (s, Ok([]))
    else
      var (t, y) := Subst(s, parts[0], env);
      if y.Err? then (t, Err(y.error))
      else
        AllHeldExtends(s, t, parts[1..]);
        EnvExtends(s, t, env);
        var (u, ys) := SubstAll(t, parts[1..], env, top);
        if ys.Err? then
          ErrStep(s, t, u, ys.error);
          (u, Err(ys.error))
        else
          ConsStep(s, t, u, y.value, ys.value);
          SubstTraced(s, env, top, parts, t, y.value, u, ys.value);
          (u, Ok([y.value] + ys.value))
  }

  lemma SubstTraced(s: Store, env: Env, top: nat, xs: seq<Handle>, t: Store, z: Handle, u: Store, zs: seq<Handle>)
    requires Consistent(s) && xs != [] && Held(s, xs[0]) && xs[0].id < top && EnvHeld(s, env)
    requires Subst(s, xs[0], env) == (t, Ok(z))
    requires Traced(t, u, SubstStep(env, top), xs[1..], xs[1..], zs)
    ensures Traced(s, u, SubstStep(env, top), xs, xs, [z] + zs)
    decreases top, 1, 1
  {
    TracedCons(SubstStep(env, top), s, xs, xs, t, z, u, zs);
  }

  /** The `sum` over the terms: each term's product is added to the running
      total; the first error stops it. */
  ghost function SubstSum(s: Store, env: Env, terms: seq<(Base, real)>, acc: Handle, top: nat): (r: Built)
    requires Consistent(s) && Held(s, acc) && EnvHeld(s, env) && TermsBelow(s, terms, top)
    ensures Yields(s, r)
    decreases top, 1, |terms|
  {
    if terms == [] then (s, Ok(acc))
    else
      var (t, x) := SubstTerm(s, env, terms[0].0, terms[0].1, top);
      if x.Err? then (t, Err(x.error))
      else
        HeldExtends(s, t, acc);
        var (u, a) := Uniform(t, AddOp, acc, x.value);
        ExtendsTrans(s, t, u);
        if a.Err? then (u, Err(a.error))
        else
          EnvExtends(s, u, env);
          TermsBelowExtends(s, u, terms[1..], top);
          var r := SubstSum(u, env, terms[1..], a.value, top);
          YieldsTrans(s, u, r);
          r
  }

  /** One term: `product(once(Ok(rational(fac))).chain(..))`. The
      coefficient's node is made first, then `int(1)`, then the factors are
      multiplied in. */
  ghost function SubstTerm(s: Store, env: Env, b: Base, fac: real, top: nat): (r: Built)
    requires Consistent(s) && EnvHeld(s, env) && BaseBelow(s, b, top)
    ensures Yields(s, r)
    decreases top, 0, |b| + 1
  {
    var (t, c) := RationalNode(s, fac);
    if c.Err? then (t, Err(c.error))
    else
      var (u, one) := IntNode(t, 1);
      ExtendsTrans(s, t, u);
      if one.Err? then (u, Err(one.error))
      else
        HeldExtends(t, u, c.value);
        var (v, a) := Uniform(u, MulOp, one.value, c.value);
        ExtendsTrans(s, u, v);
        if a.Err? then (v, Err(a.error))
        else
          EnvExtends(s, v, env);
          BaseBelowExtends(s, v, b, top);
          var r := SubstFactors(v, env, b, a.value, top);
          YieldsTrans(s, v, r);
          r
  }

  /** The factors `pow_i(substitute(v)?, e)` multiplied into `acc` one by
      one. An exponent outside `i32` is the `expect("too high")` panic. */
  ghost function SubstFactors(s: Store, env: Env, b: Base, acc: Handle, top: nat): (r: Built)
    requires Consistent(s) && Held(s, acc) && EnvHeld(s, env) && BaseBelow(s, b, top)
    ensures Yields(s, r)
    decreases top, 0, |b|
  {
    if b == [] then (s, Ok(acc))
    else
      var (v, e) := b[0];
      var (t, x) := Subst(s, v, env);
      if x.Err? then (t, Err(x.error))
      else if !(-0x8000_0000 <= e < 0x8000_0000) then (t, Err(ExponentTooLarge))
      else
        var (u, y) := UniformOne(t, PowIOp(e as I32), x.value);
        ExtendsTrans(s, t, u);
        if y.Err? then (u, Err(y.error))
        else
          HeldExtends(s, u, acc);
          var (w, a) := Uniform(u, MulOp, acc, y.value);
          ExtendsTrans(s, u, w);
          if a.Err? then (w, Err(a.error))
          else
            EnvExtends(s, w, env);
            BaseBelowExtends(s, w, b[1..], top);
            var r := SubstFactors(w, env, b[1..], a.value, top);
            YieldsTrans(s, w, r);
            r
  }

  /** A named definition: its parameter names and its body. */
  datatype Definition = Definition(args: seq<string>, expr: Handle)

  type Defs = map<string, Definition>

  predicate DefsHeld(s: Store, defs: Defs)
  {
    forall name | name in defs :: Held(s, defs[name].expr)
  }

  /** `zip`: pairs up the two lists as far as the shorter one goes. */
  function Zip(names: seq<string>, hs: seq<Handle>): (ps: seq<(string, Handle)>)
    ensures |ps| <= |names| && |ps| <= |hs| && (|ps| == |names| || |ps| == |hs|)
    ensures forall i | 0 <= i < |ps| :: ps[i] == (names[i], hs[i])
  {
    var n := if |names| < |hs| then |names| else |hs|;
    seq(n, i requires 0 <= i < n => (names[i], hs[i]))
  }

  /** `collect::<HashMap<_, _>>()`: every pair is inserted in order. */
  function Collected(ps: seq<(string, Handle)>): (env: Env)
    ensures forall name | name in env :: exists i | 0 <= i < |ps| :: ps[i] == (name, env[name])
    decreases |ps|
  {
    if ps == [] then map[]
    else
      var n := |ps| - 1;
      var env := Collected(ps[..n]);
      var env' := env[ps[n].0 := ps[n].1];
      assert forall name | name in env' :: exists i | 0 <= i < |ps| :: ps[i] == (name, env'[name]) by {
        forall name | name in env' ensures exists i | 0 <= i < |ps| :: ps[i] == (name, env'[name]) {
          if name != ps[n].0 {
            var i :| 0 <= i < n && ps[..n][i] == (name, env[name]);
            assert ps[i] == (name, env'[name]);
          }
        }
      }
      env'
  }

  /** Every name paired gets an entry, and a name given once maps to its
      node; a name given twice keeps the last. */
  lemma {:induction false} CollectedLast(ps: seq<(string, Handle)>, i: nat)
    requires i < |ps|
    ensures ps[i].0 in Collected(ps)
    ensures (forall j | i < j < |ps| :: ps[j].0 != ps[i].0) ==> Collected(ps)[ps[i].0] == ps[i].1
    decreases |ps|
  {
    var n := |ps| - 1;
    if i < n {
      CollectedLast(ps[..n], i);
      assert ps[..n][i] == ps[i];
    }
  }

  /** The map `apply` substitutes with: parameter names to argument nodes. */
  function Bind(names: seq<string>, hs: seq<Handle>): Env
  {
    Collected(Zip(names, hs))
  }

  lemma BindHeld(s: Store, names: seq<string>, hs: seq<Handle>)
    requires AllHeld(s, hs)
    ensures EnvHeld(s, Bind(names, hs))
  {
    AllHeldIndex(s, hs);
    var ps := Zip(names, hs);
    forall name | name in Bind(names, hs) ensures Held(s, Bind(names, hs)[name]) {
      var i :| 0 <= i < |ps| && ps[i] == (name, Bind(names, hs)[name]);
      assert hs[i] == Bind(names, hs)[name];
    }
  }

  lemma DefTraced(s: Store, d: Definition, xs: seq<Handle>, t: Store, z: Handle, u: Store, zs: seq<Handle>)
    requires Consistent(s) && xs != [] && Held(s, xs[0]) && Held(s, d.expr)
    requires EnvHeld(s, Bind(d.args, [xs[0]])) && Subst(s, d.expr, Bind(d.args, [xs[0]])) == (t, Ok(z))
    requires Traced(t, u, DefStep(d), xs[1..], xs[1..], zs)
    ensures Traced(s, u, DefStep(d), xs, xs, [z] + zs)
  {
    TracedCons(DefStep(d), s, xs, xs, t, z, u, zs);
  }

  /** `parts.windows(1).map(|p| self.substitute(&def.expr, &map(p)))`
      collected: the body instantiated once per part. */
  ghost function SubstEach(s: Store, d: Definition, parts: seq<Handle>): (r: BuiltAll)
    requires Consistent(s) && Held(s, d.expr) && AllHeld(s, parts)
    ensures YieldsAll(s, r)
    ensures r.1.Ok? ==> |r.1.value| == |parts|
    ensures r.1.Ok? ==> Traced(s, r.0, DefStep(d), parts, parts, r.1.value)
    decreases |parts|
  {
    if parts == [] then
      TracedNil(DefStep(d), s);
      (s, Ok([]))
    else
      BindHeld(s, d.args, [parts[0]]);
      var (t, y) := Subst(s, d.expr, Bind(d.args, [parts[0]]));
      if y.Err? then (t, Err(y.error))
      else
        HeldExtends(s, t, d.expr);
        AllHeldExtends(s, t, parts[1..]);
        var (u, ys) := SubstEach(t, d, parts[1..]);
        if ys.Err? then
          ErrStep(s, t, u, ys.error);
          (u, Err(ys.error))
        else
          ConsStep(s, t, u, y.value, ys.value);
          DefTraced(s, d, parts, t, y.value, u, ys.value);
          (u, Ok([y.value] + ys.value))
  }

  /** A definition applied to `right`. A tuple argument is mapped over when
      the definition takes one parameter, bound parameter by parameter when
      the counts agree, and is a `ShapeMismatch` otherwise; any other
      argument needs exactly one parameter. */
  ghost function ApplyDef(s: Store, d: Definition, right: Handle): (r: Built)
    requires Consistent(s) && Held(s, d.expr) && Held(s, right)
    ensures Yields(s, r)
    ensures Deref(s, right).Tuple? && |d.args| != 1 && |d.args| != |Deref(s, right).parts| ==>
      r == (s, Err(ShapeMismatch(|d.args|, |Deref(s, right).parts|)))
    ensures !Deref(s, right).Tuple? && |d.args| != 1 ==> r == (s, Err(ShapeMismatch(|d.args|, 1)))
    ensures Deref(s, right).Tuple? && |d.args| == 1 && r.1.Ok? ==>
      Deref(r.0, r.1.value).Tuple? && |Deref(r.0, r.1.value).parts| == |Deref(s, right).parts|
  {
    match Deref(s, right)
    case Tuple(parts) =>
      TupleParts(s, right);
      if |d.args| == 1 then
        var (t, hs) := SubstEach(s, d, parts);
        var r := TupleOf(t, hs);
        YieldsTrans(s, t, r);
        r
      else if |d.args| == |parts| then
        BindHeld(s, d.args, parts);
        Subst(s, d.expr, Bind(d.args, parts))
      else (s, Err(ShapeMismatch(|d.args|, |parts|)))
    case _ =>
      if |d.args| == 1 then
        BindHeld(s, d.args, [right]);
        Subst(s, d.expr, Bind(d.args, [right]))
      else (s, Err(ShapeMismatch(|d.args|, 1)))
  }

  /** `apply`: a variable naming a definition applies it; anything else
      multiplies. */
  ghost function Apply(s: Store, defs: Defs, left: Handle, right: Handle): (r: Built)
    requires Consistent(s) && Held(s, left) && Held(s, right) && DefsHeld(s, defs)
    ensures Yields(s, r)
    ensures !(Deref(s, left).Var? && Deref(s, left).name in defs) ==> r == Uniform(s, MulOp, left, right)
  {
    match Deref(s, left)
    case Var(name) =>
      if name in defs then ApplyDef(s, defs[name], right)
      else Uniform(s, MulOp, left, right)
    case _ => Uniform(s, MulOp, left, right)
  }

  /** `decimal`: the literal's `i64` value, or `IntegerError`. */
  ghost function Decimal(s: Store, lit: string): (r: Built)
    requires Consistent(s)
    ensures Yields(s, r)
    ensures r.1 == Err(IntegerError) <==> ParseI64(lit).None?
    ensures ParseI64(lit).None? ==> r.0 == s
    ensures r.1.Ok? ==> Deref(r.0, r.1.value) == Poly(Int(ParseI64(lit).value))
  {
    match ParseI64(lit)
    case None => (s, Err(IntegerError))
    case Some(i) => IntNode(s, i)
  }

  /** The position of the first `c` in `s` (`str::find`). */
  function Find(s: string, c: char): (k: nat)
    requires c in s
    ensures k < |s| && s[k] == c && c !in s[..k]
  {
    if s[0] == c then 0
    else
      var k := Find(s[1..], c);
      assert s[..k + 1] == [s[0]] + s[1..][..k];
      k + 1
  }

  /** `10i64.pow(n)`. */
  function Pow10(n: nat): (r: nat)
    ensures r >= 1
  {
    if n == 0 then 1 else 10 * Pow10(n - 1)
  }

  /** `div(int(j), int(d))`: the two integer nodes, then their quotient. */
  ghost function DivInts(s: Store, j: I64, d: I64): (r: Built)
    requires Consistent(s)
    ensures Yields(s, r)
  {
    var (t1, b) := IntNode(s, j);
    if b.Err? then (t1, Err(b.error))
    else
      var (t2, c) := IntNode(t1, d);
      ExtendsTrans(s, t1, t2);
      if c.Err? then (t2, Err(c.error))
      else
        HeldExtends(t1, t2, b.value);
        var r := Uniform(t2, DivOp, b.value, c.value);
        YieldsTrans(s, t2, r);
        r
  }

  /** `add(int(i), div(int(j), int(d))?)`, in the order Rust evaluates it. */
  ghost function AddFraction(s: Store, i: I64, j: I64, d: I64): (r: Built)
    requires Consistent(s)
    ensures Yields(s, r)
  {
    var (t1, a) := IntNode(s, i);
    if a.Err? then (t1, Err(a.error))
    else
      var (t2, q) := DivInts(t1, j, d);
      ExtendsTrans(s, t1, t2);
      if q.Err? then (t2, Err(q.error))
      else
        HeldExtends(t1, t2, a.value);
        var r := Uniform(t2, AddOp, a.value, q.value);
        YieldsTrans(s, t2, r);
        r
  }

  /** `decimal_float`: the digits before the point plus the digits after it
      over ten to the number of digits after it. */
  ghost function DecimalFloat(s: Store, lit: string): (r: Built)
    requires Consistent(s)
    requires '.' in lit
    requires |lit| - Find(lit, '.') - 1 <= 18
    ensures Yields(s, r)
    ensures ParseI64(lit[..Find(lit, '.')]).None? || ParseI64(lit[Find(lit, '.') + 1..]).None? ==>
      r == (s, Err(IntegerError))
  {
    var dp := Find(lit, '.');
    var div := Pow10(|lit| - dp - 1);
    Pow10Bound(|lit| - dp - 1);
    match (ParseI64(lit[..dp]), ParseI64(lit[dp + 1..]))
    case (None, _) => (s, Err(IntegerError))
    case (_, None) => (s, Err(IntegerError))
    case (Some(i), Some(j)) => AddFraction(s, i, j, div as I64)
  }

  lemma {:induction false} Pow10Mono(m: nat, n: nat)
    requires m <= n
    ensures Pow10(m) <= Pow10(n)
    decreases n
  {
    if m < n {
      Pow10Mono(m, n - 1);
    }
  }

  lemma Pow10Bound(n: nat)
    requires n <= 18
    ensures Pow10(n) <= 1_000_000_000_000_000_000
  {
    Pow10Mono(n, 18);
    assert Pow10(3) == 1_000;
    assert Pow10(6) == 1_000_000;
    assert Pow10(9) == 1_000_000_000;
    assert Pow10(12) == 1_000_000_000_000;
    assert Pow10(15) == 1_000_000_000_000_000;
  }

  /** The definitions `init` installs, in its order. */
  const Transients: seq<(string, Transient)> := [("sin", Sin), ("cos", Cos), ("exp", Exp), ("log", Log)]

  /** `name` is defined with the single parameter `x` as `tag(x)`. */
  ghost predicate Installed(s: Store, defs: Defs, entry: (string, Transient), x: Handle)
  {
    && entry.0 in defs && defs[entry.0].args == ["x"]
    && Consistent(s) && Held(s, defs[entry.0].expr)
    && Deref(s, defs[entry.0].expr) == Func(entry.1, x)
  }

  lemma InstalledExtends(s: Store, t: Store, defs: Defs, entry: (string, Transient), x: Handle)
    requires Consistent(t) && Extends(s, t) && Installed(s, defs, entry, x)
    ensures Installed(t, defs, entry, x)
  {
    DerefExtends(s, t, defs[entry.0].expr);
  }

  /** What `init` leaves behind: a live variable `x` and the four
      transcendental functions defined over it. */
  ghost predicate Initialised(s: Store, defs: Defs)
  {
    exists x: Handle :: Consistent(s) && Held(s, x) && Deref(s, x) == Var("x") &&
      forall j | 0 <= j < |Transients| :: Installed(s, defs, Transients[j], x)
  }

  /** One step of `func` over a tuple: the part's node interned, the rest
      mapped from the grown store. */
  lemma MapFuncStep(s: Store, f: Transient, xs: seq<Handle>, t: Store, y: Handle)
    requires Consistent(s) && AllHeld(s, xs) && xs != []
    requires Unary(s, FuncOp(f), xs[0]) == (t, Ok(y))
    requires Consistent(t) && AllHeld(t, xs[1..])
    ensures MapOne(s, FuncOp(f), xs) == Prepend([y], MapOne(t, FuncOp(f), xs[1..]))
  {
  }

  lemma PrependTwice(acc: seq<Handle>, y: Handle, r: BuiltAll)
    ensures Prepend(acc, Prepend([y], r)) == Prepend(acc + [y], r)
  {
    if r.1.Ok? {
      assert acc + ([y] + r.1.value) == (acc + [y]) + r.1.value;
    }
  }

  /** An error from the first part's node is the mapping's error. */
  lemma MapFuncFirst(s: Store, f: Transient, xs: seq<Handle>, acc: seq<Handle>, t: Store, e: Error)
    requires Consistent(s) && AllHeld(s, xs) && xs != []
    requires Unary(s, FuncOp(f), xs[0]) == (t, Err(e))
    ensures Prepend(acc, MapOne(s, FuncOp(f), xs)) == (t, Err(e))
  {
  }

  /** `acc` holds the images of `parts[..i]`, and mapping the rest from
      `st` on finishes the mapping of all of `parts` from `s0`. */
  ghost predicate MappedSoFar(s0: Store, op: UnOp, parts: seq<Handle>, i: nat, acc: seq<Handle>, st: Store)
  {
    && Consistent(s0) && AllHeld(s0, parts) && i <= |parts|
    && Consistent(st) && AllHeld(st, parts[i..])
    && Prepend(acc, MapOne(st, op, parts[i..])) == MapOne(s0, op, parts)
  }

  lemma PrependNothing(r: BuiltAll)
    ensures Prepend([], r) == r
  {
    if r.1.Ok? {
      assert [] + r.1.value == r.1.value;
    }
  }

  /** The four names of `init` start with different letters. */
  /** What `init` has done after its first `k` rounds, starting from store
      `s0` and definitions `od`: the store has only grown, `x` still denotes
      the variable `x`, and exactly the first `k` names are defined over it. */
  ghost predicate InitDone(s0: Store, od: Defs, s: Store, defs: Defs, k: nat, x: Handle)
  {
    && k <= |Transients| && Extends(s0, s)
    && Consistent(s) && Held(s, x) && Deref(s, x) == Var("x")
    && (forall j | 0 <= j < k :: Installed(s, defs, Transients[j], x))
    && defs.Keys == od.Keys + TransientNames(k)
  }

  /** One round of `init` takes `InitDone` from `k` rounds to `k + 1`. */
  lemma InitRound(s0: Store, od: Defs, s: Store, d0: Defs, t: Store, defs: Defs, k: nat, x: Handle)
    requires k < |Transients| && InitDone(s0, od, s, d0, k, x)
    requires Consistent(t) && Extends(s, t) && Held(t, x) && Deref(t, x) == Var("x")
    requires Installed(t, defs, Transients[k], x)
    requires defs == d0[Transients[k].0 := defs[Transients[k].0]]
    ensures InitDone(s0, od, t, defs, k + 1, x)
  {
    InstalledStep(s, t, d0, defs, k, x);
    ExtendsTrans(s0, s, t);
    TransientNamesStep(k);
  }

  /** The names `init` has defined after its first `k` rounds. */
  function TransientNames(k: nat): (names: set<string>)
    requires k <= |Transients|
    ensures forall j | 0 <= j < k :: Transients[j].0 in names
    ensures forall n | n in names :: exists j | 0 <= j < k :: Transients[j].0 == n
  {
    set j | 0 <= j < k :: Transients[j].0
  }

  lemma TransientNamesStep(k: nat)
    requires k < |Transients|
    ensures TransientNames(k + 1) == TransientNames(k) + {Transients[k].0}
  {
  }

  lemma TransientNamesAll()
    ensures TransientNames(|Transients|) == {"sin", "cos", "exp", "log"}
  {
    assert Transients[0].0 == "sin" && Transients[1].0 == "cos";
    assert Transients[2].0 == "exp" && Transients[3].0 == "log";
  }

  lemma TransientsDistinct(j: nat, k: nat)
    requires j < k < |Transients|
    ensures Transients[j].0 != Transients[k].0
  {
    assert Transients[j].0[0] != Transients[k].0[0];
  }

  /** Defining the `k`-th name keeps the earlier ones installed. */
  lemma InstalledStep(s: Store, t: Store, d0: Defs, defs: Defs, k: nat, x: Handle)
    requires k < |Transients| && Consistent(t) && Extends(s, t)
    requires forall j | 0 <= j < k :: Installed(s, d0, Transients[j], x)
    requires Installed(t, defs, Transients[k], x)
    requires defs == d0[Transients[k].0 := defs[Transients[k].0]]
    ensures forall j | 0 <= j < k + 1 :: Installed(t, defs, Transients[j], x)
  {
    forall j | 0 <= j < k ensures Installed(t, defs, Transients[j], x) {
      InstalledExtends(s, t, d0, Transients[j], x);
      TransientsDistinct(j, k);
      InstalledUpdate(t, d0, Transients[k].0, defs[Transients[k].0], Transients[j], x);
    }
  }

  lemma InstalledUpdate(s: Store, defs: Defs, name: string, d: Definition, entry: (string, Transient), x: Handle)
    requires entry.0 != name && Installed(s, defs, entry, x)
    ensures Installed(s, defs[name := d], entry, x)
  {
  }

  /** The builder: the interning cache it shares among all its calls, and
      the named definitions `apply` looks up. */
  class Builder {
    const cache: Cache
    var defs: Defs

    ghost predicate Valid()
      reads this, cache
    {
      cache.Valid() && DefsHeld(cache.State(), defs)
    }

    /** The `Builder { .. }` literal of `Builder::new`: a fresh cache and no
        definitions. */
    constructor Create(hasher: Node -> U64)
      ensures Valid() && fresh(cache)
      ensures cache.State() == Empty(hasher) && defs == map[]
    {
      cache := new Cache(hasher);
      defs := map[];
    }

    /** `Builder::new`: the literal, then `init`. */
    static method New(hasher: Node -> U64) returns (b: Builder, r: Result<(), Error>)
      ensures fresh(b) && fresh(b.cache) && b.Valid()
      ensures r.Ok? ==> Initialised(b.cache.State(), b.defs)
      ensures r.Ok? ==> b.defs.Keys == {"sin", "cos", "exp", "log"}
    {
      b := new Builder.Create(hasher);
      r := b.Init();
      TransientNamesAll();
    }

    /** `define`: the name now stands for the body with these parameters. */
    method Define(name: string, args: seq<string>, node: Handle)
      requires Valid() && Held(cache.State(), node)
      modifies this
      ensures Valid()
      ensures defs == old(defs)[name := Definition(args, node)]
    {
      defs := defs[name := Definition(args, node)];
    }

    /** `intern`: the node's handle from the shared cache. */
    method Intern(n: Node) returns (r: Result<Handle, Error>)
      requires Valid() && Buildable(cache.State(), n)
      modifies cache
      ensures Valid() && defs == old(defs)
      ensures (cache.State(), r) == Interned(old(cache.State()), n)
    {
      r := cache.Intern(n);
      DefsExtend(old(cache.State()), cache.State(), defs);
    }

    /** `var` */
    method Var(name: string) returns (r: Result<Handle, Error>)
      requires Valid()
      modifies cache
      ensures Valid() && defs == old(defs)
      ensures (cache.State(), r) == VarNode(old(cache.State()), name)
    {
      r := Intern(Node.Var(name));
    }

    /** `int` */
    method Int(i: I64) returns (r: Result<Handle, Error>)
      requires Valid()
      modifies cache
      ensures Valid() && defs == old(defs)
      ensures (cache.State(), r) == IntNode(old(cache.State()), i)
    {
      NoHandles(Polys.Int(i), cache.State());
      r := Intern(Node.Poly(Polys.Int(i)));
    }

    /** `func`: `uniform_one` with the closure that interns `Func(f, g)`;
        over a tuple, one node per part and then the tuple of them. */
    method Func(f: Transient, g: Handle) returns (r: Result<Handle, Error>)
      requires Valid() && Held(cache.State(), g)
      modifies cache
      ensures Valid() && defs == old(defs)
      ensures (cache.State(), r) == UniformOne(old(cache.State()), FuncOp(f), g)
    {
      var n := Deref(cache.State(), g);
      if !n.Tuple? {
        FuncBuildable(cache.State(), f, g);
        r := Intern(Node.Func(f, g));
        return;
      }
      TupleParts(cache.State(), g);
      var hs := FuncEach(f, n.parts);
      if hs.Err? {
        r := Err(hs.error);
        return;
      }
      TupleBuildable(cache.State(), hs.value);
      r := Intern(Node.Tuple(hs.value));
    }

    /** The parts of a tuple mapped through `func`'s closure, stopping at
        the first error. */
    method FuncEach(f: Transient, parts: seq<Handle>) returns (r: Result<seq<Handle>, Error>)
      requires Valid() && AllHeld(cache.State(), parts)
      modifies cache
      ensures Valid() && defs == old(defs)
      ensures (cache.State(), r) == MapOne(old(cache.State()), FuncOp(f), parts)
      ensures r.Ok? ==> AllHeld(cache.State(), r.value)
    {
      ghost var s0 := cache.State();
      var acc: seq<Handle> := [];
      var i := 0;
      PrependNothing(MapOne(s0, FuncOp(f), parts));
      assert parts[0..] == parts;
      while i < |parts|
        invariant Valid() && defs == old(defs)
        invariant MappedSoFar(s0, FuncOp(f), parts, i, acc, cache.State())
        decreases |parts| - i
      {
        var y := FuncPart(f, parts, i, acc);
        if y.Err? {
          return Err(y.error);
        }
        acc := acc + [y.value];
        i := i + 1;
      }
      assert parts[i..] == [] && acc + [] == acc;
      r := Ok(acc);
    }

    /** The node `f(parts[i])`, and where it leaves the mapping. */
    method FuncPart(f: Transient, parts: seq<Handle>, i: nat, acc: seq<Handle>) returns (y: Result<Handle, Error>)
      requires Valid() && i < |parts| && AllHeld(cache.State(), parts[i..])
      modifies cache
      ensures Valid() && defs == old(defs)
      ensures y.Ok? ==> AllHeld(cache.State(), parts[i + 1..])
      ensures y.Ok? ==>
        Prepend(acc, MapOne(old(cache.State()), FuncOp(f), parts[i..])) ==
        Prepend(acc + [y.value], MapOne(cache.State(), FuncOp(f), parts[i + 1..]))
      ensures y.Err? ==>
        Prepend(acc, MapOne(old(cache.State()), FuncOp(f), parts[i..])) == (cache.State(), Err(y.error))
    {
      ghost var t := cache.State();
      FuncBuildable(t, f, parts[i]);
      y := Intern(Node.Func(f, parts[i]));
      if y.Err? {
        MapFuncFirst(t, f, parts[i..], acc, cache.State(), y.error);
        return;
      }
      assert parts[i..][1..] == parts[i + 1..];
      AllHeldExtends(t, cache.State(), parts[i + 1..]);
      MapFuncStep(t, f, parts[i..], cache.State(), y.value);
      PrependTwice(acc, y.value, MapOne(cache.State(), FuncOp(f), parts[i + 1..]));
    }

    /** One round of `init`: `name` defined as `tag(x)`. */
    method Install(entry: (string, Transient), x: Handle) returns (r: Result<(), Error>)
      requires Valid() && Held(cache.State(), x) && Deref(cache.State(), x) == Node.Var("x")
      modifies this, cache
      ensures Valid() && Extends(old(cache.State()), cache.State())
      ensures Held(cache.State(), x) && Deref(cache.State(), x) == Node.Var("x")
      ensures r.Ok? ==> Installed(cache.State(), defs, entry, x)
      ensures r.Ok? ==> defs == old(defs)[entry.0 := defs[entry.0]]
      ensures r.Err? ==> defs == old(defs)
    {
      ghost var t := cache.State();
      var g := Func(entry.1, x);
      DerefExtends(t, cache.State(), x);
      if g.Err? {
        return Err(g.error);
      }
      Define(entry.0, ["x"], g.value);
      r := Ok(());
    }

    /** `init`: the variable `x`, then `sin`, `cos`, `exp` and `log` as
        one-parameter definitions applying the function to `x`. The source
        unwraps; an error here stops it. */
    method Init() returns (r: Result<(), Error>)
      requires Valid()
      modifies this, cache
      ensures Valid() && Extends(old(cache.State()), cache.State())
      ensures r.Ok? ==> Initialised(cache.State(), defs)
      ensures r.Ok? ==> defs.Keys == old(defs).Keys + TransientNames(|Transients|)
    {
      var x := Var("x");
      if x.Err? {
        return Err(x.error);
      }
      ghost var s1 := cache.State();
      r := InstallAll(x.value);
      ExtendsTrans(old(cache.State()), s1, cache.State());
    }

    /** The loop of `init`: each transient function defined over `x` in turn,
        stopping at the first error. */
    method InstallAll(x: Handle) returns (r: Result<(), Error>)
      requires Valid() && Held(cache.State(), x) && Deref(cache.State(), x) == Node.Var("x")
      modifies this, cache
      ensures Valid() && Extends(old(cache.State()), cache.State())
      ensures r.Ok? ==> InitDone(old(cache.State()), old(defs), cache.State(), defs, |Transients|, x)
    {
      ghost var s0 := cache.State();
      var k := 0;
      while k < |Transients|
        invariant Valid() && InitDone(s0, old(defs), cache.State(), defs, k, x)
      {
        ghost var st := cache.State();
        ghost var d0 := defs;
        var step := Install(Transients[k], x);
        if step.Err? {
          ExtendsTrans(s0, st, cache.State());
          return Err(step.error);
        }
        InitRound(s0, old(defs), st, d0, cache.State(), defs, k, x);
        k := k + 1;
      }
      r := Ok(());
    }
  }

  lemma DefsExtend(s: Store, t: Store, defs: Defs)
    requires Extends(s, t) && DefsHeld(s, defs)
    ensures DefsHeld(t, defs)
  {
    forall name | name in defs ensures Held(t, defs[name].expr) {
      HeldExtends(s, t, defs[name].expr);
    }
  }
}
