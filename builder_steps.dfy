/**
 * The order in which the builder of core/src/builder.rs evaluates the
 * elements of a tuple and the items of a fold. Every element is built in
 * the store the previous elements left behind, so "part `k` of the result
 * is `f` applied to element `k`" is stated with a trace: the list of
 * stores `ts`, `ts[k]` being the store before element `k` and `ts[k + 1]`
 * the store after it.
 */
module BuilderSteps {
  import opened Nodes
  import opened Wrappers
  import opened Interning
  import opened Building

  /** The last store of a trace extends the first. */
  lemma {:induction false} TraceExtends(ts: seq<Store>, f: StepFn, xs: seq<Handle>, ys: seq<Handle>, zs: seq<Handle>)
    requires Trace(ts, f, xs, ys, zs)
    ensures Consistent(ts[|xs|]) && Extends(ts[0], ts[|xs|])
    decreases |xs|
  {
    if xs == [] {
      ExtendsRefl(ts[0]);
    } else {
      TraceExtends(ts[1..], f, xs[1..], ys[1..], zs[1..]);
      ExtendsTrans(ts[0], ts[1], ts[|xs|]);
    }
  }

  /** Step `k` of a trace: it starts in a store that extends the first, and
      its result is still there, unchanged, in the last. */
  lemma {:induction false} TraceAt(ts: seq<Store>, f: StepFn, xs: seq<Handle>, ys: seq<Handle>, zs: seq<Handle>, k: nat)
    requires Trace(ts, f, xs, ys, zs) && k < |xs|
    ensures Consistent(ts[k]) && Extends(ts[0], ts[k])
    ensures f.requires(ts[k], xs[k], ys[k]) && f(ts[k], xs[k], ys[k]) == (ts[k + 1], Ok(zs[k]))
    ensures Consistent(ts[k + 1]) && Held(ts[k + 1], zs[k])
    ensures Consistent(ts[|xs|]) && Held(ts[|xs|], zs[k]) && Deref(ts[|xs|], zs[k]) == Deref(ts[k + 1], zs[k])
    decreases k
  {
    if k == 0 {
      ExtendsRefl(ts[0]);
      TraceExtends(ts[1..], f, xs[1..], ys[1..], zs[1..]);
      DerefExtends(ts[1], ts[|xs|], zs[0]);
    } else {
      TraceAt(ts[1..], f, xs[1..], ys[1..], zs[1..], k - 1);
      ExtendsTrans(ts[0], ts[1], ts[k]);
    }
  }

  /** `z`, live in `w`, is what the closure `f` built from `x` (and `y`) in
      some store that extends `s`, and it has not changed since. */
  ghost predicate StepGives(s: Store, w: Store, f: StepFn, x: Handle, y: Handle, z: Handle)
  {
    && Consistent(w) && Held(w, z)
    && exists t :: StepFrom(s, t, f, x, y, z) && Deref(w, z) == Deref(f(t, x, y).0, z)
  }

  /** The closure `f`, run on `x` (and `y`) in store `t`, an extension of
      `s`, returns `z`. */
  ghost predicate StepFrom(s: Store, t: Store, f: StepFn, x: Handle, y: Handle, z: Handle)
  {
    && Consistent(t) && Extends(s, t) && f.requires(t, x, y)
    && f(t, x, y).1 == Ok(z) && Consistent(f(t, x, y).0) && Held(f(t, x, y).0, z)
  }

  /** The store a step started from. */
  lemma StepOrigin(s: Store, w: Store, f: StepFn, x: Handle, y: Handle, z: Handle) returns (t: Store)
    requires StepGives(s, w, f, x, y, z)
    ensures StepFrom(s, t, f, x, y, z) && Deref(w, z) == Deref(f(t, x, y).0, z)
  {
    t :| StepFrom(s, t, f, x, y, z) && Deref(w, z) == Deref(f(t, x, y).0, z);
  }

  /** Every result of a traced mapping is its closure applied to the
      matching elements, and stays so in any later store `w`. */
  lemma TracedParts(s: Store, u: Store, w: Store, f: StepFn, xs: seq<Handle>, ys: seq<Handle>, zs: seq<Handle>)
    requires Traced(s, u, f, xs, ys, zs) && Consistent(w) && Extends(u, w)
    ensures |ys| == |xs| && |zs| == |xs|
    ensures forall k | 0 <= k < |xs| :: StepGives(s, w, f, xs[k], ys[k], zs[k])
  {
    var ts :| Trace(ts, f, xs, ys, zs) && ts[0] == s && ts[|xs|] == u;
    forall k | 0 <= k < |xs| ensures StepGives(s, w, f, xs[k], ys[k], zs[k]) {
      TraceAt(ts, f, xs, ys, zs, k);
      DerefExtends(u, w, zs[k]);
      assert StepFrom(s, ts[k], f, xs[k], ys[k], zs[k]);
    }
  }

  /** Applying a step closure is calling the builder function it wraps. */
  lemma UnaryStepIs(op: UnOp, t: Store, x: Handle)
    requires Consistent(t) && Held(t, x)
    ensures UnaryStep(op).requires(t, x, x) && UnaryStep(op)(t, x, x) == Unary(t, op, x)
  {
  }

  lemma PairStepIs(op: BinOp, t: Store, x: Handle, y: Handle)
    requires Consistent(t) && Held(t, x) && Held(t, y)
    ensures PairStep(op).requires(t, x, y) && PairStep(op)(t, x, y) == Binary(t, op, x, y)
  {
  }
}
