/**
 * The expression nodes of src/node.rs and their handles.
 *
 * A `NodeRc` is an `Rc<(Node, u64)>`: the node together with the structural
 * hash computed when it was interned. Here a handle is the arena slot `id`
 * the node was allocated in (allocation order) plus that cached hash.
 */
module Nodes {

  const TWO_POW_64: int := 0x1_0000_0000_0000_0000

  /** The `u64` produced by `DefaultHasher::finish`. */
  type U64 = x: int | 0 <= x < TWO_POW_64

  /** `i64` and `i32`, where the source fixes the width. */
  type I64 = x: int | -0x8000_0000_0000_0000 <= x < 0x8000_0000_0000_0000
  type I32 = x: int | -0x8000_0000 <= x < 0x8000_0000

  datatype Handle = Handle(id: nat, hash: U64)

  /** The transcendental tags the builder threads through unevaluated. */
  datatype Transient = Sin | Cos | Exp | Log

  /** A monomial: (base, exponent) pairs; a polynomial maps monomials to coefficients. */
  type Base = seq<(Handle, int)>
  type PolyMap = map<Base, real>

  /** The node shape the builder and the renderer match on. */
  datatype Node =
    | Var(name: string)
    | Func(tag: Transient, arg: Handle)
    | Poly(p: PolyMap)
    | Tuple(parts: seq<Handle>)

  /** Failures the builder and the polynomial code report. The last two are
      the source's panics (`assert_eq!` on a hash hit, `expect("too high")`). */
  datatype Error =
    | IntegerError
    | ShapeMismatch(left: int, right: int)
    | DivZero
    | HashCollision
    | ExponentTooLarge

  /** `PartialEq for NodeRc`: two handles are equal when their cached hashes are. */
  predicate HandleEq(a: Handle, b: Handle)
  {
    a.hash == b.hash
  }

  /** `Hash for NodeRc`: the cached hash is written as is. */
  function HandleHash(h: Handle): U64
  {
    h.hash
  }

  /** The handles a polynomial's monomials refer to. */
  function PolyHandles(p: PolyMap): set<Handle>
  {
    set b: Base, i: int | b in p && 0 <= i < |b| :: b[i].0
  }

  /** The handles a node holds (strong references in the source). */
  function Children(n: Node): set<Handle>
  {
    match n
    case Var(_) => {}
    case Func(_, g) => {g}
    case Poly(p) => PolyHandles(p)
    case Tuple(parts) => set i | 0 <= i < |parts| :: parts[i]
  }
}
