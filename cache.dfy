/**
 * The interning cache of src/node.rs.
 *
 * `Cache::intern` hashes a node and looks the hash up in a map from hashes
 * to weak references. The store below is the cache's state together with
 * the part of the heap it can see: `nodes[i]` is the node allocated in slot
 * `i` (slots are never reused) and `live` the slots that still have a
 * strong reference, so that upgrading a weak reference to them succeeds.
 * The hash function (`DefaultHasher` over the node) is an arbitrary
 * function fixed for the store's lifetime.
 */
module Interning {
  import opened Nodes
  import opened Wrappers
  import opened Polys

  datatype Store = Store(
    hasher: Node -> U64,
    items: map<U64, Handle>,
    nodes: seq<Node>,
    live: set<nat>)

  /** `Cache::new`: nothing interned yet. */
  function Empty(hasher: Node -> U64): (s: Store)
    ensures Consistent(s) && s.items == map[] && s.live == {}
  {
    Store(hasher, map[], [], {})
  }

  /** `h` is a handle this store handed out, to a node that is still alive. */
  predicate Held(s: Store, h: Handle)
  {
    h.id in s.live && h.id < |s.nodes| && h.hash == s.hasher(s.nodes[h.id])
  }

  /** What a node may point to: live handles to earlier slots. A polynomial
      node also holds a canonical polynomial. */
  predicate WellFormedNode(s: Store, n: Node, bound: nat)
  {
    && (forall c | c in Children(n) :: Held(s, c) && c.id < bound)
    && (n.Poly? ==> Canonical(n.p))
  }

  /** The invariant of the cache:
      - the entry for hash `h` is a handle carrying `h`, to a node with hash `h`;
      - every live slot is the one the map holds for its node's hash, so
        there is at most one live node per hash;
      - a live node's children are live and were allocated before it. */
  predicate Consistent(s: Store)
  {
    && (forall h | h in s.items ::
          s.items[h].hash == h && s.items[h].id < |s.nodes| && s.hasher(s.nodes[s.items[h].id]) == h)
    && (forall i | i in s.live ::
          i < |s.nodes| && s.hasher(s.nodes[i]) in s.items && s.items[s.hasher(s.nodes[i])].id == i)
    && (forall i | i in s.live :: i < |s.nodes| && WellFormedNode(s, s.nodes[i], i))
  }

  /** `t` is `s` later on: the same hash function, every node allocated in
      `s` still there and unchanged, every live slot still live. */
  ghost predicate Extends(s: Store, t: Store)
  {
    && (forall n :: t.hasher(n) == s.hasher(n))
    && |s.nodes| <= |t.nodes| && t.nodes[..|s.nodes|] == s.nodes
    && s.live <= t.live
  }

  lemma ExtendsTrans(s: Store, t: Store, u: Store)
    requires Extends(s, t) && Extends(t, u)
    ensures Extends(s, u)
  {
    assert u.nodes[..|s.nodes|] == u.nodes[..|t.nodes|][..|s.nodes|];
  }

  lemma HeldExtends(s: Store, t: Store, h: Handle)
    requires Extends(s, t) && Held(s, h)
    ensures Held(t, h) && t.nodes[h.id] == s.nodes[h.id]
  {
    assert t.nodes[h.id] == t.nodes[..|s.nodes|][h.id];
  }

  /** A node the caller can build: its children are live handles. */
  predicate Buildable(s: Store, n: Node)
  {
    WellFormedNode(s, n, |s.nodes|)
  }

  lemma BuildableExtends(s: Store, t: Store, n: Node)
    requires Extends(s, t) && Buildable(s, n)
    ensures Buildable(t, n)
  {
    forall c | c in Children(n) ensures Held(t, c) && c.id < |t.nodes| {
      HeldExtends(s, t, c);
    }
  }

  /** Allocates a fresh slot for `n` and points the entry for its hash at it. */
  function Allocate(s: Store, n: Node): (r: (Store, Handle))
  {
    var k := Handle(|s.nodes|, s.hasher(n));
    (Store(s.hasher, s.items[k.hash := k], s.nodes + [n], s.live + {k.id}), k)
  }

  /** `Cache::intern`. A vacant hash, or one whose node has died, gets a fresh
      slot; a live hit returns the existing handle, and a live hit on a
      different node is the `assert_eq!` failure, here `HashCollision`. */
  function Interned(s: Store, n: Node): (r: (Store, Result<Handle, Error>))
    requires Consistent(s) && Buildable(s, n)
    ensures Consistent(r.0) && Extends(s, r.0)
    ensures r.1.Ok? ==> Held(r.0, r.1.value) && r.0.nodes[r.1.value.id] == n
    ensures r.1.Ok? ==> r.1.value.hash == s.hasher(n) && r.0.items[s.hasher(n)] == r.1.value
    ensures r.1.Err? <==>
      s.hasher(n) in s.items && s.items[s.hasher(n)].id in s.live && s.nodes[s.items[s.hasher(n)].id] != n
    ensures r.1.Err? ==> r.0 == s && r.1.error == HashCollision
    ensures var h := s.hasher(n);
      h !in s.items || s.items[h].id !in s.live ==>
        && r.1 == Ok(Handle(|s.nodes|, h))
        && r.0 == Store(s.hasher, s.items[h := Handle(|s.nodes|, h)], s.nodes + [n], s.live + {|s.nodes|})
    ensures var h := s.hasher(n);
      h in s.items && s.items[h].id in s.live && s.nodes[s.items[h].id] == n ==> r == (s, Ok(s.items[h]))
  {
    var h := s.hasher(n);
    if h !in s.items || s.items[h].id !in s.live then
      var (t, k) := Allocate(s, n);
      AllocateConsistent(s, n);
      (t, Ok(k))
    else if s.nodes[s.items[h].id] == n then
      (s, Ok(s.items[h]))
    else
      (s, Err(HashCollision))
  }

  lemma AllocateConsistent(s: Store, n: Node)
    requires Consistent(s) && Buildable(s, n)
    requires s.hasher(n) !in s.items || s.items[s.hasher(n)].id !in s.live
    ensures Consistent(Allocate(s, n).0) && Extends(s, Allocate(s, n).0)
  {
    var (t, k) := Allocate(s, n);
    assert t.nodes[..|s.nodes|] == s.nodes;
    forall i | i in s.live ensures t.nodes[i] == s.nodes[i] {
    }
    forall i | i in t.live
      ensures i < |t.nodes| && WellFormedNode(t, t.nodes[i], i)
    {
      var m := t.nodes[i];
      forall c | c in Children(m) ensures Held(t, c) && c.id < i {
        assert t.nodes[c.id] == s.nodes[c.id];
      }
    }
  }

  /** The last strong reference to slot `i` is dropped. A node referenced by
      a live node cannot die first, since its parent holds it. */
  function Released(s: Store, i: nat): (t: Store)
    requires Consistent(s)
    requires forall j | j in s.live && j < |s.nodes| :: i !in set c | c in Children(s.nodes[j]) :: c.id
    ensures Consistent(t) && t.live == s.live - {i}
    ensures t.hasher == s.hasher && t.items == s.items && t.nodes == s.nodes
  {
    var t := s.(live := s.live - {i});
    assert forall j | j in t.live :: WellFormedNode(t, t.nodes[j], j) by {
      forall j | j in t.live ensures WellFormedNode(t, t.nodes[j], j) {
        var m := t.nodes[j];
        forall c | c in Children(m) ensures Held(t, c) {
          assert c.id in set c | c in Children(s.nodes[j]) :: c.id;
        }
      }
    }
    t
  }

  /** Interning a node equal to a live one returns that node's handle and
      changes nothing. */
  lemma InternFindsLive(s: Store, n: Node, i: nat)
    requires Consistent(s) && Buildable(s, n)
    requires i in s.live && s.nodes[i] == n
    ensures Interned(s, n) == (s, Ok(Handle(i, s.hasher(n))))
  {
  }

  /** Interning is idempotent: a second call with the same node finds the
      handle the first one returned. */
  lemma InternIdempotent(s: Store, n: Node)
    requires Consistent(s) && Buildable(s, n)
    ensures var (t, r) := Interned(s, n);
      r.Ok? ==> Buildable(t, n) && Interned(t, n) == (t, r)
  {
    var (t, r) := Interned(s, n);
    if r.Ok? {
      BuildableExtends(s, t, n);
      InternFindsLive(t, n, r.value.id);
    }
  }

  /** Handles of live nodes: equal as `NodeRc`s (by cached hash) exactly when
      they are the same slot, exactly when their nodes are equal. */
  lemma HeldHandlesEq(s: Store, a: Handle, b: Handle)
    requires Consistent(s) && Held(s, a) && Held(s, b)
    ensures HandleEq(a, b) <==> a == b
    ensures a == b <==> s.nodes[a.id] == s.nodes[b.id]
    ensures HandleEq(a, b) ==> HandleHash(a) == HandleHash(b)
  {
  }

  /** The node behind a live handle (`Deref for NodeRc`). */
  function Deref(s: Store, h: Handle): (n: Node)
    requires Consistent(s) && Held(s, h)
    ensures WellFormedNode(s, n, h.id)
  {
    s.nodes[h.id]
  }

  /** `Cache`: the store's fields, updated in place. */
  class Cache {
    const hasher: Node -> U64
    var items: map<U64, Handle>
    var nodes: seq<Node>
    var live: set<nat>

    function State(): Store
      reads this
    {
      Store(hasher, items, nodes, live)
    }

    ghost predicate Valid()
      reads this
    {
      Consistent(State())
    }

    /** `Cache::new` */
    constructor(hasher: Node -> U64)
      ensures Valid() && State() == Empty(hasher)
    {
      this.hasher := hasher;
      items := map[];
      nodes := [];
      live := {};
    }

    /** `Cache::intern`: the entry API's three cases. */
    method Intern(n: Node) returns (r: Result<Handle, Error>)
      requires Valid() && Buildable(State(), n)
      modifies this
      ensures Valid()
      ensures (State(), r) == Interned(old(State()), n)
    {
      var h := hasher(n);
      if h !in items {
        var k := Handle(|nodes|, h);
        AllocateConsistent(State(), n);
        items := items[h := k];
        nodes := nodes + [n];
        live := live + {k.id};
        r := Ok(k);
      } else if items[h].id in live {
        var k := items[h];
        if nodes[k.id] == n {
          r := Ok(k);
        } else {
          r := Err(HashCollision);
        }
      } else {
        var k := Handle(|nodes|, h);
        AllocateConsistent(State(), n);
        items := items[h := k];
        nodes := nodes + [n];
        live := live + {k.id};
        r := Ok(k);
      }
    }

    /** Drops the last strong reference to slot `i`. */
    method Release(i: nat)
      requires Valid()
      requires forall j | j in live && j < |nodes| :: i !in set c | c in Children(nodes[j]) :: c.id
      modifies this
      ensures Valid() && State() == Released(old(State()), i)
    {
      live := live - {i};
    }
  }
}
