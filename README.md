# bullet's symbolic-algebra kernel, modelled in Dafny

This project models the kernel of `bullet`, a symbolic math library. It has four parts:

* **Interning cache** (`src/node.rs`). Nodes are hash-consed. `Cache::intern` hashes a node and looks the hash up in a map from `u64` hashes to weak references. There are three outcomes:
  * a vacant hash allocates a fresh node;
  * a hit on a live node returns that node, and the source asserts the two nodes are equal;
  * a hit on a dead node replaces the entry.

  A `NodeRc` compares and hashes by its cached hash.
* **Canonical polynomials** (`src/poly.rs`). A polynomial is a map from monomials ("bases": lists of `(node, exponent)`) to rational coefficients. No coefficient is zero. Every base is sorted, has distinct nodes, and has no zero exponent. The operations are:
  * `add_to`, `zero`, `rational`, `int`, `from_node`;
  * `Add`, `Mul` and the scalar `MulAssign`;
  * `pow_i` and `pow_n` (exponentiation by squaring);
  * `is_zero`, `as_rational`, `as_int`, `split`;
  * equality, and the orderings `cmp_poly` and `cmp_base`.
* **Expression builder** (`core/src/builder.rs`):
  * tuple broadcasting (`uniform`, `uniform_one`);
  * the arithmetic operations, which go through polynomials;
  * `pow`, which falls back to `exp(b·log a)`;
  * `apply` of named definitions, with its arity rules;
  * `substitute`;
  * the fold-based `sum`, `product` and `tuple`, which stop at the first error;
  * literal parsing;
  * the `Builder` object with `new`, `init`, `define` and `intern`.
* **Polynomial renderer** (`src/display.rs`). `Tokens` is a list of strings printed space-separated. `Tokens::poly` writes a polynomial term by term. `wrap_poly` adds parentheses, and `int_super` writes exponents in superscript digits.

Modules, one per file:

* `Nodes`: handles, nodes and errors.
* `Interning`: the cache, as a `Store` value and as the `Cache` class that updates it in place.
* `Polys`, `Monomials`, `PolyProduct`, `PolyRing`, `PolyPower`, `PolyOrder`: the polynomial code. `PolyRing` proves that multiplication is commutative, associative, distributive and has unit `1`. That is what lets `pow_n`'s squaring loop be proved equal to repeated multiplication for every `n`.
* `Building`, `BuilderSteps`, `BuilderLaws` and `SubstLaws`: the builder, the per-part traces of its loops, the laws its operations obey, and what `substitute` computes.
* `Display`, `Numerals`: the renderer and decimal numerals.
* `Wrappers`, `SeqLaws`: small utilities.

Modelling choices:

* **Handles.** A `NodeRc` is a `Handle(id, hash)`. `id` is the arena slot the node was allocated in, and `hash` is the cached `u64`.
* **Liveness.** Weak-reference liveness is the set `live` of slots that still have a strong reference. `Cache.Release` models the last strong reference being dropped.
* **Builder state.** The builder's operations take the cache state and return the new state with their result (`Built = (Store, Result<Handle, Error>)`). The `Builder` class keeps the cache and the `defs` map, and its methods are proved against those functions.
* **Panics.** The `assert_eq!` on a live hash hit is modelled as the error value `HashCollision`. So is the `expect("too high")` in `substitute`, as `ExponentTooLarge`. The `unwrap()` on `func` in `init` (core/src/builder.rs:41) becomes an `Err` result of `Builder.Init` (and so of `Builder.New`), which promise the four transient definitions only when the result is `Ok`.
* **Coefficients.** Rationals are Dafny `real`s.
* **Renderer input.** The renderer takes each term as its base, with every node already printed, plus the numerator and denominator of the reduced fraction.

## Model

| member | source | states |
|---|---|---|
| Interning.Empty | src/node.rs:13-15 | `Cache::new` starts with no entries and no live nodes, and satisfies the cache invariant |
| Interning.Cache.constructor | src/node.rs:13-15 | a new cache is valid and its state is the empty store |
| Interning.Interned | src/node.rs:16-42 | interning keeps the cache invariant and only extends the store. A vacant hash, or one whose node is dead, gets the fresh slot `|nodes|`: the node is appended to the arena, the slot becomes live, and the entry for that hash (and no other) points to the new handle. A live hit on an equal node returns the stored handle and changes nothing. A live hit on a different node is the `assert_eq!` failure, `HashCollision`, exactly then, and nothing changes |
| Interning.Cache.Intern | src/node.rs:16-42 | the in-place cache update returns the handle and leaves the state that `Interned` describes, keeping the invariant |
| Interning.AllocateConsistent | src/node.rs:20-25 | allocating a fresh node on a vacant hash, or on one whose node is dead (insert/replace), keeps the cache invariant and only extends the store |
| Interning.InternFindsLive | src/node.rs:26-31 | when the hash's entry is a live copy of the node, `intern` returns that handle and changes nothing |
| Interning.InternIdempotent | src/node.rs:16-42 | interning a node a second time returns the same handle and leaves the store as it was |
| Interning.HeldHandlesEq | src/node.rs:52-62 | for live handles, equality of cached hashes is exactly handle identity and exactly node equality; equal handles hash equally |
| Interning.HeldExtends | src/node.rs:16-42 | a handle held before an intern is still held afterwards and still denotes the same node |
| Interning.Deref | src/node.rs:48-51 | dereferencing a live handle yields a node whose children are live earlier handles |
| Interning.Released | src/node.rs:9-11 | dropping the last strong reference to a node nobody points to keeps the invariant, removes exactly that slot from the live set, and leaves the hash map and the node arena as they were |
| Interning.Cache.Release | src/node.rs:9-11 | the in-place version of `Released` |
| Polys.AddTo | src/poly.rs:23-35 | the coefficient on the key grows by `r` and every other coefficient is unchanged; a sum of zero removes the key; no zero coefficient is ever stored |
| Polys.Rational | src/poly.rs:45-51 | `rational(r)` is canonical and `as_rational` reads `r` back (so `rational(0)` is the empty map) |
| Polys.Int | src/poly.rs:52-54 | `int(i)` is canonical and reads back as `i` |
| Polys.FromNode | src/poly.rs:55-61 | a `Poly` node yields its own polynomial; any other node yields the single term `{[(n,1)] ↦ 1}`, which is not a constant |
| Polys.FromNodeFacts | src/poly.rs:55-61 | `from_node` of a canonical node is canonical and mentions only the node or its children |
| Polys.AsRationalExact | src/poly.rs:99-111 | `as_rational(p) == Some(r)` exactly when `p` is `rational(r)`; `is_zero` holds exactly when `as_rational` is `Some(0)` |
| Polys.AsInt | src/poly.rs:112-114 | `as_int` succeeds exactly on constants with an integral value, and then agrees with `as_rational` |
| Polys.Zero | src/poly.rs:42-44 | `zero()` is canonical and every coefficient is 0 |
| Polys.Monomial | src/poly.rs:38-41 | `one(base, fac)` has coefficient `fac` at `base` and 0 elsewhere, and is canonical for a sorted base and nonzero `fac` |
| Polys.IsZero | src/poly.rs:99-101 | `is_zero` holds exactly when every coefficient is 0, for a polynomial storing no zero |
| Polys.AsRational | src/poly.rs:105-111 | `as_rational` succeeds exactly when every key is the empty base, and then gives the constant coefficient |
| Polys.PlusRationals | src/poly.rs:125-133 | the sum of `rational(x)` and `rational(y)` is `rational(x + y)` |
| Polys.RestrictEnds | src/poly.rs:115-122 | a polynomial restricted to no key is zero, and restricted to all its keys is itself |
| Polys.Plus | src/poly.rs:125-133 | every coefficient of the sum is the sum of the operands' coefficients; the sum has no zero coefficient and no foreign key |
| Polys.Add | src/poly.rs:125-133 | the `add_to` loop over the right operand's terms computes `Plus` |
| Polys.PlusCanonical | src/poly.rs:125-133 | the sum of canonical polynomials is canonical and mentions only their nodes |
| Polys.PlusLaws | src/poly.rs:125-133 | addition is commutative and associative, with the zero polynomial as unit |
| Polys.ScaleAsWritten | src/poly.rs:174-180 | `*= k` as written: same keys, every coefficient multiplied by `k` |
| Polys.MulAssign | src/poly.rs:174-180 | the loop over the values computes `ScaleAsWritten` |
| Polys.ScaleByZeroKeepsZeros | src/poly.rs:169-180 | multiplying `1` by `0` as written leaves a zero coefficient: the result breaks the no-zero invariant, is not `is_zero`, and differs from the zero polynomial |
| Polys.Scale | src/poly.rs:162-180 | scaling multiplies every coefficient by `k`, keeps the no-zero invariant, keeps the keys when `k ≠ 0`, and yields zero when `k = 0` |
| Polys.ScaleIsAsWritten | src/poly.rs:174-180 | for `k ≠ 0` the corrected scaling is exactly the source's loop |
| Polys.ScaleLaws | src/poly.rs:174-180 | scaling distributes over addition, and scaling by 1 is the identity |
| Polys.ScaleSum | src/poly.rs:174-180 | `p·c + p·d = p·(c+d)` |
| Polys.ScaleCanonical | src/poly.rs:174-180 | scaling keeps a polynomial canonical and introduces no node |
| Polys.ScaleAddTo | src/poly.rs:174-180 | scaling commutes with `add_to` |
| Polys.PolyEqIsEquality | src/poly.rs:182-186 | `==` (same length and every entry found equal in the other) is exactly map equality |
| Polys.Split | src/poly.rs:115-122 | `split` returns one single-term polynomial per term, each term exactly once |
| Polys.SplitRecombines | src/poly.rs:115-122 | adding up the pieces of `split` gives back the polynomial |
| Polys.SumPieces | src/poly.rs:115-122 | the sum of the pieces so far is the polynomial restricted to their keys |
| Monomials.MulBaseCanonical | src/poly.rs:139-155 | the product of two canonical bases is canonical (sorted, distinct nodes, no zero exponent) |
| Monomials.MulBaseExp | src/poly.rs:139-155 | each node's exponent in the product base is the sum of its exponents in the factors |
| Monomials.CanonicalExt | src/poly.rs:139-155 | two canonical bases with the same exponent for every node are equal |
| Monomials.MulBaseComm | src/poly.rs:139-155 | base multiplication is commutative |
| Monomials.MulBaseAssoc | src/poly.rs:139-155 | base multiplication is associative |
| Monomials.MulBaseHandles | src/poly.rs:139-155 | the product base mentions only nodes of its factors |
| Monomials.ScaleBaseFacts | src/poly.rs:76 | multiplying every exponent by `i ≠ 0` keeps a base canonical and scales each node's exponent by `i` |
| Monomials.MulBaseInverse | src/poly.rs:62-84 | a base times the same base with negated exponents is the empty base |
| Monomials.CompareBase | src/poly.rs:234-252 | the loops of `cmp_base` compute `CmpBase`: length, then nodes left to right, then exponents left to right |
| Monomials.CmpBaseFacts | src/poly.rs:234-252 | `cmp_base` says `Equal` exactly on equal bases and is antisymmetric |
| Monomials.CmpHandlesFacts | src/poly.rs:239-244 | the node pass is `Equal` exactly when all nodes agree, and is antisymmetric |
| Monomials.CmpExpsFacts | src/poly.rs:245-250 | the exponent pass is `Equal` exactly when all exponents agree, and is antisymmetric |
| PolyProduct.CombineBase | src/poly.rs:140-151 | the `position`/`+=`/`swap_remove`/`push` loop yields distinct nodes and nonzero exponents, each node's exponent being the sum of its exponents in both bases |
| PolyProduct.SwapRemoveExp | src/poly.rs:143-148 | removing an entry whose exponent reached 0 changes no exponent and keeps nodes distinct |
| PolyProduct.PushExp | src/poly.rs:149 | pushing a new node adds exactly its exponent |
| PolyProduct.AddAtExp | src/poly.rs:144 | adding to an entry's exponent changes that node's exponent only |
| PolyProduct.SortBaseFacts | src/poly.rs:152-155 | sorting the combined base makes it canonical without changing any exponent |
| PolyProduct.MultiplyBase | src/poly.rs:139-155 | combining and then sorting yields exactly the canonical product `MulBase` |
| PolyProduct.SumPairsPick | src/poly.rs:138 | the sum over the cartesian product does not depend on the order the pairs are visited in |
| PolyProduct.Mul | src/poly.rs:134-160 | the nested loops compute `Times`: every pair of terms contributes the product of coefficients at the product base |
| PolyProduct.Times | src/poly.rs:134-160 | the product of polynomials storing no zero stores no zero (its terms are stated by `PolyRing.TimesMonomials` and `PolyProduct.Mul`) |
| PolyRing.TimesMonomials | src/poly.rs:134-160 | the product of two single terms is the single term of the product base and the product coefficient |
| PolyRing.TimesCanonical | src/poly.rs:134-160 | the product of canonical polynomials is canonical and mentions only their nodes |
| PolyRing.TimesComm | src/poly.rs:134-160 | multiplication is commutative |
| PolyRing.TimesAssoc | src/poly.rs:134-160 | multiplication is associative |
| PolyRing.TimesPlusLeft | src/poly.rs:134-160 | multiplication distributes over addition on the left |
| PolyRing.TimesPlusRight | src/poly.rs:134-160 | multiplication distributes over addition on the right |
| PolyRing.TimesOne | src/poly.rs:134-160 | `int(1)` is the unit of multiplication |
| PolyRing.TimesZero | src/poly.rs:134-160 | the zero polynomial absorbs |
| PolyRing.TimesAddTo | src/poly.rs:156 | accumulating one more term with `add_to` adds that term's product |
| PolyRing.One | src/poly.rs:63-64 | `int(1)` is canonical and reads back as 1 |
| PolyRing.TimesRationals | src/poly.rs:134-160 | the product of `rational(x)` and `rational(y)` is `rational(x·y)` |
| PolyRing.TimesRecip | src/poly.rs:134-160 | `rational(x) · rational(1/y)` is `rational(x/y)` for `y ≠ 0` |
| PolyPower.PowR | src/poly.rs:85-98 | `p` multiplied by itself `n` times, `p^0 = 1`; keeps the no-zero invariant |
| PolyPower.PowN | src/poly.rs:85-98 | the squaring loop of `pow_n` computes `p^n` (invariant `acc · base^n = p^n0`) |
| PolyPower.PowNRound | src/poly.rs:87-93 | one round of the loop (multiply into the accumulator on an odd `n`, halve `n`, square the base) keeps the invariant |
| PolyPower.PowAdd | src/poly.rs:85-98 | `p^(m+k) = p^m · p^k` |
| PolyPower.PowSquare | src/poly.rs:85-98 | `(p·p)^h = p^(2h)` |
| PolyPower.PowCanonical | src/poly.rs:85-98 | powers of canonical polynomials are canonical |
| PolyPower.PowRHandles | src/poly.rs:85-98 | powers mention only the nodes of the base |
| PolyPower.RatPow | src/poly.rs:70 | integer powers of a rational (negative ones through the reciprocal); nonzero for a nonzero base |
| PolyPower.PowI | src/poly.rs:62-84 | `pow_i` fails exactly when the polynomial is zero and `i < 0`, and then with `DivZero`; a success is canonical; the fallback is the single opaque base `[(poly, i)]` with coefficient 1 |
| PolyPower.PowIIsPower | src/poly.rs:62-84 | for `i > 0`, every branch of `pow_i` other than the opaque fallback returns `p^i` |
| PolyPower.ConstantPow | src/poly.rs:66-71 | a constant's power is the constant's rational power |
| PolyPower.ZeroPow | src/poly.rs:66-71 | a positive power of zero is zero |
| PolyPower.PowTerm | src/poly.rs:74-78 | a single term's power scales every exponent and raises the coefficient |
| PolyPower.PowISingle | src/poly.rs:74-78 | on a single term `pow_i` scales every exponent by `i` and raises the coefficient to `i` |
| PolyPower.PowIInverse | src/poly.rs:62-84 | on a single term, `pow_i(i) · pow_i(-i) = 1` |
| PolyPower.TimesInverse | src/poly.rs:62-84 | on a single term, `p · pow_i(p, -1) = 1` |
| PolyPower.PowIHandles | src/poly.rs:62-84 | `pow_i` mentions only the base's nodes, or only the new opaque node |
| PolyPower.RecipConstant | src/poly.rs:62-84 | `pow_i(rational(y), -1)` is not the opaque case and is `rational(1/y)` for `y ≠ 0` |
| PolyOrder.BaseLessIrreflexive | src/poly.rs:218-221 | the derived order on bases used by `sort` is irreflexive |
| PolyOrder.BaseLessTransitive | src/poly.rs:218-221 | it is transitive |
| PolyOrder.BaseLessTotal | src/poly.rs:218-221 | it is total on distinct bases |
| PolyOrder.MinBase | src/poly.rs:218-221 | a nonempty key set has a unique least base |
| PolyOrder.SortedKeys | src/poly.rs:218-221 | the sorted key list is strictly increasing and holds exactly the keys |
| PolyOrder.MinKey | src/poly.rs:218-221 | the scan finds the least key |
| PolyOrder.SortKeys | src/poly.rs:218-221 | the selection loop produces the sorted key list |
| PolyOrder.CmpSortedFacts | src/poly.rs:222-228 | the zip loop is `Equal` exactly on equal lists and is antisymmetric |
| PolyOrder.CmpPolyFacts | src/poly.rs:215-232 | `cmp_poly` is `Equal` exactly when the key sets agree (coefficients are ignored), is antisymmetric, and puts fewer terms first |
| PolyOrder.ComparePoly | src/poly.rs:215-232 | the method computes `cmp_poly` |
| Building.PolyOf | core/src/builder.rs:22-27 | `poly(node)` is the node's own polynomial for a `Poly` node and `{[(node,1)] ↦ 1}` otherwise |
| Building.PolyNode | core/src/builder.rs:71-73 | `Builder::poly` interns `Poly(p)` |
| Building.RationalNode | core/src/builder.rs:224-226 | `Builder::rational` interns `rational(r)` |
| Building.IntNode | core/src/builder.rs:54-56 | `Builder::int` interns `int(i)` |
| Building.VarNode | core/src/builder.rs:148-151 | `Builder::var` interns `Var(name)` |
| Building.Unary | core/src/builder.rs:139-146 | the `func` closure interns `Func(f, a)`; the `pow_i` closure interns `pow_i(poly(a), i)`, with the opaque base interned as a node when needed |
| Building.UniformOne | core/src/builder.rs:92-99 | `uniform_one` only extends the store consistently (its shape is stated by `BuilderLaws.UniformOneShape`) |
| Building.Uniform | core/src/builder.rs:75-91 | `uniform` only extends the store consistently (its cases are stated by `BuilderLaws.UniformMismatch`, `UniformBoth`, `UniformLeft`, `UniformRight`, `UniformScalars`) |
| Building.AddNodes | core/src/builder.rs:101-103 | the `add` closure interns `poly(a) + poly(b)`, or fails with `HashCollision` and changes nothing |
| Building.SubNodes | core/src/builder.rs:105-108 | the `sub` closure interns `poly(a) + poly(b)·(-1)`, or fails with `HashCollision` and changes nothing |
| Building.MulNodes | core/src/builder.rs:110-113 | the `mul` closure interns `poly(a) · poly(b)`, or fails with `HashCollision` and changes nothing |
| Building.DivNodes | core/src/builder.rs:115-118 | the `div` closure fails with `DivZero` exactly when `poly(b)` is zero; every failure changes nothing |
| Building.SmallExponent | core/src/builder.rs:127-131 | `pow` hands `i` to `pow_i` exactly when the exponent node is a constant integer `i` that fits `i32` |
| Building.ExpLog | core/src/builder.rs:134-135 | the fallback of `pow` only extends the store consistently (its value is stated by `BuilderLaws.ExpLogScalars`) |
| Building.Neg | core/src/builder.rs:120-123 | `neg` only extends the store consistently (its value is stated by `BuilderLaws.NegScalar`) |
| Building.Collect | core/src/builder.rs:231 | collecting results succeeds exactly when all are `Ok`, keeping them in order; otherwise it returns the first error |
| Building.TupleOf | core/src/builder.rs:228-233 | `tuple` propagates the collected error unchanged and otherwise interns the tuple of the parts |
| Building.Fold | core/src/builder.rs:210-222 | `try_fold` returns the accumulator on no items; when the first `k` steps succeed and item `k` is an error, the result is that item's error; it succeeds only if every item is `Ok` |
| Building.SumOf | core/src/builder.rs:217-222 | `sum` succeeds only when every item is `Ok` (its value and its error are stated by `BuilderLaws.SumOfScalars`) |
| Building.ProductOf | core/src/builder.rs:210-215 | `product` succeeds only when every item is `Ok` (its value and its error are stated by `BuilderLaws.ProductOfScalars`) |
| Building.MapOne | core/src/builder.rs:96 | mapping over a tuple's parts yields one result per part, and result `k` is what the closure built from part `k`, in the store the earlier parts left |
| Building.MapPairs | core/src/builder.rs:83-85 | zipping two equal-length lists yields one result per pair, and result `k` is what the closure built from the `k`-th elements, in the store the earlier pairs left |
| Building.Binary | core/src/builder.rs:125-137 | `pow` with an `i32`-sized integer exponent is `pow_i`, otherwise `exp(b · log a)` |
| Building.PolyPowI | src/poly.rs:62-84 | `pow_i` with the opaque fallback interning the base polynomial as a node; otherwise exactly `PowI` |
| Building.ApplyDef | core/src/builder.rs:165-175 | a definition whose arity is neither 1 nor the tuple argument's length fails with `ShapeMismatch(arity, len)`; a non-tuple argument with arity ≠ 1 fails with `ShapeMismatch(arity, 1)`; arity 1 on a tuple yields a tuple of the same length (the other cases are stated by `BuilderLaws.ApplyDefBind` and `BuilderLaws.ApplyDefTuple`) |
| Building.Apply | core/src/builder.rs:154-184 | anything other than a `Var` naming a definition falls back to `mul` |
| Building.Zip | core/src/builder.rs:158-163 | zipping argument names with values pairs them position by position, up to the shorter |
| Building.CollectedLast | core/src/builder.rs:158-163 | collecting the pairs into a map binds each name, the last pair for a name winning |
| Building.SubstAll | core/src/builder.rs:192 | substituting through a tuple yields one result per part, and result `k` is `substitute` of part `k`, in the store the earlier parts left |
| Building.Subst | core/src/builder.rs:186-208 | `substitute` only extends the store consistently (its cases are stated by `BuilderLaws.SubstVar`, `BuilderLaws.SubstFunc`, `SubstLaws.SubstTuple` and `SubstLaws.SubstPolyValue`) |
| Building.SubstSum | core/src/builder.rs:194-204 | the sum over the terms only extends the store consistently (its value is stated by `SubstLaws.SubstSumValue`) |
| Building.SubstTerm | core/src/builder.rs:195-202 | one term only extends the store consistently (its value is stated by `SubstLaws.SubstTermValue`) |
| Building.SubstFactors | core/src/builder.rs:196-201 | the product over a base only extends the store consistently (its value is stated by `SubstLaws.SubstFactorsValue`) |
| Building.SubstEach | core/src/builder.rs:166-169 | applying a one-parameter definition to each part yields one result per part, and result `k` is the body with the parameter bound to part `k` |
| Building.Decimal | core/src/builder.rs:59-62 | `decimal` fails with `IntegerError` exactly when the digits do not parse as `i64`, and otherwise interns that integer |
| Building.DecimalFloat | core/src/builder.rs:63-69 | `decimal_float` fails with `IntegerError` when either side of the `.` does not parse (its value is stated by `BuilderLaws.DecimalFloatValue`) |
| Building.Find | core/src/builder.rs:64 | `find('.')` is the first position of the dot |
| Building.Pow10Bound | core/src/builder.rs:65 | `10^k` fits in `i64` for up to 18 fraction digits |
| Building.DivInts | core/src/builder.rs:68 | `div(int(j), int(d))` only extends the store consistently (its value is stated by `BuilderLaws.DivIntsValue`) |
| Building.AddFraction | core/src/builder.rs:68 | `add(int(i), div(int(j), int(d)))` only extends the store consistently (its value is stated by `BuilderLaws.AddFractionValue`) |
| Building.Builder.Create | core/src/builder.rs:31-34 | the `Builder { .. }` literal: a valid builder over a fresh, empty cache with no definitions |
| Building.Builder.New | core/src/builder.rs:30-37 | `Builder::new` returns a fresh, valid builder; when `init` succeeds, `sin`, `cos`, `exp` and `log` are defined over `x` and they are the only names defined, so any other name falls through to `mul` |
| Building.Builder.Define | core/src/builder.rs:45-50 | `define` inserts (or overwrites) exactly one definition |
| Building.Builder.Intern | core/src/builder.rs:242-244 | the builder's `intern` is the cache's `intern` and leaves the definitions alone |
| Building.Builder.Var | core/src/builder.rs:148-151 | `var` interns a variable |
| Building.Builder.Int | core/src/builder.rs:54-56 | `int` interns an integer constant |
| Building.Builder.Func | core/src/builder.rs:143-146 | `func` is `uniform_one` of interning `Func(f, g)` |
| Building.Builder.FuncEach | core/src/builder.rs:96 | the loop over a tuple's parts computes `MapOne`, stopping at the first error |
| Building.Builder.Install | core/src/builder.rs:40-43 | one round of `init` defines the name as `f(x)` of parameter `x` and changes no other definition |
| Building.Builder.Init | core/src/builder.rs:38-44 | `init` only grows the node store (every handle held before stays held and denotes the same node); on success `sin`, `cos`, `exp` and `log` are defined as their function of `x`, and exactly these four names are added to the definitions |
| BuilderLaws.UniformMismatch | core/src/builder.rs:79-82 | two tuples of different lengths fail with `ShapeMismatch(len a, len b)` and change nothing |
| BuilderLaws.ZipTupleShape | core/src/builder.rs:83-86 | zipping two equal-length lists gives a tuple of that length whose part `k` is what the closure built from the `k`-th elements |
| BuilderLaws.UniformBoth | core/src/builder.rs:79-86 | two tuples of equal length give a tuple of that length whose part `k` is what the closure built from `a_k` and `b_k` |
| BuilderLaws.UniformLeft | core/src/builder.rs:87 | a tuple and a scalar give a tuple of the tuple's length whose part `k` is what the closure built from `a_k` and the scalar `b` |
| BuilderLaws.UniformRight | core/src/builder.rs:88 | a scalar and a tuple give a tuple of the tuple's length whose part `k` is what the closure built from the scalar `a` and `b_k` |
| BuilderLaws.UniformScalars | core/src/builder.rs:89 | two scalars apply the operation directly |
| BuilderLaws.UniformOneShape | core/src/builder.rs:92-99 | `uniform_one` hands a scalar to the closure directly, and maps a tuple to a tuple of its length whose part `k` is what the closure built from part `k` |
| BuilderLaws.UniformOneFunc | core/src/builder.rs:143-146 | `func` over a tuple gives a tuple whose part `k` is the node `f(part k)` |
| BuilderLaws.UniformOnePowI | core/src/builder.rs:139-141 | `pow_i` over a tuple gives a tuple whose part `k` is the polynomial `pow_i(poly(part k), i)` wherever that power needs no node of its own |
| BuilderLaws.UniformArith | core/src/builder.rs:75-113 | `add`, `sub` and `mul` with a tuple of `n` parts on either side give a tuple of `n` parts; part `k`, where both `k`-th operands are scalars, is the node of their polynomials' sum, difference or product |
| BuilderLaws.AddScalars | core/src/builder.rs:101-103 | adding scalars interns `poly(a) + poly(b)` |
| BuilderLaws.SubScalars | core/src/builder.rs:105-108 | subtracting scalars interns `poly(a) + poly(b)·(-1)` |
| BuilderLaws.MulScalars | core/src/builder.rs:110-113 | multiplying scalars interns `poly(a) · poly(b)` |
| BuilderLaws.ScalarsCommute | core/src/builder.rs:101-113 | `add` and `mul` of scalars do not depend on operand order |
| BuilderLaws.SubSelf | core/src/builder.rs:105-108 | `a - a` is the zero polynomial |
| BuilderLaws.DivNodesZero | core/src/builder.rs:115-118 | the scalar division fails with `DivZero` exactly when the divisor is the zero polynomial, and then changes nothing |
| BuilderLaws.DivZeroIff | core/src/builder.rs:115-118 | `div` of scalars fails with `DivZero` exactly when the divisor is zero |
| BuilderLaws.DivNodesValue | core/src/builder.rs:115-118 | a successful division interns `poly(a) · pow_i(poly(b), -1)` |
| BuilderLaws.DivNodesSelf | core/src/builder.rs:115-118 | a single-term polynomial divided by itself is 1 |
| BuilderLaws.DivSelf | core/src/builder.rs:115-118 | the same through `div` |
| BuilderLaws.NegScalar | core/src/builder.rs:120-123 | negating a scalar interns its polynomial scaled by −1 |
| BuilderLaws.PowDispatch | core/src/builder.rs:125-137 | `pow` of scalars is `pow_i` for an `i32`-sized integer exponent and `exp(b · log a)` otherwise |
| BuilderLaws.ExpLogScalars | core/src/builder.rs:134-135 | for scalars `a`, `b`, the fallback of `pow` interns `exp(m)` where `m` is the polynomial `log(a) · poly(b)` and `log(a)` is the node `Func(Log, a)`; it fails only with `HashCollision` |
| BuilderLaws.FuncOfScalar | core/src/builder.rs:143-146 | `func(f, x)` of a scalar interns `Func(f, x)`, or fails with `HashCollision` and changes nothing |
| BuilderLaws.PowConstants | core/src/builder.rs:125-141 | a constant raised to a small natural constant interns the rational power |
| BuilderLaws.PowIConstant | core/src/builder.rs:138-141 | `pow_i` of a constant interns the constant's power |
| BuilderLaws.ThreeCubed | core/src/builder.rs:126-137 | `3^3` is `27` |
| BuilderLaws.SumOfNone | core/src/builder.rs:217-222 | the empty sum is 0 |
| BuilderLaws.ProductOfNone | core/src/builder.rs:210-215 | the empty product is 1 |
| BuilderLaws.FoldScalars | core/src/builder.rs:210-222 | folding `add` or `mul` over scalar items builds the polynomial fold of their polynomials from the accumulator's; it fails only with a hash collision or the first failing item's error |
| BuilderLaws.SumOfScalars | core/src/builder.rs:217-222 | `sum` of scalar items builds `0 + p_1 + … + p_n` of their polynomials; it fails only with a hash collision or the first failing item's error |
| BuilderLaws.ProductOfScalars | core/src/builder.rs:210-215 | `product` of scalar items builds `1 · p_1 · … · p_n` of their polynomials; it fails only with a hash collision or the first failing item's error |
| BuilderLaws.DecimalShow | core/src/builder.rs:59-62 | `decimal` of an `i64`'s decimal form never fails to parse and interns that integer |
| BuilderLaws.DivConstants | core/src/builder.rs:115-118 | dividing the constant `x` by the constant `y ≠ 0` interns the constant `x/y` |
| BuilderLaws.DivIntsValue | core/src/builder.rs:68 | `div(int(j), int(d))` with `d > 0` builds the constant `j/d`, failing only with `HashCollision` |
| BuilderLaws.AddConstants | core/src/builder.rs:101-103 | adding the constants `x` and `y` interns the constant `x + y` |
| BuilderLaws.AddFractionValue | core/src/builder.rs:68 | `add(int(i), div(int(j), int(d)))` with `d > 0` builds the constant `i + j/d`, failing only with `HashCollision` |
| BuilderLaws.DecimalFloatValue | core/src/builder.rs:63-69 | `decimal_float` fails with `IntegerError` exactly when a side of the `.` does not parse; otherwise it builds the constant `i + j/10^k` (`i` the integer part, `j` the fraction digits, `k` their count), failing only with `HashCollision` |
| BuilderLaws.DecimalFloatNegative | core/src/builder.rs:63-69 | `"-1.5"` parses and denotes `-1 + 5/10 = -0.5`: the sign applies to the integer part only |
| BuilderLaws.SubstVar | core/src/builder.rs:188-191 | `substitute` replaces a mapped variable by its image and leaves an unmapped one unchanged |
| BuilderLaws.SubstFunc | core/src/builder.rs:206 | substituting into `f(x)` rebuilds `f` around the image of `x` |
| SubstLaws.SubstTuple | core/src/builder.rs:192 | `substitute` on a tuple gives a tuple of the same length whose part `k` is `substitute` of part `k` |
| SubstLaws.SubstTupleVars | core/src/builder.rs:188-192 | `substitute` on a tuple puts, at every part that is a variable, that variable's image (the mapped node, or the variable itself) |
| SubstLaws.RaiseFactor | core/src/builder.rs:198-199 | `pow_i` of a variable's scalar image, with an `i32` exponent and no opaque case, interns that polynomial power |
| SubstLaws.SubstFactorsValue | core/src/builder.rs:196-201 | multiplying the powers of a base's images into the accumulator builds the accumulator times the product of those powers, failing only with `HashCollision` |
| SubstLaws.SubstTermValue | core/src/builder.rs:195-202 | one term builds `rational(fac)` times the product of the powers of its base's images, failing only with `HashCollision` |
| SubstLaws.SubstSumValue | core/src/builder.rs:194-204 | the sum over the terms builds the accumulator plus the sum of every term's substituted value, failing only with `HashCollision` |
| SubstLaws.SubstPolyValue | core/src/builder.rs:193-205 | `substitute` on a polynomial whose factors are variables with scalar images builds `Σ fac · Π pow_i(image, e)` over its terms, failing only with `HashCollision` |
| SubstLaws.PolyIdentity | core/src/builder.rs:193-205 | when no variable of the polynomial is mapped, the substituted sum over its terms is the polynomial itself |
| SubstLaws.SubstNothing | core/src/builder.rs:186-208 | substituting into a polynomial none of whose variables is mapped gives back the same node, or fails with `HashCollision` |
| BuilderLaws.ApplyNamed | core/src/builder.rs:155-176 | applying a `Var` naming a definition uses that definition |
| BuilderLaws.ApplyDefScalar | core/src/builder.rs:173 | a one-parameter definition applied to a scalar substitutes it for the parameter |
| BuilderLaws.ApplyDefBind | core/src/builder.rs:170 | a definition of `n ≠ 1` parameters applied to a tuple of `n` parts substitutes the parts for the parameters, by position |
| BuilderLaws.ApplyDefTuple | core/src/builder.rs:166-169 | a one-parameter definition applied to a tuple gives a tuple of the same length whose part `k` is the body with the parameter bound to part `k` |
| BuilderLaws.ApplyInstalled | core/src/builder.rs:38-44 | after `init`, applying `sin` (etc.) to a scalar is `func(Sin, …)` |
| Numerals.ShowNatValue | src/display.rs:7 | the decimal digits of `n` denote `n` |
| Numerals.ParseShow | core/src/builder.rs:60 | parsing an `i64`'s decimal form gives it back |
| Numerals.ParseDigits | core/src/builder.rs:60 | a digit string whose value fits `i64` parses to that value |
| Display.Sup | src/display.rs:8-20 | every numeral character maps to a superscript character, and `UnSup` maps it back |
| Display.SupAll | src/display.rs:6-23 | `int_super` writes exactly one character per character of the decimal form |
| Display.SupAllReadBack | src/display.rs:6-23 | the superscript string reads back as the original numeral string |
| Display.IntSuperReadBack | src/display.rs:6-23 | reading `int_super(i)` back and parsing it gives `i` |
| Display.IntSuperInjective | src/display.rs:6-23 | distinct exponents print differently |
| Display.Tokens.constructor | src/display.rs:52-54 | `Tokens::new` is empty |
| Display.Tokens.Len | src/display.rs:55-57 | `len` is the number of tokens |
| Display.Tokens.Push | src/display.rs:58-60 | `push` appends exactly one token |
| Display.Tokens.Fmt | src/display.rs:28-40 | `Display` writes the tokens separated by single spaces (empty for no tokens) |
| Display.JoinSnoc | src/display.rs:28-40 | appending a token to a nonempty list appends a space and the token |
| Display.SplitJoin | src/display.rs:28-40 | splitting the printed text at spaces gives back the tokens when none holds a space |
| Display.Tokens.PushFactors | src/display.rs:76-82 | the factor loop pushes one token per base factor |
| Display.FactorsSnoc | src/display.rs:76-82 | one more factor adds exactly its token |
| Display.Tokens.PushTerm | src/display.rs:64-91 | one term pushes its sign, magnitude, factors and denominator tokens |
| Display.Tokens.PushTerms | src/display.rs:64-91 | the loop over terms pushes every term's tokens, only the first marked as first |
| Display.Tokens.Poly | src/display.rs:61-95 | `poly` appends the terms' tokens, and `0` when nothing was written |
| Display.TermTokensNonEmpty | src/display.rs:64-91 | every term writes at least one token |
| Display.TermsTokensEmpty | src/display.rs:92-94 | no token is written exactly when there are no terms |
| Display.FirstTokenNotZero | src/display.rs:92-94 | the `0` of the zero polynomial cannot be mistaken for a first term |
| Display.ReadSignOf | src/display.rs:67-71 | the sign tokens (`-` for a negative numerator, `+` before a later term) read back as the numerator's sign and consume nothing else |
| Display.ReadMagOf | src/display.rs:72-74 | the magnitude token (left out when it is 1 and there is a base) reads back as `|num|` |
| Display.ParseFactorOf | src/display.rs:76-82 | a factor token reads back as its node and exponent (bare for exponent 1) |
| Display.ReadFactorsOf | src/display.rs:76-82 | the factor tokens read back as the base |
| Display.ReadDenOf | src/display.rs:84-90 | the denominator tokens (`/ d`, or nothing for 1) read back as the denominator |
| Display.ReadTermOf | src/display.rs:64-91 | a term's tokens read back as the term |
| Display.ReadTermsOf | src/display.rs:64-91 | the tokens of all terms read back as the terms |
| Display.ReadPolyOf | src/display.rs:61-95 | `poly`'s tokens read back as the terms (the zero polynomial as none) |
| Display.TermsNoSpace | src/display.rs:64-91 | no token of a term holds a space |
| Display.RenderReadBack | src/display.rs:28-95 | the printed text of a polynomial reads back as its terms, for terms whose printed nodes hold no space or superscript and start with no digit, sign or `/` |
| Display.WrapPoly | src/display.rs:41-49 | `wrap_poly` parenthesises the printed text exactly when more than one token was written |
| Display.WrapBare | src/display.rs:41-49 | exactly one token is written for zero, a positive integer constant, or a bare node with coefficient 1, so only these print unparenthesised |

## Left out

- Handle order: `NodeRc` derives `Ord` structurally on `(Node, u64)`. Here handles are ordered by arena slot, then hash. That is a total order that agrees with equality, but it is not the structural order. So `Monomials.HandleLess`, and the base order built on it, differ from the source in which node sorts first.
- `HashMap` iteration order is unspecified. `Tokens::poly` and `substitute` take the terms in some order. The renderer takes the terms as a sequence in whatever order the caller hands over. `substitute` walks the keys in sorted order.
- `Hash for Poly` (src/poly.rs:295-301) hashes terms in that unspecified order, so it is not modelled. The cache's hash function is an arbitrary function `Node -> U64` fixed for the store's lifetime.
- `Interning.InternIdempotent` and `Interning.HeldHandlesEq`: they assume the hash is a function of the node's value. In the source it is not always one. `Hash for Poly` feeds the terms in the map's iteration order (src/poly.rs:102, 295-301), and each `HashMap` has its own random state (`Mul` builds a fresh one, src/poly.rs:137). So two equal polynomials with two or more terms that were built separately, such as `x+1` times `y` and `y` times `x+1`, can hash differently. `intern` (src/node.rs:16-19) then stores the second one as a separate node, and `==` on handles (src/node.rs:52-56), which compares hashes only, calls the two unequal. The model does not capture this: the same handle for the same node, and handle equality as node equality, hold here but not always in the source.
- The second renderer in src/poly.rs (`Tokens` and `Display for Poly`, src/poly.rs:189-202 and 254-294) and its copy of `int_super` (src/poly.rs:303-320) repeat src/display.rs. Only the src/display.rs renderer is modelled.
- `Tokens::node` (src/display.rs:96-115) is not modelled. It calls `Poly::factorize`, which is not part of this model. The renderer takes each node already printed.
- `Rational` internals are not modelled. Rationals are exact `real`s, and `Rational::frac` is an input to the renderer.
- Integer widths:
  - `base[i].1 += n`, `n * i as i64`, `r.pow(i)` and `10i64.pow(k)` are unbounded here, not `i64`.
  - `i64::MIN.abs()` in `Tokens::poly` is not modelled, because the numerator is an unbounded integer.
  - Exponents are checked against `i32` only where the source casts (`SmallExponent`, the substitute exponent).
- `Builder::parse` and the `lang` parser are not part of this model.
- `Builder::array` is not modelled: it is `todo!()`.
- src/vm/syn.rs is not modelled: it only generates code through the `quote` crate.
- `Rc`/`Weak`/`RefCell` mechanics are not modelled. Liveness is the set `live`. `Cache.Release` drops a node only when no live node points to it. Borrowing conflicts cannot occur in a sequential model.
- The `Op` and `Apply` node variants and `Sign` are not modelled. The builder and the renderer never match them.
- `Building.DecimalFloat`: it requires a `.` in the literal, as the source's `unwrap` does. It also requires at most 18 fraction digits, so that `10^k` fits in `i64`, where the source would overflow. Its own contract states only the parse-failure case; `BuilderLaws.DecimalFloatValue` states the value `i + j/10^k`. The sign of the integer part does not reach the fraction, so `"-1.5"` denotes `-0.5` (`BuilderLaws.DecimalFloatNegative`), as the source computes it.
- `BuilderLaws.NegScalar`: its error clause says only that a failure is a `HashCollision`. It does not say when one happens.
- `Building.Subst`: its own contract states only that the store is extended consistently. `BuilderLaws.SubstVar`, `BuilderLaws.SubstFunc`, `SubstLaws.SubstTuple`, `SubstLaws.SubstTupleVars`, `SubstLaws.SubstPolyValue` and `SubstLaws.SubstNothing` state its value case by case.
- `Building.SubstSum`: its own contract states only that the store is extended consistently; `SubstLaws.SubstSumValue` states its value.
- `Building.SubstTerm`: its own contract states only that the store is extended consistently; `SubstLaws.SubstTermValue` states its value.
- `Building.SubstFactors`: its own contract states only that the store is extended consistently; `SubstLaws.SubstFactorsValue` states its value.
- `SubstLaws.SubstPolyValue`, `SubstLaws.SubstSumValue`, `SubstLaws.SubstTermValue` and `SubstLaws.SubstFactorsValue` cover polynomials whose factors are variables whose images are scalars, with `i32` exponents and a power that needs no opaque node. A factor that is itself a compound node, or whose image is a tuple, is outside them.
- `SubstLaws.SubstNothing`: it covers a polynomial whose factors are unmapped variables with `i32` exponents, not every node.
- `Building.Uniform`: its own contract states only that the store is extended consistently; `BuilderLaws.UniformMismatch`, `UniformBoth`, `UniformLeft`, `UniformRight`, `UniformScalars` and `UniformArith` state its cases.
- `Building.UniformOne`: its own contract states only that the store is extended consistently; `BuilderLaws.UniformOneShape`, `UniformOneFunc` and `UniformOnePowI` state its cases.
- `Building.ZipTuple`: its own contract states only that the store is extended consistently; `BuilderLaws.ZipTupleShape` states its parts.
- `Building.ExpLog`: its own contract states only that the store is extended consistently; `BuilderLaws.ExpLogScalars` states its value for scalar operands.
- `BuilderLaws.ExpLogScalars`: it covers scalar operands only; a tuple operand is broadcast by `uniform` before `pow`'s closure runs.
- `Building.Neg`: its own contract states only that the store is extended consistently; `BuilderLaws.NegScalar` states its value for a scalar.
- `Building.DivInts`: its own contract states only that the store is extended consistently; `BuilderLaws.DivIntsValue` states its value for `d > 0`, the only divisor `decimal_float` passes.
- `Building.AddFraction`: its own contract states only that the store is extended consistently; `BuilderLaws.AddFractionValue` states its value for `d > 0`.
- `Building.SumOf`: its own contract states only that success needs every item `Ok`; `BuilderLaws.SumOfScalars` states the value and the error for scalar items.
- `Building.ProductOf`: its own contract states only that success needs every item `Ok`; `BuilderLaws.ProductOfScalars` states the value and the error for scalar items.
- `BuilderLaws.SumOfScalars`, `BuilderLaws.ProductOfScalars` and `BuilderLaws.FoldScalars`: they cover items whose nodes are scalars; a tuple item would be broadcast by `add` or `mul`.
- `Building.ApplyDef`: its own contract states the shape errors and the length of the arity-1 result; `BuilderLaws.ApplyDefBind` states the `n == len` substitution and `BuilderLaws.ApplyDefTuple` the part-by-part contents for arity 1.
- `PolyProduct.Times`: its own contract states only that no zero is stored; `PolyProduct.Mul`, `PolyRing.TimesMonomials` and the `PolyRing` laws state what it computes.
- `Display.RenderReadBack`: it requires every printed node to hold no space and no superscript digit, and to start with no digit, sign or `/`. A node printed with spaces (a function of a sum, a tuple, or the opaque power of a sum that `pow_i` leaves) is outside it.
- Node release in the builder: the builder's operations never release a node. Nodes the source drops at once (the `int(0)` and `int(1)` fold accumulators, `rational(fac)` in `substitute`) stay live here. So a later hash collision with one of them is `HashCollision` here, where the source would replace the dead entry.
- The builder's operations are functions that thread the cache state. This is sound for a hash determined by the node, because interning is then idempotent (`Interning.InternIdempotent`); the `Interning.InternIdempotent` line above says where the source's hash is not one. The `Builder` class wraps the mutating entry points `new`, `init`, `define`, `intern`, `var`, `int` and `func`.
- `Poly::one` sorts its base. The model assumes every caller passes a sorted base: `from_node`'s single factor, a scaled sorted base, and the empty base.

## Findings

| source | as written | input that shows it | evidently intended | confidence | as-written member | corrected member |
|---|---|---|---|---|---|---|
| src/poly.rs:174-180 | `MulAssign<Rational>` multiplies every coefficient and never removes one | `Poly::int(1) *= 0` (or `* 0i64`) | the result is the zero polynomial, keeping "never contains a zero" (src/poly.rs:15) | not executed; no caller in core/src/builder.rs or src/poly.rs multiplies by 0; `sub` multiplies by -1 (core/src/builder.rs:105-108) | Polys.ScaleAsWritten (Polys.ScaleByZeroKeepsZeros) | Polys.Scale (Polys.ScaleIsAsWritten) |
