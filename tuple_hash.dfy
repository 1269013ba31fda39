/**
 * `hash` of `tuple_type`: the plain byte hash when every component type is
 * byte-order-equal, otherwise the XOR of the component types' hashes of the
 * present components, NULL components contributing nothing.
 */
module TupleHash {
  import opened Wrappers
  import opened Serialization
  import opened ComponentTypes
  import opened TupleCodec
  import opened TupleCompare

  /** What one component adds to the hash: its type's hash if present, nothing if NULL. */
  function ComponentHash<V>(t: ComponentType<V>, x: Option<Bytes>): (h: bv64) {
    match x
    case None => 0
    case Some(a) => t.hash(a)
  }

  /**
   * The hash of a list of decoded components, the `i`-th hashed by the `i`-th
   * type, accumulated from the first component on.
   */
  function HashValues<V>(types: seq<ComponentType<V>>, xs: Value): (h: bv64)
    requires |xs| <= |types|
  {
    if xs == [] then 0
    else HashValues(types, xs[..|xs| - 1]) ^ ComponentHash(types[|xs| - 1], xs[|xs| - 1])
  }

  /** Appending a component XORs its hash onto the hash of the components before it. */
  lemma HashValuesSnoc<V>(types: seq<ComponentType<V>>, xs: Value, x: Option<Bytes>)
    requires |xs| < |types|
    ensures HashValues(types, xs + [x]) == HashValues(types, xs) ^ ComponentHash(types[|xs|], x)
  {
    assert (xs + [x])[..|xs|] == xs;
  }

  /** A NULL component leaves the hash of the components before it unchanged. */
  lemma HashSkipsNull<V>(types: seq<ComponentType<V>>, xs: Value)
    requires |xs| < |types|
    ensures HashValues(types, xs + [None]) == HashValues(types, xs)
  {
    HashValuesSnoc(types, xs, None);
    assert HashValues(types, xs) ^ 0 == HashValues(types, xs);
  }

  /** One more component XORs its hash into the accumulator if present, and leaves it alone if NULL. */
  lemma HashAccumulate<V>(types: seq<ComponentType<V>>, xs: Value, x: Option<Bytes>, h: bv64)
    requires |xs| < |types| && h == HashValues(types, xs)
    ensures HashValues(types, xs + [x]) == if x.Some? then h ^ types[|xs|].hash(x.value) else h
  {
    match x
    case None => HashSkipsNull(types, xs);
    case Some(a) => HashValuesSnoc(types, xs, x);
  }

  /**
   * `hash(v)`: on the fast path the byte hash `byteHash` (`std::hash<bytes_view>`,
   * which lies outside the codec); otherwise the hash of every component the
   * cursor produces, or the marshal error it raises.
   */
  function TupleHash<V>(tt: TupleType<V>, byteHash: Bytes -> bv64, v: Bytes): (r: Result<bv64>) {
    if tt.byteOrderEqual then Ok(byteHash(v))
    else
      match Components(|tt.types|, tt.allowPrefixes, v)
      case Ok(xs) => Ok(HashValues(tt.types, xs))
      case MarshalError => MarshalError
  }

  /** One step of `hash`: XORs in the hash of the component `valueOpt` if it is present. */
  method HashIn<V>(types: seq<ComponentType<V>>, k: nat, ghost seen: Value, valueOpt: Option<Bytes>, h: bv64) returns (h': bv64)
    requires k == |seen| < |types| && h == HashValues(types, seen)
    ensures h' == HashValues(types, seen + [valueOpt])
  {
    HashAccumulate(types, seen, valueOpt, h);
    h' := h;
    if valueOpt.Some? {
      h' := h ^ types[k].hash(valueOpt.value);
    }
  }

  /** `hash`: a cursor over `v`, XORing in each present component's hash. */
  method Hash<V>(tt: TupleType<V>, byteHash: Bytes -> bv64, v: Bytes) returns (r: Result<bv64>)
    ensures r == TupleHash(tt, byteHash, v)
  {
    if tt.byteOrderEqual {
      return Ok(byteHash(v));
    }
    var it, ok := Begin(tt, v);
    if !ok {
      return MarshalError;
    }
    var h: bv64 := 0;
    var k := 0;
    ghost var seen: Value := [];
    assert it.Remaining().Ok? ==> [] + it.Remaining().value == it.Remaining().value;
    while !it.exhausted
      invariant fresh(it) && it.Valid() && it.allowPrefixes == tt.allowPrefixes
      invariant k == |seen| && k + it.typesLeft == |tt.types|
      invariant Components(|tt.types|, tt.allowPrefixes, v) == Concat(seen, it.Remaining())
      invariant h == HashValues(tt.types, seen)
      decreases it.typesLeft
    {
      ghost var before := seen;
      ghost var cur := it.current;
      h := HashIn(tt.types, k, seen, it.current, h);
      seen := seen + [it.current];
      k := k + 1;
      ok := it.Next();
      if !ok {
        return MarshalError;
      }
      ConcatPrepend(before, cur, it.Remaining());
    }
    assert seen + [] == seen;
    return Ok(h);
  }

  /**
   * Hashing an encoding of admissible arity never fails: it gives the byte
   * hash of the encoding on the fast path, otherwise the XOR of the present
   * components' hashes.
   */
  lemma HashOfEncoding<V>(tt: TupleType<V>, byteHash: Bytes -> bv64, xs: Value)
    requires ArityOk(tt, |xs|) && Encodable(xs)
    ensures TupleHash(tt, byteHash, Encoding(xs))
      == Ok(if tt.byteOrderEqual then byteHash(Encoding(xs)) else HashValues(tt.types, xs))
  {
    RoundTrip(tt, xs);
  }

  /** NULL components contribute nothing: a tuple of NULLs, or the empty one, hashes to 0. */
  lemma {:induction false} HashOfNulls<V>(types: seq<ComponentType<V>>, xs: Value)
    requires |xs| <= |types|
    requires forall i | 0 <= i < |xs| :: xs[i].None?
    ensures HashValues(types, xs) == 0
    decreases |xs|
  {
    if xs != [] {
      HashOfNulls(types, xs[..|xs| - 1]);
    }
  }

  /** Components that compare equal hash alike, when the type's hash respects its compare. */
  lemma ComponentSameHash<V>(t: ComponentType<V>, x: Option<Bytes>, y: Option<Bytes>)
    requires HashRespectsCompare(t) && ComponentCompare(t, x, y) == 0
    ensures ComponentHash(t, x) == ComponentHash(t, y)
  {
    if x.Some? && y.Some? {
      assert t.compare(x.value, y.value) == 0;
    }
  }

  /** The hash of the first `n` components adds the `n`-th to the hash of the first `n - 1`. */
  lemma HashOfPrefix<V>(types: seq<ComponentType<V>>, xs: Value, n: nat)
    requires |xs| <= |types| && 0 < n <= |xs|
    ensures HashValues(types, xs[..n]) == HashValues(types, xs[..n - 1]) ^ ComponentHash(types[n - 1], xs[n - 1])
  {
    var p := xs[..n];
    assert p[..|p| - 1] == xs[..n - 1];
    assert p[|p| - 1] == xs[n - 1];
  }

  /** Lists whose components contribute alike to the hash have the same hash over their first `n` components. */
  lemma {:induction false} SameContributions<V>(types: seq<ComponentType<V>>, xs: Value, ys: Value, n: nat)
    requires |xs| == |ys| <= |types| && n <= |xs|
    requires forall i | 0 <= i < |xs| :: ComponentHash(types[i], xs[i]) == ComponentHash(types[i], ys[i])
    ensures HashValues(types, xs[..n]) == HashValues(types, ys[..n])
  {
    if n > 0 {
      SameContributions(types, xs, ys, n - 1);
      HashOfPrefix(types, xs, n);
      HashOfPrefix(types, ys, n);
    } else {
      assert xs[..n] == [] == ys[..n];
    }
  }

  /** Lists whose components pairwise compare equal hash alike, when each type's hash respects its compare. */
  lemma PointwiseSameHash<V>(types: seq<ComponentType<V>>, xs: Value, ys: Value)
    requires |xs| == |ys| <= |types|
    requires forall i | 0 <= i < |types| :: HashRespectsCompare(types[i])
    requires forall i | 0 <= i < |xs| :: ComponentCompare(types[i], xs[i], ys[i]) == 0
    ensures HashValues(types, xs) == HashValues(types, ys)
  {
    forall i | 0 <= i < |xs|
      ensures ComponentHash(types[i], xs[i]) == ComponentHash(types[i], ys[i])
    {
      ComponentSameHash(types[i], xs[i], ys[i]);
    }
    SameContributions(types, xs, ys, |xs|);
    assert xs[..|xs|] == xs && ys[..|ys|] == ys;
  }

  /** Encodings that `equal` accepts have the same `hash`. */
  lemma EqualSameHash<V>(tt: TupleType<V>, byteHash: Bytes -> bv64, xs: Value, ys: Value)
    requires tt.Valid() && ArityOk(tt, |xs|) && ArityOk(tt, |ys|) && Encodable(xs) && Encodable(ys)
    requires forall i | 0 <= i < |tt.types| :: HashRespectsCompare(tt.types[i])
    requires Equal(tt, Encoding(xs), Encoding(ys)) == Ok(true)
    ensures TupleHash(tt, byteHash, Encoding(xs)) == TupleHash(tt, byteHash, Encoding(ys))
  {
    HashOfEncoding(tt, byteHash, xs);
    HashOfEncoding(tt, byteHash, ys);
    if !tt.byteOrderEqual {
      CompareOfEncodings(tt, xs, ys);
      CompareValuesZeroPointwise(tt.types, xs, ys, 0);
      PointwiseSameHash(tt.types, xs, ys);
    }
  }
}
