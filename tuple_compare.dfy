/**
 * Ordering and equality of encoded tuples: `compare`, `less` and `equal` of
 * `tuple_type`. Two cursors advance in step over the component types; an
 * exhausted buffer sorts first, a NULL component sorts before a present one,
 * and two present components are ordered by their type's compare.
 */
module TupleCompare {
  import opened Wrappers
  import opened Serialization
  import opened ComponentTypes
  import opened TupleCodec

  /**
   * The rest of the `compare` loop from the type at index `k`, the two cursors
   * having read `r1` and `r2`. A marshal error from a cursor step surfaces as
   * the read being `Corrupt`.
   */
  function CompareFrom<V>(types: seq<ComponentType<V>>, allowPrefixes: bool, k: nat, r1: Read, r2: Read): (r: Result<int>)
    decreases |types| - k
  {
    if r1.Corrupt? || r2.Corrupt? then MarshalError
    else if k >= |types| then Ok(0)
    else if r1.End? then Ok(if r2.End? then 0 else -1)
    else if r2.End? then Ok(1)
    else if r1.value.Some? != r2.value.Some? then Ok(if r2.value.Some? then -1 else 1)
    else if r1.value.Some? && types[k].compare(r1.value.value, r2.value.value) != 0 then
      Ok(types[k].compare(r1.value.value, r2.value.value))
    else
      CompareFrom(types, allowPrefixes, k + 1,
        ReadComponent(|types| - (k + 1), allowPrefixes, r1.rest),
        ReadComponent(|types| - (k + 1), allowPrefixes, r2.rest))
  }

  /** `compare(b1, b2)`, or the marshal error a cursor over either buffer raises on the way. */
  function TupleCompare<V>(tt: TupleType<V>, b1: Bytes, b2: Bytes): (r: Result<int>) {
    CompareFrom(tt.types, tt.allowPrefixes, 0,
      ReadComponent(|tt.types|, tt.allowPrefixes, b1),
      ReadComponent(|tt.types|, tt.allowPrefixes, b2))
  }

  /**
   * `compare`: two cursors advanced type by type until one runs out or two
   * components differ. The unsigned byte-wise fast path is never taken, since
   * `IsByteOrderComparable` is false.
   */
  method Compare<V>(tt: TupleType<V>, b1: Bytes, b2: Bytes) returns (r: Result<int>)
    ensures r == TupleCompare(tt, b1, b2)
  {
    var i1, ok1 := Begin(tt, b1);
    if !ok1 {
      return MarshalError;
    }
    var i2, ok2 := Begin(tt, b2);
    if !ok2 {
      return MarshalError;
    }
    for k := 0 to |tt.types|
      invariant fresh(i1) && fresh(i2) && i1 != i2
      invariant i1.allowPrefixes == tt.allowPrefixes && i2.allowPrefixes == tt.allowPrefixes
      invariant i1.typesLeft == |tt.types| - k && i2.typesLeft == |tt.types| - k
      invariant i1.Valid() && i2.Valid()
      invariant TupleCompare(tt, b1, b2) == CompareFrom(tt.types, tt.allowPrefixes, k, i1.State(), i2.State())
    {
      var done;
      done, r := CompareCurrent(tt, k, i1, i2);
      if done {
        return;
      }
    }
    return Ok(0);
  }

  /**
   * One turn of the `compare` loop at the type at index `k`: either the two
   * current components decide the result, or both cursors move on.
   */
  method CompareCurrent<V>(tt: TupleType<V>, k: nat, i1: Cursor, i2: Cursor) returns (done: bool, r: Result<int>)
    requires k < |tt.types| && i1 != i2
    requires i1.allowPrefixes == tt.allowPrefixes && i2.allowPrefixes == tt.allowPrefixes
    requires i1.typesLeft == |tt.types| - k && i2.typesLeft == |tt.types| - k
    requires i1.Valid() && i2.Valid()
    modifies i1, i2
    ensures done ==> r == CompareFrom(tt.types, tt.allowPrefixes, k, old(i1.State()), old(i2.State()))
    ensures !done ==> i1.Valid() && i2.Valid()
    ensures !done ==> i1.typesLeft == |tt.types| - (k + 1) && i2.typesLeft == |tt.types| - (k + 1)
    ensures !done ==> old(i1.State()).Item? && i1.State() == ReadComponent(|tt.types| - (k + 1), tt.allowPrefixes, old(i1.State()).rest)
    ensures !done ==> old(i2.State()).Item? && i2.State() == ReadComponent(|tt.types| - (k + 1), tt.allowPrefixes, old(i2.State()).rest)
    ensures !done ==>
      CompareFrom(tt.types, tt.allowPrefixes, k, old(i1.State()), old(i2.State()))
      == CompareFrom(tt.types, tt.allowPrefixes, k + 1, i1.State(), i2.State())
  {
    if i1.exhausted {
      return true, Ok(if i2.exhausted then 0 else -1);
    }
    if i2.exhausted {
      return true, Ok(1);
    }
    var v1 := i1.current;
    var v2 := i2.current;
    if v1.Some? != v2.Some? {
      return true, Ok(if v2.Some? then -1 else 1);
    }
    if v1.Some? {
      var c := tt.types[k].compare(v1.value, v2.value);
      if c != 0 {
        return true, Ok(c);
      }
    }
    ghost var later := |tt.types| - (k + 1);
    var ok1 := i1.Next();
    if !ok1 {
      return true, MarshalError;
    }
    var ok2 := i2.Next();
    if !ok2 {
      return true, MarshalError;
    }
    assert i1.typesLeft == later && i2.typesLeft == later;
    return false, Ok(0);
  }

  /** `less`: `compare(b1, b2) < 0`. */
  function Less<V>(tt: TupleType<V>, b1: Bytes, b2: Bytes): (r: Result<bool>) {
    match TupleCompare(tt, b1, b2)
    case Ok(c) => Ok(c < 0)
    case MarshalError => MarshalError
  }

  /**
   * `equal`: byte equality when every component type is byte-order-equal,
   * otherwise `compare(v1, v2) == 0`.
   */
  function Equal<V>(tt: TupleType<V>, v1: Bytes, v2: Bytes): (r: Result<bool>)
    ensures tt.byteOrderEqual ==> r == Ok(v1 == v2)
  {
    if tt.byteOrderEqual then Ok(CompareUnsigned(v1, v2) == 0)
    else
      match TupleCompare(tt, v1, v2)
      case Ok(c) => Ok(c == 0)
      case MarshalError => MarshalError
  }

  // ---------------------------------------------------------------------------
  // The order on decoded values

  /** One position of the order: NULL before present, present values by the type's compare. */
  function ComponentCompare<V>(t: ComponentType<V>, x: Option<Bytes>, y: Option<Bytes>): (c: int) {
    match (x, y)
    case (None, None) => 0
    case (None, Some(_)) => -1
    case (Some(_), None) => 1
    case (Some(a), Some(b)) => t.compare(a, b)
  }

  /**
   * The order `compare` induces on decoded value lists, from position `k`:
   * lexicographic by `ComponentCompare`, a list that runs out first sorting first.
   */
  function CompareValues<V>(types: seq<ComponentType<V>>, xs: Value, ys: Value, k: nat): (c: int)
    requires |xs| <= |types| && |ys| <= |types|
    decreases |types| - k
  {
    if k >= |xs| then (if k >= |ys| then 0 else -1)
    else if k >= |ys| then 1
    else if ComponentCompare(types[k], xs[k], ys[k]) != 0 then ComponentCompare(types[k], xs[k], ys[k])
    else CompareValues(types, xs, ys, k + 1)
  }

  lemma ComponentCompareReflexive<V>(t: ComponentType<V>, x: Option<Bytes>)
    requires Lawful(t)
    ensures ComponentCompare(t, x, x) == 0
  {
    if x.Some? {
      assert t.compare(x.value, x.value) == 0;
    }
  }

  lemma ComponentCompareAntisymmetric<V>(t: ComponentType<V>, x: Option<Bytes>, y: Option<Bytes>)
    requires Lawful(t)
    ensures Sign(ComponentCompare(t, y, x)) == -Sign(ComponentCompare(t, x, y))
  {
    if x.Some? && y.Some? {
      assert Sign(t.compare(y.value, x.value)) == -Sign(t.compare(x.value, y.value));
    }
  }

  lemma ComponentCompareChain<V>(t: ComponentType<V>, x: Option<Bytes>, y: Option<Bytes>, z: Option<Bytes>)
    requires Lawful(t)
    requires ComponentCompare(t, x, y) <= 0 && ComponentCompare(t, y, z) <= 0
    ensures ComponentCompare(t, x, z) <= 0
    ensures ComponentCompare(t, x, y) < 0 || ComponentCompare(t, y, z) < 0 ==> ComponentCompare(t, x, z) < 0
  {
    if x.Some? && y.Some? && z.Some? {
      CompareChain(t, x.value, y.value, z.value);
    }
  }

  /** Every value list compares equal to itself. */
  lemma {:induction false} CompareValuesReflexive<V>(types: seq<ComponentType<V>>, xs: Value, k: nat)
    requires AllLawful(types) && |xs| <= |types|
    ensures CompareValues(types, xs, xs, k) == 0
    decreases |types| - k
  {
    if k < |xs| {
      ComponentCompareReflexive(types[k], xs[k]);
      CompareValuesReflexive(types, xs, k + 1);
    }
  }

  /** Swapping the operands flips the sign of the comparison. */
  lemma {:induction false} CompareValuesAntisymmetric<V>(types: seq<ComponentType<V>>, xs: Value, ys: Value, k: nat)
    requires AllLawful(types) && |xs| <= |types| && |ys| <= |types|
    ensures Sign(CompareValues(types, ys, xs, k)) == -Sign(CompareValues(types, xs, ys, k))
    decreases |types| - k
  {
    if k < |xs| && k < |ys| {
      ComponentCompareAntisymmetric(types[k], xs[k], ys[k]);
      if ComponentCompare(types[k], xs[k], ys[k]) == 0 {
        CompareValuesAntisymmetric(types, xs, ys, k + 1);
      }
    }
  }

  /** `<=` in the order is transitive. */
  lemma {:induction false} CompareValuesTransitive<V>(types: seq<ComponentType<V>>, xs: Value, ys: Value, zs: Value, k: nat)
    requires AllLawful(types) && |xs| <= |types| && |ys| <= |types| && |zs| <= |types|
    requires CompareValues(types, xs, ys, k) <= 0 && CompareValues(types, ys, zs, k) <= 0
    ensures CompareValues(types, xs, zs, k) <= 0
    decreases |types| - k
  {
    if k < |xs| {
      var t := types[k];
      ComponentCompareChain(t, xs[k], ys[k], zs[k]);
      if ComponentCompare(t, xs[k], ys[k]) == 0 && ComponentCompare(t, ys[k], zs[k]) == 0 {
        ComponentCompareAntisymmetric(t, xs[k], ys[k]);
        ComponentCompareAntisymmetric(t, ys[k], zs[k]);
        ComponentCompareAntisymmetric(t, xs[k], zs[k]);
        ComponentCompareChain(t, zs[k], ys[k], xs[k]);
        CompareValuesTransitive(types, xs, ys, zs, k + 1);
      }
    }
  }

  /** `less` on decoded values is a strict order: irreflexive and transitive. */
  lemma LessStrictOrder<V>(types: seq<ComponentType<V>>, xs: Value, ys: Value, zs: Value)
    requires AllLawful(types) && |xs| <= |types| && |ys| <= |types| && |zs| <= |types|
    ensures !(CompareValues(types, xs, xs, 0) < 0)
    ensures CompareValues(types, xs, ys, 0) < 0 && CompareValues(types, ys, zs, 0) < 0
      ==> CompareValues(types, xs, zs, 0) < 0
  {
    CompareValuesReflexive(types, xs, 0);
    if CompareValues(types, xs, ys, 0) < 0 && CompareValues(types, ys, zs, 0) < 0 {
      CompareValuesTransitive(types, xs, ys, zs, 0);
      if CompareValues(types, xs, zs, 0) == 0 {
        CompareValuesAntisymmetric(types, xs, zs, 0);
        CompareValuesAntisymmetric(types, xs, ys, 0);
        CompareValuesTransitive(types, ys, zs, xs, 0);
      }
    }
  }

  /** A prefix sorts before each of its proper extensions. */
  lemma {:induction false} PrefixSortsFirst<V>(types: seq<ComponentType<V>>, xs: Value, ys: Value, k: nat)
    requires AllLawful(types) && |xs| < |ys| <= |types| && xs == ys[..|xs|] && k <= |xs|
    ensures CompareValues(types, xs, ys, k) == -1
    decreases |xs| - k
  {
    if k < |xs| {
      assert xs[k] == ys[k];
      ComponentCompareReflexive(types[k], xs[k]);
      PrefixSortsFirst(types, xs, ys, k + 1);
    }
  }

  // ---------------------------------------------------------------------------
  // `compare` on encodings

  /** The `compare` loop along two laid-out buffers computes the order on their components. */
  lemma {:induction false} CompareLaidOut<V>(types: seq<ComponentType<V>>, allowPrefixes: bool,
    xs: Value, ys: Value, b1: seq<Bytes>, b2: seq<Bytes>, k: nat)
    requires |xs| <= |types| && |ys| <= |types| && |b1| == |xs| + 1 && |b2| == |ys| + 1
    requires ReadsAt(|types|, allowPrefixes, xs, b1) && ReadsAt(|types|, allowPrefixes, ys, b2)
    requires k <= |xs| && k <= |ys|
    ensures CompareFrom(types, allowPrefixes, k,
        ReadComponent(|types| - k, allowPrefixes, b1[k]), ReadComponent(|types| - k, allowPrefixes, b2[k]))
      == Ok(CompareValues(types, xs, ys, k))
    decreases |types| - k
  {
    if k < |xs| {
      assert ReadComponent(|types| - k, allowPrefixes, b1[k]) == Item(xs[k], b1[k + 1]);
    }
    if k < |ys| {
      assert ReadComponent(|types| - k, allowPrefixes, b2[k]) == Item(ys[k], b2[k + 1]);
    }
    if k < |xs| && k < |ys| {
      CompareLaidOut(types, allowPrefixes, xs, ys, b1, b2, k + 1);
    }
  }

  /**
   * `compare` of two encodings of admissible arity never fails and orders
   * them as their decoded components: by the first position where they
   * differ, a NULL before a present value, the shorter prefix first.
   */
  lemma CompareOfEncodings<V>(tt: TupleType<V>, xs: Value, ys: Value)
    requires ArityOk(tt, |xs|) && ArityOk(tt, |ys|) && Encodable(xs) && Encodable(ys)
    ensures TupleCompare(tt, Encoding(xs), Encoding(ys)) == Ok(CompareValues(tt.types, xs, ys, 0))
  {
    var b1 := EncodingReads(|tt.types|, tt.allowPrefixes, xs);
    var b2 := EncodingReads(|tt.types|, tt.allowPrefixes, ys);
    CompareLaidOut(tt.types, tt.allowPrefixes, xs, ys, b1, b2, 0);
  }

  /**
   * `compare` of any two buffers that decode, canonical or not, is the order
   * on their decoded components.
   */
  lemma CompareOfDecoded<V>(tt: TupleType<V>, b1: Bytes, b2: Bytes, xs: Value, ys: Value)
    requires Components(|tt.types|, tt.allowPrefixes, b1) == Ok(xs)
    requires Components(|tt.types|, tt.allowPrefixes, b2) == Ok(ys)
    ensures TupleCompare(tt, b1, b2) == Ok(CompareValues(tt.types, xs, ys, 0))
  {
    var bufs1 := DecodedReads(|tt.types|, tt.allowPrefixes, b1, xs);
    var bufs2 := DecodedReads(|tt.types|, tt.allowPrefixes, b2, ys);
    CompareLaidOut(tt.types, tt.allowPrefixes, xs, ys, bufs1, bufs2, 0);
  }

  /** `less` is transitive on buffers that decode. */
  lemma LessTransitive<V>(tt: TupleType<V>, b1: Bytes, b2: Bytes, b3: Bytes)
    requires AllLawful(tt.types)
    requires Components(|tt.types|, tt.allowPrefixes, b1).Ok?
    requires Components(|tt.types|, tt.allowPrefixes, b2).Ok?
    requires Components(|tt.types|, tt.allowPrefixes, b3).Ok?
    requires Less(tt, b1, b2) == Ok(true) && Less(tt, b2, b3) == Ok(true)
    ensures Less(tt, b1, b3) == Ok(true)
  {
    var xs := Components(|tt.types|, tt.allowPrefixes, b1).value;
    var ys := Components(|tt.types|, tt.allowPrefixes, b2).value;
    var zs := Components(|tt.types|, tt.allowPrefixes, b3).value;
    CompareOfDecoded(tt, b1, b2, xs, ys);
    CompareOfDecoded(tt, b2, b3, ys, zs);
    CompareOfDecoded(tt, b1, b3, xs, zs);
    LessStrictOrder(tt.types, xs, ys, zs);
  }

  /** `less` of two encodings is the strict order on their components. */
  lemma LessOfEncodings<V>(tt: TupleType<V>, xs: Value, ys: Value)
    requires ArityOk(tt, |xs|) && ArityOk(tt, |ys|) && Encodable(xs) && Encodable(ys)
    ensures Less(tt, Encoding(xs), Encoding(ys)) == Ok(CompareValues(tt.types, xs, ys, 0) < 0)
  {
    CompareOfEncodings(tt, xs, ys);
  }

  // ---------------------------------------------------------------------------
  // `compare` on any buffers

  /** The loop run on one read twice: 0, unless the rest of that buffer fails to decode. */
  lemma {:induction false} CompareFromSelf<V>(types: seq<ComponentType<V>>, allowPrefixes: bool, k: nat, n: nat, r: Read)
    requires AllLawful(types) && k <= |types| && n == |types| - k
    requires !r.Corrupt? ==> ReadableAt(n, allowPrefixes, r)
    ensures CompareFrom(types, allowPrefixes, k, r, r)
      == if r.Corrupt? || ComponentsFrom(n, allowPrefixes, r).MarshalError? then MarshalError else Ok(0)
    decreases n
  {
    if r.Item? {
      ComponentCompareReflexive(types[k], r.value);
      var next := ReadComponent(n - 1, allowPrefixes, r.rest);
      assert n - 1 == |types| - (k + 1);
      CompareFromSelf(types, allowPrefixes, k + 1, n - 1, next);
    }
  }

  /** `compare(b, b)` is 0 for every buffer that decodes, and the marshal error for every other. */
  lemma CompareSelf<V>(tt: TupleType<V>, b: Bytes)
    requires AllLawful(tt.types)
    ensures TupleCompare(tt, b, b)
      == if Components(|tt.types|, tt.allowPrefixes, b).Ok? then Ok(0) else MarshalError
  {
    CompareFromSelf(tt.types, tt.allowPrefixes, 0, |tt.types|, ReadComponent(|tt.types|, tt.allowPrefixes, b));
  }

  /** Swapping the two reads: the loop fails in the same cases and otherwise flips its sign. */
  lemma {:induction false} CompareFromSwap<V>(types: seq<ComponentType<V>>, allowPrefixes: bool, k: nat, r1: Read, r2: Read)
    requires AllLawful(types)
    ensures CompareFrom(types, allowPrefixes, k, r2, r1).Ok? == CompareFrom(types, allowPrefixes, k, r1, r2).Ok?
    ensures CompareFrom(types, allowPrefixes, k, r1, r2).Ok? ==>
      Sign(CompareFrom(types, allowPrefixes, k, r2, r1).value) == -Sign(CompareFrom(types, allowPrefixes, k, r1, r2).value)
    decreases |types| - k
  {
    if !r1.Corrupt? && !r2.Corrupt? && k < |types| && r1.Item? && r2.Item? && r1.value.Some? == r2.value.Some? {
      ComponentCompareAntisymmetric(types[k], r1.value, r2.value);
      CompareFromSwap(types, allowPrefixes, k + 1,
        ReadComponent(|types| - (k + 1), allowPrefixes, r1.rest),
        ReadComponent(|types| - (k + 1), allowPrefixes, r2.rest));
    }
  }

  /**
   * `compare(b2, b1)` fails exactly when `compare(b1, b2)` does, since both
   * cursors stop at the same point, and otherwise has the opposite sign.
   */
  lemma CompareSwap<V>(tt: TupleType<V>, b1: Bytes, b2: Bytes)
    requires AllLawful(tt.types)
    ensures TupleCompare(tt, b2, b1).Ok? == TupleCompare(tt, b1, b2).Ok?
    ensures TupleCompare(tt, b1, b2).Ok? ==> Sign(TupleCompare(tt, b2, b1).value) == -Sign(TupleCompare(tt, b1, b2).value)
  {
    CompareFromSwap(tt.types, tt.allowPrefixes, 0,
      ReadComponent(|tt.types|, tt.allowPrefixes, b1), ReadComponent(|tt.types|, tt.allowPrefixes, b2));
  }

  /** The order calls two lists equal exactly when they have the same length and compare equal position by position. */
  lemma {:induction false} CompareValuesZeroPointwise<V>(types: seq<ComponentType<V>>, xs: Value, ys: Value, k: nat)
    requires |xs| <= |types| && |ys| <= |types| && k <= |xs| && k <= |ys|
    ensures CompareValues(types, xs, ys, k) == 0
      <==> |xs| == |ys| && forall i | k <= i < |xs| :: ComponentCompare(types[i], xs[i], ys[i]) == 0
    decreases |xs| - k
  {
    if k < |xs| && k < |ys| {
      var c := ComponentCompare(types[k], xs[k], ys[k]);
      CompareValuesZeroPointwise(types, xs, ys, k + 1);
      if c == 0 && |xs| == |ys| {
        assert (forall i | k <= i < |xs| :: ComponentCompare(types[i], xs[i], ys[i]) == 0)
          <==> (forall i | k + 1 <= i < |xs| :: ComponentCompare(types[i], xs[i], ys[i]) == 0);
      }
    }
  }

  /** With byte-order-equal types, components compare equal exactly when they are the same. */
  lemma {:induction false} CompareValuesZero<V>(types: seq<ComponentType<V>>, xs: Value, ys: Value, k: nat)
    requires |xs| <= |types| && |ys| <= |types| && k <= |xs| && k <= |ys|
    requires forall i | 0 <= i < |types| :: types[i].isByteOrderEqual && ByteOrderEqualHolds(types[i])
    ensures CompareValues(types, xs, ys, k) == 0 <==> xs[k..] == ys[k..]
    decreases |types| - k
  {
    if k < |xs| && k < |ys| {
      CompareValuesZero(types, xs, ys, k + 1);
      assert xs[k..] == [xs[k]] + xs[k + 1..];
      assert ys[k..] == [ys[k]] + ys[k + 1..];
    } else if k < |xs| || k < |ys| {
      assert |xs[k..]| != |ys[k..]|;
    }
  }

  /** Encodings are equal exactly when the encoded value lists are. */
  lemma EncodingInjective<V>(tt: TupleType<V>, xs: Value, ys: Value)
    requires ArityOk(tt, |xs|) && ArityOk(tt, |ys|) && Encodable(xs) && Encodable(ys)
    ensures Encoding(xs) == Encoding(ys) <==> xs == ys
  {
    RoundTrip(tt, xs);
    RoundTrip(tt, ys);
  }

  /**
   * `equal` on encodings is `compare == 0` on their components, whichever
   * path it takes: the byte-equality fast path agrees with the ordering when
   * every component type is byte-order-equal.
   */
  lemma EqualOfEncodings<V>(tt: TupleType<V>, xs: Value, ys: Value)
    requires tt.Valid() && ArityOk(tt, |xs|) && ArityOk(tt, |ys|) && Encodable(xs) && Encodable(ys)
    requires forall i | 0 <= i < |tt.types| :: ByteOrderEqualHolds(tt.types[i])
    ensures Equal(tt, Encoding(xs), Encoding(ys)) == Ok(CompareValues(tt.types, xs, ys, 0) == 0)
  {
    if tt.byteOrderEqual {
      EncodingInjective(tt, xs, ys);
      CompareValuesZero(tt.types, xs, ys, 0);
      assert xs[0..] == xs && ys[0..] == ys;
    } else {
      CompareOfEncodings(tt, xs, ys);
    }
  }

  /** The bytes of a NULL and of a present value: the NULL sorts first. */
  lemma NullSortsFirst<V>(tt: TupleType<V>, payload: Bytes)
    requires 0 < |tt.types| && (tt.allowPrefixes || |tt.types| == 1) && |payload| <= INT32_MAX
    ensures TupleCompare(tt, Encoding([None]), Encoding([Some(payload)])) == Ok(-1)
  {
    var xs: Value := [None];
    var ys: Value := [Some(payload)];
    CompareOfEncodings(tt, xs, ys);
  }

  /**
   * `(5, NULL)` against `(3, "x")` with a first type ordering `00 00 00 05`
   * after `00 00 00 03`: the first component decides, with that type's result.
   */
  lemma CompareExample<V>(tt: TupleType<V>)
    requires |tt.types| == 2
    requires tt.types[0].compare([0, 0, 0, 5], [0, 0, 0, 3]) > 0
    ensures TupleCompare(tt, Encoding([Some([0, 0, 0, 5]), None]), Encoding([Some([0, 0, 0, 3]), Some([120])]))
      == Ok(tt.types[0].compare([0, 0, 0, 5], [0, 0, 0, 3]))
  {
    var xs: Value := [Some([0, 0, 0, 5]), None];
    var ys: Value := [Some([0, 0, 0, 3]), Some([120])];
    CompareOfEncodings(tt, xs, ys);
  }
}
