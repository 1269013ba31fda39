/**
 * The capabilities the tuple codec consumes from each component type
 * (`abstract_type`): compare, equal, hash, decompose and is_byte_order_equal.
 * Their implementations live outside the codec, so a component type is a value
 * carrying those operations, and the laws the codec relies on are stated as
 * predicates that lemmas assume.
 */
module ComponentTypes {
  import opened Serialization

  /** A component type; `V` is the type of the logical values `decompose` serializes. */
  datatype ComponentType<-V> = ComponentType(
    compare: (Bytes, Bytes) -> int,
    equal: (Bytes, Bytes) -> bool,
    hash: Bytes -> bv64,
    isByteOrderEqual: bool,
    decompose: V -> Bytes)

  function Sign(x: int): (r: int)
    ensures r == -1 || r == 0 || r == 1
    ensures (r < 0 <==> x < 0) && (r > 0 <==> x > 0)
  {
    if x < 0 then -1 else if x > 0 then 1 else 0
  }

  /**
   * The assumed laws of a component type: compare is a total preorder whose
   * result changes sign when its arguments are swapped, and equal is reflexive.
   */
  ghost predicate Lawful<V>(t: ComponentType<V>) {
    && (forall a :: t.compare(a, a) == 0)
    && (forall a, b :: Sign(t.compare(b, a)) == -Sign(t.compare(a, b)))
    && (forall a, b, c :: t.compare(a, b) <= 0 && t.compare(b, c) <= 0 ==> t.compare(a, c) <= 0)
    && (forall a :: t.equal(a, a))
  }

  ghost predicate AllLawful<V>(types: seq<ComponentType<V>>) {
    forall i | 0 <= i < |types| :: Lawful(types[i])
  }

  /** The hash of a component type agrees with its ordering's notion of equality. */
  ghost predicate HashRespectsCompare<V>(t: ComponentType<V>) {
    forall a, b :: t.compare(a, b) == 0 ==> t.hash(a) == t.hash(b)
  }

  /** A byte-order-equal type: compare-equality is byte equality. */
  ghost predicate ByteOrderEqualHolds<V>(t: ComponentType<V>) {
    t.isByteOrderEqual ==> forall a, b :: t.compare(a, b) == 0 <==> a == b
  }

  /** Chaining two `<=` steps gives `<=`, and strictly `<` when either step is strict. */
  lemma CompareChain<V>(t: ComponentType<V>, a: Bytes, b: Bytes, c: Bytes)
    requires Lawful(t)
    requires t.compare(a, b) <= 0 && t.compare(b, c) <= 0
    ensures t.compare(a, c) <= 0
    ensures t.compare(a, b) < 0 || t.compare(b, c) < 0 ==> t.compare(a, c) < 0
  {
    assert Sign(t.compare(c, a)) == -Sign(t.compare(a, c));
    assert Sign(t.compare(b, a)) == -Sign(t.compare(a, b));
    assert Sign(t.compare(c, b)) == -Sign(t.compare(b, c));
  }
}
