/**
 * `is_prefix_of` and the prefix mode of `tuple_type`: whether the components
 * of an encoded prefix equal the leading components of an encoded value,
 * reading both buffers' length fields in place.
 */
module TuplePrefix {
  import opened Wrappers
  import opened Serialization
  import opened ComponentTypes
  import opened TupleCodec

  /**
   * The rest of the `is_prefix_of` loop from the type at index `k`, with the
   * unread `prefix` and `value` views. A short read, a payload running past
   * its view, or bytes left after the last type are marshal errors.
   */
  function PrefixFrom<V>(types: seq<ComponentType<V>>, k: nat, prefix: Bytes, value: Bytes): (r: Result<bool>)
    decreases |types| - k
  {
    if k >= |types| then
      if prefix != [] || value != [] then MarshalError else Ok(true)
    else if prefix == [] then Ok(true)
    else
      match (ReadInt32(prefix), ReadInt32(value))
      case (None, _) => MarshalError
      case (_, None) => MarshalError
      case (Some((len1, p)), Some((len2, v))) =>
        if (len1 < 0) != (len2 < 0) then Ok(false)
        else if len1 < 0 then PrefixFrom(types, k + 1, p, v)
        else if |p| < len1 || |v| < len2 then MarshalError
        else if !types[k].equal(p[..len1], v[..len2]) then Ok(false)
        else PrefixFrom(types, k + 1, p[len1..], v[len2..])
  }

  /**
   * `is_prefix_of(prefix, value)` (prefix mode only): consumes both views
   * component by component, stopping with true as soon as `prefix` is used up.
   */
  method IsPrefixOf<V>(tt: TupleType<V>, prefix: Bytes, value: Bytes) returns (r: Result<bool>)
    requires tt.allowPrefixes
    ensures r == PrefixFrom(tt.types, 0, prefix, value)
  {
    var p := prefix;
    var v := value;
    for k := 0 to |tt.types|
      invariant PrefixFrom(tt.types, 0, prefix, value) == PrefixFrom(tt.types, k, p, v)
    {
      if p == [] {
        return Ok(true);
      }
      var read1 := ReadInt32(p);
      var read2 := ReadInt32(v);
      if read1.None? || read2.None? {
        return MarshalError;
      }
      var (len1, rest1) := read1.value;
      var (len2, rest2) := read2.value;
      p := rest1;
      v := rest2;
      if (len1 < 0) != (len2 < 0) {
        return Ok(false);
      }
      if len1 >= 0 {
        if |p| < len1 || |v| < len2 {
          return MarshalError;
        }
        if !tt.types[k].equal(p[..len1], v[..len2]) {
          return Ok(false);
        }
        p := p[len1..];
        v := v[len2..];
      }
    }
    if p != [] || v != [] {
      return MarshalError;
    }
    return Ok(true);
  }

  /** Two components agree: both NULL, or both present and equal by the type's `equal`. */
  predicate Agree<V>(t: ComponentType<V>, x: Option<Bytes>, y: Option<Bytes>) {
    x.Some? == y.Some? && (x.Some? ==> t.equal(x.value, y.value))
  }

  /** One step over two component encodings: stop with false unless they agree, else go on. */
  lemma PrefixStep<V>(types: seq<ComponentType<V>>, k: nat, x: Option<Bytes>, y: Option<Bytes>, rest1: Bytes, rest2: Bytes)
    requires k < |types| && Fits(x) && Fits(y)
    ensures PrefixFrom(types, k, ComponentEncoding(x) + rest1, ComponentEncoding(y) + rest2)
      == if Agree(types[k], x, y) then PrefixFrom(types, k + 1, rest1, rest2) else Ok(false)
  {
    LengthThenPayload(x, rest1);
    LengthThenPayload(y, rest2);
  }

  /** The length field at the front of a component encoding, and the payload after it. */
  lemma LengthThenPayload(x: Option<Bytes>, rest: Bytes)
    requires Fits(x)
    ensures match x
      case None => ReadInt32(ComponentEncoding(x) + rest) == Some((-1, rest))
      case Some(a) =>
        && ReadInt32(ComponentEncoding(x) + rest) == Some((|a|, a + rest))
        && (a + rest)[..|a|] == a && (a + rest)[|a|..] == rest
  {
    match x
    case None =>
      ReadLengthField(-1, rest);
    case Some(a) =>
      assert ComponentEncoding(x) + rest == LengthField(|a|) + (a + rest);
      ReadLengthField(|a|, a + rest);
      assert (a + rest)[..|a|] == a;
      assert (a + rest)[|a|..] == rest;
  }

  /** Each step along two laid-out buffers, from their layouts. */
  lemma PrefixSteps<V>(types: seq<ComponentType<V>>, xs: Value, ys: Value, b1: seq<Bytes>, b2: seq<Bytes>)
    requires |xs| <= |ys| <= |types| && Encodable(xs) && Encodable(ys)
    requires |b1| == |xs| + 1 && |b2| == |ys| + 1
    requires forall i {:trigger xs[i]} | 0 <= i < |xs| :: b1[i] == ComponentEncoding(xs[i]) + b1[i + 1]
    requires forall i {:trigger ys[i]} | 0 <= i < |ys| :: b2[i] == ComponentEncoding(ys[i]) + b2[i + 1]
    ensures forall i {:trigger xs[i]} | 0 <= i < |xs| ::
      PrefixFrom(types, i, b1[i], b2[i])
      == if Agree(types[i], xs[i], ys[i]) then PrefixFrom(types, i + 1, b1[i + 1], b2[i + 1]) else Ok(false)
  {
    forall i | 0 <= i < |xs|
      ensures PrefixFrom(types, i, b1[i], b2[i])
        == if Agree(types[i], xs[i], ys[i]) then PrefixFrom(types, i + 1, b1[i + 1], b2[i + 1]) else Ok(false)
    {
      assert b2[i] == ComponentEncoding(ys[i]) + b2[i + 1];
      PrefixStep(types, i, xs[i], ys[i], b1[i + 1], b2[i + 1]);
    }
  }

  /** Chaining the steps from position `k`: false at the first disagreement, else whatever the end gives. */
  lemma {:induction false} PrefixChain<V>(types: seq<ComponentType<V>>, xs: Value, ys: Value,
    b1: seq<Bytes>, b2: seq<Bytes>, k: nat)
    requires |xs| <= |ys| <= |types| && |b1| == |xs| + 1 && |b2| == |ys| + 1 && k <= |xs|
    requires forall i {:trigger xs[i]} | 0 <= i < |xs| ::
      PrefixFrom(types, i, b1[i], b2[i])
      == if Agree(types[i], xs[i], ys[i]) then PrefixFrom(types, i + 1, b1[i + 1], b2[i + 1]) else Ok(false)
    ensures PrefixFrom(types, k, b1[k], b2[k])
      == if forall i | k <= i < |xs| :: Agree(types[i], xs[i], ys[i])
         then PrefixFrom(types, |xs|, b1[|xs|], b2[|xs|]) else Ok(false)
    decreases |xs| - k
  {
    if k < |xs| {
      PrefixChain(types, xs, ys, b1, b2, k + 1);
      assert (forall i | k <= i < |xs| :: Agree(types[i], xs[i], ys[i]))
        <==> Agree(types[k], xs[k], ys[k]) && (forall i | k + 1 <= i < |xs| :: Agree(types[i], xs[i], ys[i]));
    }
  }

  /**
   * `is_prefix_of` on an encoded prefix followed by `u` and an encoded value
   * followed by `w`: false at the first component that disagrees, otherwise
   * what the loop makes of `u` and the value's remaining bytes `rest` (`w`
   * itself when both lists have the same length, else the value's next
   * component encoding and the bytes `after` it).
   */
  lemma PrefixOfEncodings<V>(types: seq<ComponentType<V>>, xs: Value, ys: Value, u: Bytes, w: Bytes)
    returns (rest: Bytes, after: Bytes)
    requires |xs| <= |ys| <= |types| && Encodable(xs) && Encodable(ys)
    ensures |xs| == |ys| ==> rest == w
    ensures |xs| < |ys| ==> rest == ComponentEncoding(ys[|xs|]) + after
    ensures PrefixFrom(types, 0, Encoding(xs) + u, Encoding(ys) + w)
      == if forall i | 0 <= i < |xs| :: Agree(types[i], xs[i], ys[i])
         then PrefixFrom(types, |xs|, u, rest) else Ok(false)
  {
    var b1 := SuffixLayout(xs, u);
    var b2 := SuffixLayout(ys, w);
    PrefixSteps(types, xs, ys, b1, b2);
    PrefixChain(types, xs, ys, b1, b2, 0);
    rest := b2[|xs|];
    after := if |xs| < |ys| then b2[|xs| + 1] else w;
  }

  /**
   * On encodings, `is_prefix_of` never fails and is true exactly when every
   * component of the prefix agrees with the value's component at its position.
   */
  lemma IsPrefixOfEncodings<V>(tt: TupleType<V>, xs: Value, ys: Value)
    requires |xs| <= |ys| <= |tt.types| && Encodable(xs) && Encodable(ys)
    ensures PrefixFrom(tt.types, 0, Encoding(xs), Encoding(ys))
      == Ok(forall i | 0 <= i < |xs| :: Agree(tt.types[i], xs[i], ys[i]))
  {
    var rest, after := PrefixOfEncodings(tt.types, xs, ys, [], []);
    assert Encoding(xs) + [] == Encoding(xs);
    assert Encoding(ys) + [] == Encoding(ys);
  }

  /** With reflexive component `equal`, the encoding of any leading part of a value is a prefix of it. */
  lemma LeadingPartIsPrefix<V>(tt: TupleType<V>, ys: Value, n: nat)
    requires AllLawful(tt.types) && n <= |ys| <= |tt.types| && Encodable(ys)
    ensures Encodable(ys[..n])
    ensures PrefixFrom(tt.types, 0, Encoding(ys[..n]), Encoding(ys)) == Ok(true)
  {
    var xs := ys[..n];
    assert forall i | 0 <= i < |xs| :: xs[i] == ys[i];
    IsPrefixOfEncodings(tt, xs, ys);
    forall i | 0 <= i < |xs|
      ensures Agree(tt.types[i], xs[i], ys[i])
    {
      assert Lawful(tt.types[i]);
    }
  }

  /** Bytes after a full value, once every type is matched, are a marshal error. */
  lemma RejectsTrailingValueBytes<V>(tt: TupleType<V>, xs: Value, ys: Value, extra: Bytes)
    requires |xs| == |ys| == |tt.types| && Encodable(xs) && Encodable(ys) && extra != []
    requires forall i | 0 <= i < |xs| :: Agree(tt.types[i], xs[i], ys[i])
    ensures PrefixFrom(tt.types, 0, Encoding(xs), Encoding(ys) + extra) == MarshalError
  {
    var rest, after := PrefixOfEncodings(tt.types, xs, ys, [], extra);
    assert Encoding(xs) + [] == Encoding(xs);
  }

  /** Bytes after a full prefix, once every type is matched, are a marshal error. */
  lemma RejectsTrailingPrefixBytes<V>(tt: TupleType<V>, xs: Value, ys: Value, extra: Bytes)
    requires |xs| == |ys| == |tt.types| && Encodable(xs) && Encodable(ys) && extra != []
    requires forall i | 0 <= i < |xs| :: Agree(tt.types[i], xs[i], ys[i])
    ensures PrefixFrom(tt.types, 0, Encoding(xs) + extra, Encoding(ys)) == MarshalError
  {
    var rest, after := PrefixOfEncodings(tt.types, xs, ys, extra, []);
    assert Encoding(ys) + [] == Encoding(ys);
  }

  /**
   * A prefix component whose declared length runs past the prefix's bytes is
   * a marshal error when the value has a present component there.
   */
  lemma RejectsTruncatedPrefixPayload<V>(tt: TupleType<V>, xs: Value, ys: Value, len: int, tail: Bytes)
    requires |xs| < |ys| <= |tt.types| && Encodable(xs) && Encodable(ys)
    requires forall i | 0 <= i < |xs| :: Agree(tt.types[i], xs[i], ys[i])
    requires ys[|xs|].Some? && 0 <= len <= INT32_MAX && |tail| < len
    ensures PrefixFrom(tt.types, 0, Encoding(xs) + (LengthField(len) + tail), Encoding(ys)) == MarshalError
  {
    var rest, after := PrefixOfEncodings(tt.types, xs, ys, LengthField(len) + tail, []);
    assert Encoding(ys) + [] == Encoding(ys);
    ReadLengthField(len, tail);
    LengthThenPayload(ys[|xs|], after);
  }

  /**
   * A value component whose declared length runs past the value's bytes is a
   * marshal error when the prefix has a present component `x` there.
   */
  lemma RejectsTruncatedValuePayload<V>(tt: TupleType<V>, xs: Value, ys: Value, x: Option<Bytes>, len: int, tail: Bytes)
    requires |xs| == |ys| < |tt.types| && Encodable(xs) && Encodable(ys)
    requires forall i | 0 <= i < |xs| :: Agree(tt.types[i], xs[i], ys[i])
    requires x.Some? && Fits(x) && 0 <= len <= INT32_MAX && |tail| < len
    ensures PrefixFrom(tt.types, 0, Encoding(xs) + ComponentEncoding(x), Encoding(ys) + (LengthField(len) + tail))
      == MarshalError
  {
    var rest, after := PrefixOfEncodings(tt.types, xs, ys, ComponentEncoding(x), LengthField(len) + tail);
    ReadLengthField(len, tail);
    LengthThenPayload(x, []);
    assert ComponentEncoding(x) + [] == ComponentEncoding(x);
  }
}
