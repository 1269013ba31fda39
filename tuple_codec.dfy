/**
 * The composite-key codec `tuple_type<AllowPrefixes>`: a fixed list of
 * component types and a mode (full tuples, or prefixes that may stop before
 * the last component). A tuple value is a list of optional byte strings, one
 * per component, and its encoding is, per component, a 4-byte signed
 * big-endian length followed by that many payload bytes; a NULL component is
 * the length -1 with no payload.
 */
module TupleCodec {
  import opened Wrappers
  import opened Serialization
  import opened ComponentTypes

  /** `tuple_type::value_type`: one optional byte string per component. */
  type Value = seq<Option<Bytes>>

  /**
   * A codec: the component types, the cached "every component is
   * byte-order-equal" flag, and the `AllowPrefixes` mode.
   */
  datatype TupleType<-V> = TupleType(
    types: seq<ComponentType<V>>,
    byteOrderEqual: bool,
    allowPrefixes: bool)
  {
    /** The cached flag is the one the constructor computes. */
    predicate Valid() {
      byteOrderEqual == AllByteOrderEqual(types)
    }
  }

  /** `std::all_of` over `is_byte_order_equal`, as the constructor computes it. */
  function AllByteOrderEqual<V>(types: seq<ComponentType<V>>): (r: bool)
    ensures r <==> forall i | 0 <= i < |types| :: types[i].isByteOrderEqual
  {
    if types == [] then true
    else
      var r := types[0].isByteOrderEqual && AllByteOrderEqual(types[1..]);
      assert forall i | 1 <= i < |types| :: types[i] == types[1..][i - 1];
      r
  }

  /** The `tuple_type(types)` constructor. */
  function NewTupleType<V>(types: seq<ComponentType<V>>, allowPrefixes: bool): (tt: TupleType<V>)
    ensures tt.Valid()
    ensures tt.types == types && tt.allowPrefixes == allowPrefixes
    ensures tt.byteOrderEqual <==> forall i | 0 <= i < |types| :: types[i].isByteOrderEqual
  {
    TupleType(types, AllByteOrderEqual(types), allowPrefixes)
  }

  /** `as_prefix`: the prefix-mode codec over the same component types. */
  function AsPrefix<V>(tt: TupleType<V>): (pt: TupleType<V>)
    ensures pt.Valid() && pt.allowPrefixes
    ensures pt.types == tt.types
    ensures tt.Valid() ==> pt.byteOrderEqual == tt.byteOrderEqual
  {
    NewTupleType(tt.types, true)
  }

  /** `is_byte_order_comparable`: never, since lengths are signed. */
  function IsByteOrderComparable<V>(tt: TupleType<V>): (b: bool) {
    false
  }

  /** The arity rule `serialize_value` asserts. */
  predicate ArityOk<V>(tt: TupleType<V>, count: nat) {
    if tt.allowPrefixes then count <= |tt.types| else count == |tt.types|
  }

  /** A component fits the signed 32-bit length field (NULL always does). */
  predicate Fits(x: Option<Bytes>) {
    x.Some? ==> |x.value| <= INT32_MAX
  }

  /** Every component fits the signed 32-bit length field. */
  predicate Encodable(values: Value) {
    forall i {:trigger Fits(values[i])} | 0 <= i < |values| :: Fits(values[i])
  }

  // ---------------------------------------------------------------------------
  // Encoding

  /** The bytes of one component: its length field, then its payload. */
  function ComponentEncoding(x: Option<Bytes>): (b: Bytes)
    requires Fits(x)
  {
    match x
    case None => LengthField(-1)
    case Some(payload) => LengthField(|payload|) + payload
  }

  /** The wire format of a tuple value: its components' encodings, in order. */
  function Encoding(values: Value): (b: Bytes)
    requires Encodable(values)
  {
    if values == [] then [] else ComponentEncoding(values[0]) + Encoding(values[1..])
  }

  /** Every suffix of an encodable list is encodable. */
  lemma EncodableSuffix(values: Value, i: nat)
    requires Encodable(values) && i <= |values|
    ensures Encodable(values[i..])
  {
    forall j | 0 <= j < |values| - i
      ensures Fits(values[i..][j])
    {
      assert values[i..][j] == values[i + j];
    }
  }

  /** Joining two encodable lists gives an encodable list. */
  lemma EncodableConcat(xs: Value, ys: Value)
    requires Encodable(xs) && Encodable(ys)
    ensures Encodable(xs + ys)
  {
    forall i | 0 <= i < |xs + ys|
      ensures Fits((xs + ys)[i])
    {
      if i < |xs| {
        assert (xs + ys)[i] == xs[i];
      } else {
        assert (xs + ys)[i] == ys[i - |xs|];
      }
    }
  }

  /** The encoding of two lists joined is their encodings joined. */
  lemma {:induction false} EncodingConcat(xs: Value, ys: Value)
    requires Encodable(xs) && Encodable(ys)
    ensures Encodable(xs + ys)
    ensures Encoding(xs + ys) == Encoding(xs) + Encoding(ys)
  {
    EncodableConcat(xs, ys);
    if xs == [] {
      assert xs + ys == ys;
    } else {
      var zs := xs + ys;
      var t := xs[1..];
      EncodableSuffix(xs, 1);
      EncodingConcat(t, ys);
      ConsConcat(xs, ys);
      EncodingCons(zs);
      EncodingCons(xs);
      AppendAssoc(ComponentEncoding(xs[0]), Encoding(t), Encoding(ys));
    }
  }

  /** The encoding of a non-empty list: its first component's bytes, then the rest's. */
  lemma EncodingCons(zs: Value)
    requires Encodable(zs) && zs != []
    ensures Fits(zs[0]) && Encodable(zs[1..])
    ensures Encoding(zs) == ComponentEncoding(zs[0]) + Encoding(zs[1..])
  {
    EncodableSuffix(zs, 1);
  }

  /** The head and tail of two lists joined, the first non-empty. */
  lemma ConsConcat(xs: Value, ys: Value)
    requires xs != []
    ensures (xs + ys)[0] == xs[0] && (xs + ys)[1..] == xs[1..] + ys
  {
    assert (xs + ys)[1..] == xs[1..] + ys;
  }

  /** Joining byte strings is associative. */
  lemma AppendAssoc(a: Bytes, b: Bytes, c: Bytes)
    ensures a + (b + c) == (a + b) + c
  {
  }

  /** Encoding a split value gives the two encodings side by side. */
  lemma EncodingSplit(values: Value, i: nat)
    requires Encodable(values) && i <= |values|
    ensures Encoding(values) == Encoding(values[..i]) + Encoding(values[i..])
  {
    assert values == values[..i] + values[i..];
    EncodingConcat(values[..i], values[i..]);
  }

  /** Encoding one more component appends that component's bytes. */
  lemma EncodingPrefixStep(values: Value, i: nat)
    requires Encodable(values) && i < |values|
    ensures Encoding(values[..i + 1]) == Encoding(values[..i]) + ComponentEncoding(values[i])
    ensures |Encoding(values[..i + 1])| <= |Encoding(values)|
  {
    EncodingSplit(values, i + 1);
    EncodingSplit(values[..i + 1], i);
    assert values[..i + 1][..i] == values[..i];
    assert values[..i + 1][i..] == [values[i]];
    assert Encoding([values[i]]) == ComponentEncoding(values[i]) + Encoding([]);
  }

  /** Writes `write<uint32_t>(out, u)`: four big-endian bytes at `pos`. */
  method WriteUint32(out: array<byte>, pos: nat, u: nat) returns (next: nat)
    requires u < UINT32_LIMIT && pos + 4 <= out.Length
    modifies out
    ensures next == pos + 4
    ensures forall k | pos <= k < next :: out[k] == BigEndian4(u)[k - pos]
    ensures forall k | 0 <= k < out.Length && !(pos <= k < next) :: out[k] == old(out[k])
  {
    var b := BigEndian4(u);
    out[pos] := b[0];
    out[pos + 1] := b[1];
    out[pos + 2] := b[2];
    out[pos + 3] := b[3];
    next := pos + 4;
  }

  /** `std::copy(src.begin(), src.end(), out)` with `out` at `pos`. */
  method CopyInto(out: array<byte>, pos: nat, src: Bytes) returns (next: nat)
    requires pos + |src| <= out.Length
    modifies out
    ensures next == pos + |src|
    ensures forall k | pos <= k < next :: out[k] == src[k - pos]
    ensures forall k | 0 <= k < out.Length && !(pos <= k < next) :: out[k] == old(out[k])
  {
    for j := 0 to |src|
      invariant forall k | pos <= k < pos + j :: out[k] == src[k - pos]
      invariant forall k | 0 <= k < out.Length && !(pos <= k < pos + j) :: out[k] == old(out[k])
    {
      out[pos + j] := src[j];
    }
    next := pos + |src|;
  }

  /**
   * The loop body of `serialize_value`: after the bytes `done` already written
   * from `start`, one component's length field and payload.
   */
  method WriteComponent(out: array<byte>, start: nat, pos: nat, x: Option<Bytes>, ghost done: Bytes)
    returns (next: nat)
    requires Fits(x)
    requires pos == start + |done| && pos + |ComponentEncoding(x)| <= out.Length
    requires forall k | start <= k < pos :: out[k] == done[k - start]
    modifies out
    ensures next == pos + |ComponentEncoding(x)|
    ensures forall k | start <= k < next :: out[k] == (done + ComponentEncoding(x))[k - start]
    ensures forall k | 0 <= k < out.Length && !(start <= k < next) :: out[k] == old(out[k])
  {
    ghost var enc := ComponentEncoding(x);
    match x {
      case None =>
        next := WriteUint32(out, pos, ToUint32(-1));
      case Some(payload) =>
        var mid := WriteUint32(out, pos, ToUint32(|payload|));
        next := CopyInto(out, mid, payload);
    }
    forall k | start <= k < next
      ensures out[k] == (done + enc)[k - start]
    {
      if k < pos {
        assert (done + enc)[k - start] == done[k - start];
      } else {
        assert (done + enc)[k - start] == enc[k - pos];
      }
    }
  }

  /**
   * `serialize_value(values, out)`: writes the encoding of `values` into `out`
   * from `start` on, advancing the output position component by component.
   */
  method SerializeInto<V>(tt: TupleType<V>, values: Value, out: array<byte>, start: nat) returns (end: nat)
    requires ArityOk(tt, |values|) && Encodable(values)
    requires start + |Encoding(values)| <= out.Length
    modifies out
    ensures end == start + |Encoding(values)|
    ensures out[start..end] == Encoding(values)
    ensures forall k | 0 <= k < out.Length && !(start <= k < end) :: out[k] == old(out[k])
  {
    var pos := start;
    ghost var total := start + |Encoding(values)|;
    ghost var done: Bytes := [];
    for i := 0 to |values|
      invariant done == Encoding(values[..i])
      invariant pos == start + |done| <= total
      invariant forall k | start <= k < pos :: out[k] == done[k - start]
      invariant forall k | 0 <= k < out.Length && !(start <= k < pos) :: out[k] == old(out[k])
    {
      EncodingPrefixStep(values, i);
      pos := WriteComponent(out, start, pos, values[i], done);
      done := done + ComponentEncoding(values[i]);
    }
    assert values[..|values|] == values;
    assert out[start..pos] == done;
    end := pos;
  }

  /**
   * `serialized_size`: the length of the encoding, accumulated without writing
   * (4 bytes per NULL, 4 plus the payload length per present component).
   */
  method SerializedSize(values: Value) returns (len: nat)
    requires Encodable(values)
    ensures len == |Encoding(values)|
  {
    len := 0;
    for i := 0 to |values|
      invariant len == |Encoding(values[..i])|
    {
      EncodingPrefixStep(values, i);
      match values[i] {
        case None =>
          len := len + 4;
        case Some(payload) =>
          len := len + 4 + |payload|;
      }
    }
    assert values[..|values|] == values;
  }

  /**
   * The owning `serialize_value(values)`: a buffer of `serialized_size` bytes
   * filled by the writing loop. What it produces decodes back to `values`.
   */
  method SerializeValue<V>(tt: TupleType<V>, values: Value) returns (b: Bytes)
    requires ArityOk(tt, |values|) && Encodable(values)
    ensures b == Encoding(values)
    ensures Components(|tt.types|, tt.allowPrefixes, b) == Ok(values)
  {
    var size := SerializedSize(values);
    var out := new byte[size];
    var end := SerializeInto(tt, values, out, 0);
    b := out[..];
    assert b == out[0..end];
    RoundTrip(tt, values);
  }

  /** The values `decompose` turns into byte strings, one per component type. */
  function Decomposed<V>(types: seq<ComponentType<V>>, values: seq<V>): (r: Value)
    requires |values| <= |types|
  {
    seq(|values|, i requires 0 <= i < |values| => Some(types[i].decompose(values[i])))
  }

  /**
   * `serialize_value_deep`: each logical value is decomposed by the type at
   * its position, and the resulting present components are serialized.
   */
  method SerializeValueDeep<V>(tt: TupleType<V>, values: seq<V>) returns (b: Bytes)
    requires ArityOk(tt, |values|)
    requires forall i | 0 <= i < |values| :: |tt.types[i].decompose(values[i])| <= INT32_MAX
    ensures b == Encoding(Decomposed(tt.types, values))
    ensures Components(|tt.types|, tt.allowPrefixes, b) == Ok(Decomposed(tt.types, values))
  {
    var partial: Value := [];
    for i := 0 to |values|
      invariant partial == Decomposed(tt.types, values[..i])
    {
      partial := partial + [Some(tt.types[i].decompose(values[i]))];
    }
    assert values[..|values|] == values;
    b := SerializeValue(tt, partial);
  }

  // ---------------------------------------------------------------------------
  // Decoding

  /** What one `read_current` finds: the end, a component and the rest, or corruption. */
  datatype Read = End | Item(value: Option<Bytes>, rest: Bytes) | Corrupt

  /** A read state a cursor with `typesLeft` types to go can be in. */
  predicate ReadableAt(typesLeft: nat, allowPrefixes: bool, r: Read) {
    && !r.Corrupt?
    && (r.Item? ==> typesLeft > 0)
    && (r.End? && !allowPrefixes ==> typesLeft == 0)
  }

  /**
   * `iterator::read_current` on a view `v` with `typesLeft` component types
   * still to read: the end of the tuple, one component and the bytes after it,
   * or a marshal error.
   */
  function ReadComponent(typesLeft: nat, allowPrefixes: bool, v: Bytes): (r: Read)
    ensures !r.Corrupt? ==> ReadableAt(typesLeft, allowPrefixes, r)
    ensures r.End? ==> |v| == 0
    ensures r.Item? ==> |r.rest| < |v|
  {
    if typesLeft == 0 then
      if v != [] then Corrupt else End
    else if v == [] then
      if allowPrefixes then End else Corrupt
    else
      match ReadInt32(v)
      case None => Corrupt
      case Some((len, after)) =>
        if len < 0 then Item(None, after)
        else if |after| < len then Corrupt
        else Item(Some(after[..len]), after[len..])
  }

  /** `[x]` in front of a decoded list, or the error it carries. */
  function Prepend(x: Option<Bytes>, r: Result<Value>): (res: Result<Value>) {
    match r
    case Ok(xs) => Ok([x] + xs)
    case MarshalError => MarshalError
  }

  /** `xs` in front of a decoded list, or the error it carries. */
  function Concat(xs: Value, r: Result<Value>): (res: Result<Value>) {
    match r
    case Ok(ys) => Ok(xs + ys)
    case MarshalError => MarshalError
  }

  lemma ConcatPrepend(xs: Value, x: Option<Bytes>, r: Result<Value>)
    ensures Concat(xs, Prepend(x, r)) == Concat(xs + [x], r)
  {
    if r.Ok? {
      assert xs + ([x] + r.value) == (xs + [x]) + r.value;
    }
  }

  /**
   * Every component a cursor produces from the view `v` with `n` types to go,
   * until it ends; a marshal error anywhere makes the whole decoding fail.
   */
  function Components(n: nat, allowPrefixes: bool, v: Bytes): (r: Result<Value>)
    ensures r.Ok? ==> |r.value| <= n && (!allowPrefixes ==> |r.value| == n)
  {
    match ReadComponent(n, allowPrefixes, v)
    case Corrupt => MarshalError
    case End => Ok([])
    case Item(x, rest) => Prepend(x, Components(n - 1, allowPrefixes, rest))
  }

  /** The components from a cursor whose current read produced `r`. */
  function ComponentsFrom(n: nat, allowPrefixes: bool, r: Read): (res: Result<Value>)
    requires ReadableAt(n, allowPrefixes, r)
    ensures res.Ok? ==> |res.value| <= n && (!allowPrefixes ==> |res.value| == n)
  {
    match r
    case End => Ok([])
    case Item(x, rest) => Prepend(x, Components(n - 1, allowPrefixes, rest))
  }

  /**
   * The decoding cursor `tuple_type::iterator`: the number of component types
   * still to read (counting the current one), the unread view, the current
   * component, and whether the cursor has reached the end.
   */
  class Cursor {
    const allowPrefixes: bool
    var typesLeft: nat
    var view: Bytes
    var current: Option<Bytes>
    var exhausted: bool

    /** What the last read produced. */
    function State(): (r: Read)
      reads this
    {
      if exhausted then End else Item(current, view)
    }

    ghost predicate Valid()
      reads this
    {
      ReadableAt(typesLeft, allowPrefixes, State())
    }

    /** The components still to come, the current one first. */
    ghost function Remaining(): (r: Result<Value>)
      reads this
      requires Valid()
    {
      ComponentsFrom(typesLeft, allowPrefixes, State())
    }

    /** Sets up a cursor over `v` before its first read. */
    constructor (typesLeft: nat, allowPrefixes: bool, v: Bytes)
      ensures this.typesLeft == typesLeft && this.allowPrefixes == allowPrefixes
      ensures view == v && !exhausted
    {
      this.typesLeft := typesLeft;
      this.allowPrefixes := allowPrefixes;
      view := v;
      current := None;
      exhausted := false;
    }

    /**
     * `read_current`: decodes the next component from the view, or reaches
     * the end; `ok` is false where the source throws `marshal_exception`.
     */
    method ReadCurrent() returns (ok: bool)
      requires !exhausted
      modifies this
      ensures typesLeft == old(typesLeft)
      ensures ok <==> !ReadComponent(typesLeft, allowPrefixes, old(view)).Corrupt?
      ensures ok ==> Valid() && State() == ReadComponent(typesLeft, allowPrefixes, old(view))
    {
      if typesLeft == 0 {
        if view != [] {
          return false;
        }
        view := [];
        exhausted := true;
        return true;
      }
      if view == [] {
        if allowPrefixes {
          view := [];
          exhausted := true;
          return true;
        }
        return false;
      }
      var read := ReadInt32(view);
      if read.None? {
        return false;
      }
      var (len, after) := read.value;
      view := after;
      if len < 0 {
        current := None;
      } else {
        if |view| < len {
          return false;
        }
        current := Some(view[..len]);
        view := view[len..];
      }
      return true;
    }

    /** `operator++`: one type fewer to go, then the next read. */
    method Next() returns (ok: bool)
      requires Valid() && !exhausted
      modifies this
      ensures typesLeft == old(typesLeft) - 1
      ensures ok <==> !ReadComponent(typesLeft, allowPrefixes, old(view)).Corrupt?
      ensures ok ==> Valid() && State() == ReadComponent(typesLeft, allowPrefixes, old(view))
      ensures old(Remaining()) == Prepend(old(current), if ok then Remaining() else MarshalError)
    {
      ghost var before := Remaining();
      ghost var rest := Components(typesLeft - 1, allowPrefixes, view);
      assert before == Prepend(current, rest);
      typesLeft := typesLeft - 1;
      ok := ReadCurrent();
      assert ok ==> rest == Remaining();
    }
  }

  /** `tuple_type::begin(v)`: a fresh cursor over `v` after its first read. */
  method Begin<V>(tt: TupleType<V>, v: Bytes) returns (c: Cursor, ok: bool)
    ensures fresh(c) && c.allowPrefixes == tt.allowPrefixes && c.typesLeft == |tt.types|
    ensures ok <==> !ReadComponent(|tt.types|, tt.allowPrefixes, v).Corrupt?
    ensures ok ==> c.Valid() && c.State() == ReadComponent(|tt.types|, tt.allowPrefixes, v)
    ensures ok ==> c.Remaining() == Components(|tt.types|, tt.allowPrefixes, v)
  {
    c := new Cursor(|tt.types|, tt.allowPrefixes, v);
    ok := c.ReadCurrent();
  }

  /**
   * `deserialize_value`: runs a cursor over `v` to its end and collects every
   * component; a malformed buffer yields the marshal error, never a partial list.
   */
  method DeserializeValue<V>(tt: TupleType<V>, v: Bytes) returns (r: Result<Value>)
    ensures r == Components(|tt.types|, tt.allowPrefixes, v)
  {
    var c, ok := Begin(tt, v);
    if !ok {
      return MarshalError;
    }
    var result: Value := [];
    assert c.Remaining().Ok? ==> [] + c.Remaining().value == c.Remaining().value;
    while !c.exhausted
      invariant fresh(c) && c.Valid()
      invariant Components(|tt.types|, tt.allowPrefixes, v) == Concat(result, c.Remaining())
      decreases c.typesLeft
    {
      ghost var before := result;
      ghost var cur := c.current;
      result := result + [c.current];
      ok := c.Next();
      if !ok {
        return MarshalError;
      }
      ConcatPrepend(before, cur, c.Remaining());
    }
    assert result + [] == result;
    return Ok(result);
  }

  /** `is_full` (prefix mode): whether the cursor produces one component per type. */
  function IsFull<V>(tt: TupleType<V>, v: Bytes): (r: Result<bool>)
    requires tt.allowPrefixes
  {
    match Components(|tt.types|, tt.allowPrefixes, v)
    case Ok(xs) => Ok(|xs| == |tt.types|)
    case MarshalError => MarshalError
  }

  // ---------------------------------------------------------------------------
  // Round trip and rejection of malformed buffers

  /** A component's encoding, followed by anything, reads back as that component. */
  lemma ReadComponentOfEncoding(n: nat, allowPrefixes: bool, x: Option<Bytes>, w: Bytes)
    requires n > 0 && Fits(x)
    ensures ReadComponent(n, allowPrefixes, ComponentEncoding(x) + w) == Item(x, w)
  {
    match x
    case None =>
      ReadLengthField(-1, w);
    case Some(payload) =>
      assert ComponentEncoding(x) + w == LengthField(|payload|) + (payload + w);
      ReadLengthField(|payload|, payload + w);
      assert (payload + w)[..|payload|] == payload;
      assert (payload + w)[|payload|..] == w;
  }

  /** Any negative length field, not only the -1 the encoder writes, reads as a NULL with no payload. */
  lemma NegativeLengthIsNull(n: nat, allowPrefixes: bool, len: int, w: Bytes)
    requires n > 0 && INT32_MIN <= len < 0
    ensures ReadComponent(n, allowPrefixes, LengthField(len) + w) == Item(None, w)
  {
    ReadLengthField(len, w);
  }

  /** Decoding a component's encoding, then the rest with one type fewer. */
  lemma ComponentsOfComponent(n: nat, later: nat, allowPrefixes: bool, x: Option<Bytes>, rest: Bytes)
    requires n == later + 1 && Fits(x)
    ensures Components(n, allowPrefixes, ComponentEncoding(x) + rest)
         == Prepend(x, Components(later, allowPrefixes, rest))
  {
    ReadComponentOfEncoding(n, allowPrefixes, x, rest);
  }

  lemma ChainPrepend(a: Result<Value>, b: Result<Value>, c: Result<Value>, ys: Value)
    requires ys != []
    requires a == Prepend(ys[0], b)
    requires b == Concat(ys[1..], c)
    ensures a == Concat(ys, c)
  {
    if c.Ok? {
      assert [ys[0]] + (ys[1..] + c.value) == ys + c.value;
    }
  }

  lemma ConcatNothing(r: Result<Value>)
    ensures Concat([], r) == r
  {
    if r.Ok? {
      assert [] + r.value == r.value;
    }
  }

  /** The bytes a cursor sees once the first `i` components of `Encoding(values) + w` are consumed. */
  function SuffixBytes(values: Value, w: Bytes, i: nat): (b: Bytes)
    requires Encodable(values) && i <= |values|
    decreases |values| - i
  {
    if i == |values| then w else ComponentEncoding(values[i]) + SuffixBytes(values, w, i + 1)
  }

  /** The suffix after `i` components is the encoding of the remaining components, then `w`. */
  lemma {:induction false} SuffixBytesEncoding(values: Value, w: Bytes, i: nat)
    requires Encodable(values) && i <= |values|
    ensures Encodable(values[i..]) && SuffixBytes(values, w, i) == Encoding(values[i..]) + w
    decreases |values| - i
  {
    EncodableSuffix(values, i);
    if i < |values| {
      SuffixBytesEncoding(values, w, i + 1);
      var suffix := values[i..];
      assert suffix[0] == values[i];
      assert suffix[1..] == values[i + 1..];
      assert Encoding(suffix) + w == ComponentEncoding(values[i]) + (Encoding(values[i + 1..]) + w);
    } else {
      assert values[i..] == [];
    }
  }

  /** Each component encoding in a laid-out buffer decodes to that component. */
  lemma LaidOutSteps(n: nat, allowPrefixes: bool, values: Value, bufs: seq<Bytes>)
    requires Encodable(values) && |values| <= n && |bufs| == |values| + 1
    requires forall i {:trigger values[i]} | 0 <= i < |values| ::
      bufs[i] == ComponentEncoding(values[i]) + bufs[i + 1]
    ensures forall i {:trigger values[i]} | 0 <= i < |values| ::
      Components(n - i, allowPrefixes, bufs[i])
      == Prepend(values[i], Components(n - (i + 1), allowPrefixes, bufs[i + 1]))
  {
    forall i | 0 <= i < |values|
      ensures Components(n - i, allowPrefixes, bufs[i])
           == Prepend(values[i], Components(n - (i + 1), allowPrefixes, bufs[i + 1]))
    {
      ComponentsOfComponent(n - i, n - (i + 1), allowPrefixes, values[i], bufs[i + 1]);
    }
  }

  /** Chaining the per-component steps from position `k` (where `m` types remain) to the end. */
  lemma {:induction false} LaidOutChain(n: nat, allowPrefixes: bool, values: Value, bufs: seq<Bytes>, k: nat, m: nat)
    requires |values| <= n && |bufs| == |values| + 1 && k <= |values| && m == n - k
    requires forall i {:trigger values[i]} | 0 <= i < |values| ::
      Components(n - i, allowPrefixes, bufs[i])
      == Prepend(values[i], Components(n - (i + 1), allowPrefixes, bufs[i + 1]))
    ensures Components(m, allowPrefixes, bufs[k])
         == Concat(values[k..], Components(n - |values|, allowPrefixes, bufs[|values|]))
    decreases |values| - k
  {
    if k == |values| {
      assert values[k..] == [];
      ConcatNothing(Components(m, allowPrefixes, bufs[k]));
    } else {
      LaidOutChain(n, allowPrefixes, values, bufs, k + 1, n - (k + 1));
      assert values[k] == values[k..][0];
      assert values[k..][1..] == values[k + 1..];
      ChainPrepend(Components(m, allowPrefixes, bufs[k]),
        Components(n - (k + 1), allowPrefixes, bufs[k + 1]),
        Components(n - |values|, allowPrefixes, bufs[|values|]), values[k..]);
    }
  }

  /** The suffixes of `Encoding(values) + w` at each component boundary, first to last. */
  lemma SuffixLayout(values: Value, w: Bytes) returns (bufs: seq<Bytes>)
    requires Encodable(values)
    ensures |bufs| == |values| + 1
    ensures bufs[0] == Encoding(values) + w && bufs[|values|] == w
    ensures forall i {:trigger values[i]} | 0 <= i < |values| ::
      bufs[i] == ComponentEncoding(values[i]) + bufs[i + 1]
  {
    bufs := seq(|values| + 1, i requires 0 <= i <= |values| => SuffixBytes(values, w, i));
    SuffixBytesEncoding(values, w, 0);
    assert values[0..] == values;
  }

  /** Decoding a laid-out buffer yields its components, then whatever the rest decodes to. */
  lemma LaidOutDecode(n: nat, allowPrefixes: bool, values: Value, bufs: seq<Bytes>)
    requires Encodable(values) && |values| <= n && |bufs| == |values| + 1
    requires forall i {:trigger values[i]} | 0 <= i < |values| ::
      bufs[i] == ComponentEncoding(values[i]) + bufs[i + 1]
    ensures Components(n, allowPrefixes, bufs[0])
         == Concat(values, Components(n - |values|, allowPrefixes, bufs[|values|]))
  {
    LaidOutSteps(n, allowPrefixes, values, bufs);
    LaidOutChain(n, allowPrefixes, values, bufs, 0, n);
  }

  /**
   * The reads a cursor makes along a laid-out buffer: with `n - i` types to go
   * at position `i` it finds `values[i]` followed by `bufs[i + 1]`, and after
   * the last component it reaches the end.
   */
  ghost predicate ReadsAt(n: nat, allowPrefixes: bool, values: Value, bufs: seq<Bytes>)
    requires |values| <= n && |bufs| == |values| + 1
  {
    && (forall i {:trigger values[i]} | 0 <= i < |values| ::
         ReadComponent(n - i, allowPrefixes, bufs[i]) == Item(values[i], bufs[i + 1]))
    && ReadComponent(n - |values|, allowPrefixes, bufs[|values|]) == End
  }

  /** The cursor reads along the encoding of a value list of admissible arity. */
  lemma EncodingReads(n: nat, allowPrefixes: bool, values: Value) returns (bufs: seq<Bytes>)
    requires Encodable(values) && |values| <= n && (allowPrefixes || |values| == n)
    ensures |bufs| == |values| + 1 && bufs[0] == Encoding(values)
    ensures ReadsAt(n, allowPrefixes, values, bufs)
  {
    bufs := SuffixLayout(values, []);
    forall i | 0 <= i < |values|
      ensures ReadComponent(n - i, allowPrefixes, bufs[i]) == Item(values[i], bufs[i + 1])
    {
      ReadComponentOfEncoding(n - i, allowPrefixes, values[i], bufs[i + 1]);
    }
    assert Encoding(values) + [] == Encoding(values);
  }

  /** A first read in front of the reads along the rest of the buffer. */
  lemma ReadsAtCons(n: nat, m: nat, allowPrefixes: bool, b: Bytes, x: Option<Bytes>, ys: Value, tail: seq<Bytes>)
    requires n == m + 1 && |ys| <= m && |tail| == |ys| + 1
    requires ReadComponent(n, allowPrefixes, b) == Item(x, tail[0])
    requires ReadsAt(m, allowPrefixes, ys, tail)
    ensures ReadsAt(n, allowPrefixes, [x] + ys, [b] + tail)
  {
    var values, bufs := [x] + ys, [b] + tail;
    forall i | 0 < i < |values|
      ensures ReadComponent(n - i, allowPrefixes, bufs[i]) == Item(values[i], bufs[i + 1])
    {
      assert n - i == m - (i - 1);
      assert values[i] == ys[i - 1] && bufs[i] == tail[i - 1] && bufs[i + 1] == tail[i];
    }
    assert n - |values| == m - |ys| && bufs[|values|] == tail[|ys|];
  }

  /**
   * Any buffer that decodes, canonical or not, is read the same way: the
   * cursor finds its decoded components one after the other, then the end.
   */
  lemma {:induction false} DecodedReads(n: nat, allowPrefixes: bool, b: Bytes, values: Value) returns (bufs: seq<Bytes>)
    requires Components(n, allowPrefixes, b) == Ok(values)
    ensures |values| <= n && |bufs| == |values| + 1 && bufs[0] == b
    ensures ReadsAt(n, allowPrefixes, values, bufs)
    decreases n
  {
    var r := ReadComponent(n, allowPrefixes, b);
    if r.End? {
      bufs := [b];
    } else {
      var ys := Components(n - 1, allowPrefixes, r.rest).value;
      var tail := DecodedReads(n - 1, allowPrefixes, r.rest, ys);
      ReadsAtCons(n, n - 1, allowPrefixes, b, r.value, ys, tail);
      bufs := [b] + tail;
    }
  }

  /**
   * Decoding an encoding followed by more bytes yields the encoded values,
   * then whatever the cursor makes of the rest with the remaining types.
   */
  lemma ComponentsOfEncoding(n: nat, allowPrefixes: bool, values: Value, w: Bytes)
    requires Encodable(values) && |values| <= n
    ensures Components(n, allowPrefixes, Encoding(values) + w)
         == Concat(values, Components(n - |values|, allowPrefixes, w))
  {
    var bufs := SuffixLayout(values, w);
    LaidOutDecode(n, allowPrefixes, values, bufs);
  }

  /**
   * Round trip: decoding the encoding of a value list of admissible arity
   * gives back exactly that list, NULL slots included; in prefix mode a short
   * list ends normally where its bytes end.
   */
  lemma RoundTrip<V>(tt: TupleType<V>, values: Value)
    requires ArityOk(tt, |values|) && Encodable(values)
    ensures Components(|tt.types|, tt.allowPrefixes, Encoding(values)) == Ok(values)
  {
    ComponentsOfEncoding(|tt.types|, tt.allowPrefixes, values, []);
    assert Encoding(values) + [] == Encoding(values);
    assert values + [] == values;
  }

  /** Bytes left over after every component type has been read are rejected. */
  lemma RejectsTrailingBytes<V>(tt: TupleType<V>, values: Value, extra: Bytes)
    requires |values| == |tt.types| && Encodable(values) && extra != []
    ensures Components(|tt.types|, tt.allowPrefixes, Encoding(values) + extra) == MarshalError
  {
    ComponentsOfEncoding(|tt.types|, tt.allowPrefixes, values, extra);
  }

  /** In full mode a buffer that ends before every component type is read is rejected. */
  lemma RejectsEarlyEnd<V>(tt: TupleType<V>, values: Value)
    requires !tt.allowPrefixes && |values| < |tt.types| && Encodable(values)
    ensures Components(|tt.types|, tt.allowPrefixes, Encoding(values)) == MarshalError
  {
    ComponentsOfEncoding(|tt.types|, tt.allowPrefixes, values, []);
    assert Encoding(values) + [] == Encoding(values);
  }

  /** A declared length larger than the bytes that follow it is rejected, in either mode. */
  lemma RejectsTruncatedPayload<V>(tt: TupleType<V>, values: Value, len: int, tail: Bytes)
    requires |values| < |tt.types| && Encodable(values)
    requires 0 <= len <= INT32_MAX && |tail| < len
    ensures Components(|tt.types|, tt.allowPrefixes, Encoding(values) + (LengthField(len) + tail)) == MarshalError
  {
    ComponentsOfEncoding(|tt.types|, tt.allowPrefixes, values, LengthField(len) + tail);
    ReadLengthField(len, tail);
  }

  /** The encoding of a list whose last component is present, cut just before that payload. */
  lemma LastPayloadSplit(values: Value)
    requires Encodable(values) && values != [] && values[|values| - 1].Some?
    ensures Encodable(values[..|values| - 1]) && Fits(values[|values| - 1])
    ensures var payload := values[|values| - 1].value;
      Encoding(values) == Encoding(values[..|values| - 1]) + (LengthField(|payload|) + payload)
  {
    var m := |values| - 1;
    EncodingPrefixStep(values, m);
    assert values[..m + 1] == values;
  }

  /** An encoding without its last byte: the last component's payload is one byte short. */
  lemma LastByteDropped(values: Value)
    requires Encodable(values) && values != [] && values[|values| - 1].Some? && values[|values| - 1].value != []
    ensures Encodable(values[..|values| - 1]) && Fits(values[|values| - 1])
    ensures var e := Encoding(values); var payload := values[|values| - 1].value;
      e[..|e| - 1] == Encoding(values[..|values| - 1]) + (LengthField(|payload|) + payload[..|payload| - 1])
  {
    LastPayloadSplit(values);
  }

  /**
   * Dropping the last byte of an encoding whose last component is present and
   * non-empty makes decoding fail instead of returning partial data.
   */
  lemma RejectsLastByteDropped<V>(tt: TupleType<V>, values: Value)
    requires ArityOk(tt, |values|) && Encodable(values)
    requires values != [] && values[|values| - 1].Some? && values[|values| - 1].value != []
    ensures var e := Encoding(values); Components(|tt.types|, tt.allowPrefixes, e[..|e| - 1]) == MarshalError
  {
    var payload := values[|values| - 1].value;
    LastByteDropped(values);
    RejectsTruncatedPayload(tt, values[..|values| - 1], |payload|, payload[..|payload| - 1]);
  }

  /** `is_full` on an encoding: true exactly when every component type has a value. */
  lemma IsFullOfEncoding<V>(tt: TupleType<V>, values: Value)
    requires tt.allowPrefixes && |values| <= |tt.types| && Encodable(values)
    ensures IsFull(tt, Encoding(values)) == Ok(|values| == |tt.types|)
  {
    RoundTrip(tt, values);
  }

  /** The wire bytes of the tuple (present `00 00 00 05`, NULL). */
  lemma EncodingExample()
    ensures Encoding([Some([0, 0, 0, 5]), None]) == [0, 0, 0, 4, 0, 0, 0, 5, 255, 255, 255, 255]
  {
    var v: Value := [Some([0, 0, 0, 5]), None];
    assert v[1..] == [None];
    assert v[1..][1..] == [];
  }
}
