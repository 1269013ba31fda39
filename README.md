# Composite-key tuple codec

A Dafny model of `tuple_type<AllowPrefixes>` from `tuple.hh`: the codec for
multi-component keys. A codec holds an ordered list of component types and a
mode. In full mode every component is present (possibly NULL); in prefix mode
trailing components may be missing. A value is a list of optional byte
strings. Its wire form is, per component, a 4-byte signed big-endian length
followed by that many payload bytes; a NULL is the length −1 with no payload.

The project is split into these modules:

- `Wrappers` (`wrappers.dfy`): `Option` and `Result`. `MarshalError` stands
  for a thrown `marshal_exception`.
- `Serialization` (`serialization.dfy`): the 4-byte big-endian length field
  (`write<uint32_t>`, `read_simple<int32_t>`), two's-complement conversions
  and `compare_unsigned`.
- `ComponentTypes` (`component_types.dfy`): a component type (`abstract_type`)
  is a value carrying its `compare`, `equal`, `hash`, `decompose` and
  `is_byte_order_equal`. The laws the codec relies on are predicates that
  lemmas take as hypotheses:
  - compare is reflexive, flips sign when swapped, and is transitive;
  - equal is reflexive;
  - hash agrees with compare;
  - a byte-order-equal type's compare is byte equality.
- `TupleCodec` (`tuple_codec.dfy`):
  - the constructor, `as_prefix`, `is_byte_order_comparable`;
  - the writing loop of `serialize_value` over an array, `serialized_size`
    and `serialize_value_deep`;
  - the decoding cursor `iterator` as a class with `read_current` and
    `operator++`;
  - `deserialize_value` and `is_full`;
  - the round trip and the rejection of malformed buffers.
- `TupleCompare` (`tuple_compare.dfy`): `compare` (two cursors in lockstep),
  `less` and `equal`. It also defines the order on decoded values that
  `compare` computes on encodings, and proves that order reflexive,
  antisymmetric and transitive.
- `TupleHash` (`tuple_hash.dfy`): `hash`, and its agreement with `equal`.
- `TuplePrefix` (`tuple_prefix.dfy`): `is_prefix_of` on two views consumed in
  place, and its meaning on encodings.

Where the source changes state step by step, so does the model:
- `serialize_value` writes into an `array` through a moving position;
- the cursor is a class whose methods update `typesLeft`, `view`, `current`
  and `exhausted`;
- `serialized_size`, `hash`, `compare`, `deserialize_value` and
  `is_prefix_of` are loops.

Each loop method is proved equal to a reference function
(`Encoding`, `Components`, `TupleCompare`, `TupleHash`, `PrefixFrom`). The
properties are then lemmas about those functions.

`is_prefix_of` returns false, not a marshal error, when exactly one of the
two components at a position is NULL (tuple.hh:251-254).

## Model

| member | source | states |
|---|---|---|
| TupleCodec.NewTupleType | tuple.hh:26-31 | the byte-order-equal flag is set exactly when every component type is byte-order-equal |
| TupleCodec.AsPrefix | tuple.hh:39-41 | the prefix codec has the same component types, prefix mode, and the same byte-order-equal flag |
| TupleCodec.SerializeInto | tuple.hh:49-65 | for a list of admissible arity whose payloads fit an int32 length, writes exactly the encoding at the output position and advances it by its length; nothing else in the buffer changes |
| TupleCodec.WriteComponent | tuple.hh:56-64 | one loop turn appends the component's length field (−1 for NULL) and payload after what was already written |
| TupleCodec.SerializedSize | tuple.hh:157-169 | the accumulated size (4 per NULL, 4 + length per present component) equals the length of the encoding |
| TupleCodec.SerializeValue | tuple.hh:66-68 | the owning serializer returns the encoding, which the cursor decodes back to the same list |
| TupleCodec.SerializeValueDeep | tuple.hh:69-78 | serializes each value as decomposed by the type at its position, and the result decodes back to those decomposed components |
| TupleCodec.Cursor.ReadCurrent | tuple.hh:88-115 | the new cursor state is the reference read: end when the types run out on an empty view, or when the view is empty in prefix mode; NULL for a negative length; otherwise a payload of the declared length. It fails exactly on trailing bytes, an early end in full mode, a short length field or a truncated payload |
| TupleCodec.Cursor.Next | tuple.hh:122-126 | one type fewer, then the next read; the components still to come are the current one followed by the rest, or the marshal error |
| TupleCodec.Begin | tuple.hh:118-120 | a fresh cursor over the whole view, after its first read, whose remaining components are the decoding of the view |
| TupleCodec.DeserializeValue | tuple.hh:140-150 | returns every component the cursor produces, or the marshal error when any step fails, never a partial list |
| TupleCodec.RoundTrip | tuple.hh:140-150 | decoding the encoding of any list of admissible arity returns that list, NULL slots included; in prefix mode a short list ends where its bytes end |
| TupleCodec.ComponentsOfEncoding | tuple.hh:88-115 | an encoding followed by more bytes decodes to the encoded components, then whatever the remaining types make of the rest |
| TupleCodec.DecodedReads | tuple.hh:88-126 | any buffer that decodes, not only an encoding, is a chain of views from the buffer on, each read giving the next decoded component and the next view |
| TupleCodec.NegativeLengthIsNull | tuple.hh:104-106 | every negative length field, not only −1, reads as a NULL with no payload consumed |
| TupleCodec.RejectsTrailingBytes | tuple.hh:89-92 | bytes after a full-arity encoding make decoding fail |
| TupleCodec.RejectsEarlyEnd | tuple.hh:96-102 | in full mode, an encoding with fewer components than types makes decoding fail |
| TupleCodec.RejectsTruncatedPayload | tuple.hh:108-111 | a declared length larger than the bytes that follow makes decoding fail, in either mode |
| TupleCodec.RejectsLastByteDropped | tuple.hh:108-111 | dropping the last byte of an encoding whose last payload is non-empty makes decoding fail rather than return partial data |
| TupleCodec.IsFullOfEncoding | tuple.hh:277-280 | on an encoding in prefix mode, `is_full` is true exactly when the list has one component per type |
| TupleCodec.EncodingExample | tuple.hh:43-48 | the bytes of (`00 00 00 05`, NULL) are `00 00 00 04 00 00 00 05 FF FF FF FF` |
| Serialization.ReadLengthField | tuple.hh:104 | reading a written length field gives back the signed length and leaves the following bytes |
| Serialization.ReadInt32 | tuple.hh:104 | a length field can be read exactly when at least four bytes remain |
| Serialization.CompareUnsigned | tuple.hh:287 | the unsigned byte-wise comparison is 0 exactly on equal byte strings, and its sign is −1, 0 or 1 |
| TupleCompare.Compare | tuple.hh:187-219 | the two-cursor loop returns the reference result `TupleCompare`, including the marshal error of either cursor |
| TupleCompare.CompareCurrent | tuple.hh:197-216 | one loop turn either returns the reference result from this position on, or advances both cursors to the next reads of their old remaining views, one type fewer, leaving the rest of the comparison unchanged |
| TupleCompare.CompareOfEncodings | tuple.hh:197-218 | on two encodings, `compare` never fails and returns the order on their components: the first differing position decides, a shorter prefix sorts first, NULL before present, present values by the type's compare |
| TupleCompare.CompareOfDecoded | tuple.hh:187-218 | on any two buffers that decode, `compare` returns the order on their decoded components |
| TupleCompare.CompareExample | tuple.hh:197-213 | (5, NULL) against (3, "x") is decided by the first component, with the first type's result |
| TupleCompare.CompareSelf | tuple.hh:187-219 | with lawful types, `compare(b, b)` is 0 for every buffer that decodes and the marshal error for every other |
| TupleCompare.CompareSwap | tuple.hh:187-219 | with lawful types, swapping the buffers fails in exactly the same cases and otherwise flips the sign |
| TupleCompare.CompareValuesReflexive | tuple.hh:206-214 | the order on decoded values puts every list equal to itself |
| TupleCompare.CompareValuesAntisymmetric | tuple.hh:198-214 | swapping two decoded lists flips the sign of their comparison |
| TupleCompare.CompareValuesTransitive | tuple.hh:198-214 | `<=` on decoded lists is transitive |
| TupleCompare.LessStrictOrder | tuple.hh:170-172 | `less` on decoded lists is irreflexive and transitive |
| TupleCompare.LessOfEncodings | tuple.hh:170-172 | `less` of two encodings is `compare < 0` on their components, without error |
| TupleCompare.LessTransitive | tuple.hh:170-172 | with lawful types, `less` is transitive on any three buffers that decode |
| TupleCompare.PrefixSortsFirst | tuple.hh:198-200 | a proper leading part of a list sorts before the list |
| TupleCompare.NullSortsFirst | tuple.hh:206-208 | a NULL single component sorts before any present value, whatever its bytes |
| TupleCompare.Equal | tuple.hh:285-291 | with every type byte-order-equal, `equal` is byte equality |
| TupleCompare.EqualOfEncodings | tuple.hh:285-291 | on encodings, `equal` agrees with `compare == 0` on either path, given byte-order-equal types whose compare is byte equality |
| TupleCompare.EncodingInjective | tuple.hh:286-287 | two encodings are equal exactly when the encoded lists are |
| TupleCompare.CompareValuesZeroPointwise | tuple.hh:209-213 | two decoded lists compare equal exactly when they have the same length and compare equal position by position |
| TupleHash.Hash | tuple.hh:173-186 | the loop returns the reference hash: the byte hash on the fast path, otherwise the XOR of the present components' type hashes, or the marshal error of the cursor |
| TupleHash.HashAccumulate | tuple.hh:180-182 | one more component XORs its type's hash in if present and leaves the hash alone if NULL |
| TupleHash.HashSkipsNull | tuple.hh:180-182 | a NULL component leaves the hash of the components before it unchanged |
| TupleHash.HashIn | tuple.hh:180-182 | one loop turn makes the accumulator the hash of the components seen so far and this one |
| TupleHash.HashOfEncoding | tuple.hh:173-186 | hashing an encoding never fails and gives the byte hash on the fast path, else the XOR over its components |
| TupleHash.HashOfNulls | tuple.hh:179-182 | an all-NULL or empty list hashes to 0 |
| TupleHash.EqualSameHash | tuple.hh:173-186 | encodings that `equal` accepts have the same `hash`, when each type's hash agrees with its compare |
| TuplePrefix.IsPrefixOf | tuple.hh:241-275 | the loop over the two views returns the reference result `PrefixFrom` |
| TuplePrefix.PrefixStep | tuple.hh:249-266 | one step over two component encodings stops with false unless both are NULL or both present and equal by the type, and otherwise goes on with the rest of each |
| TuplePrefix.IsPrefixOfEncodings | tuple.hh:235-241 | on encodings, `is_prefix_of` never fails and is true exactly when every component of the prefix agrees with the value's component at its position |
| TuplePrefix.LeadingPartIsPrefix | tuple.hh:244-247 | with reflexive `equal`, the encoding of any leading part of a value is a prefix of the value's encoding |
| TuplePrefix.RejectsTrailingValueBytes | tuple.hh:270-272 | bytes after a full value whose components all agree make `is_prefix_of` fail |
| TuplePrefix.RejectsTrailingPrefixBytes | tuple.hh:270-272 | bytes after a full prefix whose components all agree with the value's make `is_prefix_of` fail |
| TuplePrefix.RejectsTruncatedPrefixPayload | tuple.hh:259-261 | after agreeing components, a prefix component declaring more bytes than follow it, opposite a present value component, makes `is_prefix_of` fail |
| TuplePrefix.RejectsTruncatedValuePayload | tuple.hh:259-261 | after agreeing components, a value component declaring more bytes than follow it, opposite a present prefix component, makes `is_prefix_of` fail |

## Left out

- `deserialize` and `serialize` only unwrap `boost::any` around `deserialize_value` and `serialize_value`, which are modelled.
- `from_string`, `to_string` and `validate` are not modelled. The first two always throw and the last only logs a warning, so there is nothing to prove.
- `decompose_value` is the same call as the owning `serialize_value`, so it is modelled by `SerializeValue` alone.
- The component types' method bodies and `std::hash<bytes_view>` lie outside the codec. They are fields of `ComponentType` and the `byteHash` parameter of `Hash`, with their laws as hypotheses.
- `write` and `read_simple` from `util/serialization.hh` are not part of this model. The length field is assumed to be 4 bytes, big-endian, two's complement. Fewer than 4 bytes is a marshal error.
- `Serialization.CompareUnsigned` models only the sign of `compare_unsigned`'s result.
- The cursor detects its end through pointer identity (`bytes_view(nullptr, 0)` and `operator==` on `_v.begin()`). The model uses an explicit `exhausted` flag instead.
- `shared_ptr` ownership, the move constructor and `boost::iterator_range` are not modelled.
- C++ `assert`s are preconditions: the arity rule and the `int32_t` payload limit of `serialize_value`, and prefix mode for `is_prefix_of`.
- TuplePrefix.IsPrefixOf: the per-step `assert(!value.empty())` becomes the marshal error that reading a length field from a short view raises.
- `compare`'s `compare_unsigned` branch is never taken: `is_byte_order_comparable` always returns false (`TupleCodec.IsByteOrderComparable`). So `TupleCompare.Compare` has no such branch.
- TupleHash.Hash: `size_t` is modelled as `bv64`, and the XOR is defined over the decoded component list. The loop's result is the same as the source's.
- TupleCodec.SerializedSize: the result is an unbounded natural, so a `size_t` wrap-around of the accumulated length is not modelled.
- `serialize_value` writing through a caller's `bytes::iterator` is modelled as writing into an array from a start position.
