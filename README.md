# object-protobuf, modelled in Dafny

object-protobuf serializes plain Java objects to the Protocol Buffers binary
wire format and parses them back. It discovers a class's fields by
reflection, reads their annotations (tag, field type, polymorphic variant
table) into an ordered list of field descriptors, and caches that list per
class. A message pairs an object with its class's descriptor list, and it
walks that list to compute the encoded size, to serialize the object, and to
parse tags from a stream and merge each recognised field into the object.
`PBBytes` is the immutable byte string the library uses for `bytes` fields
and for the result of `toByteString`.

This project models that core:

| file | module | what it holds |
|---|---|---|
| `java_ints.dfy` | `JavaInts` | Java `int`/`byte` as bounded integers; 32-bit wrap-around, `<<`, `>>>`, `&`, `\|` on the two's-complement pattern |
| `wire_format.dfy` | `WireFormat` | tag packing and unpacking, the wire-type constants, the field-type → wire-type table, field labels |
| `reflection.dfy` | `Reflection` | classes as identities, field declarations and annotations as records, objects as values mapping field names to values, the exceptions |
| `pb_info.dfy` | `Info` | the field descriptor and the two lookups in its polymorphic variant table |
| `field_builder.dfy` | `Builder` | the descriptor builder (`addField` and its checks), and the static first-in-first-out cache of at most 20 built lists as a class |
| `coded_stream.dfy` | `CodedStream` | the coded input and output streams, over encodings given as parameters |
| `pb_bytes.dfy` | `Bytes` | the byte string: copies, slices, concatenation, equality, the cached hash |
| `pb_message.dfy` | `Message` | the message: size, serialize, toByteString, parse |

How the model is built:

- Reflection becomes data. A `ClassTable` maps each class to its annotation flag, its declared fields (name, raw type, type arguments, annotations), its superclass and the object its no-argument constructor creates. An object is a `Value`.
- The coded streams are not part of the repository's core. Their byte encodings are a `Codec` parameter of total functions: read a varint, read or skip a field, compute a field's size, encode a field.
- `CodedInput` and `CodedOutput` are classes built on top of the `Codec`. They carry the state the message code depends on: position, the stack of limits, the last tag read, and a fixed-size buffer. Each reader method is proved equal to a pure step function over `InState`.
- `size()` and `serialize()` are both proved against one pure traversal, `Walk`, which lists the writes they make in order. `SizeScan` sums their sizes in Java `int` arithmetic. `ByteScan` concatenates their encodings. `ScansAgree` proves that the two agree whenever the encoder's sizes match its encodings.
- `parse()` is proved against a family of mutually recursive functions: `ParseFrom`, `MergeField`, `MergeRepeated`, `MergeSingle`, `RepeatedMessage`, `NestedMessage` and `ReadMessageF`. They terminate because the remaining input strictly shrinks.
- The methods that mirror these functions (`Parse`, `ParseAndMergeField`, `ReadMessage`, …) are mutually recursive in the same way.
- The cache, the message, the byte string and the streams are classes whose methods update their fields in place. Loops in the source are `while` loops with invariants.

Where the code and its written description disagree, the model follows the code:
- One passage of the description says a reader error propagates out of the whole parse. `parse` (src/pb/PBMessage.java:91-104) catches every exception, so `ParseFrom` has no error result. It stops and keeps what it has merged so far.
- `size`, `serialize` and `toByteString` likewise catch everything. `toByteString` falls back to the empty byte string.

## Model

| member | source | states |
|---|---|---|
| WireFormat.GetTagWireType | src/pb/PBWireFormat.java:61-63 | the wire type is in 0..7 and is the low three bits of the tag's 32-bit pattern (the tag modulo 8) |
| WireFormat.MaskLowBits | src/pb/PBWireFormat.java:51-62 | `TAG_TYPE_MASK` is 7, and masking with it keeps the pattern modulo 8 |
| WireFormat.GetTagFieldNumber | src/pb/PBWireFormat.java:68-70 | the field number is below 2^29 and is the unsigned pattern divided by 8 (the sign bit is not extended) |
| WireFormat.MakeTagPattern | src/pb/PBWireFormat.java:75-77 | for a wire type in 0..7, `(n << 3) \| w` has pattern 8·(n mod 2^29) + w |
| WireFormat.WireTypeRoundTrip | src/pb/PBWireFormat.java:61-77 | unpacking the wire type of `makeTag(n, w)` gives `w`, for any `n` and any `w` in 0..7 |
| WireFormat.FieldNumberRoundTrip | src/pb/PBWireFormat.java:68-77 | unpacking the field number of `makeTag(n, w)` gives `n` for 0 ≤ n < 2^29 |
| WireFormat.TagOfFieldIsNonZero | src/pb/PBWireFormat.java:75-77 | a field number in 1..2^29-1 never packs to the end-of-stream tag 0 |
| WireFormat.TagRecompose | src/pb/PBWireFormat.java:61-77 | repacking a tag's field number and wire type gives the tag back, for every 32-bit tag |
| WireFormat.WireTypeOf | src/pb/PBWireFormat.java:82-101 | STRING, MESSAGE and BYTES are length-delimited; DOUBLE, FIXED64 and SFIXED64 are fixed64; FLOAT, FIXED32 and SFIXED32 are fixed32; GROUP is start-group; every other type is varint |
| Info.IndexOfClass | src/pb/PBInfo.java:30-31 | the first position whose variant has the class, or the length when there is none |
| Info.IndexOfTag | src/pb/PBInfo.java:39-40 | the first position whose variant has the discriminant, or the length when there is none |
| Info.GetPolymTag | src/pb/PBInfo.java:28-35 | Ok exactly when the table is present and lists the class, with the first such variant's discriminant; otherwise invalidTag |
| Info.GetPolymClass | src/pb/PBInfo.java:37-44 | Ok exactly when the table is present and lists the discriminant, with the first such variant's class; otherwise invalidTag |
| Info.IsPolymMessage | src/pb/PBInfo.java:46-50 | true only when the variant table is present and non-empty, and then the field is length-delimited (it is a MESSAGE field) |
| Info.PolymMessageIsLengthDelimited | src/pb/PBInfo.java:46-50 | a polymorphic field is a MESSAGE field, so it is length-delimited, and its first variant is found by both lookups |
| Info.ClassOfTagOfClass | src/pb/PBInfo.java:28-44 | with distinct discriminants, looking up the class of a class's discriminant gives that class |
| Info.TagOfClassOfTag | src/pb/PBInfo.java:28-44 | with distinct classes, looking up the discriminant of a discriminant's class gives that discriminant |
| Builder.TagTaken | src/pb/FieldBuilder.java:124-128 | true exactly when some descriptor already in the list carries the tag |
| Builder.GetFieldTag | src/pb/FieldBuilder.java:120-131 | the annotated tag itself, unless it is -1 or already in the list, in which case invalidTag |
| Builder.GetRealClassType | src/pb/FieldBuilder.java:133-144 | a non-List field gives its own type; a List field gives its only type argument, or invalidJavaType unless there is exactly one |
| Builder.GetFieldType | src/pb/FieldBuilder.java:146-160 | a message-annotated class gives MESSAGE; int, float, double, long, String, PBBytes and boolean give INT32, FLOAT, DOUBLE, INT64, STRING, BYTES and BOOL; anything else is invalidJavaType |
| Builder.GetFieldLabel | src/pb/FieldBuilder.java:162-166 | REPEATED exactly for a List field, OPTIONAL otherwise, never REQUIRED |
| Builder.ZipPairs | src/pb/FieldBuilder.java:78-80 | the variant table is the pairs `(classes[i], tags[i])` in declaration order |
| Builder.PolymListOf | src/pb/FieldBuilder.java:72-84 | no annotation gives an empty table; an empty or uneven annotation throws invalidTag |
| Builder.FieldInfo | src/pb/FieldBuilder.java:71-104 | a field yields a descriptor exactly when it is well formed and its tag is new. The descriptor carries the field's name, tag, label and element type. Its type is the annotated one, or the inferred one when the annotation says UNKNOWN |
| Builder.AddedExtends | src/pb/FieldBuilder.java:64-111 | `addField` only appends to the list, at most one descriptor per declared field |
| Builder.AddedKeepsTagsDistinct | src/pb/FieldBuilder.java:88-103 | `addField` keeps the tags of the list pairwise distinct |
| Builder.DescriptorTagsDistinct | src/pb/FieldBuilder.java:50-58 | every list `Build` produces, the superclass pass included, has pairwise distinct tags |
| Builder.MalformedFieldDropped | src/pb/FieldBuilder.java:71-108 | a malformed field is dropped, and the fields before and after it are added as if it were not declared |
| Builder.AddedFromFields | src/pb/FieldBuilder.java:86-104 | every appended descriptor comes from an annotated field with the same name and tag |
| Builder.InferredWireType | src/pb/FieldBuilder.java:146-160 | an inferred type is length-delimited exactly for messages, strings and byte strings |
| Builder.FindItem | src/pb/FieldBuilder.java:113-118 | `getCache`: None exactly when no cached item has the class; otherwise the first that does |
| Builder.Bounded | src/pb/FieldBuilder.java:46-49 | after `offer`, the oldest entry is polled only when the queue has grown past 20 |
| Builder.FieldBuilder.constructor | src/pb/FieldBuilder.java:37-38 | the cache starts empty and valid |
| Builder.FieldBuilder.NewCacheItem | src/pb/FieldBuilder.java:27-33 | a new item fails with NoSuchMethod exactly when the class has no no-argument constructor |
| Builder.FieldBuilder.ZipVariants | src/pb/FieldBuilder.java:73-84 | the zipping loop computes `PolymListOf` of the annotation |
| Builder.FieldBuilder.AddField | src/pb/FieldBuilder.java:64-111 | the loop leaves the list as `Added` of the declared fields, in declaration order |
| Builder.FieldBuilder.FillItem | src/pb/FieldBuilder.java:50-59 | the item's list becomes the class's fields followed by those of a message-annotated superclass |
| Builder.FieldBuilder.Build | src/pb/FieldBuilder.java:40-62 | a hit returns the cached item and leaves the queue unchanged. A miss with no constructor fails and leaves the cache unchanged. Any other miss appends a fresh item, evicts the head past 20 entries, and fills the item. The cache stays valid: at most 20 entries, one per class, each with its full descriptor list |
| Bytes.HashOf | src/pb/PBBytes.java:318-337 | the hash is the fold seeded with the length when that is nonzero, and 1 when the fold is 0, so never 0 |
| Bytes.HashFoldClosedForm | src/pb/PBBytes.java:325-328 | the hash loop computes `len·31^n + Σ b_i·31^(n-1-i)` modulo 2^32, with signed bytes |
| Bytes.Concat | src/pb/PBBytes.java:153-157 | the concatenation is as long as the sizes together |
| Bytes.PBBytes.constructor | src/pb/PBBytes.java:56-58 | the array is kept as it is; a null array becomes a fresh empty one; the hash starts uncomputed |
| Bytes.PBBytes.ByteAt | src/pb/PBBytes.java:200-202 | the byte at an index in range; otherwise an index-out-of-bounds exception |
| Bytes.PBBytes.Size | src/pb/PBBytes.java:207-209 | the length of the contents |
| Bytes.PBBytes.IsEmpty | src/pb/PBBytes.java:214-216 | true exactly when the size is 0 |
| Bytes.PBBytes.CopyTo | src/pb/PBBytes.java:224-226 | the contents land at `target[offset..]` and nothing else changes; a bad offset or a short target throws and writes nothing |
| Bytes.PBBytes.CopyRangeTo | src/pb/PBBytes.java:236-240 | the range lands at the target offset and nothing else changes; any out-of-range argument throws and writes nothing |
| Bytes.PBBytes.ToByteArray | src/pb/PBBytes.java:248-253 | a fresh array with the same contents |
| Bytes.PBBytes.Equals | src/pb/PBBytes.java:288-312 | true exactly for a non-null byte string of the same length and the same bytes |
| Bytes.PBBytes.HashCode | src/pb/PBBytes.java:318-337 | returns `HashOf` of the contents and caches it, so repeated calls and equal contents give the same hash |
| Bytes.CopyFromRange | src/pb/PBBytes.java:63-68 | a fresh byte string equal to `bytes[offset..offset+size)`; a negative size, a null array or a range out of bounds throws |
| Bytes.CopyFrom | src/pb/PBBytes.java:90-92 | a fresh copy of the whole array; a null array throws |
| Bytes.WrappedSumStep | src/pb/PBBytes.java:148-151 | adding sizes one at a time in `int` arithmetic wraps as the total does |
| Bytes.SumSizes | src/pb/PBBytes.java:148-151 | the first loop computes the total size modulo 2^32 |
| Bytes.ConcatInto | src/pb/PBBytes.java:152-157 | the second loop copies the byte strings one after another when they fit, and throws otherwise |
| Bytes.CopyFromList | src/pb/PBBytes.java:141-159 | an empty list gives EMPTY; one element is returned as it is; otherwise the contents are the concatenation, or an exception when the total overflows |
| Message.ElementsTraceSpec | src/pb/PBMessage.java:48-56 | a repeated field's writes are one per element, in list order, exactly when no element throws |
| Message.RepeatedFieldPieces | src/pb/PBMessage.java:46-56 | a non-polymorphic repeated field writes each element with `writeField(type, tag, element)` and never stops |
| Message.PolymElementPiece | src/pb/PBMessage.java:49-52 | a polymorphic element is written with its class's discriminant exactly when it is non-null, its class is listed and has a constructor |
| Message.OptionalFieldsWalk | src/pb/PBMessage.java:45-59 | with no repeated descriptors, the writes are one per descriptor, in descriptor order |
| Message.WalkPrefix | src/pb/PBMessage.java:42-65 | the writes for a prefix of the descriptors are a prefix of all writes; once stopped, later descriptors add nothing |
| Message.ScansAgree | src/pb/PBMessage.java:42-89 | when sizes match encodings, the size loop's running sum is the number of bytes serialization encodes (wrapped to 32 bits), and it fails exactly when serialization does |
| Message.ToByteStringExact | src/pb/PBMessage.java:106-116 | when sizes match encodings and the encoding is below 2^31 bytes, `size()` is its length and the byte string `toByteString` returns is exactly the encoding |
| Message.PBMessage.OfObject | src/pb/PBMessage.java:14-36 | a message over an existing object gets its class's descriptor list; a null object or a class without a constructor throws invalidJavaType |
| Message.PBMessage.OfClass | src/pb/PBMessage.java:19-36 | a message over a class gets its descriptor list and a new instance; a class without a constructor throws invalidJavaType |
| Message.PBMessage.Size | src/pb/PBMessage.java:42-65 | `size()` is the 32-bit running sum of the computed sizes of the writes, in walk order, up to the first exception |
| Message.PBMessage.AddFieldSize | src/pb/PBMessage.java:46-58 | one descriptor's sizes, added to the running sum |
| Message.AddElementsSize | src/pb/PBMessage.java:48-56 | the inner loop over a repeated field's elements adds their sizes and reports whether it finished |
| Message.ElementWrite | src/pb/PBMessage.java:49-55 | the per-element write the loops make, including the nested message built for a polymorphic element |
| Message.PBMessage.Serialize | src/pb/PBMessage.java:67-89 | the buffer ends up holding what it held before, then the encodings of the same writes in the same order as `size()`, cut at the buffer's end; nothing beyond the write position changes |
| Message.PBMessage.AddFieldBytes | src/pb/PBMessage.java:70-82 | one descriptor's encodings are appended to the buffer, cut at its end |
| Message.AddElementsBytes | src/pb/PBMessage.java:72-80 | the inner loop over a repeated field's elements appends their encodings and reports whether it finished |
| Message.WritePiece | src/pb/PBMessage.java:76-82 | `writeField` or `writeDynamicMessage` for one write |
| Message.PBMessage.ToByteString | src/pb/PBMessage.java:106-116 | a negative size gives EMPTY; otherwise a fresh byte string of `size()` bytes holding the encoding, zero-padded or cut to that size |
| Message.FieldByTag | src/pb/PBMessage.java:125-132 | None exactly when no descriptor has the tag; otherwise the first descriptor that does |
| Message.PBMessage.GetFieldByTag | src/pb/PBMessage.java:125-132 | the search loop returns `FieldByTag` of the descriptor list |
| Message.ParseFrom | src/pb/PBMessage.java:91-104 | parsing never reads backwards and never widens the limit, and the object keeps whether it is an instance and its class |
| Message.MergeField | src/pb/PBMessage.java:136-165 | an unknown field, or one whose wire type differs from its descriptor's, is skipped: the reader moves as `skipField` does, the object is unchanged, and the merge fails exactly when the skip throws. Otherwise merging changes at most the field its descriptor names, nothing when it throws, and a successful merge leaves the limit where it was |
| Message.MergeRepeated | src/pb/PBMessage.java:140-155 | a repeated merge changes only its own field, and nothing when it throws |
| Message.MergeSingle | src/pb/PBMessage.java:156-163 | any other merge changes only its own field, and nothing when it throws |
| Message.RepeatedMessage | src/pb/PBMessage.java:141-151 | a repeated message element leaves the limit where it was when it succeeds; the polymorphic dispatch itself is stated by `KnownDiscriminantDispatched` and `UnknownDiscriminantRejected` |
| Message.NestedMessage | src/pb/PBMessage.java:147-148 | a nested message succeeds only for a class with a no-argument constructor; its value is an instance of that constructor's class, and the limit is back where it was |
| Message.ReadMessageF | src/pb/PBMessage.java:148 | a nested message that is accepted ended on tag 0, the outer limit is restored, and the value keeps the class of the object parsed into |
| Message.ParseAtLimit | src/pb/PBMessage.java:93-95 | at the end of the input or the limit, parse reads nothing and changes nothing |
| Message.RepeatedFieldAppends | src/pb/PBMessage.java:140-155 | a matching repeated field gets exactly one more element, the value read, at the end of its list; every other field keeps its value |
| Message.SingleFieldOverwritten | src/pb/PBMessage.java:156-163 | a matching non-repeated field is overwritten by the value read; every other field keeps its value |
| Message.KnownDiscriminantDispatched | src/pb/PBMessage.java:143-149 | an element of a polymorphic field whose INT32 discriminant a variant lists is a nested message of `getPolymClass`'s class, read just after the discriminant |
| Message.ParseSkipsField | src/pb/PBMessage.java:94-101 | after a nonzero tag whose field is unknown or has the wrong wire type, a successful skip lets parsing continue from just after the skipped value with the object unchanged |
| Message.UnknownDiscriminantRejected | src/pb/PBMessage.java:143-147 | a polymorphic element whose discriminant no variant lists throws invalidTag just after the discriminant, with the object unchanged |
| Message.ParseAbortsOnUnknownDiscriminant | src/pb/PBMessage.java:91-151 | such an element ends the whole parse: the object keeps what was merged before it |
| Message.ParseFromFrame | src/pb/PBMessage.java:91-165 | parsing changes no field that none of the descriptors names, and never the object's class |
| Message.PBMessage.Parse | src/pb/PBMessage.java:91-104 | the tag loop's final object and reader state are those of `ParseFrom` |
| Message.PBMessage.ParseAndMergeField | src/pb/PBMessage.java:136-165 | the object, the reader state and the exception are those of `MergeField` for the looked-up descriptor |
| Message.PBMessage.MergeRepeatedField | src/pb/PBMessage.java:140-155 | the repeated branch is `MergeRepeated` |
| Message.PBMessage.MergeSingleField | src/pb/PBMessage.java:156-163 | the other branch is `MergeSingle` |
| Message.ReadRepeatedMessage | src/pb/PBMessage.java:141-151 | reads one element as `RepeatedMessage` does |
| Message.ReadNested | src/pb/PBMessage.java:147-148 | `new PBMessage(cls)` followed by `readMessage`, as `NestedMessage` |
| Message.ReadMessage | src/pb/PBMessage.java:148 | `readMessage` reads the length, pushes a limit, parses, checks the last tag was 0 and pops the limit, as `ReadMessageF` |

## Left out

- The coded streams (`PBCodedInputStream`, `PBCodedOutputStream`) are not part of this model's source. Varint and fixed-width encodings, `computeFieldSize`, `writeField`, `readField` and `skipField` are the `Codec` parameter. `readMessage` follows the standard Protocol Buffers Java runtime: a length, a pushed limit, the nested parse, a check that the last tag was 0, and the limit popped. Its recursion-depth limit is not modelled.
- Round trip: `parse(serialize(m)) == m` is not proved, because it depends on the concrete encodings, which the model takes as a parameter. What is proved is that `size()` matches what `serialize()` writes (ScansAgree, ToByteStringExact), plus the dispatch rules of parse: skipping (ParseSkipsField), polymorphic dispatch (KnownDiscriminantDispatched, UnknownDiscriminantRejected), appending and overwriting (RepeatedFieldAppends, SingleFieldOverwritten).
- How much of the input a nested message consumes is not pinned down. A zero tag inside a nested message is swallowed by the nested `parse` with lastTag 0, so the nested message is accepted wherever it stopped. The model keeps this behaviour, and proves only that reading never moves backwards and never widens the limit.
- A stream read that fails consumes nothing in the model. A field write that the encoder rejects writes nothing.
- `flush()` in `serialize` writes nothing for an array-backed stream, so it is not modelled.
- Reflection:
  - a raw `List` field or a non-class type argument (the casts at src/pb/FieldBuilder.java:136-140 would throw outside `addField`'s handler) is not modelled;
  - `Field.set` type checks, `setAccessible`, field hiding across the superclass and the object passed as a `Class` to `new PBMessage(Object)` are not modelled.
  - A field absent from an object reads as null.
- Lists are values in the model: appending to a list shared by two objects is not modelled as visible through both.
- Thread safety: the static cache and the `volatile` hash are modelled sequentially.
- `PBBytes.EMPTY` is passed in as a parameter wherever it is returned.
- The stream, charset and NIO adapters of `PBBytes` (src/pb/PBBytes.java:73-131, 161-193, 259-285 and 342-405) are input/output or foreign-library wrappers.
- Bytes.CopyFromList: a null list and null elements are not modelled (the list is a sequence of byte strings); in the source a one-element list holding null returns null and a null element in a longer list throws a NullPointerException.
- Bytes.PBBytes.Equals: `equals` with an object of another class is modelled as the `null` case.
- Floating-point and other scalar values are opaque payloads.
- The exception a class's constructor itself throws is not modelled: a class either has a no-argument constructor, which yields its instance, or has none.
