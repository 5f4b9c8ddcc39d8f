/**
 * A message: an object paired with the descriptor list of its class. Its
 * size and its serialization walk the descriptors in order, every element of
 * a repeated field in turn, and stop at the first exception; parsing reads
 * tags up to the end of the input or the current limit and merges each field
 * it recognises into the object.
 */
module Message {
  import opened Wrappers
  import opened JavaInts
  import opened WireFormat
  import opened Reflection
  import opened Info
  import opened Builder
  import opened CodedStream
  import opened Bytes

  /** One write the traversal makes: a field, or an element of a polymorphic field with its discriminant. */
  datatype Piece =
    | FieldPiece(fieldType: FieldType, tag: Int32, value: Value)
    | DynamicPiece(tag: Int32, value: Value, polymTag: Int32)

  /** The writes of a traversal, and whether it reached the end (false: an exception stopped it). */
  datatype Trace = Trace(pieces: seq<Piece>, complete: bool)

  /**
   * The write for one element of a repeated field. For a polymorphic field the
   * element's class must have a discriminant and a no-argument constructor
   * (the element is wrapped in a message of its own); a null element throws
   * on `getClass()`. None stands for the exception.
   */
  function ElementPiece(ct: ClassTable, info: PBInfo, e: Value): Option<Piece> {
    if !IsPolymMessage(info) then Some(FieldPiece(info.fieldType, info.tag, e))
    else if e.Null? then None
    else match GetPolymTag(info, e.cls)
      case Err(_) => None
      case Ok(p) => if DeclOf(ct, e.cls).newInstance.None? then None else Some(DynamicPiece(info.tag, e, p))
  }

  /** The writes for the elements of a repeated field, in list order, up to the first element that throws. */
  function ElementsTrace(ct: ClassTable, info: PBInfo, elements: seq<Value>): Trace
    decreases |elements|
  {
    if elements == [] then Trace([], true)
    else
      var t := ElementsTrace(ct, info, elements[..|elements| - 1]);
      if !t.complete then t
      else match ElementPiece(ct, info, elements[|elements| - 1])
        case None => Trace(t.pieces, false)
        case Some(p) => Trace(t.pieces + [p], true)
  }

  /**
   * The writes for one descriptor: a repeated field's value must be a list
   * (null throws a NullPointerException, anything else a ClassCastException);
   * any other field is one write of its current value, null included.
   */
  function FieldTrace(ct: ClassTable, info: PBInfo, obj: Value): Trace {
    if info.fieldLabel == REPEATED then
      var list := GetField(obj, info.field);
      if list.ListOf? then ElementsTrace(ct, info, list.elements) else Trace([], false)
    else Trace([FieldPiece(info.fieldType, info.tag, GetField(obj, info.field))], true)
  }

  /** The writes of `size()` and `serialize()`: the descriptors in order, up to the first exception. */
  function Walk(ct: ClassTable, fieldList: seq<PBInfo>, obj: Value): Trace
    decreases |fieldList|
  {
    if fieldList == [] then Trace([], true)
    else
      var t := Walk(ct, fieldList[..|fieldList| - 1], obj);
      if !t.complete then t
      else
        var f := FieldTrace(ct, fieldList[|fieldList| - 1], obj);
        Trace(t.pieces + f.pieces, f.complete)
  }

  /** `computeFieldSize` / `computeDynamicMessageSize` for one write. */
  function PieceSize(codec: Codec, p: Piece): Result<Int32, Exception> {
    match p
    case FieldPiece(t, tag, v) => codec.fieldSize(t, tag, v)
    case DynamicPiece(tag, v, polymTag) => codec.dynamicSize(tag, v, polymTag)
  }

  /** `writeField` / `writeDynamicMessage` for one write. */
  function PieceBytes(codec: Codec, p: Piece): Result<seq<Int8>, Exception> {
    match p
    case FieldPiece(t, tag, v) => codec.fieldBytes(t, tag, v)
    case DynamicPiece(tag, v, polymTag) => codec.dynamicBytes(tag, v, polymTag)
  }

  /** A running sum of sizes in 32-bit arithmetic, and whether every size was computed. */
  datatype SizeSum = SizeSum(total: Int32, ok: bool)

  /** The sizes of the writes added to `start` one by one, as `int` addition does, up to the first write the encoder rejects. */
  function SizeScan(codec: Codec, start: Int32, ps: seq<Piece>): SizeSum
    decreases |ps|
  {
    if ps == [] then SizeSum(start, true)
    else
      var s := SizeScan(codec, start, ps[..|ps| - 1]);
      if !s.ok then s
      else match PieceSize(codec, ps[|ps| - 1])
        case Err(_) => SizeSum(s.total, false)
        case Ok(n) => SizeSum(Wrap32(s.total + n), true)
  }

  /** The bytes of the writes, one after the other, and whether every write was encoded. */
  datatype ByteRun = ByteRun(bytes: seq<Int8>, ok: bool)

  /** The bytes of the writes, up to the first write the encoder rejects. */
  function ByteScan(codec: Codec, ps: seq<Piece>): ByteRun
    decreases |ps|
  {
    if ps == [] then ByteRun([], true)
    else
      var s := ByteScan(codec, ps[..|ps| - 1]);
      if !s.ok then s
      else match PieceBytes(codec, ps[|ps| - 1])
        case Err(_) => ByteRun(s.bytes, false)
        case Ok(bs) => ByteRun(s.bytes + bs, true)
  }

  /** What a zero-filled buffer of `n` bytes holds after `s` has been written into it from the front. */
  function Padded(s: seq<Int8>, n: nat): (r: seq<Int8>)
    ensures |r| == n
    ensures r[..|Truncate(s, n)|] == Truncate(s, n)
    ensures forall i :: |Truncate(s, n)| <= i < n ==> r[i] == 0
  {
    var w := Truncate(s, n);
    w + seq(n - |w|, _ => 0)
  }

  // ---- Parsing, as functions of the input ----

  /** `getFieldByTag(tag)`: the first descriptor whose tag is `tag`, or None. */
  function FieldByTag(fieldList: seq<PBInfo>, tag: Int32): (r: Option<PBInfo>)
    ensures r.None? <==> forall i :: 0 <= i < |fieldList| ==> fieldList[i].tag != tag
    ensures r.Some? ==>
              exists i :: 0 <= i < |fieldList| && fieldList[i] == r.value && r.value.tag == tag &&
                forall j :: 0 <= j < i ==> fieldList[j].tag != tag
  {
    if |fieldList| == 0 then None
    else if fieldList[0].tag == tag then Some(fieldList[0])
    else
      var rest := FieldByTag(fieldList[1..], tag);
      assert forall i :: 1 <= i < |fieldList| ==> fieldList[i] == fieldList[1..][i - 1];
      rest
  }

  /** The object after a parse and the reader's state; `parse` catches every exception, so there is no error. */
  datatype Parsed = Parsed(obj: Value, state: InState)

  /** The outcome of merging one field: the exception that ended it, if any, the object, and the reader's state. */
  datatype Merge = Merge(failure: Option<Exception>, obj: Value, state: InState)

  function ErrorOf<T>(r: Result<T, Exception>): Option<Exception> {
    if r.Err? then Some(r.error) else None
  }

  /**
   * `parse(input)`: reads tags until 0 (the limit, or the end of the input)
   * and merges each field into the object; the first exception ends the loop
   * and is swallowed, leaving what was merged so far.
   */
  function ParseFrom(ct: ClassTable, codec: Codec, data: seq<Int8>, fieldList: seq<PBInfo>, obj: Value, s: InState)
    : (r: Parsed)
    requires InBounds(data, s)
    ensures InBounds(data, r.state) && r.state.pos >= s.pos && r.state.limit <= s.limit
    ensures r.obj.Instance? == obj.Instance? && (obj.Instance? ==> r.obj.cls == obj.cls)
    decreases s.limit - s.pos, 5
  {
    var t := TagStep(codec, data, s);
    if t.result.Err? || t.result.value == 0 then Parsed(obj, t.state)
    else
      var tag := t.result.value;
      var m := MergeField(ct, codec, data, FieldByTag(fieldList, GetTagFieldNumber(tag)), obj, tag, t.state);
      if m.failure.Some? then Parsed(m.obj, m.state)
      else ParseFrom(ct, codec, data, fieldList, m.obj, m.state)
  }

  /**
   * `parseAndMergeField(tag, field, input)`: an unknown field, or one whose
   * wire type does not match its descriptor, is skipped; a repeated field
   * gets one more element (a non-list value throws a ClassCastException
   * before reading, a null list a NullPointerException after); any other
   * field is overwritten. Message-typed fields are read as nested messages.
   */
  function MergeField(ct: ClassTable, codec: Codec, data: seq<Int8>, field: Option<PBInfo>, obj: Value, tag: Int32,
                      s: InState): (r: Merge)
    requires InBounds(data, s)
    ensures InBounds(data, r.state) && r.state.pos >= s.pos && r.state.limit <= s.limit
    ensures r.failure.None? ==> r.state.limit == s.limit
    ensures r.failure.Some? ==> r.obj == obj
    ensures field.None? || GetTagWireType(tag) != WireTypeOf(field.value.fieldType) ==>
              r == Merge(ErrorOf(SkipStep(codec, data, tag, s).result), obj, SkipStep(codec, data, tag, s).state)
    ensures field.Some? ==> r.obj == obj || r.obj == SetField(obj, field.value.field, GetField(r.obj, field.value.field))
    decreases s.limit - s.pos, 4
  {
    if field.None? || GetTagWireType(tag) != WireTypeOf(field.value.fieldType) then
      var k := SkipStep(codec, data, tag, s);
      Merge(ErrorOf(k.result), obj, k.state)
    else if field.value.fieldLabel == REPEATED then MergeRepeated(ct, codec, data, field.value, obj, s)
    else MergeSingle(ct, codec, data, field.value, obj, s)
  }

  /** A repeated field gets one more element: a non-list value throws before reading, a null list after. */
  function MergeRepeated(ct: ClassTable, codec: Codec, data: seq<Int8>, info: PBInfo, obj: Value, s: InState)
    : (r: Merge)
    requires InBounds(data, s)
    ensures InBounds(data, r.state) && r.state.pos >= s.pos && r.state.limit <= s.limit
    ensures r.failure.None? ==> r.state.limit == s.limit
    ensures r.failure.Some? ==> r.obj == obj
    ensures r.obj == obj || r.obj == SetField(obj, info.field, GetField(r.obj, info.field))
    decreases s.limit - s.pos, 3
  {
    var list := GetField(obj, info.field);
    if !list.Null? && !list.ListOf? then Merge(Some(ClassCast), obj, s)
    else
      var e := if info.fieldType == MESSAGE then RepeatedMessage(ct, codec, data, info, s)
               else FieldStep(codec, data, info.fieldType, s);
      if e.result.Err? then Merge(Some(e.result.error), obj, e.state)
      else if list.Null? then Merge(Some(NullPointer), obj, e.state)
      else Merge(None, SetField(obj, info.field, ListOf(list.cls, list.elements + [e.result.value])), e.state)
  }

  /** Any other field is overwritten with the value read. */
  function MergeSingle(ct: ClassTable, codec: Codec, data: seq<Int8>, info: PBInfo, obj: Value, s: InState)
    : (r: Merge)
    requires InBounds(data, s)
    ensures InBounds(data, r.state) && r.state.pos >= s.pos && r.state.limit <= s.limit
    ensures r.failure.None? ==> r.state.limit == s.limit
    ensures r.failure.Some? ==> r.obj == obj
    ensures r.obj == obj || r.obj == SetField(obj, info.field, GetField(r.obj, info.field))
    decreases s.limit - s.pos, 3
  {
    var e := if info.fieldType == MESSAGE then NestedMessage(ct, codec, data, info.classType, s)
             else FieldStep(codec, data, info.fieldType, s);
    if e.result.Err? then Merge(Some(e.result.error), obj, e.state)
    else Merge(None, SetField(obj, info.field, e.result.value), e.state)
  }

  /**
   * An element of a repeated message field: for a polymorphic field an
   * INT32 discriminant is read first and resolved to the element's class.
   */
  function RepeatedMessage(ct: ClassTable, codec: Codec, data: seq<Int8>, info: PBInfo, s: InState): (r: Step<Value>)
    requires InBounds(data, s)
    ensures InBounds(data, r.state) && r.state.pos >= s.pos && r.state.limit <= s.limit
    ensures r.result.Ok? ==> r.state.limit == s.limit
    decreases s.limit - s.pos, 2
  {
    if !IsPolymMessage(info) then NestedMessage(ct, codec, data, info.classType, s)
    else
      var d := FieldStep(codec, data, INT32, s);
      if d.result.Err? then Step(Err(d.result.error), d.state)
      else match codec.asInteger(d.result.value)
        case Err(e) => Step(Err(e), d.state)
        case Ok(polymTag) =>
          match GetPolymClass(info, polymTag)
          case Err(e) => Step(Err(e), d.state)
          case Ok(c) => NestedMessage(ct, codec, data, c, d.state)
  }

  /** `new PBMessage(c)` and `readMessage`: a fresh instance of `c`, parsed from a length-delimited run of bytes. */
  function NestedMessage(ct: ClassTable, codec: Codec, data: seq<Int8>, c: JClass, s: InState): (r: Step<Value>)
    requires InBounds(data, s)
    ensures InBounds(data, r.state) && r.state.pos >= s.pos && r.state.limit <= s.limit
    ensures r.result.Ok? ==> r.state.limit == s.limit
    ensures r.result.Ok? ==> DeclOf(ct, c).newInstance.Some?
    ensures r.result.Ok? && DeclOf(ct, c).newInstance.Some? && DeclOf(ct, c).newInstance.value.Instance? ==>
              r.result.value.Instance? && r.result.value.cls == DeclOf(ct, c).newInstance.value.cls
    decreases s.limit - s.pos, 1
  {
    var instance := DeclOf(ct, c).newInstance;
    if instance.None? then Step(Err(InvalidJavaType), s)
    else ReadMessageF(ct, codec, data, DescriptorList(ct, c), instance.value, s)
  }

  /**
   * `readMessage(msg)`: a length, a limit that many bytes on, the nested
   * parse, a check that it stopped at a 0 tag (else invalidEndTag, with the
   * limit still in place), and the old limit restored.
   */
  function ReadMessageF(ct: ClassTable, codec: Codec, data: seq<Int8>, fieldList: seq<PBInfo>, obj: Value, s: InState)
    : (r: Step<Value>)
    requires InBounds(data, s)
    ensures InBounds(data, r.state) && r.state.pos >= s.pos && r.state.limit <= s.limit
    ensures r.result.Ok? ==> r.state.limit == s.limit && r.state.lastTag == 0
    ensures r.result.Ok? ==> r.result.value.Instance? == obj.Instance? &&
                             (obj.Instance? ==> r.result.value.cls == obj.cls)
    decreases s.limit - s.pos, 0
  {
    var len := VarintStep(codec, data, s);
    if len.result.Err? then Step(Err(len.result.error), len.state)
    else match PushedLimit(len.state, len.result.value)
      case Err(e) => Step(Err(e), len.state)
      case Ok(inner) =>
        var p := ParseFrom(ct, codec, data, fieldList, obj, inner);
        if p.state.lastTag != 0 then Step(Err(InvalidEndTag), p.state)
        else Step(Ok(p.obj), p.state.(limit := len.state.limit))
  }

  // ---- Facts about parsing ----

  /** At the limit, or at the end of the input, parsing reads nothing and leaves the object as it is. */
  lemma ParseAtLimit(ct: ClassTable, codec: Codec, data: seq<Int8>, fieldList: seq<PBInfo>, obj: Value, s: InState)
    requires InBounds(data, s) && s.pos == s.limit
    ensures ParseFrom(ct, codec, data, fieldList, obj, s) == Parsed(obj, s.(lastTag := 0))
  {
  }

  /**
   * A repeated field whose value is a list gets exactly one more element, the
   * value read, at its end; every other field keeps its value.
   */
  lemma RepeatedFieldAppends(ct: ClassTable, codec: Codec, data: seq<Int8>, info: PBInfo, obj: Value, tag: Int32,
                             s: InState)
    requires InBounds(data, s)
    requires info.fieldLabel == REPEATED && GetTagWireType(tag) == WireTypeOf(info.fieldType)
    requires obj.Instance? && GetField(obj, info.field).ListOf?
    ensures var r := MergeField(ct, codec, data, Some(info), obj, tag, s);
            var e := if info.fieldType == MESSAGE then RepeatedMessage(ct, codec, data, info, s)
                     else FieldStep(codec, data, info.fieldType, s);
            var list := GetField(obj, info.field);
            r.state == e.state && (r.failure.None? <==> e.result.Ok?) &&
            (e.result.Ok? ==>
               GetField(r.obj, info.field) == ListOf(list.cls, list.elements + [e.result.value]) &&
               forall g :: g != info.field ==> GetField(r.obj, g) == GetField(obj, g)) &&
            (e.result.Err? ==> r.obj == obj)
  {
  }

  /** Any other field is overwritten by the value read; every other field keeps its value. */
  lemma SingleFieldOverwritten(ct: ClassTable, codec: Codec, data: seq<Int8>, info: PBInfo, obj: Value, tag: Int32,
                               s: InState)
    requires InBounds(data, s)
    requires info.fieldLabel != REPEATED && GetTagWireType(tag) == WireTypeOf(info.fieldType)
    requires obj.Instance?
    ensures var r := MergeField(ct, codec, data, Some(info), obj, tag, s);
            var e := if info.fieldType == MESSAGE then NestedMessage(ct, codec, data, info.classType, s)
                     else FieldStep(codec, data, info.fieldType, s);
            r.state == e.state && (r.failure.None? <==> e.result.Ok?) &&
            (e.result.Ok? ==>
               GetField(r.obj, info.field) == e.result.value &&
               forall g :: g != info.field ==> GetField(r.obj, g) == GetField(obj, g)) &&
            (e.result.Err? ==> r.obj == obj)
  {
  }

  /**
   * A field that no descriptor has, or whose wire type does not match its
   * descriptor, is skipped: when the skip succeeds, parsing goes on from
   * just after the skipped value with the object as it was.
   */
  lemma ParseSkipsField(ct: ClassTable, codec: Codec, data: seq<Int8>, fieldList: seq<PBInfo>, obj: Value,
                        s: InState)
    requires InBounds(data, s)
    requires TagStep(codec, data, s).result.Ok? && TagStep(codec, data, s).result.value != 0
    requires var tag := TagStep(codec, data, s).result.value;
             var field := FieldByTag(fieldList, GetTagFieldNumber(tag));
             field.None? || GetTagWireType(tag) != WireTypeOf(field.value.fieldType)
    requires SkipStep(codec, data, TagStep(codec, data, s).result.value, TagStep(codec, data, s).state).result.Ok?
    ensures var k := SkipStep(codec, data, TagStep(codec, data, s).result.value, TagStep(codec, data, s).state);
            InBounds(data, k.state) &&
            ParseFrom(ct, codec, data, fieldList, obj, s) == ParseFrom(ct, codec, data, fieldList, obj, k.state)
  {
  }

  /**
   * An element of a polymorphic field whose discriminant a variant carries is
   * a nested message of that variant's class, read just after the discriminant.
   */
  lemma KnownDiscriminantDispatched(ct: ClassTable, codec: Codec, data: seq<Int8>, info: PBInfo, s: InState,
                                    c: JClass)
    requires InBounds(data, s) && IsPolymMessage(info)
    requires FieldStep(codec, data, INT32, s).result.Ok?
    requires codec.asInteger(FieldStep(codec, data, INT32, s).result.value).Ok?
    requires GetPolymClass(info, codec.asInteger(FieldStep(codec, data, INT32, s).result.value).value) == Ok(c)
    ensures RepeatedMessage(ct, codec, data, info, s) ==
              NestedMessage(ct, codec, data, c, FieldStep(codec, data, INT32, s).state)
  {
  }

  /**
   * An element of a polymorphic field whose discriminant no variant carries
   * makes the merge throw invalidTag after the discriminant, with the object
   * unchanged.
   */
  lemma UnknownDiscriminantRejected(ct: ClassTable, codec: Codec, data: seq<Int8>, info: PBInfo, obj: Value,
                                    tag: Int32, s: InState)
    requires InBounds(data, s)
    requires info.fieldLabel == REPEATED && IsPolymMessage(info) && GetTagWireType(tag) == WireTypeOf(MESSAGE)
    requires GetField(obj, info.field).ListOf? || GetField(obj, info.field).Null?
    requires FieldStep(codec, data, INT32, s).result.Ok?
    requires codec.asInteger(FieldStep(codec, data, INT32, s).result.value).Ok?
    requires var t := codec.asInteger(FieldStep(codec, data, INT32, s).result.value).value;
             forall j :: 0 <= j < |info.polymList.value| ==> info.polymList.value[j].tag != t
    ensures MergeField(ct, codec, data, Some(info), obj, tag, s) ==
              Merge(Some(InvalidTag), obj, FieldStep(codec, data, INT32, s).state)
  {
    var d := FieldStep(codec, data, INT32, s);
    var t := codec.asInteger(d.result.value).value;
    assert GetPolymClass(info, t) == Err(InvalidTag);
    assert RepeatedMessage(ct, codec, data, info, s) == Step(Err(InvalidTag), d.state);
  }

  /**
   * A parse whose next field is a polymorphic element with an unknown
   * discriminant stops there: the object keeps what was merged before it,
   * and the input is left just after the discriminant.
   */
  lemma ParseAbortsOnUnknownDiscriminant(ct: ClassTable, codec: Codec, data: seq<Int8>, fieldList: seq<PBInfo>,
                                         obj: Value, s: InState)
    requires InBounds(data, s)
    requires TagStep(codec, data, s).result.Ok? && TagStep(codec, data, s).result.value != 0
    requires var tag := TagStep(codec, data, s).result.value;
             var field := FieldByTag(fieldList, GetTagFieldNumber(tag));
             field.Some? && field.value.fieldLabel == REPEATED && IsPolymMessage(field.value) &&
             GetTagWireType(tag) == WireTypeOf(MESSAGE) &&
             (GetField(obj, field.value.field).ListOf? || GetField(obj, field.value.field).Null?)
    requires var t := TagStep(codec, data, s).state;
             var d := FieldStep(codec, data, INT32, t);
             d.result.Ok? && codec.asInteger(d.result.value).Ok? &&
             var info := FieldByTag(fieldList, GetTagFieldNumber(TagStep(codec, data, s).result.value)).value;
             forall j :: 0 <= j < |info.polymList.value| ==>
               info.polymList.value[j].tag != codec.asInteger(d.result.value).value
    ensures ParseFrom(ct, codec, data, fieldList, obj, s) ==
              Parsed(obj, FieldStep(codec, data, INT32, TagStep(codec, data, s).state).state)
  {
    var t := TagStep(codec, data, s);
    var info := FieldByTag(fieldList, GetTagFieldNumber(t.result.value)).value;
    UnknownDiscriminantRejected(ct, codec, data, info, obj, t.result.value, t.state);
  }

  /**
   * Parsing changes no field that none of the message's descriptors names,
   * and never the object's class.
   */
  lemma {:induction false} ParseFromFrame(ct: ClassTable, codec: Codec, data: seq<Int8>, fieldList: seq<PBInfo>,
                                          obj: Value, s: InState, g: FieldName)
    requires InBounds(data, s)
    requires forall i :: 0 <= i < |fieldList| ==> fieldList[i].field != g
    ensures var r := ParseFrom(ct, codec, data, fieldList, obj, s);
            GetField(r.obj, g) == GetField(obj, g) && r.obj.Instance? == obj.Instance? &&
            (obj.Instance? ==> r.obj.cls == obj.cls)
    decreases s.limit - s.pos
  {
    var t := TagStep(codec, data, s);
    if t.result.Ok? && t.result.value != 0 {
      var tag := t.result.value;
      var field := FieldByTag(fieldList, GetTagFieldNumber(tag));
      var m := MergeField(ct, codec, data, field, obj, tag, t.state);
      if m.obj != obj {
        assert field.Some? && field.value in fieldList;
        SetFieldKeepsOthers(obj, field.value.field, GetField(m.obj, field.value.field), g);
      }
      if m.failure.None? {
        ParseFromFrame(ct, codec, data, fieldList, m.obj, m.state, g);
      }
    }
  }

  // ---- Facts about the traversal and the scans ----

  /** The elements' writes: one per element, in order, exactly when no element throws. */
  lemma {:induction false} ElementsTraceSpec(ct: ClassTable, info: PBInfo, elements: seq<Value>)
    ensures ElementsTrace(ct, info, elements).complete <==>
              forall i :: 0 <= i < |elements| ==> ElementPiece(ct, info, elements[i]).Some?
    ensures ElementsTrace(ct, info, elements).complete ==>
              |ElementsTrace(ct, info, elements).pieces| == |elements| &&
              forall i :: 0 <= i < |elements| ==>
                ElementsTrace(ct, info, elements).pieces[i] == ElementPiece(ct, info, elements[i]).value
    decreases |elements|
  {
    if elements != [] {
      var prefix := elements[..|elements| - 1];
      ElementsTraceSpec(ct, info, prefix);
      assert forall i :: 0 <= i < |prefix| ==> prefix[i] == elements[i];
    }
  }

  /** A repeated field of a non-polymorphic type is written one element at a time, in list order, without failing. */
  lemma RepeatedFieldPieces(ct: ClassTable, info: PBInfo, obj: Value)
    requires info.fieldLabel == REPEATED && !IsPolymMessage(info)
    requires GetField(obj, info.field).ListOf?
    ensures FieldTrace(ct, info, obj).complete
    ensures |FieldTrace(ct, info, obj).pieces| == |GetField(obj, info.field).elements|
    ensures forall i :: 0 <= i < |GetField(obj, info.field).elements| ==>
              FieldTrace(ct, info, obj).pieces[i] ==
                FieldPiece(info.fieldType, info.tag, GetField(obj, info.field).elements[i])
  {
    ElementsTraceSpec(ct, info, GetField(obj, info.field).elements);
  }

  /** An element of a polymorphic field is written with the discriminant of its class, when it has one and a constructor. */
  lemma PolymElementPiece(ct: ClassTable, info: PBInfo, e: Value)
    requires IsPolymMessage(info)
    ensures ElementPiece(ct, info, e).Some? <==>
              !e.Null? && GetPolymTag(info, e.cls).Ok? && DeclOf(ct, e.cls).newInstance.Some?
    ensures ElementPiece(ct, info, e).Some? ==>
              ElementPiece(ct, info, e).value == DynamicPiece(info.tag, e, GetPolymTag(info, e.cls).value)
  {
  }

  /** A message whose descriptors are all optional is written one field per descriptor, in descriptor order. */
  lemma {:induction false} OptionalFieldsWalk(ct: ClassTable, fieldList: seq<PBInfo>, obj: Value)
    requires forall i :: 0 <= i < |fieldList| ==> fieldList[i].fieldLabel != REPEATED
    ensures Walk(ct, fieldList, obj).complete
    ensures |Walk(ct, fieldList, obj).pieces| == |fieldList|
    ensures forall i :: 0 <= i < |fieldList| ==>
              Walk(ct, fieldList, obj).pieces[i] ==
                FieldPiece(fieldList[i].fieldType, fieldList[i].tag, GetField(obj, fieldList[i].field))
    decreases |fieldList|
  {
    if fieldList != [] {
      var prefix := fieldList[..|fieldList| - 1];
      OptionalFieldsWalk(ct, prefix, obj);
      assert forall i :: 0 <= i < |prefix| ==> prefix[i] == fieldList[i];
    }
  }

  /** A traversal that stopped early is not extended by further descriptors; one that went on extends the earlier one. */
  lemma {:induction false} WalkPrefix(ct: ClassTable, fieldList: seq<PBInfo>, obj: Value, i: nat)
    requires i <= |fieldList|
    ensures Walk(ct, fieldList[..i], obj).pieces <= Walk(ct, fieldList, obj).pieces
    ensures !Walk(ct, fieldList[..i], obj).complete ==> Walk(ct, fieldList, obj) == Walk(ct, fieldList[..i], obj)
    decreases |fieldList| - i
  {
    if i == |fieldList| {
      assert fieldList[..i] == fieldList;
    } else {
      WalkPrefix(ct, fieldList, obj, i + 1);
      assert fieldList[..i + 1][..i] == fieldList[..i];
    }
  }

  /** The same for the elements of one repeated field. */
  lemma {:induction false} ElementsPrefix(ct: ClassTable, info: PBInfo, elements: seq<Value>, j: nat)
    requires j <= |elements|
    ensures ElementsTrace(ct, info, elements[..j]).pieces <= ElementsTrace(ct, info, elements).pieces
    ensures !ElementsTrace(ct, info, elements[..j]).complete ==>
              ElementsTrace(ct, info, elements) == ElementsTrace(ct, info, elements[..j])
    decreases |elements| - j
  {
    if j == |elements| {
      assert elements[..j] == elements;
    } else {
      ElementsPrefix(ct, info, elements, j + 1);
      assert elements[..j + 1][..j] == elements[..j];
    }
  }

  /** Summing sizes over two runs of writes: the second continues from the first's total, when the first had no failure. */
  lemma {:induction false} SizeScanAppend(codec: Codec, start: Int32, a: seq<Piece>, b: seq<Piece>)
    ensures SizeScan(codec, start, a + b) ==
              if !SizeScan(codec, start, a).ok then SizeScan(codec, start, a)
              else SizeScan(codec, SizeScan(codec, start, a).total, b)
    decreases |b|
  {
    if b == [] {
      assert a + b == a;
    } else {
      var b' := b[..|b| - 1];
      SizeScanAppend(codec, start, a, b');
      assert (a + b)[..|a + b| - 1] == a + b';
    }
  }

  /** Encoding two runs of writes: the second is appended only when the first had no failure. */
  lemma {:induction false} ByteScanAppend(codec: Codec, a: seq<Piece>, b: seq<Piece>)
    ensures ByteScan(codec, a + b) ==
              if !ByteScan(codec, a).ok then ByteScan(codec, a)
              else ByteRun(ByteScan(codec, a).bytes + ByteScan(codec, b).bytes, ByteScan(codec, b).ok)
    decreases |b|
  {
    if b == [] {
      assert a + b == a;
    } else {
      var b' := b[..|b| - 1];
      ByteScanAppend(codec, a, b');
      assert (a + b)[..|a + b| - 1] == a + b';
    }
  }

  /**
   * When sizes agree with encodings, the running sum is the start plus the
   * number of bytes written (wrapped to 32 bits), and it fails exactly when
   * the encoding does.
   */
  lemma {:induction false} ScansAgree(codec: Codec, start: Int32, ps: seq<Piece>)
    requires SizesAgree(codec)
    ensures SizeScan(codec, start, ps) ==
              SizeSum(Wrap32(start + |ByteScan(codec, ps).bytes|), ByteScan(codec, ps).ok)
    decreases |ps|
  {
    if ps != [] {
      var prefix, p := ps[..|ps| - 1], ps[|ps| - 1];
      ScansAgree(codec, start, prefix);
      PieceAgrees(codec, p);
      if ByteScan(codec, prefix).ok && PieceSize(codec, p).Ok? {
        WrapAdd(start + |ByteScan(codec, prefix).bytes|, PieceSize(codec, p).value);
      }
    }
  }

  /** One write's computed size exists exactly when its encoding does, and is its length. */
  lemma PieceAgrees(codec: Codec, p: Piece)
    requires SizesAgree(codec)
    ensures PieceSize(codec, p).Ok? <==> PieceBytes(codec, p).Ok?
    ensures PieceSize(codec, p).Ok? ==> |PieceBytes(codec, p).value| == PieceSize(codec, p).value
  {
  }

  /**
   * When sizes agree with encodings and the encoding is shorter than 2^31
   * bytes, `size()` is its length and the byte string `toByteString`
   * produces is exactly the encoding of the writes.
   */
  lemma ToByteStringExact(codec: Codec, ps: seq<Piece>)
    requires SizesAgree(codec)
    requires |ByteScan(codec, ps).bytes| < 0x8000_0000
    ensures SizeScan(codec, 0, ps).total == |ByteScan(codec, ps).bytes|
    ensures Padded(ByteScan(codec, ps).bytes, SizeScan(codec, 0, ps).total) == ByteScan(codec, ps).bytes
  {
    ScansAgree(codec, 0, ps);
    var bs := ByteScan(codec, ps).bytes;
    assert Truncate(bs, |bs|) == bs;
  }

  // ---- Size and serialization, step by step ----

  /** The class of messages over the static descriptor cache `builder`. */
  class PBMessage {
    const ct: ClassTable
    const fieldList: seq<PBInfo>
    var obj: Value

    constructor (ct: ClassTable, fieldList: seq<PBInfo>, obj: Value)
      ensures this.ct == ct && this.fieldList == fieldList && this.obj == obj
    {
      this.ct := ct;
      this.fieldList := fieldList;
      this.obj := obj;
    }

    /**
     * `new PBMessage(object)`: the descriptors of the object's class; any
     * failure (a null object, a class without a no-argument constructor)
     * becomes invalidJavaType.
     */
    static method OfObject(builder: FieldBuilder, o: Value) returns (r: Result<PBMessage, Exception>)
      requires builder.Valid()
      modifies builder
      ensures builder.Valid()
      ensures r.Ok? <==> !o.Null? && DeclOf(builder.ct, o.cls).newInstance.Some?
      ensures r.Err? ==> r.error == InvalidJavaType
      ensures r.Ok? ==>
                fresh(r.value) && r.value.ct == builder.ct && r.value.obj == o &&
                r.value.fieldList == DescriptorList(builder.ct, o.cls)
    {
      if o.Null? {
        return Err(InvalidJavaType);
      }
      var item := builder.Build(o.cls);
      if item.Err? {
        return Err(InvalidJavaType);
      }
      var m := new PBMessage(builder.ct, item.value.info, o);
      r := Ok(m);
    }

    /** `new PBMessage(type)`: the descriptors of the class and a new instance from its constructor. */
    static method OfClass(builder: FieldBuilder, c: JClass) returns (r: Result<PBMessage, Exception>)
      requires builder.Valid()
      modifies builder
      ensures builder.Valid()
      ensures r.Ok? <==> DeclOf(builder.ct, c).newInstance.Some?
      ensures r.Err? ==> r.error == InvalidJavaType
      ensures r.Ok? ==>
                fresh(r.value) && r.value.ct == builder.ct &&
                r.value.obj == DeclOf(builder.ct, c).newInstance.value &&
                r.value.fieldList == DescriptorList(builder.ct, c)
    {
      var item := builder.Build(c);
      if item.Err? {
        return Err(InvalidJavaType);
      }
      var m := new PBMessage(builder.ct, item.value.info, item.value.instance);
      r := Ok(m);
    }

    /**
     * `size()`: the computed sizes of the writes, summed in 32-bit arithmetic;
     * an exception ends the loop and the partial sum is returned.
     */
    method Size(codec: Codec, builder: FieldBuilder) returns (size: Int32)
      requires builder.Valid() && builder.ct == ct
      modifies builder
      ensures builder.Valid()
      ensures size == SizeScan(codec, 0, Walk(ct, fieldList, obj).pieces).total
    {
      size := 0;
      var i := 0;
      while i < |fieldList|
        invariant 0 <= i <= |fieldList| && builder.Valid()
        invariant Walk(ct, fieldList[..i], obj).complete
        invariant SizeScan(codec, 0, Walk(ct, fieldList[..i], obj).pieces) == SizeSum(size, true)
      {
        WalkSizeStep(codec, ct, fieldList, obj, i);
        var complete;
        size, complete := AddFieldSize(codec, builder, fieldList[i], size);
        if !complete {
          return;
        }
        i := i + 1;
      }
      assert fieldList[..i] == fieldList;
    }

    /** The size loop over one descriptor, added to `size0`; `complete` is false once an exception stops it. */
    method AddFieldSize(codec: Codec, builder: FieldBuilder, info: PBInfo, size0: Int32)
      returns (size: Int32, complete: bool)
      requires builder.Valid() && builder.ct == ct
      modifies builder
      ensures builder.Valid()
      ensures complete == (FieldTrace(ct, info, obj).complete && SizeScan(codec, size0, FieldTrace(ct, info, obj).pieces).ok)
      ensures size == SizeScan(codec, size0, FieldTrace(ct, info, obj).pieces).total
    {
      if info.fieldLabel != REPEATED {
        var n := codec.fieldSize(info.fieldType, info.tag, GetField(obj, info.field));
        SingleSizeScan(codec, size0, FieldPiece(info.fieldType, info.tag, GetField(obj, info.field)));
        if n.Err? {
          return size0, false;
        }
        return Wrap32(size0 + n.value), true;
      }
      var list := GetField(obj, info.field);
      if !list.ListOf? {
        return size0, false;
      }
      size, complete := AddElementsSize(codec, builder, info, list.elements, size0);
    }

    /**
     * `serialize(output)`: the writes, one after the other, into the output's
     * buffer. An exception (the encoder rejecting a value, the buffer running
     * out) ends the loop; what fitted stays written, the rest of the buffer is
     * untouched.
     */
    method Serialize(output: CodedOutput, builder: FieldBuilder)
      requires builder.Valid() && builder.ct == ct && output.Valid()
      modifies output, output.buffer, builder
      ensures builder.Valid() && output.Valid()
      ensures output.Written() ==
                Truncate(old(output.Written()) + ByteScan(output.codec, Walk(ct, fieldList, obj).pieces).bytes,
                         output.buffer.Length)
      ensures output.buffer[output.position..] == old(output.buffer[..])[output.position..]
    {
      ghost var w0 := output.Written();
      ghost var b0 := output.buffer[..];
      var i := 0;
      assert fieldList[..0] == [];
      while i < |fieldList|
        invariant builder.Valid() && output.Valid()
        invariant FieldsWritten(output.codec, ct, fieldList, obj, w0, i, output.Written(), output.buffer.Length)
        invariant output.buffer[output.position..] == b0[output.position..]
      {
        ghost var before := output.buffer[..];
        ghost var written := output.Written();
        var complete := AddFieldBytes(output, builder, fieldList[i]);
        TailKept(output.buffer[..], before, b0, |written|, output.position);
        if !complete {
          WalkWriteEnds(output.codec, ct, fieldList, obj, i, w0, written, output.buffer.Length);
          return;
        }
        WalkWriteStep(output.codec, ct, fieldList, obj, i, w0, written, output.buffer.Length);
        i := i + 1;
      }
      assert fieldList[..i] == fieldList;
    }

    /** The serialization loop over one descriptor; `complete` is false once an exception stops it. */
    method AddFieldBytes(output: CodedOutput, builder: FieldBuilder, info: PBInfo) returns (complete: bool)
      requires builder.Valid() && builder.ct == ct && output.Valid()
      modifies output, output.buffer, builder
      ensures builder.Valid() && output.Valid()
      ensures var f := FieldTrace(ct, info, obj);
              var bytes := old(output.Written()) + ByteScan(output.codec, f.pieces).bytes;
              output.Written() == Truncate(bytes, output.buffer.Length) &&
              complete == (f.complete && ByteScan(output.codec, f.pieces).ok && |bytes| <= output.buffer.Length)
      ensures output.buffer[output.position..] == old(output.buffer[..])[output.position..]
    {
      if info.fieldLabel != REPEATED {
        var p := FieldPiece(info.fieldType, info.tag, GetField(obj, info.field));
        SingleByteScan(output.codec, p);
        var e := WritePiece(output, p);
        return e.None?;
      }
      var list := GetField(obj, info.field);
      if !list.ListOf? {
        return false;
      }
      complete := AddElementsBytes(output, builder, info, list.elements);
    }

    /**
     * `toByteString()`: a zero-filled buffer of `size()` bytes, the
     * serialization into it, and a copy of the buffer; a negative size makes
     * the allocation throw, and the empty byte string is returned instead.
     */
    method ToByteString(codec: Codec, builder: FieldBuilder, empty: PBBytes) returns (r: PBBytes)
      requires builder.Valid() && builder.ct == ct
      modifies builder
      ensures builder.Valid()
      ensures var size := SizeScan(codec, 0, Walk(ct, fieldList, obj).pieces).total;
              (size < 0 ==> r == empty) &&
              (size >= 0 ==>
                 fresh(r) && r.Valid() &&
                 r.bytes[..] == Padded(ByteScan(codec, Walk(ct, fieldList, obj).pieces).bytes, size))
    {
      var size := Size(codec, builder);
      if size < 0 {
        return empty;
      }
      var buf := new Int8[size](_ => 0);
      ghost var blank := buf[..];
      var output := new CodedOutput(codec, buf);
      Serialize(output, builder);
      FilledBuffer(buf[..], output.position, blank, ByteScan(codec, Walk(ct, fieldList, obj).pieces).bytes);
      var copy := CopyFrom(buf);
      r := copy.value;
    }

    /** `getFieldByTag(tag)`: a scan of the descriptors for the first with that tag. */
    method GetFieldByTag(tag: Int32) returns (r: Option<PBInfo>)
      ensures r == FieldByTag(fieldList, tag)
    {
      var i := 0;
      while i < |fieldList|
        invariant 0 <= i <= |fieldList|
        invariant FieldByTag(fieldList, tag) == FieldByTag(fieldList[i..], tag)
      {
        assert fieldList[i..][1..] == fieldList[i + 1..];
        if fieldList[i].tag == tag {
          return Some(fieldList[i]);
        }
        i := i + 1;
      }
      r := None;
    }

    /**
     * `parse(input)`: the tag loop. It ends at a 0 tag or at the first
     * exception, which is swallowed; the object keeps what was merged.
     */
    method Parse(input: CodedInput, builder: FieldBuilder)
      requires input.Valid() && builder.Valid() && builder.ct == ct
      modifies this, input, builder
      ensures input.Valid() && builder.Valid()
      ensures Parsed(obj, input.State()) ==
                ParseFrom(ct, input.codec, input.data, fieldList, old(obj), old(input.State()))
      decreases input.limit - input.pos, 5
    {
      ghost var s0 := input.State();
      while true
        invariant input.Valid() && builder.Valid()
        invariant input.pos >= s0.pos && input.limit <= s0.limit
        invariant ParseFrom(ct, input.codec, input.data, fieldList, obj, input.State()) ==
                  ParseFrom(ct, input.codec, input.data, fieldList, old(obj), s0)
        decreases input.limit - input.pos
      {
        ghost var s := input.State();
        var tag := input.ReadTag();
        if tag.Err? || tag.value == 0 {
          return;
        }
        var field := GetFieldByTag(GetTagFieldNumber(tag.value));
        var failure := ParseAndMergeField(tag.value, field, input, builder);
        if failure.Some? {
          return;
        }
      }
    }

    /** `parseAndMergeField(tag, field, input)`, with the exception it throws as its result. */
    method ParseAndMergeField(tag: Int32, field: Option<PBInfo>, input: CodedInput, builder: FieldBuilder)
      returns (failure: Option<Exception>)
      requires input.Valid() && builder.Valid() && builder.ct == ct
      modifies this, input, builder
      ensures input.Valid() && builder.Valid()
      ensures Merge(failure, obj, input.State()) ==
                MergeField(ct, input.codec, input.data, field, old(obj), tag, old(input.State()))
      decreases input.limit - input.pos, 4
    {
      if field.None? || GetTagWireType(tag) != WireTypeOf(field.value.fieldType) {
        var k := input.SkipField(tag);
        return ErrorOf(k);
      }
      if field.value.fieldLabel == REPEATED {
        failure := MergeRepeatedField(field.value, input, builder);
      } else {
        failure := MergeSingleField(field.value, input, builder);
      }
    }

    /** The repeated-field branch of `parseAndMergeField`. */
    method MergeRepeatedField(info: PBInfo, input: CodedInput, builder: FieldBuilder) returns (failure: Option<Exception>)
      requires input.Valid() && builder.Valid() && builder.ct == ct
      modifies this, input, builder
      ensures input.Valid() && builder.Valid()
      ensures Merge(failure, obj, input.State()) ==
                MergeRepeated(ct, input.codec, input.data, info, old(obj), old(input.State()))
      decreases input.limit - input.pos, 3
    {
      var list := GetField(obj, info.field);
      if !list.Null? && !list.ListOf? {
        return Some(ClassCast);
      }
      var e;
      if info.fieldType == MESSAGE {
        e := ReadRepeatedMessage(info, input, builder);
      } else {
        e := input.ReadField(info.fieldType);
      }
      if e.Err? {
        return Some(e.error);
      }
      if list.Null? {
        return Some(NullPointer);
      }
      obj := SetField(obj, info.field, ListOf(list.cls, list.elements + [e.value]));
      failure := None;
    }

    /** The branch of `parseAndMergeField` for any other field. */
    method MergeSingleField(info: PBInfo, input: CodedInput, builder: FieldBuilder) returns (failure: Option<Exception>)
      requires input.Valid() && builder.Valid() && builder.ct == ct
      modifies this, input, builder
      ensures input.Valid() && builder.Valid()
      ensures Merge(failure, obj, input.State()) ==
                MergeSingle(ct, input.codec, input.data, info, old(obj), old(input.State()))
      decreases input.limit - input.pos, 3
    {
      var e;
      if info.fieldType == MESSAGE {
        e := ReadNested(info.classType, input, builder);
      } else {
        e := input.ReadField(info.fieldType);
      }
      if e.Err? {
        return Some(e.error);
      }
      obj := SetField(obj, info.field, e.value);
      failure := None;
    }
  }

  /** An element of a repeated message field, read after its discriminant when the field is polymorphic. */
  method ReadRepeatedMessage(info: PBInfo, input: CodedInput, builder: FieldBuilder) returns (r: Result<Value, Exception>)
    requires input.Valid() && builder.Valid()
    modifies input, builder
    ensures input.Valid() && builder.Valid()
    ensures Step(r, input.State()) == RepeatedMessage(builder.ct, input.codec, input.data, info, old(input.State()))
    decreases input.limit - input.pos, 2
  {
    if !IsPolymMessage(info) {
      r := ReadNested(info.classType, input, builder);
      return;
    }
    var d := input.ReadField(INT32);
    if d.Err? {
      return Err(d.error);
    }
    var polymTag := input.codec.asInteger(d.value);
    if polymTag.Err? {
      return Err(polymTag.error);
    }
    var c := GetPolymClass(info, polymTag.value);
    if c.Err? {
      return Err(c.error);
    }
    r := ReadNested(c.value, input, builder);
  }

  /** A nested message of class `c`: a new message of that class, read from the input. */
  method ReadNested(c: JClass, input: CodedInput, builder: FieldBuilder) returns (r: Result<Value, Exception>)
    requires input.Valid() && builder.Valid()
    modifies input, builder
    ensures input.Valid() && builder.Valid()
    ensures Step(r, input.State()) == NestedMessage(builder.ct, input.codec, input.data, c, old(input.State()))
    decreases input.limit - input.pos, 1
  {
    var m := PBMessage.OfClass(builder, c);
    if m.Err? {
      return Err(m.error);
    }
    var failure := ReadMessage(input, m.value, builder);
    r := if failure.Some? then Err(failure.value) else Ok(m.value.obj);
  }

  /** `readMessage(msg)`: a length-delimited nested message parsed into `msg`. */
  method ReadMessage(input: CodedInput, msg: PBMessage, builder: FieldBuilder) returns (failure: Option<Exception>)
    requires input.Valid() && builder.Valid() && builder.ct == msg.ct
    modifies input, msg, builder
    ensures input.Valid() && builder.Valid()
    ensures Step(if failure.Some? then Err(failure.value) else Ok(msg.obj), input.State()) ==
              ReadMessageF(msg.ct, input.codec, input.data, msg.fieldList, old(msg.obj), old(input.State()))
    decreases input.limit - input.pos, 0
  {
    var length := input.ReadRawVarint32();
    if length.Err? {
      return Some(length.error);
    }
    var oldLimit := input.PushLimit(length.value);
    if oldLimit.Err? {
      return Some(oldLimit.error);
    }
    msg.Parse(input, builder);
    if input.lastTag != 0 {
      return Some(InvalidEndTag);
    }
    input.PopLimit(oldLimit.value);
    failure := None;
  }

  /** One more descriptor: the traversal of the first `i + 1` descriptors appends its writes. */
  lemma WalkStep(ct: ClassTable, fieldList: seq<PBInfo>, obj: Value, i: nat)
    requires i < |fieldList|
    requires Walk(ct, fieldList[..i], obj).complete
    ensures Walk(ct, fieldList[..i + 1], obj) ==
              Trace(Walk(ct, fieldList[..i], obj).pieces + FieldTrace(ct, fieldList[i], obj).pieces,
                    FieldTrace(ct, fieldList[i], obj).complete)
  {
    assert fieldList[..i + 1][..i] == fieldList[..i];
  }

  /** One more descriptor in the size loop: its writes' sizes are added, and an exception there ends the sum. */
  lemma WalkSizeStep(codec: Codec, ct: ClassTable, fieldList: seq<PBInfo>, obj: Value, i: nat)
    requires i < |fieldList|
    requires Walk(ct, fieldList[..i], obj).complete
    requires SizeScan(codec, 0, Walk(ct, fieldList[..i], obj).pieces).ok
    ensures var before := SizeScan(codec, 0, Walk(ct, fieldList[..i], obj).pieces).total;
            var f := FieldTrace(ct, fieldList[i], obj);
            var fs := SizeScan(codec, before, f.pieces);
            if f.complete && fs.ok then
              Walk(ct, fieldList[..i + 1], obj).complete &&
              SizeScan(codec, 0, Walk(ct, fieldList[..i + 1], obj).pieces) == fs
            else
              SizeScan(codec, 0, Walk(ct, fieldList, obj).pieces).total == fs.total
  {
    var w := Walk(ct, fieldList[..i], obj).pieces;
    var t := FieldTrace(ct, fieldList[i], obj);
    WalkStep(ct, fieldList, obj, i);
    SizeScanAppend(codec, 0, w, t.pieces);
    WalkPrefix(ct, fieldList, obj, i + 1);
    if t.complete && !SizeScan(codec, 0, w + t.pieces).ok {
      PrefixSizeScan(codec, 0, w + t.pieces, Walk(ct, fieldList, obj).pieces);
    }
  }

  /** Once a run of writes has failed, longer runs that extend it sum to the same. */
  lemma PrefixSizeScan(codec: Codec, start: Int32, a: seq<Piece>, b: seq<Piece>)
    requires a <= b && !SizeScan(codec, start, a).ok
    ensures SizeScan(codec, start, b) == SizeScan(codec, start, a)
  {
    assert a + b[|a|..] == b;
    SizeScanAppend(codec, start, a, b[|a|..]);
  }

  /** One write alone: its size added to the start, or the failure. */
  lemma SingleSizeScan(codec: Codec, start: Int32, p: Piece)
    ensures SizeScan(codec, start, [p]) ==
              if PieceSize(codec, p).Err? then SizeSum(start, false)
              else SizeSum(Wrap32(start + PieceSize(codec, p).value), true)
  {
    assert [p][..0] == [];
  }

  /** The size loop over the elements of a repeated field, added to `size0`. */
  method AddElementsSize(codec: Codec, builder: FieldBuilder, info: PBInfo, es: seq<Value>, size0: Int32)
    returns (size: Int32, complete: bool)
    requires builder.Valid()
    modifies builder
    ensures builder.Valid()
    ensures complete == (ElementsTrace(builder.ct, info, es).complete &&
                         SizeScan(codec, size0, ElementsTrace(builder.ct, info, es).pieces).ok)
    ensures size == SizeScan(codec, size0, ElementsTrace(builder.ct, info, es).pieces).total
  {
    size := size0;
    ghost var ct := builder.ct;
    var j := 0;
    assert es[..0] == [];
    while j < |es|
      invariant builder.Valid()
      invariant ElementsSized(codec, ct, info, es, size0, j, size)
    {
      var p := ElementWrite(builder, info, es[j]);
      ElementsSizeStep(codec, ct, info, es, j, p, size0, size);
      if p.None? {
        return size, false;
      }
      var n := PieceSize(codec, p.value);
      if n.Err? {
        return size, false;
      }
      size := Wrap32(size + n.value);
      j := j + 1;
    }
    assert es[..j] == es;
    complete := true;
  }

  /**
   * The part of the loops that turns one element into a write: for a
   * polymorphic field, its discriminant and a message of its own (which goes
   * through the descriptor cache); None when that throws.
   */
  method ElementWrite(builder: FieldBuilder, info: PBInfo, e: Value) returns (p: Option<Piece>)
    requires builder.Valid()
    modifies builder
    ensures builder.Valid()
    ensures p == ElementPiece(builder.ct, info, e)
  {
    if IsPolymMessage(info) {
      if e.Null? {
        return None;
      }
      var polymTag := GetPolymTag(info, e.cls);
      if polymTag.Err? {
        return None;
      }
      var m := PBMessage.OfObject(builder, e);
      if m.Err? {
        return None;
      }
      return Some(DynamicPiece(info.tag, e, polymTag.value));
    }
    return Some(FieldPiece(info.fieldType, info.tag, e));
  }

  /** One more element: the trace of the first `j + 1` elements appends its write, or stops. */
  lemma ElementsStep(ct: ClassTable, info: PBInfo, es: seq<Value>, j: nat)
    requires j < |es|
    requires ElementsTrace(ct, info, es[..j]).complete
    ensures ElementsTrace(ct, info, es[..j + 1]) ==
              match ElementPiece(ct, info, es[j])
              case None => Trace(ElementsTrace(ct, info, es[..j]).pieces, false)
              case Some(p) => Trace(ElementsTrace(ct, info, es[..j]).pieces + [p], true)
  {
    assert es[..j + 1][..j] == es[..j];
  }

  /** The size loop has added the sizes of the first `j` elements to `start`, giving `size`, with no exception. */
  predicate ElementsSized(codec: Codec, ct: ClassTable, info: PBInfo, es: seq<Value>, start: Int32, j: nat, size: Int32) {
    j <= |es| && ElementsTrace(ct, info, es[..j]).complete &&
    SizeScan(codec, start, ElementsTrace(ct, info, es[..j]).pieces) == SizeSum(size, true)
  }

  /** One more element in the size loop: it stops the loop, or adds its size to the running total. */
  lemma ElementsSizeStep(codec: Codec, ct: ClassTable, info: PBInfo, es: seq<Value>, j: nat, p: Option<Piece>,
                         start: Int32, size: Int32)
    requires j < |es| && p == ElementPiece(ct, info, es[j])
    requires ElementsSized(codec, ct, info, es, start, j, size)
    ensures p.None? ==>
              !ElementsTrace(ct, info, es).complete &&
              SizeScan(codec, start, ElementsTrace(ct, info, es).pieces) == SizeSum(size, true)
    ensures p.Some? && PieceSize(codec, p.value).Err? ==>
              SizeScan(codec, start, ElementsTrace(ct, info, es).pieces) == SizeSum(size, false)
    ensures p.Some? && PieceSize(codec, p.value).Ok? ==>
              ElementsSized(codec, ct, info, es, start, j + 1, Wrap32(size + PieceSize(codec, p.value).value))
  {
    ElementsStep(ct, info, es, j);
    if p.None? {
      ElementsPrefix(ct, info, es, j + 1);
    } else {
      ElementSized(codec, start, ElementsTrace(ct, info, es[..j]).pieces, p.value, size);
      if PieceSize(codec, p.value).Err? {
        ElementsPrefix(ct, info, es, j + 1);
        PrefixSizeScan(codec, start, ElementsTrace(ct, info, es[..j + 1]).pieces, ElementsTrace(ct, info, es).pieces);
      }
    }
  }

  /** A run of writes summing to `size`, extended by one write: its size added, or the failure. */
  lemma ElementSized(codec: Codec, start: Int32, w: seq<Piece>, p: Piece, size: Int32)
    requires SizeScan(codec, start, w) == SizeSum(size, true)
    ensures SizeScan(codec, start, w + [p]) ==
              if PieceSize(codec, p).Err? then SizeSum(size, false)
              else SizeSum(Wrap32(size + PieceSize(codec, p).value), true)
  {
    SizeScanAppend(codec, start, w, [p]);
    SingleSizeScan(codec, size, p);
  }

  // ---- Serialization, step by step ----

  /** The one-byte-run counterpart of `SingleSizeScan`. */
  lemma SingleByteScan(codec: Codec, p: Piece)
    ensures ByteScan(codec, [p]) ==
              if PieceBytes(codec, p).Err? then ByteRun([], false) else ByteRun(PieceBytes(codec, p).value, true)
  {
    assert [p][..0] == [];
  }

  /** Once a run of writes has failed, longer runs that extend it write the same bytes. */
  lemma PrefixByteScan(codec: Codec, a: seq<Piece>, b: seq<Piece>)
    requires a <= b && !ByteScan(codec, a).ok
    ensures ByteScan(codec, b) == ByteScan(codec, a)
  {
    assert a + b[|a|..] == b;
    ByteScanAppend(codec, a, b[|a|..]);
  }

  /** A longer run of writes writes at least the bytes of a shorter one it extends. */
  lemma ByteScanPrefix(codec: Codec, a: seq<Piece>, b: seq<Piece>)
    requires a <= b
    ensures ByteScan(codec, a).bytes <= ByteScan(codec, b).bytes
  {
    assert a + b[|a|..] == b;
    ByteScanAppend(codec, a, b[|a|..]);
  }

  /** A buffer that already overflowed keeps the same bytes whatever is written after. */
  lemma TruncateLonger(s: seq<Int8>, t: seq<Int8>, n: nat)
    requires s <= t && |s| > n
    ensures |t| > n && Truncate(t, n) == Truncate(s, n)
  {
    assert t == s + t[|s|..];
    TruncateFull(s, t[|s|..], n);
  }

  /** A zero-filled buffer with `bytes` written from the front as far as they fit holds them padded with zeros. */
  lemma FilledBuffer(content: seq<Int8>, pos: nat, blank: seq<Int8>, bytes: seq<Int8>)
    requires pos <= |content| == |blank|
    requires forall k :: 0 <= k < |blank| ==> blank[k] == 0
    requires content[..pos] == Truncate([] + bytes, |content|)
    requires content[pos..] == blank[pos..]
    ensures content == Padded(bytes, |content|)
  {
    assert [] + bytes == bytes;
    var r := Padded(bytes, |content|);
    assert forall k :: 0 <= k < pos ==> content[k] == content[..pos][k] == r[k];
    assert forall k :: pos <= k < |content| ==> content[k] == content[pos..][k - pos] == blank[k] == 0 == r[k];
  }

  /** The untouched tail of a buffer shrinks as the write position moves on. */
  lemma TailKept(a: seq<Int8>, b: seq<Int8>, c: seq<Int8>, i: nat, j: nat)
    requires i <= j <= |a| == |b| == |c|
    requires a[j..] == b[j..] && b[i..] == c[i..]
    ensures a[j..] == c[j..]
  {
    assert forall k :: j <= k < |a| ==> a[k] == b[k] == b[i..][k - i] == c[i..][k - i] == c[k];
  }

  /**
   * `write` (a polymorphic element as a dynamic message, anything else as a
   * field) for one write: the bytes the encoder gives, as far as they fit.
   */
  method WritePiece(output: CodedOutput, p: Piece) returns (e: Option<Exception>)
    requires output.Valid()
    modifies output, output.buffer
    ensures output.Valid()
    ensures PieceBytes(output.codec, p).Err? ==>
              e.Some? && output.position == old(output.position) && output.buffer[..] == old(output.buffer[..])
    ensures PieceBytes(output.codec, p).Ok? ==>
              (e.None? <==> old(output.position) + |PieceBytes(output.codec, p).value| <= output.buffer.Length) &&
              output.Written() == Truncate(old(output.Written()) + PieceBytes(output.codec, p).value, output.buffer.Length) &&
              output.buffer[output.position..] == old(output.buffer[..])[output.position..]
  {
    match p
    case FieldPiece(t, tag, v) =>
      e := output.WriteField(t, tag, v);
    case DynamicPiece(tag, v, polymTag) =>
      e := output.WriteDynamicMessage(tag, v, polymTag);
  }

  /** The serialization loop has written the first `i` descriptors' bytes after `w0`, all of them fitting in `cap`. */
  predicate FieldsWritten(codec: Codec, ct: ClassTable, fieldList: seq<PBInfo>, obj: Value,
                          w0: seq<Int8>, i: nat, written: seq<Int8>, cap: nat) {
    i <= |fieldList| && Walk(ct, fieldList[..i], obj).complete &&
    ByteScan(codec, Walk(ct, fieldList[..i], obj).pieces).ok &&
    written == w0 + ByteScan(codec, Walk(ct, fieldList[..i], obj).pieces).bytes && |written| <= cap
  }

  /** One more descriptor in the serialization loop: when its writes all succeed and fit, their bytes are appended. */
  lemma WalkWriteStep(codec: Codec, ct: ClassTable, fieldList: seq<PBInfo>, obj: Value,
                      i: nat, w0: seq<Int8>, written: seq<Int8>, cap: nat)
    requires i < |fieldList| && FieldsWritten(codec, ct, fieldList, obj, w0, i, written, cap)
    requires FieldTrace(ct, fieldList[i], obj).complete && ByteScan(codec, FieldTrace(ct, fieldList[i], obj).pieces).ok
    requires |written + ByteScan(codec, FieldTrace(ct, fieldList[i], obj).pieces).bytes| <= cap
    ensures FieldsWritten(codec, ct, fieldList, obj, w0, i + 1,
                          written + ByteScan(codec, FieldTrace(ct, fieldList[i], obj).pieces).bytes, cap)
  {
    var w := Walk(ct, fieldList[..i], obj).pieces;
    var t := FieldTrace(ct, fieldList[i], obj);
    WalkStep(ct, fieldList, obj, i);
    WrittenExtend(codec, w, t.pieces, w0, written);
  }

  /** Bytes written for a run of writes, followed by a successful run: the bytes of the combined run. */
  lemma WrittenExtend(codec: Codec, a: seq<Piece>, b: seq<Piece>, w0: seq<Int8>, written: seq<Int8>)
    requires ByteScan(codec, a).ok && written == w0 + ByteScan(codec, a).bytes
    requires ByteScan(codec, b).ok
    ensures ByteScan(codec, a + b).ok
    ensures written + ByteScan(codec, b).bytes == w0 + ByteScan(codec, a + b).bytes
  {
    ByteScanAppend(codec, a, b);
  }

  /**
   * The descriptor at which the serialization loop ends: what the buffer
   * keeps of all the writes is what it kept when the loop stopped, and an
   * overflow means all the writes do not fit either.
   */
  lemma WalkWriteEnds(codec: Codec, ct: ClassTable, fieldList: seq<PBInfo>, obj: Value,
                      i: nat, w0: seq<Int8>, written: seq<Int8>, cap: nat)
    requires i < |fieldList| && FieldsWritten(codec, ct, fieldList, obj, w0, i, written, cap)
    requires !(FieldTrace(ct, fieldList[i], obj).complete && ByteScan(codec, FieldTrace(ct, fieldList[i], obj).pieces).ok &&
               |written + ByteScan(codec, FieldTrace(ct, fieldList[i], obj).pieces).bytes| <= cap)
    ensures Truncate(w0 + ByteScan(codec, Walk(ct, fieldList, obj).pieces).bytes, cap) ==
              Truncate(written + ByteScan(codec, FieldTrace(ct, fieldList[i], obj).pieces).bytes, cap)
    ensures FieldTrace(ct, fieldList[i], obj).complete && ByteScan(codec, FieldTrace(ct, fieldList[i], obj).pieces).ok ==>
              |w0 + ByteScan(codec, Walk(ct, fieldList, obj).pieces).bytes| > cap
  {
    var t := FieldTrace(ct, fieldList[i], obj);
    if t.complete && ByteScan(codec, t.pieces).ok {
      WalkWriteOverflows(codec, ct, fieldList, obj, i, w0, written, cap);
    } else {
      WalkWriteStops(codec, ct, fieldList, obj, i, w0, written, cap);
    }
  }

  /** An exception in a descriptor's writes: all the writes are those before it and its own up to the exception. */
  lemma WalkWriteStops(codec: Codec, ct: ClassTable, fieldList: seq<PBInfo>, obj: Value,
                       i: nat, w0: seq<Int8>, written: seq<Int8>, cap: nat)
    requires i < |fieldList| && FieldsWritten(codec, ct, fieldList, obj, w0, i, written, cap)
    requires !FieldTrace(ct, fieldList[i], obj).complete || !ByteScan(codec, FieldTrace(ct, fieldList[i], obj).pieces).ok
    ensures w0 + ByteScan(codec, Walk(ct, fieldList, obj).pieces).bytes ==
              written + ByteScan(codec, FieldTrace(ct, fieldList[i], obj).pieces).bytes
  {
    var w := Walk(ct, fieldList[..i], obj).pieces;
    var t := FieldTrace(ct, fieldList[i], obj);
    WalkStep(ct, fieldList, obj, i);
    WalkPrefix(ct, fieldList, obj, i + 1);
    WrittenStops(codec, w, t.pieces, Walk(ct, fieldList, obj).pieces, w0, written);
  }

  /** A run of writes that ends at a failure, or at the last write: the bytes of any run that extends it. */
  lemma WrittenStops(codec: Codec, a: seq<Piece>, b: seq<Piece>, full: seq<Piece>, w0: seq<Int8>, written: seq<Int8>)
    requires ByteScan(codec, a).ok && written == w0 + ByteScan(codec, a).bytes
    requires a + b <= full && (!ByteScan(codec, b).ok || full == a + b)
    ensures w0 + ByteScan(codec, full).bytes == written + ByteScan(codec, b).bytes
  {
    if ByteScan(codec, b).ok {
      WrittenExtend(codec, a, b, w0, written);
    } else {
      WrittenFails(codec, a, b, w0, written);
      PrefixByteScan(codec, a + b, full);
    }
  }

  /** Bytes written for a run of writes, followed by a run that fails: the bytes of the combined, failed run. */
  lemma WrittenFails(codec: Codec, a: seq<Piece>, b: seq<Piece>, w0: seq<Int8>, written: seq<Int8>)
    requires ByteScan(codec, a).ok && written == w0 + ByteScan(codec, a).bytes
    requires !ByteScan(codec, b).ok
    ensures !ByteScan(codec, a + b).ok
    ensures written + ByteScan(codec, b).bytes == w0 + ByteScan(codec, a + b).bytes
  {
    ByteScanAppend(codec, a, b);
  }

  /** A descriptor whose writes overflow the buffer: all the writes overflow it, and it keeps the same bytes. */
  lemma WalkWriteOverflows(codec: Codec, ct: ClassTable, fieldList: seq<PBInfo>, obj: Value,
                           i: nat, w0: seq<Int8>, written: seq<Int8>, cap: nat)
    requires i < |fieldList| && FieldsWritten(codec, ct, fieldList, obj, w0, i, written, cap)
    requires FieldTrace(ct, fieldList[i], obj).complete && ByteScan(codec, FieldTrace(ct, fieldList[i], obj).pieces).ok
    requires |written + ByteScan(codec, FieldTrace(ct, fieldList[i], obj).pieces).bytes| > cap
    ensures |w0 + ByteScan(codec, Walk(ct, fieldList, obj).pieces).bytes| > cap
    ensures Truncate(w0 + ByteScan(codec, Walk(ct, fieldList, obj).pieces).bytes, cap) ==
              Truncate(written + ByteScan(codec, FieldTrace(ct, fieldList[i], obj).pieces).bytes, cap)
  {
    var w := Walk(ct, fieldList[..i], obj).pieces;
    var t := FieldTrace(ct, fieldList[i], obj);
    WalkStep(ct, fieldList, obj, i);
    WalkPrefix(ct, fieldList, obj, i + 1);
    WrittenOverflows(codec, w, t.pieces, Walk(ct, fieldList, obj).pieces, w0, written, cap);
  }

  /** A run of writes whose bytes overflow the buffer: every run that extends it overflows it, keeping the same bytes. */
  lemma WrittenOverflows(codec: Codec, a: seq<Piece>, b: seq<Piece>, full: seq<Piece>,
                         w0: seq<Int8>, written: seq<Int8>, cap: nat)
    requires ByteScan(codec, a).ok && written == w0 + ByteScan(codec, a).bytes
    requires ByteScan(codec, b).ok && a + b <= full
    requires |written + ByteScan(codec, b).bytes| > cap
    ensures |w0 + ByteScan(codec, full).bytes| > cap
    ensures Truncate(w0 + ByteScan(codec, full).bytes, cap) == Truncate(written + ByteScan(codec, b).bytes, cap)
  {
    WrittenExtend(codec, a, b, w0, written);
    ByteScanPrefix(codec, a + b, full);
    var all := ByteScan(codec, full).bytes;
    assert written + ByteScan(codec, b).bytes <= w0 + all;
    TruncateLonger(written + ByteScan(codec, b).bytes, w0 + all, cap);
  }

  /** The serialization loop over the elements of a repeated field. */
  method AddElementsBytes(output: CodedOutput, builder: FieldBuilder, info: PBInfo, es: seq<Value>)
    returns (complete: bool)
    requires builder.Valid() && output.Valid()
    modifies output, output.buffer, builder
    ensures builder.Valid() && output.Valid()
    ensures var all := ElementsTrace(builder.ct, info, es);
            var bytes := old(output.Written()) + ByteScan(output.codec, all.pieces).bytes;
            output.Written() == Truncate(bytes, output.buffer.Length) &&
            complete == (all.complete && ByteScan(output.codec, all.pieces).ok && |bytes| <= output.buffer.Length)
    ensures output.buffer[output.position..] == old(output.buffer[..])[output.position..]
  {
    ghost var ct := builder.ct;
    ghost var w0 := output.Written();
    ghost var b0 := output.buffer[..];
    var j := 0;
    assert es[..0] == [];
    while j < |es|
      invariant builder.Valid() && output.Valid()
      invariant ElementsWritten(output.codec, ct, info, es, w0, j, output.Written(), output.buffer.Length)
      invariant output.buffer[output.position..] == b0[output.position..]
    {
      var p := ElementWrite(builder, info, es[j]);
      ghost var before := output.buffer[..];
      ghost var written := output.Written();
      if p.None? {
        ElementsWriteStopped(output.codec, ct, info, es, j, w0, written, output.buffer.Length);
        return false;
      }
      var e := WritePiece(output, p.value);
      TailKept(output.buffer[..], before, b0, |written|, output.position);
      if e.Some? {
        if PieceBytes(output.codec, p.value).Err? {
          ElementsWriteFailed(output.codec, ct, info, es, j, p.value, w0, written, output.buffer.Length);
        } else {
          ElementsWriteOverflows(output.codec, ct, info, es, j, p.value, w0, written, output.buffer.Length);
        }
        return false;
      }
      ElementsWriteStep(output.codec, ct, info, es, j, p.value, w0, written, output.buffer.Length);
      j := j + 1;
    }
    assert es[..j] == es;
    return true;
  }

  /** The serialization loop has written the first `j` elements' bytes after `w0`, all of them fitting in `cap`. */
  predicate ElementsWritten(codec: Codec, ct: ClassTable, info: PBInfo, es: seq<Value>,
                            w0: seq<Int8>, j: nat, written: seq<Int8>, cap: nat) {
    j <= |es| && ElementsTrace(ct, info, es[..j]).complete &&
    ByteScan(codec, ElementsTrace(ct, info, es[..j]).pieces).ok &&
    written == w0 + ByteScan(codec, ElementsTrace(ct, info, es[..j]).pieces).bytes && |written| <= cap
  }

  /** One more element in the serialization loop: when it has a write that succeeds and fits, its bytes are appended. */
  lemma ElementsWriteStep(codec: Codec, ct: ClassTable, info: PBInfo, es: seq<Value>, j: nat, p: Piece,
                          w0: seq<Int8>, written: seq<Int8>, cap: nat)
    requires j < |es| && ElementPiece(ct, info, es[j]) == Some(p)
    requires ElementsWritten(codec, ct, info, es, w0, j, written, cap)
    requires PieceBytes(codec, p).Ok? && |written + PieceBytes(codec, p).value| <= cap
    ensures ElementsWritten(codec, ct, info, es, w0, j + 1, written + PieceBytes(codec, p).value, cap)
  {
    ElementsStep(ct, info, es, j);
    SingleByteScan(codec, p);
    WrittenExtend(codec, ElementsTrace(ct, info, es[..j]).pieces, [p], w0, written);
  }

  /** An element that throws before it is written: the loop ends, and all the writes are the ones before it. */
  lemma ElementsWriteStopped(codec: Codec, ct: ClassTable, info: PBInfo, es: seq<Value>, j: nat,
                             w0: seq<Int8>, written: seq<Int8>, cap: nat)
    requires j < |es| && ElementPiece(ct, info, es[j]).None?
    requires ElementsWritten(codec, ct, info, es, w0, j, written, cap)
    ensures !ElementsTrace(ct, info, es).complete
    ensures w0 + ByteScan(codec, ElementsTrace(ct, info, es).pieces).bytes == written
  {
    ElementsStep(ct, info, es, j);
    ElementsPrefix(ct, info, es, j + 1);
  }

  /** An element the encoder rejects: the loop ends, and all the writes are the ones before it. */
  lemma ElementsWriteFailed(codec: Codec, ct: ClassTable, info: PBInfo, es: seq<Value>, j: nat, p: Piece,
                            w0: seq<Int8>, written: seq<Int8>, cap: nat)
    requires j < |es| && ElementPiece(ct, info, es[j]) == Some(p) && PieceBytes(codec, p).Err?
    requires ElementsWritten(codec, ct, info, es, w0, j, written, cap)
    ensures !ByteScan(codec, ElementsTrace(ct, info, es).pieces).ok
    ensures w0 + ByteScan(codec, ElementsTrace(ct, info, es).pieces).bytes == written
  {
    var w := ElementsTrace(ct, info, es[..j]).pieces;
    ElementsStep(ct, info, es, j);
    ElementsPrefix(ct, info, es, j + 1);
    SingleByteScan(codec, p);
    WrittenFails(codec, w, [p], w0, written);
    assert written + [] == written;
    PrefixByteScan(codec, w + [p], ElementsTrace(ct, info, es).pieces);
  }

  /** An element whose bytes overflow the buffer: all the writes overflow it, and it keeps the same bytes. */
  lemma ElementsWriteOverflows(codec: Codec, ct: ClassTable, info: PBInfo, es: seq<Value>, j: nat, p: Piece,
                               w0: seq<Int8>, written: seq<Int8>, cap: nat)
    requires j < |es| && ElementPiece(ct, info, es[j]) == Some(p)
    requires ElementsWritten(codec, ct, info, es, w0, j, written, cap)
    requires PieceBytes(codec, p).Ok? && |written + PieceBytes(codec, p).value| > cap
    ensures |w0 + ByteScan(codec, ElementsTrace(ct, info, es).pieces).bytes| > cap
    ensures Truncate(w0 + ByteScan(codec, ElementsTrace(ct, info, es).pieces).bytes, cap) ==
              Truncate(written + PieceBytes(codec, p).value, cap)
  {
    ElementsStep(ct, info, es, j);
    ElementsPrefix(ct, info, es, j + 1);
    SingleByteScan(codec, p);
    WrittenOverflows(codec, ElementsTrace(ct, info, es[..j]).pieces, [p], ElementsTrace(ct, info, es).pieces,
                     w0, written, cap);
  }

}
