/**
 * The coded input and output streams the message code drives. Their byte
 * encodings (varints, fixed-width numbers, strings, nested messages) are not
 * modelled: a `Codec` value supplies them, and the streams below are written
 * on top of it with the framing the message code relies on: reading a tag,
 * reading or skipping one field, a stack of length limits, the last tag read,
 * and writing into a fixed-size buffer that fails when it is full.
 */
module CodedStream {
  import opened Wrappers
  import opened JavaInts
  import opened WireFormat
  import opened Reflection

  /** A number of bytes a successful read consumes: never zero. */
  type Width = n: int | 1 <= n witness 1

  /**
   * The encodings. Readers see the bytes from the current position up to the
   * current limit and report what they decoded and how many bytes it took;
   * writers report the bytes a field is written as, or its computed size, or
   * the exception the writer throws for that value. `asInteger` is the cast
   * of a decoded field to a boxed `Integer` and its unboxing.
   */
  datatype Codec = Codec(
    readVarint32: seq<Int8> -> Result<(Int32, Width), Exception>,
    readField: (FieldType, seq<Int8>) -> Result<(Value, Width), Exception>,
    skipField: (Int32, seq<Int8>) -> Result<nat, Exception>,
    asInteger: Value -> Result<Int32, Exception>,
    fieldBytes: (FieldType, Int32, Value) -> Result<seq<Int8>, Exception>,
    fieldSize: (FieldType, Int32, Value) -> Result<Int32, Exception>,
    dynamicBytes: (Int32, Value, Int32) -> Result<seq<Int8>, Exception>,
    dynamicSize: (Int32, Value, Int32) -> Result<Int32, Exception>)

  /** The writer's contract: a value has a size exactly when it can be written, and the size is the length written. */
  ghost predicate SizesAgree(codec: Codec) {
    (forall t, tag, v :: codec.fieldSize(t, tag, v).Ok? <==> codec.fieldBytes(t, tag, v).Ok?) &&
    (forall t, tag, v :: codec.fieldSize(t, tag, v).Ok? ==>
       |codec.fieldBytes(t, tag, v).value| == codec.fieldSize(t, tag, v).value) &&
    (forall tag, v, p :: codec.dynamicSize(tag, v, p).Ok? <==> codec.dynamicBytes(tag, v, p).Ok?) &&
    (forall tag, v, p :: codec.dynamicSize(tag, v, p).Ok? ==>
       |codec.dynamicBytes(tag, v, p).value| == codec.dynamicSize(tag, v, p).value)
  }

  /** The reader's state: position, current limit, and the last tag read. */
  datatype InState = InState(pos: nat, limit: nat, lastTag: Int32)

  predicate InBounds(data: seq<Int8>, s: InState) {
    s.pos <= s.limit <= |data|
  }

  /** The outcome of a read and the reader's state after it, whether it succeeded or threw. */
  datatype Step<T> = Step(result: Result<T, Exception>, state: InState)

  /** Advances past `w` decoded bytes, or reports a read past the limit as a truncated message. */
  function Consume<T>(value: T, w: Width, s: InState): (r: Step<T>)
    ensures r.result.Ok? <==> s.pos + w <= s.limit
    ensures r.result.Ok? ==> r.result.value == value && r.state == s.(pos := s.pos + w)
    ensures r.result.Err? ==> r.result.error == Truncated && r.state == s
  {
    if s.pos + w <= s.limit then Step(Ok(value), s.(pos := s.pos + w)) else Step(Err(Truncated), s)
  }

  /** `readRawVarint32()`. */
  function VarintStep(codec: Codec, data: seq<Int8>, s: InState): (r: Step<Int32>)
    requires InBounds(data, s)
    ensures InBounds(data, r.state) && r.state.limit == s.limit && r.state.lastTag == s.lastTag
    ensures r.result.Ok? ==> r.state.pos > s.pos
    ensures r.result.Err? ==> r.state == s
  {
    match codec.readVarint32(data[s.pos..s.limit])
    case Err(e) => Step(Err(e), s)
    case Ok((v, w)) => Consume(v, w, s)
  }

  /**
   * `readTag()`: 0 at the limit; otherwise the decoded tag becomes the last
   * tag, and a tag with field number 0 is rejected after it has been recorded.
   */
  function TagStep(codec: Codec, data: seq<Int8>, s: InState): (r: Step<Int32>)
    requires InBounds(data, s)
    ensures InBounds(data, r.state) && r.state.limit == s.limit && r.state.pos >= s.pos
    ensures s.pos == s.limit ==> r == Step(Ok(0), s.(lastTag := 0))
    ensures r.result.Ok? ==> r.state.lastTag == r.result.value
    ensures r.result.Ok? && r.result.value != 0 ==> r.state.pos > s.pos && GetTagFieldNumber(r.result.value) != 0
    ensures r.result.Err? ==>
              r.state == s ||
              (r.result.error == InvalidTag && GetTagFieldNumber(r.state.lastTag) == 0 && r.state.pos > s.pos)
  {
    if s.pos == s.limit then Step(Ok(0), s.(lastTag := 0))
    else
      var v := VarintStep(codec, data, s);
      if v.result.Err? then v
      else
        var s1 := v.state.(lastTag := v.result.value);
        if GetTagFieldNumber(v.result.value) == 0 then Step(Err(InvalidTag), s1)
        else Step(Ok(v.result.value), s1)
  }

  /** `readField(type)`. */
  function FieldStep(codec: Codec, data: seq<Int8>, t: FieldType, s: InState): (r: Step<Value>)
    requires InBounds(data, s)
    ensures InBounds(data, r.state) && r.state.limit == s.limit && r.state.lastTag == s.lastTag
    ensures r.result.Ok? ==> r.state.pos > s.pos
    ensures r.result.Err? ==> r.state == s
  {
    match codec.readField(t, data[s.pos..s.limit])
    case Err(e) => Step(Err(e), s)
    case Ok((v, w)) => Consume(v, w, s)
  }

  /** `skipField(tag)`: its boolean result is not used by the message code. */
  function SkipStep(codec: Codec, data: seq<Int8>, tag: Int32, s: InState): (r: Step<bool>)
    requires InBounds(data, s)
    ensures InBounds(data, r.state) && r.state.limit == s.limit && r.state.lastTag == s.lastTag
    ensures r.state.pos >= s.pos
    ensures r.result.Err? ==> r.state == s
  {
    match codec.skipField(tag, data[s.pos..s.limit])
    case Err(e) => Step(Err(e), s)
    case Ok(n) => if s.pos + n <= s.limit then Step(Ok(true), s.(pos := s.pos + n)) else Step(Err(Truncated), s)
  }

  /** `pushLimit(length)`: the new limit is `length` bytes on; negative or beyond the current limit is rejected. */
  function PushedLimit(s: InState, length: Int32): (r: Result<InState, Exception>)
    ensures length < 0 ==> r == Err(NegativeSize)
    ensures 0 <= length && s.pos + length > s.limit ==> r == Err(Truncated)
    ensures r.Ok? ==> r.value == s.(limit := s.pos + length) && r.value.limit <= s.limit
  {
    if length < 0 then Err(NegativeSize)
    else if s.pos + length > s.limit then Err(Truncated)
    else Ok(s.(limit := s.pos + length))
  }

  /** A prefix of `s` of at most `n` elements: what a buffer of capacity `n` keeps of `s`. */
  function Truncate(s: seq<Int8>, n: nat): (r: seq<Int8>)
    ensures |r| == if |s| <= n then |s| else n
    ensures r <= s
  {
    if |s| <= n then s else s[..n]
  }

  /** Once a buffer is full, later writes keep nothing. */
  lemma TruncateFull(s: seq<Int8>, t: seq<Int8>, n: nat)
    requires |s| >= n
    ensures Truncate(s + t, n) == Truncate(s, n)
  {
    assert (s + t)[..n] == s[..n];
  }

  /** Truncating in two steps is truncating the concatenation. */
  lemma TruncateAppend(s: seq<Int8>, t: seq<Int8>, n: nat)
    ensures Truncate(Truncate(s, n) + t, n) == Truncate(s + t, n)
  {
    if |s| >= n {
      TruncateFull(s[..n], t, n);
      TruncateFull(s, t, n);
    }
  }

  /** The array-backed coded output stream: a fixed buffer and a write position. */
  class CodedOutput {
    const codec: Codec
    const buffer: array<Int8>
    var position: nat

    predicate Valid()
      reads this
    {
      position <= buffer.Length
    }

    /** `newInstance(buf)`: writing starts at the front of the caller's buffer. */
    constructor (codec: Codec, buffer: array<Int8>)
      ensures Valid() && this.codec == codec && this.buffer == buffer && position == 0
    {
      this.codec := codec;
      this.buffer := buffer;
      position := 0;
    }

    /** What has been written so far. */
    function Written(): (w: seq<Int8>)
      reads this, buffer
      requires Valid()
      ensures |w| == position
    {
      buffer[..position]
    }

    /**
     * `writeRawBytes`: writes the bytes that fit; reports failure (an
     * OutOfSpaceException) when not all of them did.
     */
    method WriteRaw(bs: seq<Int8>) returns (ok: bool)
      requires Valid()
      modifies this, buffer
      ensures Valid()
      ensures ok <==> old(position) + |bs| <= buffer.Length
      ensures Written() == Truncate(old(Written()) + bs, buffer.Length)
      ensures buffer[position..] == old(buffer[..])[position..]
    {
      var p := position;
      var n := if |bs| <= buffer.Length - p then |bs| else buffer.Length - p;
      var k := 0;
      while k < n
        modifies buffer
        invariant 0 <= k <= n
        invariant buffer[..p + k] == old(buffer[..p]) + bs[..k]
        invariant buffer[p + k..] == old(buffer[..])[p + k..]
      {
        buffer[p + k] := bs[k];
        k := k + 1;
      }
      assert Truncate(old(Written()) + bs, buffer.Length) == old(buffer[..p]) + bs[..n];
      position := p + n;
      ok := n == |bs|;
    }

    /** `writeField(type, tag, value)`: a value the writer rejects throws before anything is written. */
    method WriteField(t: FieldType, tag: Int32, v: Value) returns (e: Option<Exception>)
      requires Valid()
      modifies this, buffer
      ensures Valid()
      ensures codec.fieldBytes(t, tag, v).Err? ==>
                e == Some(codec.fieldBytes(t, tag, v).error) && position == old(position) &&
                buffer[..] == old(buffer[..])
      ensures codec.fieldBytes(t, tag, v).Ok? ==>
                (e.None? <==> old(position) + |codec.fieldBytes(t, tag, v).value| <= buffer.Length) &&
                (e.Some? ==> e.value == OutOfSpace) &&
                Written() == Truncate(old(Written()) + codec.fieldBytes(t, tag, v).value, buffer.Length) &&
                buffer[position..] == old(buffer[..])[position..]
    {
      match codec.fieldBytes(t, tag, v)
      case Err(x) =>
        e := Some(x);
      case Ok(bs) =>
        var ok := WriteRaw(bs);
        e := if ok then None else Some(OutOfSpace);
    }

    /** `writeDynamicMessage(tag, message, polymTag)`: as `writeField`, for a polymorphic element. */
    method WriteDynamicMessage(tag: Int32, v: Value, polymTag: Int32) returns (e: Option<Exception>)
      requires Valid()
      modifies this, buffer
      ensures Valid()
      ensures codec.dynamicBytes(tag, v, polymTag).Err? ==>
                e == Some(codec.dynamicBytes(tag, v, polymTag).error) && position == old(position) &&
                buffer[..] == old(buffer[..])
      ensures codec.dynamicBytes(tag, v, polymTag).Ok? ==>
                (e.None? <==> old(position) + |codec.dynamicBytes(tag, v, polymTag).value| <= buffer.Length) &&
                (e.Some? ==> e.value == OutOfSpace) &&
                Written() == Truncate(old(Written()) + codec.dynamicBytes(tag, v, polymTag).value, buffer.Length) &&
                buffer[position..] == old(buffer[..])[position..]
    {
      match codec.dynamicBytes(tag, v, polymTag)
      case Err(x) =>
        e := Some(x);
      case Ok(bs) =>
        var ok := WriteRaw(bs);
        e := if ok then None else Some(OutOfSpace);
    }
  }

  /** The coded input stream over a byte array. */
  class CodedInput {
    const codec: Codec
    const data: seq<Int8>
    var pos: nat
    var limit: nat
    var lastTag: Int32

    predicate Valid()
      reads this
    {
      pos <= limit <= |data|
    }

    function State(): InState
      reads this
    {
      InState(pos, limit, lastTag)
    }

    /** `newInstance(buf)`: reading starts at the front, limited by the end of the data. */
    constructor (codec: Codec, data: seq<Int8>)
      ensures Valid() && this.codec == codec && this.data == data
      ensures State() == InState(0, |data|, 0)
    {
      this.codec := codec;
      this.data := data;
      pos := 0;
      limit := |data|;
      lastTag := 0;
    }

    method ReadRawVarint32() returns (r: Result<Int32, Exception>)
      requires Valid()
      modifies this
      ensures Valid()
      ensures Step(r, State()) == VarintStep(codec, data, old(State()))
    {
      var st := VarintStep(codec, data, State());
      pos, limit, lastTag := st.state.pos, st.state.limit, st.state.lastTag;
      r := st.result;
    }

    method ReadTag() returns (r: Result<Int32, Exception>)
      requires Valid()
      modifies this
      ensures Valid()
      ensures Step(r, State()) == TagStep(codec, data, old(State()))
    {
      if pos == limit {
        lastTag := 0;
        return Ok(0);
      }
      var v := ReadRawVarint32();
      if v.Err? {
        return v;
      }
      lastTag := v.value;
      if GetTagFieldNumber(lastTag) == 0 {
        return Err(InvalidTag);
      }
      return Ok(lastTag);
    }

    method ReadField(t: FieldType) returns (r: Result<Value, Exception>)
      requires Valid()
      modifies this
      ensures Valid()
      ensures Step(r, State()) == FieldStep(codec, data, t, old(State()))
    {
      var st := FieldStep(codec, data, t, State());
      pos := st.state.pos;
      r := st.result;
    }

    method SkipField(tag: Int32) returns (r: Result<bool, Exception>)
      requires Valid()
      modifies this
      ensures Valid()
      ensures Step(r, State()) == SkipStep(codec, data, tag, old(State()))
    {
      var st := SkipStep(codec, data, tag, State());
      pos := st.state.pos;
      r := st.result;
    }
  
    /** `pushLimit(length)`: on success the old limit is returned for the matching `popLimit`. */
    method PushLimit(length: Int32) returns (r: Result<nat, Exception>)
      requires Valid()
      modifies this
      ensures Valid()
      ensures r.Ok? <==> PushedLimit(old(State()), length).Ok?
      ensures r.Ok? ==> r.value == old(limit) && State() == PushedLimit(old(State()), length).value
      ensures r.Err? ==> r.error == PushedLimit(old(State()), length).error && State() == old(State())
    {
      var p := PushedLimit(State(), length);
      if p.Err? {
        return Err(p.error);
      }
      r := Ok(limit);
      limit := p.value.limit;
    }

    /** `popLimit(oldLimit)`: restores a limit saved by `pushLimit`. */
    method PopLimit(oldLimit: nat)
      requires Valid() && limit <= oldLimit <= |data|
      modifies this
      ensures Valid() && State() == old(State()).(limit := oldLimit)
    {
      limit := oldLimit;
    }
  }
}
