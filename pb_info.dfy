/**
 * The field descriptor: one entry of a message type's descriptor list, and
 * the two lookups of its polymorphic variant table (variant class to
 * discriminant and back).
 */
module Info {
  import opened Wrappers
  import opened JavaInts
  import opened WireFormat
  import opened Reflection

  /** One variant of a polymorphic repeated field: a concrete class and its discriminant. */
  datatype PolymItem = PolymItem(cls: JClass, tag: Int32)

  /** A field descriptor; `polymList` is None where the Java reference is null. */
  datatype PBInfo = PBInfo(
    tag: Int32,
    fieldType: FieldType,
    fieldLabel: FieldLabel,
    field: FieldName,
    classType: JClass,
    polymList: Option<seq<PolymItem>>)

  /** The position of the first item whose class is `c`; `|items|` when there is none. */
  function IndexOfClass(items: seq<PolymItem>, c: JClass): (i: nat)
    ensures i <= |items|
    ensures i < |items| ==> items[i].cls == c
    ensures forall j :: 0 <= j < i ==> items[j].cls != c
  {
    if |items| == 0 then 0
    else if items[0].cls == c then 0
    else 1 + IndexOfClass(items[1..], c)
  }

  /** The position of the first item whose discriminant is `t`; `|items|` when there is none. */
  function IndexOfTag(items: seq<PolymItem>, t: Int32): (i: nat)
    ensures i <= |items|
    ensures i < |items| ==> items[i].tag == t
    ensures forall j :: 0 <= j < i ==> items[j].tag != t
  {
    if |items| == 0 then 0
    else if items[0].tag == t then 0
    else 1 + IndexOfTag(items[1..], t)
  }

  /** `getPolymTag(cls)`: the discriminant of the first variant whose class is `c`, else invalidTag. */
  function GetPolymTag(info: PBInfo, c: JClass): (r: Result<Int32, Exception>)
    ensures r.Ok? <==>
              info.polymList.Some? &&
              exists j :: 0 <= j < |info.polymList.value| && info.polymList.value[j].cls == c
    ensures r.Err? ==> r.error == InvalidTag
    ensures r.Ok? ==>
              exists i :: 0 <= i < |info.polymList.value| &&
                info.polymList.value[i] == PolymItem(c, r.value) &&
                forall j :: 0 <= j < i ==> info.polymList.value[j].cls != c
  {
    if info.polymList.None? then Err(InvalidTag)
    else
      var items := info.polymList.value;
      var i := IndexOfClass(items, c);
      if i < |items| then Ok(items[i].tag) else Err(InvalidTag)
  }

  /** `getPolymClass(tag)`: the class of the first variant whose discriminant is `t`, else invalidTag. */
  function GetPolymClass(info: PBInfo, t: Int32): (r: Result<JClass, Exception>)
    ensures r.Ok? <==>
              info.polymList.Some? &&
              exists j :: 0 <= j < |info.polymList.value| && info.polymList.value[j].tag == t
    ensures r.Err? ==> r.error == InvalidTag
    ensures r.Ok? ==>
              exists i :: 0 <= i < |info.polymList.value| &&
                info.polymList.value[i] == PolymItem(r.value, t) &&
                forall j :: 0 <= j < i ==> info.polymList.value[j].tag != t
  {
    if info.polymList.None? then Err(InvalidTag)
    else
      var items := info.polymList.value;
      var i := IndexOfTag(items, t);
      if i < |items| then Ok(items[i].cls) else Err(InvalidTag)
  }

  /** `isPolymMessage()`: a message-typed field with a non-empty variant table. */
  predicate IsPolymMessage(info: PBInfo)
    ensures IsPolymMessage(info) ==> WireTypeOf(info.fieldType) == WIRETYPE_LENGTH_DELIMITED
    ensures info.polymList.None? || info.polymList.value == [] ==> !IsPolymMessage(info)
  {
    info.polymList.Some? && |info.polymList.value| > 0 && info.fieldType == MESSAGE
  }

  /** No two variants share a discriminant. */
  predicate DistinctTags(items: seq<PolymItem>) {
    forall i, j :: 0 <= i < j < |items| ==> items[i].tag != items[j].tag
  }

  /** No two variants share a class. */
  predicate DistinctClasses(items: seq<PolymItem>) {
    forall i, j :: 0 <= i < j < |items| ==> items[i].cls != items[j].cls
  }

  /** A polymorphic message field's elements are written with a length-delimited wire type. */
  lemma PolymMessageIsLengthDelimited(info: PBInfo)
    requires IsPolymMessage(info)
    ensures WireTypeOf(info.fieldType) == WIRETYPE_LENGTH_DELIMITED
    ensures GetPolymTag(info, info.polymList.value[0].cls).Ok?
    ensures GetPolymClass(info, info.polymList.value[0].tag) == Ok(info.polymList.value[0].cls)
  {
    var items := info.polymList.value;
    assert IndexOfClass(items, items[0].cls) == 0;
    assert IndexOfTag(items, items[0].tag) == 0;
  }

  /** With distinct discriminants, the class found for a class's discriminant is that class. */
  lemma {:induction false} ClassOfTagOfClass(info: PBInfo, c: JClass)
    requires info.polymList.Some? && DistinctTags(info.polymList.value)
    requires GetPolymTag(info, c).Ok?
    ensures GetPolymClass(info, GetPolymTag(info, c).value) == Ok(c)
  {
    var items := info.polymList.value;
    var i := IndexOfClass(items, c);
    var t := items[i].tag;
    var k := IndexOfTag(items, t);
    assert k < |items| && items[k].tag == t;
    assert k == i;
  }

  /** With distinct classes, the discriminant found for a discriminant's class is that discriminant. */
  lemma {:induction false} TagOfClassOfTag(info: PBInfo, t: Int32)
    requires info.polymList.Some? && DistinctClasses(info.polymList.value)
    requires GetPolymClass(info, t).Ok?
    ensures GetPolymTag(info, GetPolymClass(info, t).value) == Ok(t)
  {
    var items := info.polymList.value;
    var i := IndexOfTag(items, t);
    var c := items[i].cls;
    var k := IndexOfClass(items, c);
    assert k < |items| && items[k].cls == c;
    assert k == i;
  }
}
