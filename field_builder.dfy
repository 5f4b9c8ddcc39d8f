/**
 * The schema descriptor builder: from a class's annotated field declarations
 * to its ordered descriptor list, and the bounded first-in first-out cache
 * of built lists.
 */
module Builder {
  import opened Wrappers
  import opened JavaInts
  import opened WireFormat
  import opened Reflection
  import opened Info

  const MAX_CACHE_SIZE: nat := 20

  /** Whether some descriptor of `list` already carries tag `value`. */
  function TagTaken(list: seq<PBInfo>, value: Int32): (b: bool)
    ensures b <==> exists i :: 0 <= i < |list| && list[i].tag == value
  {
    if |list| == 0 then false
    else if list[0].tag == value then true
    else
      var rest := TagTaken(list[1..], value);
      assert forall i :: 1 <= i < |list| ==> list[i] == list[1..][i - 1];
      rest
  }

  /** `getFieldTag(value, list)`: the annotated tag, unless it is the sentinel -1 or already in the list. */
  function GetFieldTag(value: Int32, list: seq<PBInfo>): (r: Result<Int32, Exception>)
    ensures r.Ok? <==> value != -1 && forall i :: 0 <= i < |list| ==> list[i].tag != value
    ensures r.Ok? ==> r.value == value
    ensures r.Err? ==> r.error == InvalidTag
  {
    if value == -1 then Err(InvalidTag)
    else if TagTaken(list, value) then Err(InvalidTag)
    else Ok(value)
  }

  /** `getRealClassType(field)`: the element type of a List field, the field's own type otherwise. */
  function GetRealClassType(f: FieldDecl): (r: Result<JClass, Exception>)
    ensures f.declaredType != ListClass ==> r == Ok(f.declaredType)
    ensures f.declaredType == ListClass ==> (r.Ok? <==> |f.typeArguments| == 1)
    ensures f.declaredType == ListClass && r.Ok? ==> r.value == f.typeArguments[0]
    ensures r.Err? ==> r.error == InvalidJavaType
  {
    if f.declaredType == ListClass then
      if |f.typeArguments| != 1 then Err(InvalidJavaType) else Ok(f.typeArguments[0])
    else Ok(f.declaredType)
  }

  /** The host classes with a built-in scalar field type. */
  predicate IsScalarClass(c: JClass) {
    c in {Primitive(IntKind), Primitive(FloatKind), Primitive(DoubleKind), Primitive(LongKind),
          StringClass, BytesClass, Primitive(BooleanKind)}
  }

  /** `getFieldType(type)`: MESSAGE for an annotated class, the scalar type of a known host class, else invalidJavaType. */
  function GetFieldType(ct: ClassTable, c: JClass): (r: Result<FieldType, Exception>)
    ensures DeclOf(ct, c).isMessage ==> r == Ok(MESSAGE)
    ensures !DeclOf(ct, c).isMessage ==> (r.Ok? <==> IsScalarClass(c))
    ensures r.Err? ==> r.error == InvalidJavaType
    ensures !DeclOf(ct, c).isMessage && c == Primitive(IntKind) ==> r == Ok(INT32)
    ensures !DeclOf(ct, c).isMessage && c == Primitive(FloatKind) ==> r == Ok(FLOAT)
    ensures !DeclOf(ct, c).isMessage && c == Primitive(DoubleKind) ==> r == Ok(DOUBLE)
    ensures !DeclOf(ct, c).isMessage && c == Primitive(LongKind) ==> r == Ok(INT64)
    ensures !DeclOf(ct, c).isMessage && c == StringClass ==> r == Ok(STRING)
    ensures !DeclOf(ct, c).isMessage && c == BytesClass ==> r == Ok(BYTES)
    ensures !DeclOf(ct, c).isMessage && c == Primitive(BooleanKind) ==> r == Ok(BOOL)
  {
    if !DeclOf(ct, c).isMessage then
      if c == Primitive(IntKind) then Ok(INT32)
      else if c == Primitive(FloatKind) then Ok(FLOAT)
      else if c == Primitive(DoubleKind) then Ok(DOUBLE)
      else if c == Primitive(LongKind) then Ok(INT64)
      else if c == StringClass then Ok(STRING)
      else if c == BytesClass then Ok(BYTES)
      else if c == Primitive(BooleanKind) then Ok(BOOL)
      else Err(InvalidJavaType)
    else Ok(MESSAGE)
  }

  /** `getFieldLabel(field)`: REPEATED exactly for a List field; never REQUIRED. */
  function GetFieldLabel(f: FieldDecl): (l: FieldLabel)
    ensures l == REPEATED <==> f.declaredType == ListClass
    ensures l != REQUIRED
  {
    if f.declaredType == ListClass then REPEATED else OPTIONAL
  }

  /** The pairs `(classes[i], tags[i])` in declaration order. */
  function ZipPairs(classes: seq<JClass>, tags: seq<Int32>): (r: seq<PolymItem>)
    requires |classes| == |tags|
    ensures |r| == |classes|
    ensures forall i :: 0 <= i < |r| ==> r[i] == PolymItem(classes[i], tags[i])
  {
    if |classes| == 0 then []
    else [PolymItem(classes[0], tags[0])] + ZipPairs(classes[1..], tags[1..])
  }

  /** The variant table of a field: empty without the annotation, invalidTag for an empty or uneven one. */
  function PolymListOf(d: Option<PolymDef>): (r: Result<seq<PolymItem>, Exception>)
    ensures r.Err? <==> d.Some? && (|d.value.classes| == 0 || |d.value.classes| != |d.value.tags|)
    ensures r.Err? ==> r.error == InvalidTag
    ensures d.None? ==> r == Ok([])
  {
    if d.None? then Ok([])
    else if |d.value.classes| != 0 && |d.value.classes| == |d.value.tags| then
      Ok(ZipPairs(d.value.classes, d.value.tags))
    else Err(InvalidTag)
  }

  /** A field declaration every check of `addField` accepts, whatever the list built so far. */
  predicate WellFormed(ct: ClassTable, f: FieldDecl) {
    f.fieldDef.Some? &&
    PolymListOf(f.polymDef).Ok? &&
    GetRealClassType(f).Ok? &&
    f.fieldDef.value.tag != -1 &&
    (f.fieldDef.value.fieldType == UNKNOWN ==> GetFieldType(ct, GetRealClassType(f).value).Ok?)
  }

  /** The descriptor `addField` builds for an annotated field, given the descriptors already listed. */
  function FieldInfo(ct: ClassTable, f: FieldDecl, list: seq<PBInfo>): (r: Result<PBInfo, Exception>)
    requires f.fieldDef.Some?
    ensures r.Ok? <==> WellFormed(ct, f) && forall i :: 0 <= i < |list| ==> list[i].tag != f.fieldDef.value.tag
    ensures r.Ok? ==> r.value.tag == f.fieldDef.value.tag && r.value.field == f.name
    ensures r.Ok? ==> r.value.fieldLabel == GetFieldLabel(f) && r.value.classType == GetRealClassType(f).value
    ensures r.Ok? && f.fieldDef.value.fieldType != UNKNOWN ==> r.value.fieldType == f.fieldDef.value.fieldType
    ensures r.Ok? && f.fieldDef.value.fieldType == UNKNOWN ==>
              r.value.fieldType == GetFieldType(ct, r.value.classType).value
    ensures r.Ok? ==> r.value.polymList == Some(PolymListOf(f.polymDef).value)
  {
    var def := f.fieldDef.value;
    var polym := PolymListOf(f.polymDef);
    if polym.Err? then Err(polym.error)
    else
      var cls := GetRealClassType(f);
      if cls.Err? then Err(cls.error)
      else
        var tag := GetFieldTag(def.tag, list);
        if tag.Err? then Err(tag.error)
        else
          var ft := if def.fieldType == UNKNOWN then GetFieldType(ct, cls.value) else Ok(def.fieldType);
          if ft.Err? then Err(ft.error)
          else Ok(PBInfo(tag.value, ft.value, GetFieldLabel(f), f.name, cls.value, Some(polym.value)))
  }

  /** One iteration of `addField`'s loop: a descriptor is appended, or the field is dropped. */
  function AddFieldStep(ct: ClassTable, list: seq<PBInfo>, f: FieldDecl): seq<PBInfo> {
    if f.fieldDef.None? then list
    else
      var info := FieldInfo(ct, f, list);
      if info.Ok? then list + [info.value] else list
  }

  /** The list after `addField` has visited `fields` in order. */
  function Added(ct: ClassTable, list: seq<PBInfo>, fields: seq<FieldDecl>): seq<PBInfo>
    decreases |fields|
  {
    if |fields| == 0 then list
    else AddFieldStep(ct, Added(ct, list, fields[..|fields| - 1]), fields[|fields| - 1])
  }

  /** The descriptor list `Build` produces: the class's own fields, then those of an annotated superclass. */
  function DescriptorList(ct: ClassTable, c: JClass): seq<PBInfo> {
    var own := Added(ct, [], DeclOf(ct, c).fields);
    var sup := DeclOf(ct, c).superclass;
    if sup.Some? && DeclOf(ct, sup.value).isMessage then Added(ct, own, DeclOf(ct, sup.value).fields)
    else own
  }

  /** No two descriptors share a tag. */
  predicate DistinctTagList(list: seq<PBInfo>) {
    forall i, j :: 0 <= i < j < |list| ==> list[i].tag != list[j].tag
  }

  /** `addField` only appends: the list it starts from is a prefix, and at most one descriptor is added per field. */
  lemma {:induction false} AddedExtends(ct: ClassTable, list: seq<PBInfo>, fields: seq<FieldDecl>)
    ensures |list| <= |Added(ct, list, fields)| <= |list| + |fields|
    ensures Added(ct, list, fields)[..|list|] == list
  {
    if |fields| > 0 {
      AddedExtends(ct, list, fields[..|fields| - 1]);
    }
  }

  /** `addField` keeps the tags of the list pairwise distinct. */
  lemma {:induction false} AddedKeepsTagsDistinct(ct: ClassTable, list: seq<PBInfo>, fields: seq<FieldDecl>)
    requires DistinctTagList(list)
    ensures DistinctTagList(Added(ct, list, fields))
  {
    if |fields| > 0 {
      var prev := Added(ct, list, fields[..|fields| - 1]);
      AddedKeepsTagsDistinct(ct, list, fields[..|fields| - 1]);
      var f := fields[|fields| - 1];
      if f.fieldDef.Some? && FieldInfo(ct, f, prev).Ok? {
        var info := FieldInfo(ct, f, prev).value;
        var next := prev + [info];
        forall i, j | 0 <= i < j < |next| ensures next[i].tag != next[j].tag {
          if j == |prev| {
            assert next[i] == prev[i];
          } else {
            assert next[i] == prev[i] && next[j] == prev[j];
          }
        }
      }
    }
  }

  /** Every descriptor list `Build` produces has pairwise distinct tags, across the superclass pass too. */
  lemma DescriptorTagsDistinct(ct: ClassTable, c: JClass)
    ensures DistinctTagList(DescriptorList(ct, c))
  {
    var own := Added(ct, [], DeclOf(ct, c).fields);
    AddedKeepsTagsDistinct(ct, [], DeclOf(ct, c).fields);
    var sup := DeclOf(ct, c).superclass;
    if sup.Some? && DeclOf(ct, sup.value).isMessage {
      AddedKeepsTagsDistinct(ct, own, DeclOf(ct, sup.value).fields);
    }
  }

  /** Visiting `a` then `b` is visiting `a + b`. */
  lemma {:induction false} AddedConcat(ct: ClassTable, list: seq<PBInfo>, a: seq<FieldDecl>, b: seq<FieldDecl>)
    ensures Added(ct, list, a + b) == Added(ct, Added(ct, list, a), b)
  {
    if |b| == 0 {
      assert a + b == a;
    } else {
      var ab := a + b;
      assert ab[..|ab| - 1] == a + b[..|b| - 1];
      assert ab[|ab| - 1] == b[|b| - 1];
      AddedConcat(ct, list, a, b[..|b| - 1]);
    }
  }

  /** A malformed field is dropped and the fields around it are visited as if it were absent. */
  lemma MalformedFieldDropped(ct: ClassTable, list: seq<PBInfo>, a: seq<FieldDecl>, f: FieldDecl, b: seq<FieldDecl>)
    requires !WellFormed(ct, f)
    ensures Added(ct, list, a + [f] + b) == Added(ct, list, a + b)
  {
    AddedConcat(ct, list, a + [f], b);
    AddedConcat(ct, list, a, b);
    var af := a + [f];
    assert af[..|af| - 1] == a;
  }

  /** Every descriptor `addField` appends comes from an annotated field with the same name and tag. */
  lemma {:induction false} AddedFromFields(ct: ClassTable, list: seq<PBInfo>, fields: seq<FieldDecl>, k: nat)
    requires |list| <= k < |Added(ct, list, fields)|
    ensures exists j :: 0 <= j < |fields| && fields[j].fieldDef.Some? &&
              fields[j].name == Added(ct, list, fields)[k].field &&
              fields[j].fieldDef.value.tag == Added(ct, list, fields)[k].tag
  {
    var n := |fields|;
    var prev := Added(ct, list, fields[..n - 1]);
    AddedExtends(ct, list, fields[..n - 1]);
    var f := fields[n - 1];
    if k < |prev| {
      AddedFromFields(ct, list, fields[..n - 1], k);
      var j :| 0 <= j < n - 1 && fields[..n - 1][j].fieldDef.Some? &&
                fields[..n - 1][j].name == prev[k].field &&
                fields[..n - 1][j].fieldDef.value.tag == prev[k].tag;
      assert fields[j] == fields[..n - 1][j];
      assert Added(ct, list, fields)[k] == prev[k];
    } else {
      assert Added(ct, list, fields) == prev + [FieldInfo(ct, f, prev).value];
    }
  }

  /** An inferred field type is length-delimited exactly for strings, byte strings and messages. */
  lemma InferredWireType(ct: ClassTable, c: JClass)
    requires GetFieldType(ct, c).Ok?
    ensures WireTypeOf(GetFieldType(ct, c).value) == WIRETYPE_LENGTH_DELIMITED <==>
              DeclOf(ct, c).isMessage || c == StringClass || c == BytesClass
  {
  }

  /** `FieldInfoCacheItem`: a class, the object its no-argument constructor creates, and its descriptor list. */
  class CacheItem {
    const cls: JClass
    const instance: Value
    var info: seq<PBInfo>

    constructor (cls: JClass, instance: Value)
      ensures this.cls == cls && this.instance == instance && info == []
    {
      this.cls := cls;
      this.instance := instance;
      info := [];
    }
  }

  /** `getCache(type)`: the first cached item for class `c`, if any. */
  function FindItem(items: seq<CacheItem>, c: JClass): (r: Option<CacheItem>)
    ensures r.None? <==> forall i :: 0 <= i < |items| ==> items[i].cls != c
    ensures r.Some? ==>
              exists i :: 0 <= i < |items| && items[i] == r.value && r.value.cls == c &&
                forall j :: 0 <= j < i ==> items[j].cls != c
  {
    if |items| == 0 then None
    else if items[0].cls == c then Some(items[0])
    else
      var rest := FindItem(items[1..], c);
      assert forall i :: 1 <= i < |items| ==> items[i] == items[1..][i - 1];
      rest
  }

  /** The queue after `offer` and, when it has grown past the bound, `poll`. */
  function Bounded(q: seq<CacheItem>): (r: seq<CacheItem>)
    requires |q| > 0
    ensures |q| <= MAX_CACHE_SIZE ==> r == q
    ensures |q| > MAX_CACHE_SIZE ==> r == q[1..]
  {
    if |q| > MAX_CACHE_SIZE then q[1..] else q
  }

  /** The static descriptor cache of `FieldBuilder`, over a fixed table of classes. */
  class FieldBuilder {
    const ct: ClassTable
    var cache: seq<CacheItem>

    /** At most 20 entries, one per class, each holding its class's full descriptor list. */
    predicate Valid()
      reads this, cache
    {
      |cache| <= MAX_CACHE_SIZE &&
      (forall i :: 0 <= i < |cache| ==>
        cache[i].info == DescriptorList(ct, cache[i].cls) &&
        DeclOf(ct, cache[i].cls).newInstance == Some(cache[i].instance)) &&
      (forall i, j :: 0 <= i < j < |cache| ==> cache[i].cls != cache[j].cls)
    }

    constructor (ct: ClassTable)
      ensures Valid() && this.ct == ct && cache == []
    {
      this.ct := ct;
      cache := [];
    }

    /** `new FieldInfoCacheItem(type, list)`: fails with NoSuchMethod when the class has no no-argument constructor. */
    method NewCacheItem(c: JClass) returns (r: Result<CacheItem, Exception>)
      ensures r.Err? <==> DeclOf(ct, c).newInstance.None?
      ensures r.Err? ==> r.error == NoSuchMethod
      ensures r.Ok? ==> fresh(r.value) && r.value.cls == c &&
                        Some(r.value.instance) == DeclOf(ct, c).newInstance && r.value.info == []
    {
      var ctor := DeclOf(ct, c).newInstance;
      if ctor.None? {
        return Err(NoSuchMethod);
      }
      var item := new CacheItem(c, ctor.value);
      return Ok(item);
    }

    /** The loop of `addField` that zips a variant annotation into its table. */
    method ZipVariants(d: PolymDef) returns (r: Result<seq<PolymItem>, Exception>)
      ensures r == PolymListOf(Some(d))
    {
      var classes := d.classes;
      var tags := d.tags;
      if |classes| != 0 && |classes| == |tags| {
        var items: seq<PolymItem> := [];
        var i := 0;
        while i < |classes|
          invariant 0 <= i <= |classes|
          invariant |items| == i
          invariant forall k :: 0 <= k < i ==> items[k] == PolymItem(classes[k], tags[k])
        {
          items := items + [PolymItem(classes[i], tags[i])];
          i := i + 1;
        }
        assert items == ZipPairs(classes, tags);
        return Ok(items);
      }
      return Err(InvalidTag);
    }

    /** `addField(type, list)`: visits the declared fields of `c` in order, appending to `item.info`. */
    method AddField(c: JClass, item: CacheItem)
      modifies item
      ensures item.info == Added(ct, old(item.info), DeclOf(ct, c).fields)
    {
      var fields := DeclOf(ct, c).fields;
      var i := 0;
      while i < |fields|
        invariant 0 <= i <= |fields|
        invariant item.info == Added(ct, old(item.info), fields[..i])
      {
        var f := fields[i];
        assert fields[..i + 1][..i] == fields[..i];
        if f.fieldDef.Some? {
          var def := f.fieldDef.value;
          var polym: Result<seq<PolymItem>, Exception> := Ok([]);
          if f.polymDef.Some? {
            polym := ZipVariants(f.polymDef.value);
          }
          if polym.Ok? {
            var cls := GetRealClassType(f);
            if cls.Ok? {
              var tag := GetFieldTag(def.tag, item.info);
              var ft := if def.fieldType == UNKNOWN then GetFieldType(ct, cls.value) else Ok(def.fieldType);
              if tag.Ok? && ft.Ok? {
                item.info := item.info + [PBInfo(tag.value, ft.value, GetFieldLabel(f), f.name, cls.value, Some(polym.value))];
              }
            }
          }
        }
        i := i + 1;
      }
      assert fields[..|fields|] == fields;
    }

    /**
     * `Build(type)`: a cached item on a hit; on a miss a new item is queued,
     * the oldest evicted past 20 entries, and only then are its fields added.
     */
    method Build(c: JClass) returns (r: Result<CacheItem, Exception>)
      requires Valid()
      modifies this
      ensures Valid()
      ensures r.Ok? ==> r.value.cls == c && r.value.info == DescriptorList(ct, c) && r.value in cache
      ensures r.Ok? ==> DeclOf(ct, c).newInstance == Some(r.value.instance)
      ensures r.Ok? <==> DeclOf(ct, c).newInstance.Some?
      ensures r.Err? ==> r.error == NoSuchMethod
      ensures old(FindItem(cache, c)).Some? ==> r == Ok(old(FindItem(cache, c)).value) && cache == old(cache)
      ensures old(FindItem(cache, c)).None? && DeclOf(ct, c).newInstance.None? ==>
                r == Err(NoSuchMethod) && cache == old(cache)
      ensures old(FindItem(cache, c)).None? && DeclOf(ct, c).newInstance.Some? ==>
                r.Ok? && fresh(r.value) && cache == Bounded(old(cache) + [r.value])
    {
      var hit := FindItem(cache, c);
      if hit.Some? {
        return Ok(hit.value);
      }
      var made := NewCacheItem(c);
      if made.Err? {
        return made;
      }
      var item := made.value;
      cache := cache + [item];
      if |cache| > MAX_CACHE_SIZE {
        cache := cache[1..];
      }
      assert cache[|cache| - 1] == item;
      FillItem(c, item);
      return Ok(item);
    }

    /** The two `addField` calls of `Build`: the class's own fields, then those of an annotated superclass. */
    method FillItem(c: JClass, item: CacheItem)
      requires item.info == []
      modifies item
      ensures item.info == DescriptorList(ct, c)
    {
      AddField(c, item);
      var sup := DeclOf(ct, c).superclass;
      if sup.Some? {
        if DeclOf(ct, sup.value).isMessage {
          AddField(sup.value, item);
        }
      }
    }
  }
}
