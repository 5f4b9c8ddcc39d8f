/**
 * The Java runtime world the serializer reflects over, as plain data:
 * classes are identities, a class's declared fields and annotations are
 * records, and an object is a value mapping field names to values.
 */
module Reflection {
  import opened Wrappers
  import opened JavaInts
  import opened WireFormat

  /** The primitive classes (`int.class`, `float.class`, ...). */
  datatype PrimitiveKind = IntKind | FloatKind | DoubleKind | LongKind | BooleanKind | ByteKind | ShortKind | CharKind

  /** A Java class, by identity. */
  datatype JClass =
    | Primitive(kind: PrimitiveKind)
    | StringClass                  // java.lang.String
    | BytesClass                   // the immutable byte string PBBytes
    | ListClass                    // java.util.List, the declared type of a repeated field
    | Declared(id: nat)            // any other class: messages, boxed types, other collections

  type FieldName = string

  /** The field annotation: its tag defaults to the sentinel -1, its type to UNKNOWN. */
  datatype FieldDef = FieldDef(tag: Int32, fieldType: FieldType)

  /** The polymorphism annotation: two parallel arrays, both empty by default. */
  datatype PolymDef = PolymDef(classes: seq<JClass>, tags: seq<Int32>)

  /** A declared field, as reflection reports it. */
  datatype FieldDecl = FieldDecl(
    name: FieldName,
    declaredType: JClass,          // the field's raw type
    typeArguments: seq<JClass>,    // the actual type arguments of a List-typed field
    fieldDef: Option<FieldDef>,    // the field annotation, when present
    polymDef: Option<PolymDef>)    // the polymorphism annotation, when present

  /** What reflection reports about one class. */
  datatype ClassDecl = ClassDecl(
    isMessage: bool,               // the class carries the message annotation
    fields: seq<FieldDecl>,        // its declared fields, in declaration order
    superclass: Option<JClass>,    // its immediate superclass
    newInstance: Option<Value>)    // what its no-argument constructor creates; None when it has none

  /** The classes of the program; a class outside the table has no annotation, no fields and no constructor. */
  type ClassTable = map<JClass, ClassDecl>

  function DeclOf(ct: ClassTable, c: JClass): ClassDecl {
    if c in ct then ct[c] else ClassDecl(false, [], None, None)
  }

  /** A runtime value: null, an opaque scalar (boxed number, string, byte string), a list, or an object. */
  datatype Value =
    | Null
    | Scalar(cls: JClass, payload: nat)
    | ListOf(cls: JClass, elements: seq<Value>)
    | Instance(cls: JClass, fields: map<FieldName, Value>)

  /** `v.getClass()`; None for null, where Java throws a NullPointerException. */
  function ClassOf(v: Value): Option<JClass> {
    if v.Null? then None else Some(v.cls)
  }

  /** `field.get(obj)`: an instance holds a value for each of its declared fields; anything else reads as null. */
  function GetField(obj: Value, f: FieldName): Value {
    if obj.Instance? && f in obj.fields then obj.fields[f] else Null
  }

  /** `field.set(obj, v)`. */
  function SetField(obj: Value, f: FieldName, v: Value): (r: Value)
    ensures obj.Instance? ==> r.Instance? && r.cls == obj.cls && r.fields == obj.fields[f := v]
    ensures !obj.Instance? ==> r == obj
  {
    if obj.Instance? then obj.(fields := obj.fields[f := v]) else obj
  }

  /** Setting one field leaves every other field, and the object's class, as they were. */
  lemma SetFieldKeepsOthers(obj: Value, f: FieldName, v: Value, g: FieldName)
    requires f != g
    ensures GetField(SetField(obj, f, v), g) == GetField(obj, g)
    ensures SetField(obj, f, v).Instance? == obj.Instance?
    ensures obj.Instance? ==> SetField(obj, f, v).cls == obj.cls
  {
  }

  /** The exceptions the modelled code throws or catches. */
  datatype Exception =
    | InvalidTag            // InvalidProtocolBufferException.invalidTag
    | InvalidJavaType       // InvalidProtocolBufferException.invalidJavaType
    | NoSuchMethod          // no no-argument constructor
    | NullPointer
    | ClassCast
    | Truncated             // the input ended inside a field
    | Malformed             // the input's encoding is invalid
    | NegativeSize          // a negative length prefix
    | InvalidEndTag         // a nested message did not end at its length
    | OutOfSpace            // the output buffer is full
    | IndexOutOfBounds
    | NegativeArraySize
}
