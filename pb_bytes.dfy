/**
 * The immutable byte string: an array the object owns, copied in and out,
 * compared by contents, and hashed with a cached 31-polynomial hash.
 */
module Bytes {
  import opened Wrappers
  import opened JavaInts
  import opened Reflection

  /** One step of the hash: `h * 31 + b` in 32-bit arithmetic (a byte is sign-extended). */
  function HashStep(h: Int32, b: Int8): Int32 {
    Wrap32(h * 31 + b)
  }

  /** The hash loop run over `s` from the start value `h`. */
  function HashFold(h: Int32, s: seq<Int8>): Int32
    decreases |s|
  {
    if s == [] then h else HashStep(HashFold(h, s[..|s| - 1]), s[|s| - 1])
  }

  /** `hashCode()`: the fold seeded with the length, with 0 (the "not computed" mark) replaced by 1. */
  function HashOf(s: seq<Int8>): (h: Int32)
    requires |s| < 0x8000_0000
    ensures h != 0
    ensures HashFold(|s|, s) != 0 ==> h == HashFold(|s|, s)
    ensures HashFold(|s|, s) == 0 ==> h == 1
  {
    var h := HashFold(|s|, s);
    if h == 0 then 1 else h
  }

  /** 31 to the power `n`. */
  function Pow31(n: nat): nat {
    if n == 0 then 1 else 31 * Pow31(n - 1)
  }

  /** The polynomial `s[0]*31^(n-1) + ... + s[n-1]` over the integers. */
  function Poly(s: seq<Int8>): int
    decreases |s|
  {
    if s == [] then 0 else 31 * Poly(s[..|s| - 1]) + s[|s| - 1]
  }

  /** Multiplying out one more step of the polynomial. */
  lemma StepDistributes(h: int, p: int, q: int, b: int)
    ensures 31 * (h * p + q) + b == h * (31 * p) + (31 * q + b)
  {
  }

  /** The hash loop computes the seeded polynomial, modulo 2^32. */
  lemma {:induction false} HashFoldClosedForm(h: Int32, s: seq<Int8>)
    ensures HashFold(h, s) == Wrap32(h * Pow31(|s|) + Poly(s))
    decreases |s|
  {
    if s != [] {
      var p := s[..|s| - 1];
      var b := s[|s| - 1];
      var x := h * Pow31(|p|) + Poly(p);
      HashFoldClosedForm(h, p);
      assert HashFold(h, s) == Wrap32(31 * Wrap32(x) + b);
      WrapAffine(x, 31, b);
      StepDistributes(h, Pow31(|p|), Poly(p), b);
      assert Pow31(|s|) == 31 * Pow31(|p|);
      assert Poly(s) == 31 * Poly(p) + b;
    }
  }

  /** The length of all the byte strings of `list` together. */
  function TotalLength(list: seq<PBBytes>): nat {
    if list == [] then 0 else TotalLength(list[..|list| - 1]) + list[|list| - 1].bytes.Length
  }

  /** The contents of all the byte strings of `list`, one after the other. */
  function Concat(list: seq<PBBytes>): (r: seq<Int8>)
    reads set b | b in list :: b.bytes
    ensures |r| == TotalLength(list)
  {
    if list == [] then [] else Concat(list[..|list| - 1]) + list[|list| - 1].bytes[..]
  }

  /**
   * `System.arraycopy(src, srcPos, dest, destPos, n)`: a null array throws a
   * NullPointerException, a negative count or a range outside either array an
   * IndexOutOfBoundsException (and nothing is copied); otherwise the range is
   * copied as if through a temporary buffer, so overlapping ranges are safe.
   */
  method ArrayCopy(src: array?<Int8>, srcPos: int, dest: array?<Int8>, destPos: int, n: int)
    returns (e: Option<Exception>)
    modifies dest
    ensures src == null || dest == null <==> e == Some(NullPointer)
    ensures e.None? <==>
              src != null && dest != null && 0 <= n && 0 <= srcPos && 0 <= destPos &&
              srcPos + n <= src.Length && destPos + n <= dest.Length
    ensures e.Some? ==> e.value in {NullPointer, IndexOutOfBounds}
    ensures e.Some? && dest != null ==> dest[..] == old(dest[..])
    ensures e.None? ==>
              dest[..] == old(dest[..destPos]) + old(src[srcPos..srcPos + n]) + old(dest[destPos + n..])
  {
    if src == null || dest == null {
      return Some(NullPointer);
    }
    if n < 0 || srcPos < 0 || destPos < 0 || srcPos + n > src.Length || destPos + n > dest.Length {
      return Some(IndexOutOfBounds);
    }
    var snapshot := src[srcPos..srcPos + n];
    var k := 0;
    while k < n
      invariant 0 <= k <= n
      invariant forall j :: 0 <= j < destPos ==> dest[j] == old(dest[j])
      invariant forall j :: 0 <= j < k ==> dest[destPos + j] == snapshot[j]
      invariant forall j :: destPos + k <= j < dest.Length ==> dest[j] == old(dest[j])
    {
      dest[destPos + k] := snapshot[k];
      k := k + 1;
    }
    assert dest[..] == old(dest[..destPos]) + snapshot + old(dest[destPos + n..]);
    e := None;
  }

  class PBBytes {
    const bytes: array<Int8>
    var hash: Int32

    /** A Java array is shorter than 2^31; the cached hash is 0 (not yet computed) or the hash of the contents. */
    predicate Valid()
      reads this, bytes
    {
      bytes.Length < 0x8000_0000 && (hash == 0 || hash == HashOf(bytes[..]))
    }

    /** The private constructor: takes the array as it is, a null array as an empty one. */
    constructor (b: array?<Int8>)
      requires b != null ==> b.Length < 0x8000_0000
      ensures Valid() && hash == 0
      ensures b != null ==> bytes == b
      ensures b == null ==> fresh(bytes) && bytes.Length == 0
    {
      if b == null {
        bytes := new Int8[0];
      } else {
        bytes := b;
      }
      hash := 0;
    }

    /** `byteAt(index)`: out of range throws. */
    function ByteAt(index: Int32): (r: Result<Int8, Exception>)
      reads bytes
      ensures r.Ok? <==> 0 <= index < bytes.Length
      ensures r.Ok? ==> r.value == bytes[index]
      ensures r.Err? ==> r.error == IndexOutOfBounds
    {
      if 0 <= index < bytes.Length then Ok(bytes[index]) else Err(IndexOutOfBounds)
    }

    /** `size()`. */
    function Size(): (n: Int32)
      requires bytes.Length < 0x8000_0000
      ensures n == bytes.Length
    {
      bytes.Length
    }

    /** `isEmpty()`. */
    function IsEmpty(): (b: bool)
      ensures b <==> bytes.Length == 0
    {
      bytes.Length == 0
    }

    /** `copyTo(target, offset)`: the whole contents into `target` from `offset`. */
    method CopyTo(target: array?<Int8>, offset: Int32) returns (e: Option<Exception>)
      modifies target
      ensures target == null <==> e == Some(NullPointer)
      ensures e.None? <==> target != null && 0 <= offset && offset + bytes.Length <= target.Length
      ensures e.Some? && target != null ==> e.value == IndexOutOfBounds && target[..] == old(target[..])
      ensures e.None? ==>
                target[..] == old(target[..offset]) + old(bytes[..]) + old(target[offset + bytes.Length..])
    {
      e := ArrayCopy(bytes, 0, target, offset, bytes.Length);
    }

    /** `copyTo(target, sourceOffset, targetOffset, size)`: a range of the contents into `target`. */
    method CopyRangeTo(target: array?<Int8>, sourceOffset: Int32, targetOffset: Int32, size: Int32)
      returns (e: Option<Exception>)
      modifies target
      ensures target == null <==> e == Some(NullPointer)
      ensures e.None? <==>
                target != null && 0 <= size && 0 <= sourceOffset && 0 <= targetOffset &&
                sourceOffset + size <= bytes.Length && targetOffset + size <= target.Length
      ensures e.Some? && target != null ==> e.value == IndexOutOfBounds && target[..] == old(target[..])
      ensures e.None? ==>
                target[..] == old(target[..targetOffset]) + old(bytes[sourceOffset..sourceOffset + size]) +
                              old(target[targetOffset + size..])
    {
      e := ArrayCopy(bytes, sourceOffset, target, targetOffset, size);
    }

    /** `toByteArray()`: a fresh copy of the contents. */
    method ToByteArray() returns (a: array<Int8>)
      ensures fresh(a) && a[..] == bytes[..]
    {
      a := new Int8[bytes.Length](_ => 0);
      var e := ArrayCopy(bytes, 0, a, 0, bytes.Length);
      assert a[..] == bytes[..];
    }

    /** `equals(o)`: true exactly for a non-null byte string with the same contents. */
    method Equals(o: PBBytes?) returns (b: bool)
      ensures b <==> o != null && bytes[..] == o.bytes[..]
    {
      if o == this {
        return true;
      }
      if o == null {
        return false;
      }
      if bytes.Length != o.bytes.Length {
        return false;
      }
      var i := 0;
      while i < bytes.Length
        invariant 0 <= i <= bytes.Length
        invariant bytes[..i] == o.bytes[..i]
      {
        if bytes[i] != o.bytes[i] {
          assert bytes[..][i] != o.bytes[..][i];
          return false;
        }
        i := i + 1;
      }
      assert bytes[..] == bytes[..i];
      assert o.bytes[..] == o.bytes[..i];
      b := true;
    }

    /** `hashCode()`: computed on first use and cached; never 0. */
    method HashCode() returns (h: Int32)
      requires Valid()
      modifies this
      ensures Valid() && hash == h
      ensures h == HashOf(bytes[..])
    {
      h := hash;
      if h == 0 {
        var size := bytes.Length;
        h := size;
        var i := 0;
        while i < size
          invariant 0 <= i <= size
          invariant h == HashFold(size, bytes[..i])
        {
          assert bytes[..i + 1][..i] == bytes[..i];
          h := HashStep(h, bytes[i]);
          i := i + 1;
        }
        assert bytes[..i] == bytes[..];
        if h == 0 {
          h := 1;
        }
        hash := h;
      }
    }
  }

  /** `copyFrom(bytes, offset, size)`: a fresh byte string holding a copy of the range. */
  method CopyFromRange(src: array?<Int8>, offset: Int32, size: Int32) returns (r: Result<PBBytes, Exception>)
    ensures size < 0 ==> r == Err(NegativeArraySize)
    ensures 0 <= size && src == null ==> r == Err(NullPointer)
    ensures r.Ok? <==> 0 <= size && src != null && 0 <= offset && offset + size <= src.Length
    ensures 0 <= size && src != null && r.Err? ==> r.error == IndexOutOfBounds
    ensures r.Ok? ==>
              fresh(r.value) && fresh(r.value.bytes) && r.value.Valid() && r.value.hash == 0 &&
              r.value.bytes[..] == src[offset..offset + size]
  {
    if size < 0 {
      return Err(NegativeArraySize);
    }
    var copy := new Int8[size](_ => 0);
    var e := ArrayCopy(src, offset, copy, 0, size);
    if e.Some? {
      return Err(e.value);
    }
    assert copy[..] == src[offset..offset + size];
    var b := new PBBytes(copy);
    r := Ok(b);
  }

  /** `copyFrom(bytes)`: a copy of the whole array; a null array throws on its length. */
  method CopyFrom(src: array?<Int8>) returns (r: Result<PBBytes, Exception>)
    requires src != null ==> src.Length < 0x8000_0000
    ensures r.Ok? <==> src != null
    ensures r.Err? ==> r.error == NullPointer
    ensures r.Ok? ==>
              fresh(r.value) && fresh(r.value.bytes) && r.value.Valid() && r.value.bytes[..] == src[..]
  {
    if src == null {
      return Err(NullPointer);
    }
    r := CopyFromRange(src, 0, src.Length);
    assert src[0..src.Length] == src[..];
  }

  /** The running size sum wraps exactly as the total does. */
  lemma WrappedSumStep(list: seq<PBBytes>, i: nat)
    requires i < |list|
    ensures Wrap32(Wrap32(TotalLength(list[..i])) + list[i].bytes.Length) == Wrap32(TotalLength(list[..i + 1]))
  {
    WrapAffine(TotalLength(list[..i]), 1, list[i].bytes.Length);
    assert list[..i + 1][..i] == list[..i];
  }

  /** The total length only grows along the list. */
  lemma {:induction false} TotalLengthPrefix(list: seq<PBBytes>, i: nat)
    requires i <= |list|
    ensures TotalLength(list[..i]) <= TotalLength(list)
    decreases |list| - i
  {
    if i < |list| {
      TotalLengthPrefix(list, i + 1);
      assert list[..i + 1][..i] == list[..i];
    } else {
      assert list[..i] == list;
    }
  }

  /** The first loop of `copyFrom(list)`: the sizes summed in 32-bit arithmetic. */
  method SumSizes(list: seq<PBBytes>) returns (size: Int32)
    ensures size == Wrap32(TotalLength(list))
  {
    size := 0;
    var i := 0;
    while i < |list|
      invariant 0 <= i <= |list|
      invariant size == Wrap32(TotalLength(list[..i]))
    {
      WrappedSumStep(list, i);
      size := Wrap32(size + list[i].bytes.Length);
      i := i + 1;
    }
    assert list[..i] == list;
  }

  /** The second loop of `copyFrom(list)`: each byte string copied in after the previous one. */
  method ConcatInto(list: seq<PBBytes>, bytes: array<Int8>) returns (e: Option<Exception>)
    requires forall b :: b in list ==> b.bytes != bytes
    modifies bytes
    ensures e.None? <==> TotalLength(list) <= bytes.Length
    ensures e.Some? ==> e.value == IndexOutOfBounds
    ensures e.None? ==> bytes[..TotalLength(list)] == Concat(list)
  {
    var pos: int := 0;
    var i := 0;
    while i < |list|
      invariant 0 <= i <= |list|
      invariant pos == TotalLength(list[..i]) <= bytes.Length
      invariant bytes[..pos] == Concat(list[..i])
    {
      assert list[..i + 1][..i] == list[..i];
      e := ArrayCopy(list[i].bytes, 0, bytes, pos, list[i].bytes.Length);
      if e.Some? {
        TotalLengthPrefix(list, i + 1);
        return;
      }
      assert list[i].bytes[0..list[i].bytes.Length] == list[i].bytes[..];
      pos := pos + list[i].bytes.Length;
      i := i + 1;
    }
    assert list[..i] == list;
    e := None;
  }

  /**
   * `copyFrom(list)`: the empty byte string for an empty list, the only element
   * for a one-element list, otherwise a fresh concatenation. The sizes are summed
   * in 32-bit arithmetic, so a total of 2^31 or more fails: with a negative array
   * size, or when the copies overrun the wrapped-around size.
   */
  method CopyFromList(list: seq<PBBytes>, empty: PBBytes) returns (r: Result<PBBytes, Exception>)
    requires empty.bytes.Length == 0
    requires forall i :: 0 <= i < |list| ==> list[i].bytes.Length < 0x8000_0000
    ensures |list| == 0 ==> r == Ok(empty)
    ensures |list| == 1 ==> r == Ok(list[0])
    ensures |list| >= 2 ==> (r.Ok? <==> TotalLength(list) < 0x8000_0000)
    ensures r.Err? ==> r.error in {NegativeArraySize, IndexOutOfBounds}
    ensures |list| >= 2 && r.Ok? ==>
              fresh(r.value) && fresh(r.value.bytes) && r.value.Valid() && r.value.bytes[..] == Concat(list)
  {
    if |list| == 0 {
      return Ok(empty);
    } else if |list| == 1 {
      return Ok(list[0]);
    }
    var size := SumSizes(list);
    if size < 0 {
      return Err(NegativeArraySize);
    }
    var bytes := new Int8[size](_ => 0);
    var e := ConcatInto(list, bytes);
    if e.Some? {
      return Err(e.value);
    }
    assert bytes[..TotalLength(list)] == bytes[..];
    var b := new PBBytes(bytes);
    r := Ok(b);
  }
}
