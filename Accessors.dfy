/** Decoding of vertex positions, texture coordinates and indices out of the
    binary buffer, following an accessor and its buffer view. */
module Accessors {
  import opened Wrappers
  import opened Bytes

  /** A position: three float32 components, kept as raw words. */
  datatype Vec3 = Vec3(x: Word32, y: Word32, z: Word32)

  /** A texture coordinate: two float32 components, kept as raw words. */
  datatype Vec2 = Vec2(u: Word32, v: Word32)

  /** Default distance between positions (three tightly packed float32). */
  const POSITION_STRIDE: nat := 12
  /** Default distance between texture coordinates (two tightly packed float32). */
  const TEXCOORD_STRIDE: nat := 8
  /** glTF componentType of unsigned 16-bit indices. */
  const UNSIGNED_SHORT: nat := 5123
  /** glTF componentType of unsigned 32-bit indices. */
  const UNSIGNED_INT: nat := 5125

  /** Byte offset of element `i` of a run that starts at `offset`. */
  function ElementOffset(offset: nat, stride: nat, i: nat): nat {
    offset + i * stride
  }

  /** The `width` bytes of element `i` lie inside a buffer of `bufLen` bytes;
      otherwise the slice is short and `struct.unpack` raises. */
  predicate ElementFits(bufLen: nat, offset: nat, stride: nat, i: nat, width: nat) {
    ElementOffset(offset, stride, i) + width <= bufLen
  }

  /** The last of `count` elements fits. */
  predicate RunFits(bufLen: nat, offset: nat, stride: nat, count: nat, width: nat) {
    count == 0 || ElementFits(bufLen, offset, stride, count - 1, width)
  }

  /** A run fits exactly when each of its elements does. */
  lemma RunFitsEach(bufLen: nat, offset: nat, stride: nat, count: nat, width: nat)
    ensures RunFits(bufLen, offset, stride, count, width)
        <==> forall i :: 0 <= i < count ==> ElementFits(bufLen, offset, stride, i, width)
  {
    if count > 0 && RunFits(bufLen, offset, stride, count, width) {
      forall i | 0 <= i < count
        ensures ElementFits(bufLen, offset, stride, i, width)
      {
        MulMonotone(i, count - 1, stride);
      }
    }
  }

  lemma MulMonotone(a: nat, b: nat, c: nat)
    requires a <= b
    ensures a * c <= b * c
  {
  }

  /** `struct.unpack('<fff', buf[o:o+12])`, as raw words. */
  function Vec3At(buf: seq<Byte>, o: nat): (v: Vec3)
    requires o + 12 <= |buf|
    ensures EncodeU32(v.x) + EncodeU32(v.y) + EncodeU32(v.z) == buf[o..o + 12]
  {
    U32Exact(buf, o);
    U32Exact(buf, o + 4);
    U32Exact(buf, o + 8);
    assert buf[o..o + 12] == buf[o..o + 4] + buf[o + 4..o + 8] + buf[o + 8..o + 12];
    Vec3(U32LE(buf, o), U32LE(buf, o + 4), U32LE(buf, o + 8))
  }

  /** `struct.unpack('<ff', buf[o:o+8])`, as raw words. */
  function Vec2At(buf: seq<Byte>, o: nat): (v: Vec2)
    requires o + 8 <= |buf|
    ensures EncodeU32(v.u) + EncodeU32(v.v) == buf[o..o + 8]
  {
    U32Exact(buf, o);
    U32Exact(buf, o + 4);
    assert buf[o..o + 8] == buf[o..o + 4] + buf[o + 4..o + 8];
    Vec2(U32LE(buf, o), U32LE(buf, o + 4))
  }

  /** The `count` positions of a run; raises when any of them runs past the buffer. */
  function Positions(buf: seq<Byte>, offset: nat, stride: nat, count: nat): (r: Result<seq<Vec3>>)
    ensures r.Ok? <==> forall i :: 0 <= i < count ==> ElementFits(|buf|, offset, stride, i, 12)
    ensures r.Ok? ==> |r.value| == count
    ensures r.Ok? ==> forall i :: 0 <= i < count ==>
      ElementFits(|buf|, offset, stride, i, 12) && r.value[i] == Vec3At(buf, ElementOffset(offset, stride, i))
  {
    RunFitsEach(|buf|, offset, stride, count, 12);
    if RunFits(|buf|, offset, stride, count, 12) then
      Ok(seq(count, i requires 0 <= i < count => Vec3At(buf, ElementOffset(offset, stride, i))))
    else
      Raised
  }

  /** The `count` texture coordinates of a run; raises when any of them runs past the buffer. */
  function TexCoords(buf: seq<Byte>, offset: nat, stride: nat, count: nat): (r: Result<seq<Vec2>>)
    ensures r.Ok? <==> forall i :: 0 <= i < count ==> ElementFits(|buf|, offset, stride, i, 8)
    ensures r.Ok? ==> |r.value| == count
    ensures r.Ok? ==> forall i :: 0 <= i < count ==>
      ElementFits(|buf|, offset, stride, i, 8) && r.value[i] == Vec2At(buf, ElementOffset(offset, stride, i))
  {
    RunFitsEach(|buf|, offset, stride, count, 8);
    if RunFits(|buf|, offset, stride, count, 8) then
      Ok(seq(count, i requires 0 <= i < count => Vec2At(buf, ElementOffset(offset, stride, i))))
    else
      Raised
  }

  /** The index list of an accessor.  Indices are tightly packed: the view's
      stride is not consulted.  A component type other than unsigned 16 or 32
      bits gives an empty list rather than an error. */
  function Indices(buf: seq<Byte>, offset: nat, count: nat, componentType: nat): (r: Result<seq<nat>>)
    ensures componentType != UNSIGNED_SHORT && componentType != UNSIGNED_INT ==> r == Ok([])
    ensures componentType == UNSIGNED_SHORT ==>
      (r.Ok? <==> forall i :: 0 <= i < count ==> ElementFits(|buf|, offset, 2, i, 2))
    ensures componentType == UNSIGNED_SHORT && r.Ok? ==>
      && |r.value| == count
      && forall i :: 0 <= i < count ==>
           ElementFits(|buf|, offset, 2, i, 2) && r.value[i] == U16LE(buf, ElementOffset(offset, 2, i)) && r.value[i] <= 0xFFFF
    ensures componentType == UNSIGNED_INT ==>
      (r.Ok? <==> forall i :: 0 <= i < count ==> ElementFits(|buf|, offset, 4, i, 4))
    ensures componentType == UNSIGNED_INT && r.Ok? ==>
      && |r.value| == count
      && forall i :: 0 <= i < count ==>
           ElementFits(|buf|, offset, 4, i, 4) && r.value[i] == U32LE(buf, ElementOffset(offset, 4, i)) && r.value[i] < 0x1_0000_0000
  {
    if componentType == UNSIGNED_SHORT then
      RunFitsEach(|buf|, offset, 2, count, 2);
      if RunFits(|buf|, offset, 2, count, 2) then
        Ok(seq(count, i requires 0 <= i < count => U16LE(buf, ElementOffset(offset, 2, i))))
      else
        Raised
    else if componentType == UNSIGNED_INT then
      RunFitsEach(|buf|, offset, 4, count, 4);
      if RunFits(|buf|, offset, 4, count, 4) then
        Ok(seq(count, i requires 0 <= i < count => U32LE(buf, ElementOffset(offset, 4, i)) as nat))
      else
        Raised
    else
      Ok([])
  }

  /** The position loop: reads one element per step and raises at the first
      one that runs past the buffer. */
  method ReadPositions(buf: seq<Byte>, offset: nat, stride: nat, count: nat) returns (r: Result<seq<Vec3>>)
    ensures r == Positions(buf, offset, stride, count)
  {
    var positions: seq<Vec3> := [];
    for i := 0 to count
      invariant |positions| == i
      invariant forall k :: 0 <= k < i ==>
        ElementFits(|buf|, offset, stride, k, 12) && positions[k] == Vec3At(buf, ElementOffset(offset, stride, k))
    {
      if !ElementFits(|buf|, offset, stride, i, 12) {
        return Raised;
      }
      var off := ElementOffset(offset, stride, i);
      positions := positions + [Vec3At(buf, off)];
    }
    assert Positions(buf, offset, stride, count).value == positions;
    return Ok(positions);
  }

  /** The texture-coordinate loop; `count` is the caller's choice (the importer
      passes the position count). */
  method ReadTexCoords(buf: seq<Byte>, offset: nat, stride: nat, count: nat) returns (r: Result<seq<Vec2>>)
    ensures r == TexCoords(buf, offset, stride, count)
  {
    var uvs: seq<Vec2> := [];
    for i := 0 to count
      invariant |uvs| == i
      invariant forall k :: 0 <= k < i ==>
        ElementFits(|buf|, offset, stride, k, 8) && uvs[k] == Vec2At(buf, ElementOffset(offset, stride, k))
    {
      if !ElementFits(|buf|, offset, stride, i, 8) {
        return Raised;
      }
      var off := ElementOffset(offset, stride, i);
      uvs := uvs + [Vec2At(buf, off)];
    }
    assert TexCoords(buf, offset, stride, count).value == uvs;
    return Ok(uvs);
  }

  /** The index loops, one per supported component type. */
  method DecodeIndices(buf: seq<Byte>, offset: nat, count: nat, componentType: nat) returns (r: Result<seq<nat>>)
    ensures r == Indices(buf, offset, count, componentType)
  {
    var indices: seq<nat> := [];
    if componentType == UNSIGNED_SHORT {
      for i := 0 to count
        invariant |indices| == i
        invariant forall k :: 0 <= k < i ==>
          ElementFits(|buf|, offset, 2, k, 2) && indices[k] == U16LE(buf, ElementOffset(offset, 2, k))
      {
        if !ElementFits(|buf|, offset, 2, i, 2) {
          return Raised;
        }
        var off := ElementOffset(offset, 2, i);
        indices := indices + [U16LE(buf, off)];
      }
      assert Indices(buf, offset, count, componentType).value == indices;
    } else if componentType == UNSIGNED_INT {
      for i := 0 to count
        invariant |indices| == i
        invariant forall k :: 0 <= k < i ==>
          ElementFits(|buf|, offset, 4, k, 4) && indices[k] == U32LE(buf, ElementOffset(offset, 4, k)) as nat
      {
        if !ElementFits(|buf|, offset, 4, i, 4) {
          return Raised;
        }
        var off := ElementOffset(offset, 4, i);
        indices := indices + [U32LE(buf, off) as nat];
      }
      assert Indices(buf, offset, count, componentType).value == indices;
    }
    return Ok(indices);
  }
}
