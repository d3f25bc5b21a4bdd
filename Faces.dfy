/** Triangle assembly: grouping an index list into triples, or numbering the
    vertices of a primitive that has no index list. */
module Faces {
  import opened Wrappers

  datatype Face = Face(a: nat, b: nat, c: nat)

  /** Consecutive triples of an index list.  A trailing partial triple is not
      dropped: reading its missing element raises. */
  function GroupTriples(indices: seq<nat>): Result<seq<Face>> {
    if |indices| % 3 == 0 then
      Ok(seq(|indices| / 3, k requires 0 <= k < |indices| / 3 =>
        Face(indices[3 * k], indices[3 * k + 1], indices[3 * k + 2])))
    else
      Raised
  }

  /** Faces `(3k, 3k+1, 3k+2)` for every third vertex number below `n`: there
      are ceil(n/3) of them, and the last one reaches past the vertices when
      `n` is not a multiple of 3. */
  function SynthesizedFaces(n: nat): seq<Face> {
    seq((n + 2) / 3, k requires 0 <= k < (n + 2) / 3 => Face(3 * k, 3 * k + 1, 3 * k + 2))
  }

  /** The faces of a primitive: its index list grouped into triples when that
      list is non-empty, otherwise faces synthesised from vertex numbering. */
  function PrimitiveFaces(indices: seq<nat>, vertexCount: nat): Result<seq<Face>> {
    if |indices| > 0 then GroupTriples(indices) else Ok(SynthesizedFaces(vertexCount))
  }

  /** The index list a face sequence stands for. */
  function Flatten(faces: seq<Face>): (r: seq<nat>)
    ensures |r| == 3 * |faces|
  {
    if |faces| == 0 then [] else [faces[0].a, faces[0].b, faces[0].c] + Flatten(faces[1..])
  }

  lemma {:induction false} FlattenAt(faces: seq<Face>, k: nat)
    requires k < |faces|
    ensures Flatten(faces)[3 * k] == faces[k].a
    ensures Flatten(faces)[3 * k + 1] == faces[k].b
    ensures Flatten(faces)[3 * k + 2] == faces[k].c
  {
    if k > 0 {
      FlattenAt(faces[1..], k - 1);
    }
  }

  /** Grouping is undone by flattening: no index is lost, duplicated or
      reordered, and grouping succeeds exactly on lengths divisible by 3. */
  lemma {:induction false} GroupTriplesRoundTrip(indices: seq<nat>)
    ensures GroupTriples(indices).Ok? <==> |indices| % 3 == 0
    ensures GroupTriples(indices).Ok? ==>
      |GroupTriples(indices).value| == |indices| / 3 && Flatten(GroupTriples(indices).value) == indices
  {
    if |indices| % 3 == 0 {
      var faces := GroupTriples(indices).value;
      var flat := Flatten(faces);
      forall j | 0 <= j < |indices|
        ensures flat[j] == indices[j]
      {
        FlattenAt(faces, j / 3);
      }
    }
  }

  /** Flattening is undone by grouping. */
  lemma FlattenRoundTrip(faces: seq<Face>)
    ensures GroupTriples(Flatten(faces)) == Ok(faces)
  {
    var flat := Flatten(faces);
    assert |flat| % 3 == 0;
    var grouped := GroupTriples(flat).value;
    forall k | 0 <= k < |faces|
      ensures grouped[k] == faces[k]
    {
      FlattenAt(faces, k);
    }
    assert grouped == faces;
  }

  /** Every synthesised face stays below the vertex count exactly when that
      count is a multiple of 3. */
  lemma SynthesizedFacesInRange(n: nat)
    ensures |SynthesizedFaces(n)| == (n + 2) / 3
    ensures (forall k :: 0 <= k < |SynthesizedFaces(n)| ==>
               SynthesizedFaces(n)[k].a < n && SynthesizedFaces(n)[k].b < n && SynthesizedFaces(n)[k].c < n)
        <==> n % 3 == 0
  {
    var faces := SynthesizedFaces(n);
    if n % 3 != 0 {
      var last := |faces| - 1;
      assert faces[last].c == 3 * last + 2;
    }
  }

  /** Ten vertices without indices give a fourth face `(9, 10, 11)` that names
      two vertices that do not exist. */
  lemma TenVerticesOverrun()
    ensures |SynthesizedFaces(10)| == 4 && SynthesizedFaces(10)[3] == Face(9, 10, 11)
  {
  }

  /** The face loops: a step of three over the index list, or over the vertex numbers. */
  method AssembleFaces(indices: seq<nat>, vertexCount: nat) returns (r: Result<seq<Face>>)
    ensures r == PrimitiveFaces(indices, vertexCount)
  {
    var faces: seq<Face> := [];
    if |indices| > 0 {
      var i := 0;
      while i < |indices|
        invariant i % 3 == 0 && i <= |indices|
        invariant |faces| == i / 3
        invariant forall k :: 0 <= k < |faces| ==>
          3 * k + 2 < |indices| && faces[k] == Face(indices[3 * k], indices[3 * k + 1], indices[3 * k + 2])
      {
        if i + 2 >= |indices| {
          return Raised;
        }
        faces := faces + [Face(indices[i], indices[i + 1], indices[i + 2])];
        i := i + 3;
      }
      assert GroupTriples(indices).value == faces;
    } else {
      var i := 0;
      while i < vertexCount
        invariant i % 3 == 0 && i <= vertexCount + 2
        invariant |faces| == i / 3
        invariant forall k :: 0 <= k < |faces| ==> faces[k] == Face(3 * k, 3 * k + 1, 3 * k + 2)
      {
        faces := faces + [Face(i, i + 1, i + 2)];
        i := i + 3;
      }
      assert SynthesizedFaces(vertexCount) == faces;
    }
    return Ok(faces);
  }
}
