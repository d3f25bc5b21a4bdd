/** The structure of the matrix built from a node's transform keys.  Entries
    are kept symbolic: the model records which factors are multiplied, in
    which order, and where each entry comes from, but does no arithmetic. */
module Transform {
  import opened Wrappers
  import opened Gltf

  /** A rotation quaternion in (w, x, y, z) order. */
  datatype Quaternion<E> = Quaternion(w: E, x: E, y: E, z: E)

  /** A symbolic 4x4 matrix. */
  datatype Matrix<E> =
    | Identity
    | Rows(rows: seq<seq<E>>)                    // explicit entries, row by row
    | Translation(offset: seq<E>)
    | Rotation(q: Quaternion<E>)
    | Scale(sx: E, sy: E, sz: E)
    | Product(left: Matrix<E>, right: Matrix<E>) // left @ right

  /** The factors of a product, left to right, without identity factors. */
  function Factors<E>(m: Matrix<E>): seq<Matrix<E>> {
    match m
    case Identity => []
    case Product(l, r) => Factors(l) + Factors(r)
    case _ => [m]
  }

  /** `[m[0:4], m[4:8], m[8:12], m[12:16]]`: the sixteen values cut into four rows. */
  function CutRows<E>(m: seq<E>): (g: seq<seq<E>>)
    requires |m| >= 16
    ensures |g| == 4 && forall r :: 0 <= r < 4 ==> |g[r]| == 4
  {
    [m[0..4], m[4..8], m[8..12], m[12..16]]
  }

  /** `.transposed()`. */
  function Transposed<E>(g: seq<seq<E>>): (t: seq<seq<E>>)
    requires |g| == 4 && forall r :: 0 <= r < 4 ==> |g[r]| == 4
    ensures |t| == 4 && forall r :: 0 <= r < 4 ==> |t[r]| == 4
  {
    seq(4, r requires 0 <= r < 4 => seq(4, c requires 0 <= c < 4 => g[c][r]))
  }

  /** The rotation, scale and translation factors of a transform, each present
      only when its key is. */
  function TranslationFactor<E>(t: TransformSpec<E>): seq<Matrix<E>> {
    if t.translation.Some? then [Translation(t.translation.value)] else []
  }

  function RotationFactor<E>(t: TransformSpec<E>): seq<Matrix<E>> {
    if t.rotation.Some? && |t.rotation.value| >= 4 then
      var q := t.rotation.value;
      [Rotation(Quaternion(q[3], q[0], q[1], q[2]))]
    else []
  }

  function ScaleFactor<E>(t: TransformSpec<E>): seq<Matrix<E>> {
    if t.scale.Some? && |t.scale.value| >= 3 then
      var s := t.scale.value;
      [Scale(s[0], s[1], s[2])]
    else []
  }

  /** The composition that glTF 2.0 prescribes (section 3.5.3, Transformations):
      M = T * R * S. */
  function GltfFactors<E>(t: TransformSpec<E>): seq<Matrix<E>> {
    TranslationFactor(t) + RotationFactor(t) + ScaleFactor(t)
  }

  function Reverse<T>(s: seq<T>): (r: seq<T>)
    ensures |r| == |s|
  {
    if |s| == 0 then [] else Reverse(s[1..]) + [s[0]]
  }

  lemma {:induction false} ReverseAppend<T>(a: seq<T>, b: seq<T>)
    ensures Reverse(a + b) == Reverse(b) + Reverse(a)
    decreases |a|
  {
    if |a| == 0 {
      assert a + b == b;
    } else {
      assert (a + b)[1..] == a[1..] + b;
      ReverseAppend(a[1..], b);
    }
  }

  lemma ReverseShort<T>(s: seq<T>)
    requires |s| <= 1
    ensures Reverse(s) == s
  {
    if |s| == 1 {
      assert Reverse(s) == Reverse(s[1..]) + [s[0]];
    }
  }

  /** `parse_transform`: a present `matrix` wins and is read column-major, so
      entry (row, col) is value 4*col + row; otherwise the present factors are
      multiplied as S * R * T, with the glTF quaternion (x, y, z, w) reordered to
      (w, x, y, z).  `None` stands for the indexing errors of a matrix with
      fewer than 16 values, a rotation with fewer than 4 or a scale with fewer
      than 3. */
  method ParseTransform<E>(t: TransformSpec<E>) returns (r: Option<Matrix<E>>)
    ensures t.matrix.Some? ==> (r.Some? <==> |t.matrix.value| >= 16)
    ensures t.matrix.Some? && r.Some? ==>
      && r.value.Rows? && |r.value.rows| == 4
      && forall row, col :: 0 <= row < 4 && 0 <= col < 4 ==>
           |r.value.rows[row]| == 4 && r.value.rows[row][col] == t.matrix.value[4 * col + row]
    ensures t.matrix.None? ==>
      (r.Some? <==> (t.rotation.Some? ==> |t.rotation.value| >= 4) && (t.scale.Some? ==> |t.scale.value| >= 3))
    ensures t.matrix.None? && r.Some? ==>
      Factors(r.value) == ScaleFactor(t) + RotationFactor(t) + TranslationFactor(t)
  {
    if t.matrix.Some? {
      var m := t.matrix.value;
      if |m| < 16 {
        return None;
      }
      return Some(Rows(Transposed(CutRows(m))));
    }
    var mat: Matrix<E> := Identity;
    if t.translation.Some? {
      mat := Product(Translation(t.translation.value), mat);
    }
    assert Factors(mat) == TranslationFactor(t);
    if t.rotation.Some? {
      var q := t.rotation.value;
      if |q| < 4 {
        return None;
      }
      mat := Product(Rotation(Quaternion(q[3], q[0], q[1], q[2])), mat);
    }
    assert Factors(mat) == RotationFactor(t) + TranslationFactor(t);
    if t.scale.Some? {
      var s := t.scale.value;
      if |s| < 3 {
        return None;
      }
      mat := Product(Scale(s[0], s[1], s[2]), mat);
    }
    assert Factors(mat) == ScaleFactor(t) + RotationFactor(t) + TranslationFactor(t);
    return Some(mat);
  }

  /** The importer's S * R * T is the reverse of glTF's T * R * S; the two agree
      only when at most one of the three factors is present. */
  lemma ImporterOrderReversesGltf<E>(t: TransformSpec<E>)
    ensures ScaleFactor(t) + RotationFactor(t) + TranslationFactor(t) == Reverse(GltfFactors(t))
  {
    var tr, ro, sc := TranslationFactor(t), RotationFactor(t), ScaleFactor(t);
    ReverseShort(tr);
    ReverseShort(ro);
    ReverseShort(sc);
    ReverseAppend(tr, ro);
    ReverseAppend(tr + ro, sc);
    assert Reverse(tr + ro + sc) == sc + (ro + tr);
    assert sc + (ro + tr) == sc + ro + tr;
  }
}
