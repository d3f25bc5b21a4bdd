/** The map from mesh index to the transform of the node that instantiates it. */
module NodeTransforms {
  import opened Wrappers
  import opened Gltf

  /** The transform keys a node has, copied one by one. */
  function CopyTransform(node: Node): TransformSpec<real> {
    TransformSpec(node.matrix, node.translation, node.rotation, node.scale)
  }

  /** The map after scanning `nodes` in order: every node with a `mesh` key
      (re)assigns that mesh's entry. */
  function TransformMap(nodes: seq<Node>): map<nat, TransformSpec<real>>
    decreases |nodes|
  {
    if |nodes| == 0 then map[]
    else
      var m := TransformMap(nodes[..|nodes| - 1]);
      var last := nodes[|nodes| - 1];
      if last.mesh.Some? then m[last.mesh.value := CopyTransform(last)] else m
  }

  /** The map of a document: empty without `nodes`. */
  function DocumentTransforms(doc: Document): map<nat, TransformSpec<real>> {
    if doc.nodes.Some? then TransformMap(doc.nodes.value) else map[]
  }

  /** `node_transforms.get(mesh_idx, {})`. */
  function TransformFor(m: map<nat, TransformSpec<real>>, meshIdx: nat): TransformSpec<real> {
    if meshIdx in m then m[meshIdx] else NoTransform()
  }

  /** A mesh index has an entry exactly when some node names it. */
  lemma {:induction false} TransformMapKeys(nodes: seq<Node>, k: nat)
    ensures k in TransformMap(nodes) <==> exists j :: 0 <= j < |nodes| && nodes[j].mesh == Some(k)
    decreases |nodes|
  {
    if |nodes| > 0 {
      var n := |nodes| - 1;
      var init := nodes[..n];
      TransformMapKeys(init, k);
      if nodes[n].mesh != Some(k) {
        if exists j :: 0 <= j < |nodes| && nodes[j].mesh == Some(k) {
          var j :| 0 <= j < |nodes| && nodes[j].mesh == Some(k);
          assert init[j].mesh == Some(k);
        }
        if exists j :: 0 <= j < |init| && init[j].mesh == Some(k) {
          var j :| 0 <= j < |init| && init[j].mesh == Some(k);
          assert nodes[j].mesh == Some(k);
        }
      }
    }
  }

  /** The entry of a mesh index is the copy of the LAST node naming it: later
      nodes overwrite earlier ones. */
  lemma {:induction false} TransformMapLastWins(nodes: seq<Node>, k: nat, j: nat)
    requires j < |nodes| && nodes[j].mesh == Some(k)
    requires forall j' :: j < j' < |nodes| ==> nodes[j'].mesh != Some(k)
    ensures k in TransformMap(nodes) && TransformMap(nodes)[k] == CopyTransform(nodes[j])
    decreases |nodes|
  {
    var n := |nodes| - 1;
    if j < n {
      var init := nodes[..n];
      assert init[j] == nodes[j];
      TransformMapLastWins(init, k, j);
    }
  }

  /** The entry of a mesh no node names is `{}`; a node without a `mesh` key
      contributes nothing. */
  lemma UnreferencedMeshGetsNoTransform(nodes: seq<Node>, k: nat)
    requires forall j :: 0 <= j < |nodes| ==> nodes[j].mesh != Some(k)
    ensures TransformFor(TransformMap(nodes), k) == NoTransform()
  {
    TransformMapKeys(nodes, k);
  }

  /** The node loop of the importer. */
  method CollectNodeTransforms(nodes: seq<Node>) returns (m: map<nat, TransformSpec<real>>)
    ensures m == TransformMap(nodes)
  {
    m := map[];
    for i := 0 to |nodes|
      invariant m == TransformMap(nodes[..i])
    {
      var node := nodes[i];
      if node.mesh.Some? {
        var transform := TransformSpec(None, None, None, None);
        if node.matrix.Some? { transform := transform.(matrix := node.matrix); }
        if node.translation.Some? { transform := transform.(translation := node.translation); }
        if node.rotation.Some? { transform := transform.(rotation := node.rotation); }
        if node.scale.Some? { transform := transform.(scale := node.scale); }
        m := m[node.mesh.value := transform];
      }
      assert nodes[..i + 1][..i] == nodes[..i];
    }
    assert nodes[..|nodes|] == nodes;
  }
}
