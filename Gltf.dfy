/** The parts of a parsed glTF 2.0 document that the importer reads.

    Every key the importer reads with `obj['key']` is an `Option` field here,
    so that a document lacking it takes the importer's exception path; keys
    read with `'key' in obj` or `obj.get(...)` are `Option` fields for the same
    reason.  Indices, counts and byte offsets are JSON integers, modelled as
    `nat` as the glTF schema requires them to be non-negative. */
module Gltf {
  import opened Wrappers
  import opened Paths

  /** A URI as written in the document, split into path segments. */
  type Uri = Path

  /** The transform-related keys of a node, each kept only when the node has it.
      `E` is the type of the JSON numbers in the arrays; nothing computes with them. */
  datatype TransformSpec<E> = TransformSpec(
    matrix: Option<seq<E>>,
    translation: Option<seq<E>>,
    rotation: Option<seq<E>>,
    scale: Option<seq<E>>)

  /** The `{}` a mesh gets when no node refers to it. */
  function NoTransform<E>(): TransformSpec<E> {
    TransformSpec(None, None, None, None)
  }

  datatype Buffer = Buffer(uri: Option<Uri>)

  datatype BufferView = BufferView(byteOffset: Option<nat>, byteStride: Option<nat>)

  datatype Accessor = Accessor(
    bufferView: Option<nat>,
    byteOffset: Option<nat>,
    count: Option<nat>,
    componentType: Option<nat>)

  /** `attributes` maps attribute names (`POSITION`, `TEXCOORD_0`, ...) to accessor indices. */
  datatype Primitive = Primitive(
    attributes: Option<map<string, nat>>,
    indices: Option<nat>,
    material: Option<nat>)

  datatype Mesh = Mesh(primitives: Option<seq<Primitive>>)

  datatype Node = Node(
    mesh: Option<nat>,
    matrix: Option<seq<real>>,
    translation: Option<seq<real>>,
    rotation: Option<seq<real>>,
    scale: Option<seq<real>>)

  datatype TextureInfo = TextureInfo(index: Option<nat>)

  datatype PbrMetallicRoughness = PbrMetallicRoughness(baseColorTexture: Option<TextureInfo>)

  datatype Material = Material(pbrMetallicRoughness: Option<PbrMetallicRoughness>)

  datatype Texture = Texture(source: Option<nat>)

  datatype Image = Image(uri: Option<Uri>)

  datatype Document = Document(
    buffers: Option<seq<Buffer>>,
    bufferViews: Option<seq<BufferView>>,
    accessors: Option<seq<Accessor>>,
    meshes: Option<seq<Mesh>>,
    nodes: Option<seq<Node>>,
    materials: Option<seq<Material>>,
    textures: Option<seq<Texture>>,
    images: Option<seq<Image>>)

  /** `gltf_data['accessors'][i]`: raises when the array is missing or `i` is out of range. */
  function AccessorAt(doc: Document, i: nat): (r: Result<Accessor>)
    ensures r.Ok? <==> doc.accessors.Some? && i < |doc.accessors.value|
  {
    var accessors :- Required(doc.accessors);
    if i < |accessors| then Ok(accessors[i]) else Raised
  }

  /** `gltf_data['bufferViews'][acc['bufferView']]`. */
  function ViewOf(doc: Document, acc: Accessor): (r: Result<BufferView>)
    ensures r.Ok? <==> acc.bufferView.Some? && doc.bufferViews.Some? && acc.bufferView.value < |doc.bufferViews.value|
  {
    var v :- Required(acc.bufferView);
    var views :- Required(doc.bufferViews);
    if v < |views| then Ok(views[v]) else Raised
  }

  /** Where an accessor's first element starts: the view's `byteOffset` plus the
      accessor's own, each 0 when absent. */
  function EffectiveOffset(view: BufferView, acc: Accessor): nat {
    view.byteOffset.GetOr(0) + acc.byteOffset.GetOr(0)
  }
}
