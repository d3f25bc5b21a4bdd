/** Resolution of a primitive's base-colour texture to a file that exists. */
module Textures {
  import opened Wrappers
  import opened Paths
  import opened Gltf

  /** `images[...]['uri']` reached from a primitive through its material's
      `pbrMetallicRoughness.baseColorTexture`, its texture and that texture's
      `source`.  A missing `material`, `pbrMetallicRoughness` or
      `baseColorTexture`, or an index past the end of `materials`, `textures`
      or `images` (each taken as empty when absent), means "no texture".  A
      texture reference without `index`, a texture without `source` or an image
      without `uri` raises. */
  function BaseColorUri(doc: Document, prim: Primitive): Result<Option<Uri>> {
    match prim.material
    case None => Ok(None)
    case Some(matIdx) =>
      var materials := doc.materials.GetOr([]);
      if matIdx >= |materials| then Ok(None)
      else
        var pbr := materials[matIdx].pbrMetallicRoughness.GetOr(PbrMetallicRoughness(None));
        match pbr.baseColorTexture
        case None => Ok(None)
        case Some(info) =>
          var texIdx :- Required(info.index);
          var textures := doc.textures.GetOr([]);
          if texIdx >= |textures| then Ok(None)
          else
            var imgIdx :- Required(textures[texIdx].source);
            var images := doc.images.GetOr([]);
            if imgIdx >= |images| then Ok(None)
            else
              var uri :- Required(images[imgIdx].uri);
              Ok(Some(uri))
  }

  /** The primitive's material exists and its `baseColorTexture` is `info`. */
  ghost predicate ReachesInfo(doc: Document, prim: Primitive, info: TextureInfo) {
    && prim.material.Some?
    && doc.materials.Some? && prim.material.value < |doc.materials.value|
    && doc.materials.value[prim.material.value].pbrMetallicRoughness.Some?
    && doc.materials.value[prim.material.value].pbrMetallicRoughness.value.baseColorTexture == Some(info)
  }

  /** The base-colour texture reference names texture `tex`, which exists. */
  ghost predicate ReachesTexture(doc: Document, prim: Primitive, tex: Texture) {
    exists texIdx: nat ::
      && ReachesInfo(doc, prim, TextureInfo(Some(texIdx)))
      && doc.textures.Some? && texIdx < |doc.textures.value|
      && doc.textures.value[texIdx] == tex
  }

  /** That texture's `source` names image `img`, which exists. */
  ghost predicate ReachesImage(doc: Document, prim: Primitive, img: Image) {
    exists imgIdx: nat ::
      && ReachesTexture(doc, prim, Texture(Some(imgIdx)))
      && doc.images.Some? && imgIdx < |doc.images.value|
      && doc.images.value[imgIdx] == img
  }

  /** The complete link from a primitive to a uri: every key present and every
      index in range. */
  ghost predicate LinksTo(doc: Document, prim: Primitive, uri: Uri) {
    ReachesImage(doc, prim, Image(Some(uri)))
  }

  /** The chain yields a uri exactly when the primitive is linked to it. */
  lemma BaseColorUriFollowsLink(doc: Document, prim: Primitive, uri: Uri)
    ensures BaseColorUri(doc, prim) == Ok(Some(uri)) <==> LinksTo(doc, prim, uri)
  {
    BaseColorUriOutcome(doc, prim);
  }

  /** The three outcomes of the chain.  It raises exactly when a link that is
      reached lacks its next key: a `baseColorTexture` without `index`, an
      existing texture without `source`, an existing image without `uri`.  It
      yields "no texture" exactly when the chain stops early: no material in
      range with a `baseColorTexture`, or a texture or image index past the
      end of its array.  Otherwise it yields the linked uri. */
  lemma BaseColorUriOutcome(doc: Document, prim: Primitive)
    ensures BaseColorUri(doc, prim).Raised? <==>
      || ReachesInfo(doc, prim, TextureInfo(None))
      || ReachesTexture(doc, prim, Texture(None))
      || ReachesImage(doc, prim, Image(None))
    ensures BaseColorUri(doc, prim) == Ok(None) <==>
      || (forall info :: !ReachesInfo(doc, prim, info))
      || (exists texIdx: nat :: ReachesInfo(doc, prim, TextureInfo(Some(texIdx))) && texIdx >= |doc.textures.GetOr([])|)
      || (exists imgIdx: nat :: ReachesTexture(doc, prim, Texture(Some(imgIdx))) && imgIdx >= |doc.images.GetOr([])|)
    ensures forall uri :: BaseColorUri(doc, prim) == Ok(Some(uri)) <==> LinksTo(doc, prim, uri)
  {
    if !(prim.material.Some? && prim.material.value < |doc.materials.GetOr([])|) {
      return;
    }
    var mat := doc.materials.value[prim.material.value];
    if mat.pbrMetallicRoughness.None? || mat.pbrMetallicRoughness.value.baseColorTexture.None? {
      return;
    }
    var info := mat.pbrMetallicRoughness.value.baseColorTexture.value;
    assert ReachesInfo(doc, prim, info);
    if info.index.None? {
      return;
    }
    var texIdx := info.index.value;
    if texIdx >= |doc.textures.GetOr([])| {
      return;
    }
    var tex := doc.textures.value[texIdx];
    assert ReachesTexture(doc, prim, tex);
    if tex.source.None? {
      return;
    }
    var imgIdx := tex.source.value;
    if imgIdx >= |doc.images.GetOr([])| {
      return;
    }
    var img := doc.images.value[imgIdx];
    assert ReachesImage(doc, prim, img);
  }

  /** The three places searched for a texture, in order of preference: the
      texture folder with the uri's sub-path, the texture folder with the
      uri's final segment only, and the document's own folder. */
  function Candidates(gltfDir: Path, texFolder: Path, uri: Uri): seq<Path> {
    [texFolder + uri, texFolder + LastSegment(uri), gltfDir + uri]
  }

  /** The first candidate that exists. */
  function FirstExisting(candidates: seq<Path>, onDisk: set<Path>): (r: Option<Path>)
    ensures r.None? <==> forall i :: 0 <= i < |candidates| ==> candidates[i] !in onDisk
    ensures r.Some? ==> exists i :: 0 <= i < |candidates| && candidates[i] == r.value && r.value in onDisk
                                   && forall j :: 0 <= j < i ==> candidates[j] !in onDisk
    decreases |candidates|
  {
    if |candidates| == 0 then None
    else if candidates[0] in onDisk then Some(candidates[0])
    else
      var r := FirstExisting(candidates[1..], onDisk);
      assert r.Some? ==> exists i :: 0 <= i < |candidates| && candidates[i] == r.value && r.value in onDisk
                                   && forall j :: 0 <= j < i ==> candidates[j] !in onDisk by {
        if r.Some? {
          var i :| 0 <= i < |candidates| - 1 && candidates[1..][i] == r.value && r.value in onDisk
                   && forall j :: 0 <= j < i ==> candidates[1..][j] !in onDisk;
          assert candidates[i + 1] == r.value;
        }
      }
      r
  }

  /** The texture path of a primitive: `None` when it has no linked image or
      when no candidate file exists. */
  function ResolveTexture(doc: Document, prim: Primitive, onDisk: set<Path>, gltfDir: Path, texFolder: Path)
    : (r: Result<Option<Path>>)
    ensures r.Raised? <==> BaseColorUri(doc, prim).Raised?
    ensures BaseColorUri(doc, prim) == Ok(None) ==> r == Ok(None)
    ensures r.Ok? && r.value.Some? ==>
      && r.value.value in onDisk
      && BaseColorUri(doc, prim).Ok? && BaseColorUri(doc, prim).value.Some?
      && r.value.value in Candidates(gltfDir, texFolder, BaseColorUri(doc, prim).value.value)
  {
    var uri :- BaseColorUri(doc, prim);
    match uri
    case None => Ok(None)
    case Some(u) => Ok(FirstExisting(Candidates(gltfDir, texFolder, u), onDisk))
  }

  /** The search order: the sub-path under the texture folder wins over the
      flattened name, which wins over the document folder. */
  lemma TexturePrecedence(doc: Document, prim: Primitive, onDisk: set<Path>, gltfDir: Path, texFolder: Path, uri: Uri)
    requires BaseColorUri(doc, prim) == Ok(Some(uri))
    ensures texFolder + uri in onDisk ==>
      ResolveTexture(doc, prim, onDisk, gltfDir, texFolder) == Ok(Some(texFolder + uri))
    ensures texFolder + uri !in onDisk && texFolder + LastSegment(uri) in onDisk ==>
      ResolveTexture(doc, prim, onDisk, gltfDir, texFolder) == Ok(Some(texFolder + LastSegment(uri)))
    ensures texFolder + uri !in onDisk && texFolder + LastSegment(uri) !in onDisk && gltfDir + uri in onDisk ==>
      ResolveTexture(doc, prim, onDisk, gltfDir, texFolder) == Ok(Some(gltfDir + uri))
    ensures texFolder + uri !in onDisk && texFolder + LastSegment(uri) !in onDisk && gltfDir + uri !in onDisk ==>
      ResolveTexture(doc, prim, onDisk, gltfDir, texFolder) == Ok(None)
  {
    var c := Candidates(gltfDir, texFolder, uri);
    var r := FirstExisting(c, onDisk);
    assert ResolveTexture(doc, prim, onDisk, gltfDir, texFolder) == Ok(r);
    assert c[0] == texFolder + uri && c[1] == texFolder + LastSegment(uri) && c[2] == gltfDir + uri;
    if r.Some? {
      var i :| 0 <= i < |c| && c[i] == r.value && r.value in onDisk && forall j :: 0 <= j < i ==> c[j] !in onDisk;
      assert i > 0 ==> c[0] !in onDisk;
      assert i > 1 ==> c[1] !in onDisk;
    }
  }
}
