/** Preprocessing of one glTF document into a cache entry: choice of the
    binary buffer, one mesh record per primitive that has positions, and the
    collapse of every exception into "no entry". */
module Documents {
  import opened Wrappers
  import opened Bytes
  import opened Paths
  import opened Gltf
  import opened Accessors
  import opened Faces
  import opened NodeTransforms
  import opened Textures

  /** What the importer can see of the file system: the documents that open and
      parse as JSON, the bytes of the files that can be read, and the paths
      that exist. */
  datatype Disk = Disk(documents: map<Path, Document>, bytes: map<Path, seq<Byte>>, onDisk: set<Path>)

  /** One drawable primitive, flattened.  `uvs` is empty when the primitive has
      no texture coordinates. */
  datatype MeshRecord = MeshRecord(
    verts: seq<Vec3>,
    faces: seq<Face>,
    uvs: seq<Vec2>,
    texturePath: Option<Path>,
    transform: TransformSpec<real>)

  /** The cache entry of one document, named after the document's file stem. */
  datatype CacheEntry = CacheEntry(name: string, meshes: seq<MeshRecord>)

  /** Everything a primitive's record depends on. */
  datatype Context = Context(
    doc: Document,
    bin: seq<Byte>,
    transforms: map<nat, TransformSpec<real>>,
    onDisk: set<Path>,
    gltfDir: Path,
    texFolder: Path)

  const POSITION: string := "POSITION"
  const TEXCOORD_0: string := "TEXCOORD_0"

  // ---------------------------------------------------------------- buffer

  /** A buffer entry the importer loads: it has a `uri` and the file it names
      (relative to the document's folder) exists. */
  predicate Locates(b: Buffer, gltfDir: Path, onDisk: set<Path>) {
    b.uri.Some? && gltfDir + b.uri.value in onDisk
  }

  /** The index of the first buffer entry that locates an existing file. */
  function FirstBuffer(buffers: seq<Buffer>, gltfDir: Path, onDisk: set<Path>): (r: Option<nat>)
    ensures r.None? <==> forall j :: 0 <= j < |buffers| ==> !Locates(buffers[j], gltfDir, onDisk)
    ensures r.Some? ==> r.value < |buffers| && Locates(buffers[r.value], gltfDir, onDisk)
    ensures r.Some? ==> forall j :: 0 <= j < r.value ==> !Locates(buffers[j], gltfDir, onDisk)
    decreases |buffers|
  {
    if |buffers| == 0 then None
    else if Locates(buffers[0], gltfDir, onDisk) then Some(0)
    else
      match FirstBuffer(buffers[1..], gltfDir, onDisk)
      case None => None
      case Some(i) => Some(i + 1)
  }

  /** The buffer loop: stops at the first entry whose file exists. */
  method FindBinaryBuffer(buffers: seq<Buffer>, gltfDir: Path, onDisk: set<Path>) returns (r: Option<nat>)
    ensures r == FirstBuffer(buffers, gltfDir, onDisk)
  {
    r := None;
    for i := 0 to |buffers|
      invariant forall j :: 0 <= j < i ==> !Locates(buffers[j], gltfDir, onDisk)
    {
      var buffer := buffers[i];
      if buffer.uri.Some? {
        var binPath := gltfDir + buffer.uri.value;
        if binPath in onDisk {
          return Some(i);
        }
      }
    }
  }

  /** The binary data of a document.  No buffer found gives the empty sequence:
      the importer's `None` and an empty file are both falsy.  A file that
      exists but cannot be read raises. */
  function BinaryData(doc: Document, gltfDir: Path, disk: Disk): Result<seq<Byte>> {
    if doc.buffers.None? then Ok([])
    else
      match FirstBuffer(doc.buffers.value, gltfDir, disk.onDisk)
      case None => Ok([])
      case Some(i) =>
        var binPath := gltfDir + doc.buffers.value[i].uri.value;
        if binPath in disk.bytes then Ok(disk.bytes[binPath]) else Raised
  }

  // ------------------------------------------------------------- primitive

  predicate HasPosition(prim: Primitive) {
    prim.attributes.Some? && POSITION in prim.attributes.value
  }

  /** The texture coordinates of a primitive; `count` is the POSITION count. */
  function UvsOf(ctx: Context, attrs: map<string, nat>, count: nat): Result<seq<Vec2>> {
    if TEXCOORD_0 !in attrs then Ok([])
    else
      var acc :- AccessorAt(ctx.doc, attrs[TEXCOORD_0]);
      var view :- ViewOf(ctx.doc, acc);
      TexCoords(ctx.bin, EffectiveOffset(view, acc), view.byteStride.GetOr(TEXCOORD_STRIDE), count)
  }

  /** The index list of a primitive; empty when it has no `indices`. */
  function IndexListOf(ctx: Context, prim: Primitive): Result<seq<nat>> {
    match prim.indices
    case None => Ok([])
    case Some(i) =>
      var acc :- AccessorAt(ctx.doc, i);
      var view :- ViewOf(ctx.doc, acc);
      var count :- Required(acc.count);
      var componentType :- Required(acc.componentType);
      Indices(ctx.bin, EffectiveOffset(view, acc), count, componentType)
  }

  /** The record of one primitive of mesh `meshIdx`: `None` (skipped) when it has
      no POSITION attribute. */
  function PrimitiveRecord(ctx: Context, meshIdx: nat, prim: Primitive): (r: Result<Option<MeshRecord>>)
    ensures prim.attributes.None? ==> r.Raised?
    ensures prim.attributes.Some? && POSITION !in prim.attributes.value ==> r == Ok(None)
    ensures r.Ok? ==> (r.value.Some? <==> HasPosition(prim))
  {
    var attrs :- Required(prim.attributes);
    if POSITION !in attrs then Ok(None)
    else
      var acc :- AccessorAt(ctx.doc, attrs[POSITION]);
      var view :- ViewOf(ctx.doc, acc);
      var count :- Required(acc.count);
      var verts :- Positions(ctx.bin, EffectiveOffset(view, acc), view.byteStride.GetOr(POSITION_STRIDE), count);
      var uvs :- UvsOf(ctx, attrs, count);
      var indices :- IndexListOf(ctx, prim);
      var faces :- PrimitiveFaces(indices, |verts|);
      var texture :- ResolveTexture(ctx.doc, prim, ctx.onDisk, ctx.gltfDir, ctx.texFolder);
      Ok(Some(MeshRecord(verts, faces, uvs, texture, TransformFor(ctx.transforms, meshIdx))))
  }

  /** What a record holds: `accessor.count` positions, element i read at the
      effective offset plus i times the stride (12 when the view has none);
      texture coordinates only with TEXCOORD_0, and then one per position;
      faces from the index list, or synthesised when there is none; and the
      transform of the mesh's node. */
  lemma PrimitiveRecordShape(ctx: Context, meshIdx: nat, prim: Primitive, rec: MeshRecord)
    requires PrimitiveRecord(ctx, meshIdx, prim) == Ok(Some(rec))
    ensures HasPosition(prim)
    ensures AccessorAt(ctx.doc, prim.attributes.value[POSITION]).Ok?
    ensures var acc := AccessorAt(ctx.doc, prim.attributes.value[POSITION]).value;
            && ViewOf(ctx.doc, acc).Ok? && acc.count.Some?
            && var view := ViewOf(ctx.doc, acc).value;
               var offset := EffectiveOffset(view, acc);
               var stride := view.byteStride.GetOr(POSITION_STRIDE);
               && |rec.verts| == acc.count.value
               && forall i :: 0 <= i < |rec.verts| ==>
                    ElementFits(|ctx.bin|, offset, stride, i, 12)
                    && rec.verts[i] == Vec3At(ctx.bin, ElementOffset(offset, stride, i))
    ensures TEXCOORD_0 !in prim.attributes.value ==> rec.uvs == []
    ensures TEXCOORD_0 in prim.attributes.value ==> |rec.uvs| == |rec.verts|
    ensures IndexListOf(ctx, prim) == Ok([]) ==> rec.faces == SynthesizedFaces(|rec.verts|)
    ensures IndexListOf(ctx, prim).Ok? && IndexListOf(ctx, prim).value != [] ==>
              Flatten(rec.faces) == IndexListOf(ctx, prim).value
    ensures rec.transform == TransformFor(ctx.transforms, meshIdx)
  {
    var indices := IndexListOf(ctx, prim).value;
    if indices != [] {
      GroupTriplesRoundTrip(indices);
    }
  }

  /** The texture coordinates of a record: with TEXCOORD_0, element i is read at
      that accessor's effective offset plus i times its view's stride (8 when
      the view has none); and the texture path is the one resolved for the
      primitive. */
  lemma PrimitiveRecordUvs(ctx: Context, meshIdx: nat, prim: Primitive, rec: MeshRecord)
    requires PrimitiveRecord(ctx, meshIdx, prim) == Ok(Some(rec))
    ensures HasPosition(prim)
    ensures TEXCOORD_0 in prim.attributes.value ==>
      && AccessorAt(ctx.doc, prim.attributes.value[TEXCOORD_0]).Ok?
      && var acc := AccessorAt(ctx.doc, prim.attributes.value[TEXCOORD_0]).value;
         && ViewOf(ctx.doc, acc).Ok?
         && var view := ViewOf(ctx.doc, acc).value;
            var offset := EffectiveOffset(view, acc);
            var stride := view.byteStride.GetOr(TEXCOORD_STRIDE);
            forall i :: 0 <= i < |rec.uvs| ==>
              ElementFits(|ctx.bin|, offset, stride, i, 8)
              && rec.uvs[i] == Vec2At(ctx.bin, ElementOffset(offset, stride, i))
    ensures ResolveTexture(ctx.doc, prim, ctx.onDisk, ctx.gltfDir, ctx.texFolder) == Ok(rec.texturePath)
  {
  }

  /** An index accessor of an unsupported component type (unsigned byte, say)
      contributes no indices, so the primitive's faces are synthesised from
      vertex numbering as if it had no index list. */
  lemma UnsupportedIndexTypeSynthesizes(ctx: Context, meshIdx: nat, prim: Primitive, rec: MeshRecord)
    requires PrimitiveRecord(ctx, meshIdx, prim) == Ok(Some(rec))
    requires prim.indices.Some? && AccessorAt(ctx.doc, prim.indices.value).Ok?
    requires AccessorAt(ctx.doc, prim.indices.value).value.componentType.Some?
    requires AccessorAt(ctx.doc, prim.indices.value).value.componentType.value !in {UNSIGNED_SHORT, UNSIGNED_INT}
    ensures rec.faces == SynthesizedFaces(|rec.verts|)
  {
    PrimitiveRecordShape(ctx, meshIdx, prim, rec);
  }

  /** The record loop body of the importer, for one primitive. */
  method ReadPrimitive(ctx: Context, meshIdx: nat, prim: Primitive) returns (r: Result<Option<MeshRecord>>)
    ensures r == PrimitiveRecord(ctx, meshIdx, prim)
  {
    var attrs :- Required(prim.attributes);
    if POSITION !in attrs {
      return Ok(None);
    }
    var posAcc :- AccessorAt(ctx.doc, attrs[POSITION]);
    var posView :- ViewOf(ctx.doc, posAcc);
    var posOffset := EffectiveOffset(posView, posAcc);
    var stride := posView.byteStride.GetOr(POSITION_STRIDE);
    var count :- Required(posAcc.count);
    var positions :- ReadPositions(ctx.bin, posOffset, stride, count);

    var uvs: seq<Vec2> := [];
    if TEXCOORD_0 in attrs {
      var uvAcc :- AccessorAt(ctx.doc, attrs[TEXCOORD_0]);
      var uvView :- ViewOf(ctx.doc, uvAcc);
      var uvOffset := EffectiveOffset(uvView, uvAcc);
      var uvStride := uvView.byteStride.GetOr(TEXCOORD_STRIDE);
      uvs :- ReadTexCoords(ctx.bin, uvOffset, uvStride, count);
    }

    var indices: seq<nat> := [];
    if prim.indices.Some? {
      var idxAcc :- AccessorAt(ctx.doc, prim.indices.value);
      var idxView :- ViewOf(ctx.doc, idxAcc);
      var idxOffset := EffectiveOffset(idxView, idxAcc);
      var idxCount :- Required(idxAcc.count);
      var componentType :- Required(idxAcc.componentType);
      indices :- DecodeIndices(ctx.bin, idxOffset, idxCount, componentType);
    }

    var faces :- AssembleFaces(indices, |positions|);
    var texturePath :- ResolveTexture(ctx.doc, prim, ctx.onDisk, ctx.gltfDir, ctx.texFolder);
    return Ok(Some(MeshRecord(positions, faces, uvs, texturePath, TransformFor(ctx.transforms, meshIdx))));
  }

  // -------------------------------------------------------------- document

  function OptionToSeq<T>(o: Option<T>): seq<T> {
    if o.Some? then [o.value] else []
  }

  /** The records of the primitives `prims` of mesh `meshIdx`, in order. */
  function MeshRecords(ctx: Context, meshIdx: nat, prims: seq<Primitive>): Result<seq<MeshRecord>>
    decreases |prims|
  {
    if |prims| == 0 then Ok([])
    else
      var init :- MeshRecords(ctx, meshIdx, prims[..|prims| - 1]);
      var last :- PrimitiveRecord(ctx, meshIdx, prims[|prims| - 1]);
      Ok(init + OptionToSeq(last))
  }

  /** The records of all meshes, mesh by mesh; a mesh without `primitives` raises. */
  function DocumentRecords(ctx: Context, meshes: seq<Mesh>): Result<seq<MeshRecord>>
    decreases |meshes|
  {
    if |meshes| == 0 then Ok([])
    else
      var init :- DocumentRecords(ctx, meshes[..|meshes| - 1]);
      var prims :- Required(meshes[|meshes| - 1].primitives);
      var recs :- MeshRecords(ctx, |meshes| - 1, prims);
      Ok(init + recs)
  }

  /** Every primitive of mesh `meshIdx` is processed without raising. */
  ghost predicate PrimitivesOk(ctx: Context, meshIdx: nat, prims: seq<Primitive>) {
    forall p :: 0 <= p < |prims| ==> PrimitiveRecord(ctx, meshIdx, prims[p]).Ok?
  }

  /** Every mesh has `primitives` and all of them are processed without raising. */
  ghost predicate MeshesOk(ctx: Context, meshes: seq<Mesh>) {
    forall m :: 0 <= m < |meshes| ==>
      meshes[m].primitives.Some? && PrimitivesOk(ctx, m, meshes[m].primitives.value)
  }

  lemma {:induction false} MeshRecordsOk(ctx: Context, meshIdx: nat, prims: seq<Primitive>)
    ensures MeshRecords(ctx, meshIdx, prims).Ok? <==> PrimitivesOk(ctx, meshIdx, prims)
    decreases |prims|
  {
    if |prims| > 0 {
      var init := prims[..|prims| - 1];
      MeshRecordsOk(ctx, meshIdx, init);
      assert forall p :: 0 <= p < |init| ==> init[p] == prims[p];
    }
  }

  /** A document's records are produced exactly when no primitive of any mesh
      raises: one failing primitive loses the whole document. */
  lemma {:induction false} DocumentRecordsOk(ctx: Context, meshes: seq<Mesh>)
    ensures DocumentRecords(ctx, meshes).Ok? <==> MeshesOk(ctx, meshes)
    decreases |meshes|
  {
    if |meshes| > 0 {
      var n := |meshes| - 1;
      var init := meshes[..n];
      DocumentRecordsOk(ctx, init);
      assert forall m :: 0 <= m < |init| ==> init[m] == meshes[m];
      if meshes[n].primitives.Some? {
        MeshRecordsOk(ctx, n, meshes[n].primitives.value);
      }
    }
  }

  /** The primitives of `prims` that have a POSITION attribute, tagged with their mesh index. */
  function WithPosition(meshIdx: nat, prims: seq<Primitive>): seq<(nat, Primitive)>
    decreases |prims|
  {
    if |prims| == 0 then []
    else
      var last := prims[|prims| - 1];
      WithPosition(meshIdx, prims[..|prims| - 1]) + (if HasPosition(last) then [(meshIdx, last)] else [])
  }

  /** The POSITION-bearing primitives of a document, mesh by mesh, each mesh's in order. */
  function PositionPrimitives(meshes: seq<Mesh>): seq<(nat, Primitive)>
    decreases |meshes|
  {
    if |meshes| == 0 then []
    else
      PositionPrimitives(meshes[..|meshes| - 1])
      + WithPosition(|meshes| - 1, meshes[|meshes| - 1].primitives.GetOr([]))
  }

  /** Records correspond one to one, in order, to the POSITION-bearing primitives. */
  ghost predicate RecordsMatch(ctx: Context, recs: seq<MeshRecord>, prims: seq<(nat, Primitive)>) {
    |recs| == |prims|
    && forall k :: 0 <= k < |recs| ==> PrimitiveRecord(ctx, prims[k].0, prims[k].1) == Ok(Some(recs[k]))
  }

  lemma RecordsMatchAppend(ctx: Context, r1: seq<MeshRecord>, p1: seq<(nat, Primitive)>,
                           r2: seq<MeshRecord>, p2: seq<(nat, Primitive)>)
    requires RecordsMatch(ctx, r1, p1) && RecordsMatch(ctx, r2, p2)
    ensures RecordsMatch(ctx, r1 + r2, p1 + p2)
  {
    forall k | 0 <= k < |r1 + r2|
      ensures PrimitiveRecord(ctx, (p1 + p2)[k].0, (p1 + p2)[k].1) == Ok(Some((r1 + r2)[k]))
    {
      if k >= |r1| {
        assert (p1 + p2)[k] == p2[k - |r1|] && (r1 + r2)[k] == r2[k - |r1|];
      }
    }
  }

  lemma {:induction false} MeshRecordsOrder(ctx: Context, meshIdx: nat, prims: seq<Primitive>)
    requires MeshRecords(ctx, meshIdx, prims).Ok?
    ensures RecordsMatch(ctx, MeshRecords(ctx, meshIdx, prims).value, WithPosition(meshIdx, prims))
    decreases |prims|
  {
    if |prims| > 0 {
      var init := prims[..|prims| - 1];
      var last := prims[|prims| - 1];
      MeshRecordsOrder(ctx, meshIdx, init);
      var rec := PrimitiveRecord(ctx, meshIdx, last).value;
      RecordsMatchAppend(ctx, MeshRecords(ctx, meshIdx, init).value, WithPosition(meshIdx, init),
                         OptionToSeq(rec), if HasPosition(last) then [(meshIdx, last)] else []);
    }
  }

  /** The records of a document are one per POSITION-bearing primitive, in
      mesh-then-primitive order, each the record of that primitive. */
  lemma {:induction false} DocumentRecordsOrder(ctx: Context, meshes: seq<Mesh>)
    requires DocumentRecords(ctx, meshes).Ok?
    ensures RecordsMatch(ctx, DocumentRecords(ctx, meshes).value, PositionPrimitives(meshes))
    decreases |meshes|
  {
    if |meshes| > 0 {
      var n := |meshes| - 1;
      var init := meshes[..n];
      DocumentRecordsOrder(ctx, init);
      var prims := meshes[n].primitives.value;
      MeshRecordsOrder(ctx, n, prims);
      RecordsMatchAppend(ctx, DocumentRecords(ctx, init).value, PositionPrimitives(init),
                         MeshRecords(ctx, n, prims).value, WithPosition(n, prims));
    }
  }

  /** The context a document's primitives are read in. */
  function ContextOf(doc: Document, bin: seq<Byte>, disk: Disk, gltfDir: Path, texFolder: Path): Context {
    Context(doc, bin, DocumentTransforms(doc), disk.onDisk, gltfDir, texFolder)
  }

  /** `preprocess_gltf_file(gltfDir / name)` with the texture folder
      `texFolder`: `None` when the document cannot be read, has no (non-empty)
      binary buffer, has no `meshes`, or raises anywhere; otherwise the entry
      named after the file stem with the records of its meshes. */
  function Preprocess(disk: Disk, texFolder: Path, gltfDir: Path, name: string): Option<CacheEntry> {
    var gltfPath := gltfDir + [name];
    if gltfPath !in disk.documents then None
    else
      var doc := disk.documents[gltfPath];
      match BinaryData(doc, gltfDir, disk)
      case Raised => None
      case Ok(bin) =>
        if |bin| == 0 || doc.meshes.None? then None
        else
          match DocumentRecords(ContextOf(doc, bin, disk, gltfDir, texFolder), doc.meshes.value)
          case Raised => None
          case Ok(records) => Some(CacheEntry(Stem(name), records))
  }

  /** A document yields an entry exactly when it is read, its chosen buffer
      holds bytes, it has `meshes`, and no primitive raises; the entry is named
      after the file stem and holds one record per POSITION-bearing primitive,
      in order. */
  lemma PreprocessOutcome(disk: Disk, texFolder: Path, gltfDir: Path, name: string)
    ensures Preprocess(disk, texFolder, gltfDir, name).Some? <==>
      && gltfDir + [name] in disk.documents
      && var doc := disk.documents[gltfDir + [name]];
         && BinaryData(doc, gltfDir, disk).Ok? && |BinaryData(doc, gltfDir, disk).value| > 0
         && doc.meshes.Some?
         && MeshesOk(ContextOf(doc, BinaryData(doc, gltfDir, disk).value, disk, gltfDir, texFolder), doc.meshes.value)
    ensures Preprocess(disk, texFolder, gltfDir, name).Some? ==>
      && var doc := disk.documents[gltfDir + [name]];
         var ctx := ContextOf(doc, BinaryData(doc, gltfDir, disk).value, disk, gltfDir, texFolder);
         var entry := Preprocess(disk, texFolder, gltfDir, name).value;
         && entry.name == Stem(name)
         && RecordsMatch(ctx, entry.meshes, PositionPrimitives(doc.meshes.value))
  {
    var gltfPath := gltfDir + [name];
    if gltfPath in disk.documents {
      var doc := disk.documents[gltfPath];
      if BinaryData(doc, gltfDir, disk).Ok? && doc.meshes.Some? {
        var ctx := ContextOf(doc, BinaryData(doc, gltfDir, disk).value, disk, gltfDir, texFolder);
        DocumentRecordsOk(ctx, doc.meshes.value);
        if DocumentRecords(ctx, doc.meshes.value).Ok? {
          DocumentRecordsOrder(ctx, doc.meshes.value);
        }
      }
    }
  }

  /** A readable document with a non-empty buffer and an empty `meshes` list
      still yields an entry, with no records. */
  lemma EmptyMeshesStillYieldEntry(disk: Disk, texFolder: Path, gltfDir: Path, name: string)
    requires gltfDir + [name] in disk.documents
    requires disk.documents[gltfDir + [name]].meshes == Some([])
    requires BinaryData(disk.documents[gltfDir + [name]], gltfDir, disk).Ok?
    requires |BinaryData(disk.documents[gltfDir + [name]], gltfDir, disk).value| > 0
    ensures Preprocess(disk, texFolder, gltfDir, name) == Some(CacheEntry(Stem(name), []))
  {
  }

  /** The buffer-loading part of the importer: the buffer loop, then the read. */
  method LoadBinary(doc: Document, gltfDir: Path, disk: Disk) returns (r: Result<seq<Byte>>)
    ensures r == BinaryData(doc, gltfDir, disk)
  {
    var bin: seq<Byte> := [];
    if doc.buffers.Some? {
      var found := FindBinaryBuffer(doc.buffers.value, gltfDir, disk.onDisk);
      if found.Some? {
        var binPath := gltfDir + doc.buffers.value[found.value].uri.value;
        if binPath !in disk.bytes {
          return Raised;
        }
        bin := disk.bytes[binPath];
      }
    }
    return Ok(bin);
  }

  /** The primitive loop of one mesh, appending each record as it is made. */
  method ReadMesh(ctx: Context, meshIdx: nat, prims: seq<Primitive>) returns (r: Result<seq<MeshRecord>>)
    ensures r == MeshRecords(ctx, meshIdx, prims)
  {
    var records: seq<MeshRecord> := [];
    for j := 0 to |prims|
      invariant MeshRecords(ctx, meshIdx, prims[..j]) == Ok(records)
    {
      assert prims[..j + 1][..j] == prims[..j] && prims[..j + 1][j] == prims[j];
      var rec := ReadPrimitive(ctx, meshIdx, prims[j]);
      if rec.Raised? {
        MeshRecordsOk(ctx, meshIdx, prims);
        return Raised;
      }
      assert MeshRecords(ctx, meshIdx, prims[..j + 1]) == Ok(records + OptionToSeq(rec.value));
      if rec.value.Some? {
        records := records + [rec.value.value];
      } else {
        assert records + OptionToSeq(rec.value) == records;
      }
    }
    assert prims[..|prims|] == prims;
    return Ok(records);
  }

  /** The mesh loop: `mesh['primitives']` of each mesh in turn. */
  method ReadMeshes(ctx: Context, meshes: seq<Mesh>) returns (r: Result<seq<MeshRecord>>)
    ensures r == DocumentRecords(ctx, meshes)
  {
    var records: seq<MeshRecord> := [];
    for i := 0 to |meshes|
      invariant DocumentRecords(ctx, meshes[..i]) == Ok(records)
    {
      assert meshes[..i + 1][..i] == meshes[..i];
      if meshes[i].primitives.None? {
        DocumentRecordsOk(ctx, meshes);
        return Raised;
      }
      var meshRecords := ReadMesh(ctx, i, meshes[i].primitives.value);
      if meshRecords.Raised? {
        MeshRecordsOk(ctx, i, meshes[i].primitives.value);
        DocumentRecordsOk(ctx, meshes);
        return Raised;
      }
      records := records + meshRecords.value;
    }
    assert meshes[..|meshes|] == meshes;
    return Ok(records);
  }

  /** The importer's `preprocess_gltf_file`. */
  method PreprocessGltfFile(disk: Disk, texFolder: Path, gltfDir: Path, name: string) returns (r: Option<CacheEntry>)
    ensures r == Preprocess(disk, texFolder, gltfDir, name)
  {
    var gltfPath := gltfDir + [name];
    if gltfPath !in disk.documents {
      return None;
    }
    var doc := disk.documents[gltfPath];
    var bin := LoadBinary(doc, gltfDir, disk);
    if bin.Raised? || |bin.value| == 0 {
      return None;
    }
    var transforms: map<nat, TransformSpec<real>> := map[];
    if doc.nodes.Some? {
      transforms := CollectNodeTransforms(doc.nodes.value);
    }
    if doc.meshes.None? {
      return None;
    }
    var ctx := Context(doc, bin.value, transforms, disk.onDisk, gltfDir, texFolder);
    assert ctx == ContextOf(doc, bin.value, disk, gltfDir, texFolder);
    var records := ReadMeshes(ctx, doc.meshes.value);
    if records.Raised? {
      return None;
    }
    return Some(CacheEntry(Stem(name), records.value));
  }
}
