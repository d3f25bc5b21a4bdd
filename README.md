# Ultrafast glTF importer: preprocessing core

The importer (`ultrafast-gltf-importer.py`) turns a folder of glTF 2.0
documents into a cache. It reads each `.gltf` file, loads its binary buffer
and decodes every primitive that has a `POSITION` attribute. A primitive
becomes a record holding its vertex positions, triangle faces, texture
coordinates, a resolved base-colour texture path and the transform of the
node that instances its mesh. A later Blender stage reads the cache. This
project models that preprocessing stage, plus the conversion of a node
transform into a matrix.

Modules:

- `Wrappers`: `Option` and the `Result` of a step that may raise (`Raised`).
- `Bytes`: bytes, and little-endian 16/32-bit reads with their encoders.
- `Paths`: paths as segment sequences, `.name`, `.stem`.
- `Gltf`: the typed document. Every key the importer reads with `[...]` is an
  `Option`, and reading a missing key raises.
- `Accessors`: positions, texture coordinates and index lists decoded from a
  buffer. Each is a specification function, plus the loop that computes it.
- `Faces`: grouping index lists into triangles, and synthesising faces from
  vertex numbers.
- `NodeTransforms`: the mesh index → transform map built from the nodes.
- `Textures`: the material → texture → image chain, and the three-place file
  search.
- `Documents`: choosing the binary buffer, one record per primitive, and
  `preprocess_gltf_file`.
- `Cache`: `build_cache` over an already listed, sorted set of names.
- `Transform`: `parse_transform` over symbolic matrices.

The file system is a value, `Disk`, with three parts:

- the parsed documents, keyed by path; a missing path means open or JSON
  parsing raised;
- the bytes of the readable files;
- the set of paths that exist.

The importer catches every exception of a document and returns `None`. The
model propagates `Raised` up to the document and maps it to `None` there.

Vertex and texture-coordinate components are `float32` values. The model
keeps them as their raw 32-bit little-endian words, so nothing is
interpreted.

### Where the code departs from the glTF design

Each of these is modelled as the code behaves:

- **Partial triple in an index list.** An index list whose length is not a
  multiple of 3 makes the face loop read past its end. That raises, and the
  whole document is dropped (`Faces.GroupTriplesRoundTrip`).
- **Non-indexed primitive with a partial triple.** When the vertex count is
  not a multiple of 3, the synthesised faces end with a face that names
  vertices that do not exist: 10 vertices give `(9, 10, 11)`
  (`Faces.SynthesizedFacesInRange`, `Faces.TenVerticesOverrun`).
- **Unsupported index component type.** An index accessor with a component
  type other than 5123 or 5125 (unsigned byte, say) yields no indices. The
  faces are then synthesised as if the primitive had no index list.
- **Texture-coordinate count.** Texture coordinates are read with the
  position accessor's `count`, not their own.
- **Empty `meshes` list.** A document with an empty `meshes` list still
  yields a cache entry. A document with no `meshes` key, or with no loaded
  buffer bytes, yields none.
- **Transform order.** `parse_transform` composes S · R · T. Section 3.5.3 of
  the glTF 2.0 specification prescribes T · R · S. The two lists of factors
  are reverses of each other (`Transform.ImporterOrderReversesGltf`).
- **Missing keys in the texture chain.** A `baseColorTexture` without
  `index`, a texture without `source`, or an image without `uri` raises.
  The last case is the usual one for an image embedded through a buffer view.
  The raise drops the whole document, not just the texture
  (`Textures.BaseColorUriOutcome`). Only a missing material, material
  extension or texture reference, or an index past the end of its array,
  means "no texture".
- **Indexed faces are not range-checked.** Indices are grouped into faces
  as they are, without a check against the vertex count. An index list can
  therefore name vertices that do not exist, just as synthesised faces can.
- **Byte length and buffer index.** `bufferView.buffer` and `byteLength` are
  ignored. Every view is read from the one buffer that was loaded.

## Model

| member | source | states |
|---|---|---|
| Accessors.Vec3At | ultrafast-gltf-importer.py:96 | A position element is three 32-bit words that re-encode to exactly the 12 bytes read. |
| Accessors.Vec2At | ultrafast-gltf-importer.py:109 | A texture-coordinate element is two 32-bit words that re-encode to exactly the 8 bytes read. |
| Accessors.Positions | ultrafast-gltf-importer.py:87-97 | Decoding succeeds exactly when every one of the `count` 12-byte elements at offset + i·stride lies inside the buffer. The result then has `count` entries, and entry i holds the three little-endian words at offset + i·stride. |
| Accessors.ReadPositions | ultrafast-gltf-importer.py:86-97 | The position loop returns exactly `Positions`: every element in range, or raises. |
| Accessors.TexCoords | ultrafast-gltf-importer.py:101-110 | As `Positions`, for 8-byte (u, v) elements. |
| Accessors.ReadTexCoords | ultrafast-gltf-importer.py:99-110 | The texture-coordinate loop returns exactly `TexCoords`. |
| Accessors.Indices | ultrafast-gltf-importer.py:114-128 | Type 5123 reads `count` 2-byte little-endian values at offset + 2i, each ≤ 0xFFFF. Type 5125 reads 4-byte values at offset + 4i, each < 2^32. Either raises exactly when a read leaves the buffer. Any other type yields the empty list. |
| Accessors.DecodeIndices | ultrafast-gltf-importer.py:112-128 | The index loops return exactly `Indices`. |
| Accessors.RunFitsEach | ultrafast-gltf-importer.py:94-96 | A run of `count` strided elements fits in the buffer iff each element does. |
| Bytes.U32LE | ultrafast-gltf-importer.py:128 | An unsigned 32-bit read is the low 16-bit half plus 2^16 times the high half. |
| Bytes.U16LE | ultrafast-gltf-importer.py:124 | An unsigned 16-bit read is at most 0xFFFF. |
| Bytes.U16RoundTrip | ultrafast-gltf-importer.py:124 | Reading back the two bytes written for a value gives the value. |
| Bytes.U16Exact | ultrafast-gltf-importer.py:124 | Re-encoding a 16-bit read gives back the two bytes read. |
| Bytes.U32RoundTrip | ultrafast-gltf-importer.py:128 | Reading back the four bytes written for a word gives the word. |
| Bytes.U32Exact | ultrafast-gltf-importer.py:128 | Re-encoding a 32-bit read gives back the four bytes read. |
| Faces.GroupTriples | ultrafast-gltf-importer.py:131-133 | Consecutive triples of the index list. It raises when the length is not a multiple of 3. `GroupTriplesRoundTrip` characterises it. |
| Faces.SynthesizedFaces | ultrafast-gltf-importer.py:134-136 | Faces (3k, 3k+1, 3k+2) for each step of three below the vertex count. `SynthesizedFacesInRange` characterises it. |
| Faces.PrimitiveFaces | ultrafast-gltf-importer.py:130-136 | The grouped index list when it is non-empty, otherwise the synthesised faces. |
| Faces.GroupTriplesRoundTrip | ultrafast-gltf-importer.py:131-133 | Grouping an index list into triangles succeeds iff its length is a multiple of 3. Flattening the triangles then gives the list back. |
| Faces.FlattenRoundTrip | ultrafast-gltf-importer.py:131-133 | Grouping the flattened indices of any face list gives that face list back. |
| Faces.SynthesizedFacesInRange | ultrafast-gltf-importer.py:134-136 | Synthesis gives ceil(n/3) faces. All their vertex numbers are below n iff n is a multiple of 3. |
| Faces.TenVerticesOverrun | ultrafast-gltf-importer.py:134-136 | Ten vertices give a fourth face (9, 10, 11). |
| Faces.AssembleFaces | ultrafast-gltf-importer.py:130-136 | The face loops return the grouped index list when it is non-empty, and the synthesised faces otherwise. |
| NodeTransforms.TransformMap | ultrafast-gltf-importer.py:67-77 | The node loop's map, with a later node overwriting an earlier one. `TransformMapKeys` and `TransformMapLastWins` characterise it. |
| NodeTransforms.TransformFor | ultrafast-gltf-importer.py:179 | `node_transforms.get(mesh_idx, {})`. |
| NodeTransforms.TransformMapKeys | ultrafast-gltf-importer.py:67-77 | A mesh index has a transform entry iff some node names that mesh. |
| NodeTransforms.TransformMapLastWins | ultrafast-gltf-importer.py:67-77 | The entry of a mesh is the copied transform keys of the last node naming it. |
| NodeTransforms.UnreferencedMeshGetsNoTransform | ultrafast-gltf-importer.py:179 | A mesh no node names gets the empty transform. |
| NodeTransforms.CollectNodeTransforms | ultrafast-gltf-importer.py:67-77 | The node loop builds exactly `TransformMap`. |
| Gltf.AccessorAt | ultrafast-gltf-importer.py:87 | Accessor lookup succeeds iff `accessors` is present and the index is in range. |
| Gltf.ViewOf | ultrafast-gltf-importer.py:88 | Buffer-view lookup succeeds iff the accessor names a view, `bufferViews` is present and the index is in range. |
| Textures.BaseColorUri | ultrafast-gltf-importer.py:139-153 | The material → texture → image chain. `BaseColorUriOutcome` characterises it. |
| Textures.BaseColorUriOutcome | ultrafast-gltf-importer.py:139-153 | The chain raises iff a reached link lacks its next key: a `baseColorTexture` without `index`, an existing texture without `source`, or an existing image without `uri`. It yields no texture iff it stops early: no material in range with a `baseColorTexture`, or a texture or image index past its array. It yields a uri iff the link is complete. |
| Textures.BaseColorUriFollowsLink | ultrafast-gltf-importer.py:139-153 | The material chain yields a uri iff the primitive has a complete link: material → base-colour texture → image → uri, every key present and every index in range. |
| Textures.ResolveTexture | ultrafast-gltf-importer.py:139-172 | The texture step raises iff the chain raises, and gives no path when the chain gives no uri. A path it gives exists and is one of the three candidates for the linked uri. |
| Textures.FirstExisting | ultrafast-gltf-importer.py:167-172 | The result is None iff no candidate exists. Otherwise it is the first candidate that exists. |
| Textures.TexturePrecedence | ultrafast-gltf-importer.py:155-172 | The texture folder with the uri's sub-path wins. Then comes the texture folder with the uri's final segment, then the document's folder. If none exists, there is no texture. |
| Paths.RFind | ultrafast-gltf-importer.py:62 | Finds the last occurrence of a character, or reports that there is none. |
| Paths.StemOfGltf | ultrafast-gltf-importer.py:62 | The stem of `s.gltf` is `s`, even when `s` contains dots. |
| Paths.Stem | ultrafast-gltf-importer.py:62 | The stem differs from the name exactly when the last dot lies strictly inside it. The stem is then the part before that dot, and no dot follows. Otherwise the stem is the whole name. |
| Documents.FirstBuffer | ultrafast-gltf-importer.py:48-56 | Picks the first buffer entry with a `uri` whose file exists, or none iff no entry qualifies. |
| Documents.FindBinaryBuffer | ultrafast-gltf-importer.py:48-56 | The buffer loop stops at exactly `FirstBuffer`. |
| Documents.BinaryData | ultrafast-gltf-importer.py:47-59 | The chosen buffer's bytes. No buffer gives empty bytes, and an unreadable chosen file raises. `LoadBinary` computes it. |
| Documents.LoadBinary | ultrafast-gltf-importer.py:47-59 | Loads exactly `BinaryData`. That is empty when no buffer is found, and raises when the chosen file cannot be read. |
| Documents.PrimitiveRecord | ultrafast-gltf-importer.py:84-180 | A primitive without `attributes` raises. One with `attributes` but no POSITION is skipped without raising. A primitive that does not raise gives a record iff it has a POSITION attribute. |
| Documents.PrimitiveRecordShape | ultrafast-gltf-importer.py:84-180 | A record holds `count` positions read at effective offset + i·stride, with stride 12 by default. It holds texture coordinates only with TEXCOORD_0, and then one per position. Its faces flatten back to the index list, or are synthesised when that list is empty. Its transform is the mesh's. |
| Documents.PrimitiveRecordUvs | ultrafast-gltf-importer.py:99-110 | With TEXCOORD_0, texture coordinate i is read at that accessor's effective offset plus i·stride, with stride 8 by default. The record's texture path is the one resolved for the primitive. |
| Documents.UnsupportedIndexTypeSynthesizes | ultrafast-gltf-importer.py:119-136 | An index accessor of another component type leads to synthesised faces. |
| Documents.ReadPrimitive | ultrafast-gltf-importer.py:84-180 | The per-primitive body computes exactly `PrimitiveRecord`. |
| Documents.ReadMesh | ultrafast-gltf-importer.py:83-180 | The primitive loop of one mesh computes exactly `MeshRecords`. |
| Documents.ReadMeshes | ultrafast-gltf-importer.py:82-180 | The mesh loop computes exactly `DocumentRecords`. |
| Documents.MeshRecords | ultrafast-gltf-importer.py:83-180 | The records of one mesh's primitives, in order. `MeshRecordsOk` and `MeshRecordsOrder` characterise them. |
| Documents.DocumentRecords | ultrafast-gltf-importer.py:82-180 | The records of all meshes, mesh by mesh. `DocumentRecordsOk` and `DocumentRecordsOrder` characterise them. |
| Documents.MeshRecordsOk | ultrafast-gltf-importer.py:83-180 | A mesh's records are produced iff no primitive of it raises. |
| Documents.DocumentRecordsOk | ultrafast-gltf-importer.py:82-180 | A document's records are produced iff every mesh has `primitives` and no primitive raises. |
| Documents.MeshRecordsOrder | ultrafast-gltf-importer.py:83-180 | A mesh's records are one per POSITION-bearing primitive, in order, each that primitive's record. |
| Documents.DocumentRecordsOrder | ultrafast-gltf-importer.py:82-180 | A document's records are one per POSITION-bearing primitive, in mesh-then-primitive order. |
| Documents.Preprocess | ultrafast-gltf-importer.py:38-186 | `preprocess_gltf_file` as a function of the disk. `PreprocessOutcome` characterises it. |
| Documents.PreprocessOutcome | ultrafast-gltf-importer.py:38-186 | A file yields an entry iff four things hold: it is read, its buffer bytes are non-empty, it has `meshes`, and nothing raises. The entry is named after the file stem and holds the ordered records. |
| Documents.EmptyMeshesStillYieldEntry | ultrafast-gltf-importer.py:79-182 | An empty `meshes` list with loaded bytes yields an entry with no records. |
| Documents.PreprocessGltfFile | ultrafast-gltf-importer.py:38-186 | The whole document procedure computes exactly `Preprocess`. |
| Cache.SomesAppend | ultrafast-gltf-importer.py:195-198 | Keeping the successful outcomes distributes over concatenation. |
| Cache.SomesMembers | ultrafast-gltf-importer.py:198 | An entry is kept iff it is one of the outcomes. |
| Cache.Outcomes | ultrafast-gltf-importer.py:195-197 | There is one outcome per file name. |
| Cache.CacheOf | ultrafast-gltf-importer.py:192-198 | The successful entries of the files, in order. `CacheOfMembers` and `CacheOfAppend` characterise it. |
| Cache.CacheOfAppend | ultrafast-gltf-importer.py:195-198 | The cache of two name lists is the concatenation of their caches. |
| Cache.CacheOfSingle | ultrafast-gltf-importer.py:197-198 | One file contributes its entry, or nothing. |
| Cache.CacheOfMembers | ultrafast-gltf-importer.py:195-198 | An entry is in the cache iff preprocessing one of the files yields it. |
| Cache.BuildCache | ultrafast-gltf-importer.py:188-198 | The file loop keeps exactly the successful entries, in file order. |
| Transform.ParseTransform | ultrafast-gltf-importer.py:251-270 | A `matrix` key wins, and entry (row, col) of the result is value 4·col + row. Otherwise the result is the product S · R · T of the present factors, with the quaternion reordered (w, x, y, z). It fails iff a matrix, rotation or scale is too short. |
| Transform.ImporterOrderReversesGltf | ultrafast-gltf-importer.py:258-270 | The importer's factor order is the reverse of glTF's T · R · S. |

## Left out

- Reading files, JSON parsing, `glob` and sorting are not modelled. Documents and bytes come from a `Disk` value, and `BuildCache` takes the sorted file names as a parameter.
- Directory creation and pickling are not modelled. `BuildCache` returns the list that would be pickled.
- Progress messages, timing and the printed error message are not modelled.
- Float decoding is not modelled. Components stay raw 32-bit words, and no float arithmetic is done.
- The Blender stage is outside the preprocessing core: `get_or_create_material`, `bulk_import` and all `bpy` and `mathutils` calls.
- Transform.ParseTransform: keeps matrices symbolic, so mathutils arithmetic, quaternion normalisation and `Matrix.Translation` on vectors of unusual length are not modelled.
- Transform.ParseTransform: a matrix shorter than 16 values is treated as an error. mathutils' exact behaviour for ragged rows is not modelled.
- Ill-typed JSON values are not modelled. Integers are natural numbers, so negative values and Python's negative list indexing are out.
- Absolute uris, `.`/`..` components and percent-encoding in uris are not modelled. A path join is concatenation of segments.
- Texture paths are kept as paths rather than converted with `str`.
