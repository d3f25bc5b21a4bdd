/** The batch build: one cache entry per document that yields one, in the
    order of the (sorted) file names. */
module Cache {
  import opened Wrappers
  import opened Paths
  import opened Documents

  /** The present values of a sequence of options, in order. */
  function Somes<T>(xs: seq<Option<T>>): seq<T>
    decreases |xs|
  {
    if |xs| == 0 then [] else Somes(xs[..|xs| - 1]) + OptionToSeq(xs[|xs| - 1])
  }

  /** Filtering commutes with concatenation: order is kept. */
  lemma {:induction false} SomesAppend<T>(a: seq<Option<T>>, b: seq<Option<T>>)
    ensures Somes(a + b) == Somes(a) + Somes(b)
    decreases |b|
  {
    if |b| == 0 {
      assert a + b == a;
    } else {
      var b' := b[..|b| - 1];
      assert (a + b)[..|a + b| - 1] == a + b';
      SomesAppend(a, b');
    }
  }

  /** Exactly the present values survive. */
  lemma {:induction false} SomesMembers<T>(xs: seq<Option<T>>, e: T)
    ensures e in Somes(xs) <==> Some(e) in xs
    decreases |xs|
  {
    if |xs| > 0 {
      var init := xs[..|xs| - 1];
      SomesMembers(init, e);
      assert xs == init + [xs[|xs| - 1]];
    }
  }

  /** What `preprocess_gltf_file` gives for each name, in order. */
  function Outcomes(disk: Disk, texFolder: Path, gltfDir: Path, names: seq<string>): (r: seq<Option<CacheEntry>>)
    ensures |r| == |names|
  {
    seq(|names|, i requires 0 <= i < |names| => Preprocess(disk, texFolder, gltfDir, names[i]))
  }

  /** The cache built over `names`: the entries of the documents that yield one. */
  function CacheOf(disk: Disk, texFolder: Path, gltfDir: Path, names: seq<string>): seq<CacheEntry> {
    Somes(Outcomes(disk, texFolder, gltfDir, names))
  }

  /** Building over two runs of names concatenates their caches: a document's
      entry never moves before that of an earlier name, and a document that
      yields nothing leaves the others in place. */
  lemma CacheOfAppend(disk: Disk, texFolder: Path, gltfDir: Path, a: seq<string>, b: seq<string>)
    ensures CacheOf(disk, texFolder, gltfDir, a + b)
         == CacheOf(disk, texFolder, gltfDir, a) + CacheOf(disk, texFolder, gltfDir, b)
  {
    var oa, ob := Outcomes(disk, texFolder, gltfDir, a), Outcomes(disk, texFolder, gltfDir, b);
    assert Outcomes(disk, texFolder, gltfDir, a + b) == oa + ob;
    SomesAppend(oa, ob);
  }

  /** A single name contributes its entry, or nothing. */
  lemma CacheOfSingle(disk: Disk, texFolder: Path, gltfDir: Path, name: string)
    ensures CacheOf(disk, texFolder, gltfDir, [name]) == OptionToSeq(Preprocess(disk, texFolder, gltfDir, name))
  {
    var o := Outcomes(disk, texFolder, gltfDir, [name]);
    assert o == [Preprocess(disk, texFolder, gltfDir, name)];
    assert o[..0] == [];
    assert Somes(o) == Somes(o[..0]) + OptionToSeq(o[0]);
  }

  /** Every entry comes from some name, and every name whose document yields
      an entry contributes it. */
  lemma CacheOfMembers(disk: Disk, texFolder: Path, gltfDir: Path, names: seq<string>, e: CacheEntry)
    ensures e in CacheOf(disk, texFolder, gltfDir, names)
        <==> exists i :: 0 <= i < |names| && Preprocess(disk, texFolder, gltfDir, names[i]) == Some(e)
  {
    var outcomes := Outcomes(disk, texFolder, gltfDir, names);
    SomesMembers(outcomes, e);
    if Some(e) in outcomes {
      var i :| 0 <= i < |outcomes| && outcomes[i] == Some(e);
      assert Preprocess(disk, texFolder, gltfDir, names[i]) == Some(e);
    } else {
      forall i | 0 <= i < |names|
        ensures Preprocess(disk, texFolder, gltfDir, names[i]) != Some(e)
      {
        assert outcomes[i] == Preprocess(disk, texFolder, gltfDir, names[i]);
      }
    }
  }

  /** The loop of `build_cache` over the sorted document names; the cache is
      returned instead of being written out. */
  method BuildCache(disk: Disk, texFolder: Path, gltfDir: Path, names: seq<string>) returns (cache: seq<CacheEntry>)
    ensures cache == CacheOf(disk, texFolder, gltfDir, names)
  {
    ghost var outcomes := Outcomes(disk, texFolder, gltfDir, names);
    cache := [];
    for i := 0 to |names|
      invariant cache == Somes(outcomes[..i])
    {
      assert outcomes[..i + 1][..i] == outcomes[..i];
      var data := PreprocessGltfFile(disk, texFolder, gltfDir, names[i]);
      if data.Some? {
        cache := cache + [data.value];
      }
    }
    assert outcomes[..|names|] == outcomes;
  }
}
