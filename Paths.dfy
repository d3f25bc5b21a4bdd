/** File-system paths as sequences of segments, and the two `pathlib`
    queries the importer makes: the final segment (`.name`) and the stem. */
module Paths {
  import opened Wrappers

  /** A path is the sequence of its segments; `a / b` is `a + b`. */
  type Path = seq<string>

  /** `Path(uri).name` as a relative path: the final segment alone, or no
      segment at all for an empty uri (joining `""` to a folder leaves the folder). */
  function LastSegment(p: Path): (r: Path)
    ensures |p| == 0 ==> r == []
    ensures |p| > 0 ==> r == [p[|p| - 1]]
  {
    if |p| == 0 then [] else p[|p| - 1..]
  }

  /** `s.rfind(c)`: the index of the last occurrence of `c`, if any. */
  function RFind(s: string, c: char): (r: Option<nat>)
    ensures r.None? ==> forall j :: 0 <= j < |s| ==> s[j] != c
    ensures r.Some? ==> r.value < |s| && s[r.value] == c
    ensures r.Some? ==> forall j :: r.value < j < |s| ==> s[j] != c
    decreases |s|
  {
    if |s| == 0 then None
    else if s[|s| - 1] == c then Some(|s| - 1)
    else RFind(s[..|s| - 1], c)
  }

  /** `PurePath.stem`: the final segment without its last suffix.  A dot counts
      as a suffix separator only when it is neither the first nor the last
      character of the name. */
  function Stem(name: string): (r: string)
    ensures r != name ==>
      && 0 < |r| < |name| - 1 && name[..|r|] == r && name[|r|] == '.'
      && forall j :: |r| < j < |name| ==> name[j] != '.'
    ensures r == name ==>
      (|name| > 0 && name[|name| - 1] == '.') || forall j :: 0 < j < |name| ==> name[j] != '.'
  {
    match RFind(name, '.')
    case Some(i) => if 0 < i < |name| - 1 then name[..i] else name
    case None => name
  }

  /** The stem of a document found by `glob("*.gltf")` is its name without
      the extension, even when that name contains further dots. */
  lemma StemOfGltf(s: string)
    requires s != ""
    ensures Stem(s + ".gltf") == s
  {
    var name := s + ".gltf";
    var r := RFind(name, '.');
    assert name[|s|] == '.';
    assert r.Some? && r.value == |s|;
    assert name[..|s|] == s;
  }
}
