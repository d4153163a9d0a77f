/**
 * convert_map as a whole: the archive path is derived from the image's
 * hash key; when the static directory already holds that archive its path
 * is returned at once; otherwise an undecodable image is an error, and a
 * decodable one has its wall parts written as OBJ entries into a new
 * archive stored under that path, which is returned.
 */
module Cache {
  import opened Wrappers
  import opened Components
  import opened Obj
  import opened Mesh

  /** Centimetres per pixel, applied to every vertex coordinate. */
  const CmPerPixel: real := 1.0

  /** Height of every wall, in pixel units before scaling. */
  const WallHeight: real := 200.0

  /** The directory that holds the finished archives. */
  const StaticDir: string := "static"

  /** What convert_map raises. */
  datatype ConvertError = DecodeFailed

  /** Where the archive of the image with this hash key is stored. */
  function ArchivePath(key: string): (path: string)
    ensures |path| == |key| + 21
    ensures path[..17] == "static/map_walls_" && path[|path| - 4..] == ".zip"
  {
    StaticDir + "/" + "map_walls_" + key + ".zip"
  }

  /** Different hash keys give different archive paths. */
  lemma ArchivePathInjective(key1: string, key2: string)
    ensures ArchivePath(key1) == ArchivePath(key2) <==> key1 == key2
  {
    if ArchivePath(key1) == ArchivePath(key2) {
      var p1, p2 := ArchivePath(key1), ArchivePath(key2);
      assert p1[17..|p1| - 4] == key1;
      assert p2[17..|p2| - 4] == key2;
    }
  }

  /** The entries convert_map stores for the labels of a decoded image. */
  function Archive(labels: seq<Label>, merge: Merge): seq<Entry>
    requires LabelsOk(labels)
  {
    Entries(Parts(labels, merge, WallHeight), CmPerPixel)
  }

  /**
   * One call of convert_map on a store of archives: the result and the
   * store afterwards. `decoded` is the labelled image, None when the image
   * cannot be decoded.
   */
  function Convert(archives: map<string, seq<Entry>>, key: string, decoded: Option<seq<Label>>, merge: Merge)
    : (r: (Result<string, ConvertError>, map<string, seq<Entry>>))
    requires decoded.Some? ==> LabelsOk(decoded.value)
    ensures archives.Keys <= r.1.Keys <= archives.Keys + {ArchivePath(key)}
    ensures r.0.Success? ==> r.0.value == ArchivePath(key) && r.0.value in r.1
  {
    var path := ArchivePath(key);
    if path in archives then (Success(path), archives)
    else if decoded.None? then (Failure(DecodeFailed), archives)
    else (Success(path), archives[path := Archive(decoded.value, merge)])
  }

  /**
   * On success the returned path is the key's archive path and holds an
   * archive; on failure nothing is stored; no other archive is touched.
   */
  lemma ConvertOutcome(archives: map<string, seq<Entry>>, key: string, decoded: Option<seq<Label>>, merge: Merge)
    requires decoded.Some? ==> LabelsOk(decoded.value)
    ensures var (r, after) := Convert(archives, key, decoded, merge);
      && (r.Success? ==> r.value == ArchivePath(key) && r.value in after)
      && (r.Failure? <==> ArchivePath(key) !in archives && decoded.None?)
      && (r.Failure? ==> after == archives)
      && (forall p :: p != ArchivePath(key) ==> (p in after <==> p in archives))
      && (forall p :: p != ArchivePath(key) && p in archives ==> after[p] == archives[p])
      && (forall p :: p in archives ==> p in after)
  {
  }

  /**
   * A cached archive wins: its path is returned, whatever the image
   * decodes to, even when it does not decode at all.
   */
  lemma CacheHitIgnoresImage(archives: map<string, seq<Entry>>, key: string,
                             decoded1: Option<seq<Label>>, decoded2: Option<seq<Label>>, merge: Merge)
    requires decoded1.Some? ==> LabelsOk(decoded1.value)
    requires decoded2.Some? ==> LabelsOk(decoded2.value)
    requires ArchivePath(key) in archives
    ensures Convert(archives, key, decoded1, merge) == Convert(archives, key, decoded2, merge)
    ensures Convert(archives, key, decoded1, merge) == (Success(ArchivePath(key)), archives)
  {
  }

  /** Converting the same image twice: the second call returns the same path and stores nothing. */
  lemma ConvertIdempotent(archives: map<string, seq<Entry>>, key: string, decoded: Option<seq<Label>>, merge: Merge)
    requires decoded.Some? ==> LabelsOk(decoded.value)
    ensures var (r1, after1) := Convert(archives, key, decoded, merge);
      r1.Success? ==> Convert(after1, key, decoded, merge) == (r1, after1)
  {
  }

  /**
   * A freshly written archive holds one entry per surviving component,
   * named wall_<k>.obj, whose every face line refers to an existing vertex
   * line.
   */
  lemma FreshArchiveShape(labels: seq<Label>, merge: Merge)
    requires LabelsOk(labels)
    ensures var parts, entries := Parts(labels, merge, WallHeight), Archive(labels, merge);
      && |entries| == |SurvivingLabels(labels, merge, WallHeight, |labels|)|
      && forall k :: 0 <= k < |entries| ==>
        && entries[k].name == EntryName(k)
        && entries[k].lines == ObjLines(parts[k], CmPerPixel)
        && FacesBelow(parts[k].faces, |parts[k].verts|)
  {
    var parts := Parts(labels, merge, WallHeight);
    PartsAreSurvivors(labels, merge, WallHeight, |labels|);
    forall k | 0 <= k < |parts|
      ensures FacesBelow(parts[k].faces, |parts[k].verts|)
    {
      var ls := SurvivingLabels(labels, merge, WallHeight, |labels|);
      PartOfShape(labels[ls[k]], merge, WallHeight);
    }
  }

  /** The static directory: archive path to the entries of the archive stored there. */
  class StaticStore {
    var archives: map<string, seq<Entry>>

    constructor (existing: map<string, seq<Entry>>)
      ensures archives == existing
    {
      archives := existing;
    }
  }

  /**
   * convert_map: return the cached archive's path when it exists; fail
   * when the image does not decode; otherwise collect the parts, write
   * one OBJ entry per part and store the archive under its path.
   */
  method ConvertMap(store: StaticStore, key: string, decoded: Option<seq<Label>>, merge: Merge)
    returns (r: Result<string, ConvertError>)
    requires decoded.Some? ==> LabelsOk(decoded.value)
    modifies store
    ensures (r, store.archives) == Convert(old(store.archives), key, decoded, merge)
  {
    var path := ArchivePath(key);
    if path in store.archives {
      return Success(path);
    }
    if decoded.None? {
      return Failure(DecodeFailed);
    }
    var parts := CollectParts(decoded.value, merge, WallHeight);
    var entries := WriteEntries(parts, CmPerPixel);
    store.archives := store.archives[path := entries];
    return Success(path);
  }
}
