/** The asset registry: a table from asset id to loaded resource, filled by
    walking a content directory, in which every file is registered under
    its file name without extension. */
module Assets {
  import opened Errors

  /** A loaded resource: a scene that can be instanced, or anything else.
      The payload identifies the resource and is otherwise opaque. */
  datatype Asset = PackedScene(scene: nat) | OtherResource(resource: nat)

  /** A directory entry as the directory walk lists it: a file with the
      resource that loading it yields, or a sub-directory with its entries. */
  datatype Entry = File(name: string, asset: Asset) | Directory(name: string, entries: seq<Entry>)

  // ---------------------------------------------------------------------------
  // Name normalisation

  const REMAP_SUFFIX: string := ".remap"

  predicate EndsWith(s: string, suffix: string)
  {
    |suffix| <= |s| && s[|s| - |suffix|..] == suffix
  }

  /** An exported project lists a resource `x` as `x.remap`; the walk drops
      that suffix, and only that one. */
  function StripRemap(name: string): (r: string)
    ensures EndsWith(name, REMAP_SUFFIX) ==> r + REMAP_SUFFIX == name
    ensures !EndsWith(name, REMAP_SUFFIX) ==> r == name
  {
    if EndsWith(name, REMAP_SUFFIX) then name[..|name| - |REMAP_SUFFIX|] else name
  }

  /** The position of the last `c` in `s`, or -1. */
  function LastIndexOf(s: string, c: char): (i: int)
    ensures -1 <= i < |s|
    ensures i >= 0 ==> s[i] == c
    ensures forall j :: i < j < |s| ==> s[j] != c
    decreases |s|
  {
    if s == [] then -1
    else if s[|s| - 1] == c then |s| - 1
    else LastIndexOf(s[..|s| - 1], c)
  }

  /** `Path.GetFileNameWithoutExtension`: the part after the last `/`, cut
      before its last `.`. */
  function FileNameWithoutExtension(path: string): (r: string)
    ensures '/' !in r && |r| <= |path|
  {
    var name := path[LastIndexOf(path, '/') + 1..];
    var dot := LastIndexOf(name, '.');
    if dot < 0 then name else name[..dot]
  }

  /** The id a file is registered under: a name, never a path, and no
      longer than the entry's name. */
  function AssetId(entryName: string): (id: string)
    ensures '/' !in id && |id| <= |entryName|
  {
    FileNameWithoutExtension(StripRemap(entryName))
  }

  /** The last `c` is at `i` when `s[i]` is `c` and none follows it
      (`i == -1`: none at all). */
  lemma LastIndexOfAt(s: string, c: char, i: int)
    requires -1 <= i < |s| && (i >= 0 ==> s[i] == c)
    requires forall j :: i < j < |s| ==> s[j] != c
    ensures LastIndexOf(s, c) == i
  {
  }

  /** For a directory entry name (it never contains `/`), the id is the
      name up to its last dot, and the part after that dot holds no dot;
      a name without a dot is its own id. */
  lemma {:induction false} FileNameWithoutExtensionSplits(name: string)
    requires '/' !in name
    ensures '.' !in name ==> FileNameWithoutExtension(name) == name
    ensures '.' in name ==> exists ext :: '.' !in ext && name == FileNameWithoutExtension(name) + "." + ext
  {
    LastIndexOfAt(name, '/', -1);
    assert name[-1 + 1..] == name;
    var dot := LastIndexOf(name, '.');
    if dot >= 0 {
      var ext := name[dot + 1..];
      assert FileNameWithoutExtension(name) == name[..dot];
      assert '.' !in ext by {
        forall k | 0 <= k < |ext|
          ensures ext[k] != '.'
        {
          assert ext[k] == name[dot + 1 + k];
        }
      }
      assert name == name[..dot] + "." + ext;
    } else {
      assert FileNameWithoutExtension(name) == name;
    }
  }

  /** A name without `/` and `.` is its own file name without extension. */
  lemma FileNameWithoutExtensionPlain(stem: string)
    requires '.' !in stem && '/' !in stem
    ensures FileNameWithoutExtension(stem) == stem
  {
    LastIndexOfAt(stem, '/', -1);
    LastIndexOfAt(stem, '.', -1);
    assert stem[-1 + 1..] == stem;
  }

  /** The only dot of `stem.ext` is the one after `stem`, and it has no `/`. */
  lemma JoinChars(stem: string, ext: string)
    requires '.' !in stem && '/' !in stem && '.' !in ext && '/' !in ext
    ensures forall k :: 0 <= k < |stem + "." + ext| && (stem + "." + ext)[k] == '.' ==> k == |stem|
    ensures '/' !in stem + "." + ext
  {
    var name := stem + "." + ext;
    assert forall k | 0 <= k < |name| ::
      name[k] == if k < |stem| then stem[k] else if k == |stem| then '.' else ext[k - |stem| - 1];
  }

  /** `stem.ext` loses exactly its extension. */
  lemma FileNameWithoutExtensionJoin(stem: string, ext: string)
    requires '.' !in stem && '/' !in stem && '.' !in ext && '/' !in ext
    ensures FileNameWithoutExtension(stem + "." + ext) == stem
  {
    var name := stem + "." + ext;
    JoinChars(stem, ext);
    LastIndexOfAt(name, '/', -1);
    LastIndexOfAt(name, '.', |stem|);
    assert name[-1 + 1..] == name;
    assert name[..|stem|] == stem;
  }

  /** A file `stem.ext` gets the id `stem` (also when `ext` is `remap`). */
  lemma {:induction false} AssetIdOfFile(stem: string, ext: string)
    requires '.' !in stem && '/' !in stem && '.' !in ext && '/' !in ext
    ensures AssetId(stem + "." + ext) == stem
  {
    var name := stem + "." + ext;
    FileNameWithoutExtensionJoin(stem, ext);
    if EndsWith(name, REMAP_SUFFIX) {
      // then `ext` is `remap`, as the suffix's dot can only be the one after `stem`
      var cut := |name| - |REMAP_SUFFIX|;
      assert name[cut..][0] == '.';
      JoinChars(stem, ext);
      assert cut == |stem|;
      assert name[..cut] == stem;
      FileNameWithoutExtensionPlain(stem);
    } else {
      assert StripRemap(name) == name;
    }
  }

  /** The exported form `stem.ext.remap` gets the same id as `stem.ext`. */
  lemma {:induction false} AssetIdOfExport(stem: string, ext: string)
    requires '.' !in stem && '/' !in stem && '.' !in ext && '/' !in ext
    ensures AssetId(stem + "." + ext + REMAP_SUFFIX) == stem
  {
    var name := stem + "." + ext;
    FileNameWithoutExtensionJoin(stem, ext);
    assert (name + REMAP_SUFFIX)[|name|..] == REMAP_SUFFIX;
    assert StripRemap(name + REMAP_SUFFIX) == name;
  }

  // ---------------------------------------------------------------------------
  // The registry

  /** Registering the files of `entries` in order, starting from `m`: the
      table reached and whether a duplicate id stopped the walk. */
  function LoadAll(m: map<string, Asset>, entries: seq<Entry>): (r: (map<string, Asset>, Outcome))
    ensures m.Keys <= r.0.Keys
    ensures r.1.Fail? ==> r.1.error == DuplicateKey
    decreases entries
  {
    if entries == [] then (m, Pass)
    else
      var first := LoadEntry(m, entries[0]);
      if first.1.Fail? then first else LoadAll(first.0, entries[1..])
  }

  function LoadEntry(m: map<string, Asset>, e: Entry): (r: (map<string, Asset>, Outcome))
    ensures m.Keys <= r.0.Keys
    ensures r.1.Fail? ==> r.1.error == DuplicateKey
    decreases e
  {
    match e
    case File(name, asset) =>
      var id := AssetId(name);
      if id in m then (m, Fail(DuplicateKey)) else (m[id := asset], Pass)
    case Directory(_, entries) => LoadAll(m, entries)
  }

  /** The ids of the files under `entries`, in walk order. */
  function Ids(entries: seq<Entry>): seq<string>
    decreases entries
  {
    if entries == [] then [] else EntryIds(entries[0]) + Ids(entries[1..])
  }

  function EntryIds(e: Entry): seq<string>
    decreases e
  {
    match e
    case File(name, _) => [AssetId(name)]
    case Directory(_, entries) => Ids(entries)
  }

  /** The ids of a list, as a set. */
  function IdSet(ids: seq<string>): set<string>
  {
    set id | id in ids
  }

  lemma IdSetAppend(xs: seq<string>, ys: seq<string>)
    ensures IdSet(xs + ys) == IdSet(xs) + IdSet(ys)
  {
    assert forall id :: id in xs + ys <==> id in xs || id in ys;
  }

  /** A walk that completes registers exactly the ids of its files, on top
      of what was there, and none of them was there before. */
  lemma {:induction false} LoadAllKeys(m: map<string, Asset>, entries: seq<Entry>)
    ensures LoadAll(m, entries).1.Pass? ==>
              LoadAll(m, entries).0.Keys == m.Keys + IdSet(Ids(entries))
              && m.Keys !! IdSet(Ids(entries))
    decreases entries
  {
    if entries != [] {
      LoadEntryKeys(m, entries[0]);
      var first := LoadEntry(m, entries[0]);
      if first.1.Pass? {
        LoadAllKeys(first.0, entries[1..]);
        assert LoadAll(m, entries) == LoadAll(first.0, entries[1..]);
        IdSetAppend(EntryIds(entries[0]), Ids(entries[1..]));
      }
    }
  }

  lemma {:induction false} LoadEntryKeys(m: map<string, Asset>, e: Entry)
    ensures LoadEntry(m, e).1.Pass? ==>
              LoadEntry(m, e).0.Keys == m.Keys + IdSet(EntryIds(e))
              && m.Keys !! IdSet(EntryIds(e))
    decreases e
  {
    match e
    case File(name, _) =>
      assert IdSet([AssetId(name)]) == {AssetId(name)};
    case Directory(_, entries) => LoadAllKeys(m, entries);
  }

  /** The scene registered under `id` in the asset table `table`. */
  function SceneIn(table: map<string, Asset>, id: string): Result<nat>
  {
    if id !in table then Err(MissingAsset(id))
    else if !table[id].PackedScene? then Err(NotAScene(id))
    else Ok(table[id].scene)
  }

  /** The static asset table. */
  class AssetRegistry {
    var assets: map<string, Asset>

    constructor ()
      ensures assets == map[]
    {
      assets := map[];
    }

    /** `Register`: adds the id; an id already present fails and changes
      nothing. */
    method Register(id: string, value: Asset) returns (o: Outcome)
      modifies this
      ensures id in old(assets) ==> o == Fail(DuplicateKey) && assets == old(assets)
      ensures id !in old(assets) ==> o == Pass && assets == old(assets)[id := value]
    {
      if id in assets {
        return Fail(DuplicateKey);
      }
      assets := assets[id := value];
      return Pass;
    }

    /** `Get`: the asset registered under `id`; an absent id fails. */
    function Get(id: string): (r: Result<Asset>)
      reads this
      ensures r.Ok? <==> id in assets
      ensures r.Ok? ==> r.value == assets[id]
      ensures r.Err? ==> r.error == MissingAsset(id)
    {
      if id in assets then Ok(assets[id]) else Err(MissingAsset(id))
    }

    /** `GetScene`: the scene registered under `id`; an absent id fails,
      and so does an asset that is not a scene. */
    function GetScene(id: string): (r: Result<nat>)
      reads this
      ensures r.Ok? <==> id in assets && assets[id].PackedScene?
      ensures r.Ok? ==> assets[id] == PackedScene(r.value)
      ensures id !in assets ==> r == Err(MissingAsset(id))
      ensures id in assets && !assets[id].PackedScene? ==> r == Err(NotAScene(id))
      ensures r == SceneIn(assets, id)
    {
      SceneIn(assets, id)
    }

    /** `Load`: walks the entries in order, registering every file under
      its id and descending into every directory; the first duplicate id
      stops the walk, with the files before it registered. */
    method Load(entries: seq<Entry>) returns (o: Outcome)
      modifies this
      ensures (assets, o) == LoadAll(old(assets), entries)
      decreases entries, 1
    {
      var i := 0;
      while i < |entries|
        invariant 0 <= i <= |entries|
        invariant LoadAll(old(assets), entries) == LoadAll(assets, entries[i..])
      {
        assert entries[i..] == [entries[i]] + entries[i + 1..];
        o := LoadOne(entries[i]);
        if o.Fail? {
          return;
        }
        i := i + 1;
      }
      return Pass;
    }

    method LoadOne(e: Entry) returns (o: Outcome)
      modifies this
      ensures (assets, o) == LoadEntry(old(assets), e)
      decreases e, 0
    {
      match e
      case File(name, asset) =>
        o := Register(AssetId(name), asset);
      case Directory(_, entries) =>
        o := Load(entries);
    }
  }
}
