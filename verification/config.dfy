/** The configuration store: built-in defaults, the recursive overlay of a
    user document onto them, and API-key resolution. */
module Config {
  import opened Results

  /** A value as the YAML parser produces it. Floats are kept as opaque
      leaves; mapping keys are strings. */
  datatype Val =
    | Dict(entries: map<string, Val>)
    | List(items: seq<Val>)
    | Str(s: string)
    | Int(i: int)
    | Bool(b: bool)
    | Float(f: real)
    | Null

  /** Python's `bool(v)`. */
  predicate Truthy(v: Val) {
    match v
    case Dict(m) => m != map[]
    case List(xs) => xs != []
    case Str(s) => s != ""
    case Int(i) => i != 0
    case Bool(b) => b
    case Float(f) => f != 0.0
    case Null => false
  }

  const AiKeys: set<string> := {"provider", "model", "temperature", "max_tokens", "api_key"}

  const DefaultAi: map<string, Val> := map[
    "provider" := Str("openai"),
    "model" := Str("gpt-3.5-turbo"),
    "temperature" := Float(0.7),
    "max_tokens" := Int(100),
    "api_key" := Str("")
  ]

  const Defaults: map<string, Val> := map[
    "ai" := Dict(DefaultAi),
    "commit_style" := Str("conventional"),
    "diff_truncation_limit" := Int(4000)
  ]

  /** Both sides hold a mapping under `k`, so the merge descends into it. */
  predicate BothDicts(base: map<string, Val>, overlay: map<string, Val>, k: string) {
    k in base && k in overlay && base[k].Dict? && overlay[k].Dict?
  }

  /** The recursive overlay of `overlay` onto `base`: mappings present on
      both sides are merged key by key, every other overlay value replaces
      the base value outright, and keys the overlay does not mention keep
      their base value. */
  function Merge(base: map<string, Val>, overlay: map<string, Val>): (r: map<string, Val>)
    ensures r.Keys == base.Keys + overlay.Keys
    ensures forall k :: k in base && k !in overlay ==> r[k] == base[k]
    ensures forall k :: k in overlay && !BothDicts(base, overlay, k) ==> r[k] == overlay[k]
    ensures forall k :: BothDicts(base, overlay, k) ==>
      r[k].Dict? && r[k].entries.Keys == base[k].entries.Keys + overlay[k].entries.Keys
    decreases Dict(overlay)
  {
    map k | k in base.Keys + overlay.Keys ::
      if k !in overlay then base[k]
      else if BothDicts(base, overlay, k) then Dict(Merge(base[k].entries, overlay[k].entries))
      else overlay[k]
  }

  /** Merging an empty overlay leaves the base unchanged. */
  lemma MergeEmptyOverlay(base: map<string, Val>)
    ensures Merge(base, map[]) == base
  {
  }

  /** Merging a mapping onto itself yields the mapping. */
  lemma {:induction false} MergeSelf(d: map<string, Val>)
    ensures Merge(d, d) == d
    decreases Dict(d)
  {
    forall k | k in d && d[k].Dict?
      ensures Merge(d, d)[k] == d[k]
    {
      MergeSelf(d[k].entries);
    }
  }

  /** Applying the same overlay twice is the same as applying it once. */
  lemma {:induction false} MergeIdempotent(base: map<string, Val>, overlay: map<string, Val>)
    ensures Merge(Merge(base, overlay), overlay) == Merge(base, overlay)
    decreases Dict(overlay)
  {
    var m := Merge(base, overlay);
    forall k | k in overlay && overlay[k].Dict?
      ensures Merge(m, overlay)[k] == m[k]
    {
      var o := overlay[k].entries;
      if BothDicts(base, overlay, k) {
        MergeIdempotent(base[k].entries, o);
      } else {
        MergeSelf(o);
      }
    }
  }

  /** The value reached from `v` by following the keys of `path` through
      nested mappings, as `v[p0][p1]...` does in Python; `None` where that
      lookup would raise. */
  function At(v: Val, path: seq<string>): Option<Val>
    decreases |path|
  {
    if path == [] then Some(v)
    else if v.Dict? && path[0] in v.entries then At(v.entries[path[0]], path[1..])
    else None
  }

  /** The overlay does not reach `path`: at some level the next key is
      missing from the overlay, and every level above it is a mapping. */
  predicate Untouched(overlay: map<string, Val>, path: seq<string>)
    decreases |path|
  {
    path != [] &&
    (path[0] !in overlay ||
     (overlay[path[0]].Dict? && Untouched(overlay[path[0]].entries, path[1..])))
  }

  /** No proper prefix of `path` is replaced by a non-mapping overlay value. */
  predicate Open(overlay: map<string, Val>, path: seq<string>)
    decreases |path|
  {
    |path| <= 1 || path[0] !in overlay ||
    (overlay[path[0]].Dict? && Open(overlay[path[0]].entries, path[1..]))
  }

  /** The overlay's value replaces the base's wherever the two are not
      both mappings there: wherever the overlay holds a value that is not
      a mapping, or holds a mapping where the base has nothing or has a
      value that is not a mapping, the merge holds the overlay's value. */
  predicate Replaces(base: map<string, Val>, overlay: map<string, Val>, path: seq<string>) {
    At(Dict(overlay), path).Some? &&
    (!At(Dict(overlay), path).value.Dict? || At(Dict(base), path).None? || !At(Dict(base), path).value.Dict?)
  }

  lemma {:induction false} MergeOverlayLeaf(base: map<string, Val>, overlay: map<string, Val>, path: seq<string>)
    requires Replaces(base, overlay, path)
    ensures At(Dict(Merge(base, overlay)), path) == At(Dict(overlay), path)
    decreases |path|
  {
    var k := path[0];
    var r := Merge(base, overlay);
    if BothDicts(base, overlay, k) {
      MergeOverlayLeaf(base[k].entries, overlay[k].entries, path[1..]);
    } else {
      assert r[k] == overlay[k];
    }
  }

  /** Values the overlay does not reach keep their base value. */
  lemma {:induction false} MergeUntouched(base: map<string, Val>, overlay: map<string, Val>, path: seq<string>)
    requires Untouched(overlay, path) && At(Dict(base), path).Some?
    ensures At(Dict(Merge(base, overlay)), path) == At(Dict(base), path)
    decreases |path|
  {
    var k := path[0];
    if k in overlay {
      MergeUntouched(base[k].entries, overlay[k].entries, path[1..]);
    }
  }

  /** Merging never removes a key: every path of the base survives unless
      the overlay replaces one of its proper prefixes by a non-mapping. */
  lemma {:induction false} MergeKeepsBasePaths(base: map<string, Val>, overlay: map<string, Val>, path: seq<string>)
    requires Open(overlay, path) && At(Dict(base), path).Some?
    ensures At(Dict(Merge(base, overlay)), path).Some?
    decreases |path|
  {
    if |path| > 1 {
      var k := path[0];
      if k in overlay {
        MergeKeepsBasePaths(base[k].entries, overlay[k].entries, path[1..]);
      }
    }
  }

  /** Every path of the overlay is present after the merge. */
  lemma {:induction false} MergeKeepsOverlayPaths(base: map<string, Val>, overlay: map<string, Val>, path: seq<string>)
    requires At(Dict(overlay), path).Some?
    ensures At(Dict(Merge(base, overlay)), path).Some?
    decreases |path|
  {
    if path != [] {
      var k := path[0];
      if BothDicts(base, overlay, k) {
        MergeKeepsOverlayPaths(base[k].entries, overlay[k].entries, path[1..]);
      } else {
        assert Merge(base, overlay)[k] == overlay[k];
      }
    }
  }

  /** A nested mapping in the overlay replaces a base value that is not a
      mapping: `{ai: {model: {}}}` onto `{ai: {model: "x"}}` gives
      `ai.model == {}`. */
  lemma MergeMappingOverLeaf()
    ensures var base := map["ai" := Dict(map["model" := Str("x")])];
      var overlay := map["ai" := Dict(map["model" := Dict(map[])])];
      At(Dict(Merge(base, overlay)), ["ai", "model"]) == Some(Dict(map[]))
  {
    var base := map["ai" := Dict(map["model" := Str("x")])];
    var overlay := map["ai" := Dict(map["model" := Dict(map[])])];
    var path := ["ai", "model"];
    assert path[1..] == ["model"];
    assert At(Dict(base), path) == Some(Str("x"));
    assert At(Dict(overlay), path) == Some(Dict(map[]));
    MergeOverlayLeaf(base, overlay, path);
  }

  /** What reading and parsing the configuration file produced: a parse
      or read failure, or the parsed document. */
  datatype Parsed = Unreadable | Document(doc: Val)

  /** The parsed document is a non-empty mapping, the only case in which
      the loader merges it (falsy documents are skipped, and any other
      truthy document fails in `.items()` and falls back to defaults). */
  predicate IsOverlay(p: Parsed) {
    p.Document? && p.doc.Dict? && p.doc.entries != map[]
  }

  /** The configuration in effect: the defaults with the document merged
      onto them when it is a non-empty mapping, the defaults otherwise. */
  function LoadConfig(p: Parsed): (r: map<string, Val>)
    ensures Defaults.Keys <= r.Keys
    ensures !IsOverlay(p) ==> r == Defaults
    ensures IsOverlay(p) ==> r.Keys == Defaults.Keys + p.doc.entries.Keys
    ensures IsOverlay(p) ==> forall k :: k in p.doc.entries && !p.doc.entries[k].Dict? ==> r[k] == p.doc.entries[k]
  {
    if IsOverlay(p) then Merge(Defaults, p.doc.entries) else Defaults
  }

  /** Loading a partial document: overridden leaves take the document's
      value and leaves the document does not reach keep their default. */
  lemma LoadConfigPointwise(p: Parsed, path: seq<string>)
    ensures IsOverlay(p) && Replaces(Defaults, p.doc.entries, path) ==>
      At(Dict(LoadConfig(p)), path) == At(p.doc, path)
    ensures IsOverlay(p) && Untouched(p.doc.entries, path) && At(Dict(Defaults), path).Some? ==>
      At(Dict(LoadConfig(p)), path) == At(Dict(Defaults), path)
    ensures !IsOverlay(p) ==> At(Dict(LoadConfig(p)), path) == At(Dict(Defaults), path)
  {
    if IsOverlay(p) {
      var o := p.doc.entries;
      if Replaces(Defaults, o, path) {
        MergeOverlayLeaf(Defaults, o, path);
      }
      if Untouched(o, path) && At(Dict(Defaults), path).Some? {
        MergeUntouched(Defaults, o, path);
      }
    }
  }

  /** When the document leaves `ai` absent or a mapping, the loaded `ai`
      section still holds every provider setting; a non-mapping `ai`
      replaces the section outright. */
  lemma LoadKeepsAiSettings(p: Parsed)
    ensures var r := LoadConfig(p);
      (!IsOverlay(p) || "ai" !in p.doc.entries || p.doc.entries["ai"].Dict?) ==>
        r["ai"].Dict? && AiKeys <= r["ai"].entries.Keys
    ensures IsOverlay(p) && "ai" in p.doc.entries && !p.doc.entries["ai"].Dict? ==>
      LoadConfig(p)["ai"] == p.doc.entries["ai"]
  {
  }

  /** The API key in effect: the environment variable when it is set and
      non-empty, else the configuration's `ai.api_key`, whose lookup raises
      when the configuration does not have that shape. */
  function GetApiKey(env: Option<string>, config: map<string, Val>): (r: Result<Val>)
    ensures env.Some? && env.value != "" ==> r == Ok(Str(env.value))
    ensures (env.None? || env.value == "") && At(Dict(config), ["ai", "api_key"]).Some? ==>
      r == Ok(At(Dict(config), ["ai", "api_key"]).value)
    ensures (env.None? || env.value == "") && At(Dict(config), ["ai", "api_key"]).None? ==>
      r == Err(BadConfig(["ai", "api_key"]))
  {
    if env.Some? && env.value != "" then Ok(Str(env.value))
    else if "ai" in config && config["ai"].Dict? && "api_key" in config["ai"].entries then
      Ok(config["ai"].entries["api_key"])
    else Err(BadConfig(["ai", "api_key"]))
  }

  /** The loader as the program runs it: the defaults are copied shallowly,
      so merging into a nested mapping writes through to the shared
      defaults. Returns the configuration and the defaults afterwards. */
  function LoadShared(defaults: map<string, Val>, p: Parsed): (r: (map<string, Val>, map<string, Val>))
    ensures r.1.Keys == defaults.Keys && defaults.Keys <= r.0.Keys
    ensures forall k :: k in defaults && !(IsOverlay(p) && BothDicts(defaults, p.doc.entries, k)) ==>
      r.1[k] == defaults[k]
    ensures IsOverlay(p) ==> forall k :: k in defaults && BothDicts(defaults, p.doc.entries, k) ==>
      r.1[k] == r.0[k]
    ensures r.0 == (if IsOverlay(p) then Merge(defaults, p.doc.entries) else defaults)
    ensures IsOverlay(p) ==> forall k :: k in defaults && BothDicts(defaults, p.doc.entries, k) ==>
      r.1[k] == Dict(Merge(defaults[k].entries, p.doc.entries[k].entries))
  {
    if IsOverlay(p) then
      var merged := Merge(defaults, p.doc.entries);
      (merged, map k | k in defaults :: if BothDicts(defaults, p.doc.entries, k) then merged[k] else defaults[k])
    else (defaults, defaults)
  }

  /** The first load, from the pristine defaults, agrees with `LoadConfig`. */
  lemma SharedFirstLoad(p: Parsed)
    ensures LoadShared(Defaults, p).0 == LoadConfig(p)
  {
  }

  /** Reloading the same document is stable: with the defaults as the
      previous load left them, the next load returns the same
      configuration and leaves the defaults as they were. */
  lemma SharedReloadStable(defaults: map<string, Val>, p: Parsed)
    ensures var (c1, d1) := LoadShared(defaults, p);
      LoadShared(d1, p) == (c1, d1)
  {
    if IsOverlay(p) {
      var o := p.doc.entries;
      var (m, d1) := LoadShared(defaults, p);
      forall k | k in o
        ensures BothDicts(d1, o, k) == BothDicts(defaults, o, k)
        ensures BothDicts(d1, o, k) ==> Merge(d1, o)[k] == m[k]
      {
        if BothDicts(defaults, o, k) {
          MergeIdempotent(defaults[k].entries, o[k].entries);
        }
      }
      assert Merge(d1, o) == m;
      var d2 := LoadShared(d1, p).1;
      forall k | k in d1
        ensures d2[k] == d1[k]
      {
      }
      assert d2 == d1;
    }
  }

  /** Once a document with an `ai` mapping has been loaded, a later failed
      read returns that document's merged `ai` section instead of the
      built-in one. */
  lemma SharedDefaultsLeak(p: Parsed)
    requires IsOverlay(p) && BothDicts(Defaults, p.doc.entries, "ai")
    ensures var d1 := LoadShared(Defaults, p).1;
      LoadShared(d1, Unreadable).0["ai"] == LoadConfig(p)["ai"]
  {
  }

  /** For instance, a document that only sets the model leaves that model
      in effect after a failed read, where the defaults name another. */
  lemma SharedDefaultsLeakExample()
    ensures var doc := Document(Dict(map["ai" := Dict(map["model" := Str("gpt-4")])]));
      var d1 := LoadShared(Defaults, doc).1;
      At(Dict(LoadShared(d1, Unreadable).0), ["ai", "model"]) == Some(Str("gpt-4"))
      && At(Dict(LoadConfig(Unreadable)), ["ai", "model"]) == Some(Str("gpt-3.5-turbo"))
  {
    var o := map["ai" := Dict(map["model" := Str("gpt-4")])];
    var doc := Document(Dict(o));
    var path := ["ai", "model"];
    assert path[1..] == ["model"];
    assert "ai" in o;
    assert At(doc.doc, path) == Some(Str("gpt-4"));
    assert Replaces(Defaults, o, path);
    LoadConfigPointwise(doc, path);
    assert "ai" in Defaults && Defaults["ai"].Dict?;
    SharedDefaultsLeak(doc);
    var c := LoadShared(LoadShared(Defaults, doc).1, Unreadable).0;
    assert At(Dict(c), path) == At(Dict(LoadConfig(doc)), path);
    assert At(Dict(Defaults), path) == Some(Str("gpt-3.5-turbo"));
  }
}
