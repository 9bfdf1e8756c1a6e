/** The mod scanner and indexer (`loadMods`): a depth-first walk of the mods
    folder that reads `.faro` sidecars, parses `.lua` headers and `.json`
    manifests, writes sidecars for what it parsed, and finally merges the
    bundled catalog. */
module ModsLoader {
  import opened Wrappers
  import opened JsValues
  import opened Text
  import opened Paths
  import opened LuaHeader
  import opened Manifest
  import opened Descriptors

  /** A directory entry as `readdirSync` lists it and `statSync` classifies
      it. Sidecar (`.faro`) and marker (`.lovelyignore`) files are not listed:
      the scanner sees them through the loader's `sidecars` map and `markers`
      set, and neither name ends in `.lua` or `.json`. */
  datatype Node = File(name: string, content: string) | Folder(name: string, children: seq<Node>)

  function Size(n: Node): (k: nat)
    ensures k >= 1
  {
    match n
    case File(_, _) => 1
    case Folder(_, children) => 1 + SizeAll(children)
  }

  function SizeAll(ns: seq<Node>): nat {
    if ns == [] then 0 else Size(ns[0]) + SizeAll(ns[1..])
  }

  /** What `JSON.parse` makes of a `.faro` file's text. */
  datatype Sidecar = Entries(items: seq<Value>) | Other(v: Value) | Unparsable

  /** `mods.push(...faroData)`: an array pushes its items and a string its
      characters; anything else is not iterable and throws before pushing. */
  function Spread(s: Sidecar): (r: seq<Value>)
    ensures s.Entries? ==> r == s.items
    ensures !s.Entries? && !(s.Other? && s.v.Str?) ==> r == []
  {
    match s
    case Entries(items) => items
    case Other(Str(text)) => seq(|text|, i requires 0 <= i < |text| => Str([text[i]]))
    case _ => []
  }

  /** What the scanner is given: the mods folder, the folders holding a
      `.lovelyignore` marker, and `JSON.parse` for manifests. */
  datatype Context = Context(modsDir: Path, markers: set<Path>, parse: string -> Option<Value>)

  /** The mutable state a scan threads through: the `mods` array, the sidecar
      files (by folder), and `createdFaros`. */
  datatype ScanState = ScanState(mods: seq<Value>, sidecars: map<Path, Sidecar>, created: seq<Path>)

  /** The sidecar of a parsed file is written in the folder directly inside
      the mods folder that holds it; that only works when this folder is a
      proper ancestor of the file (a file lying directly in the mods folder
      names itself, and `writeFileSync` throws). */
  predicate SidecarWritable(modsDir: Path, filePath: Path) {
    var top := MainFolder(modsDir, filePath);
    Under(filePath, top) && |filePath| > |top|
  }

  /** The shared tail of `processLuaFile` and `processJsonFile`: create the
      sidecar with `[info]` and record it in `createdFaros`, or append `info`
      to an existing array sidecar; then push `info`. `None` when the write
      throws or the existing sidecar is not an array. */
  function Register(ctx: Context, st: ScanState, filePath: Path, info: Value): (r: Option<ScanState>)
    ensures r.Some? ==> r.value.mods == st.mods + [info]
    ensures r.Some? ==> MainFolder(ctx.modsDir, filePath) in r.value.sidecars
                        && r.value.sidecars[MainFolder(ctx.modsDir, filePath)].Entries?
    ensures r.None? <==> !SidecarWritable(ctx.modsDir, filePath)
                         || (MainFolder(ctx.modsDir, filePath) in st.sidecars
                             && !st.sidecars[MainFolder(ctx.modsDir, filePath)].Entries?)
  {
    var top := MainFolder(ctx.modsDir, filePath);
    if !SidecarWritable(ctx.modsDir, filePath) then None
    else if top in st.sidecars then
      match st.sidecars[top]
      case Entries(items) =>
        Some(ScanState(st.mods + [info], st.sidecars[top := Entries(items + [Jsonify(info)])], st.created))
      case _ => None
    else
      Some(ScanState(st.mods + [info], st.sidecars[top := Entries([Jsonify(info)])], st.created + [top]))
  }

  /** Whether the folder holding `filePath` carries no `.lovelyignore`. */
  predicate EnabledAt(ctx: Context, filePath: Path) {
    Dirname(filePath) !in ctx.markers
  }

  /** `processLuaFile`: the new state and whether the file gave a mod. */
  function LuaStep(ctx: Context, st: ScanState, filePath: Path, content: string): (r: (ScanState, bool))
    ensures r.1 ==> HeaderOf(content).Some? && |r.0.mods| == |st.mods| + 1
    ensures r.1 ==> exists info :: Register(ctx, st, filePath, info) == Some(r.0)
    ensures !r.1 ==> r.0 == st
  {
    match HeaderOf(content)
    case None => (st, false)
    case Some(h) =>
      var info := GetModInfo(ctx.modsDir, filePath, Obj(h), EnabledAt(ctx, filePath));
      match Register(ctx, st, filePath, info)
      case None => (st, false)
      case Some(next) => (next, true)
  }

  /** `processJsonFile`: the new state (the source ignores its outcome). */
  function JsonStep(ctx: Context, st: ScanState, filePath: Path, content: string): (r: ScanState)
    ensures r == st || |r.mods| == |st.mods| + 1
    ensures r == st || exists info :: Register(ctx, st, filePath, info) == Some(r)
  {
    match SafeParseJson(content, ctx.parse)
    case None => st
    case Some(v) =>
      if !IsValidJsonMod(v) then st
      else
        var info := GetModInfo(ctx.modsDir, filePath, v, EnabledAt(ctx, filePath));
        match Register(ctx, st, filePath, info)
        case None => st
        case Some(next) => next
  }

  /** One file of a folder: a `.lua` file sets the running flag to its own
      outcome; a `.json` file is processed only while the flag is down. */
  function FileStep(ctx: Context, st: ScanState, dir: Path, name: string, content: string,
                    lua: bool): (r: (ScanState, bool))
  {
    var path := dir + [name];
    var afterLua := if EndsWith(name, ".lua") then LuaStep(ctx, st, path, content) else (st, lua);
    if EndsWith(name, ".json") && !afterLua.1 then (JsonStep(ctx, afterLua.0, path, content), afterLua.1)
    else afterLua
  }

  /** The items of the array sidecar in folder `p`, or none. */
  function EntriesAt(sidecars: map<Path, Sidecar>, p: Path): seq<Value> {
    if p in sidecars && sidecars[p].Entries? then sidecars[p].items else []
  }

  /** Whether recording a descriptor for `filePath` succeeds: its folder can
      hold a sidecar, and the sidecar already there, if any, is an array. */
  predicate SidecarAccepts(ctx: Context, st: ScanState, filePath: Path) {
    var top := MainFolder(ctx.modsDir, filePath);
    SidecarWritable(ctx.modsDir, filePath) && (top !in st.sidecars || st.sidecars[top].Entries?)
  }

  /** `next` is `st` with `info` recorded for `filePath`: `info` pushed onto
      `mods`, its JSON form appended to the folder's sidecar (written as
      `[info]` when there was none, and then listed in `createdFaros`), and
      every other sidecar left alone. */
  predicate Recorded(ctx: Context, st: ScanState, filePath: Path, info: Value, next: ScanState) {
    var top := MainFolder(ctx.modsDir, filePath);
    && next.mods == st.mods + [info]
    && next.sidecars == st.sidecars[top := Entries(EntriesAt(st.sidecars, top) + [Jsonify(info)])]
    && next.created == (if top in st.sidecars then st.created else st.created + [top])
  }

  /** Recording succeeds exactly when the sidecar accepts the descriptor, and
      then writes and pushes exactly it. */
  lemma RegisterRecords(ctx: Context, st: ScanState, filePath: Path, info: Value)
    ensures Register(ctx, st, filePath, info).Some? <==> SidecarAccepts(ctx, st, filePath)
    ensures Register(ctx, st, filePath, info).Some? ==>
              Recorded(ctx, st, filePath, info, Register(ctx, st, filePath, info).value)
  {
    var top := MainFolder(ctx.modsDir, filePath);
    if top !in st.sidecars {
      assert EntriesAt(st.sidecars, top) + [Jsonify(info)] == [Jsonify(info)];
    }
  }

  /** A `.lua` file gives a mod exactly when it has a header and its sidecar
      accepts the descriptor built from that header; it then records that
      descriptor, enabled unless its folder holds a `.lovelyignore`. */
  lemma LuaStepRecords(ctx: Context, st: ScanState, filePath: Path, content: string)
    ensures var r := LuaStep(ctx, st, filePath, content);
            r.1 <==> HeaderOf(content).Some? && SidecarAccepts(ctx, st, filePath)
    ensures var r := LuaStep(ctx, st, filePath, content);
            r.1 ==> Recorded(ctx, st, filePath,
                             GetModInfo(ctx.modsDir, filePath, Obj(HeaderOf(content).value), EnabledAt(ctx, filePath)),
                             r.0)
  {
    if HeaderOf(content).Some? {
      var info := GetModInfo(ctx.modsDir, filePath, Obj(HeaderOf(content).value), EnabledAt(ctx, filePath));
      RegisterRecords(ctx, st, filePath, info);
    }
  }

  /** A `.json` file records the descriptor built from its manifest exactly
      when the text parses, the manifest is a valid mod and the sidecar
      accepts it; otherwise the state is unchanged. */
  lemma JsonStepRecords(ctx: Context, st: ScanState, filePath: Path, content: string)
    ensures var p := SafeParseJson(content, ctx.parse);
            var adds := p.Some? && IsValidJsonMod(p.value) && SidecarAccepts(ctx, st, filePath);
            && (!adds ==> JsonStep(ctx, st, filePath, content) == st)
            && (adds ==> Recorded(ctx, st, filePath,
                                  GetModInfo(ctx.modsDir, filePath, p.value, EnabledAt(ctx, filePath)),
                                  JsonStep(ctx, st, filePath, content)))
  {
    var p := SafeParseJson(content, ctx.parse);
    if p.Some? && IsValidJsonMod(p.value) {
      var info := GetModInfo(ctx.modsDir, filePath, p.value, EnabledAt(ctx, filePath));
      RegisterRecords(ctx, st, filePath, info);
      var reg := Register(ctx, st, filePath, info);
      assert JsonStep(ctx, st, filePath, content) == if reg.Some? then reg.value else st;
    }
  }

  /** A name cannot end in both `.lua` and `.json`. */
  lemma ExtensionsExclusive(name: string)
    ensures !(EndsWith(name, ".lua") && EndsWith(name, ".json"))
  {
    if EndsWith(name, ".lua") {
      assert name[|name| - 4..][3] == 'a';
      assert !EndsWith(name, ".json") by {
        if |name| >= 5 {
          assert name[|name| - 5..][4] == name[|name| - 1];
        }
      }
    }
  }

  /** Within one folder a `.lua` file's outcome replaces the running flag,
      and a `.json` file is processed only while no earlier `.lua` file of
      the folder gave a mod; any other file changes nothing. */
  lemma FileStepOrder(ctx: Context, st: ScanState, dir: Path, name: string, content: string, lua: bool)
    ensures EndsWith(name, ".lua") ==> FileStep(ctx, st, dir, name, content, lua) == LuaStep(ctx, st, dir + [name], content)
    ensures EndsWith(name, ".json") && lua ==> FileStep(ctx, st, dir, name, content, lua) == (st, true)
    ensures EndsWith(name, ".json") && !lua ==>
              FileStep(ctx, st, dir, name, content, lua) == (JsonStep(ctx, st, dir + [name], content), false)
    ensures !EndsWith(name, ".lua") && !EndsWith(name, ".json") ==> FileStep(ctx, st, dir, name, content, lua) == (st, lua)
  {
    ExtensionsExclusive(name);
  }

  /** `processFolder(path)`: a sidecar not created in this pass stands for the
      whole folder; otherwise the entries are scanned in listing order. */
  function ScanFolder(ctx: Context, st: ScanState, path: Path, children: seq<Node>): ScanState
    decreases SizeAll(children), 1
  {
    if path in st.sidecars && path !in st.created then
      st.(mods := st.mods + Spread(st.sidecars[path]))
    else
      ScanEntries(ctx, st, path, children, false)
  }

  /** The `forEach` over a folder's entries, with the running `.lua` flag. */
  function ScanEntries(ctx: Context, st: ScanState, dir: Path, entries: seq<Node>, lua: bool): ScanState
    decreases SizeAll(entries), 0
  {
    if entries == [] then st
    else
      match entries[0]
      case Folder(name, kids) =>
        assert SizeAll(kids) < SizeAll(entries) by {
          assert SizeAll(entries) == Size(entries[0]) + SizeAll(entries[1..]);
        }
        ScanEntries(ctx, ScanFolder(ctx, st, dir + [name], kids), dir, entries[1..], lua)
      case File(name, content) =>
        var r := FileStep(ctx, st, dir, name, content, lua);
        ScanEntries(ctx, r.0, dir, entries[1..], r.1)
  }

  lemma {:induction false} SizeAllElem(ns: seq<Node>, i: nat)
    requires i < |ns|
    ensures Size(ns[i]) <= SizeAll(ns)
  {
    if i > 0 {
      SizeAllElem(ns[1..], i - 1);
    }
  }

  // ---------------------------------------------------------------------
  // The catalog merge (`loadFileMods`)

  /** `mods.some(mod => mod.id === id)`: a `null` or `undefined` mod met before
      a match throws. */
  function HasSameId(mods: seq<Value>, id: Value): (r: Result<bool>)
    ensures r == Ok(true) ==> exists j :: 0 <= j < |mods| && StrictEquals(Prop(mods[j], "id"), id)
    ensures r == Ok(false) ==> forall j :: 0 <= j < |mods| ==> !StrictEquals(Prop(mods[j], "id"), id)
  {
    if mods == [] then Ok(false)
    else if Nullish(mods[0]) then Err("TypeError")
    else if StrictEquals(Prop(mods[0], "id"), id) then Ok(true)
    else
      match HasSameId(mods[1..], id)
      case Err(e) => Err(e)
      case Ok(b) =>
        assert forall j :: 1 <= j < |mods| ==> mods[j] == mods[1..][j - 1];
        Ok(b)
  }

  /** `some` throws exactly when it meets a `null` or `undefined` mod before
      any mod whose id matches. */
  lemma {:induction false} HasSameIdThrows(mods: seq<Value>, id: Value)
    ensures HasSameId(mods, id).Err? <==>
              exists i :: 0 <= i < |mods| && Nullish(mods[i])
                          && forall j :: 0 <= j < i ==> !StrictEquals(Prop(mods[j], "id"), id)
  {
    if mods != [] && !Nullish(mods[0]) {
      var tail := mods[1..];
      if StrictEquals(Prop(mods[0], "id"), id) {
        forall i | 0 <= i < |mods| && Nullish(mods[i])
          ensures exists j :: 0 <= j < i && StrictEquals(Prop(mods[j], "id"), id)
        {
          assert i > 0;
        }
      } else {
        HasSameIdThrows(tail, id);
        if HasSameId(mods, id).Err? {
          var i :| 0 <= i < |tail| && Nullish(tail[i])
                   && forall j :: 0 <= j < i ==> !StrictEquals(Prop(tail[j], "id"), id);
          assert mods[i + 1] == tail[i];
          forall j | 0 <= j < i + 1
            ensures !StrictEquals(Prop(mods[j], "id"), id)
          {
            if j > 0 {
              assert mods[j] == tail[j - 1];
            }
          }
        } else {
          forall i | 0 <= i < |mods| && Nullish(mods[i])
            ensures exists j :: 0 <= j < i && StrictEquals(Prop(mods[j], "id"), id)
          {
            assert i > 0 && tail[i - 1] == mods[i];
            var j :| 0 <= j < i - 1 && StrictEquals(Prop(tail[j], "id"), id);
            assert tail[j] == mods[j + 1];
          }
        }
      }
    }
  }

  /** The fields of the object `loadFileMods` pushes for a catalog item. */
  const CatalogKeys: set<string> :=
    {"id", "name", "description", "enabled", "installed", "github", "core", "specialDownload"}

  /** What `loadFileMods` puts in place of a falsy field of a catalog item
      (`github` is copied as it is and has none); the id falls back to the
      catalog file's stem. */
  function CatalogDefault(key: string): Value {
    if key == "id" then Str("modslist")
    else if key == "name" then Str("Unknown Mod")
    else if key == "description" then Str("No description available.")
    else if key == "specialDownload" then Str("")
    else Bool(false)
  }

  /** The object `loadFileMods` pushes for a catalog item. */
  function CatalogEntry(item: Value): Value {
    Obj(map k | k in CatalogKeys :: if k == "github" then Prop(item, k) else Or(Prop(item, k), CatalogDefault(k)))
  }

  /** The `forEach` over the catalog items: the `mods` array reached and
      whether the walk finished without throwing (reading `.id` of a `null`
      item, or of a `null` mod inside `some`). */
  function Merge(mods: seq<Value>, items: seq<Value>): (r: (seq<Value>, bool))
    decreases |items|
    ensures mods <= r.0
  {
    if items == [] then (mods, true)
    else
      var item := items[0];
      if Nullish(item) then (mods, false)
      else
        match HasSameId(mods, Prop(item, "id"))
        case Err(_) => (mods, false)
        case Ok(true) => Merge(mods, items[1..])
        case Ok(false) =>
          var r := Merge(mods + [CatalogEntry(item)], items[1..]);
          assert mods <= mods + [CatalogEntry(item)];
          r
  }

  /** The entry for a catalog item has exactly the catalog's eight fields,
      copies `github` as it is, and always has a truthy id, name and
      description. */
  lemma CatalogEntryShape(item: Value)
    ensures var e := CatalogEntry(item);
            && e.Obj? && e.fields.Keys == CatalogKeys
            && Prop(e, "github") == Prop(item, "github")
            && Truthy(Prop(e, "id")) && Truthy(Prop(e, "name")) && Truthy(Prop(e, "description"))
  {
  }

  /** Where a catalog item leaves a field falsy, its entry takes the
      catalog's default: id `modslist`, name `Unknown Mod`, a stock
      description, not enabled, not installed, not core, no special
      download. */
  lemma CatalogEntryDefaults(item: Value)
    ensures var e := CatalogEntry(item);
            && (!Truthy(Prop(item, "id")) ==> Prop(e, "id") == Str("modslist"))
            && (!Truthy(Prop(item, "name")) ==> Prop(e, "name") == Str("Unknown Mod"))
            && (!Truthy(Prop(item, "description")) ==> Prop(e, "description") == Str("No description available."))
            && (!Truthy(Prop(item, "enabled")) ==> Prop(e, "enabled") == Bool(false))
            && (!Truthy(Prop(item, "installed")) ==> Prop(e, "installed") == Bool(false))
            && (!Truthy(Prop(item, "core")) ==> Prop(e, "core") == Bool(false))
            && (!Truthy(Prop(item, "specialDownload")) ==> Prop(e, "specialDownload") == Str(""))
  {
  }

  /** Where a catalog item sets one of the catalog's fields to a truthy
      value, its entry keeps that value. */
  lemma CatalogEntryKeeps(item: Value)
    ensures var e := CatalogEntry(item);
            forall k :: k in CatalogKeys && Truthy(Prop(item, k)) ==> Prop(e, k) == Prop(item, k)
  {
  }

  /** Merging `a + b` merges `a` first and, unless that threw, `b` into its
      result. */
  lemma {:induction false} MergeConcat(mods: seq<Value>, a: seq<Value>, b: seq<Value>)
    decreases |a|
    ensures var m := Merge(mods, a);
            Merge(mods, a + b) == if m.1 then Merge(m.0, b) else m
  {
    if a == [] {
      assert a + b == b;
    } else {
      assert (a + b)[0] == a[0] && (a + b)[1..] == a[1..] + b;
      var item := a[0];
      if !Nullish(item) {
        match HasSameId(mods, Prop(item, "id"))
        case Err(_) =>
        case Ok(true) => MergeConcat(mods, a[1..], b);
        case Ok(false) => MergeConcat(mods + [CatalogEntry(item)], a[1..], b);
      }
    }
  }

  /** Item `i` of the catalog, met with `pre` the `mods` array the earlier
      items left: a `null` item throws; otherwise it is appended as a catalog
      entry exactly when no mod in `pre` has its id, and `some` throwing
      stops the merge. */
  lemma MergeStep(mods: seq<Value>, items: seq<Value>, i: nat)
    requires i < |items| && Merge(mods, items[..i]).1
    ensures var pre := Merge(mods, items[..i]).0;
            var item := items[i];
            var next := Merge(mods, items[..i + 1]);
            var h := HasSameId(pre, Prop(item, "id"));
            && (Nullish(item) ==> next == (pre, false))
            && (!Nullish(item) && h.Err? ==> next == (pre, false))
            && (!Nullish(item) && h == Ok(true) ==> next == (pre, true))
            && (!Nullish(item) && h == Ok(false) ==> next == (pre + [CatalogEntry(item)], true))
  {
    assert items[..i + 1] == items[..i] + [items[i]];
    MergeConcat(mods, items[..i], [items[i]]);
    assert [items[i]][1..] == [];
  }

  /** Once a prefix of the catalog throws, the merge ends there. */
  lemma MergeStopsAt(mods: seq<Value>, items: seq<Value>, i: nat)
    requires i <= |items| && !Merge(mods, items[..i]).1
    ensures Merge(mods, items) == Merge(mods, items[..i])
  {
    assert items == items[..i] + items[i..];
    MergeConcat(mods, items[..i], items[i..]);
  }

  /** `loadFileMods(mods, modlist)` with the catalog file already read and
      parsed (`None` when reading or parsing throws). */
  function LoadFileModsResult(mods: seq<Value>, catalog: Option<Value>): Option<seq<Value>> {
    match catalog
    case None => None
    case Some(Arr(items)) => var r := Merge(mods, items); if r.1 then Some(r.0) else None
    case Some(_) => None
  }

  /** When every catalog item declares an id, each entry the merge appends
      has an id that no earlier mod, scanned or merged, has. */
  lemma {:induction false} MergeKeepsIdsDistinct(mods: seq<Value>, items: seq<Value>)
    requires forall i :: 0 <= i < |items| ==> Truthy(Prop(items[i], "id"))
    requires Merge(mods, items).1
    decreases |items|
    ensures var r := Merge(mods, items).0;
            forall j, k :: 0 <= j < k < |r| && k >= |mods| ==> !StrictEquals(Prop(r[j], "id"), Prop(r[k], "id"))
  {
    if items != [] {
      var item := items[0];
      var tail := items[1..];
      assert forall i :: 0 <= i < |tail| ==> tail[i] == items[i + 1];
      match HasSameId(mods, Prop(item, "id"))
      case Ok(true) =>
        MergeKeepsIdsDistinct(mods, tail);
        var r := Merge(mods, tail).0;
        assert r == Merge(mods, items).0;
      case Ok(false) =>
        var next := mods + [CatalogEntry(item)];
        MergeKeepsIdsDistinct(next, tail);
        var r := Merge(next, tail).0;
        assert r == Merge(mods, items).0;
        assert next <= r;
        assert Prop(r[|mods|], "id") == Prop(item, "id");
        forall j, k | 0 <= j < k < |r| && k >= |mods|
          ensures !StrictEquals(Prop(r[j], "id"), Prop(r[k], "id"))
        {
          if k == |mods| {
            assert r[j] == mods[j];
          }
        }
    }
  }

  /** Two catalog items without an id both receive the id `modslist`: the
      duplicate check compares the missing id, not the one pushed. */
  lemma IdlessEntriesCollide()
    ensures var r := Merge([], [Obj(map[]), Obj(map[])]);
            r.1 && |r.0| == 2 && Prop(r.0[0], "id") == Prop(r.0[1], "id") == Str("modslist")
  {
    var a := Obj(map[]);
    var e := CatalogEntry(a);
    assert Prop(a, "id") == Undefined;
    assert Prop(e, "id") == Str("modslist");
    assert HasSameId([], Undefined) == Ok(false);
    assert HasSameId([e], Undefined) == Ok(false);
    assert [a, a][1..] == [a];
    assert Merge([e], [a]) == Merge([e, e], []) by {
      assert [a][1..] == [];
      assert [e] + [CatalogEntry(a)] == [e, e];
    }
    assert Merge([], [a, a]) == Merge([e], [a]) by {
      assert [] + [e] == [e];
    }
  }

  /** `loadMods` as a whole: the scan (when the mods folder exists), then the
      catalog merge; returns what the call resolves to and the sidecars it
      leaves behind. */
  function LoadModsResult(ctx: Context, sidecars: map<Path, Sidecar>, created: seq<Path>,
                          root: Option<seq<Node>>, catalog: Option<Value>): (Option<seq<Value>>, map<Path, Sidecar>)
  {
    var start := ScanState([], sidecars, created);
    var scanned := if root.Some? then ScanFolder(ctx, start, ctx.modsDir, root.value) else start;
    (LoadFileModsResult(scanned.mods, catalog), scanned.sidecars)
  }

  // ---------------------------------------------------------------------
  // Invariants of a scan

  /** A sidecar that existed before the pass and was not created by it. */
  ghost predicate PreExisting(orig: ScanState, p: Path) {
    p in orig.sidecars && p !in orig.created
  }

  /** Every pre-existing sidecar is still there, unchanged, and not marked
      as created; every created sidecar is an array in a folder directly
      inside the mods folder. */
  ghost predicate Kept(ctx: Context, orig: ScanState, st: ScanState) {
    && (forall p :: PreExisting(orig, p) ==>
          p in st.sidecars && st.sidecars[p] == orig.sidecars[p] && p !in st.created)
    && (forall i :: 0 <= i < |st.created| ==>
          var p := st.created[i];
          p in st.sidecars && st.sidecars[p].Entries? && Under(p, ctx.modsDir) && |p| == |ctx.modsDir| + 1)
    && orig.mods <= st.mods
  }

  /** The sidecar a file's descriptor would go to is not a pre-existing one. */
  ghost predicate TargetFresh(ctx: Context, orig: ScanState, filePath: Path) {
    SidecarWritable(ctx.modsDir, filePath) ==> !PreExisting(orig, MainFolder(ctx.modsDir, filePath))
  }

  /** Writing a sidecar keeps `Kept` when the folder written to is not a
      pre-existing sidecar's. */
  lemma RegisterKeeps(ctx: Context, orig: ScanState, st: ScanState, filePath: Path, info: Value)
    requires Kept(ctx, orig, st)
    requires Under(filePath, ctx.modsDir) && TargetFresh(ctx, orig, filePath)
    requires Register(ctx, st, filePath, info).Some?
    ensures Kept(ctx, orig, Register(ctx, st, filePath, info).value)
  {
    var top := MainFolder(ctx.modsDir, filePath);
    var next := Register(ctx, st, filePath, info).value;
    assert |top| == |ctx.modsDir| + 1 && Under(top, ctx.modsDir);
    assert forall i :: 0 <= i < |st.created| ==> next.created[i] == st.created[i];
    assert st.mods <= next.mods;
  }

  lemma LuaStepKeeps(ctx: Context, orig: ScanState, st: ScanState, filePath: Path, content: string)
    requires Kept(ctx, orig, st)
    requires Under(filePath, ctx.modsDir) && TargetFresh(ctx, orig, filePath)
    ensures Kept(ctx, orig, LuaStep(ctx, st, filePath, content).0)
  {
    var r := LuaStep(ctx, st, filePath, content);
    if r.1 {
      var info :| Register(ctx, st, filePath, info) == Some(r.0);
      RegisterKeeps(ctx, orig, st, filePath, info);
    }
  }

  lemma JsonStepKeeps(ctx: Context, orig: ScanState, st: ScanState, filePath: Path, content: string)
    requires Kept(ctx, orig, st)
    requires Under(filePath, ctx.modsDir) && TargetFresh(ctx, orig, filePath)
    ensures Kept(ctx, orig, JsonStep(ctx, st, filePath, content))
  {
    var r := JsonStep(ctx, st, filePath, content);
    if r != st {
      var info :| Register(ctx, st, filePath, info) == Some(r);
      RegisterKeeps(ctx, orig, st, filePath, info);
    }
  }

  lemma FileStepKeeps(ctx: Context, orig: ScanState, st: ScanState, dir: Path, name: string,
                      content: string, lua: bool)
    requires Kept(ctx, orig, st)
    requires Under(dir, ctx.modsDir)
    requires |dir| > |ctx.modsDir| ==> !PreExisting(orig, dir[..|ctx.modsDir| + 1])
    ensures Kept(ctx, orig, FileStep(ctx, st, dir, name, content, lua).0)
  {
    var path := dir + [name];
    var m := |ctx.modsDir|;
    assert Under(path, ctx.modsDir);
    assert TargetFresh(ctx, orig, path) by {
      var top := MainFolder(ctx.modsDir, path);
      if |dir| > m {
        assert top == dir[..m + 1];
      } else {
        assert top == path;
      }
    }
    var afterLua := if EndsWith(name, ".lua") then LuaStep(ctx, st, path, content) else (st, lua);
    if EndsWith(name, ".lua") {
      LuaStepKeeps(ctx, orig, st, path, content);
    }
    if EndsWith(name, ".json") && !afterLua.1 {
      JsonStepKeeps(ctx, orig, afterLua.0, path, content);
    }
  }

  lemma {:induction false} ScanFolderKeeps(ctx: Context, orig: ScanState, st: ScanState, path: Path,
                                           children: seq<Node>)
    requires Kept(ctx, orig, st)
    requires Under(path, ctx.modsDir)
    requires |path| > |ctx.modsDir| + 1 ==> !PreExisting(orig, path[..|ctx.modsDir| + 1])
    decreases SizeAll(children), 1
    ensures Kept(ctx, orig, ScanFolder(ctx, st, path, children))
  {
    var m := |ctx.modsDir|;
    if path in st.sidecars && path !in st.created {
      assert st.mods <= st.mods + Spread(st.sidecars[path]);
    } else {
      if |path| == m + 1 {
        assert path[..m + 1] == path;
      }
      ScanEntriesKeeps(ctx, orig, st, path, children, false);
    }
  }

  lemma {:induction false} ScanEntriesKeeps(ctx: Context, orig: ScanState, st: ScanState, dir: Path,
                                            entries: seq<Node>, lua: bool)
    requires Kept(ctx, orig, st)
    requires Under(dir, ctx.modsDir)
    requires |dir| > |ctx.modsDir| ==> !PreExisting(orig, dir[..|ctx.modsDir| + 1])
    decreases SizeAll(entries), 0
    ensures Kept(ctx, orig, ScanEntries(ctx, st, dir, entries, lua))
  {
    var m := |ctx.modsDir|;
    if entries != [] {
      match entries[0]
      case Folder(name, kids) =>
        var sub := dir + [name];
        assert SizeAll(kids) < SizeAll(entries) by {
          assert SizeAll(entries) == Size(entries[0]) + SizeAll(entries[1..]);
        }
        if |sub| > m + 1 {
          assert sub[..m + 1] == dir[..m + 1];
        }
        ScanFolderKeeps(ctx, orig, st, sub, kids);
        ScanEntriesKeeps(ctx, orig, ScanFolder(ctx, st, sub, kids), dir, entries[1..], lua);
      case File(name, content) =>
        FileStepKeeps(ctx, orig, st, dir, name, content, lua);
        var r := FileStep(ctx, st, dir, name, content, lua);
        ScanEntriesKeeps(ctx, orig, r.0, dir, entries[1..], r.1);
    }
  }

  /** A pass over the mods folder never rewrites a sidecar that existed
      before it, only extends `mods`, and every sidecar it records as
      created is an array in a folder directly inside the mods folder. */
  lemma ScanKeepsSidecars(ctx: Context, st: ScanState, children: seq<Node>)
    requires st.created == []
    ensures var r := ScanFolder(ctx, st, ctx.modsDir, children);
            && (forall p :: p in st.sidecars ==> p in r.sidecars && r.sidecars[p] == st.sidecars[p])
            && st.mods <= r.mods
            && (forall p :: p in r.created ==> p in r.sidecars && r.sidecars[p].Entries?
                                                && Under(p, ctx.modsDir) && |p| == |ctx.modsDir| + 1)
  {
    assert Under(ctx.modsDir, ctx.modsDir);
    ScanFolderKeeps(ctx, st, st, ctx.modsDir, children);
    var r := ScanFolder(ctx, st, ctx.modsDir, children);
    forall p | p in r.created
      ensures p in r.sidecars && r.sidecars[p].Entries? && Under(p, ctx.modsDir) && |p| == |ctx.modsDir| + 1
    {
      var i :| 0 <= i < |r.created| && r.created[i] == p;
    }
  }

  /** A folder whose sidecar was not created in this pass contributes only
      the sidecar's entries, whatever it contains, and writes nothing. */
  lemma SidecarShortCircuits(ctx: Context, st: ScanState, path: Path, children: seq<Node>, other: seq<Node>)
    requires path in st.sidecars && path !in st.created
    ensures ScanFolder(ctx, st, path, children) == ScanFolder(ctx, st, path, other)
    ensures ScanFolder(ctx, st, path, children) == st.(mods := st.mods + Spread(st.sidecars[path]))
  {
  }

  // ---------------------------------------------------------------------
  // The loader's state and its operations

  class Loader {
    const modsDir: Path
    const markers: set<Path>
    const parse: string -> Option<Value>
    /** The `mods` array being filled. */
    var mods: seq<Value>
    /** The `.faro` files on disk, by folder. */
    var sidecars: map<Path, Sidecar>
    /** `createdFaros` */
    var createdFaros: seq<Path>

    constructor(modsDir: Path, markers: set<Path>, parse: string -> Option<Value>, sidecars: map<Path, Sidecar>)
      ensures this.modsDir == modsDir && this.markers == markers && this.parse == parse
      ensures this.sidecars == sidecars && mods == [] && createdFaros == []
    {
      this.modsDir := modsDir;
      this.markers := markers;
      this.parse := parse;
      this.sidecars := sidecars;
      mods := [];
      createdFaros := [];
    }

    function Ctx(): Context {
      Context(modsDir, markers, parse)
    }

    function State(): ScanState
      reads this
    {
      ScanState(mods, sidecars, createdFaros)
    }

    /** Create or extend the sidecar for a parsed file and push its
        descriptor; `false` when the write throws. */
    method RecordMod(filePath: Path, info: Value) returns (ok: bool)
      modifies this
      ensures ok == Register(Ctx(), old(State()), filePath, info).Some?
      ensures ok ==> State() == Register(Ctx(), old(State()), filePath, info).value
      ensures !ok ==> State() == old(State())
    {
      var top := MainFolder(modsDir, filePath);
      if !(Under(filePath, top) && |filePath| > |top|) {
        return false;
      }
      if top !in sidecars {
        sidecars := sidecars[top := Entries([Jsonify(info)])];
        createdFaros := createdFaros + [top];
      } else {
        match sidecars[top]
        case Entries(items) =>
          sidecars := sidecars[top := Entries(items + [Jsonify(info)])];
        case _ =>
          return false;
      }
      mods := mods + [info];
      return true;
    }

    /** `processLuaFile` */
    method ProcessLuaFile(filePath: Path, content: string) returns (ok: bool)
      modifies this
      ensures (State(), ok) == LuaStep(Ctx(), old(State()), filePath, content)
    {
      var header := ParseLuaHeader(content);
      if header.None? {
        return false;
      }
      var info := GetModInfo(modsDir, filePath, Obj(header.value), Dirname(filePath) !in markers);
      ok := RecordMod(filePath, info);
    }

    /** `processJsonFile` */
    method ProcessJsonFile(filePath: Path, content: string)
      modifies this
      ensures State() == JsonStep(Ctx(), old(State()), filePath, content)
    {
      var data := SafeParseJson(content, parse);
      if data.None? || !IsValidJsonMod(data.value) {
        return;
      }
      var info := GetModInfo(modsDir, filePath, data.value, Dirname(filePath) !in markers);
      var _ := RecordMod(filePath, info);
    }

    /** `processFolder` */
    method ProcessFolder(path: Path, children: seq<Node>)
      modifies this
      decreases SizeAll(children), 1
      ensures State() == ScanFolder(Ctx(), old(State()), path, children)
    {
      if path in sidecars && path !in createdFaros {
        mods := mods + Spread(sidecars[path]);
        return;
      }
      var lua := false;
      var i := 0;
      while i < |children|
        invariant 0 <= i <= |children|
        invariant ScanEntries(Ctx(), State(), path, children[i..], lua)
                  == ScanFolder(Ctx(), old(State()), path, children)
        decreases |children| - i
      {
        var entry := children[i];
        assert children[i..][1..] == children[i + 1..];
        match entry {
          case Folder(name, kids) =>
            SizeAllElem(children, i);
            ProcessFolder(path + [name], kids);
          case File(name, content) =>
            if EndsWith(name, ".lua") {
              lua := ProcessLuaFile(path + [name], content);
            }
            if EndsWith(name, ".json") && !lua {
              ProcessJsonFile(path + [name], content);
            }
        }
        i := i + 1;
      }
    }

    /** `loadFileMods(mods, modlist)` with the catalog as read and parsed
        (`None` when that throws); `false` stands for the `null` result. */
    method LoadFileMods(catalog: Option<Value>) returns (ok: bool)
      modifies this
      ensures ok == LoadFileModsResult(old(mods), catalog).Some?
      ensures ok ==> mods == LoadFileModsResult(old(mods), catalog).value
      ensures sidecars == old(sidecars) && createdFaros == old(createdFaros)
    {
      if catalog.None? || !catalog.value.Arr? {
        return false;
      }
      var items := catalog.value.items;
      var i := 0;
      while i < |items|
        invariant 0 <= i <= |items|
        invariant Merge(mods, items[i..]) == Merge(old(mods), items)
        invariant sidecars == old(sidecars) && createdFaros == old(createdFaros)
        decreases |items| - i
      {
        var item := items[i];
        assert items[i..][1..] == items[i + 1..];
        if Nullish(item) {
          return false;
        }
        var exists_ := HasSameId(mods, Prop(item, "id"));
        if exists_.Err? {
          return false;
        }
        if !exists_.value {
          mods := mods + [CatalogEntry(item)];
        }
        i := i + 1;
      }
      return true;
    }

    /** `loadMods`: rescan from an empty `mods` array, merge the catalog,
        then clear `createdFaros`. `root` is the mods folder's listing, `None`
        when it does not exist. */
    method LoadMods(root: Option<seq<Node>>, catalog: Option<Value>) returns (r: Option<seq<Value>>)
      modifies this
      ensures (r, sidecars) == LoadModsResult(Ctx(), old(sidecars), old(createdFaros), root, catalog)
      ensures createdFaros == []
    {
      mods := [];
      if root.Some? {
        ProcessFolder(modsDir, root.value);
      }
      var ok := LoadFileMods(catalog);
      r := if ok then Some(mods) else None;
      createdFaros := [];
    }
  }
}
