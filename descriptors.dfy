/** Mod descriptors: the objects the scanner emits and the sidecar files
    store (`getModInfo`), and the manifest check for JSON mods
    (`isValidJsonMod`). */
module Descriptors {
  import opened JsValues
  import opened Text
  import opened Paths

  /** The folder directly inside `modsDir` that holds `p`: `path.join(modsDir,
      parts[0])` where `parts` splits `path.relative(modsDir, p)`. When `p` is
      `modsDir` itself the relative path is empty and the join gives `modsDir`;
      when `p` lies elsewhere the first part is `..` and the join gives the
      parent of `modsDir`. */
  function MainFolder(modsDir: Path, p: Path): (r: Path)
    ensures Under(p, modsDir) && |p| > |modsDir| ==>
              Under(r, modsDir) && |r| == |modsDir| + 1 && Under(p, r)
    ensures p == modsDir ==> r == modsDir
  {
    if Under(p, modsDir) && |p| > |modsDir| then modsDir + [p[|modsDir|]]
    else if Under(p, modsDir) then modsDir
    else Dirname(modsDir)
  }

  /** The twelve fields every descriptor built by `getModInfo` has, with the
      two paths stored as strings. */
  predicate DescriptorShape(m: Object) {
    && "id" in m && "name" in m && "description" in m && "enabled" in m
    && "version" in m && "prefix" in m && "installed" in m && "modPath" in m
    && "modFullPath" in m && "specialPaths" in m && "canUpdate" in m && "core" in m
    && m["modPath"].Str? && m["modFullPath"].Str?
  }

  /** The fallback id: the file name without a `.json` or `.lua` extension
      (the extension compared in lower case, the cut made case-sensitively),
      or the whole file name for any other extension. */
  function FallbackId(data: Value, base: string): Value {
    var ext := Lower(Extname(base));
    if ext == ".json" then Or(Prop(data, "id"), Str(BasenameWithout(base, ".json")))
    else if ext == ".lua" then Or(Prop(data, "id"), Str(BasenameWithout(base, ".lua")))
    else Str(base)
  }

  /** The object literal `getModInfo` returns, from its twelve field values. */
  function DescriptorObject(id: Value, name: Value, description: Value, enabled: bool,
                            version: Value, prefix: Value, modPath: Path, modFullPath: Path,
                            specialPaths: Value, core: Value): (r: Value)
    ensures r.Obj? && DescriptorShape(r.fields)
    ensures r.fields["id"] == id && r.fields["name"] == name && r.fields["description"] == description
    ensures r.fields["enabled"] == Bool(enabled) && r.fields["version"] == version
    ensures r.fields["prefix"] == prefix && r.fields["installed"] == Bool(true)
    ensures r.fields["modPath"] == Str(PathString(modPath))
    ensures r.fields["modFullPath"] == Str(PathString(modFullPath))
    ensures r.fields["specialPaths"] == specialPaths && r.fields["canUpdate"] == Bool(false)
    ensures r.fields["core"] == core
  {
    Obj(map[
      "id" := id,
      "name" := name,
      "description" := description,
      "enabled" := Bool(enabled),
      "version" := version,
      "prefix" := prefix,
      "installed" := Bool(true),
      "modPath" := Str(PathString(modPath)),
      "modFullPath" := Str(PathString(modFullPath)),
      "specialPaths" := specialPaths,
      "canUpdate" := Bool(false),
      "core" := core
    ])
  }

  /** `getModInfo(filePath, modData, isEnabled)` against the scanner's mods
      folder `modsDir`. */
  function GetModInfo(modsDir: Path, filePath: Path, data: Value, isEnabled: bool): (r: Value)
    ensures r.Obj? && DescriptorShape(r.fields)
    ensures r.fields["installed"] == Bool(true) && r.fields["canUpdate"] == Bool(false)
    ensures r.fields["enabled"] == Bool(isEnabled)
    ensures Truthy(Prop(data, "id")) ==> r.fields["id"] == Prop(data, "id")
    ensures Truthy(r.fields["name"]) && Truthy(r.fields["description"])
    ensures Truthy(r.fields["version"]) && Truthy(r.fields["prefix"])
    ensures Truthy(r.fields["specialPaths"])
    ensures Segments(filePath) ==> ParsePath(r.fields["modFullPath"].s) == Dirname(filePath)
    ensures Segments(modsDir) && Segments(filePath) && Under(filePath, modsDir) && |filePath| > |modsDir| ==>
              var top := ParsePath(r.fields["modPath"].s);
              Under(top, modsDir) && |top| == |modsDir| + 1 && Under(filePath, top)
  {
    var top := MainFolder(modsDir, filePath);
    var parent := Dirname(filePath);
    assert Segments(filePath) ==> ParsePath(PathString(parent)) == parent by {
      if Segments(filePath) {
        assert Segments(parent) by {
          forall i | 0 <= i < |parent| ensures '/' !in parent[i] { assert parent[i] == filePath[i]; }
        }
        PathStringRoundTrip(parent);
      }
    }
    assert Segments(modsDir) && Segments(filePath) && Under(filePath, modsDir) && |filePath| > |modsDir|
           ==> ParsePath(PathString(top)) == top by {
      if Segments(modsDir) && Segments(filePath) && Under(filePath, modsDir) && |filePath| > |modsDir| {
        assert Segments(top) by {
          forall i | 0 <= i < |top| ensures '/' !in top[i] { assert top[i] == filePath[i]; }
        }
        PathStringRoundTrip(top);
      }
    }
    DescriptorObject(
      Or(Prop(data, "id"), FallbackId(data, Basename(filePath))),
      Or(Prop(data, "name"), Str("Unknown Mod")),
      Or(Prop(data, "description"), Str("No description available.")),
      isEnabled,
      Or(Prop(data, "version"), Str("Unknown")),
      Or(Prop(data, "prefix"), Str("None")),
      top, parent,
      Or(Prop(data, "specialPaths"), Arr([])),
      Or(Prop(data, "core"), Bool(false)))
  }

  /** Each field of `GetModInfo` is the declared one when that is truthy and
      the documented default otherwise. */
  lemma GetModInfoDefaults(modsDir: Path, filePath: Path, data: Value, isEnabled: bool)
    ensures var r := GetModInfo(modsDir, filePath, data, isEnabled).fields;
            && (!Truthy(Prop(data, "name")) ==> r["name"] == Str("Unknown Mod"))
            && (!Truthy(Prop(data, "description")) ==> r["description"] == Str("No description available."))
            && (!Truthy(Prop(data, "version")) ==> r["version"] == Str("Unknown"))
            && (!Truthy(Prop(data, "prefix")) ==> r["prefix"] == Str("None"))
            && (!Truthy(Prop(data, "specialPaths")) ==> r["specialPaths"] == Arr([]))
            && (!Truthy(Prop(data, "core")) ==> r["core"] == Bool(false))
            && (Truthy(Prop(data, "name")) ==> r["name"] == Prop(data, "name"))
            && (Truthy(Prop(data, "description")) ==> r["description"] == Prop(data, "description"))
            && (Truthy(Prop(data, "prefix")) ==> r["prefix"] == Prop(data, "prefix"))
            && (Truthy(Prop(data, "version")) ==> r["version"] == Prop(data, "version"))
            && (Truthy(Prop(data, "core")) ==> r["core"] == Prop(data, "core"))
            && (Truthy(Prop(data, "specialPaths")) ==> r["specialPaths"] == Prop(data, "specialPaths"))
  {
  }

  /** Without a declared id, a `.json` or `.lua` file contributes its name
      without the extension. */
  lemma FallbackIdIsStem(modsDir: Path, filePath: Path, data: Value, isEnabled: bool, ext: string)
    requires !Truthy(Prop(data, "id"))
    requires ext == ".json" || ext == ".lua"
    requires EndsWith(Basename(filePath), ext) && |ext| < |Basename(filePath)|
    requires Extname(Basename(filePath)) == ext
    ensures var id := GetModInfo(modsDir, filePath, data, isEnabled).fields["id"];
            id.Str? && id.s != "" && id.s + ext == Basename(filePath)
  {
    StemId(data, Basename(filePath), ext);
  }

  /** Both extensions are already in lower case. */
  lemma LowerExtensions()
    ensures Lower(".json") == ".json" && Lower(".lua") == ".lua"
  {
    var json, lua := ".json", ".lua";
    assert json[0] == '.' && json[1] == 'j' && json[2] == 's' && json[3] == 'o' && json[4] == 'n';
    assert lua[0] == '.' && lua[1] == 'l' && lua[2] == 'u' && lua[3] == 'a';
    LowerKeeps(json);
    LowerKeeps(lua);
  }

  /** The fallback id of a `.json` or `.lua` name is its stem. */
  lemma StemId(data: Value, base: string, ext: string)
    requires !Truthy(Prop(data, "id"))
    requires ext == ".json" || ext == ".lua"
    requires EndsWith(base, ext) && |ext| < |base| && Extname(base) == ext
    ensures var stem := BasenameWithout(base, ext);
            FallbackId(data, base) == Str(stem) && stem != "" && stem + ext == base
  {
    var stem := BasenameWithout(base, ext);
    if ext == ".json" {
      LowerExtensions();
      assert Lower(Extname(base)) == ".json";
      assert FallbackId(data, base) == Or(Prop(data, "id"), Str(stem));
    } else {
      LowerExtensions();
      assert Lower(Extname(base)) == ".lua";
      assert FallbackId(data, base) == Or(Prop(data, "id"), Str(stem));
    }
  }

  /** `isValidJsonMod`: an object with truthy `id`, `name` and `description`
      (arrays are objects to `typeof` but have none of these). */
  predicate IsValidJsonMod(v: Value) {
    v.Obj? && Truthy(Prop(v, "id")) && Truthy(Prop(v, "name")) && Truthy(Prop(v, "description"))
  }

  /** The descriptor of a valid manifest keeps the manifest's id, name and
      description. */
  lemma ValidManifestFields(modsDir: Path, filePath: Path, data: Value, isEnabled: bool)
    requires IsValidJsonMod(data)
    ensures var r := GetModInfo(modsDir, filePath, data, isEnabled).fields;
            r["id"] == data.fields["id"] && r["name"] == data.fields["name"]
            && r["description"] == data.fields["description"]
  {
  }
}
