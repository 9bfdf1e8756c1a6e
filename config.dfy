/** The main process's settings: the game executable, the folder beside it
    and the mods folder, kept in memory and in a JSON config file. */
module Config {
  import opened Wrappers
  import opened JsValues
  import opened Text
  import opened Paths
  import opened FsTree

  // ---------------------------------------------------------------------
  // path.dirname on a path string

  /** Scanning down from `i` to 1, the index of the last separator that is
      followed by something other than a separator; -1 when there is none. */
  function DirEnd(s: string, i: int, matchedSlash: bool): (end: int)
    requires i < |s|
    decreases i
    ensures end == -1 || (1 <= end <= i && s[end] == '/')
  {
    if i < 1 then -1
    else if s[i] == '/' then (if !matchedSlash then i else DirEnd(s, i - 1, true))
    else DirEnd(s, i - 1, false)
  }

  /** `path.dirname(s)` as Node's POSIX implementation computes it. */
  function DirnameText(s: string): (d: string)
    ensures s == "" ==> d == "."
    ensures d != ""
  {
    if s == "" then "."
    else
      var end := DirEnd(s, |s| - 1, true);
      if end == -1 then (if s[0] == '/' then "/" else ".")
      else if s[0] == '/' && end == 1 then "//"
      else s[..end]
  }

  lemma {:induction false} DirEndRun(s: string, i: int, k: int)
    requires 0 <= k <= i < |s|
    requires k >= 1 ==> s[k] == '/'
    requires forall j :: k < j <= i ==> s[j] != '/'
    decreases i
    ensures DirEnd(s, i, false) == (if k >= 1 then k else -1)
  {
    if i > k {
      DirEndRun(s, i - 1, k);
    }
  }

  lemma {:induction false} JoinAppend(parts: seq<string>, x: string, sep: char)
    requires |parts| >= 1
    decreases |parts|
    ensures Join(parts + [x], sep) == Join(parts, sep) + [sep] + x
  {
    if |parts| > 1 {
      JoinAppend(parts[1..], x, sep);
      assert (parts + [x])[1..] == parts[1..] + [x];
    }
  }

  /** On the string form of a path with non-empty segments, the text-level
      `dirname` is the string form of the parent path, or `/` for a path
      one segment long. */
  lemma DirnameOfPathString(p: Path)
    requires p != [] && Segments(p)
    requires forall i :: 0 <= i < |p| ==> p[i] != ""
    ensures DirnameText(PathString(p)) == if |p| == 1 then "/" else PathString(Dirname(p))
  {
    var q := Dirname(p);
    var x := p[|p| - 1];
    assert [""] + p == ([""] + q) + [x];
    JoinAppend([""] + q, x, '/');
    var s := PathString(p);
    var head := PathString(q);
    assert s == head + "/" + x;
    var k := |head|;
    assert s[k] == '/';
    assert forall j :: k < j < |s| ==> s[j] == x[j - k - 1];
    assert '/' !in x;
    assert s[|s| - 1] != '/';
    DirEndRun(s, |s| - 2, k);
    if |q| == 0 {
      assert s[0] == '/';
    } else {
      assert Join([""] + q, '/') == "" + "/" + Join(q, '/');
      assert |Join(q, '/')| >= 1 by {
        assert q[0] == p[0];
        if |q| > 1 {
          assert Join(q, '/') == q[0] + "/" + Join(q[1..], '/');
        }
      }
      assert k >= 2;
      assert s[..k] == head;
    }
  }

  // ---------------------------------------------------------------------
  // The config file

  /** `{ gameExe, modsDir, autoUpdate: true }`, what a missing or unusable
      config file is replaced by. */
  function Defaults(gameExe: Value, modsDir: Value): Value {
    Obj(map["gameExe" := gameExe, "modsDir" := modsDir, "autoUpdate" := Bool(true)])
  }

  /** `saveConfig`'s new settings: a falsy argument keeps the current value. */
  function NewConfig(gameExe: Value, modsDir: Value, gamePath: Value, modPath: Value, autoUpdate: Value): Value {
    Obj(map["gameExe" := Or(gamePath, gameExe), "modsDir" := Or(modPath, modsDir), "autoUpdate" := autoUpdate])
  }

  /** The stored settings are used when they name a game and a mods folder
      and `autoUpdate` is a boolean. */
  predicate ValidConfig(c: Value) {
    Truthy(Prop(c, "gameExe")) && Truthy(Prop(c, "modsDir")) && Prop(c, "autoUpdate").Bool?
  }

  /** What reading and parsing the config file yields; None when either throws
      (a folder in its place, text that is not JSON). */
  function ReadConfig(fs: Fs, configPath: Path, parse: string -> Option<Value>): Option<Value> {
    match Lookup(fs, configPath)
    case Some(FileNode(Json(v))) => Some(v)
    case Some(FileNode(Raw(t))) => parse(t)
    case _ => None
  }

  datatype Startup = Startup(startup: bool, config: Value)

  /** `loadConfig()`: usable stored settings are returned as they are; anything
      else is replaced on disk by the defaults, and writing those may throw. */
  function LoadConfigFs(fs: Fs, configPath: Path, defaults: Value, parse: string -> Option<Value>): (r: (Result<Startup>, Fs))
    ensures var stored := ReadConfig(fs, configPath, parse);
            r.0.Ok? && r.0.value.startup <==> stored.Some? && ValidConfig(stored.value)
    ensures var stored := ReadConfig(fs, configPath, parse);
            stored.Some? && ValidConfig(stored.value) ==> r == (Ok(Startup(true, stored.value)), fs)
    ensures r.0.Ok? && r.0.value.startup ==> r.1 == fs && ValidConfig(r.0.value.config)
    ensures r.0.Ok? && !r.0.value.startup ==>
              r.0.value.config == defaults && ReadConfig(r.1, configPath, parse) == Some(Jsonify(defaults))
    ensures r.0.Err? ==> r.1 == fs
  {
    var stored := ReadConfig(fs, configPath, parse);
    if stored.Some? && ValidConfig(stored.value) then (Ok(Startup(true, stored.value)), fs)
    else
      match WriteFs(fs, configPath, Json(Jsonify(defaults)))
      case None => (Err("Error writing config"), fs)
      case Some(after) =>
        LookupPut(fs, configPath, FileNode(Json(Jsonify(defaults))));
        (Ok(Startup(false, defaults)), after)
  }

  /** The JSON round trip keeps what makes settings usable. */
  lemma JsonifyKeepsValidity(c: Value)
    requires c.Obj?
    ensures ValidConfig(Jsonify(c)) == ValidConfig(c)
  {
    var j := Jsonify(c);
    forall k | k in {"gameExe", "modsDir", "autoUpdate"}
      ensures Truthy(Prop(j, k)) == Truthy(Prop(c, k)) && Prop(j, k).Bool? == Prop(c, k).Bool?
    {
      if k in c.fields && !c.fields[k].Undefined? {
        assert Prop(j, k) == Jsonify(c.fields[k]);
      }
    }
    assert "gameExe" in {"gameExe", "modsDir", "autoUpdate"};
    assert "modsDir" in {"gameExe", "modsDir", "autoUpdate"};
    assert "autoUpdate" in {"gameExe", "modsDir", "autoUpdate"};
  }

  /** Settings written to the config file are accepted at the next start
      exactly when they are usable, and are then read back as written;
      otherwise the next start writes the defaults over them. */
  lemma SaveThenLoad(fs: Fs, configPath: Path, c: Value, defaults: Value, parse: string -> Option<Value>)
    requires c.Obj?
    requires WriteFs(fs, configPath, Json(Jsonify(c))).Some?
    ensures var saved := WriteFs(fs, configPath, Json(Jsonify(c))).value;
            var (r, after) := LoadConfigFs(saved, configPath, defaults, parse);
            && (ValidConfig(c) ==> r == Ok(Startup(true, Jsonify(c))) && after == saved)
            && (!ValidConfig(c) ==> r == Ok(Startup(false, defaults))
                                    && ReadConfig(after, configPath, parse) == Some(Jsonify(defaults)))
  {
    var saved := WriteFs(fs, configPath, Json(Jsonify(c))).value;
    LookupPut(fs, configPath, FileNode(Json(Jsonify(c))));
    assert ReadConfig(saved, configPath, parse) == Some(Jsonify(c));
    JsonifyKeepsValidity(c);
    if !ValidConfig(c) {
      assert IsDir(saved, Dirname(configPath)) by {
        PutKeepsOthers(fs, configPath, FileNode(Json(Jsonify(c))), Dirname(configPath));
        LookupPut(fs, configPath, FileNode(Json(Jsonify(c))));
      }
      assert !IsDir(saved, configPath);
      LookupPut(saved, configPath, FileNode(Json(Jsonify(defaults))));
    }
  }

  /** A start that wrote the defaults is followed by one that accepts them,
      provided the in-memory game path and mods folder are set. */
  lemma LoadConfigRepairs(fs: Fs, configPath: Path, gameExe: Value, modsDir: Value, parse: string -> Option<Value>)
    requires Truthy(gameExe) && Truthy(modsDir)
    requires LoadConfigFs(fs, configPath, Defaults(gameExe, modsDir), parse).0.Ok?
    ensures var (_, once) := LoadConfigFs(fs, configPath, Defaults(gameExe, modsDir), parse);
            LoadConfigFs(once, configPath, Defaults(gameExe, modsDir), parse).0
              == Ok(Startup(true, ReadConfig(once, configPath, parse).value))
  {
    var d := Defaults(gameExe, modsDir);
    var (r, once) := LoadConfigFs(fs, configPath, d, parse);
    if !r.value.startup {
      assert ValidConfig(d);
      SaveThenLoad(fs, configPath, d, d, parse);
    }
  }

  // ---------------------------------------------------------------------
  // The settings in memory

  class Settings {
    var gameExe: Value
    var gameDir: Value
    var modsDir: Value
    const configPath: Path
    const parse: string -> Option<Value>

    /** The start-up values: a default game path, the folder containing it,
        and a default mods folder. */
    constructor(gameExe: string, modsDir: string, configPath: Path, parse: string -> Option<Value>)
      ensures this.gameExe == Str(gameExe) && gameDir == Str(DirnameText(gameExe)) && this.modsDir == Str(modsDir)
      ensures this.configPath == configPath && this.parse == parse
    {
      this.gameExe := Str(gameExe);
      this.gameDir := Str(DirnameText(gameExe));
      this.modsDir := Str(modsDir);
      this.configPath := configPath;
      this.parse := parse;
    }

    /** `loadConfig()`: reads the settings, or rewrites the file with the
        in-memory ones; the in-memory settings stay as they are. */
    method LoadConfig(disk: Disk) returns (r: Result<Startup>)
      modifies disk
      ensures (r, disk.root) == LoadConfigFs(old(disk.root), configPath, Defaults(gameExe, modsDir), parse)
    {
      var stored := ReadConfig(disk.root, configPath, parse);
      if stored.Some? && ValidConfig(stored.value) {
        return Ok(Startup(true, stored.value));
      }
      var defaults := Defaults(gameExe, modsDir);
      var ok := disk.Write(configPath, Json(Jsonify(defaults)));
      if !ok {
        return Err("Error writing config");
      }
      return Ok(Startup(false, defaults));
    }

    /** `saveConfig(gamePath, modPath, autoUpdate)`: writes the new settings,
        then takes them over in memory; `path.dirname` throws on a game path
        that is not a string, after `gameExe` has been replaced. */
    method SaveConfig(disk: Disk, gamePath: Value, modPath: Value, autoUpdate: Value) returns (r: Result<Value>)
      modifies this, disk
      ensures var c := NewConfig(old(gameExe), old(modsDir), gamePath, modPath, autoUpdate);
              match WriteFs(old(disk.root), configPath, Json(Jsonify(c)))
              case None =>
                r.Err? && disk.root == old(disk.root) &&
                gameExe == old(gameExe) && gameDir == old(gameDir) && modsDir == old(modsDir)
              case Some(after) =>
                disk.root == after && gameExe == Prop(c, "gameExe") &&
                if gameExe.Str? then
                  r == Ok(c) && gameDir == Str(DirnameText(gameExe.s)) && modsDir == Prop(c, "modsDir")
                else
                  r.Err? && gameDir == old(gameDir) && modsDir == old(modsDir)
    {
      var c := NewConfig(gameExe, modsDir, gamePath, modPath, autoUpdate);
      var ok := disk.Write(configPath, Json(Jsonify(c)));
      if !ok {
        return Err("Error writing config");
      }
      gameExe := Prop(c, "gameExe");
      if !gameExe.Str? {
        return Err("The \"path\" argument must be of type string");
      }
      gameDir := Str(DirnameText(gameExe.s));
      modsDir := Prop(c, "modsDir");
      return Ok(c);
    }
  }
}
