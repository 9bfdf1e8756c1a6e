/** Installing a mod from GitHub (`install-mod`, `installMod`,
    `installSmods`, `installLovely`): download, unpack, name the folder,
    move it into the mods folder and stamp its sidecar with where it came
    from. The network, the zip library, the temporary names of `deleteFile`
    and the rescan by the loader are inputs. */
module Install {
  import opened Wrappers
  import opened JsValues
  import opened Text
  import opened Paths
  import opened Descriptors
  import opened FsTree
  import opened FileOps
  import opened Archives
  import opened GitHub

  /** The folders the main process works with: its `modsDir`, `gameDir` and
      `zippedDir`, and the mods folder the loader last scanned (the loader
      keeps its own copy, which `getModInfo` resolves paths against). */
  datatype Places = Places(modsDir: Path, gameDir: Path, zippedDir: Path, loaderDir: Path)

  /** Everything outside the disk an install depends on. */
  datatype World = World(
    commit: (string, Option<Value>) -> CommitReply,  // the commits API
    archive: Value -> Transfer,                      // downloads
    parse: string -> Option<Value>,                  // `JSON.parse`
    tempName: Path -> string,                        // `deleteFile`'s random suffix
    rescan: Fs -> Fs)                                // `loadMods(loadConfig())`

  /** `v == word` for a word that is not numeric text (`lovely`,
      `steamodded`), which no number or boolean equals: a string compares by
      its text, an array or object by its `String`. */
  predicate LooselyEquals(v: Value, word: string) {
    (v.Str? || v.Arr? || v.Obj?) && ToText(v) == word
  }

  /** `path.join(zippedDir, `${mod.name}.zip`)`, the name kept as one
      segment even when it holds `/`. */
  function ZipPath(pl: Places, mod: Value): Path {
    pl.zippedDir + [ToText(Prop(mod, "name")) + ".zip"]
  }

  /** The archive `installMod` downloads for a branch: a truthy
      `specialDownload` replaces the branch archive, except for `lovely`. */
  function ArchiveUrl(githubUrl: string, mod: Value, branch: string): Value {
    var special := Prop(mod, "specialDownload");
    if Truthy(special) && !StrictEquals(Prop(mod, "id"), Str("lovely")) then special
    else Str(githubUrl + "/archive/refs/heads/" + branch + ".zip")
  }

  // ---------------------------------------------------------------------
  // The folder name

  /** `[a-zA-Z0-9]` */
  predicate IsAlnum(c: char) {
    ('a' <= c <= 'z') || ('A' <= c <= 'Z') || ('0' <= c <= '9')
  }

  /** Where the run of alphanumerics that ends at `end` starts. */
  function AlnumRunStart(s: string, end: nat): (j: nat)
    requires end <= |s|
    decreases end
    ensures j <= end && forall k :: j <= k < end ==> IsAlnum(s[k])
    ensures j == 0 || !IsAlnum(s[j - 1])
  {
    if end > 0 && IsAlnum(s[end - 1]) then AlnumRunStart(s, end - 1) else end
  }

  /** The capture of `/\/archive\/([a-zA-Z0-9]+)\.zip$/` in `url`. */
  function ArchiveToken(url: string): Option<string> {
    if !EndsWith(url, ".zip") then None
    else
      var end := |url| - 4;
      var j := AlnumRunStart(url, end);
      if j < end && EndsWith(url[..j], "/archive/") then Some(url[j..end]) else None
  }

  /** A URL ending with `/archive/`, a non-empty alphanumeric token and
      `.zip` yields that token. */
  lemma TokenFound(url: string, t: string)
    requires t != "" && (forall k :: 0 <= k < |t| ==> IsAlnum(t[k]))
    requires EndsWith(url, "/archive/" + t + ".zip")
    ensures ArchiveToken(url) == Some(t)
  {
    var tail := "/archive/" + t + ".zip";
    var pre := url[..|url| - |tail|];
    assert url == pre + "/archive/" + t + ".zip";
    var end := |url| - 4;
    var start := |pre| + 9;
    assert url[end..] == ".zip";
    assert forall k :: start <= k < end ==> url[k] == t[k - start];
    assert url[start - 1] == '/';
    var j := AlnumRunStart(url, end);
    assert j == start;
    assert url[..j] == pre + "/archive/";
    assert url[j..end] == t;
  }

  /** The token is found exactly when the URL ends with `/archive/`, a
      non-empty alphanumeric token and `.zip`. */
  lemma ArchiveTokenMatches(url: string, t: string)
    ensures ArchiveToken(url) == Some(t) <==>
            t != "" && (forall k :: 0 <= k < |t| ==> IsAlnum(t[k])) && EndsWith(url, "/archive/" + t + ".zip")
  {
    if t != "" && (forall k :: 0 <= k < |t| ==> IsAlnum(t[k])) && EndsWith(url, "/archive/" + t + ".zip") {
      TokenFound(url, t);
    }
    if ArchiveToken(url) == Some(t) {
      TokenShape(url);
    }
  }

  /** A found token is a non-empty alphanumeric run between `/archive/` and
      the closing `.zip`. */
  lemma TokenShape(url: string)
    requires ArchiveToken(url).Some?
    ensures var t := ArchiveToken(url).value;
            t != "" && (forall k :: 0 <= k < |t| ==> IsAlnum(t[k])) && EndsWith(url, "/archive/" + t + ".zip")
  {
    var t := ArchiveToken(url).value;
    var end := |url| - 4;
    var j := AlnumRunStart(url, end);
    assert url == url[..j] + url[j..end] + url[end..];
    assert url[end..] == ".zip";
    assert url[j..end] == t;
  }

  /** `s.replace(/(-main|-master)$/i, '')`: one trailing branch suffix, in
      any letter case. */
  function StripBranchSuffix(s: string): string {
    if EndsWith(Lower(s), "-main") then s[..|s| - 5]
    else if EndsWith(Lower(s), "-master") then s[..|s| - 7]
    else s
  }

  /** Lower-casing a concatenation lower-cases each part. */
  lemma LowerAppend(a: string, b: string)
    ensures Lower(a + b) == Lower(a) + Lower(b)
  {
  }

  /** A `-main` or `-master` suffix, in any case, is removed once; anything
      else is left alone. */
  lemma BranchSuffixRemoved(base: string, suffix: string)
    requires Lower(suffix) == "-main" || Lower(suffix) == "-master"
    ensures StripBranchSuffix(base + suffix) == base
  {
    LowerAppend(base, suffix);
    var s := base + suffix;
    assert Lower(s)[|s| - |suffix|..] == Lower(suffix);
    if Lower(suffix) == "-master" {
      assert !EndsWith(Lower(s), "-main") by {
        assert Lower(s)[|s| - 1] == 'r';
      }
    }
    assert s[..|s| - |suffix|] == base;
  }

  lemma BranchSuffixKept(s: string)
    requires !EndsWith(Lower(s), "-main") && !EndsWith(Lower(s), "-master")
    ensures StripBranchSuffix(s) == s
  {
  }

  /** Only the last suffix goes: `mod-main-MAIN` becomes `mod-main`. */
  lemma BranchSuffixOnce()
    ensures StripBranchSuffix("mod-main-MAIN") == "mod-main"
  {
    var l := Lower("-MAIN");
    assert l[0] == '-' && l[1] == 'm' && l[2] == 'a' && l[3] == 'i' && l[4] == 'n';
    assert l == "-main";
    BranchSuffixRemoved("mod-main", "-MAIN");
    assert "mod-main" + "-MAIN" == "mod-main-MAIN";
  }

  /** `s.replace(new RegExp(`${suffix}$`), '')` for a suffix without
      pattern characters. */
  function StripSuffix(s: string, suffix: string): (r: string)
    ensures EndsWith(s, suffix) ==> r + suffix == s
    ensures !EndsWith(s, suffix) ==> r == s
  {
    if EndsWith(s, suffix) then s[..|s| - |suffix|] else s
  }

  /** `path.basename` of the sanitised path of the extracted folder: its
      last segment without the suffix (the pattern cannot reach across a
      separator), or the parent's name when nothing of it is left. */
  function SanitizedName(extracted: Path, special: Value): (r: Result<string>)
    ensures Truthy(special) && (!special.Str? || ArchiveToken(special.s).None?) <==> r.Err?
  {
    var last := Basename(extracted);
    var stripped :-
      if !Truthy(special) then Ok(StripBranchSuffix(last))
      else if !special.Str? then Err("mod.specialDownload.match is not a function")
      else
        match ArchiveToken(special.s)
        case None => Err("Cannot read properties of null (reading '1')")
        case Some(t) => Ok(StripSuffix(last, "-" + t));
    Ok(if stripped != "" then stripped else Basename(Dirname(extracted)))
  }

  /** `path.join(dir, name)` */
  function JoinName(dir: Path, name: string): Path {
    if name == "" then dir else dir + [name]
  }

  // ---------------------------------------------------------------------
  // Moving the extracted folder into place

  /** The end of `installMod`: rename the extracted folder to `target` only
      when nothing is there yet, remove the folder it was unpacked in, and
      delete the archive if it is still there. */
  function RelocateFs(fs: Fs, extracted: Path, target: Path, zip: Path, suffix: string): (Result<Path>, Fs) {
    match (if Exists(fs, target) then Some(fs) else RenameFs(fs, extracted, target))
    case None => (Err("Error moving the extracted folder"), fs)
    case Some(moved) =>
      match RmdirFs(moved, Dirname(extracted))
      case None => (Err("ENOTEMPTY: directory not empty, rmdir"), moved)
      case Some(cleared) =>
        if !Exists(cleared, zip) then (Ok(target), cleared)
        else
          var (d, after) := DeleteFileFs(cleared, zip, suffix);
          if d.Err? then (Err(d.message), after) else (Ok(target), after)
  }

  /** A folder that is already in place is never replaced: the rename is
      skipped, the extracted folder keeps its parent from being removed, and
      the install fails with the disk as it was. */
  lemma RelocateKeepsExisting(fs: Fs, extracted: Path, target: Path, zip: Path, suffix: string)
    requires extracted != [] && Exists(fs, target) && Exists(fs, extracted)
    ensures RelocateFs(fs, extracted, target, zip, suffix) == (Err("ENOTEMPTY: directory not empty, rmdir"), fs)
  {
    var parent := Dirname(extracted);
    LookupAppend(fs, parent, [Basename(extracted)]);
    assert [Basename(extracted)][1..] == [];
    assert Lookup(fs, parent).Some? && Lookup(fs, parent).value.DirNode?;
    assert Basename(extracted) in Lookup(fs, parent).value.entries;
  }

  /** When nothing is in place, the extracted folder ends up at `target`
      (provided the folders involved lie apart from it). */
  lemma RelocateMoves(fs: Fs, extracted: Path, target: Path, zip: Path, suffix: string)
    requires extracted != [] && target != [] && zip != [] && !Exists(fs, target)
    requires Apart(Dirname(extracted), target) && Apart(zip, target) && Apart(TempPath(zip, suffix), target)
    requires RelocateFs(fs, extracted, target, zip, suffix).0.Ok?
    ensures Lookup(RelocateFs(fs, extracted, target, zip, suffix).1, target) == Lookup(fs, extracted)
  {
    var n := Lookup(fs, extracted).value;
    var rest := Remove(fs, extracted).value;
    var moved := Put(rest, target, n).value;
    LookupPut(rest, target, n);
    var parent := Dirname(extracted);
    assert parent != [] by {
      assert RmdirFs(moved, parent).Some?;
    }
    var cleared := RmdirFs(moved, parent).value;
    LookupRemoveApart(moved, parent, target);
    if Exists(cleared, zip) {
      DeleteFileApart(cleared, zip, suffix, target);
    }
  }

  // ---------------------------------------------------------------------
  // installMod, installSmods, installLovely

  /** The download step of `installMod`: `main` first, `master` only when
      that fails. */
  function FetchArchiveFs(fs: Fs, zip: Path, githubUrl: string, mod: Value, world: World): (Result<()>, Fs) {
    var (onMain, afterMain) := DownloadFs(fs, ArchiveUrl(githubUrl, mod, "main"), zip, world.archive);
    if onMain.Ok? then (onMain, afterMain)
    else DownloadFs(afterMain, ArchiveUrl(githubUrl, mod, "master"), zip, world.archive)
  }

  /** What the `master` archive is does not matter once `main` was served. */
  lemma ArchiveFallback(fs: Fs, zip: Path, githubUrl: string, mod: Value, world: World, other: Value -> Transfer)
    requires DownloadFs(fs, ArchiveUrl(githubUrl, mod, "main"), zip, world.archive).0.Ok?
    requires other(ArchiveUrl(githubUrl, mod, "main")) == world.archive(ArchiveUrl(githubUrl, mod, "main"))
    ensures FetchArchiveFs(fs, zip, githubUrl, mod, world.(archive := other))
            == FetchArchiveFs(fs, zip, githubUrl, mod, world)
    ensures FetchArchiveFs(fs, zip, githubUrl, mod, world).0.Ok?
  {
  }

  /** `installMod(mod, githubUrl)` */
  function InstallModFs(fs: Fs, pl: Places, mod: Value, githubUrl: string, world: World): (Result<Path>, Fs) {
    var zip := ZipPath(pl, mod);
    var (d, fs1) := FetchArchiveFs(fs, zip, githubUrl, mod, world);
    if d.Err? then (Err(d.message), fs1)
    else
      var (u, fs2) := UnzipFs(fs1, zip, pl.zippedDir);
      if u.Err? then (Err(u.message), fs2)
      else
        match SanitizedName(u.value, Prop(mod, "specialDownload"))
        case Err(e) => (Err(e), fs2)
        case Ok(name) => RelocateFs(fs2, u.value, JoinName(pl.modsDir, name), zip, world.tempName(zip))
  }

  /** The sidecar `installSmods` and `installLovely` write for `folder`. */
  function OwnSidecar(pl: Places, folder: Path, mod: Value): Content {
    Json(Jsonify(Arr([GetModInfo(pl.loaderDir, folder, mod, true)])))
  }

  /** Create `folder` with its ancestors unless something is there. */
  function EnsureFolderFs(fs: Fs, folder: Path): Option<Fs> {
    if Exists(fs, folder) then Some(fs) else MkdirAllFs(fs, folder)
  }

  /** A folder of the loader's own (`smods`, `lovely`): created unless
      something is there, then given the sidecar `c`. */
  function OwnFolderFs(fs: Fs, folder: Path, c: Content): (Result<()>, Fs) {
    match EnsureFolderFs(fs, folder)
    case None => (Err("EEXIST: file already exists, mkdir"), fs)
    case Some(fs1) =>
      match WriteFs(fs1, folder + [".faro"], c)
      case None => (Err("EISDIR: illegal operation on a directory"), fs1)
      case Some(fs2) => (Ok(()), fs2)
  }

  /** The sidecar is there afterwards, describing `mod` as installed and
      enabled, with its special paths. */
  lemma OwnFolderSidecar(fs: Fs, pl: Places, folder: Path, mod: Value)
    requires OwnFolderFs(fs, folder, OwnSidecar(pl, folder, mod)).0.Ok?
    ensures var d := GetModInfo(pl.loaderDir, folder, mod, true);
            && Lookup(OwnFolderFs(fs, folder, OwnSidecar(pl, folder, mod)).1, folder + [".faro"]) == Some(FileNode(Json(Jsonify(Arr([d])))))
            && d.fields["installed"] == Bool(true) && d.fields["enabled"] == Bool(true)
            && (Truthy(Prop(mod, "specialPaths")) ==> d.fields["specialPaths"] == Prop(mod, "specialPaths"))
  {
    OwnFolderWrites(fs, folder, OwnSidecar(pl, folder, mod));
    GetModInfoDefaults(pl.loaderDir, folder, mod, true);
  }

  /** A successful `OwnFolderFs` leaves the sidecar it was given. */
  lemma OwnFolderWrites(fs: Fs, folder: Path, c: Content)
    requires OwnFolderFs(fs, folder, c).0.Ok?
    ensures Lookup(OwnFolderFs(fs, folder, c).1, folder + [".faro"]) == Some(FileNode(c))
  {
    var fs1 := EnsureFolderFs(fs, folder).value;
    LookupPut(fs1, folder + [".faro"], FileNode(c));
  }

  /** `installSmods(mod)`: a sidecar for `smods` written before the rescan. */
  function InstallSmodsFs(fs: Fs, pl: Places, mod: Value): (Result<()>, Fs) {
    OwnFolderFs(fs, pl.modsDir + ["smods"], OwnSidecar(pl, pl.modsDir + ["smods"], mod))
  }

  /** The `version.dll` step of `installLovely`: only when the game folder
      has none does the mod record it as its special path and the extracted
      one get moved there. */
  function PlaceVersionDllFs(fs: Fs, extracted: Path, dll: Path, mod: Value): (Result<Value>, Fs) {
    if Exists(fs, dll) then (Ok(mod), fs)
    else
      var recorded := SetProp(mod, "specialPaths", Arr([Str(PathString(dll))]));
      var source := extracted + ["version.dll"];
      if !Exists(fs, source) then (Ok(recorded), fs)
      else
        match RenameFs(fs, source, dll)
        case None => (Err("Error moving version.dll"), fs)
        case Some(moved) => (Ok(recorded), moved)
  }

  /** An existing `version.dll` is left alone and not recorded; a missing one
      is recorded, and the extracted one takes its place. */
  lemma VersionDllRule(fs: Fs, extracted: Path, dll: Path, mod: Value)
    requires mod.Obj? && dll != []
    ensures var (r, after) := PlaceVersionDllFs(fs, extracted, dll, mod);
            && (Exists(fs, dll) ==> r == Ok(mod) && after == fs)
            && (!Exists(fs, dll) && r.Ok? ==> Prop(r.value, "specialPaths") == Arr([Str(PathString(dll))]))
            && (!Exists(fs, dll) && r.Ok? && Exists(fs, extracted + ["version.dll"]) ==>
                  Lookup(after, dll) == Lookup(fs, extracted + ["version.dll"]))
  {
    var source := extracted + ["version.dll"];
    if !Exists(fs, dll) && Exists(fs, source) && RenameFs(fs, source, dll).Some? {
      LookupPut(Remove(fs, source).value, dll, Lookup(fs, source).value);
    }
  }

  /** The clean-up of `installLovely`: the extracted folder goes if it is
      empty, the archive goes if it is still there. */
  function LovelyCleanupFs(fs: Fs, extracted: Path, zip: Path): (Result<()>, Fs) {
    var tidy :=
      match Lookup(fs, extracted)
      case Some(DirNode(es)) =>
        if es == map[] && extracted != [] then (LookupRemove(fs, extracted); Remove(fs, extracted).value) else fs
      case _ => fs;
    if !Exists(tidy, zip) then (Ok(()), tidy)
    else
      match UnlinkFs(tidy, zip)
      case None => (Err("EPERM: operation not permitted, unlink"), tidy)
      case Some(after) => (Ok(()), after)
  }

  /** What `installLovely` does once the archive is unpacked at
      `extracted`: the `version.dll` step, the clean-up, and the `lovely`
      folder with its sidecar. */
  function LovelyPlaceFs(fs: Fs, pl: Places, mod: Value, extracted: Path, zip: Path): (Result<Path>, Value, Fs) {
    var (placed, fs1) := PlaceVersionDllFs(fs, extracted, pl.gameDir + ["version.dll"], mod);
    if placed.Err? then (Err(placed.message), mod, fs1)
    else
      var mod1 := placed.value;
      var (c, fs2) := LovelyCleanupFs(fs1, extracted, zip);
      if c.Err? then (Err(c.message), mod1, fs2)
      else
        var (w, fs3) := OwnFolderFs(fs2, pl.modsDir + ["lovely"], OwnSidecar(pl, pl.modsDir + ["lovely"], mod1));
        if w.Err? then (Err(w.message), mod1, fs3) else (Ok(pl.modsDir + ["lovely"]), mod1, fs3)
  }

  /** `installLovely(mod)`; also gives back `mod` as the function leaves it. */
  function InstallLovelyFs(fs: Fs, pl: Places, mod: Value, world: World): (Result<Path>, Value, Fs) {
    var zip := ZipPath(pl, mod);
    var (d, fs1) := DownloadFs(fs, Prop(mod, "specialDownload"), zip, world.archive);
    if d.Err? then (Err(d.message), mod, fs1)
    else
      var (u, fs2) := UnzipFs(fs1, zip, pl.zippedDir);
      if u.Err? then (Err(u.message), mod, fs2)
      else LovelyPlaceFs(fs2, pl, mod, u.value, zip)
  }

  /** A successful lovely install ends with `mods/lovely` holding a sidecar
      whose one descriptor is installed, enabled, and lists the special paths
      the mod has after the `version.dll` step. */
  lemma LovelySidecar(fs: Fs, pl: Places, mod: Value, extracted: Path, zip: Path)
    requires LovelyPlaceFs(fs, pl, mod, extracted, zip).0.Ok?
    ensures var (r, mod1, after) := LovelyPlaceFs(fs, pl, mod, extracted, zip);
            var d := GetModInfo(pl.loaderDir, r.value, mod1, true);
            && r.value == pl.modsDir + ["lovely"]
            && Lookup(after, r.value + [".faro"]) == Some(FileNode(Json(Jsonify(Arr([d])))))
            && d.fields["installed"] == Bool(true) && d.fields["enabled"] == Bool(true)
            && (Truthy(Prop(mod1, "specialPaths")) ==> d.fields["specialPaths"] == Prop(mod1, "specialPaths"))
  {
    var mod1 := PlaceVersionDllFs(fs, extracted, pl.gameDir + ["version.dll"], mod).0.value;
    var fs1 := PlaceVersionDllFs(fs, extracted, pl.gameDir + ["version.dll"], mod).1;
    var fs2 := LovelyCleanupFs(fs1, extracted, zip).1;
    OwnFolderSidecar(fs2, pl, pl.modsDir + ["lovely"], mod1);
  }

  // ---------------------------------------------------------------------
  // Stamping the sidecar

  /** One entry after the four assignments of the stamp: an object takes
      them; any other value (a string, a number, an array) is left as it
      was, as sloppy-mode assignment to it does nothing that JSON keeps. */
  function Stamped(item: Value, mod: Value, hash: Fingerprint): Value {
    if item.Obj? then
      Obj(item.fields["github" := Prop(mod, "github")]
                     ["specialDownload" := Prop(mod, "specialDownload")]
                     ["sha" := hash.sha]["etag" := hash.etag])
    else item
  }

  /** The sidecar's entries: an array as it is, anything else wrapped. */
  function Entries(v: Value): (r: seq<Value>)
    ensures v.Arr? ==> r == v.items
    ensures !v.Arr? ==> r == [v]
  {
    if v.Arr? then v.items else [v]
  }

  /** The `forEach` of the stamp: a `null` or `undefined` entry throws. */
  function StampAll(items: seq<Value>, mod: Value, hash: Fingerprint): Result<seq<Value>> {
    if exists i :: 0 <= i < |items| && Nullish(items[i]) then Err("Cannot set properties of null")
    else Ok(seq(|items|, i requires 0 <= i < |items| => Stamped(items[i], mod, hash)))
  }

  /** Every object entry gets this install's `github`, `specialDownload`,
      `sha` and `etag`, and keeps every other field; other entries stay as
      they were; the stamp fails exactly on a `null` or `undefined` entry. */
  lemma StampRule(items: seq<Value>, mod: Value, hash: Fingerprint)
    ensures StampAll(items, mod, hash).Ok? <==> forall i :: 0 <= i < |items| ==> !Nullish(items[i])
    ensures StampAll(items, mod, hash).Ok? ==>
              var out := StampAll(items, mod, hash).value;
              && |out| == |items|
              && forall i :: 0 <= i < |items| ==>
                   if items[i].Obj? then
                     && out[i].Obj?
                     && out[i].fields["github"] == Prop(mod, "github")
                     && out[i].fields["specialDownload"] == Prop(mod, "specialDownload")
                     && out[i].fields["sha"] == hash.sha && out[i].fields["etag"] == hash.etag
                     && out[i].fields.Keys == items[i].fields.Keys + {"github", "specialDownload", "sha", "etag"}
                     && forall k :: k in items[i].fields && k !in {"github", "specialDownload", "sha", "etag"} ==>
                                      out[i].fields[k] == items[i].fields[k]
                   else out[i] == items[i]
  {
  }

  /** The stamp, entry by entry. */
  method Stamp(items: seq<Value>, mod: Value, hash: Fingerprint) returns (r: Result<seq<Value>>)
    ensures r == StampAll(items, mod, hash)
  {
    var out: seq<Value> := [];
    var i := 0;
    while i < |items|
      invariant 0 <= i <= |items|
      invariant forall j :: 0 <= j < i ==> !Nullish(items[j])
      invariant out == seq(i, j requires 0 <= j < i => Stamped(items[j], mod, hash))
    {
      if Nullish(items[i]) {
        return Err("Cannot set properties of null");
      }
      out := out + [Stamped(items[i], mod, hash)];
      i := i + 1;
    }
    return Ok(out);
  }

  /** `JSON.parse(await readFile(p))`: a file written as JSON reads back as
      the value written. */
  function ReadJson(fs: Fs, p: Path, parse: string -> Option<Value>): Result<Value> {
    match Lookup(fs, p)
    case Some(FileNode(Json(v))) => Ok(v)
    case Some(FileNode(Raw(text))) =>
      (match parse(text)
       case None => Err("Unexpected token in JSON")
       case Some(v) => Ok(v))
    case Some(FileNode(Archive(_))) => Err("Unexpected token in JSON")
    case Some(DirNode(_)) => Err("EISDIR: illegal operation on a directory, read")
    case None => Err("ENOENT: no such file or directory")
  }

  // ---------------------------------------------------------------------
  // The install-mod handler

  const Lovely: string := "lovely"
  const Steamodded: string := "steamodded"

  /** Lovely or an ordinary mod, then the extra `smods` sidecar. */
  function PlaceModFs(fs: Fs, pl: Places, mod: Value, githubUrl: string, world: World): (Result<Path>, Fs) {
    if LooselyEquals(Prop(mod, "id"), Lovely) then
      var (r, _, after) := InstallLovelyFs(fs, pl, mod, world);
      (r, after)
    else OrdinaryModFs(fs, pl, mod, githubUrl, world, OwnSidecar(pl, pl.modsDir + ["smods"], mod))
  }

  /** An ordinary mod, and for `smods` its extra sidecar: the `installSmods`
      step of `InstallSmodsFs`, with the sidecar it writes given. */
  function OrdinaryModFs(fs: Fs, pl: Places, mod: Value, githubUrl: string, world: World, sidecar: Content): (Result<Path>, Fs) {
    var (r, fs1) := InstallModFs(fs, pl, mod, githubUrl, world);
    if r.Err? || !LooselyEquals(Prop(mod, "id"), Steamodded) then (r, fs1)
    else
      var (s, fs2) := OwnFolderFs(fs1, pl.modsDir + ["smods"], sidecar);
      if s.Err? then (Err(s.message), fs2) else (r, fs2)
  }

  /** Read the installed folder's sidecar, stamp it and write it back. */
  function StampSidecarFs(fs: Fs, folder: Path, mod: Value, hash: Fingerprint, world: World): (Result<Path>, Fs) {
    var faro := folder + [".faro"];
    match ReadJson(fs, faro, world.parse)
    case Err(e) => (Err(e), fs)
    case Ok(data) =>
      match StampAll(Entries(data), mod, hash)
      case Err(e) => (Err(e), fs)
      case Ok(stamped) =>
        match WriteFs(fs, faro, Json(Jsonify(Arr(stamped))))
        case None => (Err("EISDIR: illegal operation on a directory, open"), fs)
        case Some(after) => (Ok(folder), after)
  }

  /** The `install-mod` handler: the repository, the fingerprint, the
      install, the rescan and the stamp, failing at the first error. */
  function InstallHandlerFs(fs: Fs, pl: Places, mod: Value, world: World): (Result<Path>, Fs) {
    match InstallRepo(Prop(mod, "github"))
    case Err(e) => (Err(e), fs)
    case Ok(repo) =>
      match FetchHash(repo, mod, world.commit)
      case Err(e) => (Err(e), fs)
      case Ok(hash) =>
        var (r, fs1) := PlaceModFs(fs, pl, mod, Prop(mod, "github").s, world);
        if r.Err? then (r, fs1)
        else StampSidecarFs(world.rescan(fs1), r.value, mod, hash, world)
  }

  /** After a successful install, the installed folder's sidecar holds the
      stamped entries of what the rescan left there. */
  lemma InstallStamps(fs: Fs, pl: Places, mod: Value, world: World)
    requires InstallHandlerFs(fs, pl, mod, world).0.Ok?
    ensures var (r, after) := InstallHandlerFs(fs, pl, mod, world);
            var repo := InstallRepo(Prop(mod, "github")).value;
            var hash := FetchHash(repo, mod, world.commit).value;
            var placed := PlaceModFs(fs, pl, mod, Prop(mod, "github").s, world);
            var read := ReadJson(world.rescan(placed.1), r.value + [".faro"], world.parse);
            && placed.0 == Ok(r.value)
            && read.Ok? && StampAll(Entries(read.value), mod, hash).Ok?
            && Lookup(after, r.value + [".faro"])
               == Some(FileNode(Json(Jsonify(Arr(StampAll(Entries(read.value), mod, hash).value)))))
  {
    var (r, after) := InstallHandlerFs(fs, pl, mod, world);
    var repo := InstallRepo(Prop(mod, "github")).value;
    var hash := FetchHash(repo, mod, world.commit).value;
    var placed := PlaceModFs(fs, pl, mod, Prop(mod, "github").s, world);
    var rescanned := world.rescan(placed.1);
    var read := ReadJson(rescanned, r.value + [".faro"], world.parse);
    var stamped := StampAll(Entries(read.value), mod, hash).value;
    LookupPut(rescanned, r.value + [".faro"], FileNode(Json(Jsonify(Arr(stamped)))));
  }

  // ---------------------------------------------------------------------
  // The same, step by step on the disk

  /** The download step of `installMod`: `main`, then `master`. */
  method FetchArchive(disk: Disk, zip: Path, githubUrl: string, mod: Value, world: World) returns (r: Result<()>)
    modifies disk
    ensures (r, disk.root) == FetchArchiveFs(old(disk.root), zip, githubUrl, mod, world)
  {
    r := Download(disk, ArchiveUrl(githubUrl, mod, "main"), zip, world.archive);
    if r.Err? {
      r := Download(disk, ArchiveUrl(githubUrl, mod, "master"), zip, world.archive);
    }
  }

  /** The end of `installMod`: move the extracted folder into place, remove
      the unpack folder and the archive. */
  method Relocate(disk: Disk, extracted: Path, target: Path, zip: Path, suffix: string) returns (r: Result<Path>)
    modifies disk
    ensures (r, disk.root) == RelocateFs(old(disk.root), extracted, target, zip, suffix)
  {
    if disk.Find(target).None? {
      var moved := disk.Rename(extracted, target);
      if !moved {
        return Err("Error moving the extracted folder");
      }
    }
    var cleared := disk.Rmdir(Dirname(extracted));
    if !cleared {
      return Err("ENOTEMPTY: directory not empty, rmdir");
    }
    if disk.Find(zip).Some? {
      var deleted := DeleteFile(disk, zip, suffix);
      if deleted.Err? {
        return Err(deleted.message);
      }
    }
    return Ok(target);
  }

  /** `installMod(mod, githubUrl)` */
  method InstallMod(disk: Disk, pl: Places, mod: Value, githubUrl: string, world: World) returns (r: Result<Path>)
    modifies disk
    ensures (r, disk.root) == InstallModFs(old(disk.root), pl, mod, githubUrl, world)
  {
    var zip := ZipPath(pl, mod);
    var d := FetchArchive(disk, zip, githubUrl, mod, world);
    if d.Err? {
      return Err(d.message);
    }
    var u := Unzip(disk, zip, pl.zippedDir);
    if u.Err? {
      return Err(u.message);
    }
    var name := SanitizedName(u.value, Prop(mod, "specialDownload"));
    if name.Err? {
      return Err(name.message);
    }
    r := Relocate(disk, u.value, JoinName(pl.modsDir, name.value), zip, world.tempName(zip));
  }

  /** Create `folder` with its ancestors unless something is there. */
  method EnsureFolder(disk: Disk, folder: Path) returns (ok: bool)
    modifies disk
    ensures ok == EnsureFolderFs(old(disk.root), folder).Some?
    ensures disk.root == (if ok then EnsureFolderFs(old(disk.root), folder).value else old(disk.root))
  {
    if disk.Find(folder).Some? {
      return true;
    }
    ok := disk.MkdirAll(folder);
  }

  /** A folder of the loader's own with its sidecar. */
  method OwnFolder(disk: Disk, folder: Path, c: Content) returns (r: Result<()>)
    modifies disk
    ensures (r, disk.root) == OwnFolderFs(old(disk.root), folder, c)
  {
    var made := EnsureFolder(disk, folder);
    if !made {
      return Err("EEXIST: file already exists, mkdir");
    }
    var written := disk.Write(folder + [".faro"], c);
    if !written {
      return Err("EISDIR: illegal operation on a directory");
    }
    return Ok(());
  }

  /** `installSmods(mod)` */
  method InstallSmods(disk: Disk, pl: Places, mod: Value) returns (r: Result<()>)
    modifies disk
    ensures (r, disk.root) == InstallSmodsFs(old(disk.root), pl, mod)
  {
    r := OwnFolder(disk, pl.modsDir + ["smods"], OwnSidecar(pl, pl.modsDir + ["smods"], mod));
  }

  /** The `version.dll` step of `installLovely`. */
  method PlaceVersionDll(disk: Disk, extracted: Path, dll: Path, mod: Value) returns (r: Result<Value>)
    modifies disk
    ensures (r, disk.root) == PlaceVersionDllFs(old(disk.root), extracted, dll, mod)
  {
    if disk.Find(dll).Some? {
      return Ok(mod);
    }
    var recorded := SetProp(mod, "specialPaths", Arr([Str(PathString(dll))]));
    var source := extracted + ["version.dll"];
    if disk.Find(source).Some? {
      var moved := disk.Rename(source, dll);
      if !moved {
        return Err("Error moving version.dll");
      }
    }
    return Ok(recorded);
  }

  /** The clean-up of `installLovely`. */
  method LovelyCleanup(disk: Disk, extracted: Path, zip: Path) returns (r: Result<()>)
    modifies disk
    ensures (r, disk.root) == LovelyCleanupFs(old(disk.root), extracted, zip)
  {
    var found := disk.Find(extracted);
    if found.Some? && found.value.DirNode? && found.value.entries == map[] && extracted != [] {
      LookupRemove(disk.root, extracted);
      var _ := disk.Rmdir(extracted);
    }
    if disk.Find(zip).Some? {
      var unlinked := disk.Unlink(zip);
      if !unlinked {
        return Err("EPERM: operation not permitted, unlink");
      }
    }
    return Ok(());
  }

  /** The rest of `installLovely` once the archive is unpacked. */
  method LovelyPlace(disk: Disk, pl: Places, mod: Value, extracted: Path, zip: Path) returns (r: Result<Path>, mod1: Value)
    modifies disk
    ensures (r, mod1, disk.root) == LovelyPlaceFs(old(disk.root), pl, mod, extracted, zip)
  {
    var placed := PlaceVersionDll(disk, extracted, pl.gameDir + ["version.dll"], mod);
    if placed.Err? {
      return Err(placed.message), mod;
    }
    mod1 := placed.value;
    var c := LovelyCleanup(disk, extracted, zip);
    if c.Err? {
      return Err(c.message), mod1;
    }
    var w := OwnFolder(disk, pl.modsDir + ["lovely"], OwnSidecar(pl, pl.modsDir + ["lovely"], mod1));
    if w.Err? {
      return Err(w.message), mod1;
    }
    return Ok(pl.modsDir + ["lovely"]), mod1;
  }

  /** `installLovely(mod)`; `mod` comes back as the function leaves it. */
  method InstallLovely(disk: Disk, pl: Places, mod: Value, world: World) returns (r: Result<Path>, mod1: Value)
    modifies disk
    ensures (r, mod1, disk.root) == InstallLovelyFs(old(disk.root), pl, mod, world)
  {
    var zip := ZipPath(pl, mod);
    var d := Download(disk, Prop(mod, "specialDownload"), zip, world.archive);
    if d.Err? {
      return Err(d.message), mod;
    }
    var u := Unzip(disk, zip, pl.zippedDir);
    if u.Err? {
      return Err(u.message), mod;
    }
    r, mod1 := LovelyPlace(disk, pl, mod, u.value, zip);
  }

  /** Lovely or an ordinary mod, then the extra `smods` sidecar. */
  method PlaceMod(disk: Disk, pl: Places, mod: Value, githubUrl: string, world: World) returns (r: Result<Path>)
    modifies disk
    ensures (r, disk.root) == PlaceModFs(old(disk.root), pl, mod, githubUrl, world)
  {
    if LooselyEquals(Prop(mod, "id"), Lovely) {
      var mod1;
      r, mod1 := InstallLovely(disk, pl, mod, world);
      return;
    }
    r := OrdinaryMod(disk, pl, mod, githubUrl, world, OwnSidecar(pl, pl.modsDir + ["smods"], mod));
  }

  /** `installMod`, then for `smods` its extra sidecar (`sidecar` is what
      `installSmods` writes, `OwnSidecar` of the `smods` folder). */
  method OrdinaryMod(disk: Disk, pl: Places, mod: Value, githubUrl: string, world: World, sidecar: Content) returns (r: Result<Path>)
    modifies disk
    ensures (r, disk.root) == OrdinaryModFs(old(disk.root), pl, mod, githubUrl, world, sidecar)
  {
    r := InstallMod(disk, pl, mod, githubUrl, world);
    if r.Ok? && LooselyEquals(Prop(mod, "id"), Steamodded) {
      var s := OwnFolder(disk, pl.modsDir + ["smods"], sidecar);
      if s.Err? {
        return Err(s.message);
      }
    }
  }

  /** Read, stamp and write back the installed folder's sidecar. */
  method StampSidecar(disk: Disk, folder: Path, mod: Value, hash: Fingerprint, world: World) returns (r: Result<Path>)
    modifies disk
    ensures (r, disk.root) == StampSidecarFs(old(disk.root), folder, mod, hash, world)
  {
    var faro := folder + [".faro"];
    var data := ReadJson(disk.root, faro, world.parse);
    if data.Err? {
      return Err(data.message);
    }
    var stamped := Stamp(Entries(data.value), mod, hash);
    if stamped.Err? {
      return Err(stamped.message);
    }
    var written := disk.Write(faro, Json(Jsonify(Arr(stamped.value))));
    if !written {
      return Err("EISDIR: illegal operation on a directory, open");
    }
    return Ok(folder);
  }

  /** The `install-mod` handler, step by step. */
  method InstallHandler(disk: Disk, pl: Places, mod: Value, world: World) returns (r: Result<Path>)
    modifies disk
    ensures (r, disk.root) == InstallHandlerFs(old(disk.root), pl, mod, world)
  {
    var repo := InstallRepo(Prop(mod, "github"));
    if repo.Err? {
      return Err(repo.message);
    }
    var hash := FetchHash(repo.value, mod, world.commit);
    if hash.Err? {
      return Err(hash.message);
    }
    r := PlaceMod(disk, pl, mod, Prop(mod, "github").s, world);
    if r.Err? {
      return;
    }
    disk.root := world.rescan(disk.root);
    r := StampSidecar(disk, r.value, mod, hash.value, world);
  }
}
