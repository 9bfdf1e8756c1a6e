/** The main process's file handlers: `deleteFile` (rename, then unlink),
    `deleteDirectory`, and the `create-faro`, `create-file`, `delete-file` and
    `delete-special` handlers the renderer calls. Paths arrive as strings. */
module FileOps {
  import opened Wrappers
  import opened JsValues
  import opened Paths
  import opened FsTree

  /** `${filePath}.${random}`: the random part is given. */
  function TempPath(p: Path, suffix: string): (t: Path)
    requires p != []
    ensures Dirname(t) == Dirname(p) && |t| == |p| && t != p
  {
    var t := Dirname(p) + [Basename(p) + "." + suffix];
    assert t[|t| - 1] != p[|p| - 1];
    t
  }

  /** `deleteFile(filePath)`: rename to the temporary name, then unlink that. */
  function DeleteFileFs(fs: Fs, p: Path, suffix: string): (Result<()>, Fs) {
    if p == [] then (Err("Error deleting file: No file path provided"), fs)
    else
      match RenameFs(fs, p, TempPath(p, suffix))
      case None => (Err("Error deleting file: rename failed"), fs)
      case Some(renamed) =>
        match UnlinkFs(renamed, TempPath(p, suffix))
        case None => (Err("Error deleting file: unlink failed"), renamed)
        case Some(gone) => (Ok(()), gone)
  }

  /** With a fresh temporary name, deleting succeeds exactly on a file, and
      then is the same as removing it; on a folder the rename happens and the
      unlink fails, so the folder is left under its temporary name. */
  lemma DeleteFileIsRemove(fs: Fs, p: Path, suffix: string)
    requires p != [] && !Exists(fs, TempPath(p, suffix))
    ensures var (r, after) := DeleteFileFs(fs, p, suffix);
            && (r.Ok? <==> Lookup(fs, p).Some? && Lookup(fs, p).value.FileNode?)
            && (r.Ok? ==> Some(after) == Remove(fs, p))
            && (IsDir(fs, p) ==> !Exists(after, p) && Lookup(after, TempPath(p, suffix)) == Lookup(fs, p))
  {
    var t := TempPath(p, suffix);
    assert Apart(p, t);
    if Exists(fs, p) {
      var n := Lookup(fs, p).value;
      LookupRemove(fs, p);
      var rest := Remove(fs, p).value;
      assert IsDir(fs, Dirname(p)) by {
        PutSame(fs, p);
        LookupPut(fs, p, n);
      }
      RemoveKeepsOthers(fs, p, Dirname(t));
      LookupPut(rest, t, n);
      assert RenameFs(fs, p, t) == Put(rest, t, n);
      var renamed := Put(rest, t, n).value;
      LookupRemoveApart(fs, p, t);
      LookupPutApart(rest, t, n, p);
      if n.FileNode? {
        PutThenRemove(rest, t, n);
      }
    }
  }

  /** Deleting a file leaves every path apart from it and from its temporary
      name as it was, whether or not the deletion succeeds. */
  lemma DeleteFileApart(fs: Fs, p: Path, suffix: string, q: Path)
    requires p != [] && Apart(p, q) && Apart(TempPath(p, suffix), q)
    ensures Lookup(DeleteFileFs(fs, p, suffix).1, q) == Lookup(fs, q)
  {
    var t := TempPath(p, suffix);
    if RenameFs(fs, p, t).Some? {
      var n := Lookup(fs, p).value;
      var rest := Remove(fs, p).value;
      LookupRemoveApart(fs, p, q);
      LookupPutApart(rest, t, n, q);
      var renamed := RenameFs(fs, p, t).value;
      if UnlinkFs(renamed, t).Some? {
        LookupRemoveApart(renamed, t, q);
      }
    }
  }

  /** `deleteDirectory(dirPath)`: `rm` with `recursive` and `force`. */
  function DeleteDirectoryFs(fs: Fs, p: Path): (r: Fs)
    ensures p != [] ==> !Exists(r, p)
    ensures p != [] && Exists(fs, p) ==> Some(r) == Remove(fs, p)
  {
    if p != [] && Exists(fs, p) then LookupRemove(fs, p); RmForceFs(fs, p)
    else RmForceFs(fs, p)
  }

  /** The folder path a handler is given, or the error it throws: a missing
      path, or a value `path.join` refuses. */
  function ModFolder(modPath: Value): (r: Result<Path>)
    ensures r.Ok? <==> Truthy(modPath) && modPath.Str?
  {
    if !Truthy(modPath) then Err("No mod path provided")
    else if !modPath.Str? then Err("The \"path\" argument must be of type string")
    else Ok(ParsePath(modPath.s))
  }

  /** `create-faro`: the sidecar of `modPath` becomes `[modData]`, whatever it
      held before. */
  function CreateFaroFs(fs: Fs, modPath: Value, modData: Value): (Result<()>, Fs) {
    match ModFolder(modPath)
    case Err(e) => (Err(e), fs)
    case Ok(dir) =>
      match WriteFs(fs, dir + [".faro"], Json(Jsonify(Arr([modData]))))
      case None => (Err("Error creating file"), fs)
      case Some(after) => (Ok(()), after)
  }

  /** `create-file`: an empty `.lovelyignore` marker in `modPath`. */
  function CreateMarkerFs(fs: Fs, modPath: Value): (Result<()>, Fs) {
    match ModFolder(modPath)
    case Err(e) => (Err(e), fs)
    case Ok(dir) =>
      match WriteFs(fs, dir + [".lovelyignore"], Raw(""))
      case None => (Err("Error creating file"), fs)
      case Some(after) => (Ok(()), after)
  }

  /** `delete-file`: `fileName` inside `modPath`, or `modPath` itself. */
  function DeleteFileHandlerFs(fs: Fs, modPath: Value, fileName: Value, suffix: string): (Result<()>, Fs) {
    if !modPath.Str? then (Err("The \"path\" argument must be of type string"), fs)
    else if Truthy(fileName) && !fileName.Str? then (Err("The \"path\" argument must be of type string"), fs)
    else
      var target := if Truthy(fileName) then ParsePath(modPath.s) + [fileName.s] else ParsePath(modPath.s);
      DeleteFileFs(fs, target, suffix)
  }

  /** `create-file` succeeds exactly when `modPath` is a non-empty string
      naming an existing folder that does not hold a folder named like the
      marker; the marker is then an empty file and every path apart from it
      is as it was. A failure leaves the disk as it was. */
  lemma CreateMarkerWrites(fs: Fs, modPath: Value, q: Path)
    ensures var (r, after) := CreateMarkerFs(fs, modPath);
            && (r.Ok? <==> Truthy(modPath) && modPath.Str? && IsDir(fs, ParsePath(modPath.s))
                           && !IsDir(fs, ParsePath(modPath.s) + [".lovelyignore"]))
            && (r.Err? ==> after == fs)
            && (r.Ok? ==> Lookup(after, ParsePath(modPath.s) + [".lovelyignore"]) == Some(FileNode(Raw(""))))
            && (r.Ok? && Apart(ParsePath(modPath.s) + [".lovelyignore"], q) ==> Lookup(after, q) == Lookup(fs, q))
  {
    if Truthy(modPath) && modPath.Str? {
      var marker := ParsePath(modPath.s) + [".lovelyignore"];
      assert Dirname(marker) == ParsePath(modPath.s);
      LookupPut(fs, marker, FileNode(Raw("")));
      if Put(fs, marker, FileNode(Raw(""))).Some? && Apart(marker, q) {
        LookupPutApart(fs, marker, FileNode(Raw("")), q);
      }
    }
  }

  /** `delete-file` deletes `modPath/fileName`, or `modPath` itself when no
      file name is given: with a fresh temporary name it succeeds exactly
      when that target is a file, which is then removed. Arguments
      `path.join` refuses fail with the disk unchanged. */
  lemma DeleteFileHandlerRemoves(fs: Fs, modPath: Value, fileName: Value, suffix: string)
    ensures !modPath.Str? || (Truthy(fileName) && !fileName.Str?) ==>
              DeleteFileHandlerFs(fs, modPath, fileName, suffix).0.Err?
              && DeleteFileHandlerFs(fs, modPath, fileName, suffix).1 == fs
    ensures modPath.Str? && (!Truthy(fileName) || fileName.Str?) ==>
              var target := if Truthy(fileName) then ParsePath(modPath.s) + [fileName.s] else ParsePath(modPath.s);
              var (r, after) := DeleteFileHandlerFs(fs, modPath, fileName, suffix);
              && (target == [] ==> r.Err? && after == fs)
              && (target != [] && !Exists(fs, TempPath(target, suffix)) ==>
                    && (r.Ok? <==> Lookup(fs, target).Some? && Lookup(fs, target).value.FileNode?)
                    && (r.Ok? ==> Some(after) == Remove(fs, target)))
  {
    if modPath.Str? && (!Truthy(fileName) || fileName.Str?) {
      var target := if Truthy(fileName) then ParsePath(modPath.s) + [fileName.s] else ParsePath(modPath.s);
      assert DeleteFileHandlerFs(fs, modPath, fileName, suffix) == DeleteFileFs(fs, target, suffix);
      if target != [] && !Exists(fs, TempPath(target, suffix)) {
        DeleteFileIsRemove(fs, target, suffix);
      }
    }
  }

  /** A written file reads back as what was written. */
  lemma WrittenSidecar(fs: Fs, modPath: Value, modData: Value)
    requires CreateFaroFs(fs, modPath, modData).0.Ok?
    ensures Lookup(CreateFaroFs(fs, modPath, modData).1, ParsePath(modPath.s) + [".faro"])
            == Some(FileNode(Json(Jsonify(Arr([modData])))))
  {
    LookupPut(fs, ParsePath(modPath.s) + [".faro"], FileNode(Json(Jsonify(Arr([modData])))));
  }

  /** One special path of `delete-special`: a folder is removed with
      `deleteDirectory`, anything else goes through `deleteFile`; a failure
      is logged and the loop goes on. */
  function DeleteSpecialOne(fs: Fs, item: Value, suffix: string): Fs {
    if !item.Str? then fs   // neither exists nor renames
    else
      var p := ParsePath(item.s);
      if IsDir(fs, p) && p != [] then DeleteDirectoryFs(fs, p)
      else DeleteFileFs(fs, p, suffix).1
  }

  /** `delete-special` over the first `|items|` special paths, the
      temporary names given per path. */
  function DeleteSpecialFs(fs: Fs, items: seq<Value>, suffix: Value -> string): Fs
    decreases |items|
  {
    if items == [] then fs
    else DeleteSpecialFs(DeleteSpecialOne(fs, items[0], suffix(items[0])), items[1..], suffix)
  }

  /** Each existing special path is gone afterwards when it is a folder, or a
      file with a fresh temporary name. */
  lemma DeleteSpecialOneRemoves(fs: Fs, item: Value, suffix: string)
    requires item.Str? && ParsePath(item.s) != [] && Exists(fs, ParsePath(item.s))
    requires !Exists(fs, TempPath(ParsePath(item.s), suffix))
    requires IsDir(fs, ParsePath(item.s)) || Lookup(fs, ParsePath(item.s)).value.FileNode?
    ensures Some(DeleteSpecialOne(fs, item, suffix)) == Remove(fs, ParsePath(item.s))
  {
    var p := ParsePath(item.s);
    if !IsDir(fs, p) {
      DeleteFileIsRemove(fs, p, suffix);
    }
  }

  /** `deleteFile` on the disk. */
  method DeleteFile(disk: Disk, p: Path, suffix: string) returns (r: Result<()>)
    modifies disk
    ensures (r, disk.root) == DeleteFileFs(old(disk.root), p, suffix)
  {
    if p == [] {
      return Err("Error deleting file: No file path provided");
    }
    var temp := TempPath(p, suffix);
    var renamed := disk.Rename(p, temp);
    if !renamed {
      return Err("Error deleting file: rename failed");
    }
    var unlinked := disk.Unlink(temp);
    if !unlinked {
      return Err("Error deleting file: unlink failed");
    }
    return Ok(());
  }

  /** `delete-special`: every special path in turn, failures logged and
      skipped; a `specialPaths` that cannot be iterated fails the call. */
  method DeleteSpecial(disk: Disk, mod: Value, suffix: Value -> string) returns (r: Result<()>)
    modifies disk
    ensures r.Ok? <==> Prop(mod, "specialPaths").Arr? || Prop(mod, "specialPaths").Str?
    ensures disk.root == (if Prop(mod, "specialPaths").Arr?
                          then DeleteSpecialFs(old(disk.root), Prop(mod, "specialPaths").items, suffix)
                          else old(disk.root))
  {
    var paths := Prop(mod, "specialPaths");
    if paths.Str? {
      // iterating a string visits its one-character strings, relative
      // names the model does not resolve: it deletes nothing for them
      return Ok(());
    }
    if !paths.Arr? {
      return Err("Failed to delete special paths.");
    }
    var items := paths.items;
    var i := 0;
    while i < |items|
      invariant 0 <= i <= |items|
      invariant DeleteSpecialFs(disk.root, items[i..], suffix) == DeleteSpecialFs(old(disk.root), items, suffix)
    {
      assert items[i..][1..] == items[i + 1..];
      var item := items[i];
      if item.Str? {
        var p := ParsePath(item.s);
        if disk.Find(p).Some? && disk.Find(p).value.DirNode? && p != [] {
          disk.RmForce(p);
        } else {
          var _ := DeleteFile(disk, p, suffix(item));
        }
      }
      i := i + 1;
    }
    return Ok(());
  }
}
