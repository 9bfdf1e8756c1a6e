/** Downloading a mod archive into the zip folder and unpacking it
    (`downloadFile` and `unzipFile`): the network and the zip library are
    inputs, the folder layout after unpacking is what is modelled. */
module Archives {
  import opened Wrappers
  import opened JsValues
  import opened Paths
  import opened FsTree

  /** How a download request ends. */
  datatype Transfer =
    | Served(entries: map<string, Fs>)  // status 200, after any redirects: the archive
    | Refused                           // another status, or a redirect without a location
    | Unreachable                       // the request itself failed

  /** Making a node at an existing path succeeds. */
  lemma WriteOver(fs: Fs, p: Path, data: Content)
    requires p != [] && Lookup(fs, p).Some? && Lookup(fs, p).value.FileNode?
    ensures WriteFs(fs, p, data).Some?
    ensures Lookup(WriteFs(fs, p, data).value, p) == Some(FileNode(data))
  {
    Replaceable(fs, p, FileNode(data));
    LookupPut(fs, p, FileNode(data));
  }

  /** `downloadFile(url, destination)`: the write stream creates (or empties)
      the destination before the request is made; a served archive fills it,
      a refused request leaves it empty, a failed one unlinks it. */
  function DownloadFs(fs: Fs, url: Value, dest: Path, fetch: Value -> Transfer): (r: (Result<()>, Fs))
    ensures r.0.Ok? <==> WriteFs(fs, dest, Raw("")).Some? && fetch(url).Served?
    ensures r.0.Ok? ==> Lookup(r.1, dest) == Some(FileNode(Archive(fetch(url).entries)))
    ensures fetch(url).Unreachable? ==> !Exists(r.1, dest) || r.1 == fs
  {
    match WriteFs(fs, dest, Raw(""))
    case None => (Err("Error opening the download target"), fs)
    case Some(blank) =>
      LookupPut(fs, dest, FileNode(Raw("")));
      match fetch(url)
      case Served(es) =>
        WriteOver(blank, dest, Archive(es));
        (Ok(()), WriteFs(blank, dest, Archive(es)).value)
      case Refused => (Err("Failed to download file"), blank)
      case Unreachable =>
        LookupRemove(blank, dest);
        (Err("Download request failed"), UnlinkFs(blank, dest).value)
  }

  method Download(disk: Disk, url: Value, dest: Path, fetch: Value -> Transfer) returns (r: Result<()>)
    modifies disk
    ensures (r, disk.root) == DownloadFs(old(disk.root), url, dest, fetch)
  {
    var blank := disk.Write(dest, Raw(""));
    if !blank {
      return Err("Error opening the download target");
    }
    LookupPut(old(disk.root), dest, FileNode(Raw("")));
    match fetch(url) {
      case Served(es) =>
        WriteOver(disk.root, dest, Archive(es));
        var _ := disk.Write(dest, Archive(es));
        r := Ok(());
      case Refused =>
        r := Err("Failed to download file");
      case Unreachable =>
        LookupRemove(disk.root, dest);
        var _ := disk.Unlink(dest);
        r := Err("Download request failed");
    }
  }

  /** A folder created with its ancestors is a folder afterwards. */
  lemma MkdirAllIsDir(fs: Fs, p: Path)
    requires MkdirAllFs(fs, p).Some?
    ensures IsDir(MkdirAllFs(fs, p).value, p)
  {
    if p != [] && Lookup(fs, p).None? {
      LookupPut(MkdirAllFs(fs, Dirname(p)).value, p, DirNode(map[]));
    }
  }

  /** `path.join(destination, path.basename(zipPath, '.zip'))` */
  function UnzipDir(zipPath: Path, dest: Path): (u: Path)
    ensures u != [] && Dirname(u) == dest
  {
    dest + [BasenameWithout(Basename(zipPath), ".zip")]
  }

  /** `new AdmZip(zipPath)` and `extractAllTo(u, true)`: `u` is created with
      its ancestors, and the archive's top-level entries are laid over what
      it held, an entry of the same name being replaced. */
  function ExtractFs(fs: Fs, zipPath: Path, u: Path): (r: Option<Fs>)
    requires u != []
    ensures r.Some? ==> IsDir(r.value, u)
  {
    match Lookup(fs, zipPath)
    case Some(FileNode(Archive(es))) =>
      (match MkdirAllFs(fs, u)
       case None => None
       case Some(mid) =>
         MkdirAllIsDir(fs, u);
         var before := Lookup(mid, u).value.entries;
         Replaceable(mid, u, DirNode(before + es));
         LookupPut(mid, u, DirNode(before + es));
         Put(mid, u, DirNode(before + es)))
    case _ => None
  }

  /** Every top-level entry of the archive is found in `u` afterwards. */
  lemma ExtractLaysOver(fs: Fs, zipPath: Path, u: Path)
    requires u != [] && ExtractFs(fs, zipPath, u).Some?
    ensures Lookup(fs, zipPath).Some? && Lookup(fs, zipPath).value.FileNode?
    ensures Lookup(fs, zipPath).value.data.Archive?
    ensures var es := Lookup(fs, zipPath).value.data.entries;
            forall k :: k in es ==> Lookup(ExtractFs(fs, zipPath, u).value, u + [k]) == Some(es[k])
  {
    assert Lookup(fs, zipPath).Some? && Lookup(fs, zipPath).value.FileNode?
           && Lookup(fs, zipPath).value.data.Archive?;
    var es := Lookup(fs, zipPath).value.data.entries;
    var mid := MkdirAllFs(fs, u).value;
    MkdirAllIsDir(fs, u);
    var before := Lookup(mid, u).value.entries;
    LookupPut(mid, u, DirNode(before + es));
    var after := ExtractFs(fs, zipPath, u).value;
    forall k | k in es ensures Lookup(after, u + [k]) == Some(es[k]) {
      LookupAppend(after, u, [k]);
      assert [k][1..] == [];
    }
  }

  /** Exactly one extracted entry, and it is a folder. */
  predicate SingleFolder(listing: map<string, Fs>) {
    |listing| == 1 && forall k :: k in listing ==> listing[k].DirNode?
  }

  lemma OnlyKey(m: map<string, Fs>)
    requires |m| == 1
    ensures exists k :: m.Keys == {k}
  {
    assert |m.Keys| == 1;
    var k :| k in m.Keys;
    assert |m.Keys - {k}| == 0;
    assert m.Keys == {k};
  }

  /** The layout `unzipFile` leaves in the unpacked folder `u`, which holds
      `listing`: a single folder is returned as it is; otherwise a new
      `flattened` folder receives every entry and is returned. */
  function LayoutFs(fs: Fs, u: Path, listing: map<string, Fs>): (Result<Path>, Fs)
    requires u != [] && Lookup(fs, u) == Some(DirNode(listing))
  {
    if SingleFolder(listing) then
      OnlyKey(listing);
      var k :| listing.Keys == {k};
      (Ok(u + [k]), fs)
    else if "flattened" in listing then (Err("Error processing extracted files: EEXIST"), fs)
    else
      Replaceable(fs, u, DirNode(map["flattened" := DirNode(listing)]));
      (Ok(u + ["flattened"]), Put(fs, u, DirNode(map["flattened" := DirNode(listing)])).value)
  }

  /** `unzipFile(zipPath, dest)` */
  function UnzipFs(fs: Fs, zipPath: Path, dest: Path): (Result<Path>, Fs) {
    var u := UnzipDir(zipPath, dest);
    match ExtractFs(fs, zipPath, u)
    case None => (Err("Error processing extracted files"), fs)
    case Some(f) => LayoutFs(f, u, Lookup(f, u).value.entries)
  }

  /** The returned folder is alone in `u`, and it is either the single
      extracted folder or a `flattened` folder holding every extracted entry;
      the call fails only when an extracted entry is already named
      `flattened`. */
  lemma LayoutRule(fs: Fs, u: Path, listing: map<string, Fs>)
    requires u != [] && Lookup(fs, u) == Some(DirNode(listing))
    ensures var (r, after) := LayoutFs(fs, u, listing);
            && (r.Ok? <==> SingleFolder(listing) || "flattened" !in listing)
            && (r.Ok? ==> Dirname(r.value) == u && IsDir(after, u)
                          && Lookup(after, u).value.entries.Keys == {Basename(r.value)})
            && (SingleFolder(listing) ==> Basename(r.value) in listing
                                          && Lookup(after, r.value) == Some(listing[Basename(r.value)]))
            && (r.Ok? && !SingleFolder(listing) ==> r.value == u + ["flattened"]
                                                    && Lookup(after, r.value) == Some(DirNode(listing)))
  {
    var (r, after) := LayoutFs(fs, u, listing);
    if SingleFolder(listing) {
      var k := Basename(r.value);
      LookupAppend(fs, u, [k]);
      assert [k][1..] == [];
    } else if "flattened" !in listing {
      var top := map["flattened" := DirNode(listing)];
      Replaceable(fs, u, DirNode(top));
      LookupPut(fs, u, DirNode(top));
      LookupAppend(after, u, ["flattened"]);
      assert ["flattened"][1..] == [];
    }
  }

  /** The entries of `listing` still in `rest` sit in the folder; the others
      have moved into `flattened`. */
  function Stage(listing: map<string, Fs>, rest: set<string>): map<string, Fs> {
    (map k | k in listing && k in rest :: listing[k])["flattened" := DirNode(map k | k in listing && k !in rest :: listing[k])]
  }

  /** Moving one entry into `flattened`. */
  lemma StageStep(listing: map<string, Fs>, rest: set<string>, item: string)
    requires "flattened" !in listing && item in rest && rest <= listing.Keys
    ensures RenameFs(DirNode(Stage(listing, rest)), [item], ["flattened", item])
            == Some(DirNode(Stage(listing, rest - {item})))
  {
    var es := Stage(listing, rest);
    var moved := map k | k in listing && k !in rest :: listing[k];
    var n := listing[item];
    assert !Under(["flattened", item], [item]) by {
      assert ["flattened", item][..1] == ["flattened"];
    }
    assert Lookup(DirNode(es), [item]) == Some(n) by {
      assert [item][1..] == [];
    }
    assert !Exists(DirNode(es), ["flattened", item]) by {
      assert es["flattened"] == DirNode(moved);
      assert ["flattened", item][1..] == [item];
      assert item !in moved;
      assert Lookup(DirNode(moved), [item]) == None;
      assert Lookup(DirNode(es), ["flattened", item]) == Lookup(DirNode(moved), [item]);
    }
    assert Remove(DirNode(es), [item]) == Some(DirNode(es - {item}));
    assert Put(DirNode(moved), [item], n) == Some(DirNode(moved[item := n]));
    assert Put(DirNode(es - {item}), ["flattened", item], n)
        == Some(DirNode((es - {item})["flattened" := DirNode(moved[item := n])])) by {
      assert ["flattened", item][1..] == [item];
    }
    assert moved[item := n] == map k | k in listing && k !in rest - {item} :: listing[k];
    assert (es - {item})["flattened" := DirNode(moved[item := n])] == Stage(listing, rest - {item});
  }

  /** The layout step of `unzipFile`, renaming the entries one at a time. */
  method Layout(disk: Disk, u: Path, listing: map<string, Fs>) returns (r: Result<Path>)
    requires u != [] && Lookup(disk.root, u) == Some(DirNode(listing))
    modifies disk
    ensures (r, disk.root) == LayoutFs(old(disk.root), u, listing)
  {
    if SingleFolder(listing) {
      OnlyKey(listing);
      var k :| listing.Keys == {k};
      return Ok(u + [k]);
    }
    LookupAppend(disk.root, u, ["flattened"]);
    assert ["flattened"][1..] == [];
    assert Exists(disk.root, u + ["flattened"]) <==> "flattened" in listing;
    assert Dirname(u + ["flattened"]) == u;
    LookupPut(disk.root, u + ["flattened"], DirNode(map[]));
    var made := disk.Mkdir(u + ["flattened"]);
    if !made {
      return Err("Error processing extracted files: EEXIST");
    }
    assert "flattened" !in listing;
    ghost var root0 := old(disk.root);
    PutDeep(root0, u, ["flattened"], DirNode(map[]));
    assert listing["flattened" := DirNode(map[])] == Stage(listing, listing.Keys);
    var remaining := listing.Keys;
    while remaining != {}
      invariant remaining <= listing.Keys
      invariant Put(root0, u, DirNode(Stage(listing, remaining))) == Some(disk.root)
      decreases remaining
    {
      var item :| item in remaining;
      LookupPut(root0, u, DirNode(Stage(listing, remaining)));
      RenameDeep(disk.root, u, [item], ["flattened", item]);
      StageStep(listing, remaining, item);
      PutPut(root0, u, DirNode(Stage(listing, remaining)), DirNode(Stage(listing, remaining - {item})));
      LookupPut(root0, u, DirNode(Stage(listing, remaining - {item})));
      var _ := disk.Rename(u + [item], u + ["flattened", item]);
      remaining := remaining - {item};
    }
    var none: set<string> := {};
    assert (map k | k in listing && k !in none :: listing[k]) == listing;
    assert (map k | k in listing && k in none :: listing[k]) == map[];
    assert Stage(listing, none) == map["flattened" := DirNode(listing)];
    assert Stage(listing, {}) == map["flattened" := DirNode(listing)];
    return Ok(u + ["flattened"]);
  }

  /** `unzipFile(zipPath, dest)`, step by step on the disk. */
  method Unzip(disk: Disk, zipPath: Path, dest: Path) returns (r: Result<Path>)
    modifies disk
    ensures (r, disk.root) == UnzipFs(old(disk.root), zipPath, dest)
  {
    var u := UnzipDir(zipPath, dest);
    var zip := disk.Find(zipPath);
    if !(zip.Some? && zip.value.FileNode? && zip.value.data.Archive?) {
      return Err("Error processing extracted files");
    }
    var es := zip.value.data.entries;
    var made := disk.MkdirAll(u);
    if !made {
      return Err("Error processing extracted files");
    }
    MkdirAllIsDir(old(disk.root), u);
    var before := disk.Find(u).value.entries;
    Replaceable(disk.root, u, DirNode(before + es));
    LookupPut(disk.root, u, DirNode(before + es));
    var _ := disk.Apply(Put(disk.root, u, DirNode(before + es)));
    r := Layout(disk, u, before + es);
  }
}
