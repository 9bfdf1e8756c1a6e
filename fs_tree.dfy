/** The disk as the main process sees it through Node's `fs` module: a tree of
    folders and files, the operations the installer performs on it, and a
    `Disk` object whose methods perform them in place. */
module FsTree {
  import opened Wrappers
  import opened JsValues
  import opened Paths

  /** What a file holds: text, a value written by `JSON.stringify`, or a
      downloaded archive with the top-level entries it extracts to. */
  datatype Content = Raw(text: string) | Json(value: Value) | Archive(entries: map<string, Fs>)

  datatype Fs = FileNode(data: Content) | DirNode(entries: map<string, Fs>)

  /** The node at `p`, if any. */
  function Lookup(fs: Fs, p: Path): Option<Fs>
    decreases |p|
  {
    if p == [] then Some(fs)
    else
      match fs
      case FileNode(_) => None
      case DirNode(es) => if p[0] in es then Lookup(es[p[0]], p[1..]) else None
  }

  predicate Exists(fs: Fs, p: Path) {
    Lookup(fs, p).Some?
  }

  predicate IsDir(fs: Fs, p: Path) {
    Lookup(fs, p).Some? && Lookup(fs, p).value.DirNode?
  }

  /** Place `n` at `p`, replacing whatever was there; `None` when the parent
      folder does not exist. */
  function Put(fs: Fs, p: Path, n: Fs): Option<Fs>
    requires p != []
    decreases |p|
  {
    match fs
    case FileNode(_) => None
    case DirNode(es) =>
      if |p| == 1 then Some(DirNode(es[p[0] := n]))
      else if p[0] !in es then None
      else
        match Put(es[p[0]], p[1..], n)
        case None => None
        case Some(c) => Some(DirNode(es[p[0] := c]))
  }

  /** Take away the node at `p`; `None` when there is none. */
  function Remove(fs: Fs, p: Path): Option<Fs>
    requires p != []
    decreases |p|
  {
    match fs
    case FileNode(_) => None
    case DirNode(es) =>
      if p[0] !in es then None
      else if |p| == 1 then Some(DirNode(es - {p[0]}))
      else
        match Remove(es[p[0]], p[1..])
        case None => None
        case Some(c) => Some(DirNode(es[p[0] := c]))
  }

  /** Neither path lies inside the other. */
  predicate Apart(p: Path, q: Path) {
    !Under(p, q) && !Under(q, p)
  }

  // ---------------------------------------------------------------------
  // The `fs` operations

  /** `renameSync(src, dst)`: fails when `src` is missing, `dst` exists or
      lies inside `src`, or the parent of `dst` is missing. */
  function RenameFs(fs: Fs, src: Path, dst: Path): Option<Fs> {
    if src == [] || dst == [] || Under(dst, src) then None
    else
      match Lookup(fs, src)
      case None => None
      case Some(n) =>
        if Exists(fs, dst) then None
        else
          match Remove(fs, src)
          case None => None
          case Some(rest) => Put(rest, dst, n)
  }

  /** `mkdirSync(p)`: fails when `p` exists or its parent is missing. */
  function MkdirFs(fs: Fs, p: Path): Option<Fs> {
    if p == [] || Exists(fs, p) then None else Put(fs, p, DirNode(map[]))
  }

  /** `mkdirSync(p, { recursive: true })`: creates every missing ancestor;
      fails only when something on the way is a file. */
  function MkdirAllFs(fs: Fs, p: Path): (r: Option<Fs>)
    decreases |p|
  {
    if p == [] then (if fs.DirNode? then Some(fs) else None)
    else
      match Lookup(fs, p)
      case Some(DirNode(_)) => Some(fs)
      case Some(FileNode(_)) => None
      case None =>
        match MkdirAllFs(fs, Dirname(p))
        case None => None
        case Some(mid) => Put(mid, p, DirNode(map[]))
  }

  /** `rmdirSync(p)`: only an empty folder can be removed. */
  function RmdirFs(fs: Fs, p: Path): Option<Fs> {
    match Lookup(fs, p)
    case Some(DirNode(es)) => if p == [] || es != map[] then None else Remove(fs, p)
    case _ => None
  }

  /** `unlink(p)`: only a file can be unlinked. */
  function UnlinkFs(fs: Fs, p: Path): Option<Fs> {
    match Lookup(fs, p)
    case Some(FileNode(_)) => if p == [] then None else Remove(fs, p)
    case _ => None
  }

  /** `writeFileSync(p, data)`: creates or replaces a file; fails on a folder
      or a missing parent. */
  function WriteFs(fs: Fs, p: Path, data: Content): Option<Fs> {
    if p == [] || IsDir(fs, p) then None else Put(fs, p, FileNode(data))
  }

  /** `rm(p, { recursive: true, force: true })`: removes whatever is at `p`;
      a missing path is not an error. */
  function RmForceFs(fs: Fs, p: Path): Fs {
    if p != [] && Exists(fs, p) then
      match Remove(fs, p)
      case None => fs
      case Some(r) => r
    else fs
  }

  // ---------------------------------------------------------------------
  // Lemmas about the tree

  /** A path is looked up segment by segment. */
  lemma {:induction false} LookupAppend(fs: Fs, u: Path, q: Path)
    decreases |u|
    ensures Lookup(fs, u + q) == (if Lookup(fs, u).Some? then Lookup(Lookup(fs, u).value, q) else None)
  {
    if u != [] {
      assert (u + q)[0] == u[0] && (u + q)[1..] == u[1..] + q;
      match fs
      case FileNode(_) =>
      case DirNode(es) =>
        if u[0] in es {
          LookupAppend(es[u[0]], u[1..], q);
        }
    } else {
      assert u + q == q;
    }
  }

  /** Placing a node succeeds exactly when the parent folder exists, and the
      node is then found where it was placed. */
  lemma {:induction false} LookupPut(fs: Fs, p: Path, n: Fs)
    requires p != []
    decreases |p|
    ensures Put(fs, p, n).Some? <==> IsDir(fs, Dirname(p))
    ensures Put(fs, p, n).Some? ==> Lookup(Put(fs, p, n).value, p) == Some(n)
  {
    match fs
    case FileNode(_) =>
      assert Dirname(p) != [] ==> Lookup(fs, Dirname(p)).None?;
    case DirNode(es) =>
      if |p| == 1 {
        assert Dirname(p) == [];
        assert Lookup(DirNode(es[p[0] := n]), p) == Lookup(n, p[1..]);
      } else {
        assert Dirname(p)[0] == p[0] && Dirname(p)[1..] == Dirname(p[1..]);
        if p[0] in es {
          LookupPut(es[p[0]], p[1..], n);
        }
      }
  }

  /** Placing a node leaves every path apart from it as it was. */
  lemma {:induction false} LookupPutApart(fs: Fs, p: Path, n: Fs, q: Path)
    requires p != [] && Put(fs, p, n).Some? && Apart(p, q)
    decreases |p|
    ensures Lookup(Put(fs, p, n).value, q) == Lookup(fs, q)
  {
    var es := fs.entries;
    if p[0] != q[0] {
    } else {
      assert Apart(p[1..], q[1..]) by {
        assert p == [p[0]] + p[1..] && q == [q[0]] + q[1..];
      }
      LookupPutApart(es[p[0]], p[1..], n, q[1..]);
    }
  }

  /** Removing succeeds exactly when the path exists, and the path is then
      gone. */
  lemma {:induction false} LookupRemove(fs: Fs, p: Path)
    requires p != []
    decreases |p|
    ensures Remove(fs, p).Some? <==> Exists(fs, p)
    ensures Remove(fs, p).Some? ==> !Exists(Remove(fs, p).value, p)
  {
    match fs
    case FileNode(_) =>
    case DirNode(es) =>
      if |p| > 1 && p[0] in es {
        LookupRemove(es[p[0]], p[1..]);
      } else if |p| == 1 && p[0] in es {
        assert p[1..] == [];
        assert Lookup(fs, p) == Lookup(es[p[0]], []);
        assert Remove(fs, p) == Some(DirNode(es - {p[0]}));
        assert Lookup(DirNode(es - {p[0]}), p) == None;
      }
  }

  /** Removing a node leaves every path apart from it as it was. */
  lemma {:induction false} LookupRemoveApart(fs: Fs, p: Path, q: Path)
    requires p != [] && Remove(fs, p).Some? && Apart(p, q)
    decreases |p|
    ensures Lookup(Remove(fs, p).value, q) == Lookup(fs, q)
  {
    var es := fs.entries;
    if p[0] != q[0] {
    } else {
      assert Apart(p[1..], q[1..]) by {
        assert p == [p[0]] + p[1..] && q == [q[0]] + q[1..];
      }
      LookupRemoveApart(es[p[0]], p[1..], q[1..]);
    }
  }

  /** Placing a node below `u` is placing, at `u`, the subtree with the node
      placed in it. */
  lemma {:induction false} PutDeep(fs: Fs, u: Path, q: Path, n: Fs)
    requires u != [] && q != [] && Exists(fs, u)
    decreases |u|
    ensures Put(fs, u + q, n) == (match Put(Lookup(fs, u).value, q, n)
                                  case None => None
                                  case Some(s) => Put(fs, u, s))
  {
    var es := fs.entries;
    assert (u + q)[0] == u[0] && (u + q)[1..] == u[1..] + q;
    if |u| > 1 {
      PutDeep(es[u[0]], u[1..], q, n);
    } else {
      assert u[1..] + q == q;
    }
  }

  /** Removing a node below `u` is placing, at `u`, the subtree with the node
      removed from it. */
  lemma {:induction false} RemoveDeep(fs: Fs, u: Path, q: Path)
    requires u != [] && q != [] && Exists(fs, u)
    decreases |u|
    ensures Remove(fs, u + q) == (match Remove(Lookup(fs, u).value, q)
                                  case None => None
                                  case Some(s) => Put(fs, u, s))
  {
    var es := fs.entries;
    assert (u + q)[0] == u[0] && (u + q)[1..] == u[1..] + q;
    if |u| > 1 {
      RemoveDeep(es[u[0]], u[1..], q);
    } else {
      assert u[1..] + q == q;
    }
  }

  /** Placing twice at the same path keeps the second node only. */
  lemma {:induction false} PutPut(fs: Fs, p: Path, a: Fs, b: Fs)
    requires p != [] && Put(fs, p, a).Some?
    decreases |p|
    ensures Put(Put(fs, p, a).value, p, b) == Put(fs, p, b)
  {
    var es := fs.entries;
    if |p| > 1 {
      PutPut(es[p[0]], p[1..], a, b);
      var c := Put(es[p[0]], p[1..], a).value;
      if Put(es[p[0]], p[1..], b).Some? {
        assert es[p[0] := c][p[0] := Put(es[p[0]], p[1..], b).value] == es[p[0] := Put(es[p[0]], p[1..], b).value];
      }
    } else {
      assert es[p[0] := a][p[0] := b] == es[p[0] := b];
    }
  }

  /** Placing at `p` the node already there changes nothing. */
  lemma {:induction false} PutSame(fs: Fs, p: Path)
    requires p != [] && Exists(fs, p)
    decreases |p|
    ensures Put(fs, p, Lookup(fs, p).value) == Some(fs)
  {
    var es := fs.entries;
    if |p| > 1 {
      PutSame(es[p[0]], p[1..]);
    } else {
      assert p[1..] == [];
    }
    assert es[p[0] := es[p[0]]] == es;
  }

  /** A rename inside the folder `u` is a rename inside its subtree, placed
      back at `u`. */
  lemma RenameDeep(fs: Fs, u: Path, a: Path, b: Path)
    requires u != [] && a != [] && b != [] && IsDir(fs, u)
    ensures RenameFs(fs, u + a, u + b) == (match RenameFs(Lookup(fs, u).value, a, b)
                                           case None => None
                                           case Some(s) => Put(fs, u, s))
  {
    var sub := Lookup(fs, u).value;
    assert Under(u + b, u + a) <==> Under(b, a) by {
      assert (u + b)[..|u + a|] == u + b[..|a|] <== |a| <= |b|;
      if |u + a| <= |u + b| && (u + b)[..|u + a|] == u + a {
        assert b[..|a|] == (u + b)[..|u + a|][|u|..];
      }
    }
    LookupAppend(fs, u, a);
    LookupAppend(fs, u, b);
    if !Under(b, a) && Lookup(sub, a).Some? && !Exists(sub, b) {
      RemoveDeep(fs, u, a);
      LookupRemove(sub, a);
      var rest := Remove(sub, a).value;
      PutSame(fs, u);
      LookupPut(fs, u, sub);
      LookupPut(fs, u, rest);
      var mid := Put(fs, u, rest).value;
      PutDeep(mid, u, b, Lookup(sub, a).value);
      match Put(rest, b, Lookup(sub, a).value)
      case None =>
      case Some(s) =>
        PutPut(fs, u, rest, s);
    }
  }

  /** Placing a node where there was none and removing it again gives back
      the tree. */
  lemma {:induction false} PutThenRemove(fs: Fs, t: Path, n: Fs)
    requires t != [] && Put(fs, t, n).Some? && !Exists(fs, t)
    decreases |t|
    ensures Remove(Put(fs, t, n).value, t) == Some(fs)
  {
    var es := fs.entries;
    if |t| == 1 {
      assert t[1..] == [];
      assert Lookup(fs, t) == (if t[0] in es then Lookup(es[t[0]], []) else None);
      assert t[0] !in es;
      assert es[t[0] := n] - {t[0]} == es;
    } else {
      var c := Put(es[t[0]], t[1..], n).value;
      PutThenRemove(es[t[0]], t[1..], n);
      assert es[t[0] := c][t[0] := es[t[0]]] == es;
    }
  }

  /** Removing a node keeps every folder that does not lie inside it a
      folder, and every other path missing. */
  lemma {:induction false} RemoveKeepsOthers(fs: Fs, p: Path, q: Path)
    requires p != [] && Remove(fs, p).Some? && !Under(q, p)
    decreases |p|
    ensures IsDir(Remove(fs, p).value, q) == IsDir(fs, q)
    ensures Exists(Remove(fs, p).value, q) == Exists(fs, q)
  {
    var es := fs.entries;
    if q != [] && q[0] == p[0] && |p| > 1 {
      assert !Under(q[1..], p[1..]) by {
        assert p == [p[0]] + p[1..] && q == [q[0]] + q[1..];
      }
      RemoveKeepsOthers(es[p[0]], p[1..], q[1..]);
    }
  }

  /** Placing a node keeps every folder that does not lie inside it a
      folder, and every other path's existence. */
  lemma {:induction false} PutKeepsOthers(fs: Fs, p: Path, n: Fs, q: Path)
    requires p != [] && Put(fs, p, n).Some? && !Under(q, p)
    decreases |p|
    ensures IsDir(Put(fs, p, n).value, q) == IsDir(fs, q)
    ensures Exists(Put(fs, p, n).value, q) == Exists(fs, q)
  {
    var es := fs.entries;
    if q != [] && q[0] == p[0] && |p| > 1 {
      assert !Under(q[1..], p[1..]) by {
        assert p == [p[0]] + p[1..] && q == [q[0]] + q[1..];
      }
      PutKeepsOthers(es[p[0]], p[1..], n, q[1..]);
    }
  }

  /** The node at an existing path can be replaced by any other. */
  lemma Replaceable(fs: Fs, p: Path, n: Fs)
    requires p != [] && Exists(fs, p)
    ensures Put(fs, p, n).Some?
  {
    PutSame(fs, p);
    LookupPut(fs, p, Lookup(fs, p).value);
    LookupPut(fs, p, n);
  }

  // ---------------------------------------------------------------------
  // The disk, changed in place

  class Disk {
    var root: Fs

    constructor(root: Fs)
      ensures this.root == root
    {
      this.root := root;
    }

    function Find(p: Path): Option<Fs>
      reads this
    {
      Lookup(root, p)
    }

    /** Applies an operation's outcome: the new tree when it succeeded,
        nothing otherwise. */
    method Apply(r: Option<Fs>) returns (ok: bool)
      modifies this
      ensures ok == r.Some?
      ensures root == (if ok then r.value else old(root))
    {
      ok := r.Some?;
      if ok {
        root := r.value;
      }
    }

    method Rename(src: Path, dst: Path) returns (ok: bool)
      modifies this
      ensures ok == RenameFs(old(root), src, dst).Some?
      ensures root == (if ok then RenameFs(old(root), src, dst).value else old(root))
    {
      ok := Apply(RenameFs(root, src, dst));
    }

    method Mkdir(p: Path) returns (ok: bool)
      modifies this
      ensures ok == MkdirFs(old(root), p).Some?
      ensures root == (if ok then MkdirFs(old(root), p).value else old(root))
    {
      ok := Apply(MkdirFs(root, p));
    }

    method MkdirAll(p: Path) returns (ok: bool)
      modifies this
      ensures ok == MkdirAllFs(old(root), p).Some?
      ensures root == (if ok then MkdirAllFs(old(root), p).value else old(root))
    {
      ok := Apply(MkdirAllFs(root, p));
    }

    method Rmdir(p: Path) returns (ok: bool)
      modifies this
      ensures ok == RmdirFs(old(root), p).Some?
      ensures root == (if ok then RmdirFs(old(root), p).value else old(root))
    {
      ok := Apply(RmdirFs(root, p));
    }

    method Unlink(p: Path) returns (ok: bool)
      modifies this
      ensures ok == UnlinkFs(old(root), p).Some?
      ensures root == (if ok then UnlinkFs(old(root), p).value else old(root))
    {
      ok := Apply(UnlinkFs(root, p));
    }

    method Write(p: Path, data: Content) returns (ok: bool)
      modifies this
      ensures ok == WriteFs(old(root), p, data).Some?
      ensures root == (if ok then WriteFs(old(root), p, data).value else old(root))
    {
      ok := Apply(WriteFs(root, p, data));
    }

    method RmForce(p: Path)
      modifies this
      ensures root == RmForceFs(old(root), p)
    {
      root := RmForceFs(root, p);
    }
  }
}
