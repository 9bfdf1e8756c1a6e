/** The renderer's registry: the mod list it fetched from the main process,
    the three lists it shows, the once-per-session update check, the enable
    toggle, deletion and the single-flight install queue. Requests sent to
    the main process are recorded in order; the answers are inputs. */
module Renderer {
  import opened Wrappers
  import opened JsValues
  import opened GitHub

  // ---------------------------------------------------------------------
  // Name order

  /** The order `localeCompare` sorts names in, taken as code-unit
      lexicographic order. */
  predicate NameLe(a: string, b: string)
    decreases |a|
  {
    a == [] || (b != [] && (a[0] < b[0] || (a[0] == b[0] && NameLe(a[1..], b[1..]))))
  }

  lemma {:induction false} NameLeTotal(a: string, b: string)
    decreases |a|
    ensures NameLe(a, b) || NameLe(b, a)
  {
    if a != [] && b != [] && a[0] == b[0] {
      NameLeTotal(a[1..], b[1..]);
    }
  }

  lemma {:induction false} NameLeTrans(a: string, b: string, c: string)
    requires NameLe(a, b) && NameLe(b, c)
    decreases |a|
    ensures NameLe(a, c)
  {
    if a != [] && b != [] && c != [] && a[0] == b[0] && b[0] == c[0] {
      NameLeTrans(a[1..], b[1..], c[1..]);
    }
  }

  // ---------------------------------------------------------------------
  // The three lists

  /** The name a mod is sorted by. */
  function NameOf(mods: seq<Value>, i: int): string {
    if 0 <= i < |mods| then ToText(Prop(mods[i], "name")) else ""
  }

  predicate SortedByName(mods: seq<Value>, s: seq<int>) {
    forall j, k :: 0 <= j < k < |s| ==> NameLe(NameOf(mods, s[j]), NameOf(mods, s[k]))
  }

  /** `x` placed after the last element of `t` whose name is not after its
      own, which keeps equal names in their original order. */
  function Insert(mods: seq<Value>, x: int, t: seq<int>): seq<int>
    decreases |t|
  {
    if t == [] then [x]
    else
      var last := t[|t| - 1];
      if NameLe(NameOf(mods, last), NameOf(mods, x)) then t + [x]
      else Insert(mods, x, t[..|t| - 1]) + [last]
  }

  /** `sort((a, b) => a.name.localeCompare(b.name))` on a list of mods,
      given by their indices. */
  function SortByName(mods: seq<Value>, s: seq<int>): seq<int>
    decreases |s|
  {
    if s == [] then []
    else Insert(mods, s[|s| - 1], SortByName(mods, s[..|s| - 1]))
  }

  lemma {:induction false} InsertPermutes(mods: seq<Value>, x: int, t: seq<int>)
    decreases |t|
    ensures multiset(Insert(mods, x, t)) == multiset(t) + multiset{x}
  {
    if t != [] {
      var last := t[|t| - 1];
      assert t == t[..|t| - 1] + [last];
      if !NameLe(NameOf(mods, last), NameOf(mods, x)) {
        InsertPermutes(mods, x, t[..|t| - 1]);
      }
    }
  }

  /** Sorting keeps every index, each as often as before. */
  lemma {:induction false} SortPermutes(mods: seq<Value>, s: seq<int>)
    decreases |s|
    ensures multiset(SortByName(mods, s)) == multiset(s)
  {
    if s != [] {
      assert s == s[..|s| - 1] + [s[|s| - 1]];
      SortPermutes(mods, s[..|s| - 1]);
      InsertPermutes(mods, s[|s| - 1], SortByName(mods, s[..|s| - 1]));
    }
  }

  lemma {:induction false} InsertSorted(mods: seq<Value>, x: int, t: seq<int>)
    requires SortedByName(mods, t)
    decreases |t|
    ensures SortedByName(mods, Insert(mods, x, t))
  {
    if t != [] {
      var last := t[|t| - 1];
      var key := NameOf(mods, x);
      if NameLe(NameOf(mods, last), key) {
        var r := t + [x];
        forall j, k | 0 <= j < k < |r| ensures NameLe(NameOf(mods, r[j]), NameOf(mods, r[k])) {
          if k == |t| && j < |t| - 1 {
            NameLeTrans(NameOf(mods, t[j]), NameOf(mods, last), key);
          }
        }
      } else {
        NameLeTotal(key, NameOf(mods, last));
        var front := t[..|t| - 1];
        InsertSorted(mods, x, front);
        forall j | 0 <= j < |front| ensures NameLe(NameOf(mods, front[j]), NameOf(mods, last)) {
          assert front[j] == t[j];
        }
        InsertBelow(mods, x, front, NameOf(mods, last));
        var r := Insert(mods, x, front) + [last];
        assert SortedByName(mods, r);
      }
    }
  }

  /** Everything `Insert` lists sorts no later than `bound` when `x` and
      every element of `t` do. */
  lemma InsertBelow(mods: seq<Value>, x: int, t: seq<int>, bound: string)
    requires NameLe(NameOf(mods, x), bound)
    requires forall j :: 0 <= j < |t| ==> NameLe(NameOf(mods, t[j]), bound)
    ensures forall j :: 0 <= j < |Insert(mods, x, t)| ==> NameLe(NameOf(mods, Insert(mods, x, t)[j]), bound)
  {
    InsertPermutes(mods, x, t);
    var r := Insert(mods, x, t);
    forall j | 0 <= j < |r| ensures NameLe(NameOf(mods, r[j]), bound) {
      assert r[j] in multiset(r);
      if r[j] != x {
        assert r[j] in multiset(t);
        var m :| 0 <= m < |t| && t[m] == r[j];
      }
    }
  }

  lemma {:induction false} SortSorted(mods: seq<Value>, s: seq<int>)
    decreases |s|
    ensures SortedByName(mods, SortByName(mods, s))
  {
    if s != [] {
      SortSorted(mods, s[..|s| - 1]);
      InsertSorted(mods, s[|s| - 1], SortByName(mods, s[..|s| - 1]));
    }
  }

  datatype Shelf = Browse | Installed | Loader

  /** The list a mod is shown in: loaders are the `core` mods, the rest are
      split by `installed`. */
  function ShelfOf(mod: Value): Shelf {
    if Truthy(Prop(mod, "core")) then Loader
    else if Truthy(Prop(mod, "installed")) then Installed
    else Browse
  }

  /** The indices below `n` of the mods on `shelf`, in list order (`filter`). */
  function OnShelf(mods: seq<Value>, shelf: Shelf, n: nat): seq<int>
    requires n <= |mods|
  {
    if n == 0 then []
    else OnShelf(mods, shelf, n - 1) + (if ShelfOf(mods[n - 1]) == shelf then [n - 1] else [])
  }

  /** Each index below `n` is taken once when its mod is on the shelf. */
  lemma {:induction false} OnShelfCount(mods: seq<Value>, shelf: Shelf, n: nat, i: int)
    requires n <= |mods|
    ensures multiset(OnShelf(mods, shelf, n))[i] == if 0 <= i < n && ShelfOf(mods[i]) == shelf then 1 else 0
  {
    if n > 0 {
      OnShelfCount(mods, shelf, n - 1, i);
      var front := OnShelf(mods, shelf, n - 1);
      var hit := ShelfOf(mods[n - 1]) == shelf;
      assert multiset(OnShelf(mods, shelf, n))[i]
             == multiset(front)[i] + (if hit && i == n - 1 then 1 else 0) by {
        if hit {
          assert OnShelf(mods, shelf, n) == front + [n - 1];
        } else {
          assert OnShelf(mods, shelf, n) == front;
        }
      }
      if i == n - 1 {
        assert multiset(front)[i] == 0;
      }
    }
  }

  datatype Shelves = Shelves(browse: seq<int>, installed: seq<int>, loader: seq<int>)

  /** The three lists, each filtered and sorted by name. */
  function Shelve(mods: seq<Value>): Shelves {
    Shelves(SortByName(mods, OnShelf(mods, Browse, |mods|)),
            SortByName(mods, OnShelf(mods, Installed, |mods|)),
            SortByName(mods, OnShelf(mods, Loader, |mods|)))
  }

  /** `loadAndRenderMods`'s three lists. Each `filter` reads `installed` or
      `core` of every mod, so a `null` or `undefined` entry throws. */
  function Partition(mods: seq<Value>): Result<Shelves> {
    if exists i :: 0 <= i < |mods| && Nullish(mods[i]) then Err("Cannot read properties of null (reading 'installed')")
    else Ok(Shelve(mods))
  }

  /** How many times index `i` occurs in the sorted list of `shelf`. */
  lemma ShelfCountAt(mods: seq<Value>, shelf: Shelf, i: int)
    ensures multiset(SortByName(mods, OnShelf(mods, shelf, |mods|)))[i]
            == if 0 <= i < |mods| && ShelfOf(mods[i]) == shelf then 1 else 0
  {
    var s0 := OnShelf(mods, shelf, |mods|);
    OnShelfCount(mods, shelf, |mods|, i);
    SortPermutes(mods, s0);
  }

  /** Where mod `i` is listed, once no entry makes the filters throw. */
  lemma PartitionAt(mods: seq<Value>, i: int)
    ensures Partition(mods).Err? <==> exists j :: 0 <= j < |mods| && Nullish(mods[j])
    ensures Partition(mods).Ok? ==>
            var p := Partition(mods).value;
            && (0 <= i < |mods| ==> multiset(p.browse)[i] + multiset(p.installed)[i] + multiset(p.loader)[i] == 1)
            && (i in p.browse <==>
                  0 <= i < |mods| && !Truthy(Prop(mods[i], "installed")) && !Truthy(Prop(mods[i], "core")))
            && (i in p.installed <==>
                  0 <= i < |mods| && Truthy(Prop(mods[i], "installed")) && !Truthy(Prop(mods[i], "core")))
            && (i in p.loader <==> 0 <= i < |mods| && Truthy(Prop(mods[i], "core")))
  {
    if Partition(mods).Ok? {
      var p := Shelve(mods);
      assert Partition(mods).value == p;
      ShelfCountAt(mods, Browse, i);
      ShelfCountAt(mods, Installed, i);
      ShelfCountAt(mods, Loader, i);
      assert i in p.browse <==> i in multiset(p.browse);
      assert i in p.installed <==> i in multiset(p.installed);
      assert i in p.loader <==> i in multiset(p.loader);
    }
  }

  /** The lists are built exactly when no entry is `null` or `undefined`;
      then every mod appears exactly once in exactly one list: browse holds
      the mods neither installed nor core, installed the installed non-core
      ones, loader the core ones; each list is in name order. */
  lemma PartitionExact(mods: seq<Value>)
    ensures Partition(mods).Ok? <==> forall i :: 0 <= i < |mods| ==> !Nullish(mods[i])
    ensures Partition(mods).Ok? ==>
            var p := Partition(mods).value;
            && (forall i :: 0 <= i < |mods| ==>
                  multiset(p.browse)[i] + multiset(p.installed)[i] + multiset(p.loader)[i] == 1)
            && (forall i :: i in p.browse <==>
                  0 <= i < |mods| && !Truthy(Prop(mods[i], "installed")) && !Truthy(Prop(mods[i], "core")))
            && (forall i :: i in p.installed <==>
                  0 <= i < |mods| && Truthy(Prop(mods[i], "installed")) && !Truthy(Prop(mods[i], "core")))
            && (forall i :: i in p.loader <==> 0 <= i < |mods| && Truthy(Prop(mods[i], "core")))
            && SortedByName(mods, p.browse) && SortedByName(mods, p.installed) && SortedByName(mods, p.loader)
  {
    forall i: int {
      PartitionAt(mods, i);
    }
    SortSorted(mods, OnShelf(mods, Browse, |mods|));
    SortSorted(mods, OnShelf(mods, Installed, |mods|));
    SortSorted(mods, OnShelf(mods, Loader, |mods|));
  }

  /** An element occurring at two positions is counted twice. */
  lemma TwiceCounted(s: seq<int>, j: int, k: int)
    requires 0 <= j < k < |s| && s[j] == s[k]
    ensures multiset(s)[s[j]] >= 2
  {
    assert s == s[..k] + s[k..];
    assert s[j] in s[..k];
    assert s[k] in s[k..];
  }

  /** Each index in a list names a mod. */
  lemma ShelfBounds(mods: seq<Value>, s: seq<int>, shelf: Shelf)
    requires s == SortByName(mods, OnShelf(mods, shelf, |mods|))
    ensures forall j :: 0 <= j < |s| ==> 0 <= s[j] < |mods|
  {
    forall j | 0 <= j < |s| ensures 0 <= s[j] < |mods| {
      ShelfCountAt(mods, shelf, s[j]);
      assert s[j] in multiset(s);
    }
  }

  /** Each index in a list appears once. */
  lemma ShelfDistinct(mods: seq<Value>, s: seq<int>, shelf: Shelf)
    requires s == SortByName(mods, OnShelf(mods, shelf, |mods|))
    ensures forall j, k :: 0 <= j < k < |s| ==> s[j] != s[k]
  {
    forall j, k | 0 <= j < k < |s| ensures s[j] != s[k] {
      if s[j] == s[k] {
        TwiceCounted(s, j, k);
        ShelfCountAt(mods, shelf, s[j]);
      }
    }
  }

  // ---------------------------------------------------------------------
  // Requests to the main process

  datatype Call =
    | HashRequest(github: Value)               // `fetchHash`
    | FaroWrite(modPath: Value, mod: Value)    // `createFaro`
    | MarkerCreate(path: Value)                // `createFile(path, '.lovelyignore')`
    | MarkerDelete(path: Value)                // `deleteFile(path, '.lovelyignore')`
    | FolderDelete(modPath: Value)             // `deleteDirectory`
    | SpecialDelete(mod: Value)                // `deleteSpecial`
    | InstallRequest(mod: Value)               // `installMod`

  // ---------------------------------------------------------------------
  // The update check

  /** A mod the check asks GitHub about: it has a repository, is not already
      known to be outdated, and is not a one-version special download. */
  predicate Eligible(mod: Value) {
    Truthy(Prop(mod, "github")) && !Truthy(Prop(mod, "canUpdate")) && !Truthy(Prop(mod, "specialDownload"))
  }

  /** One mod of `CheckForUpdates`: a differing stored `sha` marks the mod
      outdated and persists it, a missing one is filled in memory, an equal
      one changes nothing; a failed request leaves the mod as it was. */
  function CheckOne(mod: Value, fetch: (string, Option<Value>) -> CommitReply): (r: (Value, seq<Call>))
    ensures !Eligible(mod) ==> r == (mod, [])
    ensures Eligible(mod) ==> |r.1| >= 1 && r.1[0] == HashRequest(Prop(mod, "github"))
    ensures mod.Obj? ==> r.0.Obj? && forall k :: k != "canUpdate" && k != "sha" ==> Prop(r.0, k) == Prop(mod, k)
    ensures |r.1| == 2 <==> mod.Obj? && Truthy(Prop(r.0, "canUpdate")) && !Truthy(Prop(mod, "canUpdate"))
    ensures |r.1| == 2 ==> r.1[1] == FaroWrite(Prop(mod, "modPath"), r.0)
    ensures |r.1| <= 2
  {
    if !Eligible(mod) then (mod, [])
    else
      var ask := [HashRequest(Prop(mod, "github"))];
      match FetchHashHandler(Prop(mod, "github"), mod, fetch)
      case Err(_) => (mod, ask)
      case Ok(fp) =>
        var (m, write) := CompareSha(mod, fp.sha);
        (m, if write then ask + [FaroWrite(Prop(mod, "modPath"), m)] else ask)
  }

  /** The stored `sha` against the latest commit's: a different stored one
      flags the mod, which is then written back (`true`); a missing one is
      filled in; an equal one changes nothing. */
  function CompareSha(mod: Value, latest: Value): (r: (Value, bool))
    ensures mod.Obj? ==> r.0.Obj? && forall k :: k != "canUpdate" && k != "sha" ==> Prop(r.0, k) == Prop(mod, k)
    ensures r.1 <==> mod.Obj? && Truthy(Prop(mod, "sha")) && !StrictEquals(Prop(mod, "sha"), latest)
    ensures r.1 ==> Prop(r.0, "canUpdate") == Bool(true)
    ensures !r.1 ==> Prop(r.0, "canUpdate") == Prop(mod, "canUpdate")
    ensures Truthy(Prop(mod, "sha")) ==> Prop(r.0, "sha") == Prop(mod, "sha")
    ensures Truthy(Prop(mod, "sha")) && !r.1 ==> r.0 == mod
    ensures mod.Obj? && !Truthy(Prop(mod, "sha")) ==> Prop(r.0, "sha") == latest
    ensures !mod.Obj? ==> r == (mod, false)
  {
    var sha := Prop(mod, "sha");
    if Truthy(sha) && !StrictEquals(sha, latest) then
      if mod.Obj? then (SetProp(mod, "canUpdate", Bool(true)), true)
      else (mod, false)   // a primitive takes no property
    else if !Truthy(sha) then (SetProp(mod, "sha", latest), false)
    else (mod, false)
  }

  /** What one eligible mod's check does, by the reply to its hash request:
      a failed request leaves the mod alone; a mod without a stored `sha`
      takes the fetched one and is not written; an equal stored `sha` changes
      nothing; a different one flags the mod and writes it to its sidecar. */
  lemma CheckOneOutcomes(mod: Value, fetch: (string, Option<Value>) -> CommitReply)
    requires Eligible(mod)
    ensures var res := FetchHashHandler(Prop(mod, "github"), mod, fetch);
            var r := CheckOne(mod, fetch);
            var ask := HashRequest(Prop(mod, "github"));
            && (res.Err? ==> r == (mod, [ask]))
            && (res.Ok? && mod.Obj? && !Truthy(Prop(mod, "sha")) ==>
                  Prop(r.0, "sha") == res.value.sha && r.1 == [ask])
            && (res.Ok? && Truthy(Prop(mod, "sha")) && StrictEquals(Prop(mod, "sha"), res.value.sha) ==>
                  r == (mod, [ask]))
            && (res.Ok? && mod.Obj? && Truthy(Prop(mod, "sha")) && !StrictEquals(Prop(mod, "sha"), res.value.sha) ==>
                  Prop(r.0, "canUpdate") == Bool(true) && Prop(r.0, "sha") == Prop(mod, "sha")
                  && r.1 == [ask, FaroWrite(Prop(mod, "modPath"), r.0)])
  {
    var res := FetchHashHandler(Prop(mod, "github"), mod, fetch);
    if res.Ok? {
      var _ := CompareSha(mod, res.value.sha);
    }
  }

  /** `CheckForUpdates(installedMods)`: the mods at `idxs`, in order. */
  function CheckAll(mods: seq<Value>, idxs: seq<int>, fetch: (string, Option<Value>) -> CommitReply): (r: (seq<Value>, seq<Call>))
    requires forall j :: 0 <= j < |idxs| ==> 0 <= idxs[j] < |mods|
    decreases |idxs|
    ensures |r.0| == |mods|
  {
    if idxs == [] then (mods, [])
    else
      var (m, c) := CheckOne(mods[idxs[0]], fetch);
      var (rest, cs) := CheckAll(mods[idxs[0] := m], idxs[1..], fetch);
      (rest, c + cs)
  }

  /** `CheckAll` from the `k`-th index on takes that index's mod first. */
  lemma CheckAllStep(mods: seq<Value>, idxs: seq<int>, k: nat, fetch: (string, Option<Value>) -> CommitReply)
    requires k < |idxs|
    requires forall j :: 0 <= j < |idxs| ==> 0 <= idxs[j] < |mods|
    ensures var (m, c) := CheckOne(mods[idxs[k]], fetch);
            var (rest, cs) := CheckAll(mods[idxs[k] := m], idxs[k + 1..], fetch);
            CheckAll(mods, idxs[k..], fetch) == (rest, c + cs)
  {
    assert idxs[k..][0] == idxs[k];
    assert idxs[k..][1..] == idxs[k + 1..];
  }

  /** Each mod's outcome depends on its own request only: a failure for one
      mod leaves it unchanged and the others are checked as usual; mods not
      in the list are untouched. */
  lemma {:induction false} CheckAllPointwise(mods: seq<Value>, idxs: seq<int>, fetch: (string, Option<Value>) -> CommitReply)
    requires forall j :: 0 <= j < |idxs| ==> 0 <= idxs[j] < |mods|
    requires forall j, k :: 0 <= j < k < |idxs| ==> idxs[j] != idxs[k]
    decreases |idxs|
    ensures forall i :: 0 <= i < |mods| ==>
              CheckAll(mods, idxs, fetch).0[i] == if i in idxs then CheckOne(mods[i], fetch).0 else mods[i]
  {
    if idxs != [] {
      var i0 := idxs[0];
      var m := CheckOne(mods[i0], fetch).0;
      var next := mods[i0 := m];
      CheckAllPointwise(next, idxs[1..], fetch);
      forall i | 0 <= i < |mods|
        ensures CheckAll(mods, idxs, fetch).0[i] == if i in idxs then CheckOne(mods[i], fetch).0 else mods[i]
      {
        assert i in idxs <==> i == i0 || i in idxs[1..];
        if i == i0 {
          assert i0 !in idxs[1..] by {
            forall j | 0 <= j < |idxs[1..]| ensures idxs[1..][j] != i0 {
              assert idxs[1..][j] == idxs[j + 1];
            }
          }
        }
      }
    }
  }

  /** A mod found outdated is persisted with its flag set, and the next check
      leaves it alone without asking GitHub again. */
  lemma FlaggedNotAskedAgain(mod: Value, fetch: (string, Option<Value>) -> CommitReply,
                             later: (string, Option<Value>) -> CommitReply)
    ensures var (m, c) := CheckOne(mod, fetch);
            |c| == 2 ==> c[1] == FaroWrite(Prop(mod, "modPath"), m) && CheckOne(m, later) == (m, [])
  {
  }

  /** A `304 Not Modified` answer from `main` hands back the stored
      fingerprint, so a mod with a stored `sha` is never marked outdated by it. */
  lemma NotModifiedKeepsMod(mod: Value, fetch: (string, Option<Value>) -> CommitReply)
    requires Eligible(mod) && Prop(mod, "sha").Str? && Truthy(Prop(mod, "sha"))
    requires HashRepo(Prop(mod, "github")).Ok?
    requires var url := CommitApiUrl(HashRepo(Prop(mod, "github")).value, "main");
             fetch(url, ConditionalEtag(mod)).Reply? && fetch(url, ConditionalEtag(mod)).status == 304
    ensures CheckOne(mod, fetch) == (mod, [HashRequest(Prop(mod, "github"))])
  {
    var repo := HashRepo(Prop(mod, "github")).value;
    assert FetchHashHandler(Prop(mod, "github"), mod, fetch) == FetchHash(repo, mod, fetch);
    assert FetchHash(repo, mod, fetch) == Ok(Fingerprint(Prop(mod, "sha"), Prop(mod, "etag")));
  }

  // ---------------------------------------------------------------------
  // Reloading

  /** What the renderer holds of the registry: the mods, the lists shown
      and whether the update check is still to run. */
  datatype View = View(allMods: Option<seq<Value>>, shelves: Shelves, checkUpdates: bool)

  /** `loadAndRenderMods()` given the mods the main process answers with
      (`None` for `null`): a null answer stops before anything is shown; a
      list the filters throw on is kept as `allMods` but nothing else
      changes; otherwise the lists are rebuilt and the update check runs
      over the installed list, the first time only. */
  function Reload(v: View, fetched: Option<seq<Value>>, fetch: (string, Option<Value>) -> CommitReply): (r: (View, seq<Call>))
    ensures r.0.checkUpdates == (v.checkUpdates && (fetched.None? || Partition(fetched.value).Err?))
    ensures !v.checkUpdates ==> r.1 == []
    ensures fetched.Some? ==> r.0.allMods.Some? && |r.0.allMods.value| == |fetched.value|
    ensures fetched.Some? && Partition(fetched.value).Ok? ==> r.0.shelves == Partition(fetched.value).value
    ensures fetched.Some? && Partition(fetched.value).Err? ==> r == (View(fetched, v.shelves, v.checkUpdates), [])
    ensures fetched.None? ==> r == (View(None, v.shelves, v.checkUpdates), [])
  {
    match fetched
    case None => (View(None, v.shelves, v.checkUpdates), [])
    case Some(mods) =>
      match Partition(mods)
      case Err(_) => (View(fetched, v.shelves, v.checkUpdates), [])
      case Ok(p) =>
        ShelfBounds(mods, p.installed, Installed);
        if v.checkUpdates then
          var (checked, cs) := CheckAll(mods, p.installed, fetch);
          (View(Some(checked), p, false), cs)
        else (View(Some(mods), p, false), [])
  }

  /** `Reload` once mods the filters accept have arrived. */
  lemma ReloadSome(v: View, mods: seq<Value>, fetch: (string, Option<Value>) -> CommitReply)
    requires Partition(mods).Ok?
    ensures forall j :: 0 <= j < |Shelve(mods).installed| ==> 0 <= Shelve(mods).installed[j] < |mods|
    ensures var p := Shelve(mods);
            Reload(v, Some(mods), fetch)
              == if v.checkUpdates then (View(Some(CheckAll(mods, p.installed, fetch).0), p, false), CheckAll(mods, p.installed, fetch).1)
                 else (View(Some(mods), p, false), [])
  {
    ShelfBounds(mods, Shelve(mods).installed, Installed);
  }

  /** The update check runs once per session: after a reload that built the
      lists, no later reload asks GitHub again; one whose filters threw
      leaves the check to come. */
  lemma CheckRunsOnce(v: View, first: seq<Value>, later: Option<seq<Value>>,
                      fetch: (string, Option<Value>) -> CommitReply, fetch2: (string, Option<Value>) -> CommitReply)
    ensures Partition(first).Ok? ==> Reload(Reload(v, Some(first), fetch).0, later, fetch2).1 == []
    ensures Partition(first).Err? ==> Reload(v, Some(first), fetch).0.checkUpdates == v.checkUpdates
  {
  }

  /** A list the filters throw on leaves everything but `allMods` as it was;
      otherwise the reload only rewrites the installed mods, and each of
      those only as the update rule says; browse and loader mods are kept. */
  lemma ReloadChecksInstalled(v: View, mods: seq<Value>, fetch: (string, Option<Value>) -> CommitReply)
    requires v.checkUpdates
    ensures Partition(mods).Err? ==> Reload(v, Some(mods), fetch) == (View(Some(mods), v.shelves, true), [])
    ensures Partition(mods).Ok? ==>
              forall i :: 0 <= i < |mods| ==>
                Reload(v, Some(mods), fetch).0.allMods.value[i]
                  == if ShelfOf(mods[i]) == Installed then CheckOne(mods[i], fetch).0 else mods[i]
  {
    if Partition(mods).Err? {
      return;
    }
    var p := Shelve(mods);
    ShelfBounds(mods, p.installed, Installed);
    ShelfDistinct(mods, p.installed, Installed);
    CheckAllPointwise(mods, p.installed, fetch);
    forall i | 0 <= i < |mods|
      ensures Reload(v, Some(mods), fetch).0.allMods.value[i]
                == if ShelfOf(mods[i]) == Installed then CheckOne(mods[i], fetch).0 else mods[i]
    {
      PartitionAt(mods, i);
    }
  }

  // ---------------------------------------------------------------------
  // Toggling

  /** The outcome of `find`: the position of the first match, no match, or
      a throw. */
  datatype Search = Found(index: nat) | NotFound | Throws

  /** `allMods.find(m => m.id === id)` from position `from`: the first mod
      with that id; reading `m.id` throws on a `null` or `undefined` entry
      reached before the match. */
  function FindMod(mods: seq<Value>, id: Value, from: nat): (r: Search)
    decreases |mods| - from
    ensures r.Found? ==> from <= r.index < |mods| && !Nullish(mods[r.index])
                         && StrictEquals(Prop(mods[r.index], "id"), id)
                         && forall j :: from <= j < r.index ==> !Nullish(mods[j]) && !StrictEquals(Prop(mods[j], "id"), id)
    ensures r.NotFound? ==> forall j :: from <= j < |mods| ==> !Nullish(mods[j]) && !StrictEquals(Prop(mods[j], "id"), id)
    ensures r.Throws? ==> exists j :: from <= j < |mods| && Nullish(mods[j])
                            && forall k :: from <= k < j ==> !Nullish(mods[k]) && !StrictEquals(Prop(mods[k], "id"), id)
  {
    if from >= |mods| then NotFound
    else if Nullish(mods[from]) then Throws
    else if StrictEquals(Prop(mods[from], "id"), id) then Found(from)
    else FindMod(mods, id, from + 1)
  }

  /** `toggleMod(id)`: flips `enabled`, then deletes the `.lovelyignore`
      marker when the mod is now enabled or creates it when disabled, and
      persists the mod's sidecar. A missing mod is reported; a throwing
      `find` rejects. Only the found mod's `enabled` changes. */
  function ToggleFn(mods: seq<Value>, id: Value): (r: Result<(seq<Value>, seq<Call>)>)
    ensures r.Ok? <==> FindMod(mods, id, 0).Found?
    ensures r.Ok? ==>
              var i := FindMod(mods, id, 0).index;
              var (after, cs) := r.value;
              && |after| == |mods|
              && (forall j :: 0 <= j < |mods| && j != i ==> after[j] == mods[j])
              && (mods[i].Obj? ==> && after[i].Obj?
                                   && Prop(after[i], "enabled") == Not(Prop(mods[i], "enabled"))
                                   && forall k :: k != "enabled" ==> Prop(after[i], k) == Prop(mods[i], k))
              && (!mods[i].Obj? ==> after[i] == mods[i])
              && cs == [if Truthy(Prop(after[i], "enabled")) then MarkerDelete(Prop(mods[i], "modFullPath"))
                        else MarkerCreate(Prop(mods[i], "modFullPath")),
                        FaroWrite(Prop(mods[i], "modPath"), after[i])]
  {
    match FindMod(mods, id, 0)
    case NotFound => Err("Mod not found!")
    case Throws => Err("Cannot read properties of null (reading 'id')")
    case Found(i) =>
      var mod := SetProp(mods[i], "enabled", Not(Prop(mods[i], "enabled")));
      var path := Prop(mod, "modFullPath");
      var marker := if Truthy(Prop(mod, "enabled")) then MarkerDelete(path) else MarkerCreate(path);
      Ok((mods[i := mod], [marker, FaroWrite(Prop(mod, "modPath"), mod)]))
  }

  /** Toggling twice restores the mod when `enabled` held a boolean, and on
      an object the two toggles act on the same marker in opposite
      directions; each toggle's marker action matches the state it leaves. */
  lemma ToggleTwice(mods: seq<Value>, id: Value)
    requires ToggleFn(mods, id).Ok?
    ensures var (once, c1) := ToggleFn(mods, id).value;
            var i := FindMod(mods, id, 0).index;
            && ToggleFn(once, id).Ok?
            && FindMod(once, id, 0) == Found(i)
            && (c1[0].MarkerDelete? <==> Truthy(Prop(once[i], "enabled")))
            && var (twice, c2) := ToggleFn(once, id).value;
               && (mods[i].Obj? ==> (c1[0].MarkerDelete? <==> c2[0].MarkerCreate?))
               && c1[0].path == c2[0].path
               && (mods[i].Obj? && Prop(mods[i], "enabled").Bool? ==> twice == mods)
  {
    var i := FindMod(mods, id, 0).index;
    var once := ToggleFn(mods, id).value.0;
    assert Prop(once[i], "id") == Prop(mods[i], "id");
    assert !Nullish(once[i]);
    assert forall j :: 0 <= j < |mods| && j != i ==> once[j] == mods[j];
    FindSame(mods, once, id, 0, i);
    var twice := ToggleFn(once, id).value.0;
    if mods[i].Obj? && Prop(mods[i], "enabled").Bool? {
      assert "enabled" in mods[i].fields;
      assert twice[i].fields == mods[i].fields;
      assert twice == mods;
    }
  }

  /** Finding by id is unaffected by a change that keeps every id and every
      `null` or `undefined` entry. */
  lemma {:induction false} FindSame(a: seq<Value>, b: seq<Value>, id: Value, from: nat, i: nat)
    requires |a| == |b| && i < |a|
    requires forall j :: 0 <= j < |a| ==> Prop(a[j], "id") == Prop(b[j], "id")
    requires forall j :: 0 <= j < |a| ==> (Nullish(a[j]) <==> Nullish(b[j]))
    decreases |a| - from
    ensures FindMod(b, id, from) == FindMod(a, id, from)
  {
    if from < |a| {
      FindSame(a, b, id, from + 1, i);
    }
  }

  // ---------------------------------------------------------------------
  // Deleting

  /** `mod.specialPaths?.length` is truthy. */
  predicate HasSpecialPaths(mod: Value) {
    match Prop(mod, "specialPaths")
    case Arr(items) => |items| > 0
    case Str(s) => |s| > 0
    case Obj(f) => Truthy(Get(f, "length"))
    case _ => false
  }

  /** The requests `deleteMod` sends for a mod it found: the folder first,
      then the special paths only when the folder went and the list is
      non-empty. */
  function DeleteSteps(mod: Value, folderRemoved: bool): (r: seq<Call>)
    ensures |r| >= 1 && r[0] == FolderDelete(Prop(mod, "modPath"))
    ensures SpecialDelete(mod) in r <==> folderRemoved && HasSpecialPaths(mod)
  {
    [FolderDelete(Prop(mod, "modPath"))] + (if folderRemoved && HasSpecialPaths(mod) then [SpecialDelete(mod)] else [])
  }

  /** Whether `deleteMod` gets as far as reloading the registry. */
  predicate DeleteReloads(mod: Value, folderRemoved: bool, specialRemoved: bool) {
    folderRemoved && (!HasSpecialPaths(mod) || specialRemoved)
  }

  // ---------------------------------------------------------------------
  // The registry, changed in place

  class Registry {
    var allMods: Option<seq<Value>>
    var shelves: Shelves
    var checkUpdates: bool
    var installQueue: seq<Value>
    var isInstalling: bool
    var calls: seq<Call>
    ghost var requested: seq<Value>   // every mod queued so far
    ghost var started: seq<Value>     // every install begun so far
    ghost var finished: nat           // installs that have ended

    /** Installs begin in the order they were queued, one at a time, and the
        queue is only waiting while an install runs. */
    ghost predicate Valid()
      reads this
    {
      && started + installQueue == requested
      && |started| == finished + (if isInstalling then 1 else 0)
      && (!isInstalling ==> installQueue == [])
    }

    function ViewOf(): View
      reads this
    {
      View(allMods, shelves, checkUpdates)
    }

    constructor()
      ensures Valid()
      ensures allMods == Some([]) && checkUpdates && !isInstalling && installQueue == [] && calls == []
    {
      allMods := Some([]);
      shelves := Shelves([], [], []);
      checkUpdates := true;
      installQueue := [];
      isInstalling := false;
      calls := [];
      requested := [];
      started := [];
      finished := 0;
    }

    /** `CheckForUpdates(installedMods)`, updating the mods in place. */
    method CheckForUpdates(installed: seq<int>, fetch: (string, Option<Value>) -> CommitReply)
      requires allMods.Some?
      requires forall j :: 0 <= j < |installed| ==> 0 <= installed[j] < |allMods.value|
      modifies this
      ensures allMods == Some(CheckAll(old(allMods.value), installed, fetch).0)
      ensures calls == old(calls) + CheckAll(old(allMods.value), installed, fetch).1
      ensures shelves == old(shelves) && checkUpdates == old(checkUpdates)
      ensures installQueue == old(installQueue) && isInstalling == old(isInstalling)
      ensures requested == old(requested) && started == old(started) && finished == old(finished)
    {
      var mods := allMods.value;
      var log := calls;
      for k := 0 to |installed|
        invariant unchanged(this)
        invariant |mods| == |old(allMods.value)|
        invariant CheckAll(mods, installed[k..], fetch).0 == CheckAll(old(allMods.value), installed, fetch).0
        invariant log + CheckAll(mods, installed[k..], fetch).1
                  == old(calls) + CheckAll(old(allMods.value), installed, fetch).1
      {
        var i := installed[k];
        var (m, c) := CheckOne(mods[i], fetch);
        CheckAllStep(mods, installed, k, fetch);
        ghost var rest := CheckAll(mods[i := m], installed[k + 1..], fetch);
        assert log + (c + rest.1) == (log + c) + rest.1;
        mods := mods[i := m];
        log := log + c;
      }
      assert installed[|installed|..] == [];
      allMods := Some(mods);
      calls := log;
    }

    /** `loadAndRenderMods()`; a throw from the filters ends it with
        `allMods` already assigned. */
    method LoadAndRender(fetched: Option<seq<Value>>, fetch: (string, Option<Value>) -> CommitReply)
      modifies this
      ensures var (v, cs) := Reload(old(ViewOf()), fetched, fetch);
              allMods == v.allMods && shelves == v.shelves && checkUpdates == v.checkUpdates && calls == old(calls) + cs
      ensures (installQueue, isInstalling, requested, started, finished)
              == old((installQueue, isInstalling, requested, started, finished))
    {
      ghost var before := ViewOf();
      if fetched.None? {
        allMods := None;
        return;
      }
      var mods := fetched.value;
      var parted := Partition(mods);
      if parted.Err? {
        assert Reload(before, fetched, fetch) == (View(fetched, shelves, checkUpdates), []);
        allMods := fetched;
        return;
      }
      var p := parted.value;
      assert p == Shelve(mods);
      ShelfBounds(mods, p.installed, Installed);
      ReloadSome(before, mods, fetch);
      if checkUpdates {
        allMods := fetched;
        checkUpdates := false;
        CheckForUpdates(p.installed, fetch);
      } else {
        allMods := fetched;
      }
      shelves := p;
    }

    /** `toggleMod(id)`; a registry that is `null` makes `find` throw. */
    method Toggle(id: Value) returns (r: Result<()>)
      modifies this
      ensures old(allMods).None? ==> r.Err? && allMods == old(allMods) && calls == old(calls)
      ensures old(allMods).Some? ==>
                match ToggleFn(old(allMods.value), id)
                case Err(e) => r == Err(e) && allMods == old(allMods) && calls == old(calls)
                case Ok((mods, cs)) => r.Ok? && allMods == Some(mods) && calls == old(calls) + cs
      ensures shelves == old(shelves) && checkUpdates == old(checkUpdates)
      ensures installQueue == old(installQueue) && isInstalling == old(isInstalling)
      ensures requested == old(requested) && started == old(started) && finished == old(finished)
    {
      if allMods.None? {
        return Err("Cannot read properties of null (reading 'find')");
      }
      var toggled := ToggleFn(allMods.value, id);
      if toggled.Err? {
        return Err(toggled.message);
      }
      var (mods, cs) := toggled.value;
      allMods := Some(mods);
      calls := calls + cs;
      return Ok(());
    }

    /** The synchronous part of `processInstallQueue()`: takes the oldest
        request and starts installing it. */
    method StartNext()
      requires started + installQueue == requested && |started| == finished && !isInstalling
      modifies this
      ensures Valid()
      ensures old(installQueue) == [] ==> installQueue == [] && started == old(started) && calls == old(calls)
      ensures old(installQueue) != [] ==>
                && installQueue == old(installQueue[1..])
                && started == old(started) + [old(installQueue[0])]
                && calls == old(calls) + [InstallRequest(old(installQueue[0]))]
      ensures requested == old(requested) && finished == old(finished)
      ensures allMods == old(allMods) && shelves == old(shelves) && checkUpdates == old(checkUpdates)
    {
      if installQueue == [] {
        return;
      }
      isInstalling := true;
      var mod := installQueue[0];
      installQueue := installQueue[1..];
      started := started + [mod];
      calls := calls + [InstallRequest(mod)];
    }

    /** `installMod(id)`: queues the mod behind earlier requests and starts it
        at once when nothing is installing. Returns whether it was queued: a
        mod that is not listed, or has no download icon, is not; a `find`
        that throws rejects. */
    method RequestInstall(id: Value, iconFound: bool) returns (r: Result<bool>)
      requires Valid()
      modifies this
      ensures Valid()
      ensures old(allMods).None? ==> r.Err? && requested == old(requested) && calls == old(calls)
      ensures old(allMods).Some? ==>
                var found := FindMod(old(allMods.value), id, 0);
                && (r.Err? <==> found.Throws?)
                && (r.Ok? ==> r.value == (found.Found? && iconFound))
                && requested == old(requested) + (if found.Found? && iconFound then [old(allMods.value)[found.index]] else [])
      ensures old(allMods).Some? ==>
                var found := FindMod(old(allMods.value), id, 0);
                var queued := found.Found? && iconFound;
                && calls == old(calls) + (if queued && !old(isInstalling)
                                          then [InstallRequest(old(allMods.value)[found.index])] else [])
                && installQueue == old(installQueue) + (if queued && old(isInstalling)
                                                        then [old(allMods.value)[found.index]] else [])
                && isInstalling == (old(isInstalling) || queued)
      ensures old(calls) <= calls
      ensures allMods == old(allMods) && shelves == old(shelves) && checkUpdates == old(checkUpdates)
      ensures finished == old(finished)
    {
      if allMods.None? {
        return Err("Cannot read properties of null (reading 'find')");
      }
      var found := FindMod(allMods.value, id, 0);
      if found.Throws? {
        return Err("Cannot read properties of null (reading 'id')");
      }
      if found.NotFound? || !iconFound {
        return Ok(false);
      }
      var mod := allMods.value[found.index];
      installQueue := installQueue + [mod];
      requested := requested + [mod];
      if !isInstalling {
        StartNext();
      }
      return Ok(true);
    }

    /** The rest of `processInstallQueue()` once the running install settles.
        `resolved` says whether the `install-mod` request resolved: it does
        both when the install succeeded and when the main process caught its
        failure and answered `{ success: false }`, and in both cases the
        registry is reloaded. Only a rejected request skips the reload.
        Either way the flag is cleared and the next request, if any, is
        started. */
    method FinishInstall(resolved: bool, fetched: Option<seq<Value>>, fetch: (string, Option<Value>) -> CommitReply)
      requires Valid() && isInstalling
      modifies this
      ensures Valid()
      ensures finished == old(finished) + 1 && requested == old(requested)
      ensures started == old(started) + (if old(installQueue) == [] then [] else [old(installQueue[0])])
      ensures isInstalling <==> old(installQueue) != []
      ensures resolved ==> ViewOf() == Reload(old(ViewOf()), fetched, fetch).0
      ensures !resolved ==> ViewOf() == old(ViewOf())
      ensures calls == old(calls) + (if resolved then Reload(old(ViewOf()), fetched, fetch).1 else [])
                                  + (if old(installQueue) == [] then [] else [InstallRequest(old(installQueue[0]))])
      ensures installQueue == if old(installQueue) == [] then [] else old(installQueue[1..])
    {
      if resolved {
        LoadAndRender(fetched, fetch);
      }
      isInstalling := false;
      finished := finished + 1;
      StartNext();
    }

    /** `deleteMod(id)`: removes the mod's folder, then its special paths,
        then reloads. A `null` registry or a `null` or `undefined` entry
        before the match makes `find` throw; every other failure, a reload
        whose filters throw included, is logged and ends the call normally. */
    method DeleteMod(id: Value, shown: bool, folderRemoved: bool, specialRemoved: bool,
                     fetched: Option<seq<Value>>, fetch: (string, Option<Value>) -> CommitReply) returns (r: Result<()>)
      modifies this
      ensures r.Err? <==> old(allMods).None? || FindMod(old(allMods.value), id, 0).Throws?
      ensures old(allMods).None? || !FindMod(old(allMods.value), id, 0).Found? || !shown ==>
                calls == old(calls) && ViewOf() == old(ViewOf())
      ensures old(allMods).Some? && FindMod(old(allMods.value), id, 0).Found? && shown ==>
                var mod := old(allMods.value)[FindMod(old(allMods.value), id, 0).index];
                var steps := DeleteSteps(mod, folderRemoved);
                if DeleteReloads(mod, folderRemoved, specialRemoved) then
                  var (v, cs) := Reload(old(ViewOf()), fetched, fetch);
                  ViewOf() == v && calls == old(calls) + steps + cs
                else
                  ViewOf() == old(ViewOf()) && calls == old(calls) + steps
      ensures (installQueue, isInstalling, requested, started, finished)
              == old((installQueue, isInstalling, requested, started, finished))
    {
      if allMods.None? {
        return Err("Cannot read properties of null (reading 'find')");
      }
      var found := FindMod(allMods.value, id, 0);
      if found.Throws? {
        return Err("Cannot read properties of null (reading 'id')");
      }
      if found.NotFound? || !shown {
        return Ok(());
      }
      var mod := allMods.value[found.index];
      ghost var steps := DeleteSteps(mod, folderRemoved);
      ghost var before := calls;
      calls := calls + [FolderDelete(Prop(mod, "modPath"))];
      if !folderRemoved {
        assert calls == before + steps;
        return Ok(());
      }
      if HasSpecialPaths(mod) {
        calls := calls + [SpecialDelete(mod)];
        if !specialRemoved {
          assert calls == before + steps;
          return Ok(());
        }
      }
      assert calls == before + steps;
      LoadAndRender(fetched, fetch);
      return Ok(());
    }

    /** `updateMod(id)`: the deletion runs to its end before the install is
        requested; a deletion that throws ends the update. */
    method UpdateMod(id: Value, shown: bool, folderRemoved: bool, specialRemoved: bool,
                     fetched: Option<seq<Value>>, fetch: (string, Option<Value>) -> CommitReply,
                     iconFound: bool) returns (r: Result<bool>)
      requires Valid()
      modifies this
      ensures Valid()
      ensures r.Err? <==> allMods.None? || FindMod(allMods.value, id, 0).Throws?
      ensures old(allMods).None? || FindMod(old(allMods.value), id, 0).Throws? ==>
                r.Err? && ViewOf() == old(ViewOf()) && calls == old(calls)
      ensures old(allMods).Some? && FindMod(old(allMods.value), id, 0).Found? && shown ==>
                old(calls) + DeleteSteps(old(allMods.value)[FindMod(old(allMods.value), id, 0).index], folderRemoved) <= calls
      ensures r == Ok(true) ==> |requested| == |old(requested)| + 1
      ensures r != Ok(true) ==> requested == old(requested)
    {
      var deleted := DeleteMod(id, shown, folderRemoved, specialRemoved, fetched, fetch);
      if deleted.Err? {
        return Err(deleted.message);
      }
      r := RequestInstall(id, iconFound);
    }
  }
}
