/** The main process's GitHub logic: recognising a repository URL, reading
    the commit fingerprint of a branch (with the `main` to `master`
    fallback), and the order in which README files are looked for. Network
    replies are inputs. */
module GitHub {
  import opened Wrappers
  import opened JsValues
  import opened Text

  const GithubPrefix: string := "https://github.com/"

  /** The characters `.` matches: anything but a line terminator. */
  predicate SingleLine(s: string) {
    forall i :: 0 <= i < |s| ==> !IsLineTerminator(s[i])
  }

  /** The rightmost `/` at or before `j` that is not the first character;
      -1 when there is none. */
  function SlashAtOrBefore(rest: string, j: int): (k: int)
    requires j < |rest|
    decreases j
    ensures k == -1 || (1 <= k <= j && rest[k] == '/')
    ensures forall m :: 1 <= m <= j && m > k ==> rest[m] != '/'
  {
    if j < 1 then -1 else if rest[j] == '/' then j else SlashAtOrBefore(rest, j - 1)
  }

  /** After the prefix, `(.+)\/(.+)$` needs a `/` with at least one
      character on each side, on a single line. */
  predicate RepoShape(rest: string) {
    SingleLine(rest) && exists k :: 1 <= k <= |rest| - 2 && rest[k] == '/'
  }

  /** The two groups of `/^https:\/\/github\.com\/(.+)\/(.+)$/`. The first
      group is greedy, so the split is at the last `/` that still leaves the
      second group a character. */
  function MatchGithubUrl(url: string): (r: Option<(string, string)>)
    ensures r.Some? ==> r.value.0 != "" && r.value.1 != ""
    ensures r.Some? ==> url == GithubPrefix + r.value.0 + "/" + r.value.1
    ensures r.Some? ==> forall m :: 0 <= m < |r.value.1| - 1 ==> r.value.1[m] != '/'
  {
    if !StartsWith(url, GithubPrefix) then None
    else
      var rest := url[|GithubPrefix|..];
      if !SingleLine(rest) || |rest| < 3 then None
      else
        var k := SlashAtOrBefore(rest, |rest| - 2);
        if k == -1 then None
        else
          assert url == GithubPrefix + rest[..k] + "/" + rest[k + 1..];
          Some((rest[..k], rest[k + 1..]))
  }

  /** The URL matches exactly when it is the prefix followed by a
      repository-shaped rest, and `group1/group2` gives back that rest. */
  lemma GithubUrlMatches(url: string)
    ensures MatchGithubUrl(url).Some? <==>
              StartsWith(url, GithubPrefix) && RepoShape(url[|GithubPrefix|..])
    ensures MatchGithubUrl(url).Some? ==>
              var g := MatchGithubUrl(url).value;
              g.0 + "/" + g.1 == url[|GithubPrefix|..]
  {
    if StartsWith(url, GithubPrefix) {
      var rest := url[|GithubPrefix|..];
      if RepoShape(rest) {
        var k :| 1 <= k <= |rest| - 2 && rest[k] == '/';
        assert SlashAtOrBefore(rest, |rest| - 2) != -1;
      }
      if MatchGithubUrl(url).Some? {
        var k := SlashAtOrBefore(rest, |rest| - 2);
        assert 1 <= k <= |rest| - 2 && rest[k] == '/';
        assert rest[..k] + "/" + rest[k + 1..] == rest;
      }
    }
  }

  /** `${match[1]}/${match[2]}`, or the format error. */
  function RepoFromUrl(url: string): Result<string> {
    match MatchGithubUrl(url)
    case None => Err("Invalid GitHub URL format.")
    case Some((owner, name)) => Ok(owner + "/" + name)
  }

  /** A repository-shaped URL yields its own path as the repository. */
  lemma RepoRoundTrip(repo: string)
    requires RepoShape(repo)
    ensures RepoFromUrl(GithubPrefix + repo) == Ok(repo)
  {
    var url := GithubPrefix + repo;
    assert url[..|GithubPrefix|] == GithubPrefix && url[|GithubPrefix|..] == repo;
    GithubUrlMatches(url);
  }

  /** `install-mod`'s check of `mod.github`: missing, not a string (`match`
      is not a function), or not a repository URL. */
  function InstallRepo(github: Value): (r: Result<string>)
    ensures !Truthy(github) ==> r == Err("No GitHub URL provided.")
    ensures r.Ok? ==> github.Str? && StartsWith(github.s, GithubPrefix)
                      && GithubPrefix + r.value == github.s
  {
    if !Truthy(github) then Err("No GitHub URL provided.")
    else if !github.Str? then Err("githubUrl.match is not a function")
    else
      GithubUrlMatches(github.s);
      RepoFromUrl(github.s)
  }

  /** `fetch-hash`'s check of its URL argument (no separate missing case). */
  function HashRepo(github: Value): (r: Result<string>)
    ensures r.Ok? ==> github.Str? && GithubPrefix + r.value == github.s
  {
    if !github.Str? then Err("githubUrl.match is not a function")
    else
      GithubUrlMatches(github.s);
      RepoFromUrl(github.s)
  }

  // ---------------------------------------------------------------------
  // Commit fingerprints

  /** A commit's `sha` with the `ETag` it was served under. */
  datatype Fingerprint = Fingerprint(sha: Value, etag: Value)

  /** The reply to a commit request: status, body as parsed (`None` when it
      does not parse), `ETag` header; or a request error. */
  datatype CommitReply = Reply(status: int, body: Option<Value>, etag: Value) | NoReply

  function CommitApiUrl(repo: string, branch: string): string {
    "https://api.github.com/repos/" + repo + "/commits/" + branch
  }

  /** The `if-none-match` header: sent only when the mod has a truthy ETag. */
  function ConditionalEtag(mod: Value): Option<Value> {
    if Truthy(Prop(mod, "etag")) then Some(Prop(mod, "etag")) else None
  }

  /** `fetchCommitHash`'s handling of the reply. */
  function ClassifyCommit(reply: CommitReply, mod: Value): (r: Result<Fingerprint>)
    ensures r.Ok? <==> reply.Reply? && (reply.status == 304
                        || (reply.status == 200 && reply.body.Some? && Truthy(Prop(reply.body.value, "sha"))))
    ensures r.Ok? && reply.status == 304 ==> r.value == Fingerprint(Prop(mod, "sha"), Prop(mod, "etag"))
    ensures r.Ok? && reply.status != 304 ==> Truthy(r.value.sha) && r.value.etag == reply.etag
  {
    match reply
    case NoReply => Err("Request failed")
    case Reply(status, body, etag) =>
      if status == 304 then Ok(Fingerprint(Prop(mod, "sha"), Prop(mod, "etag")))
      else if status == 404 || status == 403 then Err("Request failed with status code")
      else if status != 200 then Err("Failed to fetch commit data: HTTP status")
      else
        match body
        case None => Err("Failed to parse commit data")
        case Some(data) =>
          if Truthy(Prop(data, "sha")) then Ok(Fingerprint(Prop(data, "sha"), etag))
          else Err("Invalid commit data received")
  }

  /** `getCommitHash('main')`, then `'master'` only if that failed. The
      network is the function `fetch` from a URL and the conditional header
      to a reply. */
  function FetchHash(repo: string, mod: Value, fetch: (string, Option<Value>) -> CommitReply): (r: Result<Fingerprint>)
  {
    var onMain := ClassifyCommit(fetch(CommitApiUrl(repo, "main"), ConditionalEtag(mod)), mod);
    if onMain.Ok? then onMain
    else ClassifyCommit(fetch(CommitApiUrl(repo, "master"), ConditionalEtag(mod)), mod)
  }

  /** The fingerprint is `main`'s whenever `main` answers, `master`'s
      otherwise, and an error only when both fail. */
  lemma BranchFallback(repo: string, mod: Value, fetch: (string, Option<Value>) -> CommitReply)
    ensures var onMain := ClassifyCommit(fetch(CommitApiUrl(repo, "main"), ConditionalEtag(mod)), mod);
            var onMaster := ClassifyCommit(fetch(CommitApiUrl(repo, "master"), ConditionalEtag(mod)), mod);
            && (onMain.Ok? ==> FetchHash(repo, mod, fetch) == onMain)
            && (onMain.Err? ==> FetchHash(repo, mod, fetch) == onMaster)
            && (FetchHash(repo, mod, fetch).Err? <==> onMain.Err? && onMaster.Err?)
  {
  }

  /** The `fetch-hash` handler. */
  function FetchHashHandler(githubUrl: Value, mod: Value,
                            fetch: (string, Option<Value>) -> CommitReply): (r: Result<Fingerprint>)
    ensures HashRepo(githubUrl).Err? ==> r.Err?
    ensures HashRepo(githubUrl).Ok? ==> r == FetchHash(HashRepo(githubUrl).value, mod, fetch)
  {
    var repo :- HashRepo(githubUrl);
    FetchHash(repo, mod, fetch)
  }

  /** For a URL the handler accepts, its answer is the `main` branch's
      fingerprint when `main` answers and the `master` branch's otherwise; it
      fails only when the URL is refused or both branches fail. */
  lemma HandlerFallback(githubUrl: Value, mod: Value, fetch: (string, Option<Value>) -> CommitReply)
    ensures var r := FetchHashHandler(githubUrl, mod, fetch);
            HashRepo(githubUrl).Ok? ==>
              var repo := HashRepo(githubUrl).value;
              var onMain := ClassifyCommit(fetch(CommitApiUrl(repo, "main"), ConditionalEtag(mod)), mod);
              var onMaster := ClassifyCommit(fetch(CommitApiUrl(repo, "master"), ConditionalEtag(mod)), mod);
              && (onMain.Ok? ==> r == onMain)
              && (onMain.Err? ==> r == onMaster)
    ensures FetchHashHandler(githubUrl, mod, fetch).Err? <==>
              HashRepo(githubUrl).Err? || FetchHash(HashRepo(githubUrl).value, mod, fetch).Err?
  {
    if HashRepo(githubUrl).Ok? {
      BranchFallback(HashRepo(githubUrl).value, mod, fetch);
    }
  }

  // ---------------------------------------------------------------------
  // README lookup

  const Branches: seq<string> := ["main", "master"]
  const ReadmeNames: seq<string> := ["README.md", "readme.md", "Readme.md"]
  const ReadmeMissing: string := "README not found on main or master branch with available filenames."

  /** The raw URL of one README candidate: the first `github.com` of the
      repository URL becomes `raw.githubusercontent.com`. */
  function ReadmeUrl(repoUrl: string, branch: string, file: string): string {
    ReplaceFirst(repoUrl, "github.com", "raw.githubusercontent.com") + "/" + branch + "/" + file
  }

  /** The six candidates, branch by branch, file name by file name. */
  function ReadmeCandidates(repoUrl: string): (r: seq<string>)
    ensures |r| == |Branches| * |ReadmeNames|
    ensures forall i :: 0 <= i < |r| ==> r[i] == ReadmeUrl(repoUrl, Branches[i / 3], ReadmeNames[i % 3])
  {
    seq(6, i requires 0 <= i < 6 => ReadmeUrl(repoUrl, Branches[i / 3], ReadmeNames[i % 3]))
  }

  /** The first candidate that `get` serves. */
  function FirstServed(urls: seq<string>, get: string -> Option<string>): (r: Result<string>)
    ensures r.Ok? ==> exists i :: 0 <= i < |urls| && get(urls[i]) == Some(r.value)
                                  && forall j :: 0 <= j < i ==> get(urls[j]).None?
    ensures r.Err? <==> forall i :: 0 <= i < |urls| ==> get(urls[i]).None?
    ensures r.Err? ==> r == Err(ReadmeMissing)
  {
    if urls == [] then Err(ReadmeMissing)
    else if get(urls[0]).Some? then Ok(get(urls[0]).value)
    else
      var r := FirstServed(urls[1..], get);
      assert forall i :: 1 <= i < |urls| ==> urls[i] == urls[1..][i - 1];
      if r.Ok? then
        var i :| 0 <= i < |urls[1..]| && get(urls[1..][i]) == Some(r.value)
                  && forall j :: 0 <= j < i ==> get(urls[1..][j]).None?;
        assert get(urls[i + 1]) == Some(r.value);
        r
      else r
  }

  /** The first candidate served, once every earlier one was refused. */
  lemma {:induction false} FirstServedAt(urls: seq<string>, get: string -> Option<string>, i: nat)
    requires i < |urls| && get(urls[i]).Some?
    requires forall j :: 0 <= j < i ==> get(urls[j]).None?
    ensures FirstServed(urls, get) == Ok(get(urls[i]).value)
  {
    if i > 0 {
      assert urls[1..][i - 1] == urls[i];
      FirstServedAt(urls[1..], get, i - 1);
    }
  }

  /** What `fetch-readme` resolves to: the first served candidate, rendered. */
  function ReadmeResult(repoUrl: string, get: string -> Option<string>, render: string -> string): Result<string> {
    match FirstServed(ReadmeCandidates(repoUrl), get)
    case Ok(markdown) => Ok(render(markdown))
    case Err(e) => Err(e)
  }

  /** Candidate `3 * b + f` is file name `f` on branch `b`. */
  lemma CandidateAt(repoUrl: string, b: nat, f: nat)
    requires b < |Branches| && f < |ReadmeNames|
    ensures 3 * b + f < |ReadmeCandidates(repoUrl)|
    ensures ReadmeCandidates(repoUrl)[3 * b + f] == ReadmeUrl(repoUrl, Branches[b], ReadmeNames[f])
  {
    assert (3 * b + f) / 3 == b && (3 * b + f) % 3 == f;
  }

  /** The `fetch-readme` handler: two nested loops that return on the first
      candidate served and throw after the last. */
  method FetchReadme(repoUrl: string, get: string -> Option<string>, render: string -> string)
    returns (r: Result<string>)
    ensures r == ReadmeResult(repoUrl, get, render)
  {
    ghost var urls := ReadmeCandidates(repoUrl);
    var b := 0;
    while b < |Branches|
      invariant 0 <= b <= |Branches|
      invariant forall j :: 0 <= j < 3 * b ==> get(urls[j]).None?
    {
      var f := 0;
      while f < |ReadmeNames|
        invariant 0 <= f <= |ReadmeNames|
        invariant forall j :: 0 <= j < 3 * b + f ==> get(urls[j]).None?
      {
        var url := ReadmeUrl(repoUrl, Branches[b], ReadmeNames[f]);
        CandidateAt(repoUrl, b, f);
        var served := get(url);
        if served.Some? {
          FirstServedAt(urls, get, 3 * b + f);
          return Ok(render(served.value));
        }
        f := f + 1;
      }
      b := b + 1;
    }
    return Err(ReadmeMissing);
  }
}
