/** The GitHub URL helpers of src/utils/githubUtils.ts: `parseGitHubUrl`, which
    runs the unanchored pattern  github\.com\/([^\/]+)\/([^\/]+)\/?  over a URL,
    and `getDownloadUrl`, which builds the archive URL of a branch. The network
    probe `getPrimaryBranch` is not part of this model. */
module GitHubUtils {
  import opened Results

  datatype GitHubRepo = GitHubRepo(owner: string, name: string)

  const Host: string := "github.com/"
  const InvalidUrl: string := "Invalid GitHub URL"

  /** The end of the run of non-slash characters that starts at `i`. */
  function SegmentEnd(s: string, i: nat): (j: nat)
    requires i <= |s|
    ensures i <= j <= |s|
    ensures forall k :: i <= k < j ==> s[k] != '/'
    ensures j == |s| || s[j] == '/'
    decreases |s| - i
  {
    if i == |s| || s[i] == '/' then i else SegmentEnd(s, i + 1)
  }

  /** A run of non-slash characters that stops at a slash or at the end is the whole run. */
  lemma {:induction false} SegmentEndOf(s: string, i: nat, j: nat)
    requires i <= j <= |s|
    requires forall k :: i <= k < j ==> s[k] != '/'
    requires j == |s| || s[j] == '/'
    ensures SegmentEnd(s, i) == j
    decreases j - i
  {
    if i < j {
      SegmentEndOf(s, i + 1, j);
    }
  }

  /** What it means for the pattern to match at position `p` with the two groups
      `owner` and `name`: the literal "github.com/", a non-empty slash-free owner,
      a slash, and a non-empty slash-free name that runs up to a slash or the end
      (the `+` is greedy and the trailing `\/?` never forces it to give back). */
  ghost predicate PatternMatchesAt(url: string, p: nat, owner: string, name: string)
  {
    var o := p + |Host|;
    var oe := o + |owner|;
    var e := oe + 1 + |name|;
    && owner != [] && name != [] && '/' !in owner && '/' !in name
    && e <= |url|
    && url[p..o] == Host && url[o..oe] == owner && url[oe] == '/' && url[oe + 1..e] == name
    && (e == |url| || url[e] == '/')
  }

  /** The pattern tried at position `p`. */
  function MatchAt(url: string, p: nat): (r: Option<GitHubRepo>)
    ensures r.Some? ==> PatternMatchesAt(url, p, r.value.owner, r.value.name)
  {
    if p + |Host| > |url| || url[p..p + |Host|] != Host then None
    else
      var o := p + |Host|;
      var oe := SegmentEnd(url, o);
      if oe == o || oe == |url| then None
      else
        var ne := SegmentEnd(url, oe + 1);
        if ne == oe + 1 then None
        else
          var owner, name := url[o..oe], url[oe + 1..ne];
          assert forall k :: 0 <= k < |owner| ==> owner[k] == url[o + k];
          assert forall k :: 0 <= k < |name| ==> name[k] == url[oe + 1 + k];
          Some(GitHubRepo(owner, name))
  }

  /** Where the pattern matches, MatchAt finds it, with the same groups. */
  lemma MatchAtComplete(url: string, p: nat, owner: string, name: string)
    requires PatternMatchesAt(url, p, owner, name)
    ensures MatchAt(url, p) == Some(GitHubRepo(owner, name))
  {
    var o := p + |Host|;
    var oe := o + |owner|;
    var e := oe + 1 + |name|;
    assert forall k :: o <= k < oe ==> url[k] == owner[k - o];
    assert forall k :: oe + 1 <= k < e ==> url[k] == name[k - oe - 1];
    SegmentEndOf(url, o, oe);
    SegmentEndOf(url, oe + 1, e);
  }

  /** MatchAt finds a match exactly when the pattern matches there, and then
      its groups are the only ones that match. */
  lemma MatchAtIff(url: string, p: nat, owner: string, name: string)
    ensures MatchAt(url, p) == Some(GitHubRepo(owner, name)) <==> PatternMatchesAt(url, p, owner, name)
  {
    if PatternMatchesAt(url, p, owner, name) {
      MatchAtComplete(url, p, owner, name);
    }
  }

  /** The leftmost position at or after `p` where the pattern matches. */
  function FirstMatchFrom(url: string, p: nat): (r: Option<nat>)
    ensures r.Some? ==> p <= r.value && MatchAt(url, r.value).Some?
    ensures r.Some? ==> forall q :: p <= q < r.value ==> MatchAt(url, q).None?
    ensures r.None? ==> forall q :: p <= q ==> MatchAt(url, q).None?
    decreases |url| + 1 - p
  {
    if p > |url| then None
    else if MatchAt(url, p).Some? then Some(p)
    else FirstMatchFrom(url, p + 1)
  }

  /** `parseGitHubUrl(url)`: the groups of the leftmost match, or the error
      "Invalid GitHub URL" when the pattern matches nowhere. */
  function ParseGitHubUrl(url: string): (r: Result<GitHubRepo, string>)
    ensures r.Failure? <==> forall p: nat, owner, name :: !PatternMatchesAt(url, p, owner, name)
    ensures r.Failure? ==> r.error == InvalidUrl
    ensures r.Success? ==> exists p: nat :: PatternMatchesAt(url, p, r.value.owner, r.value.name)
                                && forall q: nat, o, n :: q < p ==> !PatternMatchesAt(url, q, o, n)
  {
    match FirstMatchFrom(url, 0)
    case None =>
      assert forall p: nat, owner, name :: !PatternMatchesAt(url, p, owner, name) by {
        forall p: nat, owner, name ensures !PatternMatchesAt(url, p, owner, name) {
          MatchAtIff(url, p, owner, name);
        }
      }
      Failure(InvalidUrl)
    case Some(p) =>
      var repo := MatchAt(url, p).value;
      MatchAtIff(url, p, repo.owner, repo.name);
      assert forall q: nat, o, n :: q < p ==> !PatternMatchesAt(url, q, o, n) by {
        forall q: nat, o, n | q < p ensures !PatternMatchesAt(url, q, o, n) {
          MatchAtIff(url, q, o, n);
        }
      }
      Success(repo)
  }

  /** `getDownloadUrl(repo, branch)`: the branch archive, which `parseGitHubUrl`
      reads back as the same repository whenever owner and name are non-empty
      and slash-free. */
  function GetDownloadUrl(repo: GitHubRepo, branch: string): (url: string)
    ensures Scheme + Host <= url && url[|url| - 4..] == ".zip"
    ensures repo.owner != [] && repo.name != [] && '/' !in repo.owner && '/' !in repo.name ==>
              ParseGitHubUrl(url) == Success(repo)
  {
    var url := Scheme + Host + repo.owner + "/" + repo.name + "/" + "archive/refs/heads/" + branch + ".zip";
    var middle := repo.owner + "/" + repo.name + "/" + "archive/refs/heads/" + branch;
    assert url == (Scheme + Host) + middle + ".zip";
    assert url[|url| - 4..] == ".zip";
    if repo.owner != [] && repo.name != [] && '/' !in repo.owner && '/' !in repo.name then
      DownloadUrlRoundTrip(repo, branch, url);
      url
    else
      url
  }

  const Scheme: string := "https://"

  /** No match can start inside the "https://" scheme: none of its characters is a 'g'. */
  lemma NoMatchInScheme(rest: string, q: nat)
    requires q < |Scheme|
    ensures MatchAt(Scheme + rest, q).None?
  {
    var url := Scheme + rest;
    assert url[q] == Scheme[q] != Host[0];
    if q + |Host| <= |url| {
      assert url[q..q + |Host|][0] == url[q];
    }
  }

  /** The pattern matches right after any prefix that is followed by
      "github.com/", an owner, a slash, a name and a slash. */
  lemma MatchAfterPrefix(pre: string, owner: string, name: string, tail: string)
    requires owner != [] && name != [] && '/' !in owner && '/' !in name
    ensures PatternMatchesAt(pre + Host + owner + "/" + name + "/" + tail, |pre|, owner, name)
  {
    var url := pre + Host + owner + "/" + name + "/" + tail;
    var p := |pre|;
    var o := p + |Host|;
    var oe := o + |owner|;
    var e := oe + 1 + |name|;
    assert url[p..o] == Host;
    assert url[o..oe] == owner;
    assert url[oe] == '/';
    assert url[oe + 1..e] == name;
    assert url[e] == '/';
  }

  /** Parsing a download URL gives back the repository it was built from, for
      any branch, when owner and name are non-empty and slash-free. */
  lemma DownloadUrlRoundTrip(repo: GitHubRepo, branch: string, url: string)
    requires repo.owner != [] && repo.name != []
    requires '/' !in repo.owner && '/' !in repo.name
    requires url == Scheme + Host + repo.owner + "/" + repo.name + "/" + "archive/refs/heads/" + branch + ".zip"
    ensures ParseGitHubUrl(url) == Success(repo)
  {
    var tail := "archive/refs/heads/" + branch + ".zip";
    var rest := Host + repo.owner + "/" + repo.name + "/" + tail;
    assert url == Scheme + rest;
    forall q | 0 <= q < |Scheme| ensures MatchAt(url, q).None? {
      NoMatchInScheme(rest, q);
    }
    assert url == Scheme + Host + repo.owner + "/" + repo.name + "/" + tail;
    MatchAfterPrefix(Scheme, repo.owner, repo.name, tail);
    var r := ParseGitHubUrl(url);
    assert r.Success?;
    var p: nat :| PatternMatchesAt(url, p, r.value.owner, r.value.name)
                  && forall q: nat, o, n :: q < p ==> !PatternMatchesAt(url, q, o, n);
    if p < |Scheme| {
      MatchAtComplete(url, p, r.value.owner, r.value.name);
      assert false;
    }
    assert p == |Scheme|;
    MatchAtComplete(url, p, r.value.owner, r.value.name);
    MatchAtComplete(url, p, repo.owner, repo.name);
  }
}
