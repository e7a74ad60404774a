/** What both downloaders share: the parsed repository, the reference chosen for
    it, the outcome of one run, and the reference definitions their URL parsing
    and URL building are proved against. */
module Repo {
  import opened CStr
  import opened Json
  import Config

  /** What `parse_repo_url` hands back: a service name and the two path segments. */
  datatype RepoRef = RepoRef(service: string, owner: string, repo: string)

  /** The hosts both parsers accept, and the service name each stands for. */
  const Hosts: map<string, string> := map["github.com" := "github", "gitlab.com" := "gitlab", "codeberg.org" := "codeberg"]

  /** The service names `download_release` accepts. */
  predicate KnownService(service: string)
  {
    service == "github" || service == "gitlab" || service == "codeberg"
  }

  /** A URL cut into the pieces the parsers look for:
      `scheme://host/owner/rest`. */
  datatype Slots = Slots(scheme: string, host: string, owner: string, rest: string)

  function Join(s: Slots): string
  {
    s.scheme + "://" + s.host + "/" + s.owner + "/" + s.rest
  }

  /** The cut a left-to-right reader finds: the `://` after the scheme is the first
      one in the URL, and neither the host nor the owner holds a `/`. */
  ghost predicate Canonical(s: Slots)
  {
    !Contains(s.scheme + ":/", "://") && '/' !in s.host && '/' !in s.owner
  }

  /** The repository name: the rest of the path, cut at the first `.git` in it. */
  function CutAtGit(rest: string): (r: string)
    ensures r <= rest && !Contains(r, ".git")
    ensures Contains(rest, ".git") ==> FirstMatch(rest, ".git", |r|)
    ensures !Contains(rest, ".git") ==> r == rest
  {
    match Find(rest, ".git")
    case None => rest
    case Some(k) =>
      assert forall j: nat :: MatchAt(rest[..k], ".git", j) ==> MatchAt(rest, ".git", j) by {
        forall j: nat | MatchAt(rest[..k], ".git", j) ensures MatchAt(rest, ".git", j) {
          MatchInPrefix(rest, k, ".git", j);
        }
      }
      rest[..k]
  }

  /** `.git` cannot straddle the end of a text that does not contain it and a
      following `.git`, because no proper prefix of `.git` is also a suffix of it. */
  lemma NoGitAcrossBoundary(r: string)
    requires !Contains(r, ".git")
    ensures !Contains(r + ".gi", ".git")
  {
    var t := r + ".gi";
    forall j: nat
      ensures !MatchAt(t, ".git", j)
    {
      if j + 4 <= |r| {
        assert t[j..j + 4] == r[j..j + 4];
        assert !MatchAt(r, ".git", j);
      } else if j + 4 <= |t| {
        var k := |r| - j;
        assert t[j..j + 4][k] == '.';
      }
    }
  }

  /** Cutting `repo + ".git" + tail` gives `repo` back when `repo` has no `.git`. */
  lemma CutAtGitSuffix(repo: string, tail: string)
    requires !Contains(repo, ".git")
    ensures CutAtGit(repo + ".git" + tail) == repo
  {
    NoGitAcrossBoundary(repo);
    assert ".git"[..3] == ".gi";
    FindAfter(repo, ".git", tail);
    assert (repo + ".git" + tail)[..|repo|] == repo;
  }

  /** `parse_repo_url` (tinygit.c and planck.c carry the same code): the host
      runs from after the first `://` to the next `/`. Any failure is -1, here
      `None`. */
  function ParseRepoUrl(url: string): (r: Option<RepoRef>)
    ensures r.Some? ==> KnownService(r.value.service) && '/' !in r.value.owner && !Contains(r.value.repo, ".git")
    ensures !Contains(url, "://") ==> r.None?
  {
    match Find(url, "://")
    case None => None
    case Some(p) => ParseHostPath(url[p + 3..])
  }

  /** After `://`: the host ends at the next `/`, which must exist. */
  function ParseHostPath(hostStart: string): (r: Option<RepoRef>)
    ensures r.Some? ==> KnownService(r.value.service) && '/' !in r.value.owner && !Contains(r.value.repo, ".git")
    ensures '/' !in hostStart ==> r.None?
  {
    match FindChar(hostStart, '/')
    case None => None
    case Some(h) => ParseOwnerRepo(hostStart[..h], hostStart[h + 1..])
  }

  /** The host must be one of the three; the owner ends at the next `/`, which
      must exist; the repository is the rest up to its first `.git`. */
  function ParseOwnerRepo(host: string, path: string): (r: Option<RepoRef>)
    ensures r.Some? ==> KnownService(r.value.service) && '/' !in r.value.owner && !Contains(r.value.repo, ".git")
    ensures host !in Hosts || '/' !in path ==> r.None?
  {
    match ServiceOf(host)
    case None => None
    case Some(svc) =>
      match FindChar(path, '/')
      case None => None
      case Some(o) => Some(RepoRef(svc, path[..o], CutAtGit(path[o + 1..])))
  }

  /** The `strcmp` chain on the host: exactly the three hosts of `Hosts` name a
      service. */
  function ServiceOf(host: string): (r: Option<string>)
    ensures r.Some? <==> host in Hosts
    ensures r.Some? ==> r.value == Hosts[host] && KnownService(r.value)
  {
    if host == "github.com" then Some("github")
    else if host == "gitlab.com" then Some("gitlab")
    else if host == "codeberg.org" then Some("codeberg")
    else None
  }

  /** The scheme step: the first `://` of `scheme + "://" + tail` is the one after
      the scheme when the scheme cannot produce an earlier one. */
  lemma SchemeStep(scheme: string, tail: string)
    requires !Contains(scheme + ":/", "://")
    ensures ParseRepoUrl(scheme + "://" + tail) == ParseHostPath(tail)
  {
    assert "://"[..2] == ":/";
    FindAfter(scheme, "://", tail);
    assert (scheme + "://" + tail)[|scheme| + 3..] == tail;
  }

  /** The host step: a host without `/` ends at the `/` after it. */
  lemma HostStep(host: string, path: string)
    requires '/' !in host
    ensures ParseHostPath(host + "/" + path) == ParseOwnerRepo(host, path)
  {
    var t := host + "/" + path;
    assert t == host + ['/'] + path;
    FindCharAfter(host, '/', path);
    assert t[..|host|] == host && t[|host| + 1..] == path;
  }

  /** The owner step: an owner without `/` ends at the `/` after it. */
  lemma OwnerStep(host: string, owner: string, rest: string)
    requires '/' !in owner
    ensures ParseOwnerRepo(host, owner + "/" + rest) ==
      if host in Hosts then Some(RepoRef(Hosts[host], owner, CutAtGit(rest))) else None
  {
    var t := owner + "/" + rest;
    assert t == owner + ['/'] + rest;
    FindCharAfter(owner, '/', rest);
    assert t[..|owner|] == owner && t[|owner| + 1..] == rest;
  }

  /** `Join` read from the right: the scheme, then the host, then the path. */
  lemma JoinNested(s: Slots)
    ensures Join(s) == s.scheme + "://" + (s.host + "/" + (s.owner + "/" + s.rest))
  {
  }

  /** Every canonical `scheme://host/owner/rest` parses: to the host's service,
      the owner, and the rest cut at `.git` when the host is one of the three;
      to failure otherwise. */
  lemma ParseJoin(s: Slots)
    requires Canonical(s)
    ensures ParseRepoUrl(Join(s)) ==
      if s.host in Hosts then Some(RepoRef(Hosts[s.host], s.owner, CutAtGit(s.rest))) else None
  {
    var path := s.owner + "/" + s.rest;
    var tail := s.host + "/" + path;
    JoinNested(s);
    SchemeStep(s.scheme, tail);
    HostStep(s.host, path);
    OwnerStep(s.host, s.owner, s.rest);
  }

  /** Where the first `://` is found, the text splits around it and the part
      before it (with `:/`) has no earlier `://`. */
  lemma SchemeSplit(url: string, p: nat)
    requires FirstMatch(url, "://", p)
    ensures url == url[..p] + "://" + url[p + 3..]
    ensures !Contains(url[..p] + ":/", "://")
  {
    assert url[p..p + 3] == "://";
    assert url[..p + 3] == url[..p] + url[p..p + 3];
    var t := url[..p] + ":/";
    assert t == url[..p + 2] by {
      assert url[p..p + 3][0] == url[p];
      assert url[p..p + 3][1] == url[p + 1];
    }
    forall j: nat
      ensures !MatchAt(t, "://", j)
    {
      if j + 3 <= |t| {
        assert t[j..j + 3] == url[j..j + 3];
        assert !MatchAt(url, "://", j);
      }
    }
  }

  /** Where the first `/` is found, the text splits around it and the part
      before it has none. */
  lemma SlashSplit(t: string, h: nat)
    requires FindChar(t, '/') == Some(h)
    ensures t == t[..h] + "/" + t[h + 1..] && '/' !in t[..h]
  {
  }

  /** The reading of the text after `://` when it parses: a known host, an
      owner, and the rest, with no `/` in the host or the owner. */
  lemma HostPathSplit(hostStart: string) returns (host: string, owner: string, rest: string)
    requires ParseHostPath(hostStart).Some?
    ensures hostStart == host + "/" + (owner + "/" + rest)
    ensures '/' !in host && '/' !in owner && host in Hosts
  {
    var h := FindChar(hostStart, '/').value;
    SlashSplit(hostStart, h);
    var path := hostStart[h + 1..];
    host := hostStart[..h];
    assert ParseOwnerRepo(host, path).Some?;
    var o := FindChar(path, '/').value;
    SlashSplit(path, o);
    owner, rest := path[..o], path[o + 1..];
  }

  /** The reading of a URL that parses: canonical, and at a known host. */
  lemma SplitOf(url: string) returns (s: Slots)
    requires ParseRepoUrl(url).Some?
    ensures Canonical(s) && Join(s) == url && s.host in Hosts
  {
    var p := Find(url, "://").value;
    SchemeSplit(url, p);
    var host, owner, rest := HostPathSplit(url[p + 3..]);
    s := Slots(url[..p], host, owner, rest);
    JoinNested(s);
  }

  /** Every URL that parses is canonical `scheme://host/owner/rest` for a known host. */
  lemma ParseSplits(url: string)
    requires ParseRepoUrl(url).Some?
    ensures exists s: Slots :: (Canonical(s) && Join(s) == url && s.host in Hosts &&
      ParseRepoUrl(url) == Some(RepoRef(Hosts[s.host], s.owner, CutAtGit(s.rest))))
  {
    var s := SplitOf(url);
    ParseJoin(s);
  }

  /** `parse_repo_url` fails exactly when the URL has no canonical
      `scheme://host/owner/rest` reading with one of the three hosts: no `://`,
      no `/` after the host, an unknown host, or no `/` after the owner. */
  lemma ParseFailsIff(url: string)
    ensures ParseRepoUrl(url).None? <==>
      forall s: Slots :: Canonical(s) && Join(s) == url ==> s.host !in Hosts
  {
    if ParseRepoUrl(url).None? {
      forall s: Slots | Canonical(s) && Join(s) == url
        ensures s.host !in Hosts
      {
        ParseJoin(s);
      }
    } else {
      ParseSplits(url);
    }
  }

  /** A `.git` after a repository name without one changes nothing: `/o/r` and
      `/o/r.git` (and anything after the `.git`) parse alike. */
  lemma GitSuffixImmaterial(s: Slots, tail: string)
    requires Canonical(s) && !Contains(s.rest, ".git")
    ensures ParseRepoUrl(Join(s.(rest := s.rest + ".git" + tail))) == ParseRepoUrl(Join(s))
  {
    ParseJoin(s);
    ParseJoin(s.(rest := s.rest + ".git" + tail));
    CutAtGitSuffix(s.rest, tail);
  }

  /** `https` has no colon, so the first `://` of an `https://` URL follows it. */
  lemma HttpsScheme()
    ensures !Contains("https" + ":/", "://")
  {
    var t := "https" + ":/";
    forall j: nat
      ensures !MatchAt(t, "://", j)
    {
      if j + 3 <= |t| {
        assert t[j..j + 3][0] != ':' || t[j..j + 3][1] != '/';
      }
    }
  }

  /** `https://HOST/OWNER/REST` is the `https` reading of those slots. */
  lemma HttpsJoin(host: string, owner: string, rest: string)
    ensures "https://" + host + "/" + owner + "/" + rest == Join(Slots("https", host, owner, rest))
  {
    assert "https://" == "https" + "://";
  }

  /** `https://HOST/OWNER/REPO` at a known host parses to that host's service,
      the owner and the repository. */
  lemma HttpsRepoUrl(host: string, owner: string, repo: string)
    requires host in Hosts && '/' !in owner && !Contains(repo, ".git")
    ensures ParseRepoUrl("https://" + host + "/" + owner + "/" + repo) == Some(RepoRef(Hosts[host], owner, repo))
  {
    HttpsJoin(host, owner, repo);
    HttpsScheme();
    ParseJoin(Slots("https", host, owner, repo));
  }

  /** ... and so does the same URL with `.git` appended. */
  lemma HttpsGitUrl(host: string, owner: string, repo: string)
    requires host in Hosts && '/' !in owner && !Contains(repo, ".git")
    ensures ParseRepoUrl("https://" + host + "/" + owner + "/" + repo + ".git") ==
            ParseRepoUrl("https://" + host + "/" + owner + "/" + repo)
  {
    HttpsJoin(host, owner, repo);
    HttpsJoin(host, owner, repo + ".git" + "");
    assert "https://" + host + "/" + owner + "/" + repo + ".git" == "https://" + host + "/" + owner + "/" + (repo + ".git" + "");
    HttpsScheme();
    GitSuffixImmaterial(Slots("https", host, owner, repo), "");
  }

  /** The reference a run downloads: a release tag or a branch. */
  datatype Ref = Branch(name: string) | Tag(name: string)

  /** The reference `download_release` settles on: the `tag_name` of the
      release response when there is a response and the field is found, else
      `branch`. The response buffer is read as the C string it holds;
      `tagAllocOk` is the outcome of the allocation for the extracted tag. */
  function ChooseRef(response: Option<string>, tagAllocOk: bool, branch: string): (r: Ref)
    ensures r.Branch? ==> r == Branch(branch)
    ensures r.Tag? ==> response.Some? && tagAllocOk && '"' !in r.name && Contains(AsCString(response.value), r.name)
    ensures response.None? ==> r == Branch(branch)
  {
    match response
    case None => Branch(branch)
    case Some(body) =>
      match ExtractJsonString(AsCString(body), "tag_name", tagAllocOk)
      case Some(tag) => Tag(tag)
      case None => Branch(branch)
  }

  /** The reference is the tag `t` exactly when there is a response, `t` is the
      quoted text after its `tag_name` anchor (even when `t` is empty) and the
      copy was allocated; any other outcome is the fallback branch. */
  lemma ChooseRefIff(response: Option<string>, tagAllocOk: bool, branch: string, t: string)
    ensures ChooseRef(response, tagAllocOk, branch) == Tag(t) <==>
      response.Some? && tagAllocOk && ValueAfter(AsCString(response.value), Anchor(AsCString(response.value), "tag_name"), t)
    ensures ChooseRef(response, tagAllocOk, branch).Branch? ==> ChooseRef(response, tagAllocOk, branch) == Branch(branch)
  {
    if response.Some? {
      ExtractIff(AsCString(response.value), "tag_name", tagAllocOk, t);
    }
  }

  /** Without a response, or without a `tag_name` anchor in it, the fallback
      branch is chosen. */
  lemma NoTagMeansBranch(response: Option<string>, tagAllocOk: bool, branch: string)
    requires response.None? ||
      (!Contains(AsCString(response.value), TightPattern("tag_name")) &&
       !Contains(AsCString(response.value), SpacedPattern("tag_name")))
    ensures ChooseRef(response, tagAllocOk, branch) == Branch(branch)
  {
    if response.Some? {
      ExtractAbsent(AsCString(response.value), "tag_name", tagAllocOk);
    }
  }

  /** A response that opens with `{"tag_name":"TAG"` chooses the tag `TAG`. */
  lemma LeadingTagChosen(tag: string, rest: string, branch: string)
    requires '"' !in tag && '\0' !in tag && '\0' !in rest
    ensures ChooseRef(Some("{" + TightPattern("tag_name") + tag + "\"" + rest), true, branch) == Tag(tag)
  {
    var body := "{" + TightPattern("tag_name") + tag + "\"" + rest;
    assert '\0' !in body;
    ExtractLeading("tag_name", tag, rest, true);
  }

  /** One run of `download_release`: `Rejected` when the service name is unknown
      (nothing is requested then); otherwise the release-API URL requested, the
      reference chosen, the archive URL requested, the local file name, and the
      returned status (0 or -1). */
  datatype Outcome =
    | Rejected
    | Attempted(apiUrl: string, ref: Ref, downloadUrl: string, outputFile: string, result: int)

  /** Owner, repository and reference short enough that no `snprintf` in either
      downloader truncates. */
  predicate Fits(owner: string, repo: string, ref: string)
  {
    |owner| + |repo| + |ref| <= 100
  }

  /** The web origin of each service, as config.h sets it. */
  function WebBase(service: string): (w: string)
    ensures w == Config.GitHubUrl || w == Config.GitLabUrl || w == Config.CodebergUrl
    ensures "https://" <= w
  {
    if service == "github" then Config.GitHubUrl
    else if service == "gitlab" then Config.GitLabUrl
    else Config.CodebergUrl
  }

  /** The web origin of a known host is `https://` followed by that host. */
  lemma WebBaseOfHost(host: string)
    requires host in Hosts
    ensures WebBase(Hosts[host]) == "https://" + host
  {
    if host == "github.com" {
      assert Hosts[host] == "github";
    } else if host == "gitlab.com" {
      assert Hosts[host] == "gitlab";
    } else {
      assert Hosts[host] == "codeberg";
    }
  }

  /** The archive location of each provider, without its format extension:
      GitHub `.../archive/refs/tags/REF` or `.../archive/refs/heads/REF`,
      GitLab `.../-/archive/REF/REPO-REF`, Codeberg `.../archive/REF`, each
      under the repository page `BASE/OWNER/REPO`. */
  function ArchiveStem(service: string, owner: string, repo: string, ref: Ref): (u: string)
    ensures WebBase(service) + "/" + owner + "/" + repo + "/" <= u
  {
    var page := WebBase(service) + "/" + owner + "/" + repo;
    var seg :=
      if service == "github" then (if ref.Tag? then "/archive/refs/tags/" else "/archive/refs/heads/")
      else if service == "gitlab" then "/-/archive/"
      else "/archive/";
    SlashThen(page, seg);
    if service == "github" then
      PrefixThen(page + "/", page + seg, ref.name);
      page + seg + ref.name
    else if service == "gitlab" then
      PrefixThen(page + "/", page + seg, ref.name + "/" + repo + "-" + ref.name);
      assert page + seg + ref.name + "/" + repo + "-" + ref.name == page + seg + (ref.name + "/" + repo + "-" + ref.name);
      page + seg + ref.name + "/" + repo + "-" + ref.name
    else
      PrefixThen(page + "/", page + seg, ref.name);
      page + seg + ref.name
  }

  /** A text extended by something that starts with `/` starts with the text and `/`. */
  lemma SlashThen(page: string, seg: string)
    requires |seg| > 0 && seg[0] == '/'
    ensures page + "/" <= page + seg
  {
    assert (page + seg)[..|page| + 1] == page + "/";
  }

  /** A prefix stays a prefix when more is appended. */
  lemma PrefixThen(a: string, b: string, c: string)
    requires a <= b
    ensures a <= b + c
  {
    assert (b + c)[..|a|] == b[..|a|];
  }
}
