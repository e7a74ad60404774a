/** `download_release` of tinygit.c: look up the latest release, choose the
    reference, and name the archive to download and the file to save it as.
    Every archive tinygit requests is a `.zip` (Codeberg's format follows the
    build setting, which selects zip). */
module Tinygit {
  import opened CStr
  import opened Repo
  import opened Json
  import opened Fetch
  import Config
  import Curl

  /** The release-API URL `download_release` requests first, or `None` for a
      service name it does not know (it then returns -1 at once). */
  function ReleaseApiUrl(service: string, owner: string, repo: string): (r: Option<string>)
    ensures r.Some? <==> KnownService(service)
    ensures r.Some? ==> |r.value| < 512
  {
    if service == "github" then
      Some(Snprintf(Config.GitHubApi + "/" + owner + "/" + repo + "/releases/latest", 512))
    else if service == "gitlab" then
      Some(GitLabApiUrl(owner, repo))
    else if service == "codeberg" then
      Some(Snprintf(Config.CodebergApi + "/" + owner + "/" + repo + "/releases/latest", 512))
    else
      None
  }

  /** GitLab's project id: `owner%2Frepo` written into a 256-byte buffer and
      passed through `curl_easy_escape`, which escapes its `%` once more. */
  function GitLabApiUrl(owner: string, repo: string): (r: string)
    ensures |r| < 512 && Config.GitLabApi + "/" <= r
  {
    var temp := Snprintf(owner + "%2F" + repo, 256);
    var url := Config.GitLabApi + "/" + Curl.Escape(temp) + "/releases/permalink/latest";
    PrefixThen(Config.GitLabApi + "/", Config.GitLabApi + "/" + Curl.Escape(temp), "/releases/permalink/latest");
    PrefixOfPrefix(Config.GitLabApi + "/", Snprintf(url, 512), url);
    Snprintf(url, 512)
  }

  /** The archive URL of `download_release` for a reference, written into a
      512-byte buffer. The fallback passes the default branch. */
  function ArchiveUrl(service: string, owner: string, repo: string, ref: Ref): (u: string)
    requires KnownService(service)
    ensures |u| < 512
    ensures Fits(owner, repo, ref.name) ==> u == ArchiveStem(service, owner, repo, ref) + ".zip"
  {
    DotZip(ArchiveStem(service, owner, repo, ref));
    var url :=
      if service == "github" then
        Config.GitHubUrl + "/" + owner + "/" + repo + (if ref.Tag? then "/archive/refs/tags/" else "/archive/refs/heads/")
        + ref.name + "." + Config.FallbackFormat
      else if service == "gitlab" then
        Config.GitLabUrl + "/" + owner + "/" + repo + "/-/archive/" + ref.name + "/" + repo + "-" + ref.name
        + "." + Config.FallbackFormat
      else
        Config.CodebergUrl + "/" + owner + "/" + repo + "/archive/" + ref.name + "." + Config.CodebergFormat();
    Snprintf(url, 512)
  }

  /** The local file name, written into a 256-byte buffer. */
  function OutputFile(owner: string, repo: string, ref: Ref): (f: string)
    ensures |f| < 256
    ensures Fits(owner, repo, ref.name) ==> f == owner + "-" + repo + "-" + ref.name + ".zip"
  {
    DotZip(owner + "-" + repo + "-" + ref.name);
    Snprintf(owner + "-" + repo + "-" + ref.name + "." + Config.FallbackFormat, 256)
  }

  /** `download_release`: `api` is what the release-API fetch left behind,
      `tagAllocOk` the outcome of the allocation for the extracted tag, and
      `archive` what the archive download left behind. */
  function DownloadRelease(owner: string, repo: string, service: string,
                           api: Curl.Transfer, tagAllocOk: bool, archive: Curl.Download): (o: Outcome)
    ensures o.Rejected? <==> !KnownService(service)
    ensures o.Attempted? ==> (o.result == 0 <==> archive.initOk && archive.fileOpened && archive.transportOk && archive.status == 200)
    ensures o.Attempted? ==> o.result == 0 || o.result == -1
  {
    match ReleaseApiUrl(service, owner, repo)
    case None => Rejected
    case Some(apiUrl) =>
      var ref := ChooseRef(FetchUrl(api), tagAllocOk, Config.DefaultBranch);
      Attempted(apiUrl, ref, ArchiveUrl(service, owner, repo, ref), OutputFile(owner, repo, ref), DownloadFile(archive))
  }

  /** A known service is attempted with the reference `ChooseRef` picks: the
      body of `DownloadRelease` unfolded, as a proof aid for the lemmas below. */
  lemma Attempt(owner: string, repo: string, service: string,
                api: Curl.Transfer, tagAllocOk: bool, archive: Curl.Download)
    requires KnownService(service)
    ensures var ref := ChooseRef(FetchUrl(api), tagAllocOk, Config.DefaultBranch);
      DownloadRelease(owner, repo, service, api, tagAllocOk, archive) ==
      Attempted(ReleaseApiUrl(service, owner, repo).value, ref, ArchiveUrl(service, owner, repo, ref),
                OutputFile(owner, repo, ref), DownloadFile(archive))
  {
  }

  /** GitLab's release-API URL carries `%252F` between the escaped owner and
      repository, and one round of percent-decoding of the id gives back
      `owner%2Frepo`, not `owner/repo`. */
  lemma GitLabApiUrlShape(owner: string, repo: string)
    requires Fits(owner, repo, "")
    ensures GitLabApiUrl(owner, repo) ==
      Config.GitLabApi + "/" + (Curl.Escape(owner) + "%252F" + Curl.Escape(repo)) + "/releases/permalink/latest"
    ensures (forall i :: 0 <= i < |owner| ==> owner[i] as int < 256) && (forall i :: 0 <= i < |repo| ==> repo[i] as int < 256) ==>
      Curl.Unescape(Curl.Escape(owner) + "%252F" + Curl.Escape(repo)) == owner + "%2F" + repo
  {
    var temp := owner + "%2F" + repo;
    assert Snprintf(temp, 256) == temp;
    assert Curl.Escape(temp) == Curl.Escape(owner) + "%252F" + Curl.Escape(repo) by {
      Curl.EscapeConcat(owner + "%2F", repo);
      Curl.EscapeConcat(owner, "%2F");
      Curl.EscapePercent2F();
    }
    if (forall i :: 0 <= i < |owner| ==> owner[i] as int < 256) && (forall i :: 0 <= i < |repo| ==> repo[i] as int < 256) {
      Curl.UnescapeEscape(temp);
    }
  }

  /** The release-API URLs: `API/OWNER/REPO/releases/latest` at GitHub and
      Codeberg, `API/ID/releases/permalink/latest` at GitLab; unknown services
      get none. */
  lemma ReleaseApiUrls(service: string, owner: string, repo: string)
    requires Fits(owner, repo, "")
    ensures ReleaseApiUrl(service, owner, repo) == (
      if service == "github" then Some(Config.GitHubApi + "/" + owner + "/" + repo + "/releases/latest")
      else if service == "gitlab" then
        Some(Config.GitLabApi + "/" + (Curl.Escape(owner) + "%252F" + Curl.Escape(repo)) + "/releases/permalink/latest")
      else if service == "codeberg" then Some(Config.CodebergApi + "/" + owner + "/" + repo + "/releases/latest")
      else None)
  {
    if service == "gitlab" {
      GitLabApiUrlShape(owner, repo);
    }
  }

  /** Appending `.` and the zip format is appending `.zip`. */
  lemma DotZip(x: string)
    ensures x + "." + Config.FallbackFormat == x + ".zip"
  {
  }

  /** The reference is the tag `t` exactly when the release fetch returned a body
      and `t` is the quoted text after its `tag_name` anchor (even when `t` is
      empty) and the copy was allocated; it is the branch `main` otherwise. */
  lemma ReferenceChoice(owner: string, repo: string, service: string,
                        api: Curl.Transfer, tagAllocOk: bool, archive: Curl.Download, t: string)
    requires KnownService(service)
    ensures var o := DownloadRelease(owner, repo, service, api, tagAllocOk, archive);
      (o.ref == Tag(t) <==>
        api.initOk && api.transportOk && api.status == 200 && api.received.Some? && tagAllocOk &&
        ValueAfter(AsCString(api.received.value), Anchor(AsCString(api.received.value), "tag_name"), t)) &&
      (o.ref.Branch? ==> o.ref == Branch("main"))
  {
    ChooseRefIff(FetchUrl(api), tagAllocOk, Config.DefaultBranch, t);
  }

  /** Whatever the responses, a run that settles on a tag `t` downloads the
      provider's tagged archive as a zip, `.../refs/tags/t.zip`,
      `.../-/archive/t/REPO-t.zip` or `.../archive/t.zip`, and saves it as
      `owner-repo-t.zip`. */
  lemma ReleaseDownload(owner: string, repo: string, service: string,
                        api: Curl.Transfer, tagAllocOk: bool, archive: Curl.Download, t: string)
    requires KnownService(service) && Fits(owner, repo, t)
    ensures var o := DownloadRelease(owner, repo, service, api, tagAllocOk, archive);
      o.ref == Tag(t) ==>
        o.downloadUrl == ArchiveStem(service, owner, repo, Tag(t)) + ".zip" &&
        o.outputFile == owner + "-" + repo + "-" + t + ".zip"
  {
    Attempt(owner, repo, service, api, tagAllocOk, archive);
  }

  /** Whatever the responses, a run that falls back to a branch (no body, no
      `tag_name` pattern, no closing quote, or a failed allocation) downloads
      the provider's `main` archive as a zip and saves it as `owner-repo-main.zip`. */
  lemma FallbackDownload(owner: string, repo: string, service: string,
                         api: Curl.Transfer, tagAllocOk: bool, archive: Curl.Download)
    requires KnownService(service) && Fits(owner, repo, "main")
    ensures var o := DownloadRelease(owner, repo, service, api, tagAllocOk, archive);
      o.ref.Branch? ==>
        o.ref == Branch("main") &&
        o.downloadUrl == ArchiveStem(service, owner, repo, Branch("main")) + ".zip" &&
        o.outputFile == owner + "-" + repo + "-main.zip"
  {
    Attempt(owner, repo, service, api, tagAllocOk, archive);
  }

  /** A release response that opens with `{"tag_name":"TAG"` downloads the
      tagged archive, as `owner-repo-TAG.zip`. */
  lemma LeadingTagDownload(owner: string, repo: string, service: string,
                           api: Curl.Transfer, archive: Curl.Download, tag: string, rest: string)
    requires KnownService(service) && Fits(owner, repo, tag)
    requires '"' !in tag && '\0' !in tag && '\0' !in rest
    requires api.initOk && api.transportOk && api.status == 200
    requires api.received == Some("{" + TightPattern("tag_name") + tag + "\"" + rest)
    ensures var o := DownloadRelease(owner, repo, service, api, true, archive);
      o.ref == Tag(tag) &&
      o.downloadUrl == ArchiveStem(service, owner, repo, Tag(tag)) + ".zip" &&
      o.outputFile == owner + "-" + repo + "-" + tag + ".zip"
  {
    LeadingTagChosen(tag, rest, Config.DefaultBranch);
    ReleaseDownload(owner, repo, service, api, true, archive, tag);
  }

  /** Without a release response, or without a `tag_name` pattern in it, the run
      falls back to the default branch. */
  lemma NoReleaseFallback(owner: string, repo: string, service: string,
                          api: Curl.Transfer, tagAllocOk: bool, archive: Curl.Download)
    requires KnownService(service)
    requires FetchUrl(api).None? ||
      (!Contains(AsCString(api.received.value), TightPattern("tag_name")) &&
       !Contains(AsCString(api.received.value), SpacedPattern("tag_name")))
    ensures DownloadRelease(owner, repo, service, api, tagAllocOk, archive).ref == Branch("main")
  {
    Attempt(owner, repo, service, api, tagAllocOk, archive);
    NoTagMeansBranch(FetchUrl(api), tagAllocOk, Config.DefaultBranch);
  }

  /** An empty `tag_name` still counts as a release. */
  lemma EmptyTagIsARelease(owner: string, repo: string, api: Curl.Transfer, archive: Curl.Download)
    requires Fits(owner, repo, "")
    requires api.initOk && api.transportOk && api.status == 200
    requires api.received == Some("{\"tag_name\":\"\"}")
    ensures var o := DownloadRelease(owner, repo, "github", api, true, archive);
      o.ref == Tag("") && o.downloadUrl == Config.GitHubUrl + "/" + owner + "/" + repo + "/archive/refs/tags/" + ".zip"
  {
    assert "{\"tag_name\":\"\"}" == "{" + TightPattern("tag_name") + "" + "\"" + "}";
    LeadingTagDownload(owner, repo, "github", api, archive, "", "}");
  }

  /** For `https://HOST/OWNER/REPO` at a known host, with or without `.git`, the
      archive is requested from under that very page. */
  lemma ArchiveUnderRepoPage(host: string, owner: string, repo: string, ref: Ref)
    requires host in Hosts && '/' !in owner && !Contains(repo, ".git") && Fits(owner, repo, ref.name)
    ensures var url := "https://" + host + "/" + owner + "/" + repo;
      ParseRepoUrl(url + ".git") == ParseRepoUrl(url) &&
      ParseRepoUrl(url) == Some(RepoRef(Hosts[host], owner, repo)) &&
      url + "/" <= ArchiveUrl(Hosts[host], owner, repo, ref)
  {
    HttpsRepoUrl(host, owner, repo);
    HttpsGitUrl(host, owner, repo);
    var stem := ArchiveStem(Hosts[host], owner, repo, ref);
    assert ArchiveUrl(Hosts[host], owner, repo, ref) == stem + ".zip";
    WebBaseOfHost(host);
    PrefixThen("https://" + host + "/" + owner + "/" + repo + "/", stem, ".zip");
  }
}
