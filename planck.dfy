/** `download_release` of planck.c: the same pipeline as tinygit's with its own
    service table and archive formats. The release API is asked the same way
    for every service, and archives are tar.gz except for GitHub's branch
    fallback, which is a zip. */
module Planck {
  import opened CStr
  import opened Repo
  import opened Json
  import opened Fetch
  import Curl
  import Tinygit

  /** The origins `download_release` picks for a service. */
  datatype Bases = Bases(api: string, web: string)

  /** The `strcmp` chain on the service name: the release-API origin and the web
      origin of each known service; `None` for any other name (-1 is returned). */
  function ServiceBases(service: string): (b: Option<Bases>)
    ensures b.Some? <==> KnownService(service)
    ensures b.Some? ==> b.value.web == WebBase(service)
    ensures service == "github" ==> b == Some(Bases("https://api.github.com/repos", "https://github.com"))
    ensures service == "gitlab" ==> b == Some(Bases("https://gitlab.com/api/v4/projects", "https://gitlab.com"))
    ensures service == "codeberg" ==> b == Some(Bases("https://codeberg.org/api/v1/repos", "https://codeberg.org"))
  {
    if service == "github" then Some(Bases("https://api.github.com/repos", "https://github.com"))
    else if service == "gitlab" then Some(Bases("https://gitlab.com/api/v4/projects", "https://gitlab.com"))
    else if service == "codeberg" then Some(Bases("https://codeberg.org/api/v1/repos", "https://codeberg.org"))
    else None
  }

  /** The release-API URL, written into a 512-byte buffer: the same shape for
      every service, GitLab included. */
  function ApiUrl(b: Bases, owner: string, repo: string): (r: string)
    ensures |r| < 512
    ensures |b.api| < 511 ==> b.api + "/" <= r
  {
    var url := b.api + "/" + owner + "/" + repo + "/releases/latest";
    PrefixThen(b.api + "/", b.api + "/" + owner, "/" + repo + "/releases/latest");
    assert url == b.api + "/" + owner + ("/" + repo + "/releases/latest");
    if |b.api| < 511 then
      PrefixOfPrefix(b.api + "/", Snprintf(url, 512), url);
      Snprintf(url, 512)
    else
      Snprintf(url, 512)
  }

  /** The archive URL, written into a 512-byte buffer from the web origin. The
      fallback passes the branch `main`. */
  function ArchiveUrl(web: string, service: string, owner: string, repo: string, ref: Ref): (u: string)
    ensures |u| < 512
    ensures web == WebBase(service) && KnownService(service) && Fits(owner, repo, ref.name) ==>
      u == ArchiveStem(service, owner, repo, ref) + Format(service, ref)
  {
    var url :=
      if service == "github" then
        if ref.Tag? then web + "/" + owner + "/" + repo + "/archive/refs/tags/" + ref.name + ".tar.gz"
        else web + "/" + owner + "/" + repo + "/archive/refs/heads/" + ref.name + ".zip"
      else if service == "gitlab" then
        web + "/" + owner + "/" + repo + "/-/archive/" + ref.name + "/" + repo + "-" + ref.name + ".tar.gz"
      else
        web + "/" + owner + "/" + repo + "/archive/" + ref.name + ".tar.gz";
    Snprintf(url, 512)
  }

  /** The extension of the archive requested: `.zip` for GitHub's branch
      fallback, `.tar.gz` for everything else. */
  function Format(service: string, ref: Ref): (ext: string)
    ensures ext == ".zip" <==> service == "github" && ref.Branch?
    ensures ext == ".zip" || ext == ".tar.gz"
  {
    if service == "github" && ref.Branch? then ".zip" else ".tar.gz"
  }

  /** The local file name, written into a 256-byte buffer: always `.tar.gz`,
      even where the archive requested is a zip. */
  function OutputFile(owner: string, repo: string, ref: Ref): (f: string)
    ensures |f| < 256
    ensures Fits(owner, repo, ref.name) ==> f == owner + "-" + repo + "-" + ref.name + ".tar.gz"
  {
    Snprintf(owner + "-" + repo + "-" + ref.name + ".tar.gz", 256)
  }

  /** `download_release`: `api` is what the release-API fetch left behind,
      `tagAllocOk` the outcome of the allocation for the extracted tag, and
      `archive` what the archive download left behind. */
  function DownloadRelease(owner: string, repo: string, service: string,
                           api: Curl.Transfer, tagAllocOk: bool, archive: Curl.Download): (o: Outcome)
    ensures o.Rejected? <==> !KnownService(service)
    ensures o.Attempted? ==> (o.result == 0 <==> archive.initOk && archive.fileOpened && archive.transportOk && archive.status == 200)
    ensures o.Attempted? ==> o.result == 0 || o.result == -1
  {
    match ServiceBases(service)
    case None => Rejected
    case Some(b) =>
      var ref := ChooseRef(FetchUrl(api), tagAllocOk, "main");
      Attempted(ApiUrl(b, owner, repo), ref, ArchiveUrl(b.web, service, owner, repo, ref),
                OutputFile(owner, repo, ref), DownloadFile(archive))
  }

  /** A known service is attempted with the reference `ChooseRef` picks: the
      body of `DownloadRelease` unfolded, as a proof aid for the lemmas below. */
  lemma Attempt(owner: string, repo: string, service: string,
                api: Curl.Transfer, tagAllocOk: bool, archive: Curl.Download)
    requires KnownService(service)
    ensures var ref := ChooseRef(FetchUrl(api), tagAllocOk, "main");
      var b := ServiceBases(service).value;
      DownloadRelease(owner, repo, service, api, tagAllocOk, archive) ==
      Attempted(ApiUrl(b, owner, repo), ref, ArchiveUrl(b.web, service, owner, repo, ref),
                OutputFile(owner, repo, ref), DownloadFile(archive))
  {
  }

  /** Without truncation the release-API URL is `API/OWNER/REPO/releases/latest`
      for every service: GitLab's project id is not encoded at all. */
  lemma ApiUrlUniform(owner: string, repo: string, service: string,
                      api: Curl.Transfer, tagAllocOk: bool, archive: Curl.Download)
    requires KnownService(service) && Fits(owner, repo, "")
    ensures DownloadRelease(owner, repo, service, api, tagAllocOk, archive).apiUrl ==
      ServiceBases(service).value.api + "/" + owner + "/" + repo + "/releases/latest"
  {
    Attempt(owner, repo, service, api, tagAllocOk, archive);
  }

  /** The file name matches the archive format everywhere except in GitHub's
      branch fallback, which saves a zip archive under a `.tar.gz` name. */
  lemma FileNameMatchesFormat(service: string, owner: string, repo: string, ref: Ref)
    requires KnownService(service) && Fits(owner, repo, ref.name)
    ensures var url := ArchiveUrl(WebBase(service), service, owner, repo, ref);
      var file := OutputFile(owner, repo, ref);
      var ext := Format(service, ref);
      |ext| <= |url| && url[|url| - |ext|..] == ext &&
      (|ext| <= |file| && file[|file| - |ext|..] == ext <==> !(service == "github" && ref.Branch?))
  {
    var file := OutputFile(owner, repo, ref);
    if service == "github" && ref.Branch? {
      assert file[|file| - 4..][0] == 'r';
    }
  }

  /** The reference is chosen as tinygit chooses it: the tag `t` exactly when the
      release fetch returned a body and `t` is the quoted text after its
      `tag_name` anchor and the copy was allocated; the branch `main` otherwise. */
  lemma ReferenceChoice(owner: string, repo: string, service: string,
                        api: Curl.Transfer, tagAllocOk: bool, archive: Curl.Download, t: string)
    requires KnownService(service)
    ensures var o := DownloadRelease(owner, repo, service, api, tagAllocOk, archive);
      (o.ref == Tag(t) <==>
        api.initOk && api.transportOk && api.status == 200 && api.received.Some? && tagAllocOk &&
        ValueAfter(AsCString(api.received.value), Anchor(AsCString(api.received.value), "tag_name"), t)) &&
      (o.ref.Branch? ==> o.ref == Branch("main"))
  {
    Attempt(owner, repo, service, api, tagAllocOk, archive);
    ChooseRefIff(FetchUrl(api), tagAllocOk, "main", t);
  }

  /** Whatever the responses, a run that settles on a tag `t` downloads the
      provider's tagged tar.gz archive, `.../refs/tags/t.tar.gz`,
      `.../-/archive/t/REPO-t.tar.gz` or `.../archive/t.tar.gz`, and saves it as
      `owner-repo-t.tar.gz`. */
  lemma ReleaseDownload(owner: string, repo: string, service: string,
                        api: Curl.Transfer, tagAllocOk: bool, archive: Curl.Download, t: string)
    requires KnownService(service) && Fits(owner, repo, t)
    ensures var o := DownloadRelease(owner, repo, service, api, tagAllocOk, archive);
      o.ref == Tag(t) ==>
        o.downloadUrl == ArchiveStem(service, owner, repo, Tag(t)) + ".tar.gz" &&
        o.outputFile == owner + "-" + repo + "-" + t + ".tar.gz"
  {
    Attempt(owner, repo, service, api, tagAllocOk, archive);
  }

  /** Whatever the responses, a run that falls back to a branch (no body, no
      `tag_name` pattern, no closing quote, or a failed allocation) downloads
      `main` as a zip from GitHub and as a tar.gz elsewhere, and always saves it
      as `owner-repo-main.tar.gz`. */
  lemma FallbackDownload(owner: string, repo: string, service: string,
                         api: Curl.Transfer, tagAllocOk: bool, archive: Curl.Download)
    requires KnownService(service) && Fits(owner, repo, "main")
    ensures var o := DownloadRelease(owner, repo, service, api, tagAllocOk, archive);
      o.ref.Branch? ==>
        o.ref == Branch("main") &&
        o.downloadUrl == ArchiveStem(service, owner, repo, Branch("main")) + (if service == "github" then ".zip" else ".tar.gz") &&
        o.outputFile == owner + "-" + repo + "-main.tar.gz"
  {
    Attempt(owner, repo, service, api, tagAllocOk, archive);
  }

  /** A release response that opens with `{"tag_name":"TAG"` downloads the
      tagged tar.gz archive, as `owner-repo-TAG.tar.gz`. */
  lemma LeadingTagDownload(owner: string, repo: string, service: string,
                           api: Curl.Transfer, archive: Curl.Download, tag: string, rest: string)
    requires KnownService(service) && Fits(owner, repo, tag)
    requires '"' !in tag && '\0' !in tag && '\0' !in rest
    requires api.initOk && api.transportOk && api.status == 200
    requires api.received == Some("{" + TightPattern("tag_name") + tag + "\"" + rest)
    ensures var o := DownloadRelease(owner, repo, service, api, true, archive);
      o.ref == Tag(tag) &&
      o.downloadUrl == ArchiveStem(service, owner, repo, Tag(tag)) + ".tar.gz" &&
      o.outputFile == owner + "-" + repo + "-" + tag + ".tar.gz"
  {
    LeadingTagChosen(tag, rest, "main");
    ReleaseDownload(owner, repo, service, api, true, archive, tag);
  }

  /** Without a release response, or without a `tag_name` pattern in it, the run
      falls back to the branch `main`. */
  lemma NoReleaseFallback(owner: string, repo: string, service: string,
                          api: Curl.Transfer, tagAllocOk: bool, archive: Curl.Download)
    requires KnownService(service)
    requires FetchUrl(api).None? ||
      (!Contains(AsCString(api.received.value), TightPattern("tag_name")) &&
       !Contains(AsCString(api.received.value), SpacedPattern("tag_name")))
    ensures DownloadRelease(owner, repo, service, api, tagAllocOk, archive).ref == Branch("main")
  {
    Attempt(owner, repo, service, api, tagAllocOk, archive);
    NoTagMeansBranch(FetchUrl(api), tagAllocOk, "main");
  }

  /** Apart from GitLab, planck asks the same release-API URL as tinygit. */
  lemma ApiUrlAsTinygit(service: string, owner: string, repo: string)
    requires KnownService(service) && service != "gitlab"
    ensures ApiUrl(ServiceBases(service).value, owner, repo) == Tinygit.ReleaseApiUrl(service, owner, repo).value
  {
  }

  /** At GitLab the two differ: planck sends the owner and the repository as two
      path segments under `.../releases/latest`, tinygit a single escaped id
      under `.../releases/permalink/latest`. */
  lemma GitLabApiUrlDiffers(owner: string, repo: string)
    requires Fits(owner, repo, "")
    ensures ApiUrl(ServiceBases("gitlab").value, owner, repo) != Tinygit.ReleaseApiUrl("gitlab", owner, repo).value
  {
    var api := "https://gitlab.com/api/v4/projects";
    var p := ApiUrl(ServiceBases("gitlab").value, owner, repo);
    var t := Tinygit.ReleaseApiUrl("gitlab", owner, repo).value;
    var pre := api + "/" + (Curl.Escape(owner) + "%252F" + Curl.Escape(repo));
    assert t == pre + "/releases/permalink/latest" by {
      Tinygit.GitLabApiUrlShape(owner, repo);
    }
    AppendIndex(pre, "/releases/permalink/latest", 18);
    var mid := api + "/" + owner + "/" + repo;
    assert p == mid + "/releases/latest";
    AppendIndex(mid, "/releases/latest", 8);
  }

  /** Both programs settle on the same reference for the same release response. */
  lemma SameReference(owner: string, repo: string, service: string,
                      api: Curl.Transfer, tagAllocOk: bool, archive: Curl.Download)
    requires KnownService(service)
    ensures DownloadRelease(owner, repo, service, api, tagAllocOk, archive).ref ==
            Tinygit.DownloadRelease(owner, repo, service, api, tagAllocOk, archive).ref
  {
    Attempt(owner, repo, service, api, tagAllocOk, archive);
    Tinygit.Attempt(owner, repo, service, api, tagAllocOk, archive);
  }
}
