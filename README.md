# tinygit and planck: from a repository URL to an archive download

tinygit and planck are two small C programs that take a repository URL from
GitHub, GitLab or Codeberg and download an archive of it: the latest release
tag when the service reports one, otherwise the `main` branch. They share
one pipeline, written twice:

1. `parse_repo_url` splits `scheme://host/owner/repo[.git]` into a service, an
   owner and a repository name.
2. `fetch_url` asks the service's release API for its latest release. The body
   is collected in memory by a write callback.
3. `extract_json_string` pulls the `tag_name` field out of the body with two
   textual searches.
4. `download_release` first formats the release-API URL with `snprintf` and
   fetches it. It then chooses the reference from the response, and formats
   the archive URL and the local file name for that reference.
5. `download_file` streams the archive to that file. It succeeds only on
   CURLE_OK with HTTP status 200.

The model keeps the two programs apart where they differ:

- tinygit (`module Tinygit`) takes its origins from `config.h` (`module Config`).
  It asks GitLab for a percent-escaped project id, and every archive it
  requests or saves is a `.zip`.
- planck (`module Planck`) has its own inline origins. It asks every service
  the same way and requests `.tar.gz` archives, except for GitHub's branch
  fallback, which is a `.zip`. The local file name always ends in `.tar.gz`.

What both programs share lives in one place:

- `module CStr`: the C string primitives. `strstr` and `strchr` are "index
  of the first occurrence", `snprintf` into a fixed buffer is truncation,
  and a NUL-terminated buffer is read as a C string. Every string in the
  model is a byte string, one character per byte, so the buffer sizes of
  `snprintf` and the length bound `Repo.Fits` count bytes as the C code does.
- `module Json`: the field extractor.
- `module Fetch`: the response buffer as a class, the success test, and
  the two transfers.
- `module Repo`: the URL parser, the reference choice, and the reference
  definitions the parsing and the archive locations are proved against:
  - `Slots`/`Join`/`Canonical` describe a URL as `scheme://host/owner/rest`;
  - `ArchiveStem` is each provider's archive location.

The network is not modelled. What a transfer left behind is an input:

- `Curl.Transfer` records whether init succeeded, whether the transport
  succeeded, the status, and the buffer collected.
- `Curl.Download` also records whether the output file could be opened.

Allocation failures are modelled only where a result depends on them:

- `allocOk` of the write callback's `realloc`;
- `tagAllocOk` of the `malloc` for the extracted tag.

`curl_easy_escape` is modelled as the percent-encoding of sections 2.1 and
2.3 of RFC 3986. Its inverse,
`Curl.Unescape`, is proved to undo it.

Behaviour the C code does not have, and the model therefore leaves out too:

- a lookup of the service's default branch: the fallback goes straight to
  `main`, and `master` is never retried;
- a generic provider: only the three known hosts are accepted;
- treating an empty `tag_name` as "no release": an empty tag is downloaded
  as the tag `""`;
- a `.tar.gz` download in tinygit: it requests `.zip` archives everywhere,
  GitHub releases included;
- extraction of the archive or any metadata written after the download;
- a check for non-empty path segments: the parser accepts an empty owner or
  repository, such as `https://github.com//x`.

## Model

| member | source | states |
|---|---|---|
| Fetch.Memory.constructor | tinygit.c:88 | a zeroed `struct memory`: NULL buffer, size 0, empty contents |
| Fetch.Memory.WriteCallback | tinygit.c:15-28 | on a successful realloc the contents become the old contents followed by the data, the size grows by `size*nmemb`, a NUL follows at index `size`, and `size*nmemb` is reported; on failure 0 is reported and buffer and size are unchanged; planck.c carries the same code at 12-22 |
| Fetch.Succeeded | tinygit.c:81 | a transfer succeeded exactly when the transport reported CURLE_OK and the status is exactly 200, the test `fetch_url` repeats at tinygit.c:101 and planck.c applies at 64 and 81 |
| Fetch.DownloadFile | tinygit.c:57-82 | the result is 0 or -1, and 0 exactly when the handle was created, the file opened, the transport reported CURLE_OK and the status is exactly 200; planck.c carries the same code at 45-65 |
| Fetch.FetchUrl | tinygit.c:84-107 | a body is returned exactly when the handle was created, the transport succeeded, the status is exactly 200 and the callback left a buffer; the body is that buffer; planck.c carries the same code at 67-86 |
| CStr.Find | tinygit.c:37 | `strstr`: a result exactly when the pattern occurs, and then the index of its first occurrence |
| CStr.FindFrom | tinygit.c:37 | the scan behind `strstr`: from an index below which nothing matches, the first match at or after it, or none anywhere |
| CStr.FindChar | tinygit.c:45 | `strchr`: the index of the first occurrence of the character, or none when it does not occur |
| CStr.AsCString | tinygit.c:25 | the C string a NUL-terminated buffer holds: a NUL-free prefix of the buffer, ending at the first NUL or the whole buffer when it has none |
| CStr.Snprintf | tinygit.c:36 | `snprintf` into a buffer of `cap` bytes keeps a prefix of the text of fewer than `cap` characters, the whole text when it fits and exactly `cap - 1` characters otherwise |
| Json.ExtractJsonString | tinygit.c:34-55 | any result was allocated, holds no double quote and occurs in the input |
| Json.ValueAt | tinygit.c:42-54 | from the first occurrence of a pattern, any result was allocated, holds no double quote and occurs in the input; planck.c carries the same code at 32-42 |
| Json.QuotedFrom | tinygit.c:44-54 | a result starts where the pattern ends, holds no double quote and is followed by one |
| Json.QuotedFromIff | tinygit.c:44-54 | the copy is `v` exactly when `v` runs from the end of the pattern to the next double quote and the allocation succeeded |
| Json.ValueAtIff | tinygit.c:42-54 | scanning from a pattern yields `v` exactly when `v` is the quoted text after the pattern's first occurrence and the allocation succeeded; with no occurrence it yields NULL |
| Json.ExtractUsesAnchor | tinygit.c:35-41 | the scan starts from the tight pattern `"key":"` when it occurs anywhere, and from the spaced pattern `"key": "` otherwise |
| Json.TightFirst | tinygit.c:36-41 | when the tight pattern occurs, an earlier spaced occurrence is ignored |
| Json.ExtractIff | tinygit.c:34-55 | extraction yields `v`, possibly empty, exactly when `v` is the text between the first occurrence of the chosen pattern and the next double quote and the allocation succeeded; planck.c carries the same code at 24-43 |
| Json.ExtractAbsent | tinygit.c:42 | with neither pattern in the text the result is NULL |
| Json.ExtractLeading | tinygit.c:34-55 | a body opening with `{"key":"v"` yields `v` |
| Repo.ParseRepoUrl | tinygit.c:109-161 | a parsed URL names a known service, an owner without `/` and a repository without `.git`; a URL without `://` does not parse |
| Repo.ParseHostPath | tinygit.c:120-128 | after `://`, a parse names a known service, an owner without `/` and a repository without `.git`; there is none without a `/` after the host |
| Repo.ParseOwnerRepo | tinygit.c:130-157 | from the host and the path, a parse names a known service, an owner without `/` and a repository without `.git`; there is none for an unknown host or a path without a `/` after the owner |
| Repo.ServiceOf | tinygit.c:130-139 | exactly the hosts `github.com`, `gitlab.com` and `codeberg.org` name a service, each its own |
| Repo.CutAtGit | tinygit.c:154-157 | the repository is a prefix of the rest of the path that holds no `.git`; it ends at the first `.git` when there is one and is the whole rest when there is none |
| Repo.CutAtGitSuffix | tinygit.c:154-157 | cutting `r + ".git" + tail` gives back `r` when `r` has no `.git` |
| Repo.SchemeStep | tinygit.c:113-118 | the host is read from right after the first `://` |
| Repo.HostStep | tinygit.c:120-128 | the host ends at the first `/` after the scheme |
| Repo.OwnerStep | tinygit.c:141-152 | the owner ends at the next `/`, and the repository is the rest cut at `.git` |
| Repo.ParseJoin | tinygit.c:109-161 | every canonical `scheme://host/owner/rest` parses to the host's service, the owner and the rest cut at `.git` when the host is known, and fails otherwise |
| Repo.ParseSplits | tinygit.c:109-161 | every URL that parses is such a canonical URL at a known host, and parses to that split |
| Repo.ParseFailsIff | tinygit.c:113-147 | -1 exactly when no canonical `scheme://host/owner/rest` reading with a known host exists: no `://`, no `/` after the host, an unknown host, or no `/` after the owner; planck.c carries the same code at 88-121 |
| Repo.GitSuffixImmaterial | tinygit.c:154-157 | `/o/r` and `/o/r.git...` parse alike when `r` has no `.git`; planck.c carries the same code at 111-112 |
| Repo.HttpsRepoUrl | tinygit.c:109-161 | `https://HOST/OWNER/REPO` at a known host parses to that host's service, the owner and the repository |
| Repo.HttpsGitUrl | tinygit.c:154-157 | appending `.git` to such a URL changes nothing |
| Repo.ChooseRef | tinygit.c:192-230 | a tag reference only when there is a response body and its copy was allocated, and then a quote-free text occurring in the body; without a body, or in any other case, the fallback branch; planck.c:144-147 chooses the same way |
| Repo.ChooseRefIff | tinygit.c:192-230 | the reference is the tag `t` exactly when there is a response body, `t` is the quoted text after its `tag_name` anchor (even when empty) and the copy was allocated; otherwise it is the fallback branch |
| Repo.NoTagMeansBranch | tinygit.c:193-229 | without a body, or without a `tag_name` pattern in it, the fallback branch is chosen |
| Repo.LeadingTagChosen | tinygit.c:211 | a body opening with `{"tag_name":"TAG"` chooses the tag `TAG` |
| Repo.WebBase | config.h:5-9 | each service's web origin is one of the three `https://` origins of `config.h`, the same ones planck writes inline as `web_base` |
| Repo.WebBaseOfHost | config.h:5-10 | the web origin of each known host's service is `https://` followed by that host |
| Repo.ArchiveStem | tinygit.c:196-243 | every provider's archive location lies under the repository page `BASE/OWNER/REPO/` |
| Config.CodebergFormat | config.h:14-15 | with `CODEBERG_PREFER_TAR_GZ` at 0, Codeberg is asked for `zip` |
| Curl.Escape | tinygit.c:176 | the escape is at least as long as its input and at most three times as long, and holds only unreserved characters and `%` |
| Curl.EscapeConcat | tinygit.c:173-176 | escaping distributes over concatenation |
| Curl.EscapePercent2F | tinygit.c:173-176 | the literal `%2F` is escaped again, to `%252F` |
| Curl.EscapeUnreserved | tinygit.c:176 | a text of unreserved characters is left unchanged |
| Curl.UnescapeEscape | tinygit.c:176 | percent-decoding undoes the escape of any byte string |
| Tinygit.DownloadRelease | tinygit.c:163-263 | an unknown service is rejected with nothing requested; otherwise the result is 0 or -1, and 0 exactly when the archive download succeeded |
| Tinygit.ReleaseApiUrl | tinygit.c:168-189 | a release-API URL exactly for the three known services, and it fits the 512-byte buffer |
| Tinygit.GitLabApiUrl | tinygit.c:170-183 | GitLab's release-API URL fits the 512-byte buffer and lies under `GITLAB_API/` |
| Tinygit.ReleaseApiUrls | tinygit.c:168-189 | GitHub and Codeberg are asked at `API/OWNER/REPO/releases/latest`, GitLab at `API/ID/releases/permalink/latest`, and an unknown service is asked nothing |
| Tinygit.GitLabApiUrlShape | tinygit.c:170-183 | GitLab's id is `Escape(owner) + "%252F" + Escape(repo)`, and one round of decoding gives back `owner%2Frepo`, not `owner/repo` |
| Tinygit.ArchiveUrl | tinygit.c:196-244 | every archive URL fits the 512-byte buffer, and for inputs that fit it is, for a tag or for the fallback branch, the provider's archive location followed by `.zip` |
| Tinygit.OutputFile | tinygit.c:209-246 | the local file name fits the 256-byte buffer, and for inputs that fit it is `owner-repo-REF.zip` |
| Tinygit.ReferenceChoice | tinygit.c:192-248 | the run downloads the tag `t` exactly when the fetch succeeded with a body whose `tag_name` value is `t` and the copy was allocated; it downloads the branch `main` otherwise |
| Tinygit.ReleaseDownload | tinygit.c:230-248 | whatever the responses, a run that settles on a tag `t` downloads `.../refs/tags/t.zip`, `.../-/archive/t/REPO-t.zip` or `.../archive/t.zip` and saves it as `owner-repo-t.zip` |
| Tinygit.FallbackDownload | tinygit.c:193-229 | whatever the responses, a run that falls back (no body, no pattern, no closing quote, failed allocation) downloads `main` from the provider's branch location as `.zip` and saves it as `owner-repo-main.zip` |
| Tinygit.LeadingTagDownload | tinygit.c:211-248 | a response opening with `{"tag_name":"TAG"` downloads the tagged zip as `owner-repo-TAG.zip` |
| Tinygit.NoReleaseFallback | tinygit.c:192-229 | without a response, or without a `tag_name` pattern in it, the run falls back to `main` |
| Tinygit.EmptyTagIsARelease | tinygit.c:211-234 | an empty `tag_name` is a release: GitHub's archive is `.../archive/refs/tags/.zip` |
| Tinygit.ArchiveUnderRepoPage | tinygit.c:196-244 | for `https://HOST/OWNER/REPO`, with or without `.git`, the archive is requested from under that same page |
| Planck.ServiceBases | planck.c:127-139 | exactly the three known services get origins: `https://api.github.com/repos` with `https://github.com`, `https://gitlab.com/api/v4/projects` with `https://gitlab.com`, `https://codeberg.org/api/v1/repos` with `https://codeberg.org`; the web origin agrees with `config.h` |
| Planck.ApiUrl | planck.c:141 | the release-API URL fits the 512-byte buffer and lies under `API/` |
| Planck.ArchiveUrl | planck.c:150-166 | every archive URL fits the 512-byte buffer, and from the provider's web origin with inputs that fit it is the provider's archive location followed by the format `Format` gives |
| Planck.Format | planck.c:151-165 | the archive format is `.zip` exactly for GitHub's branch fallback and `.tar.gz` for every other archive |
| Planck.OutputFile | planck.c:157-167 | the local file name fits the 256-byte buffer, and for inputs that fit it is `owner-repo-REF.tar.gz` whatever the format |
| Planck.DownloadRelease | planck.c:123-177 | an unknown service is rejected with nothing requested; otherwise the result is 0 or -1, and 0 exactly when the archive download succeeded |
| Planck.ApiUrlUniform | planck.c:141 | every service is asked at `API/OWNER/REPO/releases/latest`, GitLab included, with no encoding |
| Planck.ApiUrlAsTinygit | planck.c:141 | at GitHub and Codeberg, planck asks the same release-API URL as tinygit |
| Planck.GitLabApiUrlDiffers | planck.c:141 | at GitLab, planck's release-API URL is never the one tinygit asks |
| Planck.FileNameMatchesFormat | planck.c:151-157 | the file's extension matches the archive's format exactly when the archive is not GitHub's branch fallback, which saves a zip under a `.tar.gz` name |
| Planck.ReferenceChoice | planck.c:144-147 | the run downloads the tag `t` exactly when the fetch succeeded with a body whose `tag_name` value is `t` and the copy was allocated; it downloads the branch `main` otherwise |
| Planck.SameReference | planck.c:144-149 | for the same response, planck and tinygit choose the same reference |
| Planck.ReleaseDownload | planck.c:158-168 | whatever the responses, a run that settles on a tag `t` downloads the provider's tagged tar.gz archive and saves it as `owner-repo-t.tar.gz` |
| Planck.FallbackDownload | planck.c:145-157 | whatever the responses, a run that falls back (no body, no pattern, no closing quote, failed allocation) downloads `main` as a zip from GitHub and as a tar.gz elsewhere, always saved as `owner-repo-main.tar.gz` |
| Planck.LeadingTagDownload | planck.c:144-168 | a response opening with `{"tag_name":"TAG"` downloads the tagged tar.gz archive as `owner-repo-TAG.tar.gz` |
| Planck.NoReleaseFallback | planck.c:144-149 | without a response, or without a `tag_name` pattern in it, the run falls back to `main` |

## Left out

- The libcurl transfers (`curl_easy_init`, `setopt`, `perform`, `getinfo`, `curl_global_*`) are not performed. Their outcomes are inputs.
- libcurl calls the write callback a sequence of times. The model states one call, and `Curl.Transfer.received` stands for the buffer the sequence left.
- The transfer settings only configure libcurl and do not change what is requested. tinygit's `USER_AGENT` and `TIMEOUT_SECONDS` are kept as the `Config` constants `UserAgent` and `TimeoutSeconds`, which nothing in the model uses. planck's own `USER_AGENT` and `TIMEOUT` and the redirect following (`CURLOPT_FOLLOWLOCATION`) of both programs are left out.
- File I/O in `download_file` (`fopen`, `fwrite`, `fclose`) is left out. So is the partial file it leaves behind after a failure. Only whether the file could be opened is an input.
- Memory management is left out: `strdup` and `free`, and the leaks. The only allocation outcomes modelled are the two flags above.
- Two behaviours of tinygit's GitLab branch are undefined in C, so neither is modelled:
  - `encoded_repo` stays uninitialised when `curl_easy_init` or `curl_easy_escape` fails;
  - `strncpy` leaves it unterminated when the escape is 512 characters or longer.

  The model assumes both calls succeed.
- planck's `free(*service)` on a pointer that was never set is undefined behaviour. Its failing parse is modelled as a plain -1.
- `size * nmemb` and `mem->size + realsize + 1` can overflow `size_t`. This is not modelled, because integers are unbounded here.
- `Curl.Escape`: a character of 256 or more is escaped by its value mod 256, and the decoding round trip is stated for byte strings only.
- Progress and error messages (`printf`, `fprintf`), `print_usage` and `main`'s argument and exit-code handling are left out, because they are output and entry-point plumbing.
- `snprintf` truncation is modelled by `CStr.Snprintf`. The URL and file-name lemmas state their shapes for inputs short enough that nothing is truncated (`Repo.Fits`).
