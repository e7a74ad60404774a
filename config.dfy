/** The build-time settings of tinygit (config.h). */
module Config {

  // Service origins and REST API origins.
  const GitHubUrl: string := "https://github.com"
  const GitHubApi: string := "https://api.github.com/repos"
  const GitLabUrl: string := "https://gitlab.com"
  const GitLabApi: string := "https://gitlab.com/api/v4/projects"
  const CodebergUrl: string := "https://codeberg.org"
  const CodebergApi: string := "https://codeberg.org/api/v1/repos"

  // Archive preferences.
  const DefaultBranch: string := "main"
  const FallbackFormat: string := "zip"
  /** Non-zero selects tar.gz archives for Codeberg. */
  const CodebergPreferTarGz: int := 0

  // Network settings handed to libcurl; they do not affect what is requested.
  const UserAgent: string := "tinygit/1.0"
  const TimeoutSeconds: nat := 30

  /** The extension tinygit asks Codeberg for, as selected by `CodebergPreferTarGz`. */
  function CodebergFormat(): (f: string)
    ensures f == "zip"
  {
    if CodebergPreferTarGz != 0 then "tar.gz" else FallbackFormat
  }
}
