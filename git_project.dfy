/**
 * Choosing the hosting service for a remote (`build_git_project`), and the inputs the
 * providers need before they can talk to it: the project namespace, the tokens, the
 * GitLab server URL.
 *
 * The parsed remote URL, the process environment and the outcomes of the `gh` and
 * `git credential` subprocesses are inputs here; no process is started.
 */
module GitProject {
  import opened Wrappers
  import opened PyStr

  /** Which copy of the code: `src/git_publish/` (current) or `gp/` (legacy). */
  datatype Version = Current | Legacy

  /** The two fields of `giturlparse.parse(remote.url)` that are used. */
  datatype ParsedUrl = ParsedUrl(platform: string, pathname: string)

  /** The process environment, as `os.getenv` sees it. */
  type Environment = map<string, string>

  /** What running a helper program produced: not on PATH, a raised exception, or its stdout. */
  datatype ProbeOutcome = NotInstalled | Failed | Output(stdout: string)

  /** The configuration a provider object is constructed with. */
  datatype Project =
    | GithubProject(namespace: string, token: string)
    | GitlabProject(namespace: string, serverUrl: string, token: string, openedOnly: bool)

  datatype BuildError =
    | UnknownPlatform(platform: string)   // NotImplementedError
    | MissingGithubToken                  // EnvironmentError from GithubProject
    | MissingGitlabToken                  // EnvironmentError from GitlabProject

  const DefaultGitlabUrl := "https://gitlab.com"
  const PasswordKey := "password="

  /** `os.getenv(name)`. */
  function Getenv(env: Environment, name: string): (r: Option<string>)
    ensures r.Some? <==> name in env
    ensures r.Some? ==> r.value == env[name]
  {
    if name in env then Some(env[name]) else None
  }

  /** Python truthiness of an optional string: set and non-empty. */
  predicate Truthy(value: Option<string>) {
    value.Some? && value.value != []
  }

  /** Python's `a or b` on optional strings. */
  function Or(a: Option<string>, b: Option<string>): (r: Option<string>)
    ensures Truthy(a) ==> r == a
    ensures !Truthy(a) ==> r == b
  {
    if Truthy(a) then a else b
  }

  /** `value.strip() or None`. */
  function StrippedOrNone(value: string): (r: Option<string>)
    ensures r.Some? <==> !AllSpace(value)
    ensures r.Some? ==> r.value != [] && Strip(r.value) == r.value && r.value == Strip(value)
  {
    var t := Strip(value);
    NonBlankSurvivesStrip(value);
    if t != [] then StripOfTrimmed(t); Some(t) else None
  }

  /** Strip removes a string entirely exactly when it is all whitespace. */
  lemma NonBlankSurvivesStrip(s: string)
    ensures Strip(s) == [] <==> AllSpace(s)
  {
    if AllSpace(s) {
      AllSpaceStrips(s);
    } else {
      var i :| 0 <= i < |s| && !IsSpace(s[i]);
      LStripIsSuffix(s);
      assert |s| - |LStrip(s)| <= i;
      assert LStrip(s) != [];
    }
  }

  lemma {:induction false} AllSpaceStrips(s: string)
    requires AllSpace(s)
    ensures Strip(s) == []
  {
    assert s + [] == s;
    StripDropsLeadingSpace(s, []);
  }

  // ----- the project namespace -----

  /** Current namespace: one trailing `.git`, then one leading `/`, removed. */
  function Namespace(pathname: string): string {
    RemovePrefix(RemoveSuffix(pathname, ".git"), "/")
  }

  /** Legacy namespace: only one trailing `.git` removed. */
  function LegacyNamespace(pathname: string): string {
    RemoveSuffix(pathname, ".git")
  }

  function ProjectNamespace(version: Version, pathname: string): string {
    if version == Current then Namespace(pathname) else LegacyNamespace(pathname)
  }

  lemma EndsWithAppended(n: string, suffix: string)
    ensures EndsWith(n + suffix, suffix)
  {
    assert (n + suffix)[|n + suffix| - |suffix|..] == suffix;
  }

  /** The usual `/owner/repo.git` path gives `owner/repo`. */
  lemma NamespaceOfRepositoryPath(n: string)
    ensures Namespace("/" + n + ".git") == n
  {
    EndsWithAppended("/" + n, ".git");
    assert RemoveSuffix("/" + n + ".git", ".git") == "/" + n;
    assert StartsWith("/" + n, "/");
  }

  /** Each affix is removed at most once. */
  lemma NamespaceTrimsOnce(n: string)
    ensures Namespace("//" + n + ".git.git") == "/" + n + ".git"
  {
    assert "//" + n + ".git.git" == ("//" + n + ".git") + ".git";
    EndsWithAppended("//" + n + ".git", ".git");
    assert RemoveSuffix("//" + n + ".git.git", ".git") == "//" + n + ".git";
    assert StartsWith("//" + n + ".git", "/");
    assert ("//" + n + ".git")[1..] == "/" + n + ".git";
  }

  /** A path without either affix is the namespace itself. */
  lemma NamespaceOfBarePath(p: string)
    requires !StartsWith(p, "/") && !EndsWith(p, ".git")
    ensures Namespace(p) == p && LegacyNamespace(p) == p
  {
  }

  /** The legacy version keeps the leading `/`. */
  lemma LegacyNamespaceKeepsSlash(n: string)
    ensures LegacyNamespace("/" + n + ".git") == "/" + n
    ensures Namespace("/" + n + ".git") == n
  {
    EndsWithAppended("/" + n, ".git");
    NamespaceOfRepositoryPath(n);
  }

  // ----- the GitHub token -----

  /** Step 3 of `resolve_github_token`: the trimmed value of the first `password=` line. */
  function CredentialToken(credential: ProbeOutcome): (r: Option<string>)
    ensures r.Some? ==> credential.Output? && r.value != [] && Strip(r.value) == r.value
    ensures r.Some? ==> var lines := SplitLines(credential.stdout);
      && FindLine(lines, PasswordKey).Some?
      && FirstWith(lines, PasswordKey, FindLine(lines, PasswordKey).value)
      && r.value == Strip(lines[FindLine(lines, PasswordKey).value][|PasswordKey|..])
    ensures credential.Output? && r.None? ==>
      var found := KeyedValue(SplitLines(credential.stdout), PasswordKey);
      found.None? || found.value == []
  {
    if credential.Output? then
      var lines := SplitLines(credential.stdout);
      var found := KeyedValue(lines, PasswordKey);
      if found.Some? && found.value != [] then
        StripIdempotent(lines[FindLine(lines, PasswordKey).value][|PasswordKey|..]);
        found
      else None
    else None
  }

  /**
   * `resolve_github_token`: GITHUB_TOKEN or GH_TOKEN, trimmed; else the `gh auth token`
   * output, trimmed; else the `git credential fill` password; else nothing.
   */
  function ResolveGithubToken(env: Environment, gh: ProbeOutcome, credential: ProbeOutcome): (r: Option<string>)
    ensures r.Some? ==> r.value != [] && Strip(r.value) == r.value
  {
    var token := Or(Getenv(env, "GITHUB_TOKEN"), Getenv(env, "GH_TOKEN"));
    if Truthy(token) then StrippedOrNone(token.value)
    else if gh.Output? && Strip(gh.stdout) != [] then
      StripIdempotent(gh.stdout);
      Some(Strip(gh.stdout))
    else CredentialToken(credential)
  }

  /** A non-empty GITHUB_TOKEN decides the answer, whatever GH_TOKEN and the helpers say. */
  lemma GithubTokenComesFirst(env: Environment, gh: ProbeOutcome, credential: ProbeOutcome)
    requires "GITHUB_TOKEN" in env && env["GITHUB_TOKEN"] != []
    ensures ResolveGithubToken(env, gh, credential) == StrippedOrNone(env["GITHUB_TOKEN"])
  {
  }

  /** GH_TOKEN is used only when GITHUB_TOKEN is unset or empty. */
  lemma GhTokenComesSecond(env: Environment, gh: ProbeOutcome, credential: ProbeOutcome)
    requires !Truthy(Getenv(env, "GITHUB_TOKEN"))
    requires "GH_TOKEN" in env && env["GH_TOKEN"] != []
    ensures ResolveGithubToken(env, gh, credential) == StrippedOrNone(env["GH_TOKEN"])
  {
  }

  /** A whitespace-only environment token gives no token, and the helpers are not consulted. */
  lemma BlankEnvironmentTokenStops(env: Environment, gh: ProbeOutcome, credential: ProbeOutcome)
    requires Truthy(Or(Getenv(env, "GITHUB_TOKEN"), Getenv(env, "GH_TOKEN")))
    requires AllSpace(Or(Getenv(env, "GITHUB_TOKEN"), Getenv(env, "GH_TOKEN")).value)
    ensures ResolveGithubToken(env, gh, credential) == None
  {
  }

  /** Without an environment token, a usable `gh` output is the answer. */
  lemma GhCliComesThird(env: Environment, stdout: string, credential: ProbeOutcome)
    requires !Truthy(Or(Getenv(env, "GITHUB_TOKEN"), Getenv(env, "GH_TOKEN")))
    requires !AllSpace(stdout)
    ensures ResolveGithubToken(env, Output(stdout), credential) == Some(Strip(stdout))
  {
    NonBlankSurvivesStrip(stdout);
  }

  /** A missing, failing or blank `gh` falls through to the credential helper. */
  lemma GhFailureFallsThrough(env: Environment, gh: ProbeOutcome, credential: ProbeOutcome)
    requires !Truthy(Or(Getenv(env, "GITHUB_TOKEN"), Getenv(env, "GH_TOKEN")))
    requires gh.NotInstalled? || gh.Failed? || AllSpace(gh.stdout)
    ensures ResolveGithubToken(env, gh, credential) == CredentialToken(credential)
  {
    if gh.Output? {
      NonBlankSurvivesStrip(gh.stdout);
    }
  }

  lemma PasswordKeyIsOneLine()
    ensures PasswordKey != [] && NoLineBreaks(PasswordKey) && !IsLineBreak(PasswordKey[|PasswordKey| - 1])
    ensures SplitLines(PasswordKey) == [PasswordKey]
    ensures PasswordKey[|PasswordKey|..] == []
  {
    assert forall i :: 0 <= i < |PasswordKey| ==> PasswordKey[i] in "password=";
    SplitLinesBreakFree(PasswordKey);
  }

  /** The lines of a helper answer whose second line is a bare `password=`. */
  lemma PasswordAnswerLines(before: string, rest: string)
    requires before != [] && NoLineBreaks(before)
    ensures SplitLines(before + "\n" + PasswordKey + "\n" + rest) == [before] + ([PasswordKey] + SplitLines(rest))
  {
    PasswordKeyIsOneLine();
    assert before + "\n" + PasswordKey + "\n" + rest == before + "\n" + (PasswordKey + "\n" + rest);
    SplitLinesConcat(before, PasswordKey + "\n" + rest);
    SplitLinesBreakFree(before);
    SplitLinesConcat(PasswordKey, rest);
  }

  /**
   * The credential helper's answer comes from the first `password=` line: when that
   * line is bare, there is no token, even if a later line carries one.
   */
  lemma FirstPasswordLineWins(before: string, rest: string)
    requires before != [] && NoLineBreaks(before) && !StartsWith(before, PasswordKey)
    ensures CredentialToken(Output(before + "\n" + PasswordKey + "\n" + rest)) == None
  {
    PasswordAnswerLines(before, rest);
    PasswordKeyIsOneLine();
    KeyedValueConcat([before], [PasswordKey] + SplitLines(rest), PasswordKey);
    KeyedValueConcat([PasswordKey], SplitLines(rest), PasswordKey);
  }

  // ----- build_git_project -----

  /** `getenv("GITLAB_URL", "https://gitlab.com")`: the default applies only when unset. */
  function GitlabServerUrl(env: Environment): (r: string)
    ensures "GITLAB_URL" in env ==> r == env["GITLAB_URL"]
    ensures "GITLAB_URL" !in env ==> r == DefaultGitlabUrl
  {
    if "GITLAB_URL" in env then env["GITLAB_URL"] else DefaultGitlabUrl
  }

  /** The token the GitHub constructor obtains: resolved (current) or GITHUB_TOKEN only (legacy). */
  function GithubToken(version: Version, env: Environment, gh: ProbeOutcome, credential: ProbeOutcome): Option<string> {
    if version == Current then ResolveGithubToken(env, gh, credential) else Getenv(env, "GITHUB_TOKEN")
  }

  /**
   * `build_git_project`: GitLab is tried first, then GitHub, and every other platform is
   * refused; each provider's constructor refuses to start without its token.
   */
  function BuildGitProject(version: Version, url: ParsedUrl, env: Environment, gh: ProbeOutcome, credential: ProbeOutcome)
    : (r: Result<Project, BuildError>)
    ensures r.Success? ==> r.value.namespace == ProjectNamespace(version, url.pathname) && r.value.token != []
    ensures r.Success? && r.value.GitlabProject? <==> url.platform == "gitlab" && Truthy(Getenv(env, "GITLAB_TOKEN"))
    ensures r.Success? && r.value.GithubProject? <==>
      url.platform == "github" && Truthy(GithubToken(version, env, gh, credential))
    ensures r.Success? && r.value.GitlabProject? ==>
      r.value.serverUrl == GitlabServerUrl(env) && r.value.token == env["GITLAB_TOKEN"]
      && (r.value.openedOnly <==> version == Current)
    ensures r.Success? && r.value.GithubProject? ==> r.value.token == GithubToken(version, env, gh, credential).value
    ensures r.Failure? && url.platform == "gitlab" ==> r.error == MissingGitlabToken
    ensures r.Failure? && url.platform == "github" ==> r.error == MissingGithubToken
    ensures url.platform != "gitlab" && url.platform != "github" ==> r == Failure(UnknownPlatform(url.platform))
  {
    var namespace := ProjectNamespace(version, url.pathname);
    if url.platform == "gitlab" then
      var token := Getenv(env, "GITLAB_TOKEN");
      if !Truthy(token) then Failure(MissingGitlabToken)
      else Success(GitlabProject(namespace, GitlabServerUrl(env), token.value, version == Current))
    else if url.platform == "github" then
      var token := GithubToken(version, env, gh, credential);
      if !Truthy(token) then Failure(MissingGithubToken)
      else Success(GithubProject(namespace, token.value))
    else Failure(UnknownPlatform(url.platform))
  }

  /** The current version's GitHub token is always trimmed; the legacy one is used as given. */
  lemma CurrentGithubTokenTrimmed(url: ParsedUrl, env: Environment, gh: ProbeOutcome, credential: ProbeOutcome)
    requires BuildGitProject(Current, url, env, gh, credential).Success?
    requires BuildGitProject(Current, url, env, gh, credential).value.GithubProject?
    ensures Strip(BuildGitProject(Current, url, env, gh, credential).value.token)
         == BuildGitProject(Current, url, env, gh, credential).value.token
  {
  }

  /** The legacy GitHub provider ignores GH_TOKEN and both helpers. */
  lemma LegacyGithubIgnoresFallbacks(url: ParsedUrl, env: Environment, gh: ProbeOutcome, credential: ProbeOutcome)
    requires url.platform == "github" && !Truthy(Getenv(env, "GITHUB_TOKEN"))
    ensures BuildGitProject(Legacy, url, env, gh, credential) == Failure(MissingGithubToken)
  {
  }
}
