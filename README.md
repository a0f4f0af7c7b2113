# git-publish, modelled in Dafny

git-publish turns the commits on a local main branch into a stack of dependent review
requests: GitHub pull requests or GitLab merge requests. Each commit carries a
`Change-Id` trailer that names its review branch. The commit is rewritten onto the
previous one and pushed under that name. Its request then targets the previous commit's
branch, and the first request targets the main branch. The repository holds two
versions: the current one (`src/git_publish/`) and an older one (`gp/`). This project
models both.

The model has four parts, in eight modules:

- `Wrappers` (`wrappers.dfy`): `Option` and `Result`.
- `PyStr` (`python_str.dfy`): the Python `str` operations the code relies on.
  - `isspace`, `splitlines`, `split`, `strip`, `lstrip`, `rstrip`, `lstrip(chars)`,
    `removeprefix`, `removesuffix` and `join`, with the line-break and whitespace sets
    written out.
  - It also holds the "first line that starts with a key" lookup.
- `ChangeId` (`change_id.dfy`): the current trailer codec.
  - Reading, stripping and appending the trailer.
  - Creating a fresh id, and the get-or-set step.
  - The round trips between them, and where `splitlines()` and `split("\n")` disagree.
- `LegacyChangeId` (`legacy_change_id.dfy`): the older codec.
  - It reads only the last paragraph, and cuts the key off with `lstrip("Change-Id:")`.
- `CommitGraph` (`commit_graph.dfy`): the first-parent walk, plus the parent and
  common-ancestor checks.
  - Commits are a map from hash to commit.
  - A hash is larger than the hashes of its parents, which is what makes the walk end.
  - The loop is a `while` loop proved equal to a recursive specification.
  - The older copy (`gp/main.py:117-144`) is the same code and shares this model.
- `GitProject` (`git_project.py` and its duplicates): `build_git_project` and the token
  chain of `resolve_github_token`.
  - It also covers the constructors' token checks and the GitLab server default.
  - The current and older copies are one model with a `Version` parameter.
- `Review` (`review.dfy`): `create_or_update_change` of both providers.
  - A `ReviewProvider` class holds the service's requests.
  - Its methods are the first-match lookup loop, the update in place and the append.
  - Each is proved against the `Reconcile` function.
- `Publish` (`publish.dfy`): both `publish_changes`.
  - A `Repository` class holds the commit graph, the branches, the pushed refs, the
    active and tracking branches, and the dirty flag and stash.
  - The loop is a `for` loop proved against the `Steps` function. The properties of
    that function are proved as lemmas: the chain of rewritten commits, the chain of
    request targets, the branch clean-up, the final reset and the stash bracket.

Whatever Git, the services and the process environment answer comes in as explicit
inputs (`Publish.Inputs`):

- the merge base;
- the parsed remote URL;
- the environment variables;
- the outcomes of `gh auth token` and `git credential fill`;
- the user name;
- the random 16-bit draws, one per commit;
- the requests already on the service;
- the branches whose push the remote refuses.

## Model

| member | source | states |
|---|---|---|
| PyStr.LStrip | src/git_publish/main.py:231 | `lstrip()`: no longer than the input, every character dropped from its front is whitespace, and the result does not start with whitespace |
| PyStr.RStrip | src/git_publish/main.py:292 | `rstrip()`: a prefix of the input whose removed tail is all whitespace and which does not end with whitespace |
| PyStr.Strip | src/git_publish/main.py:231 | `strip()`: no whitespace at either end and no longer than the input |
| PyStr.LStripChars | gp/main.py:186 | `lstrip(chars)`: a suffix of the input whose removed head consists of characters of `chars` and whose first character is not in `chars` |
| PyStr.RemoveSuffix | src/git_publish/git_project.py:20 | `removesuffix`: the input minus the suffix when it ends with it, else the input |
| PyStr.RemovePrefix | src/git_publish/git_project.py:20 | `removeprefix`: the input minus the prefix when it starts with it, else the input |
| PyStr.SplitOn | src/git_publish/main.py:291 | `split(sep)` always gives at least one piece |
| PyStr.SplitOnLastPiece | gp/main.py:179 | the last piece of `split(sep)` is the whole string when it is the only piece, and otherwise what follows the join of the other pieces and one separator |
| PyStr.SplitOnLastPieceFree | gp/main.py:179 | the separator does not occur in the last piece of `split(sep)` |
| PyStr.SplitOnNewlineFirstPiece | src/git_publish/main.py:212-213 | the first piece of `split("\n")` is the text before the first `'\n'`, or the whole string |
| PyStr.Join | src/git_publish/main.py:292 | `sep.join(parts)`; it undoes `split` (`JoinSplitOn`), and `split("\n")` undoes it for parts without `'\n'` (`SplitOnJoin`) |
| PyStr.SplitLines | src/git_publish/main.py:280 | `splitlines()` gives no lines exactly for the empty string |
| PyStr.FindLine | src/git_publish/main.py:279-282 | the generator with `next(..., None)`: the index of the first line starting with the key, or `None` exactly when no line does |
| PyStr.SplitOnceTail | src/git_publish/main.py:285 | `split(key, 1)[1]` of a line starting with the key is the text after the key |
| PyStr.KeyedValue | src/git_publish/main.py:279-285 | the stripped remainder after the key of the first line that starts with it; `None` exactly when no line does |
| ChangeId.ChangeIdPrefix | src/git_publish/main.py:45-51 | the prefix is the setting when it is set and non-empty, else `Change-Id:` |
| ChangeId.GetChangeId | src/git_publish/main.py:277-286 | `None` exactly when no `splitlines()` line starts with the prefix; otherwise the stripped text after the prefix on the first line that does |
| ChangeId.DropPrefixed | src/git_publish/main.py:291 | the list comprehension keeps no line that starts with the prefix |
| ChangeId.DropPrefixedContents | src/git_publish/main.py:291 | every kept line is a line of the input, and every input line that does not start with the prefix is kept |
| ChangeId.StripChangeId | src/git_publish/main.py:289-292 | the result has no trailing whitespace |
| ChangeId.StripChangeIdRemovesTrailers | src/git_publish/main.py:289-292 | no `"\n"` line of the result starts with the prefix |
| ChangeId.KeptLines | src/git_publish/main.py:289-292 | the result is the `"\n"` join of lines that start with no prefix and hold no `'\n'`, and that hold no line break at all when `'\n'` is the message's only line break |
| ChangeId.GetChangeIdOfStripped | src/git_publish/main.py:277-292 | when `'\n'` is the message's only line break, `get_change_id` finds nothing in what `strip_change_id` returns |
| ChangeId.StripChangeIdKeepsPlainLine | src/git_publish/main.py:289-292 | a single line that is not a trailer and has no trailing whitespace is returned unchanged |
| ChangeId.CarriageReturnHidesTrailer | src/git_publish/main.py:280-291 | after a lone `"\r"`, a trailer survives `strip_change_id`, because `split("\n")` does not cut there, but `get_change_id` still reads it, because `splitlines()` does |
| ChangeId.Hex4 | src/git_publish/main.py:274 | `{hash:04x}` is exactly four lowercase hex digits whose value is the draw |
| ChangeId.CreateChangeId | src/git_publish/main.py:271-274 | the namespace (`GITPUBLISH_BRANCH_PREFIX` when set and non-empty, else the user), then `/`, then four lowercase hex digits encoding the draw |
| ChangeId.CreateChangeIdIsTrimmed | src/git_publish/main.py:271-274 | a fresh id is non-empty, trimmed and free of line breaks when its namespace has no line break and does not start with whitespace |
| ChangeId.GetOrSetChangeId | src/git_publish/main.py:149-157 | the message is kept exactly when it carries a non-empty id, and it is published under that id; otherwise the fresh id is appended to it and published |
| ChangeId.UpdateCommitMessageFile | src/git_publish/main.py:216-226 | the file content is unchanged when it carries a non-empty id, and otherwise becomes the appended message |
| ChangeId.TrailerLine | src/git_publish/main.py:231 | `f"{prefix} {change_id}"`; a message that is just this line reads back as the id (`GetChangeIdOfTrailerLine`) |
| ChangeId.AppendChangeId | src/git_publish/main.py:229-231 | `append_change_id_in_commit_message`; reading the result gives the id back (`GetChangeIdRoundTrip`), stripping it gives `message.strip()` back (`StripChangeIdRoundTrip`), and the older append is the same text (`LegacyAppendText`) |
| ChangeId.GetChangeIdAfterAppend | src/git_publish/main.py:229-286 | reading an appended message gives the stripped message's own first trailer if it has one, and the appended id otherwise |
| ChangeId.GetChangeIdRoundTrip | src/git_publish/main.py:229-286 | get(append(id, m)) == id when no line of `m.strip()` starts with the prefix and the id is trimmed and one line |
| ChangeId.StripChangeIdRoundTrip | src/git_publish/main.py:229-292 | strip(append(id, m)) == `m.strip()` when no `"\n"` line of `m.strip()` starts with the prefix and the id has no `'\n'` |
| ChangeId.GetChangeIdOfTrailerLine | src/git_publish/main.py:277-286 | a message that is just `prefix id` reads as `id` |
| ChangeId.StampedMessageCarriesId | src/git_publish/main.py:149-157 | the stamped message reads back as the id it is published under, when reading the message and its stripped form agree and its trailer is not empty |
| ChangeId.GetOrSetChangeIdIdempotent | src/git_publish/main.py:149-157 | stamping an already stamped message keeps the message and the id |
| ChangeId.IndentedTrailerIsNoTrailer | src/git_publish/main.py:279-282 | a trailer line indented by whitespace is not found |
| ChangeId.IndentedTrailerShadowsAppendedId | src/git_publish/main.py:229-286 | an indented trailer is not found, yet after the append, which strips the indent, the old id is read rather than the appended one |
| ChangeId.EmptyTrailerIsNeverReplaced | src/git_publish/main.py:149-157 | a bare prefix line reads as the empty id, which counts as absent: a fresh trailer is appended, but every later read still returns the empty id |
| LegacyChangeId.LastParagraph | gp/main.py:179 | `message.split("\n\n")[-1]`; what it is, is stated by `LastParagraphIsTail`, `LastParagraphConcat` and `LastParagraphOfOne` |
| LegacyChangeId.LastParagraphIsTail | gp/main.py:179 | the last paragraph is a tail of the message with no blank line in it: the whole message, or the text after a `"\n\n"` |
| LegacyChangeId.LastParagraphOfOne | gp/main.py:179 | a message without a blank line is its own last paragraph |
| LegacyChangeId.LegacyGetChangeId | gp/main.py:178-187 | `None` exactly when no line of the last paragraph starts with `Change-Id:`; otherwise the first such line with its leading key characters and then its whitespace removed |
| LegacyChangeId.LegacyCreateChangeId | gp/main.py:172-175 | the user, `-`, and four lowercase hex digits encoding the draw |
| LegacyChangeId.LegacyUpdateCommitMessage | gp/main.py:159-169 | the message is unchanged when it carries a non-empty id; otherwise it gets `message.strip() + "\n\nChange-Id: " + id + "\n"` |
| LegacyChangeId.LegacyAppendText | gp/main.py:166 | the older append is the current append with the default prefix |
| LegacyChangeId.LegacyGetChangeIdLastParagraph | gp/main.py:178-185 | text before a paragraph break is ignored, trailers included |
| LegacyChangeId.LastParagraphConcat | gp/main.py:179 | the last paragraph after a break not glued to a newline is that of the text after it |
| LegacyChangeId.LStripKeyBeforeSpace | gp/main.py:186 | `lstrip("Change-Id:")` of `Change-Id: rest` stops at the space |
| LegacyChangeId.LegacyAppendedParagraph | gp/main.py:159-179 | the appended message's last paragraph is the trailer line |
| LegacyChangeId.LegacyGetChangeIdRoundTrip | gp/main.py:159-187 | for every message, reading the updated message gives the appended id, whatever trailers came before |
| LegacyChangeId.LegacyUpdateIdempotent | gp/main.py:159-169 | updating an updated message changes nothing |
| LegacyChangeId.LStripEatsGluedId | gp/main.py:186 | `Change-Id:` glued to an id made of key characters reads as the empty id in the older codec and as the id in the current one |
| CommitGraph.CommitParent | src/git_publish/main.py:195-201 | succeeds exactly on a single parent and returns it, a commit older than the child; otherwise a merge commit (several parents) or a root commit (none) is reported |
| CommitGraph.CommitsBetween | src/git_publish/main.py:174-179 | a successful walk is a linear chain from `top` down to `bottom`, starting at `top` |
| CommitGraph.CollectCommitsBetween | src/git_publish/main.py:174-179 | the `while` loop returns what `CommitsBetween` specifies |
| CommitGraph.LinearChainIsCollected | src/git_publish/main.py:174-179 | every linear chain from `top` to `bottom` is what the walk returns |
| CommitGraph.CommitsBetweenSucceedsIff | src/git_publish/main.py:174-179 | the walk returns `cs` exactly when `cs` is a linear chain from `top` to `bottom` |
| CommitGraph.LinearChainMembers | src/git_publish/main.py:174-179 | every collected commit is in the graph, is not `bottom` and has one parent, which is the next one collected; the last one's parent is `bottom` |
| CommitGraph.CommitsBetweenFailure | src/git_publish/main.py:174-201 | a failed walk names the first commit above `bottom` with other than one parent, after a chain of single-parent commits |
| CommitGraph.FailureIsReported | src/git_publish/main.py:174-201 | such a commit below a chain that avoids `bottom` makes the walk fail there, with the matching error |
| CommitGraph.CommitsBetweenSelf | src/git_publish/main.py:176 | the walk from `bottom` itself collects nothing |
| CommitGraph.MostRecentCommonAncestor | src/git_publish/main.py:182-192 | succeeds exactly on one merge base that is a commit; the count is checked first |
| GitProject.Or | src/git_publish/github_project.py:75 | Python `a or b`: `a` when set and non-empty, else `b` |
| GitProject.StrippedOrNone | src/git_publish/github_project.py:77 | `strip() or None`: `None` exactly for whitespace-only text, else the non-empty stripped text |
| GitProject.Namespace | src/git_publish/git_project.py:20 | the current namespace, `removesuffix(".git").removeprefix("/")`; its behaviour is stated by `NamespaceOfRepositoryPath`, `NamespaceTrimsOnce` and `NamespaceOfBarePath` |
| GitProject.LegacyNamespace | gp/gitproject.py:32 | the older namespace, `removesuffix(".git")` only; `LegacyNamespaceKeepsSlash` states how it differs from the current one |
| GitProject.ProjectNamespace | src/git_publish/git_project.py:20 | the namespace of the given version, which `BuildGitProject` gives every project it builds |
| GitProject.Getenv | src/git_publish/github_project.py:75 | `os.getenv`: a value exactly when the variable is set, and then its value |
| GitProject.GithubToken | src/git_publish/github_project.py:14-16 | the GitHub token each version's provider gets: the current one resolves the chain (`ResolveGithubToken`, `CurrentGithubTokenTrimmed`), the older one reads only GITHUB_TOKEN (`LegacyGithubIgnoresFallbacks`) |
| GitProject.NamespaceOfRepositoryPath | src/git_publish/git_project.py:20 | `/owner/repo.git` gives `owner/repo` |
| GitProject.NamespaceTrimsOnce | src/git_publish/git_project.py:20 | each affix is removed at most once |
| GitProject.NamespaceOfBarePath | src/git_publish/git_project.py:20 | a path with neither affix is its own namespace in both versions |
| GitProject.LegacyNamespaceKeepsSlash | gp/gitproject.py:32 | the older namespace keeps the leading `/`, while the current one drops it |
| GitProject.CredentialToken | src/git_publish/github_project.py:89-100 | a token only from helper output: the trimmed, non-empty remainder of the first `password=` line; none when that remainder is empty or no line matches |
| GitProject.FirstPasswordLineWins | src/git_publish/github_project.py:94-98 | a bare first `password=` line gives no token, even when a later line has one |
| GitProject.ResolveGithubToken | src/git_publish/github_project.py:65-102 | a resolved token is non-empty and trimmed |
| GitProject.GithubTokenComesFirst | src/git_publish/github_project.py:75-77 | a non-empty GITHUB_TOKEN decides the answer, whatever GH_TOKEN and the helpers say |
| GitProject.GhTokenComesSecond | src/git_publish/github_project.py:75-77 | GH_TOKEN decides when GITHUB_TOKEN is unset or empty |
| GitProject.BlankEnvironmentTokenStops | src/git_publish/github_project.py:75-77 | a whitespace-only environment token gives no token, and the helpers are not consulted |
| GitProject.GhCliComesThird | src/git_publish/github_project.py:80-85 | without an environment token, non-blank `gh` output, trimmed, is the answer |
| GitProject.GhFailureFallsThrough | src/git_publish/github_project.py:80-100 | a missing, failing or blank `gh` falls through to the credential helper |
| GitProject.GitlabServerUrl | src/git_publish/gitlab_project.py:21 | GITLAB_URL when set, else `https://gitlab.com` |
| GitProject.BuildGitProject | src/git_publish/git_project.py:18-34 | `gitlab` gives a GitLab project exactly when GITLAB_TOKEN is non-empty; `github` gives a GitHub project exactly when the token resolves; both use the version's namespace; a missing token and any other platform are errors; only the current GitLab lists opened requests only |
| GitProject.CurrentGithubTokenTrimmed | src/git_publish/github_project.py:14-20 | the current GitHub provider's token is trimmed |
| GitProject.LegacyGithubIgnoresFallbacks | gp/gitproject.py:44-47 | the older GitHub provider fails without GITHUB_TOKEN, whatever GH_TOKEN and the helpers say |
| Review.FindListed | src/git_publish/gitlab_project.py:50-54 | the first listed request whose source is the change id, or `None` exactly when no listed request matches |
| Review.Edited | src/git_publish/gitlab_project.py:62-63 | an updated request: new target and title; `ReconcileKeepsOthers` and `UpdateKeepsDescription` state that nothing else of it changes |
| Review.Created | src/git_publish/gitlab_project.py:69-79 | a new request: the call's fields, open state and the branch-removal flag, under the next number (`Reconcile`, `ReviewProvider.CreateRequest`) |
| Review.Reconcile | src/git_publish/github_project.py:24-62 | with a match, only that request changes, getting the new target and title, and the answer is its number; without one, one open request is appended with the next number |
| Review.ReviewProvider.constructor | src/git_publish/github_project.py:20-22 | the provider starts from the service's requests with its listing rules |
| Review.ReviewProvider.FindRequest | src/git_publish/gitlab_project.py:50-54 | the lookup loop returns what `FindListed` specifies |
| Review.ReviewProvider.UpdateRequest | src/git_publish/gitlab_project.py:56-64 | the request gets the target and title; nothing else changes |
| Review.ReviewProvider.CreateRequest | src/git_publish/gitlab_project.py:66-79 | one request is appended with the next number, the call's fields, open state and the provider's branch-removal flag |
| Review.ReviewProvider.CreateOrUpdateChange | src/git_publish/gitlab_project.py:27-44 | the provider's new state and the answer are `Reconcile`'s, and numbering stays valid |
| Review.ReconcileKeepsNumbering | src/git_publish/gitlab_project.py:27-44 | request numbers stay distinct and below the next number |
| Review.ReconcileCreatesAtMostOne | src/git_publish/github_project.py:32-39 | at most one request is created and none is removed |
| Review.ReconcileKeepsOthers | src/git_publish/github_project.py:49-52 | every request keeps its number, source, description, state and flag; requests for other branches are untouched |
| Review.ReconcileAnswersWithRequest | src/git_publish/github_project.py:41 | the answer names a request that now has the call's target and title and, when the source is the id, matches the lookup |
| Review.ReconcileIdempotent | src/git_publish/gitlab_project.py:35-44 | publishing the same change twice is publishing it once |
| Review.ClosedRequestIsNotReused | src/git_publish/gitlab_project.py:46-48 | with the opened-only listing, a closed or merged request for the branch is never reused: a new one is created |
| Review.LegacyReusesClosedRequest | gp/gitproject.py:123-130 | with the full listing, the first request for the branch is updated even if it is closed or merged |
| Review.UpdateKeepsDescription | src/git_publish/gitlab_project.py:56-64 | an update leaves the description alone and creates nothing |
| Publish.ChangePrefix | src/git_publish/main.py:45-51 | the prefix the run reads from GITPUBLISH_CHANGE_ID_PREFIX; `ChangeIdPrefix` states its default |
| Publish.FreshChangeId | src/git_publish/main.py:271-274 | the id `create_change_id` makes for the k-th commit from its random draw; its shape is stated by `CreateChangeId` |
| Publish.Summary | src/git_publish/main.py:212-213 | `commit.summary`, the title of the request; `SummaryIsFirstLine` states what it is |
| Publish.SummaryIsFirstLine | src/git_publish/main.py:212-213 | the summary is the text of the message before its first `'\n'`, or the whole message |
| Publish.StampOf | src/git_publish/main.py:149-157 | `get_or_set_change_id` of the k-th commit; `GetOrSetChangeId` states when the message is kept and which id is used |
| Publish.ChangeFor | src/git_publish/main.py:116-123 | the arguments of `create_or_update_change`: the id as change id and source branch, the given target, the summary as title and the stripped message as description |
| Publish.Reversed | src/git_publish/main.py:103 | `reversed(commits)`: the same length, in reverse order |
| Publish.Branched | src/git_publish/main.py:105-111 | the repository after the rewritten commit is made on the previous commit and its branch is set: one new commit, one branch set, nothing else changed |
| Publish.Deliver | src/git_publish/main.py:116-131 | the request is reconciled and recorded, the loop variables move to this change, and the local branch is deleted unless it is the checked-out one, which stops the run |
| Publish.Step | src/git_publish/main.py:103-131 | one iteration keeps the repository sound and only adds commits |
| Publish.Steps | src/git_publish/main.py:103-131 | the loop keeps the repository sound and only adds commits |
| Publish.Precheck | src/git_publish/main.py:67-97 | success means: a main branch, a tracking branch, one merge base equal to the tracking tip, a non-empty linear chain down to it, and a project; each failing check gives its own error, in the source's order: not a main branch, not tracking, not exactly one merge base, a merge base that is no commit, not up to date, a walk that fails with the walk's error, nothing to publish, and a project that cannot be built with the build's error |
| Publish.RunPlan | src/git_publish/main.py:99-134 | the loop and the final reset keep the repository sound and only add commits |
| Publish.Finish | src/git_publish/main.py:133-134 | the run ends with the loop's error, or with the active branch reset; commits and requests are the loop's |
| Publish.PublishRun | src/git_publish/main.py:54-138 | a whole run keeps the repository sound and only adds commits |
| Publish.LegacyPublishRun | gp/main.py:38-100 | the older run never succeeds and never makes a commit; every branch it sets points at an original commit whose own Change-Id names it; before the provider call it changes nothing; a missing id is reported for the oldest commit of the walk, once every earlier check has passed |
| Publish.LegacyStepRun | gp/main.py:82-96 | the first older iteration fails on a missing or empty id, and otherwise sets and pushes a branch at the original commit before the provider call fails |
| Publish.StepShape | src/git_publish/main.py:103-131 | one iteration appends nothing and stops, or appends one entry, for the commit it was given |
| Publish.StepsShape | src/git_publish/main.py:103-131 | the loop appends one entry per commit it visits, oldest first, and visits all of them unless it stops |
| Publish.StepKeepsChain | src/git_publish/main.py:103-131 | one iteration keeps the loop invariant: the chain of rewritten commits, the loop variables, the pushes, the request numbering, the branches and the reasons for stopping |
| Publish.StepRejectedKeepsChain | src/git_publish/main.py:113-114 | a refused push stops the run with nothing more published |
| Publish.StepDeliveredKeepsChain | src/git_publish/main.py:105-131 | a pushed iteration publishes one entry at the end of the chain, and the service then holds its request |
| Publish.ServedExtend | src/git_publish/main.py:121-123 | after one more `create_or_update_change`, the service still holds the request of every earlier change with another id, and holds one for the new change under the number it answered |
| Publish.StepsKeepChain | src/git_publish/main.py:99-131 | the whole loop keeps the invariant |
| Publish.FinishPublishesChain | src/git_publish/main.py:133-134 | the run's promises are read off the loop invariant at its end |
| Publish.RunPlanPublishesChain | src/git_publish/main.py:99-134 | on success, commit i (oldest first) is rewritten with its stamped message onto rewritten commit i-1, or onto the ancestor; its request goes from its id to branch i-1, or to the active branch; the temporary branches are gone; the active branch points at the last rewritten commit; every id is pushed with its latest commit; for the last commit of every id, the service holds a request under the number it answered, from that id, targeting branch i-1 or the active branch, with the commit's summary as title. A failure is a refused push or an id naming the active branch. Request numbering stays valid |
| Publish.PublishRunPublishesChain | src/git_publish/main.py:54-138 | a run succeeds only when every check passed, and then keeps the loop's promises; a failing check stops the run before any commit, branch, push or request |
| Publish.Repository.Stash | src/git_publish/main.py:253-260 | the tree becomes clean and one stash entry is pushed |
| Publish.Repository.Unstash | src/git_publish/main.py:263-264 | the entry is popped back and the tree is dirty again |
| Publish.Repository.ReplaceCommit | src/git_publish/main.py:241-242 | a new commit with the given message and sole parent, under a fresh hash |
| Publish.Repository.CreateBranch | src/git_publish/main.py:160-163 | the branch points at the commit, whether or not it existed |
| Publish.Repository.PushBranch | src/git_publish/main.py:166-171 | a forced push records the branch's commit on the remote, unless the remote refuses |
| Publish.Repository.DeleteBranch | src/git_publish/main.py:249-250 | the branch is removed unless it is checked out |
| Publish.Repository.UpdateBranchReference | src/git_publish/main.py:245-246 | the branch points at the commit |
| Publish.Repository.PublishCommit | src/git_publish/main.py:104-131 | one iteration on the repository and provider objects does what `Step` specifies |
| Publish.Repository.DeliverCommit | src/git_publish/main.py:116-131 | the provider call and the branch deletion do what `Deliver` specifies |
| Publish.Repository.PublishNext | src/git_publish/main.py:103-131 | one pass of the `for` loop advances the remaining work `Steps` specifies |
| Publish.Repository.PublishLoop | src/git_publish/main.py:99-131 | the `for` loop ends where `Steps` specifies |
| Publish.Repository.PublishPlan | src/git_publish/main.py:92-134 | the walk, the loop and the reset do what `RunPlan` specifies |
| Publish.Repository.PublishStashed | src/git_publish/main.py:64-134 | the body of the `try` does what `PublishRun` specifies |
| Publish.Repository.PublishChanges | src/git_publish/main.py:54-138 | the run does what `PublishRun` specifies, and it stashes and unstashes exactly when the tree was dirty, on every exit path |
| Publish.Repository.LegacyPublishChanges | gp/main.py:38-96 | the older run does what `LegacyPublishRun` specifies |

## Left out

- Git itself: GitPython's calls are updates of the `Repository` fields. These are `merge_base`, `replace`, `create_head`, `set_commit`, `delete_head`, `push`, `stash` and `fetch`. The merge base is an input.
- `fetch`: not modelled. The tracking tip is taken as it is after the fetch.
- Hashes: a hash is a creation number, larger than the hashes of its parents. `Commit.replace` always gives a fresh hash, including when Git would reuse an identical commit's hash.
- The intermediate commit: `set_change_id` first makes a commit with the new message, and `update_commit_parent` then replaces its parent. The model makes one commit with both. The intermediate commit is unreachable, so it is not kept.
- Remote refusals: a refused current push is the `PushRejected` error, and the `fail` it triggers ends the run. In the older version, GitPython reports a refused `remote.push` in its result flags rather than by raising, so the run goes on without updating the remote ref.
- Branch deletion: git refuses to delete the checked-out branch. This happens only when a change id equals the active branch's name, and is modelled as the `BranchDeleteRefused` error.
- The service: the review requests are records. A pull request's or merge request's URL is represented by its number.
  - The GitHub listing is the open pull requests, which is what `get_pulls()` returns by default. Its pagination is not modelled.
  - Network errors of the clients are not modelled.
- Snapshot timing: the GitHub pull-request list is read once in the constructor. In the model, each lookup sees the requests the run has created so far, as GitLab's fresh listing does. The run never looks up an id it created earlier, unless two commits share an id.
- The older provider call: `gp/main.py:94-96` passes four arguments to a five-parameter method, so it raises on the first commit. The older run is modelled only up to that call, which ends it with `BrokenProviderCall`. `LegacyPublishRun` therefore models only the first loop iteration.
- Processes and environment: `giturlparse.parse`, `getenv`, `getuser`, `getrandbits`, `which` and the `gh`/`git credential` subprocesses are inputs. An exception from a subprocess is the `Failed` outcome, and a missing program is `NotInstalled`.
- I/O and plumbing: the command line, `load_dotenv`, version lookup, `info` output, hook installation and the file `open`/`seek`/`truncate` are not modelled. `UpdateCommitMessageFile` and `LegacyUpdateCommitMessage` model the new file content only.
- Text: strings are sequences of characters. No Unicode normalisation or encoding is modelled. `isspace` and `splitlines` use the Unicode character sets written out in `PyStr`.
- A detached HEAD: `repo.active_branch` raises a `TypeError` (`src/git_publish/main.py:146`, `gp/main.py:107-108`). The current version meets it inside the `try`, so the stash is still popped. The model always has an active branch, which is in the branch map.
- A tracking branch whose remote ref is gone: reading its commit raises (`src/git_publish/main.py:81`, `gp/main.py:67`). The model takes the tracking tip as a commit of the graph.
- ChangeId.GetChangeIdRoundTrip, ChangeId.StripChangeIdRoundTrip: stated under the condition that `m.strip()` has no trailer line, not `m`. The example `"  Change-Id: x"` has no trailer line, but its strip does, so the round trip fails without that condition.
