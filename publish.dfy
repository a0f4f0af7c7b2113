/**
 * The publish orchestrators: `publish_changes` of the current version and of the
 * legacy one.
 *
 * The Git repository is a `Repository` object whose fields are the commit graph, the
 * local branches, the refs pushed to the remote, the active branch and its tracking
 * branch, and the working tree's dirtiness and stash. What Git, the network and the
 * environment answer (the merge base, the remote URL, the variables, the random draws,
 * the pushes the remote refuses, the review requests already on the service) comes in
 * as `Inputs`.
 */
module Publish {
  import opened Wrappers
  import opened PyStr
  import opened ChangeId
  import LegacyChangeId
  import opened CommitGraph
  import GitProject
  import Review

  /** The branches the current version publishes from. */
  const MainBranches: seq<string> := ["main", "master", "development", "develop"]

  /** The branches the legacy version publishes from. */
  const LegacyMainBranches: seq<string> := ["main", "master"]

  /** Why a run stopped (`fail`, or an exception the source does not catch). */
  datatype PublishError =
    | DirtyWorkingTree                             // legacy: not clean
    | NotOnMainBranch
    | NotTracking
    | NoUsableAncestor(ancestorError: AncestorError)
    | NotUpToDate                                  // current: ancestor is not the tracking tip
    | UnpublishableHistory(walkError: WalkError)
    | NothingToPublish
    | NoProject(buildError: GitProject.BuildError)
    | MissingChangeId(commit: Hash)                // legacy: no id in the commit
    | PushRejected(branch: string)                 // current: `git push` raised
    | BranchDeleteRefused(branch: string)          // `git branch -D` of the checked-out branch
    | BrokenProviderCall                           // legacy: four arguments for five parameters

  /** What the surroundings answer during a run. */
  datatype Inputs = Inputs(
    mergeBases: seq<Hash>,              // `merge_base(active tip, tracking tip)`
    url: GitProject.ParsedUrl,          // the tracking remote's parsed URL
    env: GitProject.Environment,
    gh: GitProject.ProbeOutcome,
    credential: GitProject.ProbeOutcome,
    user: string,                       // `getuser()`
    draws: nat -> Bits16,               // `getrandbits(16)` for the k-th commit
    service: Review.Hosting,            // the review requests on the service
    rejects: set<string>)               // branches whose push the remote refuses

  /** `get_change_id_prefix()` under `inputs.env`. */
  function ChangePrefix(inputs: Inputs): Prefix {
    ChangeIdPrefix(GitProject.Getenv(inputs.env, "GITPUBLISH_CHANGE_ID_PREFIX"))
  }

  /** `create_change_id()` for the k-th commit. */
  function FreshChangeId(inputs: Inputs, k: nat): string {
    CreateChangeId(GitProject.Getenv(inputs.env, "GITPUBLISH_BRANCH_PREFIX"), inputs.user, inputs.draws(k))
  }

  /** GitPython's `Commit.summary`: the message up to its first `"\n"`. */
  function Summary(message: string): string {
    SplitOn(message, "\n")[0]
  }

  /** The summary is the message's first line: the text before its first `'\n'`, or all of it. */
  lemma SummaryIsFirstLine(message: string)
    ensures var r := Summary(message);
      && |r| <= |message| && message[..|r|] == r && '\n' !in r
      && (|r| < |message| ==> message[|r|] == '\n')
  {
    SplitOnNewlineFirstPiece(message);
  }

  /** The repository state a run changes. */
  datatype Snapshot = Snapshot(commits: Graph, branches: map<string, Hash>, pushed: map<string, Hash>, nextHash: nat)

  /** Commits form a graph, `nextHash` is unused, and every branch names a commit. */
  predicate Sound(s: Snapshot) {
    && WellFormed(s.commits)
    && (forall h :: h in s.commits ==> h < s.nextHash)
    && (forall b :: b in s.branches ==> s.branches[b] in s.commits)
  }

  /** `b` keeps every commit of `a` as it was. */
  predicate Grows(a: Graph, b: Graph) {
    forall h :: h in a ==> h in b && b[h] == a[h]
  }

  /** What publishing one commit produced. */
  datatype Published = Published(original: Hash, commit: Hash, change: Review.Change, number: nat)

  /** A run of the publish loop so far: the state, the commits done, the loop variables, and whether it stopped. */
  datatype Trail = Trail(
    snap: Snapshot,
    hosting: Review.Hosting,
    done: seq<Published>,
    previousBranch: string,
    previousCommit: Hash,
    error: Option<PublishError>)

  /** What a whole run leaves behind and answers. */
  datatype Run = Run(snap: Snapshot, hosting: Review.Hosting, result: Result<seq<Published>, PublishError>)

  /** The commits the loop visits: `reversed(commits)`, oldest first. */
  function Reversed(s: seq<Hash>): (r: seq<Hash>)
    ensures |r| == |s|
    ensures forall i :: 0 <= i < |s| ==> r[i] == s[|s| - 1 - i]
  {
    if s == [] then [] else Reversed(s[1..]) + [s[0]]
  }

  lemma AddCommitKeepsSound(s: Snapshot, message: string, parent: Hash)
    requires Sound(s) && parent in s.commits
    ensures var g := s.commits[s.nextHash := Commit(message, [parent])];
      Sound(Snapshot(g, s.branches, s.pushed, s.nextHash + 1)) && Grows(s.commits, g)
  {
    var g := s.commits[s.nextHash := Commit(message, [parent])];
    forall h, i | h in g && 0 <= i < |g[h].parents| ensures g[h].parents[i] in g && g[h].parents[i] < h {
      if h != s.nextHash {
        assert g[h] == s.commits[h];
      }
    }
  }

  /**
   * One iteration of the current loop on commit `original` (the k-th):
   * get or set its Change-Id, rebase it onto the previous commit, point a branch named
   * by the id at it, force-push that branch, create or update its review request
   * against the previous branch, and delete the local branch.
   */
  function Step(inputs: Inputs, listing: Review.Listing, active: string, tr: Trail, original: Hash, k: nat): (r: Trail)
    requires Sound(tr.snap) && original in tr.snap.commits && tr.previousCommit in tr.snap.commits
    ensures Sound(r.snap) && r.previousCommit in r.snap.commits && Grows(tr.snap.commits, r.snap.commits)
  {
    var stamp := StampOf(inputs, tr.snap.commits[original].message, k);
    var c := tr.snap.nextHash;
    var snap := Branched(tr.snap, stamp.message, stamp.changeId, tr.previousCommit);
    if stamp.changeId in inputs.rejects then
      Trail(snap, tr.hosting, tr.done, tr.previousBranch, tr.previousCommit, Some(PushRejected(stamp.changeId)))
    else
      Deliver(listing, active, snap.(pushed := snap.pushed[stamp.changeId := c]), tr.hosting, tr.done, original, c,
              ChangeFor(inputs, stamp, tr.previousBranch))
  }

  /** `get_or_set_change_id` on the k-th commit's message. */
  function StampOf(inputs: Inputs, message: string, k: nat): Stamped {
    GetOrSetChangeId(ChangePrefix(inputs), message, FreshChangeId(inputs, k))
  }

  /**
   * The arguments of `create_or_update_change` for a stamped commit: the id names the
   * source branch, `target` is the previous branch, the title is the summary and the
   * description the message without its trailer.
   */
  function ChangeFor(inputs: Inputs, stamp: Stamped, target: string): Review.Change {
    Review.Change(stamp.changeId, stamp.changeId, target, Summary(stamp.message), StripChangeId(ChangePrefix(inputs), stamp.message))
  }

  /** The repository once a commit with `message` and sole parent `parent` is made and branch `branch` points at it. */
  function Branched(snap: Snapshot, message: string, branch: string, parent: Hash): (r: Snapshot)
    requires Sound(snap) && parent in snap.commits
    ensures Sound(r) && Grows(snap.commits, r.commits) && r.nextHash == snap.nextHash + 1
    ensures r.commits == snap.commits[snap.nextHash := Commit(message, [parent])]
    ensures r.branches == snap.branches[branch := snap.nextHash] && r.pushed == snap.pushed
  {
    AddCommitKeepsSound(snap, message, parent);
    var c := snap.nextHash;
    Snapshot(snap.commits[c := Commit(message, [parent])], snap.branches[branch := c], snap.pushed, c + 1)
  }

  /**
   * The rest of an iteration once the branch `change.changeId` is pushed with the
   * rewritten commit `c`: create or update the review request, record it, and delete
   * the local branch.
   */
  function Deliver(listing: Review.Listing, active: string, snap: Snapshot, hosting: Review.Hosting,
                   done: seq<Published>, original: Hash, c: Hash, change: Review.Change): (r: Trail)
    requires Sound(snap) && c in snap.commits
    ensures Sound(r.snap) && r.previousCommit == c && r.previousBranch == change.changeId
    ensures r.snap.commits == snap.commits && r.snap.pushed == snap.pushed && r.snap.nextHash == snap.nextHash
    ensures var o := Review.Reconcile(hosting, listing, change);
      r.hosting == o.hosting && r.done == done + [Published(original, c, change, o.number)]
    ensures r.error.None? <==> change.changeId != active
    ensures r.error.Some? ==> r.error == Some(BranchDeleteRefused(change.changeId)) && r.snap.branches == snap.branches
    ensures r.error.None? ==> r.snap.branches == snap.branches - {change.changeId}
  {
    var o := Review.Reconcile(hosting, listing, change);
    var done' := done + [Published(original, c, change, o.number)];
    if change.changeId == active then
      Trail(snap, o.hosting, done', change.changeId, c, Some(BranchDeleteRefused(change.changeId)))
    else
      Trail(snap.(branches := snap.branches - {change.changeId}), o.hosting, done', change.changeId, c, None)
  }

  /** The loop over the commits still to do, from the k-th on; it stops at the first error. */
  function Steps(inputs: Inputs, listing: Review.Listing, active: string, tr: Trail, todo: seq<Hash>, k: nat): (r: Trail)
    requires Sound(tr.snap) && tr.previousCommit in tr.snap.commits
    requires forall i :: 0 <= i < |todo| ==> todo[i] in tr.snap.commits
    ensures Sound(r.snap) && r.previousCommit in r.snap.commits && Grows(tr.snap.commits, r.snap.commits)
    decreases |todo|
  {
    if todo == [] || tr.error.Some? then tr
    else
      var next := Step(inputs, listing, active, tr, todo[0], k);
      Steps(inputs, listing, active, next, todo[1..], k + 1)
  }

  /** One more iteration of a loop that has not stopped. */
  lemma StepsAdvance(inputs: Inputs, listing: Review.Listing, active: string, tr: Trail, todo: seq<Hash>, k: nat)
    requires Sound(tr.snap) && tr.previousCommit in tr.snap.commits
    requires forall i :: 0 <= i < |todo| ==> todo[i] in tr.snap.commits
    requires todo != [] && tr.error.None?
    ensures var next := Step(inputs, listing, active, tr, todo[0], k);
      && (forall i :: 0 <= i < |todo[1..]| ==> todo[1..][i] in next.snap.commits)
      && Steps(inputs, listing, active, tr, todo, k) == Steps(inputs, listing, active, next, todo[1..], k + 1)
  {
  }

  /** A loop that has stopped, or has nothing left to do, is where it ends. */
  lemma StepsStop(inputs: Inputs, listing: Review.Listing, active: string, tr: Trail, todo: seq<Hash>, k: nat)
    requires Sound(tr.snap) && tr.previousCommit in tr.snap.commits
    requires forall i :: 0 <= i < |todo| ==> todo[i] in tr.snap.commits
    requires todo == [] || tr.error.Some?
    ensures Steps(inputs, listing, active, tr, todo, k) == tr
  {
  }

  /** What the checks before the loop established. */
  datatype Plan = Plan(ancestor: Hash, commits: seq<Hash>, project: GitProject.Project)

  /**
   * The checks of the current `publish_changes` before anything is created, in the
   * source's order: main branch, tracking branch, single common ancestor, up to date,
   * a publishable history, something to publish, a hosting project.
   */
  function Precheck(inputs: Inputs, snap: Snapshot, active: string, tracking: Option<Hash>): (r: Result<Plan, PublishError>)
    requires Sound(snap) && active in snap.branches && (tracking.Some? ==> tracking.value in snap.commits)
    ensures r.Success? ==>
      && active in MainBranches && tracking.Some? && inputs.mergeBases == [tracking.value]
      && r.value.ancestor == tracking.value
      && CommitsBetween(snap.commits, snap.branches[active], tracking.value) == Success(r.value.commits)
      && LinearChain(snap.commits, snap.branches[active], r.value.commits, tracking.value)
      && r.value.commits != []
      && GitProject.BuildGitProject(GitProject.Current, inputs.url, inputs.env, inputs.gh, inputs.credential) == Success(r.value.project)
    ensures r.Success? ==> PlanFits(snap, active, r.value)
    ensures active !in MainBranches ==> r == Failure(NotOnMainBranch)
    ensures active in MainBranches && tracking.None? ==> r == Failure(NotTracking)
    ensures active in MainBranches && tracking.Some? && |inputs.mergeBases| != 1
      ==> r == Failure(NoUsableAncestor(NoSingleCommonAncestor))
    ensures (active in MainBranches && tracking.Some? && |inputs.mergeBases| == 1
             && inputs.mergeBases[0] !in snap.commits)
      ==> r == Failure(NoUsableAncestor(AncestorNotACommit))
    ensures (active in MainBranches && tracking.Some? && |inputs.mergeBases| == 1
             && inputs.mergeBases[0] in snap.commits && inputs.mergeBases[0] != tracking.value)
      ==> r == Failure(NotUpToDate)
    ensures (active in MainBranches && tracking.Some? && inputs.mergeBases == [tracking.value]
             && CommitsBetween(snap.commits, snap.branches[active], tracking.value).Failure?)
      ==> r == Failure(UnpublishableHistory(CommitsBetween(snap.commits, snap.branches[active], tracking.value).error))
    ensures (active in MainBranches && tracking.Some? && inputs.mergeBases == [tracking.value]
             && CommitsBetween(snap.commits, snap.branches[active], tracking.value) == Success([]))
      ==> r == Failure(NothingToPublish)
    ensures (active in MainBranches && tracking.Some? && inputs.mergeBases == [tracking.value]
             && CommitsBetween(snap.commits, snap.branches[active], tracking.value).Success?
             && CommitsBetween(snap.commits, snap.branches[active], tracking.value).value != []
             && GitProject.BuildGitProject(GitProject.Current, inputs.url, inputs.env, inputs.gh, inputs.credential).Failure?)
      ==> r == Failure(NoProject(
            GitProject.BuildGitProject(GitProject.Current, inputs.url, inputs.env, inputs.gh, inputs.credential).error))
  {
    if active !in MainBranches then Failure(NotOnMainBranch)
    else if tracking.None? then Failure(NotTracking)
    else
      match MostRecentCommonAncestor(snap.commits, inputs.mergeBases)
      case Failure(e) => Failure(NoUsableAncestor(e))
      case Success(ancestor) =>
        if ancestor != tracking.value then Failure(NotUpToDate)
        else
          match CommitsBetween(snap.commits, snap.branches[active], ancestor)
          case Failure(e) => Failure(UnpublishableHistory(e))
          case Success(commits) =>
            if commits == [] then Failure(NothingToPublish)
            else
              match GitProject.BuildGitProject(GitProject.Current, inputs.url, inputs.env, inputs.gh, inputs.credential)
              case Failure(e) => Failure(NoProject(e))
              case Success(project) => Success(Plan(ancestor, commits, project))
  }

  /** The loop's starting point and its commits, oldest first, are all in the graph. */
  lemma PlanInGraph(snap: Snapshot, active: string, plan: Plan)
    requires PlanFits(snap, active, plan)
    ensures forall i :: 0 <= i < |Reversed(plan.commits)| ==> Reversed(plan.commits)[i] in snap.commits
  {
    LinearChainMembers(snap.commits, snap.branches[active], plan.commits, plan.ancestor);
  }

  /** The trail the loop starts from: nothing done, the active branch and the ancestor as "previous". */
  function StartTrail(inputs: Inputs, snap: Snapshot, active: string, ancestor: Hash): Trail {
    Trail(snap, inputs.service, [], active, ancestor, None)
  }

  /** A plan the checks can produce: its chain of commits lies in the graph, down to the ancestor. */
  predicate PlanFits(snap: Snapshot, active: string, plan: Plan) {
    && Sound(snap) && active in snap.branches && plan.ancestor in snap.commits
    && LinearChain(snap.commits, snap.branches[active], plan.commits, plan.ancestor)
  }

  /** The loop over the planned commits, oldest first, then the reset of the active branch. */
  function RunPlan(inputs: Inputs, snap: Snapshot, active: string, plan: Plan): (run: Run)
    requires PlanFits(snap, active, plan)
    ensures Sound(run.snap) && Grows(snap.commits, run.snap.commits)
  {
    PlanInGraph(snap, active, plan);
    var listing := Review.ListingOf(plan.project);
    var tr := Steps(inputs, listing, active, StartTrail(inputs, snap, active, plan.ancestor), Reversed(plan.commits), 0);
    Finish(tr, active)
  }

  /** How a run ends: with the loop's error, or with the active branch reset to the last rewritten commit. */
  function Finish(tr: Trail, active: string): (run: Run)
    requires Sound(tr.snap) && tr.previousCommit in tr.snap.commits
    ensures Sound(run.snap) && run.snap.commits == tr.snap.commits && run.hosting == tr.hosting
  {
    if tr.error.Some? then Run(tr.snap, tr.hosting, Failure(tr.error.value))
    else Run(tr.snap.(branches := tr.snap.branches[active := tr.previousCommit]), tr.hosting, Success(tr.done))
  }

  /**
   * The current `publish_changes`, stash bracket aside: the checks, the loop, and on
   * success the active branch moved to the last rewritten commit.
   */
  function PublishRun(inputs: Inputs, snap: Snapshot, active: string, tracking: Option<Hash>): (run: Run)
    requires Sound(snap) && active in snap.branches && (tracking.Some? ==> tracking.value in snap.commits)
    ensures Sound(run.snap) && Grows(snap.commits, run.snap.commits)
  {
    match Precheck(inputs, snap, active, tracking)
    case Failure(e) => Run(snap, inputs.service, Failure(e))
    case Success(plan) => RunPlan(inputs, snap, active, plan)
  }

  /**
   * The legacy `publish_changes`: clean tree, `main`/`master`, tracking branch, single
   * common ancestor (no up-to-date check), something to publish, a hosting project;
   * then the oldest commit needs an id, gets a branch at the original commit, is pushed
   * (a refused push is not an error), and the provider call fails.
   */
  function LegacyPublishRun(inputs: Inputs, snap: Snapshot, dirty: bool, active: string, tracking: Option<Hash>): (run: Run)
    requires Sound(snap) && active in snap.branches && (tracking.Some? ==> tracking.value in snap.commits)
    ensures Sound(run.snap) && run.snap.commits == snap.commits && run.hosting == inputs.service
    ensures run.result.Failure? && LegacyTouched(snap, run.snap)
    ensures run.result.error != BrokenProviderCall ==> run.snap == snap
    ensures run.result.error.MissingChangeId? ==>
      && !dirty && active in LegacyMainBranches && tracking.Some?
      && MostRecentCommonAncestor(snap.commits, inputs.mergeBases).Success?
      && var walk := CommitsBetween(snap.commits, snap.branches[active],
                                    MostRecentCommonAncestor(snap.commits, inputs.mergeBases).value);
         walk.Success? && walk.value != [] && run.result.error.commit == walk.value[|walk.value| - 1]
  {
    if dirty then Run(snap, inputs.service, Failure(DirtyWorkingTree))
    else if active !in LegacyMainBranches then Run(snap, inputs.service, Failure(NotOnMainBranch))
    else if tracking.None? then Run(snap, inputs.service, Failure(NotTracking))
    else
      match MostRecentCommonAncestor(snap.commits, inputs.mergeBases)
      case Failure(e) => Run(snap, inputs.service, Failure(NoUsableAncestor(e)))
      case Success(ancestor) =>
        match CommitsBetween(snap.commits, snap.branches[active], ancestor)
        case Failure(e) => Run(snap, inputs.service, Failure(UnpublishableHistory(e)))
        case Success(commits) =>
          if commits == [] then Run(snap, inputs.service, Failure(NothingToPublish))
          else
            match GitProject.BuildGitProject(GitProject.Legacy, inputs.url, inputs.env, inputs.gh, inputs.credential)
            case Failure(e) => Run(snap, inputs.service, Failure(NoProject(e)))
            case Success(_) =>
              LinearChainMembers(snap.commits, snap.branches[active], commits, ancestor);
              var oldest := commits[|commits| - 1];
              LegacyStepRun(inputs, snap, oldest)
  }

  /** The first legacy iteration, on `oldest`, and the provider call that ends the run. */
  function LegacyStepRun(inputs: Inputs, snap: Snapshot, oldest: Hash): (run: Run)
    requires Sound(snap) && oldest in snap.commits
    ensures Sound(run.snap) && run.snap.commits == snap.commits && run.hosting == inputs.service
    ensures run.result.Failure? && LegacyTouched(snap, run.snap)
    ensures run.result.error != BrokenProviderCall ==> run.snap == snap
    ensures run.result.error == MissingChangeId(oldest) <==> LegacyChangeId.LegacyGetChangeId(snap.commits[oldest].message) in {None, Some([])}
  {
    var changeId := LegacyChangeId.LegacyGetChangeId(snap.commits[oldest].message);
    if changeId.None? || changeId.value == [] then Run(snap, inputs.service, Failure(MissingChangeId(oldest)))
    else
      var branches := snap.branches[changeId.value := oldest];
      var pushed := if changeId.value in inputs.rejects then snap.pushed else snap.pushed[changeId.value := oldest];
      Run(Snapshot(snap.commits, branches, pushed, snap.nextHash), inputs.service, Failure(BrokenProviderCall))
  }

  /**
   * What the legacy run may do to the repository: no commit is made or rewritten, no
   * branch is removed, and every local or remote branch it sets points at an original
   * commit whose own Change-Id names that branch.
   */
  predicate LegacyTouched(before: Snapshot, after: Snapshot) {
    && after.commits == before.commits
    && before.branches.Keys <= after.branches.Keys
    && (forall b :: b in after.branches && (b !in before.branches || after.branches[b] != before.branches[b]) ==>
          after.branches[b] in before.commits
          && LegacyChangeId.LegacyGetChangeId(before.commits[after.branches[b]].message) == Some(b))
    && (forall b :: b in after.pushed && (b !in before.pushed || after.pushed[b] != before.pushed[b]) ==>
          after.pushed[b] in before.commits
          && LegacyChangeId.LegacyGetChangeId(before.commits[after.pushed[b]].message) == Some(b))
  }

  datatype StashOp = StashPush | StashPop

  /** The local repository, as `publish_changes` sees and changes it. */
  class Repository {
    var commits: Graph
    var branches: map<string, Hash>
    var pushed: map<string, Hash>       // the remote's branches, as last pushed
    var nextHash: nat
    var active: string                  // the checked-out branch
    var tracking: Option<Hash>          // the tip of its tracking branch, if it has one
    var dirty: bool                     // changed or untracked files
    var stashDepth: nat
    ghost var stashLog: seq<StashOp>

    function Snap(): Snapshot
      reads this
    {
      Snapshot(commits, branches, pushed, nextHash)
    }

    predicate Valid()
      reads this
    {
      Sound(Snap()) && active in branches && (tracking.Some? ==> tracking.value in commits)
    }

    /** `stash`: push the working changes, untracked files included. */
    method Stash()
      modifies this
      ensures !dirty && stashDepth == old(stashDepth) + 1 && stashLog == old(stashLog) + [StashPush]
      ensures Snap() == old(Snap()) && active == old(active) && tracking == old(tracking)
    {
      dirty, stashDepth := false, stashDepth + 1;
      stashLog := stashLog + [StashPush];
    }

    /** `unstash`: pop them back. */
    method Unstash()
      requires stashDepth > 0
      modifies this
      ensures dirty && stashDepth == old(stashDepth) - 1 && stashLog == old(stashLog) + [StashPop]
      ensures Snap() == old(Snap()) && active == old(active) && tracking == old(tracking)
    {
      dirty, stashDepth := true, stashDepth - 1;
      stashLog := stashLog + [StashPop];
    }

    /** `commit.replace(...)`: a new commit with `message` and sole parent `parent`. */
    method ReplaceCommit(message: string, parent: Hash) returns (c: Hash)
      requires Valid() && parent in commits
      modifies this
      ensures Valid() && c == old(nextHash) && nextHash == c + 1
      ensures commits == old(commits)[c := Commit(message, [parent])]
      ensures branches == old(branches) && pushed == old(pushed)
      ensures active == old(active) && tracking == old(tracking) && dirty == old(dirty)
      ensures stashDepth == old(stashDepth) && stashLog == old(stashLog)
    {
      AddCommitKeepsSound(Snap(), message, parent);
      c := nextHash;
      commits := commits[c := Commit(message, [parent])];
      nextHash := nextHash + 1;
    }

    /** `create_branch`: `create_head(name, force=True)` then `set_commit(c)`. */
    method CreateBranch(name: string, c: Hash)
      requires Valid() && c in commits
      modifies this
      ensures Valid() && branches == old(branches)[name := c]
      ensures commits == old(commits) && pushed == old(pushed) && nextHash == old(nextHash)
      ensures active == old(active) && tracking == old(tracking) && dirty == old(dirty)
      ensures stashDepth == old(stashDepth) && stashLog == old(stashLog)
    {
      branches := branches[name := c];
    }

    /** Force-push branch `name`; the remote refuses the names in `rejects`. */
    method PushBranch(name: string, rejects: set<string>) returns (ok: bool)
      requires Valid() && name in branches
      modifies this
      ensures ok <==> name !in rejects
      ensures Valid() && pushed == if ok then old(pushed)[name := old(branches)[name]] else old(pushed)
      ensures commits == old(commits) && branches == old(branches) && nextHash == old(nextHash)
      ensures active == old(active) && tracking == old(tracking) && dirty == old(dirty)
      ensures stashDepth == old(stashDepth) && stashLog == old(stashLog)
    {
      ok := name !in rejects;
      if ok {
        pushed := pushed[name := branches[name]];
      }
    }

    /** `delete_branch`: `git branch -D`, which refuses the checked-out branch. */
    method DeleteBranch(name: string) returns (ok: bool)
      requires Valid()
      modifies this
      ensures ok <==> name != active
      ensures Valid() && branches == if ok then old(branches) - {name} else old(branches)
      ensures commits == old(commits) && pushed == old(pushed) && nextHash == old(nextHash)
      ensures active == old(active) && tracking == old(tracking) && dirty == old(dirty)
      ensures stashDepth == old(stashDepth) && stashLog == old(stashLog)
    {
      ok := name != active;
      if ok {
        branches := branches - {name};
      }
    }

    /** `update_branch_reference`: move branch `name` to `c`. */
    method UpdateBranchReference(name: string, c: Hash)
      requires Valid() && c in commits
      modifies this
      ensures Valid() && branches == old(branches)[name := c]
      ensures commits == old(commits) && pushed == old(pushed) && nextHash == old(nextHash)
      ensures active == old(active) && tracking == old(tracking) && dirty == old(dirty)
      ensures stashDepth == old(stashDepth) && stashLog == old(stashLog)
    {
      branches := branches[name := c];
    }

    /** One iteration of the current loop, on `original`, the k-th commit. */
    method PublishCommit(inputs: Inputs, provider: Review.ReviewProvider, original: Hash, k: nat,
                         done: seq<Published>, previousBranch: string, previousCommit: Hash)
      returns (error: Option<PublishError>, done': seq<Published>, previousBranch': string, previousCommit': Hash)
      requires Valid() && provider.Valid() && original in commits && previousCommit in commits
      modifies this, provider
      ensures Valid() && provider.Valid()
      ensures active == old(active) && tracking == old(tracking) && dirty == old(dirty)
      ensures stashDepth == old(stashDepth) && stashLog == old(stashLog)
      ensures Trail(Snap(), provider.Hosted(), done', previousBranch', previousCommit', error)
           == Step(inputs, provider.listing, active,
                   Trail(old(Snap()), old(provider.Hosted()), done, previousBranch, previousCommit, None), original, k)
    {
      var stamp := StampOf(inputs, commits[original].message, k);
      var c := ReplaceCommit(stamp.message, previousCommit);
      CreateBranch(stamp.changeId, c);
      assert Snap() == Branched(old(Snap()), stamp.message, stamp.changeId, previousCommit);
      var ok := PushBranch(stamp.changeId, inputs.rejects);
      if !ok {
        return Some(PushRejected(stamp.changeId)), done, previousBranch, previousCommit;
      }
      error, done', previousBranch', previousCommit' := DeliverCommit(provider, original, c, ChangeFor(inputs, stamp, previousBranch), done);
    }

    /** The iteration after the push: the provider call and the deletion of the local branch. */
    method DeliverCommit(provider: Review.ReviewProvider, original: Hash, c: Hash, change: Review.Change, done: seq<Published>)
      returns (error: Option<PublishError>, done': seq<Published>, previousBranch': string, previousCommit': Hash)
      requires Valid() && provider.Valid() && c in commits
      modifies this, provider
      ensures Valid() && provider.Valid()
      ensures active == old(active) && tracking == old(tracking) && dirty == old(dirty)
      ensures stashDepth == old(stashDepth) && stashLog == old(stashLog)
      ensures Trail(Snap(), provider.Hosted(), done', previousBranch', previousCommit', error)
           == Deliver(provider.listing, active, old(Snap()), old(provider.Hosted()), done, original, c, change)
    {
      var number := provider.CreateOrUpdateChange(change);
      done' := done + [Published(original, c, change, number)];
      previousBranch', previousCommit' := change.changeId, c;
      var deleted := DeleteBranch(change.changeId);
      error := if deleted then None else Some(BranchDeleteRefused(change.changeId));
    }

    /** The body of the current `publish_changes` inside its `try`. */
    method PublishStashed(inputs: Inputs) returns (result: Result<seq<Published>, PublishError>, hosting: Review.Hosting)
      requires Valid() && Review.WellNumbered(inputs.service)
      modifies this
      ensures Valid()
      ensures active == old(active) && tracking == old(tracking) && dirty == old(dirty)
      ensures stashDepth == old(stashDepth) && stashLog == old(stashLog)
      ensures Run(Snap(), hosting, result) == PublishRun(inputs, old(Snap()), old(active), old(tracking))
    {
      // `fetch` is not modelled: `tracking` is the tip after fetching.
      var plan := Precheck(inputs, Snap(), active, tracking);
      if plan.Failure? {
        return Failure(plan.error), inputs.service;
      }
      result, hosting := PublishPlan(inputs, plan.value);
    }

    /** The planned commits published oldest first, then the active branch reset to the last one. */
    method PublishPlan(inputs: Inputs, plan: Plan) returns (result: Result<seq<Published>, PublishError>, hosting: Review.Hosting)
      requires Valid() && Review.WellNumbered(inputs.service) && PlanFits(Snap(), active, plan)
      modifies this
      ensures Valid()
      ensures active == old(active) && tracking == old(tracking) && dirty == old(dirty)
      ensures stashDepth == old(stashDepth) && stashLog == old(stashLog)
      ensures Run(Snap(), hosting, result) == RunPlan(inputs, old(Snap()), old(active), plan)
    {
      ghost var snap := Snap();
      var collected := CollectCommitsBetween(commits, branches[active], plan.ancestor);
      LinearChainIsCollected(commits, branches[active], plan.commits, plan.ancestor);
      PlanInGraph(snap, active, plan);
      ghost var tr := Steps(inputs, Review.ListingOf(plan.project), active, StartTrail(inputs, snap, active, plan.ancestor), Reversed(plan.commits), 0);
      var provider := new Review.ReviewProvider(plan.project, inputs.service);
      var error, done, previousBranch, previousCommit := PublishLoop(inputs, provider, Reversed(collected.value), plan.ancestor);
      hosting := provider.Hosted();
      assert tr == Trail(Snap(), hosting, done, previousBranch, previousCommit, error);
      if error.Some? {
        return Failure(error.value), hosting;
      }
      UpdateBranchReference(active, previousCommit);
      result := Success(done);
      assert Run(Snap(), hosting, result) == Finish(tr, active);
    }

    /**
     * The `for commit in reversed(commits)` loop: each commit in turn, threading the
     * previous branch and the previous commit, until one fails.
     */
    method PublishLoop(inputs: Inputs, provider: Review.ReviewProvider, todo: seq<Hash>, ancestor: Hash)
      returns (error: Option<PublishError>, done: seq<Published>, previousBranch: string, previousCommit: Hash)
      requires Valid() && provider.Valid() && ancestor in commits
      requires forall j :: 0 <= j < |todo| ==> todo[j] in commits
      modifies this, provider
      ensures Valid() && provider.Valid()
      ensures active == old(active) && tracking == old(tracking) && dirty == old(dirty)
      ensures stashDepth == old(stashDepth) && stashLog == old(stashLog)
      ensures Trail(Snap(), provider.Hosted(), done, previousBranch, previousCommit, error)
           == Steps(inputs, provider.listing, active, Trail(old(Snap()), old(provider.Hosted()), [], active, ancestor, None), todo, 0)
    {
      done, previousBranch, previousCommit := [], active, ancestor;
      ghost var final := Steps(inputs, provider.listing, active, Trail(Snap(), provider.Hosted(), done, previousBranch, previousCommit, None), todo, 0);
      assert todo[0..] == todo;
      for i := 0 to |todo|
        invariant Valid() && provider.Valid() && previousCommit in commits
        invariant active == old(active) && tracking == old(tracking) && dirty == old(dirty)
        invariant stashDepth == old(stashDepth) && stashLog == old(stashLog)
        invariant forall j :: 0 <= j < |todo[i..]| ==> todo[i..][j] in commits
        invariant final == Steps(inputs, provider.listing, active, Trail(Snap(), provider.Hosted(), done, previousBranch, previousCommit, None), todo[i..], i)
      {
        assert todo[i..][1..] == todo[i + 1..];
        error, done, previousBranch, previousCommit := PublishNext(inputs, provider, final, todo[i..], i, done, previousBranch, previousCommit);
        if error.Some? {
          return;
        }
      }
      StepsStop(inputs, provider.listing, active, Trail(Snap(), provider.Hosted(), done, previousBranch, previousCommit, None), [], |todo|);
      return None, done, previousBranch, previousCommit;
    }

    /** The k-th pass of the loop, on the first of the commits still to do, toward the loop's outcome `final`. */
    method PublishNext(inputs: Inputs, provider: Review.ReviewProvider, ghost final: Trail, todo: seq<Hash>, k: nat,
                       done: seq<Published>, previousBranch: string, previousCommit: Hash)
      returns (error: Option<PublishError>, done': seq<Published>, previousBranch': string, previousCommit': Hash)
      requires Valid() && provider.Valid() && previousCommit in commits && todo != []
      requires forall j :: 0 <= j < |todo| ==> todo[j] in commits
      requires final == Steps(inputs, provider.listing, active, Trail(Snap(), provider.Hosted(), done, previousBranch, previousCommit, None), todo, k)
      modifies this, provider
      ensures Valid() && provider.Valid() && previousCommit' in commits
      ensures active == old(active) && tracking == old(tracking) && dirty == old(dirty)
      ensures stashDepth == old(stashDepth) && stashLog == old(stashLog)
      ensures forall j :: 0 <= j < |todo[1..]| ==> todo[1..][j] in commits
      ensures error.Some? ==> final == Trail(Snap(), provider.Hosted(), done', previousBranch', previousCommit', error)
      ensures error.None? ==>
        final == Steps(inputs, provider.listing, active, Trail(Snap(), provider.Hosted(), done', previousBranch', previousCommit', None), todo[1..], k + 1)
    {
      StepsAdvance(inputs, provider.listing, active, Trail(Snap(), provider.Hosted(), done, previousBranch, previousCommit, None), todo, k);
      error, done', previousBranch', previousCommit' := PublishCommit(inputs, provider, todo[0], k, done, previousBranch, previousCommit);
      if error.Some? {
        StepsStop(inputs, provider.listing, active, Trail(Snap(), provider.Hosted(), done', previousBranch', previousCommit', error), todo[1..], k + 1);
      }
    }

    /** The current `publish_changes`: the body, bracketed by a stash when the tree is dirty. */
    method PublishChanges(inputs: Inputs) returns (result: Result<seq<Published>, PublishError>, hosting: Review.Hosting)
      requires Valid() && Review.WellNumbered(inputs.service)
      modifies this
      ensures Valid()
      ensures dirty == old(dirty) && stashDepth == old(stashDepth)
      ensures stashLog == old(stashLog) + if old(dirty) then [StashPush, StashPop] else []
      ensures active == old(active) && tracking == old(tracking)
      ensures Run(Snap(), hosting, result) == PublishRun(inputs, old(Snap()), old(active), old(tracking))
    {
      var repoIsDirty := dirty;
      if repoIsDirty {
        Stash();
      }
      result, hosting := PublishStashed(inputs);
      if repoIsDirty {
        Unstash();
      }
    }

    /** The legacy `publish_changes`. */
    method LegacyPublishChanges(inputs: Inputs) returns (result: Result<seq<Published>, PublishError>, hosting: Review.Hosting)
      requires Valid()
      modifies this
      ensures Valid()
      ensures active == old(active) && tracking == old(tracking) && dirty == old(dirty)
      ensures stashDepth == old(stashDepth) && stashLog == old(stashLog)
      ensures Run(Snap(), hosting, result) == LegacyPublishRun(inputs, old(Snap()), old(dirty), old(active), old(tracking))
    {
      hosting := inputs.service;
      if dirty {
        return Failure(DirtyWorkingTree), hosting;
      }
      if active !in LegacyMainBranches {
        return Failure(NotOnMainBranch), hosting;
      }
      if tracking.None? {
        return Failure(NotTracking), hosting;
      }
      var ancestor := MostRecentCommonAncestor(commits, inputs.mergeBases);
      if ancestor.Failure? {
        return Failure(NoUsableAncestor(ancestor.error)), hosting;
      }
      var collected := CollectCommitsBetween(commits, branches[active], ancestor.value);
      if collected.Failure? {
        return Failure(UnpublishableHistory(collected.error)), hosting;
      }
      var cs := collected.value;
      if cs == [] {
        return Failure(NothingToPublish), hosting;
      }
      var project := GitProject.BuildGitProject(GitProject.Legacy, inputs.url, inputs.env, inputs.gh, inputs.credential);
      if project.Failure? {
        return Failure(NoProject(project.error)), hosting;
      }
      LinearChainMembers(commits, branches[active], cs, ancestor.value);
      var oldest := cs[|cs| - 1];
      var changeId := LegacyChangeId.LegacyGetChangeId(commits[oldest].message);
      if changeId.None? || changeId.value == [] {
        return Failure(MissingChangeId(oldest)), hosting;
      }
      CreateBranch(changeId.value, oldest);
      var _ := PushBranch(changeId.value, inputs.rejects);
      return Failure(BrokenProviderCall), hosting;
    }
  }

  // ----- lemmas -----

  /** The commit the next one is rebased onto: the last one published, or the ancestor. */
  function PreviousCommit(ancestor: Hash, done: seq<Published>): Hash {
    if done == [] then ancestor else done[|done| - 1].commit
  }

  /** The branch the next request targets: the last one published, or the active branch. */
  function PreviousBranch(active: string, done: seq<Published>): string {
    if done == [] then active else done[|done| - 1].change.changeId
  }

  /** The change ids published so far. */
  function ChangeIds(done: seq<Published>): set<string> {
    set i | 0 <= i < |done| :: done[i].change.changeId
  }

  /**
   * The i-th published commit is the stamped copy of its original, with the previous
   * one (or the ancestor) as sole parent, and its request goes from its id to the
   * previous branch (or the active one).
   */
  predicate PublishedAt(inputs: Inputs, g: Graph, ancestor: Hash, active: string, done: seq<Published>, i: nat)
    requires i < |done|
  {
    var p := done[i];
    var stamp := StampOf(inputs, if p.original in g then g[p.original].message else [], i);
    && p.original in g && p.commit in g
    && g[p.commit] == Commit(stamp.message, [PreviousCommit(ancestor, done[..i])])
    && p.change == ChangeFor(inputs, stamp, PreviousBranch(active, done[..i]))
  }

  predicate Chained(inputs: Inputs, g: Graph, ancestor: Hash, active: string, done: seq<Published>) {
    forall i :: 0 <= i < |done| ==> PublishedAt(inputs, g, ancestor, active, done, i)
  }

  /** Each published id was pushed, with the commit the latest entry for it published. */
  predicate LatestPushed(pushed: map<string, Hash>, done: seq<Published>) {
    forall i :: 0 <= i < |done| ==>
      && done[i].change.changeId in pushed
      && ((forall j :: i < j < |done| ==> done[j].change.changeId != done[i].change.changeId)
           ==> pushed[done[i].change.changeId] == done[i].commit)
  }

  /**
   * What holds of the loop at every pass: the published commits form a chain from the
   * ancestor, the loop variables name its end, the pushes are recorded, the requests
   * stay well numbered, and until something fails the local branches are the ones the
   * run started with minus the published ids.
   */
  predicate TrailChained(inputs: Inputs, ancestor: Hash, active: string, base: map<string, Hash>, tr: Trail) {
    && Chained(inputs, tr.snap.commits, ancestor, active, tr.done)
    && tr.previousCommit == PreviousCommit(ancestor, tr.done)
    && tr.previousBranch == PreviousBranch(active, tr.done)
    && LatestPushed(tr.snap.pushed, tr.done)
    && Review.WellNumbered(tr.hosting)
    && Served(tr.hosting, tr.done)
    && (tr.error.None? ==> tr.snap.branches == base - ChangeIds(tr.done))
    && (tr.error.Some? ==> Explained(inputs, active, tr.error.value))
  }

  /** `p`'s request: its number, with the change's source branch, target and title. */
  predicate RequestFor(r: Review.ReviewRequest, p: Published) {
    && r.number == p.number && r.source == p.change.changeId
    && r.target == p.change.target && r.title == p.change.title
  }

  /** No later entry publishes the same change id as entry `i`. */
  predicate LastFor(done: seq<Published>, i: nat)
    requires i < |done|
  {
    forall j :: i < j < |done| ==> done[j].change.changeId != done[i].change.changeId
  }

  /** The service holds, for the latest entry of every published id, that entry's request. */
  predicate Served(h: Review.Hosting, done: seq<Published>) {
    forall i :: 0 <= i < |done| && LastFor(done, i) ==>
      exists k :: 0 <= k < |h.requests| && RequestFor(h.requests[k], done[i])
  }

  /** The only ways the loop stops: a push the remote refuses, or a change id naming the checked-out branch. */
  predicate Explained(inputs: Inputs, active: string, e: PublishError) {
    (e.PushRejected? && e.branch in inputs.rejects) || e == BranchDeleteRefused(active)
  }

  /** A chain survives the graph growing. */
  lemma ChainedGrows(inputs: Inputs, g: Graph, g': Graph, ancestor: Hash, active: string, done: seq<Published>)
    requires Chained(inputs, g, ancestor, active, done) && Grows(g, g')
    ensures Chained(inputs, g', ancestor, active, done)
  {
    forall i | 0 <= i < |done| ensures PublishedAt(inputs, g', ancestor, active, done, i) {
      assert PublishedAt(inputs, g, ancestor, active, done, i);
    }
  }

  /** A chain extended by an entry that fits its end. */
  lemma ChainedExtend(inputs: Inputs, g: Graph, ancestor: Hash, active: string, done: seq<Published>, p: Published)
    requires Chained(inputs, g, ancestor, active, done)
    requires PublishedAt(inputs, g, ancestor, active, done + [p], |done|)
    ensures Chained(inputs, g, ancestor, active, done + [p])
  {
    var done' := done + [p];
    forall i | 0 <= i < |done'| ensures PublishedAt(inputs, g, ancestor, active, done', i) {
      if i < |done| {
        assert done'[i] == done[i] && done'[..i] == done[..i];
        assert PublishedAt(inputs, g, ancestor, active, done, i);
      }
    }
  }

  lemma LatestPushedExtend(pushed: map<string, Hash>, done: seq<Published>, p: Published)
    requires LatestPushed(pushed, done)
    ensures LatestPushed(pushed[p.change.changeId := p.commit], done + [p])
  {
    var done', pushed' := done + [p], pushed[p.change.changeId := p.commit];
    forall i | 0 <= i < |done'|
      ensures && done'[i].change.changeId in pushed'
              && ((forall j :: i < j < |done'| ==> done'[j].change.changeId != done'[i].change.changeId)
                   ==> pushed'[done'[i].change.changeId] == done'[i].commit)
    {
      if i < |done| {
        assert done'[i] == done[i];
        if forall j :: i < j < |done'| ==> done'[j].change.changeId != done'[i].change.changeId {
          assert done'[|done|] == p;
          forall j | i < j < |done| ensures done[j].change.changeId != done[i].change.changeId {
            assert done'[j] == done[j];
          }
        }
      }
    }
  }

  lemma ChangeIdsExtend(done: seq<Published>, p: Published)
    ensures ChangeIds(done + [p]) == ChangeIds(done) + {p.change.changeId}
  {
    var done' := done + [p];
    forall b | b in ChangeIds(done') ensures b in ChangeIds(done) + {p.change.changeId} {
      var i :| 0 <= i < |done'| && done'[i].change.changeId == b;
      if i < |done| {
        assert done[i] == done'[i];
      }
    }
    forall b | b in ChangeIds(done) ensures b in ChangeIds(done') {
      var i :| 0 <= i < |done| && done[i].change.changeId == b;
      assert done'[i] == done[i];
    }
    assert done'[|done|] == p;
  }

  /** `after` is `before`, or `before` and one entry for `original`. */
  predicate AppendedAtMostOne(before: seq<Published>, after: seq<Published>, original: Hash) {
    after == before || (|after| == |before| + 1 && after[..|before|] == before && after[|before|].original == original)
  }

  /** One pass keeps the invariant and appends at most one entry, for `original`; it appends one when it does not fail. */
  lemma StepKeepsChain(inputs: Inputs, listing: Review.Listing, active: string, ancestor: Hash, base: map<string, Hash>,
                       tr: Trail, original: Hash, k: nat)
    requires Sound(tr.snap) && original in tr.snap.commits && tr.previousCommit in tr.snap.commits
    requires TrailChained(inputs, ancestor, active, base, tr) && tr.error.None? && k == |tr.done|
    ensures var r := Step(inputs, listing, active, tr, original, k);
      && TrailChained(inputs, ancestor, active, base, r)
      && AppendedAtMostOne(tr.done, r.done, original)
      && (r.error.None? ==> |r.done| == |tr.done| + 1)
  {
    var stamp := StampOf(inputs, tr.snap.commits[original].message, k);
    if stamp.changeId in inputs.rejects {
      StepRejectedKeepsChain(inputs, listing, active, ancestor, base, tr, original, k);
    } else {
      StepDeliveredKeepsChain(inputs, listing, active, ancestor, base, tr, original, k);
    }
  }

  /** A refused push ends the run with nothing more published. */
  lemma StepRejectedKeepsChain(inputs: Inputs, listing: Review.Listing, active: string, ancestor: Hash, base: map<string, Hash>,
                               tr: Trail, original: Hash, k: nat)
    requires Sound(tr.snap) && original in tr.snap.commits && tr.previousCommit in tr.snap.commits
    requires TrailChained(inputs, ancestor, active, base, tr) && tr.error.None?
    requires StampOf(inputs, tr.snap.commits[original].message, k).changeId in inputs.rejects
    ensures var r := Step(inputs, listing, active, tr, original, k);
      TrailChained(inputs, ancestor, active, base, r) && r.done == tr.done && r.error.Some?
  {
    var r := Step(inputs, listing, active, tr, original, k);
    ChainedGrows(inputs, tr.snap.commits, r.snap.commits, ancestor, active, tr.done);
  }

  /** A pass that pushes publishes one more entry at the end of the chain. */
  lemma StepDeliveredKeepsChain(inputs: Inputs, listing: Review.Listing, active: string, ancestor: Hash, base: map<string, Hash>,
                                tr: Trail, original: Hash, k: nat)
    requires Sound(tr.snap) && original in tr.snap.commits && tr.previousCommit in tr.snap.commits
    requires TrailChained(inputs, ancestor, active, base, tr) && tr.error.None? && k == |tr.done|
    requires StampOf(inputs, tr.snap.commits[original].message, k).changeId !in inputs.rejects
    ensures var r := Step(inputs, listing, active, tr, original, k);
      && TrailChained(inputs, ancestor, active, base, r)
      && |r.done| == |tr.done| + 1 && r.done[..|tr.done|] == tr.done && r.done[|tr.done|].original == original
  {
    var r := Step(inputs, listing, active, tr, original, k);
    var stamp := StampOf(inputs, tr.snap.commits[original].message, k);
    var c := tr.snap.nextHash;
    var g := r.snap.commits;
    var change := ChangeFor(inputs, stamp, tr.previousBranch);
    var o := Review.Reconcile(tr.hosting, listing, change);
    var p := Published(original, c, change, o.number);
    var snap := Branched(tr.snap, stamp.message, stamp.changeId, tr.previousCommit);
    assert r == Deliver(listing, active, snap.(pushed := snap.pushed[stamp.changeId := c]), tr.hosting, tr.done, original, c, change);
    assert (tr.done + [p])[|tr.done|] == p;
    ChainedGrows(inputs, tr.snap.commits, g, ancestor, active, tr.done);
    PublishedAtEnd(inputs, g, ancestor, active, tr.done, p);
    ChainedExtend(inputs, g, ancestor, active, tr.done, p);
    LatestPushedExtend(tr.snap.pushed, tr.done, p);
    Review.ReconcileKeepsNumbering(tr.hosting, listing, change);
    ServedExtend(tr.hosting, listing, tr.done, change, original, c);
    if r.error.None? {
      DeliveredBranches(base, tr.done, p, tr.snap.branches);
    }
  }

  /**
   * `after` is `before` continued over `todo`: it appends one entry per commit of `todo`
   * that it visits, in order, and visits them all unless it stopped.
   */
  predicate Extends(before: Trail, after: Trail, todo: seq<Hash>) {
    && |before.done| <= |after.done| <= |before.done| + |todo|
    && after.done[..|before.done|] == before.done
    && (forall j :: |before.done| <= j < |after.done| ==> after.done[j].original == todo[j - |before.done|])
    && (after.error.None? ==> before.error.None? && |after.done| == |before.done| + |todo|)
  }

  /** A trail that has stopped, or has nothing to do, continues itself. */
  lemma ExtendsStop(tr: Trail, todo: seq<Hash>)
    requires todo == [] || tr.error.Some?
    ensures Extends(tr, tr, todo)
  {
    assert tr.done[..|tr.done|] == tr.done;
  }

  /** Continuing over `todo[0]` and then over the rest is continuing over `todo`. */
  lemma ExtendsTrans(a: Trail, b: Trail, c: Trail, todo: seq<Hash>)
    requires todo != [] && Extends(a, b, todo[..1]) && Extends(b, c, todo[1..])
    requires b.error.Some? ==> c == b
    ensures Extends(a, c, todo)
  {
    assert c.done[..|a.done|] == c.done[..|b.done|][..|a.done|];
    forall j | |a.done| <= j < |c.done| ensures c.done[j].original == todo[j - |a.done|] {
      if j < |b.done| {
        assert c.done[j] == b.done[j] && todo[..1][0] == todo[0];
      }
    }
  }

  /** One pass appends nothing and stops, or appends one entry, for `original`. */
  lemma StepShape(inputs: Inputs, listing: Review.Listing, active: string, tr: Trail, todo: seq<Hash>, k: nat)
    requires Sound(tr.snap) && todo != [] && todo[0] in tr.snap.commits && tr.previousCommit in tr.snap.commits
    requires tr.error.None?
    ensures Extends(tr, Step(inputs, listing, active, tr, todo[0], k), todo[..1])
  {
    var r := Step(inputs, listing, active, tr, todo[0], k);
    assert r.done[..|tr.done|] == tr.done;
  }

  /** The loop continues the trail over the commits it is given. */
  lemma {:induction false} StepsShape(inputs: Inputs, listing: Review.Listing, active: string, tr: Trail, todo: seq<Hash>, k: nat)
    requires Sound(tr.snap) && tr.previousCommit in tr.snap.commits
    requires forall i :: 0 <= i < |todo| ==> todo[i] in tr.snap.commits
    ensures Extends(tr, Steps(inputs, listing, active, tr, todo, k), todo)
    decreases |todo|
  {
    if todo == [] || tr.error.Some? {
      ExtendsStop(tr, todo);
    } else {
      var next := Step(inputs, listing, active, tr, todo[0], k);
      StepsAdvance(inputs, listing, active, tr, todo, k);
      StepShape(inputs, listing, active, tr, todo, k);
      if next.error.Some? {
        StepsStop(inputs, listing, active, next, todo[1..], k + 1);
        ExtendsStop(next, todo[1..]);
      } else {
        StepsShape(inputs, listing, active, next, todo[1..], k + 1);
      }
      ExtendsTrans(tr, next, Steps(inputs, listing, active, next, todo[1..], k + 1), todo);
    }
  }

  /** The whole loop keeps the invariant. */
  lemma {:induction false} StepsKeepChain(inputs: Inputs, listing: Review.Listing, active: string, ancestor: Hash,
                                          base: map<string, Hash>, tr: Trail, todo: seq<Hash>, k: nat)
    requires Sound(tr.snap) && tr.previousCommit in tr.snap.commits
    requires forall i :: 0 <= i < |todo| ==> todo[i] in tr.snap.commits
    requires TrailChained(inputs, ancestor, active, base, tr) && k == |tr.done|
    ensures TrailChained(inputs, ancestor, active, base, Steps(inputs, listing, active, tr, todo, k))
    decreases |todo|
  {
    if todo != [] && tr.error.None? {
      var next := Step(inputs, listing, active, tr, todo[0], k);
      StepsAdvance(inputs, listing, active, tr, todo, k);
      StepKeepsChain(inputs, listing, active, ancestor, base, tr, todo[0], k);
      if next.error.None? {
        StepsKeepChain(inputs, listing, active, ancestor, base, next, todo[1..], k + 1);
      } else {
        StepsStop(inputs, listing, active, next, todo[1..], k + 1);
      }
    }
  }

  /**
   * What a run of the planned loop over `commits` (newest first) promises: a successful
   * one publishes every planned commit, oldest first, as a chain of rewritten commits
   * from the ancestor whose requests target one another in turn; every temporary branch
   * is gone, the active branch points at the last rewritten commit, and every id is
   * pushed with its latest commit. A failed run stopped at a refused push or at an id
   * naming the active branch. Either way the requests stay well numbered.
   */
  predicate PublishesChain(inputs: Inputs, base: map<string, Hash>, active: string, ancestor: Hash, commits: seq<Hash>, run: Run) {
    && Review.WellNumbered(run.hosting)
    && (run.result.Failure? ==> Explained(inputs, active, run.result.error))
    && (run.result.Success? ==>
          var done := run.result.value;
          && |done| == |commits|
          && (forall i :: 0 <= i < |done| ==> done[i].original == commits[|commits| - 1 - i])
          && Chained(inputs, run.snap.commits, ancestor, active, done)
          && run.snap.branches == (base - ChangeIds(done))[active := PreviousCommit(ancestor, done)]
          && LatestPushed(run.snap.pushed, done)
          && Served(run.hosting, done))
  }

  /** The planned loop keeps its promises. */
  lemma RunPlanPublishesChain(inputs: Inputs, snap: Snapshot, active: string, plan: Plan)
    requires PlanFits(snap, active, plan) && Review.WellNumbered(inputs.service)
    ensures PublishesChain(inputs, snap.branches, active, plan.ancestor, plan.commits, RunPlan(inputs, snap, active, plan))
  {
    PlanInGraph(snap, active, plan);
    var listing := Review.ListingOf(plan.project);
    var start := StartTrail(inputs, snap, active, plan.ancestor);
    assert snap.branches - ChangeIds([]) == snap.branches;
    var todo := Reversed(plan.commits);
    StepsShape(inputs, listing, active, start, todo, 0);
    StepsKeepChain(inputs, listing, active, plan.ancestor, snap.branches, start, todo, 0);
    var tr := Steps(inputs, listing, active, start, todo, 0);
    FinishPublishesChain(inputs, plan.ancestor, active, snap.branches, start, tr, plan.commits);
  }

  /**
   * The current `publish_changes`: it succeeds only when every check passed, then keeps
   * the loop's promises; a check that fails stops the run before anything is created,
   * pushed or requested.
   */
  lemma PublishRunPublishesChain(inputs: Inputs, snap: Snapshot, active: string, tracking: Option<Hash>)
    requires Sound(snap) && active in snap.branches && (tracking.Some? ==> tracking.value in snap.commits)
    requires Review.WellNumbered(inputs.service)
    ensures var run := PublishRun(inputs, snap, active, tracking);
      var plan := Precheck(inputs, snap, active, tracking);
      && (run.result.Success? ==> plan.Success?)
      && (plan.Success? ==> PublishesChain(inputs, snap.branches, active, plan.value.ancestor, plan.value.commits, run))
      && (plan.Failure? ==> run == Run(snap, inputs.service, Failure(plan.error)))
  {
    var plan := Precheck(inputs, snap, active, tracking);
    if plan.Success? {
      RunPlanPublishesChain(inputs, snap, active, plan.value);
    }
  }

  /** The end of a run from an empty start, read off the loop's invariant and its shape. */
  lemma FinishPublishesChain(inputs: Inputs, ancestor: Hash, active: string, base: map<string, Hash>,
                             start: Trail, tr: Trail, commits: seq<Hash>)
    requires Sound(tr.snap) && tr.previousCommit in tr.snap.commits
    requires start.done == [] && Extends(start, tr, Reversed(commits)) && TrailChained(inputs, ancestor, active, base, tr)
    ensures PublishesChain(inputs, base, active, ancestor, commits, Finish(tr, active))
  {
  }

  /** An entry for the end of the chain fits there. */
  lemma PublishedAtEnd(inputs: Inputs, g: Graph, ancestor: Hash, active: string, done: seq<Published>, p: Published)
    requires p.original in g && p.commit in g
    requires g[p.commit] == Commit(StampOf(inputs, g[p.original].message, |done|).message, [PreviousCommit(ancestor, done)])
    requires p.change == ChangeFor(inputs, StampOf(inputs, g[p.original].message, |done|), PreviousBranch(active, done))
    ensures PublishedAt(inputs, g, ancestor, active, done + [p], |done|)
  {
    assert (done + [p])[..|done|] == done;
  }

  /**
   * Reconciling one more change keeps every request already served and serves the new
   * entry: requests for other ids are left alone, and the answer names a request that
   * carries the change.
   */
  lemma ServedExtend(h: Review.Hosting, listing: Review.Listing, done: seq<Published>, change: Review.Change,
                     original: Hash, c: Hash)
    requires Review.WellNumbered(h) && Served(h, done) && change.source == change.changeId
    ensures var o := Review.Reconcile(h, listing, change);
      Served(o.hosting, done + [Published(original, c, change, o.number)])
  {
    var o := Review.Reconcile(h, listing, change);
    var p := Published(original, c, change, o.number);
    var done' := done + [p];
    var reqs := o.hosting.requests;
    var kNew := Review.ReconcileAnswersWithRequest(h, listing, change);
    Review.ReconcileKeepsOthers(h, listing, change);
    Review.ReconcileCreatesAtMostOne(h, listing, change);
    forall i | 0 <= i < |done'| && LastFor(done', i)
      ensures exists k :: 0 <= k < |reqs| && RequestFor(reqs[k], done'[i])
    {
      if i == |done| {
        assert done'[i] == p && RequestFor(reqs[kNew], p);
      } else {
        assert done'[i] == done[i];
        assert done'[|done|] == p;
        assert done[i].change.changeId != change.changeId;
        assert LastFor(done, i) by {
          forall j | i < j < |done| ensures done[j].change.changeId != done[i].change.changeId {
            assert done'[j] == done[j];
          }
        }
        var k :| 0 <= k < |h.requests| && RequestFor(h.requests[k], done[i]);
        assert reqs[k] == h.requests[k];
      }
    }
  }

  /** Creating then deleting the branch of one more id leaves the branches minus that id too. */
  lemma DeliveredBranches(base: map<string, Hash>, done: seq<Published>, p: Published, branches: map<string, Hash>)
    requires branches == base - ChangeIds(done)
    ensures branches[p.change.changeId := p.commit] - {p.change.changeId} == base - ChangeIds(done + [p])
  {
    ChangeIdsExtend(done, p);
  }
}
