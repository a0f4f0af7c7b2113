/**
 * The commit-graph walker shared by both versions of git-publish
 * (`collect_commits_between`, `get_commit_parent`, `get_most_recent_common_ancestor`).
 *
 * A repository's commits are a map from hash to commit. A hash here is a natural
 * number that is larger than the hash of every parent: Git's history is acyclic, and
 * numbering commits in creation order is one topological order of it. That order is
 * what makes the first-parent walk terminate.
 */
module CommitGraph {
  import opened Wrappers

  type Hash = nat

  datatype Commit = Commit(message: string, parents: seq<Hash>)

  type Graph = map<Hash, Commit>

  /** Every parent is a commit of the graph and older than its child. */
  predicate WellFormed(g: Graph) {
    forall h, i :: h in g && 0 <= i < |g[h].parents| ==> g[h].parents[i] in g && g[h].parents[i] < h
  }

  /** Why a walk stopped: `fail(...)` in the source, i.e. `SystemExit`. */
  datatype WalkError =
    | MergeCommit(at: Hash)   // "Merge commit ... cannot be published."
    | RootCommit(at: Hash)    // "Commit ... has no parent."

  /** `get_commit_parent`: the sole parent; a merge commit is reported before a root commit. */
  function CommitParent(g: Graph, h: Hash): (r: Result<Hash, WalkError>)
    requires WellFormed(g) && h in g
    ensures r.Success? <==> |g[h].parents| == 1
    ensures r.Success? ==> r.value in g && r.value < h && g[h].parents == [r.value]
    ensures r.Failure? ==> r.error == if |g[h].parents| > 1 then MergeCommit(h) else RootCommit(h)
  {
    var parents := g[h].parents;
    if |parents| > 1 then Failure(MergeCommit(h))
    else if parents == [] then Failure(RootCommit(h))
    else Success(parents[0])
  }

  /**
   * `cs` is the list `collect_commits_between(top, bottom)` returns: newest first,
   * starting at `top`, each commit followed by its sole parent, the last one's sole
   * parent being `bottom`, and `bottom` itself not included.
   */
  predicate LinearChain(g: Graph, top: Hash, cs: seq<Hash>, bottom: Hash)
    decreases |cs|
  {
    if cs == [] then top == bottom
    else
      && cs[0] == top && top != bottom && top in g
      && |g[top].parents| == 1
      && LinearChain(g, g[top].parents[0], cs[1..], bottom)
  }

  /** The specification of the walk: the commits from `top` down to `bottom`, or why it stopped. */
  function CommitsBetween(g: Graph, top: Hash, bottom: Hash): (r: Result<seq<Hash>, WalkError>)
    requires WellFormed(g) && top in g
    ensures r.Success? ==> LinearChain(g, top, r.value, bottom)
    ensures r.Success? && r.value != [] ==> r.value[0] == top
    decreases top
  {
    if top == bottom then Success([])
    else
      match CommitParent(g, top)
      case Failure(e) => Failure(e)
      case Success(parent) =>
        match CommitsBetween(g, parent, bottom)
        case Failure(e) => Failure(e)
        case Success(rest) => Success([top] + rest)
  }

  /** `commits` followed by the outcome of the rest of the walk. */
  function Prepend(commits: seq<Hash>, rest: Result<seq<Hash>, WalkError>): Result<seq<Hash>, WalkError> {
    match rest
    case Failure(e) => Failure(e)
    case Success(cs) => Success(commits + cs)
  }

  lemma PrependNil(r: Result<seq<Hash>, WalkError>)
    ensures Prepend([], r) == r
  {
    if r.Success? {
      assert [] + r.value == r.value;
    }
  }

  lemma PrependAssoc(a: seq<Hash>, b: seq<Hash>, r: Result<seq<Hash>, WalkError>)
    ensures Prepend(a, Prepend(b, r)) == Prepend(a + b, r)
  {
    if r.Success? {
      assert a + (b + r.value) == (a + b) + r.value;
    }
  }

  /** `collect_commits_between`: walk first parents from `top` until `bottom` is reached. */
  method CollectCommitsBetween(g: Graph, top: Hash, bottom: Hash) returns (r: Result<seq<Hash>, WalkError>)
    requires WellFormed(g) && top in g
    ensures r == CommitsBetween(g, top, bottom)
  {
    var commits: seq<Hash> := [];
    var t := top;
    PrependNil(CommitsBetween(g, top, bottom));
    while t != bottom
      invariant t in g
      invariant CommitsBetween(g, top, bottom) == Prepend(commits, CommitsBetween(g, t, bottom))
      decreases t
    {
      commits := commits + [t];
      var step := CommitParent(g, t);
      if step.Failure? {
        return Failure(step.error);
      }
      assert CommitsBetween(g, t, bottom) == Prepend([t], CommitsBetween(g, step.value, bottom));
      PrependAssoc(commits[..|commits| - 1], [t], CommitsBetween(g, step.value, bottom));
      t := step.value;
    }
    assert commits + [] == commits;
    return Success(commits);
  }

  /** Why no single common ancestor could be used. */
  datatype AncestorError =
    | NoSingleCommonAncestor   // merge_base returned zero or several commits
    | AncestorNotACommit       // what it returned is not a commit

  /**
   * `get_most_recent_common_ancestor`, given what `merge_base` answered: exactly one
   * answer, and a commit, or the corresponding failure (the count is checked first).
   */
  function MostRecentCommonAncestor(g: Graph, mergeBases: seq<Hash>): (r: Result<Hash, AncestorError>)
    ensures r.Success? <==> |mergeBases| == 1 && mergeBases[0] in g
    ensures r.Success? ==> r.value == mergeBases[0]
    ensures |mergeBases| != 1 ==> r == Failure(NoSingleCommonAncestor)
  {
    if |mergeBases| != 1 then Failure(NoSingleCommonAncestor)
    else if mergeBases[0] !in g then Failure(AncestorNotACommit)
    else Success(mergeBases[0])
  }

  // ----- lemmas -----

  /** A linear chain is exactly what the walk returns: the walk is complete and its result unique. */
  lemma {:induction false} LinearChainIsCollected(g: Graph, top: Hash, cs: seq<Hash>, bottom: Hash)
    requires WellFormed(g) && top in g
    requires LinearChain(g, top, cs, bottom)
    ensures CommitsBetween(g, top, bottom) == Success(cs)
    decreases |cs|
  {
    if cs != [] {
      var parent := g[top].parents[0];
      LinearChainIsCollected(g, parent, cs[1..], bottom);
      assert [top] + cs[1..] == cs;
    }
  }

  /** The walk succeeds exactly when a linear chain leads from `top` to `bottom`. */
  lemma CommitsBetweenSucceedsIff(g: Graph, top: Hash, bottom: Hash, cs: seq<Hash>)
    requires WellFormed(g) && top in g
    ensures CommitsBetween(g, top, bottom) == Success(cs) <==> LinearChain(g, top, cs, bottom)
  {
    if LinearChain(g, top, cs, bottom) {
      LinearChainIsCollected(g, top, cs, bottom);
    }
  }

  /** Every collected commit is a commit of the graph other than `bottom`, with one parent. */
  lemma {:induction false} LinearChainMembers(g: Graph, top: Hash, cs: seq<Hash>, bottom: Hash)
    requires LinearChain(g, top, cs, bottom)
    ensures forall i :: 0 <= i < |cs| ==> cs[i] in g && cs[i] != bottom && |g[cs[i]].parents| == 1
    ensures forall i :: 0 <= i < |cs| - 1 ==> g[cs[i]].parents[0] == cs[i + 1]
    ensures cs != [] ==> g[cs[|cs| - 1]].parents == [bottom]
    decreases |cs|
  {
    if cs != [] {
      LinearChainMembers(g, g[top].parents[0], cs[1..], bottom);
      forall i | 0 <= i < |cs| - 1 ensures g[cs[i]].parents[0] == cs[i + 1] {
        if i > 0 {
          assert cs[i] == cs[1..][i - 1] && cs[i + 1] == cs[1..][i];
        }
      }
      if |cs| > 1 {
        assert cs[|cs| - 1] == cs[1..][|cs[1..]| - 1];
      }
    }
  }

  /**
   * The walk fails exactly on the first commit with other than one parent that it
   * meets before `bottom`: `path` is the chain of single-parent commits above it.
   */
  lemma {:induction false} CommitsBetweenFailure(g: Graph, top: Hash, bottom: Hash) returns (path: seq<Hash>)
    requires WellFormed(g) && top in g
    requires CommitsBetween(g, top, bottom).Failure?
    ensures var h := CommitsBetween(g, top, bottom).error.at;
      && LinearChain(g, top, path, h)
      && (forall i :: 0 <= i < |path| ==> path[i] != bottom)
      && h in g && h != bottom && |g[h].parents| != 1
      && CommitsBetween(g, top, bottom).error == if |g[h].parents| > 1 then MergeCommit(h) else RootCommit(h)
    decreases top
  {
    if |g[top].parents| != 1 {
      path := [];
    } else {
      var parent := g[top].parents[0];
      var rest := CommitsBetweenFailure(g, parent, bottom);
      path := [top] + rest;
      assert path[1..] == rest;
    }
  }

  /** Conversely, a commit with other than one parent below a chain that avoids `bottom` stops the walk there. */
  lemma {:induction false} FailureIsReported(g: Graph, top: Hash, path: seq<Hash>, h: Hash, bottom: Hash)
    requires WellFormed(g) && top in g
    requires LinearChain(g, top, path, h)
    requires forall i :: 0 <= i < |path| ==> path[i] != bottom
    requires h in g && h != bottom && |g[h].parents| != 1
    ensures CommitsBetween(g, top, bottom) == Failure(if |g[h].parents| > 1 then MergeCommit(h) else RootCommit(h))
    decreases |path|
  {
    if path != [] {
      var parent := g[top].parents[0];
      assert forall i :: 0 <= i < |path[1..]| ==> path[1..][i] != bottom by {
        forall i | 0 <= i < |path[1..]| ensures path[1..][i] != bottom {
          assert path[1..][i] == path[i + 1];
        }
      }
      FailureIsReported(g, parent, path[1..], h, bottom);
    }
  }

  /** Walking from `bottom` itself collects nothing. */
  lemma CommitsBetweenSelf(g: Graph, h: Hash)
    requires WellFormed(g) && h in g
    ensures CommitsBetween(g, h, h) == Success([])
  {
  }
}
