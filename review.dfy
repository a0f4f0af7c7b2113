/**
 * The review reconciler: `create_or_update_change` of the GitHub and GitLab providers.
 *
 * The hosting service is a sequence of review requests (pull requests on GitHub, merge
 * requests on GitLab) in listing order. The URL the service returns for a request is
 * represented by the request's number on the service, which identifies it.
 */
module Review {
  import opened Wrappers
  import GitProject

  datatype RequestState = Opened | Closed | Merged

  datatype ReviewRequest = ReviewRequest(
    number: nat,
    source: string,
    target: string,
    title: string,
    description: string,
    state: RequestState,
    removeSourceBranch: bool)

  /** The service's requests and the number it gives the next one. */
  datatype Hosting = Hosting(requests: seq<ReviewRequest>, nextNumber: nat)

  /**
   * How a provider looks requests up and creates them: whether its listing only has
   * open requests, and whether it asks for the source branch to be removed on merge.
   */
  datatype Listing = Listing(openedOnly: bool, removeSourceBranch: bool)

  /** One call's arguments. */
  datatype Change = Change(changeId: string, source: string, target: string, title: string, description: string)

  datatype Outcome = Outcome(hosting: Hosting, number: nat)

  /**
   * GitHub lists the pull requests `get_pulls()` returns, the open ones; GitLab lists
   * opened merge requests (current) or all of them (legacy). Only GitLab creates with
   * `remove_source_branch`.
   */
  function ListingOf(project: GitProject.Project): Listing {
    match project
    case GithubProject(_, _) => Listing(true, false)
    case GitlabProject(_, _, _, openedOnly) => Listing(openedOnly, true)
  }

  /** Numbers are distinct and below the next one. */
  predicate WellNumbered(h: Hosting) {
    && (forall i :: 0 <= i < |h.requests| ==> h.requests[i].number < h.nextNumber)
    && (forall i, j :: 0 <= i < j < |h.requests| ==> h.requests[i].number != h.requests[j].number)
  }

  predicate Listed(r: ReviewRequest, openedOnly: bool) {
    !openedOnly || r.state == Opened
  }

  /** The request the lookup accepts: listed, with `changeId` as its source branch. */
  predicate Matches(r: ReviewRequest, changeId: string, openedOnly: bool) {
    Listed(r, openedOnly) && r.source == changeId
  }

  /** `__find_pull_request` / `__find_merge_request`: the first listed request for `changeId`. */
  function FindListed(reqs: seq<ReviewRequest>, changeId: string, openedOnly: bool): (r: Option<nat>)
    ensures r.Some? ==> r.value < |reqs| && Matches(reqs[r.value], changeId, openedOnly)
    ensures r.Some? ==> forall j :: 0 <= j < r.value ==> !Matches(reqs[j], changeId, openedOnly)
    ensures r.None? <==> forall j :: 0 <= j < |reqs| ==> !Matches(reqs[j], changeId, openedOnly)
    decreases |reqs|
  {
    if reqs == [] then None
    else if Matches(reqs[0], changeId, openedOnly) then Some(0)
    else
      match FindListed(reqs[1..], changeId, openedOnly)
      case None => None
      case Some(i) => Some(i + 1)
  }

  /** The request `__update_*` leaves behind: new target and title, all else as it was. */
  function Edited(r: ReviewRequest, target: string, title: string): ReviewRequest {
    r.(target := target, title := title)
  }

  /** The request `__create_*` adds. */
  function Created(number: nat, listing: Listing, change: Change): ReviewRequest {
    ReviewRequest(number, change.source, change.target, change.title, change.description, Opened, listing.removeSourceBranch)
  }

  /** What one `create_or_update_change` call does to the service, and the request it answers with. */
  function Reconcile(h: Hosting, listing: Listing, change: Change): (o: Outcome)
    ensures FindListed(h.requests, change.changeId, listing.openedOnly).Some? ==>
      var i := FindListed(h.requests, change.changeId, listing.openedOnly).value;
      && o.hosting.nextNumber == h.nextNumber
      && o.hosting.requests == h.requests[i := Edited(h.requests[i], change.target, change.title)]
      && o.number == h.requests[i].number
    ensures FindListed(h.requests, change.changeId, listing.openedOnly).None? ==>
      && o.hosting.nextNumber == h.nextNumber + 1
      && o.hosting.requests == h.requests + [Created(h.nextNumber, listing, change)]
      && o.number == h.nextNumber
  {
    match FindListed(h.requests, change.changeId, listing.openedOnly)
    case Some(i) =>
      Outcome(Hosting(h.requests[i := Edited(h.requests[i], change.target, change.title)], h.nextNumber), h.requests[i].number)
    case None =>
      Outcome(Hosting(h.requests + [Created(h.nextNumber, listing, change)], h.nextNumber + 1), h.nextNumber)
  }

  /** A provider object: a project on a service, with its listing rules. */
  class ReviewProvider {
    const listing: Listing
    var requests: seq<ReviewRequest>
    var nextNumber: nat

    function Hosted(): Hosting
      reads this
    {
      Hosting(requests, nextNumber)
    }

    predicate Valid()
      reads this
    {
      WellNumbered(Hosted())
    }

    /** The provider for `project`, on a service currently holding `existing`. */
    constructor(project: GitProject.Project, existing: Hosting)
      requires WellNumbered(existing)
      ensures listing == ListingOf(project) && Hosted() == existing && Valid()
    {
      listing := ListingOf(project);
      requests := existing.requests;
      nextNumber := existing.nextNumber;
    }

    /** The lookup loop: the first listed request whose source branch is `changeId`. */
    method FindRequest(changeId: string) returns (index: Option<nat>)
      ensures index == FindListed(requests, changeId, listing.openedOnly)
    {
      for i := 0 to |requests|
        invariant forall j :: 0 <= j < i ==> !Matches(requests[j], changeId, listing.openedOnly)
      {
        if Matches(requests[i], changeId, listing.openedOnly) {
          return Some(i);
        }
      }
      return None;
    }

    /** `__update_*`: the request gets the new target and title; nothing else changes. */
    method UpdateRequest(i: nat, target: string, title: string)
      requires i < |requests|
      modifies this
      ensures requests == old(requests)[i := Edited(old(requests)[i], target, title)]
      ensures nextNumber == old(nextNumber)
    {
      requests := requests[i := Edited(requests[i], target, title)];
    }

    /** `__create_*`: a new open request is appended with the next number. */
    method CreateRequest(change: Change) returns (number: nat)
      modifies this
      ensures requests == old(requests) + [Created(old(nextNumber), listing, change)]
      ensures nextNumber == old(nextNumber) + 1 && number == old(nextNumber)
    {
      number := nextNumber;
      requests := requests + [Created(number, listing, change)];
      nextNumber := nextNumber + 1;
    }

    /** `create_or_update_change`: update the request found, or create one; answer with its number. */
    method CreateOrUpdateChange(change: Change) returns (number: nat)
      requires Valid()
      modifies this
      ensures Valid()
      ensures Outcome(Hosted(), number) == Reconcile(old(Hosted()), listing, change)
    {
      ghost var before := Hosted();
      var found := FindRequest(change.changeId);
      if found.Some? {
        number := requests[found.value].number;
        UpdateRequest(found.value, change.target, change.title);
      } else {
        number := CreateRequest(change);
      }
      ReconcileKeepsNumbering(before, listing, change);
    }
  }

  // ----- lemmas -----

  /** Reconciling keeps numbers distinct and below the next one. */
  lemma ReconcileKeepsNumbering(h: Hosting, listing: Listing, change: Change)
    requires WellNumbered(h)
    ensures WellNumbered(Reconcile(h, listing, change).hosting)
  {
  }

  /** At most one request is created, and none is removed. */
  lemma ReconcileCreatesAtMostOne(h: Hosting, listing: Listing, change: Change)
    ensures var o := Reconcile(h, listing, change);
      |h.requests| <= |o.hosting.requests| <= |h.requests| + 1
  {
  }

  /**
   * Every request the service had keeps its number, source, description, state and
   * branch-removal flag; one whose source is another branch is not touched at all.
   */
  lemma ReconcileKeepsOthers(h: Hosting, listing: Listing, change: Change)
    ensures var o := Reconcile(h, listing, change);
      forall j :: 0 <= j < |h.requests| ==>
        var before := h.requests[j];
        var after := o.hosting.requests[j];
        && after.number == before.number && after.source == before.source
        && after.description == before.description && after.state == before.state
        && after.removeSourceBranch == before.removeSourceBranch
        && (before.source != change.changeId ==> after == before)
  {
  }

  /** The answer names a request that now has the call's target and title. */
  lemma ReconcileAnswersWithRequest(h: Hosting, listing: Listing, change: Change) returns (k: nat)
    requires WellNumbered(h)
    ensures var o := Reconcile(h, listing, change);
      && k < |o.hosting.requests|
      && o.hosting.requests[k].number == o.number
      && o.hosting.requests[k].target == change.target
      && o.hosting.requests[k].title == change.title
      && (change.source == change.changeId ==> Matches(o.hosting.requests[k], change.changeId, listing.openedOnly))
  {
    var found := FindListed(h.requests, change.changeId, listing.openedOnly);
    if found.Some? {
      k := found.value;
    } else {
      k := |h.requests|;
    }
  }

  /**
   * Publishing the same change twice leaves the service as publishing it once, and
   * answers with the same request, when the source branch is named by the change id.
   */
  lemma ReconcileIdempotent(h: Hosting, listing: Listing, change: Change)
    requires change.source == change.changeId
    ensures var once := Reconcile(h, listing, change);
      Reconcile(once.hosting, listing, change) == once
  {
    var once := Reconcile(h, listing, change);
    var found := FindListed(h.requests, change.changeId, listing.openedOnly);
    var i := if found.Some? then found.value else |h.requests|;
    var reqs := once.hosting.requests;
    assert Matches(reqs[i], change.changeId, listing.openedOnly);
    assert forall j :: 0 <= j < i ==> !Matches(reqs[j], change.changeId, listing.openedOnly) by {
      forall j | 0 <= j < i ensures !Matches(reqs[j], change.changeId, listing.openedOnly) {
        assert reqs[j] == h.requests[j];
      }
    }
    var again := FindListed(reqs, change.changeId, listing.openedOnly);
    assert again == Some(i);
    assert reqs[i := Edited(reqs[i], change.target, change.title)] == reqs;
  }

  /** When only open requests are listed, a closed or merged one is never reused: a new one is created. */
  lemma ClosedRequestIsNotReused(h: Hosting, listing: Listing, change: Change)
    requires listing.openedOnly
    requires forall j :: 0 <= j < |h.requests| && h.requests[j].source == change.changeId ==> h.requests[j].state != Opened
    ensures Reconcile(h, listing, change).hosting.requests == h.requests + [Created(h.nextNumber, listing, change)]
  {
  }

  /** When every request is listed, the first one for the change is reused even if it is closed or merged. */
  lemma LegacyReusesClosedRequest(h: Hosting, listing: Listing, change: Change, i: nat)
    requires !listing.openedOnly
    requires i < |h.requests| && h.requests[i].source == change.changeId
    requires forall j :: 0 <= j < i ==> h.requests[j].source != change.changeId
    ensures var o := Reconcile(h, listing, change);
      && o.hosting.requests == h.requests[i := Edited(h.requests[i], change.target, change.title)]
      && o.number == h.requests[i].number
      && o.hosting.requests[i].state == h.requests[i].state
  {
    var found := FindListed(h.requests, change.changeId, listing.openedOnly);
    assert found == Some(i);
  }

  /** An update leaves the description alone however the title and target change. */
  lemma UpdateKeepsDescription(h: Hosting, listing: Listing, change: Change)
    requires FindListed(h.requests, change.changeId, listing.openedOnly).Some?
    ensures var i := FindListed(h.requests, change.changeId, listing.openedOnly).value;
      var o := Reconcile(h, listing, change);
      && o.hosting.requests[i].description == h.requests[i].description
      && |o.hosting.requests| == |h.requests|
  {
  }
}
