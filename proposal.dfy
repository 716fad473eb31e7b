/**
 * A `Proposal`: its requester, its observers, its overall status and the
 * approval tree stored for it, with the operations that change them
 * (`root_approval=`, `approve!` on one of its approvals,
 * `update_attribute(:position, ..)`, `reset_status`, `cancel!`,
 * `add_observer`) and the lists read from them (`approvals`,
 * `individual_approvals`, `approvers`, `currently_awaiting_approvers`,
 * `users`).
 */
module Proposals {
  import opened Wrappers
  import opened ApprovalTree
  import opened Reconcile

  /** The proposal's own status column. */
  datatype ProposalStatus = ProposalPending | ProposalApproved | ProposalCancelled

  /**
   * `reset_status`: a cancelled proposal stays cancelled; a proposal without
   * approvals is approved; otherwise the status is the one derived from the
   * tree, approved once every leaf is approved and cancelled if a leaf is.
   */
  function ResetStatusOf(current: ProposalStatus, root: Option<Approval>): (r: ProposalStatus)
    ensures current == ProposalCancelled ==> r == ProposalCancelled
    ensures current != ProposalCancelled && root.None? ==> r == ProposalApproved
    ensures current != ProposalCancelled && root.Some? ==>
      (r == ProposalApproved <==> forall l :: l in Leaves(root.value) ==> l.status == Approved) &&
      (r == ProposalCancelled <==> exists l :: l in Leaves(root.value) && l.status == Cancelled)
  {
    if current == ProposalCancelled then ProposalCancelled
    else if root.None? then ProposalApproved
    else
      StatusFromLeaves(root.value);
      match StatusOf(root.value)
      case Pending => ProposalPending
      case Approved => ProposalApproved
      case Cancelled => ProposalCancelled
  }

  /** Recomputing the status a second time changes nothing. */
  lemma ResetStatusIdempotent(current: ProposalStatus, root: Option<Approval>)
    ensures ResetStatusOf(ResetStatusOf(current, root), root) == ResetStatusOf(current, root)
  {
    if root.Some? {
      StatusFromLeaves(root.value);
    }
  }

  predicate Distinct(s: seq<UserId>)
  {
    forall i, j :: 0 <= i < j < |s| ==> s[i] != s[j]
  }

  /** `uniq`: the list without repeats, each user kept where it first appears. */
  function Uniq(s: seq<UserId>): (r: seq<UserId>)
    ensures forall x :: x in r <==> x in s
    ensures Distinct(r)
    decreases |s|
  {
    if s == [] then []
    else
      var r := Uniq(s[..|s| - 1]);
      assert forall x :: x in s <==> x in s[..|s| - 1] || x == s[|s| - 1] by {
        assert s == s[..|s| - 1] + [s[|s| - 1]];
      }
      if s[|s| - 1] in r then r else r + [s[|s| - 1]]
  }

  /** A list without repeats is its own `uniq`, so `uniq` is idempotent. */
  lemma {:induction false} UniqOfDistinct(s: seq<UserId>)
    requires Distinct(s)
    ensures Uniq(s) == s
    decreases |s|
  {
    if s != [] {
      UniqOfDistinct(s[..|s| - 1]);
      assert s == s[..|s| - 1] + [s[|s| - 1]];
    }
  }

  /** The ids of a list of approvals. */
  function IdsOf(ns: seq<Approval>): set<ApprovalId>
  {
    set x | x in ns :: x.id
  }

  class Proposal {
    var requester: UserId
    var observers: seq<UserId>
    var status: ProposalStatus
    /** The root of the stored approval tree; None before `root_approval=` is first called. */
    var root: Option<Approval>
    /** The first approval id not handed out yet. */
    var nextId: ApprovalId

    /** The stored approvals have unique ids, all handed out already. */
    predicate Valid()
      reads this
    {
      root.Some? ==> UniqueIds(root.value) && IdsBelow(root.value, nextId)
    }

    /** `create(:proposal, requester: ..)`: a pending proposal with no approvals and no observers. */
    constructor(requester: UserId)
      ensures Valid()
      ensures this.requester == requester && observers == [] && status == ProposalPending
      ensures root.None? && nextId == 0
    {
      this.requester := requester;
      observers := [];
      status := ProposalPending;
      root := None;
      nextId := 0;
    }

    /** `approvals`, ordered by position. */
    function Approvals(): (r: seq<Approval>)
      reads this
      ensures root.None? ==> r == []
      ensures root.Some? ==> SortedByPosition(r) && multiset(r) == multiset(Nodes(root.value))
    {
      if root.None? then [] else SortByPosition(Nodes(root.value))
    }

    /** `individual_approvals`: the leaves, ordered by position. */
    function IndividualApprovals(): (r: seq<Approval>)
      reads this
      ensures root.None? ==> r == []
      ensures root.Some? ==> SortedByPosition(r) && multiset(r) == multiset(Leaves(root.value))
    {
      if root.None? then [] else SortByPosition(Leaves(root.value))
    }

    /** `approvers`: the users of the leaves, ordered by position. */
    function Approvers(): (r: seq<UserId>)
      reads this
      ensures |r| == |IndividualApprovals()|
      ensures forall i :: 0 <= i < |r| ==> IndividualApprovals()[i].Individual? && r[i] == IndividualApprovals()[i].user
    {
      if root.None? then []
      else
        UsersByPositionAt(Leaves(root.value));
        UsersByPosition(Leaves(root.value))
    }

    /** `approvals.actionable`, ordered by position. */
    function ActionableApprovals(): (r: seq<Approval>)
      reads this
      ensures root.None? ==> r == []
      ensures root.Some? ==> SortedByPosition(r) && multiset(r) == multiset(ActionableNodes(root.value))
    {
      if root.None? then [] else SortByPosition(ActionableNodes(root.value))
    }

    /** `individual_approvals.actionable`, ordered by position. */
    function ActionableIndividuals(): (r: seq<Approval>)
      reads this
      ensures root.None? ==> r == []
      ensures root.Some? ==> SortedByPosition(r) && multiset(r) == multiset(ActionableLeaves(root.value))
    {
      if root.None? then [] else SortByPosition(ActionableLeaves(root.value))
    }

    /** `currently_awaiting_approvers`: the users of the actionable leaves, ordered by position. */
    function CurrentlyAwaitingApprovers(): (r: seq<UserId>)
      reads this
      ensures |r| == |ActionableIndividuals()|
      ensures forall i :: 0 <= i < |r| ==> ActionableIndividuals()[i].Individual? && r[i] == ActionableIndividuals()[i].user
    {
      if root.None? then []
      else
        UsersByPositionAt(ActionableLeaves(root.value));
        UsersByPosition(ActionableLeaves(root.value))
    }

    /** `approvals.approved.count`. */
    function ApprovedCount(): (n: nat)
      reads this
      ensures root.None? ==> n == 0
      ensures root.Some? ==> n == |PlacesWithStatus(Nodes(root.value), Approved)|
    {
      if root.None? then 0
      else
        CountIsNumberOfPlaces(Nodes(root.value), Approved);
        CountWithStatus(Nodes(root.value), Approved)
    }

    /** `users`: approvers, observers and the requester, without repeats. */
    function Users(): (r: seq<UserId>)
      reads this
      ensures forall u :: u in r <==> u in Approvers() || u in observers || u == requester
      ensures Distinct(r)
    {
      Uniq(Approvers() + observers + [requester])
    }

    /**
     * `root_approval=`: merges the submitted tree into the stored one (the
     * root at position 1) and recomputes the status. A submitted tree with an
     * empty group is refused and nothing changes.
     */
    method SetRootApproval(d: Desired) returns (ok: bool)
      requires Valid()
      modifies this
      ensures Valid()
      ensures ok == WellFormed(d)
      ensures ok ==> root == Some(Merge(old(root), d, old(nextId), 1).0)
      ensures ok ==> nextId == Merge(old(root), d, old(nextId), 1).1
      ensures ok ==> status == ResetStatusOf(old(status), root)
      ensures !ok ==> root == old(root) && nextId == old(nextId) && status == old(status)
      ensures requester == old(requester) && observers == old(observers)
    {
      ok := WellFormed(d);
      if ok {
        MergeIds(root, d, nextId, 1);
        var (m, n) := Merge(root, d, nextId, 1);
        root := Some(m);
        nextId := n;
        status := ResetStatusOf(status, root);
      }
    }

    /**
     * `approve!` on the leaf with the given id, which must be actionable. The
     * leaf's decision becomes approved and the status is recomputed.
     */
    method Approve(id: ApprovalId) returns (ok: bool)
      requires Valid()
      modifies this
      ensures Valid()
      ensures ok <==> old(root).Some? && id in IdsOf(ActionableLeaves(old(root).value))
      ensures ok ==> root == Some(Patched(old(root).value, id, SetStatus(Approved)))
      ensures ok ==> status == ResetStatusOf(old(status), root)
      ensures !ok ==> root == old(root) && status == old(status)
      ensures nextId == old(nextId) && requester == old(requester) && observers == old(observers)
    {
      ok := root.Some? && id in IdsOf(ActionableLeaves(root.value));
      if ok {
        PatchKeepsIds(root.value, id, SetStatus(Approved));
        root := Some(Patched(root.value, id, SetStatus(Approved)));
        status := ResetStatusOf(status, root);
      }
    }

    /** `update_attribute(:position, ..)` on the approval with the given id. */
    method UpdatePosition(id: ApprovalId, position: int) returns (ok: bool)
      requires Valid()
      modifies this
      ensures Valid()
      ensures ok <==> old(root).Some? && id in Ids(old(root).value)
      ensures ok ==> root == Some(Patched(old(root).value, id, Patch.SetPosition(position)))
      ensures !ok ==> root == old(root)
      ensures status == old(status) && nextId == old(nextId)
      ensures requester == old(requester) && observers == old(observers)
    {
      ok := root.Some? && id in Ids(root.value);
      if ok {
        PatchKeepsIds(root.value, id, Patch.SetPosition(position));
        root := Some(Patched(root.value, id, Patch.SetPosition(position)));
      }
    }

    /** `reset_status`. */
    method ResetStatus()
      requires Valid()
      modifies this
      ensures Valid()
      ensures status == ResetStatusOf(old(status), root)
      ensures root == old(root) && nextId == old(nextId)
      ensures requester == old(requester) && observers == old(observers)
    {
      status := ResetStatusOf(status, root);
    }

    /** `cancel!`: the status becomes cancelled; the approvals are left as they are. */
    method Cancel()
      requires Valid()
      modifies this
      ensures Valid()
      ensures status == ProposalCancelled
      ensures root == old(root) && nextId == old(nextId)
      ensures requester == old(requester) && observers == old(observers)
    {
      status := ProposalCancelled;
    }

    /** `add_observer`: the user becomes an observer unless already one. */
    method AddObserver(u: UserId)
      requires Valid()
      modifies this
      ensures Valid()
      ensures observers == if u in old(observers) then old(observers) else old(observers) + [u]
      ensures root == old(root) && nextId == old(nextId) && status == old(status)
      ensures requester == old(requester)
    {
      if u !in observers {
        observers := observers + [u];
      }
    }
  }
}
