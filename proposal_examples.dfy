/**
 * The behaviour of a `Proposal` step by step, one method per case: each one
 * builds a proposal, drives it through `root_approval=`, `approve!`,
 * `update_attribute(:position, ..)`, `cancel!`, `reset_status` and
 * `add_observer`, and returns what the proposal then reports.
 */
module ProposalExamples {
  import opened Wrappers
  import opened ApprovalTree
  import opened Reconcile
  import opened Proposals
  import opened ProposalFlows

  /** Every group of a list of new leaves is well formed when the list is not empty. */
  lemma LeavesWellFormed(us: seq<UserId>)
    requires |us| >= 1
    ensures WellFormed(NewParallel(NewIndividuals(us))) && WellFormed(NewSerial(NewIndividuals(us)))
  {
  }

  /** The root a new proposal stores for a group of two new users: ids 0, 1 and 2, positions 1, 2 and 3. */
  function PairRoot(u1: UserId, u2: UserId, serial: bool): Approval
  {
    var cs := [Individual(1, u1, Pending, 2), Individual(2, u2, Pending, 3)];
    if serial then Serial(0, cs, 1) else Parallel(0, cs, 1)
  }

  /** A new proposal of `requester` after `root_approval=` with a group of two new users. */
  method PairProposal(requester: UserId, u1: UserId, u2: UserId, serial: bool) returns (p: Proposal)
    ensures fresh(p) && p.Valid()
    ensures p.root == Some(PairRoot(u1, u2, serial)) && p.nextId == 3
    ensures p.status == ProposalPending && p.observers == [] && p.requester == requester
  {
    var d := if serial then NewSerial(NewIndividuals([u1, u2])) else NewParallel(NewIndividuals([u1, u2]));
    var m := PairRoot(u1, u2, serial);
    assert FirstRoot(d, 0) == m && Merge(None, d, 0, 1).1 == 3 && UniqueIds(m) by {
      TwoLeafRoot(d, u1, u2, 0);
    }
    assert ResetStatusOf(ProposalPending, Some(m)) == ProposalPending by {
      ApprovePairInTurn(m);
    }
    p := new Proposal(requester);
    LeavesWellFormed([u1, u2]);
    var ok := p.SetRootApproval(d);
  }

  /**
   * `currently_awaiting_approvers` of a parallel pair follows position order:
   * raising the first individual approval's position to 5 puts its user last.
   */
  method ParallelAwaitingOrder(requester: UserId, u1: UserId, u2: UserId) returns (before: seq<UserId>, after: seq<UserId>)
    ensures before == [u1, u2]
    ensures after == [u2, u1]
  {
    var p := PairProposal(requester, u1, u2, false);
    var m := PairRoot(u1, u2, false);
    assert p.root == Some(m);
    assert Leaves(m) == m.children by {
      TwoLeafRoot(NewParallel(NewIndividuals([u1, u2])), u1, u2, 0);
    }
    SortKeepsSorted(m.children);
    PendingPairInOrder(m);
    RaiseFirstOfTwo(m, 5);
    before := p.CurrentlyAwaitingApprovers();
    var first := p.IndividualApprovals()[0];
    assert first.id == 1;
    var ok := p.UpdatePosition(first.id, 5);
    after := p.CurrentlyAwaitingApprovers();
  }

  /** The serial pair of a new proposal awaits its first user, and its second once the first approves. */
  lemma SerialPairTurns(u1: UserId, u2: UserId)
    ensures var m := PairRoot(u1, u2, true);
      SortByPosition(Leaves(m)) == m.children && 1 in IdsOf(ActionableLeaves(m)) &&
      UsersByPosition(ActionableLeaves(m)) == [u1] &&
      UsersByPosition(ActionableLeaves(Patched(m, 1, SetStatus(Approved)))) == [u2]
  {
    var m := PairRoot(u1, u2, true);
    var d := NewSerial(NewIndividuals([u1, u2]));
    assert UniqueIds(m) && Leaves(m) == m.children by {
      TwoLeafRoot(d, u1, u2, 0);
      assert FirstRoot(d, 0) == m;
    }
    assert SortByPosition(m.children) == m.children by {
      SortKeepsSorted(m.children);
    }
    SerialApproveLeader(m);
  }

  /** A serial pair awaits its first user only, then its second once the first approves. */
  method SerialAwaitingOrder(requester: UserId, u1: UserId, u2: UserId) returns (before: seq<UserId>, after: seq<UserId>)
    ensures before == [u1]
    ensures after == [u2]
  {
    var p := PairProposal(requester, u1, u2, true);
    SerialPairTurns(u1, u2);
    before := p.CurrentlyAwaitingApprovers();
    var first := p.IndividualApprovals()[0];
    var ok := p.Approve(first.id);
    after := p.CurrentlyAwaitingApprovers();
  }

  /** `root_approval=` with a parallel root over n new users. */
  method ParallelRootCounts(requester: UserId, us: seq<UserId>)
    returns (approvals: nat, approvers: seq<UserId>, actionableIndividuals: nat, actionable: nat)
    requires |us| >= 1
    ensures approvals == |us| + 1
    ensures approvers == us
    ensures actionableIndividuals == |us|
    ensures actionable == |us| + 1
  {
    var p := new Proposal(requester);
    LeavesWellFormed(us);
    var d := NewParallel(NewIndividuals(us));
    var ok := p.SetRootApproval(d);
    assert p.root == Some(FirstRoot(d, 0));
    ParallelRoot(us, 0);
    approvals := |p.Approvals()|;
    approvers := p.Approvers();
    actionableIndividuals := |p.ActionableIndividuals()|;
    actionable := |p.ActionableApprovals()|;
  }

  /** `root_approval=` with a serial root over n new users. */
  method SerialRootCounts(requester: UserId, us: seq<UserId>)
    returns (approvals: nat, approvers: seq<UserId>, actionableIndividuals: nat, actionable: nat)
    requires |us| >= 1
    ensures approvals == |us| + 1
    ensures approvers == us
    ensures actionableIndividuals == 1
    ensures actionable == 2
  {
    var p := new Proposal(requester);
    LeavesWellFormed(us);
    var d := NewSerial(NewIndividuals(us));
    var ok := p.SetRootApproval(d);
    assert p.root == Some(FirstRoot(d, 0));
    SerialRoot(us, 0);
    approvals := |p.Approvals()|;
    approvers := p.Approvers();
    actionableIndividuals := |p.ActionableIndividuals()|;
    actionable := |p.ActionableApprovals()|;
  }

  /** A new proposal of `requester` after `root_approval=` with a parallel group of one new user. */
  method SingleProposal(requester: UserId, u1: UserId) returns (p: Proposal)
    ensures fresh(p) && p.Valid()
    ensures p.root == Some(Parallel(0, [Individual(1, u1, Pending, 2)], 1)) && p.nextId == 2
  {
    var d := NewParallel(NewIndividuals([u1]));
    assert FirstRoot(d, 0) == Parallel(0, [Individual(1, u1, Pending, 2)], 1) && Merge(None, d, 0, 1).1 == 2 by {
      ParallelRoot([u1], 0);
      MergeFreshLeaves([u1], 1, 2);
      assert FreshLeaves([u1], 1, 2) == [Individual(1, u1, Pending, 2)];
    }
    p := new Proposal(requester);
    LeavesWellFormed([u1]);
    var ok := p.SetRootApproval(d);
  }

  /** Extending a parallel root from one user to three keeps the first and makes all three actionable. */
  method ExtendParallelRoot(requester: UserId, u1: UserId, u2: UserId, u3: UserId)
    returns (actionableBefore: nat, individualsBefore: nat, actionableAfter: nat, individualsAfter: nat)
    ensures actionableBefore == 2 && individualsBefore == 1
    ensures actionableAfter == 4 && individualsAfter == 3
  {
    var p := SingleProposal(requester, u1);
    var l1 := Individual(1, u1, Pending, 2);
    var m := Parallel(0, [l1], 1);
    ParallelOfPendingLeaves(m);
    var e := NewParallel(NewIndividuals([u1, u2, u3]));
    var r := Parallel(0, [l1, Individual(2, u2, Pending, 3), Individual(3, u3, Pending, 4)], 1);
    assert Merge(Some(m), e, 2, 1).0 == r by {
      KeepOneAddTwo(m, u2, u3, 2);
    }
    ParallelOfPendingLeaves(r);
    actionableBefore := |p.ActionableApprovals()|;
    individualsBefore := |p.ActionableIndividuals()|;
    LeavesWellFormed([u1, u2, u3]);
    var ok := p.SetRootApproval(e);
    actionableAfter := |p.ActionableApprovals()|;
    individualsAfter := |p.ActionableIndividuals()|;
  }

  /**
   * A serial pair whose first user approved, re-submitted with the second user
   * replaced: one approval stays approved and the new user is the only one
   * awaited.
   */
  method ResubmitSerialRoot(requester: UserId, u1: UserId, u2: UserId, u3: UserId)
    returns (approved: nat, actionable: nat, actionableIndividuals: nat, awaiting: UserId)
    requires u3 != u2
    ensures approved == 1 && actionable == 2 && actionableIndividuals == 1 && awaiting == u3
  {
    var p := PairProposal(requester, u1, u2, true);
    var l1 := Individual(1, u1, Pending, 2);
    var l2 := Individual(2, u2, Pending, 3);
    var m := Serial(0, [l1, l2], 1);
    assert p.root == Some(m);
    var k1 := Individual(1, u1, Approved, 2);
    var a := Serial(0, [k1, l2], 1);
    assert 1 in IdsOf(ActionableLeaves(m)) && Patched(m, 1, SetStatus(Approved)) == a by {
      ApprovePairInTurn(m);
    }
    var e := NewSerial(NewIndividuals([u1, u3]));
    var l3 := Individual(3, u3, Pending, 3);
    var r := Serial(0, [k1, l3], 1);
    assert Merge(Some(a), e, 3, 1).0 == r by {
      MergeTwoLeaves(a, u1, u3, 3);
    }
    CountsOfTwo(r);
    SerialOfLeaves(r, 1);
    assert SortByPosition([l3]) == [l3];
    var ok := p.Approve(1);
    LeavesWellFormed([u1, u3]);
    ok := p.SetRootApproval(e);
    approved := p.ApprovedCount();
    actionable := |p.ActionableApprovals()|;
    var individuals := p.ActionableIndividuals();
    actionableIndividuals := |individuals|;
    awaiting := individuals[0].user;
  }

  /** Once both users of a pair approve, in either kind of group, nothing is actionable. */
  method FullyApproved(requester: UserId, u1: UserId, u2: UserId, serial: bool) returns (actionable: seq<Approval>)
    ensures actionable == []
  {
    var p := PairProposal(requester, u1, u2, serial);
    ApprovePairInTurn(PairRoot(u1, u2, serial));
    var ok := p.Approve(1);
    ok := p.Approve(2);
    actionable := p.ActionableApprovals();
  }

  /** Re-submitting a parallel pair as a serial root over the second user deletes the first approval. */
  method DeletesApprovals(requester: UserId, u1: UserId, u2: UserId) returns (exists1: bool)
    ensures !exists1
  {
    var p := PairProposal(requester, u1, u2, false);
    var l1 := Individual(1, u1, Pending, 2);
    var m := Parallel(0, [l1, Individual(2, u2, Pending, 3)], 1);
    assert p.root == Some(m);
    assert IdsBelow(m, 3) && Leaves(m) == m.children by {
      TwoLeafRoot(NewParallel(NewIndividuals([u1, u2])), u1, u2, 0);
    }
    assert SortByPosition(Leaves(m))[0] == l1 by {
      SortKeepsSorted(m.children);
    }
    var e := NewSerial(NewIndividuals([u2]));
    assert 1 !in Ids(Merge(Some(m), e, 3, 1).0) by {
      assert Lookup(m, [0]) == Some(l1) && !Agree(m, e, [0]);
      MergeDeletesUnmatched(m, e, 3, 1, [0]);
    }
    var approval1 := p.IndividualApprovals()[0];
    LeavesWellFormed([u2]);
    var ok := p.SetRootApproval(e);
    exists1 := approval1.id in Ids(p.root.value);
  }

  /** `reset_status` on a proposal without approvals approves it. */
  method ResetWithoutApprovals(requester: UserId) returns (before: ProposalStatus, after: ProposalStatus)
    ensures before == ProposalPending && after == ProposalApproved
  {
    var p := new Proposal(requester);
    before := p.status;
    p.ResetStatus();
    after := p.status;
  }

  /** A cancelled proposal stays cancelled through `reset_status`, even with an approved leaf. */
  method ResetKeepsCancelled(requester: UserId, u1: UserId, u2: UserId) returns (before: ProposalStatus, after: ProposalStatus)
    ensures before == ProposalPending && after == ProposalCancelled
  {
    var p := PairProposal(requester, u1, u2, false);
    ApprovePairInTurn(PairRoot(u1, u2, false));
    var ok := p.Approve(1);
    before := p.status;
    p.Cancel();
    p.ResetStatus();
    after := p.status;
  }

  /** An approved pair re-submitted with a third user reverts to pending. */
  method ResetAfterAddedApproval(requester: UserId, u1: UserId, u2: UserId, u3: UserId)
    returns (approved: ProposalStatus, after: ProposalStatus)
    ensures approved == ProposalApproved && after == ProposalPending
  {
    var p := PairProposal(requester, u1, u2, false);
    var m := PairRoot(u1, u2, false);
    var a := Parallel(0, [Individual(1, u1, Approved, 2), Individual(2, u2, Approved, 3)], 1);
    ApprovePairInTurn(m);
    var e := NewParallel(NewIndividuals([u1, u2, u3]));
    assert ResetStatusOf(ProposalPending, Some(Merge(Some(a), e, 3, 1).0)) == ProposalPending by {
      AppendLeaf(a, u3, 3);
    }
    var ok := p.Approve(1);
    ok := p.Approve(2);
    approved := p.status;
    LeavesWellFormed([u1, u2, u3]);
    ok := p.SetRootApproval(e);
    p.ResetStatus();
    after := p.status;
  }

  /** `reset_status` keeps a parallel pair pending until both users approve. */
  method ResetUntilAllApproved(requester: UserId, u1: UserId, u2: UserId)
    returns (initially: ProposalStatus, afterFirst: ProposalStatus, afterBoth: ProposalStatus)
    ensures initially == ProposalPending && afterFirst == ProposalPending && afterBoth == ProposalApproved
  {
    var p := PairProposal(requester, u1, u2, false);
    ApprovePairInTurn(PairRoot(u1, u2, false));
    p.ResetStatus();
    initially := p.status;
    var ok := p.Approve(1);
    p.ResetStatus();
    afterFirst := p.status;
    ok := p.Approve(2);
    p.ResetStatus();
    afterBoth := p.status;
  }

  /** A proposal of `requester` whose approvers are `u1` and `u2`, in that order, and which has no observers. */
  method TwoApproverProposal(requester: UserId, u1: UserId, u2: UserId) returns (p: Proposal)
    ensures fresh(p) && p.Valid()
    ensures p.Approvers() == [u1, u2] && p.observers == [] && p.requester == requester
  {
    p := PairProposal(requester, u1, u2, false);
    var l1 := Individual(1, u1, Pending, 2);
    var l2 := Individual(2, u2, Pending, 3);
    assert p.root == Some(Parallel(0, [l1, l2], 1));
    assert Leaves(Parallel(0, [l1, l2], 1)) == [l1, l2] by {
      TwoLeafRoot(NewParallel(NewIndividuals([u1, u2])), u1, u2, 0);
    }
    assert UsersByPosition([l1, l2]) == [u1, u2] by {
      UsersOfTwo(l1, l2);
    }
  }

  /** `users` of a proposal with two approvers and two observers, all different people: all five, each once. */
  method UsersOfProposal(requester: UserId, u1: UserId, u2: UserId, o1: UserId, o2: UserId) returns (users: seq<UserId>)
    requires Distinct([u1, u2, o1, o2, requester])
    ensures users == [u1, u2, o1, o2, requester]
  {
    var p := TwoApproverProposal(requester, u1, u2);
    var approvers := p.Approvers();
    p.AddObserver(o1);
    assert o2 != o1 by {
      assert [u1, u2, o1, o2, requester][2] == o1 && [u1, u2, o1, o2, requester][3] == o2;
    }
    p.AddObserver(o2);
    assert p.observers == [o1, o2];
    assert p.Approvers() == approvers;
    assert p.Approvers() + p.observers + [p.requester] == [u1, u2, o1, o2, requester];
    UniqOfDistinct([u1, u2, o1, o2, requester]);
    users := p.Users();
  }

  /** `users` of a proposal with no approvers and no observers is its requester. */
  method OnlyRequester(requester: UserId) returns (users: seq<UserId>)
    ensures users == [requester]
  {
    var p := new Proposal(requester);
    users := p.Users();
    UniqOfDistinct([requester]);
  }

  /** Adding the requester as an observer leaves the requester as the only user. */
  method RequesterAsObserver(requester: UserId) returns (users: seq<UserId>)
    ensures users == [requester]
  {
    var p := new Proposal(requester);
    p.AddObserver(requester);
    assert p.Approvers() + p.observers + [p.requester] == [requester, requester];
    assert Uniq([requester, requester]) == [requester] by {
      assert [requester, requester][..1] == [requester];
      UniqOfDistinct([requester]);
    }
    users := p.Users();
  }

  /** `add_observer` on a proposal without observers. */
  method AddFirstObserver(requester: UserId, observer: UserId) returns (observers: seq<UserId>)
    ensures observers == [observer]
  {
    var p := new Proposal(requester);
    p.AddObserver(observer);
    observers := p.observers;
  }
}
