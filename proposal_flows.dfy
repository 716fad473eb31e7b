/**
 * What `root_approval=`, `approve!` and `update_attribute(:position, ..)` do
 * to the trees a proposal goes through: a new parallel or serial root over
 * fresh leaves, a leaf approved, a position raised, a tree re-submitted with a
 * leaf changed, added or dropped.
 */
module ProposalFlows {
  import opened Wrappers
  import opened ApprovalTree
  import opened Reconcile
  import opened Proposals

  /** `users.map { |u| Approvals::Individual.new(user: u) }`. */
  function NewIndividuals(us: seq<UserId>): (ds: seq<Desired>)
    ensures |ds| == |us| && forall i :: 0 <= i < |us| ==> ds[i] == NewIndividual(us[i])
  {
    seq(|us|, i requires 0 <= i < |us| => NewIndividual(us[i]))
  }

  /** Pending leaves for the given users, with consecutive ids and positions. */
  function FreshLeaves(us: seq<UserId>, next: ApprovalId, pos: int): (ls: seq<Approval>)
    ensures |ls| == |us|
    ensures forall i :: 0 <= i < |us| ==> ls[i] == Individual(next + i, us[i], Pending, pos + i)
  {
    seq(|us|, i requires 0 <= i < |us| => Individual(next + i, us[i], Pending, pos + i))
  }

  /** Merging submitted leaves into an empty group creates one pending leaf per user, in order. */
  lemma {:induction false} MergeFreshLeaves(us: seq<UserId>, next: ApprovalId, pos: int)
    ensures MergeAll([], NewIndividuals(us), next, pos) == (FreshLeaves(us, next, pos), next + |us|)
    decreases |us|
  {
    if us != [] {
      var ds := NewIndividuals(us);
      assert ds[1..] == NewIndividuals(us[1..]);
      MergeFreshLeaves(us[1..], next + 1, pos + 1);
      assert FreshLeaves(us, next, pos) ==
        [Individual(next, us[0], Pending, pos)] + FreshLeaves(us[1..], next + 1, pos + 1);
    }
  }

  /** A list of leaves is its own pre-order list and its own list of leaves. */
  lemma {:induction false} LeafListLists(cs: seq<Approval>)
    requires forall i :: 0 <= i < |cs| ==> cs[i].Individual?
    ensures NodesAll(cs) == cs && LeavesAll(cs) == cs
  {
    if cs != [] {
      LeafListLists(cs[1..]);
    }
  }

  /** Fresh leaves carry exactly the submitted users, in order. */
  lemma {:induction false} UsersOfFresh(us: seq<UserId>, next: ApprovalId, pos: int)
    ensures UsersOf(FreshLeaves(us, next, pos)) == us
    decreases |us|
  {
    if us != [] {
      UsersOfFresh(us[1..], next + 1, pos + 1);
      assert FreshLeaves(us, next, pos)[1..] == FreshLeaves(us[1..], next + 1, pos + 1);
    }
  }

  /** The approvers of a group of fresh leaves, ordered by position, are the submitted users. */
  lemma FreshGroupApprovers(a: Approval, us: seq<UserId>, next: ApprovalId)
    requires !a.Individual? && a.children == FreshLeaves(us, next + 1, 2)
    ensures |Nodes(a)| == |us| + 1
    ensures Leaves(a) == a.children
    ensures UsersByPosition(Leaves(a)) == us
  {
    LeafListLists(a.children);
    SortKeepsSorted(a.children);
    UsersOfFresh(us, next + 1, 2);
  }

  /** The stored root after `root_approval=` on a proposal without approvals. */
  function FirstRoot(d: Desired, next: ApprovalId): Approval
  {
    Merge(None, d, next, 1).0
  }

  /**
   * A parallel root over n new leaves: n + 1 approvals, the approvers in
   * submitted order, all n leaves actionable and n + 1 actionable approvals
   * counting the root.
   */
  lemma ParallelRoot(us: seq<UserId>, next: ApprovalId)
    requires |us| >= 1
    ensures FirstRoot(NewParallel(NewIndividuals(us)), next) == Parallel(next, FreshLeaves(us, next + 1, 2), 1)
    ensures var m := FirstRoot(NewParallel(NewIndividuals(us)), next);
      |Nodes(m)| == |us| + 1 && UsersByPosition(Leaves(m)) == us &&
      ActionableLeaves(m) == m.children && |ActionableLeaves(m)| == |us| &&
      |ActionableNodes(m)| == |us| + 1
  {
    MergeFreshLeaves(us, next + 1, 2);
    var m := FirstRoot(NewParallel(NewIndividuals(us)), next);
    FreshGroupApprovers(m, us, next);
    ParallelOfPendingLeaves(m);
  }

  /**
   * A serial root over n new leaves: n + 1 approvals, the approvers in
   * submitted order, and only the first leaf actionable (two actionable
   * approvals counting the root).
   */
  lemma SerialRoot(us: seq<UserId>, next: ApprovalId)
    requires |us| >= 1
    ensures FirstRoot(NewSerial(NewIndividuals(us)), next) == Serial(next, FreshLeaves(us, next + 1, 2), 1)
    ensures var m := FirstRoot(NewSerial(NewIndividuals(us)), next);
      |Nodes(m)| == |us| + 1 && UsersByPosition(Leaves(m)) == us &&
      ActionableLeaves(m) == [m.children[0]] && UsersByPosition(ActionableLeaves(m)) == [us[0]] &&
      |ActionableNodes(m)| == 2
  {
    MergeFreshLeaves(us, next + 1, 2);
    var m := FirstRoot(NewSerial(NewIndividuals(us)), next);
    assert m == Serial(next, FreshLeaves(us, next + 1, 2), 1);
    FreshGroupApprovers(m, us, next);
    SerialOfLeaves(m, 0);
    SingleByPosition(m.children[0]);
  }

  /** The users of a single leaf, ordered by position, are its user. */
  lemma SingleByPosition(l: Approval)
    requires l.Individual?
    ensures UsersByPosition([l]) == [l.user]
  {
    assert SortByPosition([l]) == [l];
    assert [l][1..] == [];
    assert UsersOf([l]) == [l.user] + UsersOf([]);
  }

  /** The group's members with the k-th one patched; the others are untouched. */
  lemma PatchMember(a: Approval, k: nat, patch: Patch)
    requires !a.Individual? && UniqueIds(a) && k < |a.children| && a.children[k].Individual?
    ensures Patched(a, a.children[k].id, patch) ==
      (if a.Serial? then Serial(a.id, a.children[k := Applied(a.children[k], patch)], a.position)
       else Parallel(a.id, a.children[k := Applied(a.children[k], patch)], a.position))
  {
    var cs := a.children;
    var id := cs[k].id;
    IdsAllMember(cs);
    forall j | 0 <= j < |cs| && j != k ensures Patched(cs[j], id, patch) == cs[j] {
      PatchAbsent(cs[j], id, patch);
    }
    assert seq(|cs|, j requires 0 <= j < |cs| => Patched(cs[j], id, patch)) == cs[k := Applied(cs[k], patch)];
  }

  /** A group over fresh leaves has unique ids, all below the counter returned by the merge. */
  lemma FreshGroupUnique(a: Approval, us: seq<UserId>, next: ApprovalId)
    requires !a.Individual? && a.id == next && a.children == FreshLeaves(us, next + 1, 2)
    ensures UniqueIds(a) && IdsBelow(a, next + 1 + |us|)
  {
    IdsAllMember(a.children);
  }

  /**
   * In a serial root over two fresh leaves, approving the first leaf leaves
   * the second leaf as the only awaiting approver.
   */
  lemma SerialApproveFirst(us: seq<UserId>, next: ApprovalId)
    requires |us| == 2
    ensures var m := FirstRoot(NewSerial(NewIndividuals(us)), next);
      next + 1 in IdsOf(ActionableLeaves(m)) &&
      UsersByPosition(ActionableLeaves(m)) == [us[0]] &&
      UsersByPosition(ActionableLeaves(Patched(m, next + 1, SetStatus(Approved)))) == [us[1]]
  {
    SerialRoot(us, next);
    var m := FirstRoot(NewSerial(NewIndividuals(us)), next);
    FreshGroupUnique(m, us, next);
    SerialApproveLeader(m);
  }

  /**
   * A serial pair of pending leaves, the first not after the second by
   * position, awaits its first leaf only; once that leaf is approved it awaits
   * the second only.
   */
  lemma SerialApproveLeader(m: Approval)
    requires m.Serial? && |m.children| == 2 && UniqueIds(m)
    requires IsPendingLeaf(m.children[0]) && IsPendingLeaf(m.children[1])
    requires m.children[0].position <= m.children[1].position
    ensures m.children[0].id in IdsOf(ActionableLeaves(m))
    ensures UsersByPosition(ActionableLeaves(m)) == [m.children[0].user]
    ensures UsersByPosition(ActionableLeaves(Patched(m, m.children[0].id, SetStatus(Approved)))) == [m.children[1].user]
  {
    var cs := m.children;
    var c0 := cs[0];
    var c1 := cs[1];
    assert ActionableLeaves(m) == [c0] by {
      SerialOfLeaves(m, 0);
    }
    assert c0 in ActionableLeaves(m);
    SingleByPosition(c0);
    var k0 := Individual(c0.id, c0.user, Approved, c0.position);
    var a := Serial(m.id, [k0, c1], m.position);
    assert Patched(m, c0.id, SetStatus(Approved)) == a by {
      PatchMember(m, 0, SetStatus(Approved));
      assert m.children[0 := Applied(c0, SetStatus(Approved))] == [k0, c1];
    }
    assert ActionableLeaves(a) == [c1] by {
      SerialOfLeaves(a, 1);
    }
    SingleByPosition(c1);
  }

  /** A root over two fresh leaves: its id, kind and members. */
  lemma TwoLeafRoot(d: Desired, u1: UserId, u2: UserId, next: ApprovalId)
    requires d == NewParallel(NewIndividuals([u1, u2])) || d == NewSerial(NewIndividuals([u1, u2]))
    ensures var m := FirstRoot(d, next);
      m == (if d.NewParallel? then Parallel(next, [Individual(next + 1, u1, Pending, 2), Individual(next + 2, u2, Pending, 3)], 1)
            else Serial(next, [Individual(next + 1, u1, Pending, 2), Individual(next + 2, u2, Pending, 3)], 1))
    ensures UniqueIds(FirstRoot(d, next)) && IdsBelow(FirstRoot(d, next), next + 3)
    ensures Leaves(FirstRoot(d, next)) == FirstRoot(d, next).children
    ensures Merge(None, d, next, 1).1 == next + 3
  {
    var us := [u1, u2];
    var ls := [Individual(next + 1, u1, Pending, 2), Individual(next + 2, u2, Pending, 3)];
    MergeFreshLeaves(us, next + 1, 2);
    assert FreshLeaves(us, next + 1, 2) == ls;
    var merged := MergeAll([], NewIndividuals(us), next + 1, 2);
    assert merged == (ls, next + 3);
    var m := if d.NewParallel? then Parallel(next, ls, 1) else Serial(next, ls, 1);
    if d.NewParallel? {
      assert Merge(None, d, next, 1) == (Parallel(next, merged.0, 1), merged.1);
    } else {
      assert Merge(None, d, next, 1) == (Serial(next, merged.0, 1), merged.1);
    }
    assert Merge(None, d, next, 1) == (m, next + 3);
    FreshGroupUnique(m, us, next);
    LeafListLists(ls);
  }

  /** Two leaves ordered by position: the one with the smaller position first, the first one on a tie. */
  lemma UsersOfTwo(l1: Approval, l2: Approval)
    requires l1.Individual? && l2.Individual?
    ensures UsersByPosition([l1, l2]) == if l1.position <= l2.position then [l1.user, l2.user] else [l2.user, l1.user]
  {
    assert [l1, l2][1..] == [l2];
    assert SortByPosition([l2]) == [l2];
    assert SortByPosition([l1, l2]) == InsertByPosition(l1, [l2]);
    if l1.position <= l2.position {
      assert UsersOf([l1, l2]) == [l1.user] + UsersOf([l2]);
      assert [l2][1..] == [];
      assert UsersOf([l2]) == [l2.user] + UsersOf([]);
    } else {
      assert [l2][1..] == [];
      assert InsertByPosition(l1, [l2]) == [l2] + InsertByPosition(l1, []);
      assert SortByPosition([l1, l2]) == [l2, l1];
      assert [l2, l1][1..] == [l1];
      assert [l1][1..] == [];
      assert UsersOf([l2, l1]) == [l2.user] + UsersOf([l1]);
      assert UsersOf([l1]) == [l1.user] + UsersOf([]);
    }
  }

  /**
   * Two pending leaves in parallel wait in position order; raising the first
   * one's position above the second's puts its user last.
   */
  lemma ParallelRaisePosition(u1: UserId, u2: UserId, next: ApprovalId, position: int)
    requires position > 3
    ensures var m := FirstRoot(NewParallel(NewIndividuals([u1, u2])), next);
      m == Parallel(next, [Individual(next + 1, u1, Pending, 2), Individual(next + 2, u2, Pending, 3)], 1) &&
      SortByPosition(Leaves(m)) == m.children &&
      UsersByPosition(ActionableLeaves(m)) == [u1, u2] &&
      UsersByPosition(ActionableLeaves(Patched(m, next + 1, SetPosition(position)))) == [u2, u1]
  {
    var d := NewParallel(NewIndividuals([u1, u2]));
    TwoLeafRoot(d, u1, u2, next);
    var m := FirstRoot(d, next);
    SortKeepsSorted(m.children);
    PendingPairInOrder(m);
    RaiseFirstOfTwo(m, position);
  }

  /** A parallel pair of pending leaves waits in position order. */
  lemma PendingPairInOrder(m: Approval)
    requires m.Parallel? && |m.children| == 2 && IsPendingLeaf(m.children[0]) && IsPendingLeaf(m.children[1])
    requires m.children[0].position <= m.children[1].position
    ensures UsersByPosition(ActionableLeaves(m)) == [m.children[0].user, m.children[1].user]
  {
    ParallelOfPendingLeaves(m);
    assert m.children == [m.children[0], m.children[1]];
    UsersOfTwo(m.children[0], m.children[1]);
  }

  /** Moving the first of a parallel pair of pending leaves past the second puts it last. */
  lemma RaiseFirstOfTwo(m: Approval, position: int)
    requires m.Parallel? && |m.children| == 2 && IsPendingLeaf(m.children[0]) && IsPendingLeaf(m.children[1])
    requires UniqueIds(m) && position > m.children[1].position
    ensures UsersByPosition(ActionableLeaves(Patched(m, m.children[0].id, SetPosition(position)))) ==
      [m.children[1].user, m.children[0].user]
  {
    var cs := m.children;
    var c0 := cs[0];
    var c1 := cs[1];
    var k0 := Individual(c0.id, c0.user, Pending, position);
    assert Patched(m, c0.id, SetPosition(position)) == Parallel(m.id, [k0, c1], m.position) by {
      PatchMember(m, 0, SetPosition(position));
      assert m.children[0 := Applied(c0, SetPosition(position))] == [k0, c1];
    }
    var a := Parallel(m.id, [k0, c1], m.position);
    assert ActionableLeaves(a) == [k0, c1] by {
      ParallelOfPendingLeaves(a);
    }
    UsersOfTwo(k0, c1);
  }

  /** Moving the first of a serial pair of pending leaves past the second hands the turn to the second. */
  lemma SerialRaiseFirstOfTwo(m: Approval, position: int)
    requires m.Serial? && |m.children| == 2 && IsPendingLeaf(m.children[0]) && IsPendingLeaf(m.children[1])
    requires UniqueIds(m) && position > m.children[1].position
    ensures UsersByPosition(ActionableLeaves(Patched(m, m.children[0].id, SetPosition(position)))) == [m.children[1].user]
  {
    var cs := m.children;
    var c0 := cs[0];
    var c1 := cs[1];
    var k0 := Individual(c0.id, c0.user, Pending, position);
    assert Patched(m, c0.id, SetPosition(position)) == Serial(m.id, [k0, c1], m.position) by {
      PatchMember(m, 0, SetPosition(position));
      assert m.children[0 := Applied(c0, SetPosition(position))] == [k0, c1];
    }
    SecondLeadsSerialPair(Serial(m.id, [k0, c1], m.position));
  }

  /** A serial pair of pending leaves whose second is placed before its first awaits the second only. */
  lemma SecondLeadsSerialPair(a: Approval)
    requires a.Serial? && |a.children| == 2 && IsPendingLeaf(a.children[0]) && IsPendingLeaf(a.children[1])
    requires a.children[1].position < a.children[0].position
    ensures UsersByPosition(ActionableLeaves(a)) == [a.children[1].user]
  {
    var c1 := a.children[1];
    assert StatusOf(a) == Pending by {
      GroupStatusRule(a.children);
    }
    assert ActionableNodes(a) == [a, c1] by {
      assert LeadsByPosition(a.children, 1);
      SerialFirstPendingOnly(a, 1);
      assert ActionableNodes(c1) == [c1];
    }
    assert ActionableLeaves(a) == [c1] by {
      assert [a, c1][1..] == [c1];
    }
    SingleByPosition(c1);
  }

  /** Approving both leaves of a root over two fresh leaves, one after the other: each was actionable when approved, and afterwards nothing is. */
  lemma ApproveBoth(d: Desired, u1: UserId, u2: UserId, next: ApprovalId)
    requires d == NewParallel(NewIndividuals([u1, u2])) || d == NewSerial(NewIndividuals([u1, u2]))
    ensures var m := FirstRoot(d, next);
      var a1 := Patched(m, next + 1, SetStatus(Approved));
      var a2 := Patched(a1, next + 2, SetStatus(Approved));
      next + 1 in IdsOf(ActionableLeaves(m)) && next + 2 in IdsOf(ActionableLeaves(a1)) &&
      ResetStatusOf(ProposalPending, Some(a1)) == ProposalPending &&
      ActionableNodes(a2) == [] && ActionableLeaves(a2) == [] &&
      ResetStatusOf(ProposalPending, Some(a2)) == ProposalApproved
  {
    TwoLeafRoot(d, u1, u2, next);
    ApprovePairInTurn(FirstRoot(d, next));
  }

  /**
   * Approving both leaves of a group of two pending leaves, first then
   * second: each is actionable when approved, the proposal stays pending in
   * between, and afterwards nothing is actionable and the proposal is
   * approved.
   */
  lemma ApprovePairInTurn(m: Approval)
    requires !m.Individual? && |m.children| == 2 && UniqueIds(m)
    requires IsPendingLeaf(m.children[0]) && IsPendingLeaf(m.children[1])
    requires m.Serial? ==> m.children[0].position <= m.children[1].position
    ensures var a1 := Patched(m, m.children[0].id, SetStatus(Approved));
      var a2 := Patched(a1, m.children[1].id, SetStatus(Approved));
      var k0 := m.children[0].(status := Approved);
      var k1 := m.children[1].(status := Approved);
      ResetStatusOf(ProposalPending, Some(m)) == ProposalPending &&
      m.children[0].id in IdsOf(ActionableLeaves(m)) &&
      a1 == (if m.Serial? then Serial(m.id, [k0, m.children[1]], m.position) else Parallel(m.id, [k0, m.children[1]], m.position)) &&
      m.children[1].id in IdsOf(ActionableLeaves(a1)) &&
      ResetStatusOf(ProposalPending, Some(a1)) == ProposalPending &&
      a2 == (if m.Serial? then Serial(m.id, [k0, k1], m.position) else Parallel(m.id, [k0, k1], m.position)) &&
      ActionableNodes(a2) == [] && ActionableLeaves(a2) == [] &&
      ResetStatusOf(ProposalPending, Some(a2)) == ProposalApproved
  {
    var cs := m.children;
    var c0 := cs[0];
    var c1 := cs[1];
    var k0 := c0.(status := Approved);
    var k1 := c1.(status := Approved);
    var a1 := Patched(m, c0.id, SetStatus(Approved));
    assert a1 == (if m.Serial? then Serial(m.id, [k0, c1], m.position) else Parallel(m.id, [k0, c1], m.position)) by {
      PatchMember(m, 0, SetStatus(Approved));
      assert cs[0 := Applied(c0, SetStatus(Approved))] == [k0, c1];
    }
    assert UniqueIds(a1) by {
      PatchKeepsIds(m, c0.id, SetStatus(Approved));
    }
    var a2 := Patched(a1, c1.id, SetStatus(Approved));
    assert a2 == (if m.Serial? then Serial(m.id, [k0, k1], m.position) else Parallel(m.id, [k0, k1], m.position)) by {
      PatchMember(a1, 1, SetStatus(Approved));
      assert a1.children[1 := Applied(c1, SetStatus(Approved))] == [k0, k1];
    }
    ApprovedInOrder(m, a1, a2);
    PendingSecondKeepsPending(m);
  }

  /** A pair of leaves whose second is pending and whose first is not cancelled leaves the proposal pending. */
  lemma PendingSecondKeepsPending(a: Approval)
    requires !a.Individual? && |a.children| == 2
    requires a.children[0].Individual? && a.children[0].status != Cancelled && IsPendingLeaf(a.children[1])
    ensures ResetStatusOf(ProposalPending, Some(a)) == ProposalPending
  {
    assert Leaves(a) == a.children by {
      LeafListLists(a.children);
    }
    StatusFromLeaves(a);
  }

  /** A pair of approved leaves approves the proposal and leaves nothing actionable. */
  lemma ApprovedPairDone(a: Approval)
    requires !a.Individual? && |a.children| == 2
    requires a.children[0].Individual? && a.children[0].status == Approved
    requires a.children[1].Individual? && a.children[1].status == Approved
    ensures ResetStatusOf(ProposalPending, Some(a)) == ProposalApproved
    ensures ActionableNodes(a) == [] && ActionableLeaves(a) == []
  {
    assert Leaves(a) == a.children by {
      LeafListLists(a.children);
    }
    StatusFromLeaves(a);
    FullyApprovedNothingActionable(a);
  }

  /** The actionable leaves of the three stages of approving a group of two leaves one after the other. */
  lemma ApprovedInOrder(m: Approval, a1: Approval, a2: Approval)
    requires !m.Individual? && |m.children| == 2
    requires IsPendingLeaf(m.children[0]) && IsPendingLeaf(m.children[1])
    requires m.Serial? ==> m.children[0].position <= m.children[1].position
    requires a1 == (if m.Serial? then Serial(m.id, m.children[0 := m.children[0].(status := Approved)], m.position)
                    else Parallel(m.id, m.children[0 := m.children[0].(status := Approved)], m.position))
    requires a2 == (if m.Serial? then Serial(m.id, a1.children[1 := a1.children[1].(status := Approved)], m.position)
                    else Parallel(m.id, a1.children[1 := a1.children[1].(status := Approved)], m.position))
    ensures m.children[0].id in IdsOf(ActionableLeaves(m))
    ensures a1.children[1].id in IdsOf(ActionableLeaves(a1))
    ensures ActionableNodes(a2) == [] && ActionableLeaves(a2) == []
    ensures ResetStatusOf(ProposalPending, Some(a1)) == ProposalPending
    ensures ResetStatusOf(ProposalPending, Some(a2)) == ProposalApproved
  {
    assert m.children[0].id in IdsOf(ActionableLeaves(m)) by {
      FirstActionable(m);
    }
    assert a1.children[1].id in IdsOf(ActionableLeaves(a1)) by {
      SecondActionable(a1);
    }
    PendingSecondKeepsPending(a1);
    ApprovedPairDone(a2);
  }

  /** Both kinds of group over pending leaves let their first leaf act. */
  lemma FirstActionable(m: Approval)
    requires !m.Individual? && |m.children| == 2
    requires IsPendingLeaf(m.children[0]) && IsPendingLeaf(m.children[1])
    requires m.Serial? ==> m.children[0].position <= m.children[1].position
    ensures m.children[0].id in IdsOf(ActionableLeaves(m))
  {
    if m.Parallel? {
      ParallelOfPendingLeaves(m);
    } else {
      SerialOfLeaves(m, 0);
    }
    assert m.children[0] in ActionableLeaves(m);
  }

  /** Both kinds of group whose first leaf is approved let their pending second leaf act. */
  lemma SecondActionable(a: Approval)
    requires !a.Individual? && |a.children| == 2
    requires a.children[0].Individual? && a.children[0].status == Approved && IsPendingLeaf(a.children[1])
    ensures a.children[1].id in IdsOf(ActionableLeaves(a))
  {
    GroupStatusRule(a.children);
    assert StatusOf(a) == Pending;
    if a.Parallel? {
      ParallelMembersActionable(a);
      assert a.children[1] in ActionableNodes(a);
    } else {
      SerialOfLeaves(a, 1);
    }
    assert a.children[1] in ActionableLeaves(a);
  }

  /**
   * Re-submitting a serial tree whose first leaf was approved, with the second
   * leaf's user changed: the approved leaf is kept (one approved approval),
   * the changed leaf is a fresh pending leaf and the only actionable one, and
   * the old second leaf no longer exists.
   */
  lemma ResubmitSerialChangedLeaf(u1: UserId, u2: UserId, u3: UserId, next: ApprovalId)
    requires u3 != u2
    ensures var m := FirstRoot(NewSerial(NewIndividuals([u1, u2])), next);
      var a := Patched(m, next + 1, SetStatus(Approved));
      var r := Merge(Some(a), NewSerial(NewIndividuals([u1, u3])), next + 3, 1);
      r == (Serial(next, [Individual(next + 1, u1, Approved, 2), Individual(next + 3, u3, Pending, 3)], 1), next + 4) &&
      CountWithStatus(Nodes(r.0), Approved) == 1 &&
      |ActionableNodes(r.0)| == 2 &&
      ActionableLeaves(r.0) == [Individual(next + 3, u3, Pending, 3)] &&
      next + 2 !in Ids(r.0)
  {
    var d := NewSerial(NewIndividuals([u1, u2]));
    var m := FirstRoot(d, next);
    var k1 := Individual(next + 1, u1, Approved, 2);
    var l2 := Individual(next + 2, u2, Pending, 3);
    var a := Patched(m, next + 1, SetStatus(Approved));
    assert a == Serial(next, [k1, l2], 1) by {
      TwoLeafRoot(d, u1, u2, next);
      PatchMember(m, 0, SetStatus(Approved));
      assert m.children[0 := Applied(m.children[0], SetStatus(Approved))] == [k1, l2];
    }
    var l3 := Individual(next + 3, u3, Pending, 3);
    var r := Serial(next, [k1, l3], 1);
    assert Merge(Some(a), NewSerial(NewIndividuals([u1, u3])), next + 3, 1) == (r, next + 4) by {
      MergeTwoLeaves(a, u1, u3, next + 3);
    }
    assert CountWithStatus(Nodes(r), Approved) == 1 && next + 2 !in Ids(r) by {
      CountsOfTwo(r);
    }
    assert ActionableNodes(r) == [r, l3] && ActionableLeaves(r) == [l3] by {
      SerialOfLeaves(r, 1);
    }
  }

  /**
   * Merging a group of two stored leaves with a submitted group of the same
   * kind over two users: a leaf is kept where its user is submitted again at
   * its place, and replaced by a fresh pending leaf otherwise.
   */
  lemma MergeTwoLeaves(a: Approval, v1: UserId, v2: UserId, next: ApprovalId)
    requires !a.Individual? && |a.children| == 2 && a.children[0].Individual? && a.children[1].Individual?
    ensures var d := if a.Serial? then NewSerial(NewIndividuals([v1, v2])) else NewParallel(NewIndividuals([v1, v2]));
      var c0 := a.children[0];
      var c1 := a.children[1];
      var n1 := if c0.user == v1 then next else next + 1;
      var m0 := if c0.user == v1 then Individual(c0.id, v1, c0.status, a.position + 1) else Individual(next, v1, Pending, a.position + 1);
      var m1 := if c1.user == v2 then Individual(c1.id, v2, c1.status, a.position + 2) else Individual(n1, v2, Pending, a.position + 2);
      var n2 := if c1.user == v2 then n1 else n1 + 1;
      Merge(Some(a), d, next, a.position) ==
        (if a.Serial? then Serial(a.id, [m0, m1], a.position) else Parallel(a.id, [m0, m1], a.position), n2)
  {
    var ds := NewIndividuals([v1, v2]);
    var c0 := a.children[0];
    var c1 := a.children[1];
    var pos := a.position;
    assert ds == [NewIndividual(v1), NewIndividual(v2)];
    assert ds[1..] == [NewIndividual(v2)];
    assert ds[1..][1..] == [];
    assert Head(a.children) == Some(c0) && Tail(a.children) == [c1];
    assert Head([c1]) == Some(c1) && Tail([c1]) == [];
    var (x0, n1) := Merge(Some(c0), ds[0], next, pos + 1);
    var (x1, n2) := Merge(Some(c1), ds[1], n1, pos + 2);
    assert MergeAll([], [], n2, pos + 3) == ([], n2);
    assert ds[1..][0] == ds[1] && Size(ds[1]) == 1 && Size(ds[0]) == 1;
    assert MergeAll([c1], ds[1..], n1, pos + 2) ==
      ([Merge(Some(c1), ds[1], n1, pos + 2).0] + MergeAll([], [], n2, pos + 3).0, n2);
    assert Merge(Some(c1), ds[1], n1, pos + 2) == (x1, n2);
    assert [x1] + [] == [x1];
    assert MergeAll([c1], ds[1..], n1, pos + 2) == ([x1], n2);
    assert MergeAll(a.children, ds, next, pos + 1) == ([x0] + [x1], n2);
    assert x0 == (if c0.user == v1 then Individual(c0.id, v1, c0.status, pos + 1) else Individual(next, v1, Pending, pos + 1));
    assert n1 == if c0.user == v1 then next else next + 1;
    assert x1 == (if c1.user == v2 then Individual(c1.id, v2, c1.status, pos + 2) else Individual(n1, v2, Pending, pos + 2));
    assert n2 == if c1.user == v2 then n1 else n1 + 1;
    assert [x0] + [x1] == [x0, x1];
    if a.Serial? {
      assert Merge(Some(a), NewSerial(ds), next, pos) == (Serial(a.id, [x0, x1], pos), n2);
    } else {
      assert Merge(Some(a), NewParallel(ds), next, pos) == (Parallel(a.id, [x0, x1], pos), n2);
    }
  }

  /** The counts of a group of two leaves, one approved and one pending. */
  lemma CountsOfTwo(r: Approval)
    requires r.Serial? && |r.children| == 2
    requires r.children[0].Individual? && r.children[0].status == Approved
    requires r.children[1].Individual? && r.children[1].status == Pending
    ensures CountWithStatus(Nodes(r), Approved) == 1
    ensures Ids(r) == {r.id, r.children[0].id, r.children[1].id}
  {
    LeafListLists(r.children);
    GroupStatusRule(r.children);
    assert StatusOf(r) == Pending;
    assert Nodes(r) == [r] + r.children;
    assert CountWithStatus(Nodes(r), Approved) == CountWithStatus(r.children, Approved) by {
      assert (Nodes(r))[1..] == r.children;
    }
    assert r.children[1..] == [r.children[1]];
    assert [r.children[1]][1..] == [];
    assert IdsAll([r.children[1]]) == Ids(r.children[1]) + IdsAll([]);
    assert IdsAll(r.children) == Ids(r.children[0]) + IdsAll([r.children[1]]);
  }

  /**
   * Extending a parallel root of one leaf to three: the first leaf is kept and
   * all three are actionable (four actionable approvals with the root).
   */
  lemma ExtendParallel(u1: UserId, u2: UserId, u3: UserId, next: ApprovalId)
    ensures var m := FirstRoot(NewParallel(NewIndividuals([u1])), next);
      var r := Merge(Some(m), NewParallel(NewIndividuals([u1, u2, u3])), next + 2, 1).0;
      |ActionableNodes(m)| == 2 && |ActionableLeaves(m)| == 1 &&
      r == Parallel(next, [Individual(next + 1, u1, Pending, 2), Individual(next + 2, u2, Pending, 3),
                           Individual(next + 3, u3, Pending, 4)], 1) &&
      |ActionableNodes(r)| == 4 && |ActionableLeaves(r)| == 3
  {
    var m := FirstRoot(NewParallel(NewIndividuals([u1])), next);
    var l1 := Individual(next + 1, u1, Pending, 2);
    assert m == Parallel(next, [l1], 1) && |ActionableNodes(m)| == 2 && |ActionableLeaves(m)| == 1 by {
      ParallelRoot([u1], next);
      assert FreshLeaves([u1], next + 1, 2) == [l1];
    }
    var r := Parallel(next, [l1, Individual(next + 2, u2, Pending, 3), Individual(next + 3, u3, Pending, 4)], 1);
    assert Merge(Some(m), NewParallel(NewIndividuals([u1, u2, u3])), next + 2, 1).0 == r by {
      KeepOneAddTwo(m, u2, u3, next + 2);
    }
    assert |ActionableNodes(r)| == 4 && |ActionableLeaves(r)| == 3 by {
      ParallelOfPendingLeaves(r);
    }
  }

  /**
   * Merging a parallel group of one stored leaf with a submitted group over
   * the same user and two more: the leaf is kept and two fresh pending leaves
   * follow it.
   */
  lemma KeepOneAddTwo(a: Approval, u2: UserId, u3: UserId, next: ApprovalId)
    requires a.Parallel? && |a.children| == 1 && a.children[0].Individual?
    ensures var l := a.children[0];
      Merge(Some(a), NewParallel(NewIndividuals([l.user, u2, u3])), next, a.position).0 ==
      Parallel(a.id, [Individual(l.id, l.user, l.status, a.position + 1), Individual(next, u2, Pending, a.position + 2),
                      Individual(next + 1, u3, Pending, a.position + 3)], a.position)
  {
    var l := a.children[0];
    var pos := a.position;
    var ds := NewIndividuals([l.user, u2, u3]);
    assert ds[1..] == NewIndividuals([u2, u3]);
    MergeFreshLeaves([u2, u3], next, pos + 2);
    var added := FreshLeaves([u2, u3], next, pos + 2);
    assert added == [Individual(next, u2, Pending, pos + 2), Individual(next + 1, u3, Pending, pos + 3)];
    assert Head(a.children) == Some(l) && Tail(a.children) == [];
    var k := Individual(l.id, l.user, l.status, pos + 1);
    assert Merge(Some(l), ds[0], next, pos + 1) == (k, next);
    assert MergeAll(a.children, ds, next, pos + 1) == ([k] + added, next + 2);
  }

  /**
   * Re-submitting a two-leaf parallel root as a serial root over the second
   * user: the first leaf no longer exists.
   */
  lemma ResubmitDropsLeaf(u1: UserId, u2: UserId, next: ApprovalId)
    ensures var m := FirstRoot(NewParallel(NewIndividuals([u1, u2])), next);
      Lookup(m, [0]) == Some(Individual(next + 1, u1, Pending, 2)) &&
      next + 1 !in Ids(Merge(Some(m), NewSerial(NewIndividuals([u2])), next + 3, 1).0)
  {
    ParallelRoot([u1, u2], next);
    var m := FirstRoot(NewParallel(NewIndividuals([u1, u2])), next);
    FreshGroupUnique(m, [u1, u2], next);
    assert Lookup(m, [0]) == Lookup(m.children[0], []);
    MergeDeletesUnmatched(m, NewSerial(NewIndividuals([u2])), next + 3, 1, [0]);
  }

  /**
   * Re-submitting an approved two-leaf parallel root with a third user added:
   * the two decisions are kept but the proposal's status reverts to pending.
   */
  lemma ReopenOnAddedLeaf(u1: UserId, u2: UserId, u3: UserId, next: ApprovalId)
    ensures var m := FirstRoot(NewParallel(NewIndividuals([u1, u2])), next);
      var a := Patched(Patched(m, next + 1, SetStatus(Approved)), next + 2, SetStatus(Approved));
      var r := Merge(Some(a), NewParallel(NewIndividuals([u1, u2, u3])), next + 3, 1).0;
      ResetStatusOf(ProposalPending, Some(a)) == ProposalApproved &&
      Lookup(r, [0]).Some? && SameDecision(Lookup(r, [0]).value, Lookup(a, [0]).value) &&
      Lookup(r, [1]).Some? && SameDecision(Lookup(r, [1]).value, Lookup(a, [1]).value) &&
      ResetStatusOf(ProposalPending, Some(r)) == ProposalPending
  {
    var d := NewParallel(NewIndividuals([u1, u2]));
    ApproveBoth(d, u1, u2, next);
    TwoLeafRoot(d, u1, u2, next);
    var m := FirstRoot(d, next);
    var a1 := Patched(m, next + 1, SetStatus(Approved));
    PatchMember(m, 0, SetStatus(Approved));
    PatchKeepsIds(m, next + 1, SetStatus(Approved));
    PatchMember(a1, 1, SetStatus(Approved));
    var a := Patched(a1, next + 2, SetStatus(Approved));
    var k1 := Individual(next + 1, u1, Approved, 2);
    var k2 := Individual(next + 2, u2, Approved, 3);
    assert a == Parallel(next, [k1, k2], 1);
    AppendLeaf(a, u3, next + 3);
  }

  /**
   * Re-submitting a group of approved leaves with one more user at the end:
   * every stored leaf is kept with its decision and the new pending leaf makes
   * the proposal pending again.
   */
  lemma AppendLeaf(a: Approval, u: UserId, next: ApprovalId)
    requires a.Parallel? && |a.children| == 2
    requires forall i :: 0 <= i < 2 ==> a.children[i].Individual? && a.children[i].status == Approved
    ensures var d := NewParallel(NewIndividuals([a.children[0].user, a.children[1].user, u]));
      var r := Merge(Some(a), d, next, a.position).0;
      Lookup(r, [0]).Some? && SameDecision(Lookup(r, [0]).value, Lookup(a, [0]).value) &&
      Lookup(r, [1]).Some? && SameDecision(Lookup(r, [1]).value, Lookup(a, [1]).value) &&
      ResetStatusOf(ProposalPending, Some(r)) == ProposalPending
  {
    var d := NewParallel(NewIndividuals([a.children[0].user, a.children[1].user, u]));
    assert Agree(a, d, [0]) && Agree(a, d, [1]);
    MergeKeepsMatched(a, d, next, a.position, [0]);
    MergeKeepsMatched(a, d, next, a.position, [1]);
    assert DLookup(d, [2]) == Some(NewIndividual(u));
    NewLeafReopens(Some(a), d, next, a.position, [2]);
    var r := Merge(Some(a), d, next, a.position).0;
    MergeDecisionsFromStored(Some(a), d, next, a.position);
    LeafListLists(a.children);
    assert LeafStatuses(a) == {Approved};
    assert Cancelled !in LeafStatuses(r);
  }
}
