/**
 * The approval tree of a proposal: `Approvals::Individual` leaves grouped by
 * `Approvals::Serial` (one member at a time, by position) and
 * `Approvals::Parallel` (all members at once) groups, nested freely, and the
 * queries a proposal computes from it: the derived status, the approvals that
 * are actionable now, and lists ordered by position.
 *
 * Only a leaf stores a decision; the status of a group is derived from its
 * members. Positions are numbers over the whole proposal: they order the
 * proposal's approval lists and decide whose turn it is in a serial group.
 * A group's members are kept in the order in which they were submitted, which
 * breaks ties between equal positions.
 */
module ApprovalTree {
  import opened Wrappers

  type UserId = nat
  type ApprovalId = nat

  datatype Status = Pending | Approved | Cancelled

  datatype Approval =
    | Individual(id: ApprovalId, user: UserId, status: Status, position: int)
    | Serial(id: ApprovalId, children: seq<Approval>, position: int)
    | Parallel(id: ApprovalId, children: seq<Approval>, position: int)

  /* ---------------------------------------------------------------------- */
  /* Derived status                                                          */
  /* ---------------------------------------------------------------------- */

  /** Combines two statuses: cancelled dominates pending, which dominates approved. */
  function Meet(a: Status, b: Status): Status
  {
    if a == Cancelled || b == Cancelled then Cancelled
    else if a == Pending || b == Pending then Pending
    else Approved
  }

  /** A leaf's status is its decision; a group's is the meet of its members'. */
  function StatusOf(a: Approval): Status
  {
    match a
    case Individual(_, _, s, _) => s
    case Serial(_, cs, _) => StatusOfAll(cs)
    case Parallel(_, cs, _) => StatusOfAll(cs)
  }

  function StatusOfAll(cs: seq<Approval>): Status
  {
    if cs == [] then Approved else Meet(StatusOf(cs[0]), StatusOfAll(cs[1..]))
  }

  /** A group is approved iff every member is, and cancelled iff some member is. */
  lemma {:induction false} GroupStatusRule(cs: seq<Approval>)
    ensures StatusOfAll(cs) == Approved <==> forall i :: 0 <= i < |cs| ==> StatusOf(cs[i]) == Approved
    ensures StatusOfAll(cs) == Cancelled <==> exists i :: 0 <= i < |cs| && StatusOf(cs[i]) == Cancelled
  {
    if cs != [] {
      GroupStatusRule(cs[1..]);
      assert forall i :: 1 <= i < |cs| ==> cs[i] == cs[1..][i - 1];
      if StatusOfAll(cs) == Cancelled && StatusOf(cs[0]) != Cancelled {
        var i :| 0 <= i < |cs[1..]| && StatusOf(cs[1..][i]) == Cancelled;
        assert StatusOf(cs[i + 1]) == Cancelled;
      }
    }
  }

  /* ---------------------------------------------------------------------- */
  /* Approval lists                                                          */
  /* ---------------------------------------------------------------------- */

  /** Every approval of the tree, groups included, in pre-order (the proposal's `approvals`). */
  function Nodes(a: Approval): seq<Approval>
  {
    match a
    case Individual(_, _, _, _) => [a]
    case Serial(_, cs, _) => [a] + NodesAll(cs)
    case Parallel(_, cs, _) => [a] + NodesAll(cs)
  }

  function NodesAll(cs: seq<Approval>): seq<Approval>
  {
    if cs == [] then [] else Nodes(cs[0]) + NodesAll(cs[1..])
  }

  /** The leaves of the tree in pre-order (the proposal's `individual_approvals`, before ordering). */
  function Leaves(a: Approval): (ls: seq<Approval>)
    ensures forall l :: l in ls ==> l.Individual?
  {
    match a
    case Individual(_, _, _, _) => [a]
    case Serial(_, cs, _) => LeavesAll(cs)
    case Parallel(_, cs, _) => LeavesAll(cs)
  }

  function LeavesAll(cs: seq<Approval>): (ls: seq<Approval>)
    ensures forall l :: l in ls ==> l.Individual?
  {
    if cs == [] then [] else Leaves(cs[0]) + LeavesAll(cs[1..])
  }

  /** The derived status read off the leaves: approved iff every leaf is, cancelled iff some leaf is. */
  lemma {:induction false} StatusFromLeaves(a: Approval)
    ensures StatusOf(a) == Approved <==> forall l :: l in Leaves(a) ==> l.status == Approved
    ensures StatusOf(a) == Cancelled <==> exists l :: l in Leaves(a) && l.status == Cancelled
  {
    match a
    case Individual(_, _, _, _) =>
    case Serial(_, cs, _) => StatusFromLeavesAll(cs);
    case Parallel(_, cs, _) => StatusFromLeavesAll(cs);
  }

  lemma {:induction false} StatusFromLeavesAll(cs: seq<Approval>)
    ensures StatusOfAll(cs) == Approved <==> forall l :: l in LeavesAll(cs) ==> l.status == Approved
    ensures StatusOfAll(cs) == Cancelled <==> exists l :: l in LeavesAll(cs) && l.status == Cancelled
  {
    if cs != [] {
      StatusFromLeaves(cs[0]);
      StatusFromLeavesAll(cs[1..]);
    }
  }

  /** The approvals of a list that are leaves, in order. */
  function Individuals(ns: seq<Approval>): (r: seq<Approval>)
    ensures forall x :: x in r <==> x in ns && x.Individual?
    ensures |r| <= |ns|
  {
    if ns == [] then []
    else (if ns[0].Individual? then [ns[0]] else []) + Individuals(ns[1..])
  }

  /** The users of a list of leaves, in order. */
  function UsersOf(ns: seq<Approval>): seq<UserId>
    requires forall x :: x in ns ==> x.Individual?
  {
    if ns == [] then [] else [ns[0].user] + UsersOf(ns[1..])
  }

  /** The users are read off the leaves one for one, in the same order. */
  lemma {:induction false} UsersOfAt(ns: seq<Approval>)
    requires forall x :: x in ns ==> x.Individual?
    ensures |UsersOf(ns)| == |ns|
    ensures forall i :: 0 <= i < |ns| ==> UsersOf(ns)[i] == ns[i].user
  {
    if ns != [] {
      UsersOfAt(ns[1..]);
      assert forall i :: 1 <= i < |ns| ==> ns[i] == ns[1..][i - 1];
    }
  }

  /** How many approvals of a list have the given derived status (`approvals.approved.count`). */
  function CountWithStatus(ns: seq<Approval>, s: Status): (n: nat)
    ensures n <= |ns|
  {
    if ns == [] then 0
    else (if StatusOf(ns[0]) == s then 1 else 0) + CountWithStatus(ns[1..], s)
  }

  /** Counting statuses distributes over concatenation. */
  lemma {:induction false} CountWithStatusConcat(xs: seq<Approval>, ys: seq<Approval>, s: Status)
    ensures CountWithStatus(xs + ys, s) == CountWithStatus(xs, s) + CountWithStatus(ys, s)
  {
    if xs == [] {
      assert xs + ys == ys;
    } else {
      assert (xs + ys)[0] == xs[0] && (xs + ys)[1..] == xs[1..] + ys;
      CountWithStatusConcat(xs[1..], ys, s);
    }
  }

  /** The places (indices) of a list holding an approval with status s. */
  function PlacesWithStatus(ns: seq<Approval>, s: Status): set<int>
  {
    set i | 0 <= i < |ns| && StatusOf(ns[i]) == s
  }

  /** Counting the places holding status s: those before the last place, and possibly the last. */
  lemma StatusPlacesSnoc(ns: seq<Approval>, s: Status)
    requires ns != []
    ensures |PlacesWithStatus(ns, s)| ==
      |PlacesWithStatus(ns[..|ns| - 1], s)| + (if StatusOf(ns[|ns| - 1]) == s then 1 else 0)
  {
    var n := |ns| - 1;
    var prefix := PlacesWithStatus(ns[..n], s);
    var last: set<int> := if StatusOf(ns[n]) == s then {n} else {};
    assert PlacesWithStatus(ns, s) == prefix + last by {
      forall i | 0 <= i < n ensures (i in prefix) == (i in PlacesWithStatus(ns, s)) {
        assert ns[..n][i] == ns[i];
      }
    }
    assert n !in prefix;
  }

  /** The count is exactly the number of places in the list holding an approval with that status. */
  lemma {:induction false} CountIsNumberOfPlaces(ns: seq<Approval>, s: Status)
    ensures CountWithStatus(ns, s) == |PlacesWithStatus(ns, s)|
  {
    if ns != [] {
      var n := |ns| - 1;
      var init := ns[..n];
      StatusPlacesSnoc(ns, s);
      assert CountWithStatus(ns, s) == CountWithStatus(init, s) + (if StatusOf(ns[n]) == s then 1 else 0) by {
        assert ns == init + [ns[n]];
        CountWithStatusConcat(init, [ns[n]], s);
      }
      CountIsNumberOfPlaces(init, s);
    }
  }

  /** Selecting the leaves distributes over concatenation, so it keeps their order. */
  lemma {:induction false} IndividualsConcat(xs: seq<Approval>, ys: seq<Approval>)
    ensures Individuals(xs + ys) == Individuals(xs) + Individuals(ys)
  {
    if xs == [] {
      assert xs + ys == ys;
    } else {
      assert (xs + ys)[0] == xs[0] && (xs + ys)[1..] == xs[1..] + ys;
      IndividualsConcat(xs[1..], ys);
    }
  }

  /** The places (indices) of a list holding a leaf. */
  function LeafPlaces(ns: seq<Approval>): set<int>
  {
    set i | 0 <= i < |ns| && ns[i].Individual?
  }

  /** Counting the places holding a leaf: those before the last place, and possibly the last. */
  lemma LeafPlacesSnoc(ns: seq<Approval>)
    requires ns != []
    ensures |LeafPlaces(ns)| == |LeafPlaces(ns[..|ns| - 1])| + (if ns[|ns| - 1].Individual? then 1 else 0)
  {
    var n := |ns| - 1;
    var prefix := LeafPlaces(ns[..n]);
    var last: set<int> := if ns[n].Individual? then {n} else {};
    forall i | 0 <= i < n ensures ns[..n][i] == ns[i] { }
    assert LeafPlaces(ns) == prefix + last;
    assert n !in prefix;
  }

  /** One leaf is selected for each place in the list that holds a leaf, duplicates included. */
  lemma {:induction false} IndividualsCount(ns: seq<Approval>)
    ensures |Individuals(ns)| == |LeafPlaces(ns)|
  {
    if ns != [] {
      var n := |ns| - 1;
      var init := ns[..n];
      LeafPlacesSnoc(ns);
      assert |Individuals(ns)| == |Individuals(init)| + (if ns[n].Individual? then 1 else 0) by {
        assert ns == init + [ns[n]];
        IndividualsConcat(init, [ns[n]]);
        assert [ns[n]][1..] == [];
      }
      IndividualsCount(init);
    }
  }



  /* ---------------------------------------------------------------------- */
  /* Actionable approvals                                                    */
  /* ---------------------------------------------------------------------- */

  /**
   * Member k of a group is pending and has the least position among the
   * pending members; on equal positions the earlier submitted member wins.
   */
  predicate LeadsByPosition(cs: seq<Approval>, k: nat)
  {
    k < |cs| && StatusOf(cs[k]) == Pending &&
    forall j :: 0 <= j < |cs| && StatusOf(cs[j]) == Pending ==>
      cs[k].position < cs[j].position || (cs[k].position == cs[j].position && k <= j)
  }

  /** The member whose turn it is in a serial group: the first pending member by position, if any. */
  function FirstPendingByPosition(cs: seq<Approval>): (k: Option<nat>)
    ensures k.None? <==> forall i :: 0 <= i < |cs| ==> StatusOf(cs[i]) != Pending
    ensures k.Some? ==> LeadsByPosition(cs, k.value)
  {
    if cs == [] then None
    else
      var rest := FirstPendingByPosition(cs[1..]);
      assert forall j :: 1 <= j < |cs| ==> cs[j] == cs[1..][j - 1];
      if StatusOf(cs[0]) != Pending then
        if rest.None? then None else Some(rest.value + 1)
      else if rest.Some? && cs[rest.value + 1].position < cs[0].position then Some(rest.value + 1)
      else Some(0)
  }

  /** Only one member can lead a group. */
  lemma LeaderUnique(cs: seq<Approval>, k: nat, k': nat)
    requires LeadsByPosition(cs, k) && LeadsByPosition(cs, k')
    ensures k == k'
  {
  }

  /**
   * The approvals on which a decision is awaited now (`approvals.actionable`),
   * in tree order: a pending approval whose group lets it act. A parallel group
   * lets every pending member act, a serial group only its first pending
   * member by position.
   */
  function ActionableNodes(a: Approval): seq<Approval>
  {
    if StatusOf(a) != Pending then []
    else match a
      case Individual(_, _, _, _) => [a]
      case Parallel(_, cs, _) => [a] + ActionableAll(cs)
      case Serial(_, cs, _) =>
        var k := FirstPendingByPosition(cs);
        [a] + (if k.Some? then ActionableNodes(cs[k.value]) else [])
  }

  function ActionableAll(cs: seq<Approval>): seq<Approval>
  {
    if cs == [] then [] else ActionableNodes(cs[0]) + ActionableAll(cs[1..])
  }

  /** The actionable leaves (`individual_approvals.actionable`), in tree order. */
  function ActionableLeaves(a: Approval): seq<Approval>
  {
    Individuals(ActionableNodes(a))
  }

  /** Every actionable approval is a pending approval of the tree. */
  lemma {:induction false} ActionableSound(a: Approval)
    ensures forall n :: n in ActionableNodes(a) ==> StatusOf(n) == Pending && n in Nodes(a)
  {
    if StatusOf(a) == Pending {
      match a
      case Individual(_, _, _, _) =>
      case Parallel(_, cs, _) => ActionableAllSound(cs);
      case Serial(_, cs, _) =>
        var k := FirstPendingByPosition(cs);
        if k.Some? {
          ActionableSound(cs[k.value]);
          NodesAllMember(cs, k.value);
        }
    }
  }

  /** The approvals of a member are approvals of its group. */
  lemma {:induction false} NodesAllMember(cs: seq<Approval>, k: nat)
    requires k < |cs|
    ensures forall n :: n in Nodes(cs[k]) ==> n in NodesAll(cs)
  {
    if k > 0 {
      NodesAllMember(cs[1..], k - 1);
    }
  }

  lemma {:induction false} ActionableAllSound(cs: seq<Approval>)
    ensures forall n :: n in ActionableAll(cs) ==> StatusOf(n) == Pending && n in NodesAll(cs)
  {
    if cs != [] {
      ActionableSound(cs[0]);
      ActionableAllSound(cs[1..]);
    }
  }

  /** Once every leaf is approved, no approval, leaf or group, is actionable. */
  lemma FullyApprovedNothingActionable(a: Approval)
    requires forall l :: l in Leaves(a) ==> l.status == Approved
    ensures ActionableNodes(a) == [] && ActionableLeaves(a) == []
  {
    StatusFromLeaves(a);
  }

  /** In a pending parallel group every pending member is actionable. */
  lemma {:induction false} ParallelMembersActionable(a: Approval)
    requires a.Parallel? && StatusOf(a) == Pending
    ensures a in ActionableNodes(a)
    ensures forall i :: 0 <= i < |a.children| && StatusOf(a.children[i]) == Pending ==>
      a.children[i] in ActionableNodes(a)
  {
    PendingMembersInActionableAll(a.children);
  }

  lemma {:induction false} PendingMembersInActionableAll(cs: seq<Approval>)
    ensures forall i :: 0 <= i < |cs| && StatusOf(cs[i]) == Pending ==> cs[i] in ActionableAll(cs)
  {
    if cs != [] {
      PendingMembersInActionableAll(cs[1..]);
      assert forall i :: 1 <= i < |cs| ==> cs[i] == cs[1..][i - 1];
    }
  }

  /**
   * In a pending serial group only the first pending member by position acts:
   * the group's actionable approvals are the group and those of that one
   * member.
   */
  lemma SerialFirstPendingOnly(a: Approval, k: nat)
    requires a.Serial? && LeadsByPosition(a.children, k)
    ensures StatusOf(a) == Pending ==> ActionableNodes(a) == [a] + ActionableNodes(a.children[k])
  {
    var f := FirstPendingByPosition(a.children);
    assert f.Some?;
    LeaderUnique(a.children, f.value, k);
  }

  /** A pending leaf whose group lets it act. */
  predicate IsPendingLeaf(a: Approval)
  {
    a.Individual? && a.status == Pending
  }

  lemma {:induction false} PendingLeavesAllActionable(cs: seq<Approval>)
    requires forall i :: 0 <= i < |cs| ==> IsPendingLeaf(cs[i])
    ensures ActionableAll(cs) == cs
  {
    if cs != [] {
      PendingLeavesAllActionable(cs[1..]);
    }
  }

  /**
   * A parallel group of pending leaves: the group and all its leaves are
   * actionable, so there are one more actionable approvals than leaves.
   */
  lemma ParallelOfPendingLeaves(a: Approval)
    requires a.Parallel? && |a.children| >= 1
    requires forall i :: 0 <= i < |a.children| ==> IsPendingLeaf(a.children[i])
    ensures ActionableNodes(a) == [a] + a.children
    ensures ActionableLeaves(a) == a.children
  {
    var cs := a.children;
    GroupStatusRule(cs);
    assert StatusOf(cs[0]) == Pending;
    PendingLeavesAllActionable(cs);
    assert ActionableNodes(a) == [a] + cs;
    assert Individuals([a] + cs) == Individuals(cs) by {
      assert ([a] + cs)[1..] == cs;
    }
    IndividualsOfLeaves(cs);
  }

  lemma {:induction false} IndividualsOfLeaves(ns: seq<Approval>)
    requires forall i :: 0 <= i < |ns| ==> ns[i].Individual?
    ensures Individuals(ns) == ns
  {
    if ns != [] {
      IndividualsOfLeaves(ns[1..]);
    }
  }

  /**
   * A serial group of leaves whose first k leaves are approved and the rest
   * pending, none of them before the (k+1)-th by position: exactly the group
   * and that leaf are actionable.
   */
  lemma SerialOfLeaves(a: Approval, k: nat)
    requires a.Serial? && k < |a.children|
    requires forall j :: k < j < |a.children| ==> a.children[k].position <= a.children[j].position
    requires forall i :: 0 <= i < |a.children| ==> a.children[i].Individual?
    requires forall i :: 0 <= i < k ==> a.children[i].status == Approved
    requires forall i :: k <= i < |a.children| ==> a.children[i].status == Pending
    ensures ActionableNodes(a) == [a, a.children[k]]
    ensures ActionableLeaves(a) == [a.children[k]]
  {
    var cs := a.children;
    GroupStatusRule(cs);
    assert StatusOf(cs[k]) == Pending;
    assert StatusOf(a) == Pending;
    assert LeadsByPosition(cs, k);
    SerialFirstPendingOnly(a, k);
    assert ActionableNodes(a) == [a, cs[k]];
    assert [a, cs[k]][1..] == [cs[k]];
  }

  /* ---------------------------------------------------------------------- */
  /* Ordering by position                                                    */
  /* ---------------------------------------------------------------------- */

  predicate SortedByPosition(ns: seq<Approval>)
  {
    forall i, j :: 0 <= i < j < |ns| ==> ns[i].position <= ns[j].position
  }

  /** A lower bound on the positions of a list and of one more approval bounds any rearrangement of them. */
  lemma LowerBoundOfMultiset(p: int, x: Approval, ns: seq<Approval>, rest: seq<Approval>)
    requires p <= x.position
    requires forall i :: 0 <= i < |ns| ==> p <= ns[i].position
    requires multiset(rest) == multiset(ns) + multiset{x}
    ensures forall j :: 0 <= j < |rest| ==> p <= rest[j].position
  {
    forall j | 0 <= j < |rest| ensures p <= rest[j].position {
      assert rest[j] in multiset(rest);
      if rest[j] != x {
        assert rest[j] in multiset(ns);
        var i :| 0 <= i < |ns| && ns[i] == rest[j];
      }
    }
  }

  /** An approval placed before a sorted list it bounds from below keeps it sorted. */
  lemma ConsSorted(a: Approval, rest: seq<Approval>)
    requires SortedByPosition(rest)
    requires forall j :: 0 <= j < |rest| ==> a.position <= rest[j].position
    ensures SortedByPosition([a] + rest)
  {
    var r := [a] + rest;
    forall i, j | 0 <= i < j < |r| ensures r[i].position <= r[j].position {
      assert r[j] == rest[j - 1];
      if i > 0 {
        assert r[i] == rest[i - 1];
      }
    }
  }

  /** Inserts before the first approval with a position at least as large. */
  function InsertByPosition(x: Approval, ns: seq<Approval>): (r: seq<Approval>)
    requires SortedByPosition(ns)
    ensures SortedByPosition(r)
    ensures multiset(r) == multiset(ns) + multiset{x}
  {
    if ns == [] || x.position <= ns[0].position then
      ConsSorted(x, ns);
      [x] + ns
    else
      var rest := InsertByPosition(x, ns[1..]);
      LowerBoundOfMultiset(ns[0].position, x, ns[1..], rest);
      ConsSorted(ns[0], rest);
      assert ns == [ns[0]] + ns[1..];
      [ns[0]] + rest
  }

  /** `order(:position)`: a stable sort of approvals on their position. */
  function SortByPosition(ns: seq<Approval>): (r: seq<Approval>)
    ensures SortedByPosition(r)
    ensures multiset(r) == multiset(ns)
    ensures |r| == |ns|
  {
    if ns == [] then []
    else
      assert ns == [ns[0]] + ns[1..];
      InsertByPosition(ns[0], SortByPosition(ns[1..]))
  }

  /** A list already in position order is left as it is (the sort is stable). */
  lemma {:induction false} SortKeepsSorted(ns: seq<Approval>)
    requires SortedByPosition(ns)
    ensures SortByPosition(ns) == ns
  {
    if ns != [] {
      SortKeepsSorted(ns[1..]);
      assert ns == [ns[0]] + ns[1..];
    }
  }

  /** The approvals of a list that sit at position `p`, in their order in the list. */
  function AtPosition(ns: seq<Approval>, p: int): seq<Approval>
  {
    if ns == [] then []
    else (if ns[0].position == p then [ns[0]] else []) + AtPosition(ns[1..], p)
  }

  /** Selecting by position from a list with one more approval in front. */
  lemma AtPositionCons(a: Approval, rest: seq<Approval>, p: int)
    ensures AtPosition([a] + rest, p) == (if a.position == p then [a] else []) + AtPosition(rest, p)
  {
    assert ([a] + rest)[1..] == rest;
  }

  /** Inserting places the new approval ahead of those with the same position and keeps their order. */
  lemma {:induction false} InsertAtPosition(x: Approval, ns: seq<Approval>, p: int)
    requires SortedByPosition(ns)
    ensures AtPosition(InsertByPosition(x, ns), p) ==
      (if x.position == p then [x] else []) + AtPosition(ns, p)
  {
    if ns == [] || x.position <= ns[0].position {
      AtPositionCons(x, ns, p);
    } else {
      InsertAtPosition(x, ns[1..], p);
      AtPositionCons(ns[0], InsertByPosition(x, ns[1..]), p);
    }
  }

  /**
   * The sort is stable: the approvals sharing any one position come out in
   * the order they went in.
   */
  lemma {:induction false} SortStable(ns: seq<Approval>, p: int)
    ensures AtPosition(SortByPosition(ns), p) == AtPosition(ns, p)
  {
    if ns != [] {
      SortStable(ns[1..], p);
      InsertAtPosition(ns[0], SortByPosition(ns[1..]), p);
    }
  }

  /** The users of the approvals of a list, taken in position order. */
  function UsersByPosition(ns: seq<Approval>): seq<UserId>
    requires forall x :: x in ns ==> x.Individual?
  {
    var sorted := SortByPosition(ns);
    assert forall x :: x in sorted ==> x in multiset(ns);
    UsersOf(sorted)
  }
  /** The users by position are those of the leaves sorted by position, one for one. */
  lemma UsersByPositionAt(ns: seq<Approval>)
    requires forall x :: x in ns ==> x.Individual?
    ensures var sorted := SortByPosition(ns);
      |UsersByPosition(ns)| == |sorted| &&
      forall i :: 0 <= i < |sorted| ==> sorted[i].Individual? && UsersByPosition(ns)[i] == sorted[i].user
  {
    var sorted := SortByPosition(ns);
    forall i | 0 <= i < |sorted| ensures sorted[i].Individual? {
      assert sorted[i] in multiset(ns);
    }
    UsersOfAt(sorted);
  }


  /* ---------------------------------------------------------------------- */
  /* Identities                                                              */
  /* ---------------------------------------------------------------------- */

  /** The ids of every approval in the tree (the rows that exist). */
  function Ids(a: Approval): set<ApprovalId>
  {
    match a
    case Individual(id, _, _, _) => {id}
    case Serial(id, cs, _) => {id} + IdsAll(cs)
    case Parallel(id, cs, _) => {id} + IdsAll(cs)
  }

  function IdsAll(cs: seq<Approval>): set<ApprovalId>
  {
    if cs == [] then {} else Ids(cs[0]) + IdsAll(cs[1..])
  }

  /** An id belongs to a list of trees iff it belongs to one of them. */
  lemma {:induction false} IdsAllMember(cs: seq<Approval>)
    ensures forall x :: x in IdsAll(cs) <==> exists i :: 0 <= i < |cs| && x in Ids(cs[i])
  {
    if cs != [] {
      IdsAllMember(cs[1..]);
      assert forall i :: 1 <= i < |cs| ==> cs[i] == cs[1..][i - 1];
      forall x | x in IdsAll(cs) && x !in Ids(cs[0])
        ensures exists i :: 0 <= i < |cs| && x in Ids(cs[i])
      {
        assert x in IdsAll(cs[1..]);
        var i :| 0 <= i < |cs[1..]| && x in Ids(cs[1..][i]);
        assert x in Ids(cs[i + 1]);
      }
    }
  }

  /** No two approvals of the tree share an id. */
  predicate UniqueIds(a: Approval)
  {
    a.Individual? ||
    (a.id !in IdsAll(a.children)
     && (forall i :: 0 <= i < |a.children| ==> UniqueIds(a.children[i]))
     && (forall i, j :: 0 <= i < j < |a.children| ==> Ids(a.children[i]) !! Ids(a.children[j])))
  }

  /** Every id of the tree is below `next`, the first id not yet handed out. */
  predicate IdsBelow(a: Approval, next: ApprovalId)
  {
    forall x :: x in Ids(a) ==> x < next
  }

  /* ---------------------------------------------------------------------- */
  /* Paths                                                                   */
  /* ---------------------------------------------------------------------- */

  /** The approval reached from `a` by taking, at each level, the member with the given index. */
  function Lookup(a: Approval, path: seq<nat>): Option<Approval>
    decreases |path|
  {
    if path == [] then Some(a)
    else if a.Individual? || path[0] >= |a.children| then None
    else Lookup(a.children[path[0]], path[1..])
  }

  /** What a path reaches is an approval of the tree. */
  lemma {:induction false} LookupInIds(a: Approval, path: seq<nat>)
    requires Lookup(a, path).Some?
    ensures Lookup(a, path).value.id in Ids(a)
    decreases |path|
  {
    if path != [] {
      LookupInIds(a.children[path[0]], path[1..]);
      IdsAllMember(a.children);
    }
  }

  /** Every approval of the tree is reached by some path. */
  lemma {:induction false} IdHasPath(a: Approval, x: ApprovalId)
    requires x in Ids(a)
    ensures exists path :: Lookup(a, path).Some? && Lookup(a, path).value.id == x
  {
    if x == a.id {
      assert Lookup(a, []) == Some(a);
    } else {
      IdsAllMember(a.children);
      var i :| 0 <= i < |a.children| && x in Ids(a.children[i]);
      IdHasPath(a.children[i], x);
      var p :| Lookup(a.children[i], p).Some? && Lookup(a.children[i], p).value.id == x;
      assert ([i] + p)[1..] == p;
      assert Lookup(a, [i] + p) == Lookup(a.children[i], p);
    }
  }

  /** With unique ids, an id determines the path that reaches it. */
  lemma {:induction false} PathOfIdUnique(a: Approval, p: seq<nat>, q: seq<nat>)
    requires UniqueIds(a)
    requires Lookup(a, p).Some? && Lookup(a, q).Some?
    requires Lookup(a, p).value.id == Lookup(a, q).value.id
    ensures p == q
    decreases |p|
  {
    if p == [] && q != [] {
      LookupInIds(a.children[q[0]], q[1..]);
      IdsAllMember(a.children);
    } else if p != [] && q == [] {
      LookupInIds(a.children[p[0]], p[1..]);
      IdsAllMember(a.children);
    } else if p != [] && q != [] {
      LookupInIds(a.children[p[0]], p[1..]);
      LookupInIds(a.children[q[0]], q[1..]);
      if p[0] == q[0] {
        PathOfIdUnique(a.children[p[0]], p[1..], q[1..]);
        assert p == [p[0]] + p[1..] && q == [q[0]] + q[1..];
      }
    }
  }

  /* ---------------------------------------------------------------------- */
  /* Updating one approval                                                   */
  /* ---------------------------------------------------------------------- */

  /** An update of one stored approval: `approve!` or `update_attribute(:position, ..)`. */
  datatype Patch = SetStatus(status: Status) | SetPosition(position: int)

  /** One approval with the patch applied to its own fields; a status only goes to a leaf. */
  function Applied(a: Approval, patch: Patch): (r: Approval)
    ensures r.id == a.id && r.Individual? == a.Individual?
    ensures !a.Individual? ==> r.children == a.children
    ensures patch.SetPosition? ==> r.position == patch.position && (a.Individual? ==> r.status == a.status)
    ensures patch.SetStatus? ==> r.position == a.position && (a.Individual? ==> r.status == patch.status)
    ensures a.Individual? ==> r.user == a.user
  {
    match patch
    case SetPosition(q) => a.(position := q)
    case SetStatus(s) => if a.Individual? then a.(status := s) else a
  }

  /** The tree with the approval `id` patched. */
  function Patched(a: Approval, id: ApprovalId, patch: Patch): Approval
  {
    if a.id == id then Applied(a, patch)
    else
      match a
      case Individual(_, _, _, _) => a
      case Serial(i, cs, q) => Serial(i, seq(|cs|, k requires 0 <= k < |cs| => Patched(cs[k], id, patch)), q)
      case Parallel(i, cs, q) => Parallel(i, seq(|cs|, k requires 0 <= k < |cs| => Patched(cs[k], id, patch)), q)
  }

  /** Lists of trees with the same ids member by member have the same ids. */
  lemma {:induction false} IdsAllPointwise(cs: seq<Approval>, ds: seq<Approval>)
    requires |cs| == |ds|
    requires forall i :: 0 <= i < |cs| ==> Ids(cs[i]) == Ids(ds[i])
    ensures IdsAll(cs) == IdsAll(ds)
  {
    if cs != [] {
      IdsAllPointwise(cs[1..], ds[1..]);
    }
  }

  /** Patching keeps every approval (the same ids) and keeps them unique. */
  lemma {:induction false} PatchKeepsIds(a: Approval, id: ApprovalId, patch: Patch)
    ensures Ids(Patched(a, id, patch)) == Ids(a)
    ensures UniqueIds(a) ==> UniqueIds(Patched(a, id, patch))
  {
    if a.id != id && !a.Individual? {
      var cs := a.children;
      var ms := Patched(a, id, patch).children;
      forall k | 0 <= k < |cs| ensures Ids(ms[k]) == Ids(cs[k]) && (UniqueIds(cs[k]) ==> UniqueIds(ms[k])) {
        PatchKeepsIds(cs[k], id, patch);
      }
      IdsAllPointwise(ms, cs);
    }
  }

  /** Patching an id that is not in the tree changes nothing. */
  lemma {:induction false} PatchAbsent(a: Approval, id: ApprovalId, patch: Patch)
    requires id !in Ids(a)
    ensures Patched(a, id, patch) == a
  {
    if !a.Individual? {
      var cs := a.children;
      IdsAllMember(cs);
      forall k | 0 <= k < |cs| ensures Patched(cs[k], id, patch) == cs[k] {
        PatchAbsent(cs[k], id, patch);
      }
      assert seq(|cs|, k requires 0 <= k < |cs| => Patched(cs[k], id, patch)) == cs;
    }
  }

  /** The approvals below a place are approvals of the tree. */
  lemma {:induction false} LookupIdsWithin(a: Approval, path: seq<nat>)
    requires Lookup(a, path).Some?
    ensures Ids(Lookup(a, path).value) <= Ids(a)
    decreases |path|
  {
    if path != [] {
      LookupIdsWithin(a.children[path[0]], path[1..]);
      IdsAllMember(a.children);
    }
  }

  /** Patching a tree patches whatever sits at each place of it. */
  lemma {:induction false} LookupPatched(a: Approval, id: ApprovalId, patch: Patch, path: seq<nat>)
    requires UniqueIds(a) && Lookup(a, path).Some?
    ensures Lookup(Patched(a, id, patch), path) == Some(Patched(Lookup(a, path).value, id, patch))
    decreases |path|
  {
    if path != [] {
      var c := a.children[path[0]];
      if a.id == id {
        IdsAllMember(a.children);
        LookupIdsWithin(c, path[1..]);
        PatchAbsent(Lookup(c, path[1..]).value, id, patch);
      } else {
        LookupPatched(c, id, patch, path[1..]);
      }
    }
  }

  /** The approval `x` has the same own fields as `y` (its members may differ). */
  predicate SameRecord(x: Approval, y: Approval)
  {
    x.id == y.id && x.position == y.position && x.Individual? == y.Individual? &&
    (y.Individual? ==> x.user == y.user && x.status == y.status)
  }

  /**
   * `approve!` or `update_attribute` on the approval at place `p` changes that
   * approval's own field and nothing else: every approval at another place keeps
   * its id, position, user and decision.
   */
  lemma PatchOneApproval(a: Approval, patch: Patch, p: seq<nat>)
    requires UniqueIds(a) && Lookup(a, p).Some?
    ensures Lookup(Patched(a, Lookup(a, p).value.id, patch), p) == Some(Applied(Lookup(a, p).value, patch))
    ensures forall q :: Lookup(a, q).Some? && q != p ==>
      Lookup(Patched(a, Lookup(a, p).value.id, patch), q).Some? &&
      SameRecord(Lookup(Patched(a, Lookup(a, p).value.id, patch), q).value, Lookup(a, q).value)
  {
    var id := Lookup(a, p).value.id;
    LookupPatched(a, id, patch, p);
    forall q | Lookup(a, q).Some? && q != p
      ensures Lookup(Patched(a, id, patch), q).Some? &&
        SameRecord(Lookup(Patched(a, id, patch), q).value, Lookup(a, q).value)
    {
      LookupPatched(a, id, patch, q);
      if Lookup(a, q).value.id == id {
        PathOfIdUnique(a, p, q);
      }
    }
  }
}
