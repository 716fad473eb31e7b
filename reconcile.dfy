/**
 * `Proposal#root_approval=`: merging a submitted approval tree into the
 * stored one.
 *
 * Matching is by place. Starting at the root, a submitted approval is matched
 * with the stored approval at the same place (the same sequence of member
 * indices) when both are leaves for the same user, or both are serial groups,
 * or both are parallel groups, and every group above them matched too. A
 * matched stored approval is kept with its id and, for a leaf, its decision; an
 * unmatched submitted approval is created fresh (a leaf as pending); a stored
 * approval that nothing matched is deleted. A user who appears twice is
 * matched place by place like any other, so there is no tie to break.
 * Afterwards every approval's position is its index in the pre-order list of
 * the new tree, counted from the given start (1 for a root).
 */
module Reconcile {
  import opened Wrappers
  import opened ApprovalTree

  /** A submitted tree, built with `Approvals::Individual.new(user: ..)` and friends, not yet stored. */
  datatype Desired =
    | NewIndividual(user: UserId)
    | NewSerial(children: seq<Desired>)
    | NewParallel(children: seq<Desired>)

  /** A submitted tree is accepted only if every group has a member. */
  predicate WellFormed(d: Desired)
  {
    d.NewIndividual? ||
    (|d.children| > 0 && forall i :: 0 <= i < |d.children| ==> WellFormed(d.children[i]))
  }

  /** The number of approvals a submitted tree stands for. */
  function Size(d: Desired): nat
  {
    match d
    case NewIndividual(_) => 1
    case NewSerial(ds) => 1 + SizeAll(ds)
    case NewParallel(ds) => 1 + SizeAll(ds)
  }

  function SizeAll(ds: seq<Desired>): nat
  {
    if ds == [] then 0 else Size(ds[0]) + SizeAll(ds[1..])
  }

  /** The submitted tree a stored tree looks like: kinds, nesting and users, without ids, decisions or positions. */
  function Shape(a: Approval): Desired
  {
    match a
    case Individual(_, u, _, _) => NewIndividual(u)
    case Serial(_, cs, _) => NewSerial(ShapeAll(cs))
    case Parallel(_, cs, _) => NewParallel(ShapeAll(cs))
  }

  function ShapeAll(cs: seq<Approval>): (ds: seq<Desired>)
    ensures |ds| == |cs| && forall i :: 0 <= i < |cs| ==> ds[i] == Shape(cs[i])
  {
    if cs == [] then [] else [Shape(cs[0])] + ShapeAll(cs[1..])
  }

  /** A stored approval and a submitted one at the same place match when they are the same kind (and user). */
  predicate SameKind(a: Approval, d: Desired)
  {
    match d
    case NewIndividual(u) => a.Individual? && a.user == u
    case NewSerial(_) => a.Serial?
    case NewParallel(_) => a.Parallel?
  }

  /** The stored approval and the submitted one at `path` match, and so does every group above them. */
  predicate Agree(a: Approval, d: Desired, path: seq<nat>)
    decreases |path|
  {
    SameKind(a, d) &&
    (path != [] ==>
      !a.Individual? && !d.NewIndividual? && path[0] < |a.children| && path[0] < |d.children| &&
      Agree(a.children[path[0]], d.children[path[0]], path[1..]))
  }

  /** The submitted approval reached by taking, at each level, the member with the given index. */
  function DLookup(d: Desired, path: seq<nat>): Option<Desired>
    decreases |path|
  {
    if path == [] then Some(d)
    else if d.NewIndividual? || path[0] >= |d.children| then None
    else DLookup(d.children[path[0]], path[1..])
  }

  function Head(ps: seq<Approval>): Option<Approval>
  {
    if ps == [] then None else Some(ps[0])
  }

  function Tail(ps: seq<Approval>): seq<Approval>
  {
    if ps == [] then [] else ps[1..]
  }

  /** The stored member with index i of a group, if there is one. */
  function Nth(ps: seq<Approval>, i: nat): Option<Approval>
  {
    if i < |ps| then Some(ps[i]) else None
  }

  /**
   * Merges the submitted `d` into `stored` (None where nothing is stored at this
   * place). `next` is the first id not handed out yet and `pos` the position of
   * this approval. Returns the approval to store and the next unused id.
   */
  function Merge(stored: Option<Approval>, d: Desired, next: ApprovalId, pos: int): (Approval, ApprovalId)
    decreases d
  {
    match d
    case NewIndividual(u) =>
      if stored.Some? && SameKind(stored.value, d) then (Individual(stored.value.id, u, stored.value.status, pos), next)
      else (Individual(next, u, Pending, pos), next + 1)
    case NewSerial(ds) =>
      if stored.Some? && SameKind(stored.value, d) then
        var (cs, n) := MergeAll(stored.value.children, ds, next, pos + 1);
        (Serial(stored.value.id, cs, pos), n)
      else
        var (cs, n) := MergeAll([], ds, next + 1, pos + 1);
        (Serial(next, cs, pos), n)
    case NewParallel(ds) =>
      if stored.Some? && SameKind(stored.value, d) then
        var (cs, n) := MergeAll(stored.value.children, ds, next, pos + 1);
        (Parallel(stored.value.id, cs, pos), n)
      else
        var (cs, n) := MergeAll([], ds, next + 1, pos + 1);
        (Parallel(next, cs, pos), n)
  }

  /** Merges the submitted members `ds` of a group into the stored members `ps`, place by place. */
  function MergeAll(ps: seq<Approval>, ds: seq<Desired>, next: ApprovalId, pos: int): (r: (seq<Approval>, ApprovalId))
    ensures |r.0| == |ds|
    decreases ds
  {
    if ds == [] then ([], next)
    else
      var (c, n1) := Merge(Head(ps), ds[0], next, pos);
      var (cs, n2) := MergeAll(Tail(ps), ds[1..], n1, pos + Size(ds[0]));
      ([c] + cs, n2)
  }

  /* ---------------------------------------------------------------------- */
  /* The merged tree has the submitted shape                                 */
  /* ---------------------------------------------------------------------- */

  /** Whatever was stored, the merged tree has exactly the submitted kinds, nesting and users. */
  lemma {:induction false} MergeShape(stored: Option<Approval>, d: Desired, next: ApprovalId, pos: int)
    ensures Shape(Merge(stored, d, next, pos).0) == d
    decreases d
  {
    match d
    case NewIndividual(u) =>
    case NewSerial(ds) =>
      if stored.Some? && SameKind(stored.value, d) {
        MergeAllShape(stored.value.children, ds, next, pos + 1);
      } else {
        MergeAllShape([], ds, next + 1, pos + 1);
      }
    case NewParallel(ds) =>
      if stored.Some? && SameKind(stored.value, d) {
        MergeAllShape(stored.value.children, ds, next, pos + 1);
      } else {
        MergeAllShape([], ds, next + 1, pos + 1);
      }
  }

  lemma {:induction false} MergeAllShape(ps: seq<Approval>, ds: seq<Desired>, next: ApprovalId, pos: int)
    ensures ShapeAll(MergeAll(ps, ds, next, pos).0) == ds
    decreases ds
  {
    if ds != [] {
      var (c, n1) := Merge(Head(ps), ds[0], next, pos);
      MergeShape(Head(ps), ds[0], next, pos);
      MergeAllShape(Tail(ps), ds[1..], n1, pos + Size(ds[0]));
      assert ds == [ds[0]] + ds[1..];
    }
  }

  /** A tree has as many approvals as its shape stands for. */
  lemma {:induction false} NodeCountIsSize(a: Approval)
    ensures |Nodes(a)| == Size(Shape(a))
  {
    match a
    case Individual(_, _, _, _) =>
    case Serial(_, cs, _) => NodeCountIsSizeAll(cs);
    case Parallel(_, cs, _) => NodeCountIsSizeAll(cs);
  }

  lemma {:induction false} NodeCountIsSizeAll(cs: seq<Approval>)
    ensures |NodesAll(cs)| == SizeAll(ShapeAll(cs))
  {
    if cs != [] {
      NodeCountIsSize(cs[0]);
      NodeCountIsSizeAll(cs[1..]);
      assert ShapeAll(cs)[1..] == ShapeAll(cs[1..]);
    }
  }

  /** A place of the shape is a place of the tree, holding an approval of that shape. */
  lemma {:induction false} LookupShape(a: Approval, path: seq<nat>)
    requires DLookup(Shape(a), path).Some?
    ensures Lookup(a, path).Some? && Shape(Lookup(a, path).value) == DLookup(Shape(a), path).value
    decreases |path|
  {
    if path != [] {
      LookupShape(a.children[path[0]], path[1..]);
    }
  }

  /* ---------------------------------------------------------------------- */
  /* Member by member                                                        */
  /* ---------------------------------------------------------------------- */

  /** The i-th merged member is the merge of the i-th submitted member with the i-th stored one, if any. */
  lemma {:induction false} MergeAllAt(ps: seq<Approval>, ds: seq<Desired>, next: ApprovalId, pos: int, i: nat)
    requires i < |ds|
    ensures |MergeAll(ps, ds, next, pos).0| == |ds|
    ensures exists n: ApprovalId, q: int ::
      (next <= n && MergeAll(ps, ds, next, pos).0[i] == Merge(Nth(ps, i), ds[i], n, q).0)
    decreases ds
  {
    var (c, n1) := Merge(Head(ps), ds[0], next, pos);
    MergeCounter(Head(ps), ds[0], next, pos);
    var rest := MergeAll(Tail(ps), ds[1..], n1, pos + Size(ds[0])).0;
    assert MergeAll(ps, ds, next, pos).0 == [c] + rest;
    if i == 0 {
      assert ([c] + rest)[0] == Merge(Nth(ps, 0), ds[0], next, pos).0;
    } else {
      MergeAllAt(Tail(ps), ds[1..], n1, pos + Size(ds[0]), i - 1);
      var n: ApprovalId, q: int :| n1 <= n && rest[i - 1] == Merge(Nth(Tail(ps), i - 1), ds[1..][i - 1], n, q).0;
      assert Nth(Tail(ps), i - 1) == Nth(ps, i) && ds[1..][i - 1] == ds[i];
      assert ([c] + rest)[i] == rest[i - 1];
    }
  }

  /** Merging never hands back an id below the one it started from. */
  lemma {:induction false} MergeCounter(stored: Option<Approval>, d: Desired, next: ApprovalId, pos: int)
    ensures next <= Merge(stored, d, next, pos).1
    decreases d
  {
    match d
    case NewIndividual(u) =>
    case NewSerial(ds) =>
      if stored.Some? && SameKind(stored.value, d) {
        MergeAllCounter(stored.value.children, ds, next, pos + 1);
      } else {
        MergeAllCounter([], ds, next + 1, pos + 1);
      }
    case NewParallel(ds) =>
      if stored.Some? && SameKind(stored.value, d) {
        MergeAllCounter(stored.value.children, ds, next, pos + 1);
      } else {
        MergeAllCounter([], ds, next + 1, pos + 1);
      }
  }

  lemma {:induction false} MergeAllCounter(ps: seq<Approval>, ds: seq<Desired>, next: ApprovalId, pos: int)
    ensures next <= MergeAll(ps, ds, next, pos).1
    decreases ds
  {
    if ds != [] {
      var (c, n1) := Merge(Head(ps), ds[0], next, pos);
      MergeCounter(Head(ps), ds[0], next, pos);
      MergeAllCounter(Tail(ps), ds[1..], n1, pos + Size(ds[0]));
    }
  }

  /* ---------------------------------------------------------------------- */
  /* Decisions are kept, unmatched approvals are fresh or deleted            */
  /* ---------------------------------------------------------------------- */

  /** The merged approval `x` is the stored approval `y` kept: same id, and for a leaf the same user and decision. */
  predicate SameDecision(x: Approval, y: Approval)
  {
    x.id == y.id && x.Individual? == y.Individual? &&
    (y.Individual? ==> x.user == y.user && x.status == y.status)
  }

  /** A stored approval whose place matches the submitted tree is kept, with its decision. */
  lemma {:induction false} MergeKeepsMatched(stored: Approval, d: Desired, next: ApprovalId, pos: int, path: seq<nat>)
    requires Agree(stored, d, path)
    ensures Lookup(stored, path).Some?
    ensures Lookup(Merge(Some(stored), d, next, pos).0, path).Some?
    ensures SameDecision(Lookup(Merge(Some(stored), d, next, pos).0, path).value, Lookup(stored, path).value)
    decreases |path|
  {
    if path != [] {
      var i := path[0];
      var m := Merge(Some(stored), d, next, pos).0;
      var (ms, _) := MergeAll(stored.children, d.children, next, pos + 1);
      assert m.children == ms;
      MergeAllAt(stored.children, d.children, next, pos + 1, i);
      var n: ApprovalId, q: int :| next <= n && ms[i] == Merge(Nth(stored.children, i), d.children[i], n, q).0;
      MergeKeepsMatched(stored.children[i], d.children[i], n, q, path[1..]);
    }
  }

  /**
   * Every approval of the merged tree is either fresh (an id not used before,
   * and pending if it is a leaf) or the stored approval at the same place,
   * which matched, kept with its decision.
   */
  lemma {:induction false} MergeFreshOrKept(stored: Option<Approval>, d: Desired, next: ApprovalId, pos: int, path: seq<nat>)
    requires Lookup(Merge(stored, d, next, pos).0, path).Some?
    ensures var x := Lookup(Merge(stored, d, next, pos).0, path).value;
      (next <= x.id && (x.Individual? ==> x.status == Pending)) ||
      (stored.Some? && Agree(stored.value, d, path) && Lookup(stored.value, path).Some? &&
       SameDecision(x, Lookup(stored.value, path).value))
    decreases |path|
  {
    if path != [] {
      var i := path[0];
      var m := Merge(stored, d, next, pos).0;
      var kept := stored.Some? && SameKind(stored.value, d);
      var ps := if kept then stored.value.children else [];
      var start := if kept then next else next + 1;
      var (ms, _) := MergeAll(ps, d.children, start, pos + 1);
      assert m.children == ms;
      MergeAllAt(ps, d.children, start, pos + 1, i);
      var n: ApprovalId, q: int :| start <= n && ms[i] == Merge(Nth(ps, i), d.children[i], n, q).0;
      MergeFreshOrKept(Nth(ps, i), d.children[i], n, q, path[1..]);
    }
  }

  /** A stored approval whose place does not match the submitted tree no longer exists afterwards. */
  lemma MergeDeletesUnmatched(stored: Approval, d: Desired, next: ApprovalId, pos: int, path: seq<nat>)
    requires UniqueIds(stored) && IdsBelow(stored, next)
    requires Lookup(stored, path).Some? && !Agree(stored, d, path)
    ensures Lookup(stored, path).value.id !in Ids(Merge(Some(stored), d, next, pos).0)
  {
    var m := Merge(Some(stored), d, next, pos).0;
    var x := Lookup(stored, path).value.id;
    LookupInIds(stored, path);
    if x in Ids(m) {
      IdHasPath(m, x);
      var other :| Lookup(m, other).Some? && Lookup(m, other).value.id == x;
      MergeFreshOrKept(Some(stored), d, next, pos, other);
      PathOfIdUnique(stored, other, path);
    }
  }

  /** A submitted leaf that matches nothing stored is a pending leaf, so the merged tree is not approved. */
  lemma NewLeafReopens(stored: Option<Approval>, d: Desired, next: ApprovalId, pos: int, path: seq<nat>)
    requires DLookup(d, path).Some? && DLookup(d, path).value.NewIndividual?
    requires stored.None? || !Agree(stored.value, d, path)
    ensures StatusOf(Merge(stored, d, next, pos).0) != Approved
  {
    var m := Merge(stored, d, next, pos).0;
    MergeShape(stored, d, next, pos);
    LookupShape(m, path);
    MergeFreshOrKept(stored, d, next, pos, path);
    var x := Lookup(m, path).value;
    LookupLeafInLeaves(m, path);
    StatusFromLeaves(m);
  }

  /** The decisions held by a list of approvals. */
  function StatusSet(ns: seq<Approval>): set<Status>
  {
    set l | l in ns && l.Individual? :: l.status
  }

  lemma StatusSetConcat(xs: seq<Approval>, ys: seq<Approval>)
    ensures StatusSet(xs + ys) == StatusSet(xs) + StatusSet(ys)
  {
    assert forall l :: l in xs + ys <==> l in xs || l in ys;
  }

  /** The decisions held by the leaves of a tree. */
  function LeafStatuses(a: Approval): set<Status>
  {
    StatusSet(Leaves(a))
  }

  /** A merged leaf is pending or holds a decision that a stored leaf held: merging makes no decision. */
  lemma {:induction false} MergeDecisionsFromStored(stored: Option<Approval>, d: Desired, next: ApprovalId, pos: int)
    ensures LeafStatuses(Merge(stored, d, next, pos).0) <=
      {Pending} + (if stored.Some? then LeafStatuses(stored.value) else {})
    decreases d
  {
    var m := Merge(stored, d, next, pos).0;
    if !d.NewIndividual? {
      var kept := stored.Some? && SameKind(stored.value, d);
      var ps := if kept then stored.value.children else [];
      var start := if kept then next else next + 1;
      MergeAllDecisions(ps, d.children, start, pos + 1);
      assert m.children == MergeAll(ps, d.children, start, pos + 1).0;
    }
  }

  lemma {:induction false} MergeAllDecisions(ps: seq<Approval>, ds: seq<Desired>, next: ApprovalId, pos: int)
    ensures StatusSet(LeavesAll(MergeAll(ps, ds, next, pos).0)) <= {Pending} + StatusSet(LeavesAll(ps))
    decreases ds
  {
    if ds != [] {
      var (c, n1) := Merge(Head(ps), ds[0], next, pos);
      var rest := MergeAll(Tail(ps), ds[1..], n1, pos + Size(ds[0])).0;
      var stored := StatusSet(LeavesAll(ps));
      assert StatusSet(LeavesAll(MergeAll(ps, ds, next, pos).0)) == StatusSet(Leaves(c)) + StatusSet(LeavesAll(rest)) by {
        assert MergeAll(ps, ds, next, pos).0 == [c] + rest;
        assert ([c] + rest)[1..] == rest;
        assert LeavesAll([c] + rest) == Leaves(c) + LeavesAll(rest);
        StatusSetConcat(Leaves(c), LeavesAll(rest));
      }
      assert StatusSet(LeavesAll(Tail(ps))) <= stored by {
        if ps != [] {
          assert LeavesAll(ps) == Leaves(ps[0]) + LeavesAll(ps[1..]);
          StatusSetConcat(Leaves(ps[0]), LeavesAll(ps[1..]));
        }
      }
      assert StatusSet(Leaves(c)) <= {Pending} + stored by {
        MergeDecisionsFromStored(Head(ps), ds[0], next, pos);
        if ps != [] {
          assert LeavesAll(ps) == Leaves(ps[0]) + LeavesAll(ps[1..]);
          StatusSetConcat(Leaves(ps[0]), LeavesAll(ps[1..]));
        }
      }
      MergeAllDecisions(Tail(ps), ds[1..], n1, pos + Size(ds[0]));
    }
  }

  /** A leaf reached by a path is one of the tree's leaves. */
  lemma {:induction false} LookupLeafInLeaves(a: Approval, path: seq<nat>)
    requires Lookup(a, path).Some? && Lookup(a, path).value.Individual?
    ensures Lookup(a, path).value in Leaves(a)
    decreases |path|
  {
    if path != [] {
      LookupLeafInLeaves(a.children[path[0]], path[1..]);
      LeavesAllMember(a.children, path[0]);
    }
  }

  lemma {:induction false} LeavesAllMember(cs: seq<Approval>, i: nat)
    requires i < |cs|
    ensures forall l :: l in Leaves(cs[i]) ==> l in LeavesAll(cs)
  {
    if i > 0 {
      LeavesAllMember(cs[1..], i - 1);
    }
  }

  /* ---------------------------------------------------------------------- */
  /* Ids stay unique                                                         */
  /* ---------------------------------------------------------------------- */

  /** Every member of the list has unique ids. */
  predicate AllUnique(ps: seq<Approval>)
  {
    forall i :: 0 <= i < |ps| ==> UniqueIds(ps[i])
  }

  /** No two members of the list share an id. */
  predicate Disjoint(ps: seq<Approval>)
  {
    forall i, j :: 0 <= i < j < |ps| ==> Ids(ps[i]) !! Ids(ps[j])
  }

  /** The members of a group have unique ids, pairwise apart, all below `next`. */
  predicate UniqueMembers(ps: seq<Approval>, next: ApprovalId)
  {
    AllUnique(ps) && Disjoint(ps) && forall x :: x in IdsAll(ps) ==> x < next
  }

  lemma TailMembers(ps: seq<Approval>, next: ApprovalId, later: ApprovalId)
    requires ps != [] && UniqueMembers(ps, next) && next <= later
    ensures UniqueMembers(ps[1..], later)
    ensures UniqueIds(ps[0]) && IdsBelow(ps[0], next)
    ensures Ids(ps[0]) !! IdsAll(ps[1..])
  {
    assert IdsAll(ps) == Ids(ps[0]) + IdsAll(ps[1..]);
    assert forall i :: 0 <= i < |ps[1..]| ==> ps[1..][i] == ps[i + 1];
    IdsAllMember(ps[1..]);
  }

  lemma ConsMembers(c: Approval, rest: seq<Approval>)
    requires UniqueIds(c) && AllUnique(rest) && Disjoint(rest) && Ids(c) !! IdsAll(rest)
    ensures AllUnique([c] + rest) && Disjoint([c] + rest)
    ensures IdsAll([c] + rest) == Ids(c) + IdsAll(rest)
  {
    IdsAllMember(rest);
    var ms := [c] + rest;
    assert ms[1..] == rest;
    forall i, j | 0 <= i < j < |ms| ensures Ids(ms[i]) !! Ids(ms[j]) {
      assert ms[j] == rest[j - 1];
      if i == 0 {
        assert forall x :: x in Ids(rest[j - 1]) ==> x in IdsAll(rest);
      } else {
        assert ms[i] == rest[i - 1];
      }
    }
  }

  /**
   * The merged tree has unique ids, each one either a stored id or a fresh id
   * from `next` up to the returned counter.
   */
  lemma {:induction false} MergeIds(stored: Option<Approval>, d: Desired, next: ApprovalId, pos: int)
    requires stored.Some? ==> UniqueIds(stored.value) && IdsBelow(stored.value, next)
    ensures var (m, n) := Merge(stored, d, next, pos);
      next <= n && UniqueIds(m) &&
      forall x :: x in Ids(m) ==> (stored.Some? && x in Ids(stored.value)) || next <= x < n
    decreases d
  {
    match d
    case NewIndividual(u) =>
    case NewSerial(ds) => MergeGroupIds(stored, d, next, pos);
    case NewParallel(ds) => MergeGroupIds(stored, d, next, pos);
  }

  lemma {:induction false} MergeGroupIds(stored: Option<Approval>, d: Desired, next: ApprovalId, pos: int)
    requires !d.NewIndividual?
    requires stored.Some? ==> UniqueIds(stored.value) && IdsBelow(stored.value, next)
    ensures var (m, n) := Merge(stored, d, next, pos);
      next <= n && UniqueIds(m) &&
      forall x :: x in Ids(m) ==> (stored.Some? && x in Ids(stored.value)) || next <= x < n
    decreases d, 0
  {
    var kept := stored.Some? && SameKind(stored.value, d);
    var ps := if kept then stored.value.children else [];
    var start := if kept then next else next + 1;
    var (m, n) := Merge(stored, d, next, pos);
    var (ms, n2) := MergeAll(ps, d.children, start, pos + 1);
    assert m.children == ms && n == n2;
    if kept {
      assert Ids(stored.value) == {stored.value.id} + IdsAll(ps);
    }
    MergeAllIds(ps, d.children, start, pos + 1);
    assert Ids(m) == {m.id} + IdsAll(ms);
    assert m.id == if kept then stored.value.id else next;
    assert kept ==> m.id !in IdsAll(ps);
  }

  lemma {:induction false} MergeAllIds(ps: seq<Approval>, ds: seq<Desired>, next: ApprovalId, pos: int)
    requires UniqueMembers(ps, next)
    ensures var (ms, n) := MergeAll(ps, ds, next, pos);
      next <= n && AllUnique(ms) && Disjoint(ms) &&
      forall x :: x in IdsAll(ms) ==> x in IdsAll(ps) || next <= x < n
    decreases ds
  {
    if ds != [] {
      var (c, n1) := Merge(Head(ps), ds[0], next, pos);
      if ps != [] {
        MergeCounter(Head(ps), ds[0], next, pos);
        TailMembers(ps, next, n1);
        assert IdsAll(ps) == Ids(ps[0]) + IdsAll(ps[1..]);
      }
      MergeIds(Head(ps), ds[0], next, pos);
      var (rest, n2) := MergeAll(Tail(ps), ds[1..], n1, pos + Size(ds[0]));
      MergeAllIds(Tail(ps), ds[1..], n1, pos + Size(ds[0]));
      assert Ids(c) !! IdsAll(rest);
      ConsMembers(c, rest);
      assert MergeAll(ps, ds, next, pos) == ([c] + rest, n2);
    }
  }


  /* ---------------------------------------------------------------------- */
  /* Positions                                                               */
  /* ---------------------------------------------------------------------- */

  /** Every approval's position is `start` plus its index in the tree's pre-order list. */
  predicate Numbered(a: Approval, start: int)
  {
    a.position == start && (!a.Individual? ==> NumberedAll(a.children, start + 1))
  }

  predicate NumberedAll(cs: seq<Approval>, start: int)
  {
    cs == [] || (Numbered(cs[0], start) && NumberedAll(cs[1..], start + |Nodes(cs[0])|))
  }

  /** Merging numbers the new tree in pre-order from the given position. */
  lemma {:induction false} MergeNumbered(stored: Option<Approval>, d: Desired, next: ApprovalId, pos: int)
    ensures Numbered(Merge(stored, d, next, pos).0, pos)
    decreases d
  {
    match d
    case NewIndividual(u) =>
    case NewSerial(ds) =>
      if stored.Some? && SameKind(stored.value, d) {
        MergeAllNumbered(stored.value.children, ds, next, pos + 1);
      } else {
        MergeAllNumbered([], ds, next + 1, pos + 1);
      }
    case NewParallel(ds) =>
      if stored.Some? && SameKind(stored.value, d) {
        MergeAllNumbered(stored.value.children, ds, next, pos + 1);
      } else {
        MergeAllNumbered([], ds, next + 1, pos + 1);
      }
  }

  lemma {:induction false} MergeAllNumbered(ps: seq<Approval>, ds: seq<Desired>, next: ApprovalId, pos: int)
    ensures NumberedAll(MergeAll(ps, ds, next, pos).0, pos)
    decreases ds
  {
    if ds != [] {
      var (c, n1) := Merge(Head(ps), ds[0], next, pos);
      MergeNumbered(Head(ps), ds[0], next, pos);
      MergeShape(Head(ps), ds[0], next, pos);
      NodeCountIsSize(c);
      MergeAllNumbered(Tail(ps), ds[1..], n1, pos + Size(ds[0]));
      var (rest, _) := MergeAll(Tail(ps), ds[1..], n1, pos + Size(ds[0]));
      assert ([c] + rest)[1..] == rest;
    }
  }

  /** Positions strictly increase along the list and lie in [lo, hi). */
  predicate Increasing(ns: seq<Approval>, lo: int, hi: int)
  {
    (forall i, j :: 0 <= i < j < |ns| ==> ns[i].position < ns[j].position) &&
    (forall i :: 0 <= i < |ns| ==> lo <= ns[i].position < hi)
  }

  lemma IncreasingConcat(xs: seq<Approval>, ys: seq<Approval>, lo: int, mid: int, hi: int)
    requires lo <= mid <= hi
    requires Increasing(xs, lo, mid) && Increasing(ys, mid, hi)
    ensures Increasing(xs + ys, lo, hi)
  {
    forall i | 0 <= i < |xs + ys| ensures lo <= (xs + ys)[i].position < hi {
      if i >= |xs| {
        assert (xs + ys)[i] == ys[i - |xs|];
      } else {
        assert (xs + ys)[i] == xs[i];
      }
    }
    forall i, j | 0 <= i < j < |xs + ys| ensures (xs + ys)[i].position < (xs + ys)[j].position {
      if j < |xs| {
      } else if i < |xs| {
        assert (xs + ys)[j] == ys[j - |xs|];
      } else {
        assert (xs + ys)[i] == ys[i - |xs|] && (xs + ys)[j] == ys[j - |xs|];
      }
    }
  }

  lemma IncreasingTail(ns: seq<Approval>, lo: int, hi: int)
    requires ns != [] && Increasing(ns, lo, hi)
    ensures Increasing(ns[1..], ns[0].position + 1, hi)
  {
    forall i | 0 <= i < |ns[1..]| ensures ns[0].position + 1 <= ns[1..][i].position < hi {
      assert ns[1..][i] == ns[i + 1];
    }
    forall i, j | 0 <= i < j < |ns[1..]| ensures ns[1..][i].position < ns[1..][j].position {
      assert ns[1..][i] == ns[i + 1] && ns[1..][j] == ns[j + 1];
    }
  }

  lemma IncreasingWiden(ns: seq<Approval>, lo: int, hi: int, lo': int, hi': int)
    requires Increasing(ns, lo, hi) && lo' <= lo && hi <= hi'
    ensures Increasing(ns, lo', hi')
  {
  }

  lemma {:induction false} IndividualsIncreasing(ns: seq<Approval>, lo: int, hi: int)
    requires Increasing(ns, lo, hi)
    ensures Increasing(Individuals(ns), lo, hi)
  {
    if ns != [] {
      var p := ns[0].position;
      IncreasingTail(ns, lo, hi);
      IndividualsIncreasing(ns[1..], p + 1, hi);
      var rest := Individuals(ns[1..]);
      if ns[0].Individual? {
        IncreasingConcat([ns[0]], rest, lo, p + 1, hi);
      } else {
        IncreasingWiden(rest, p + 1, hi, lo, hi);
      }
    }
  }

  /** In a numbered tree, the leaves and the actionable approvals come in strictly increasing positions. */
  lemma {:induction false} NumberedInOrder(a: Approval, start: int)
    requires Numbered(a, start)
    ensures Increasing(Leaves(a), start, start + |Nodes(a)|)
    ensures Increasing(ActionableNodes(a), start, start + |Nodes(a)|)
  {
    match a
    case Individual(_, _, _, _) =>
    case Serial(_, cs, _) =>
      var hi := start + |Nodes(a)|;
      assert NumberedAll(cs, start + 1) && hi == start + 1 + |NodesAll(cs)|;
      NumberedAllInOrder(cs, start + 1);
      var k := FirstPendingByPosition(cs);
      if StatusOf(a) == Pending && k.Some? {
        var c := cs[k.value];
        LeaderInOrder(cs, start + 1, k.value);
        assert ActionableNodes(a) == [a] + ActionableNodes(c);
        IncreasingConcat([a], ActionableNodes(c), start, start + 1, hi);
      }
    case Parallel(_, cs, _) =>
      NumberedAllInOrder(cs, start + 1);
      if StatusOf(a) == Pending {
        IncreasingConcat([a], ActionableAll(cs), start, start + 1, start + |Nodes(a)|);
      }
  }

  lemma {:induction false} NumberedAllInOrder(cs: seq<Approval>, start: int)
    requires NumberedAll(cs, start)
    ensures Increasing(LeavesAll(cs), start, start + |NodesAll(cs)|)
    ensures Increasing(ActionableAll(cs), start, start + |NodesAll(cs)|)
  {
    if cs != [] {
      var mid := start + |Nodes(cs[0])|;
      var hi := start + |NodesAll(cs)|;
      NumberedInOrder(cs[0], start);
      NumberedAllInOrder(cs[1..], mid);
      IncreasingConcat(Leaves(cs[0]), LeavesAll(cs[1..]), start, mid, hi);
      IncreasingConcat(ActionableNodes(cs[0]), ActionableAll(cs[1..]), start, mid, hi);
    }
  }

  /** The actionable approvals of one member of a numbered list are in order within the list's range. */
  lemma {:induction false} LeaderInOrder(cs: seq<Approval>, start: int, k: nat)
    requires NumberedAll(cs, start) && k < |cs|
    ensures Increasing(ActionableNodes(cs[k]), start, start + |NodesAll(cs)|)
    decreases cs, 0
  {
    var c := cs[k];
    var s := NumberedMemberAt(cs, start, k);
    NumberedInOrder(c, s);
    IncreasingWiden(ActionableNodes(c), s, s + |Nodes(c)|, start, start + |NodesAll(cs)|);
  }

  /** A member of a numbered list is numbered from a start within the list's range. */
  lemma {:induction false} NumberedMemberAt(cs: seq<Approval>, start: int, k: nat) returns (s: int)
    requires NumberedAll(cs, start) && k < |cs|
    ensures Numbered(cs[k], s) && start <= s && s + |Nodes(cs[k])| <= start + |NodesAll(cs)|
  {
    if k == 0 {
      s := start;
    } else {
      s := NumberedMemberAt(cs[1..], start + |Nodes(cs[0])|, k - 1);
    }
  }

  /** In a numbered tree, ordering by position leaves the leaves and the actionable leaves in tree order. */
  lemma NumberedSortIsTreeOrder(a: Approval, start: int)
    requires Numbered(a, start)
    ensures SortByPosition(Leaves(a)) == Leaves(a)
    ensures SortByPosition(ActionableLeaves(a)) == ActionableLeaves(a)
  {
    NumberedInOrder(a, start);
    IndividualsIncreasing(ActionableNodes(a), start, start + |Nodes(a)|);
    SortKeepsSorted(Leaves(a));
    SortKeepsSorted(ActionableLeaves(a));
  }
}
