# Proposal approval trees and table sort keys

This project models two parts of C2, a purchase-request approval system.

**The approval tree of a `Proposal`.** Each proposal has a tree of approvals:
- `Individual` leaves, each for one user and holding that user's decision (pending, approved or cancelled);
- `Serial` groups, whose members act one after another;
- `Parallel` groups, whose members act together.

A group's status is derived from its members: cancelled if any member is cancelled, approved once all are approved, and pending otherwise.

The actionable approvals are the pending ones that may act now:
- in a parallel group, every pending member;
- in a serial group, only its leader: the pending member with the least position, the first submitted of them on a tie.

`currently_awaiting_approvers` lists the users of the actionable leaves, ordered by position.

`root_approval=` reconciles a submitted tree with the stored one:
- a leaf whose user is submitted again at the same place keeps its record and its decision;
- a leaf that differs is replaced by a fresh pending leaf;
- a stored approval with no place in the new tree is deleted;
- every approval is then numbered in tree order.

The other operations modelled are:
- `approve!` on an actionable leaf;
- `update_attribute(:position, ..)`;
- `reset_status` and `cancel!`;
- `users`, the approvers, observers and requester without repeats;
- `add_observer`.

The proposal model's own source is not available, so its test suite, `spec/models/proposal_spec.rb`, is what the model follows. Where that suite covers a behaviour above, the model does what the suite asserts. Three behaviours above are modelling choices that the suite does not exercise:
- a group is cancelled when one of its members is cancelled (the suite cancels only whole proposals);
- a serial group's leader is chosen by position (the suite changes positions only inside a parallel group);
- approvals are numbered in tree order (no test reads the numbering).

Each example of the suite that is in scope is restated as a method of `ProposalExamples`, with what the test expects as its postcondition. The examples for the behaviours listed under "## Left out" are not restated: `CLIENT_MODELS`, the delegation helpers, `name`, the status scopes, `restart!` and the comments and e-mails of `add_observer`.

**`TabularData::Container`.** A container is a named table whose columns come from a configuration. Its current sort is read from the request parameters and written back to them as a sort string:
- `name` sorts by that column ascending;
- `-name` sorts by it descending.

The model covers parsing that string (`set_sort`), reading it from the parameters (`set_state_from_params`), writing the toggled string for a column's header link (`sort_params`) and building the columns (`init_columns`).

Files:
- `wrappers.dfy`: the `Option` type.
- `approval_tree.dfy`: the tree, derived status, actionable approvals, ordering by position, ids, paths and single-approval updates.
- `reconcile.dfy`: the merge behind `root_approval=` and what it keeps, replaces, deletes and numbers.
- `proposal.dfy`: the `Proposal` class and its state-changing methods.
- `proposal_flows.dfy`: lemmas for the concrete trees the test suite builds.
- `proposal_examples.dfy`: one method per test case.
- `tabular_container.dfy`: the container.

## Model

| member | source | states |
|---|---|---|
| ApprovalTree.GroupStatusRule | spec/models/proposal_spec.rb:235-247 | a group is approved iff every member is approved, and cancelled iff some member is cancelled |
| ApprovalTree.StatusFromLeaves | spec/models/proposal_spec.rb:235-247 | a tree is approved iff every leaf is approved, and cancelled iff some leaf is cancelled |
| ApprovalTree.Individuals | spec/models/proposal_spec.rb:124 | `individual_approvals` keeps exactly the leaves of a list of approvals, and never more than the list holds |
| ApprovalTree.IndividualsCount | spec/models/proposal_spec.rb:124 | one leaf is selected for each place in the list that holds a leaf |
| ApprovalTree.IndividualsConcat | spec/models/proposal_spec.rb:124 | selecting the leaves of two lists joined is selecting each and joining, so the leaves keep their order |
| ApprovalTree.CountWithStatus | spec/models/proposal_spec.rb:168 | `approvals.approved.count` is at most the number of approvals |
| ApprovalTree.CountWithStatusConcat | spec/models/proposal_spec.rb:168 | the count over two lists joined is the sum of their counts |
| ApprovalTree.CountIsNumberOfPlaces | spec/models/proposal_spec.rb:168 | the count is exactly the number of places in the list holding an approval with that status |
| ApprovalTree.UsersOfAt | spec/models/proposal_spec.rb:14 | the users are read off the leaves one for one, in the same order |
| ApprovalTree.UsersByPositionAt | spec/models/proposal_spec.rb:11-19 | the users by position are those of the leaves sorted by position, one for one |
| ApprovalTree.FirstPendingByPosition | spec/models/proposal_spec.rb:21-28 | a serial group has a leader iff some member is pending; the leader is pending, no pending member has a smaller position, and none before it has the same position |
| ApprovalTree.LeaderUnique | spec/models/proposal_spec.rb:21-28 | a serial group has at most one leader |
| ApprovalTree.ActionableSound | spec/models/proposal_spec.rb:124-125 | every actionable approval is pending and belongs to the tree |
| ApprovalTree.FullyApprovedNothingActionable | spec/models/proposal_spec.rb:174-194 | once every leaf is approved, no approval, leaf or group, is actionable |
| ApprovalTree.ParallelMembersActionable | spec/models/proposal_spec.rb:116-126 | a pending parallel group is actionable together with every pending member |
| ApprovalTree.SerialFirstPendingOnly | spec/models/proposal_spec.rb:128-138 | a pending serial group's actionable approvals are itself plus those of its leader only |
| ApprovalTree.ParallelOfPendingLeaves | spec/models/proposal_spec.rb:116-126 | a parallel group of pending leaves makes itself and every leaf actionable |
| ApprovalTree.SerialOfLeaves | spec/models/proposal_spec.rb:21-28 | in a serial group of leaves whose first k are approved and the rest pending, with no later leaf placed before leaf k, exactly the group and leaf k are actionable |
| ApprovalTree.SortByPosition | spec/models/proposal_spec.rb:11-19 | lists are ordered by position: the result is sorted and a permutation of the input |
| ApprovalTree.SortKeepsSorted | spec/models/proposal_spec.rb:11-15 | a list already in position order is left as it is |
| ApprovalTree.SortStable | spec/models/proposal_spec.rb:11-19 | the sort is stable: for every position, the approvals at that position keep their input order |
| ApprovalTree.PathOfIdUnique | spec/models/proposal_spec.rb:198-201 | with unique ids, an id names exactly one place in the tree |
| ApprovalTree.PatchKeepsIds | spec/models/proposal_spec.rb:17 | updating one approval's status or position keeps the set of ids and their uniqueness |
| ApprovalTree.PatchAbsent | spec/models/proposal_spec.rb:17 | updating an id that is not in the tree changes nothing |
| ApprovalTree.PatchOneApproval | spec/models/proposal_spec.rb:17 | updating an approval changes that approval's record and no other |
| Reconcile.MergeShape | spec/models/proposal_spec.rb:140-172 | after `root_approval=` the stored tree has exactly the submitted shape |
| Reconcile.NodeCountIsSize | spec/models/proposal_spec.rb:105-114 | a tree has as many approvals as its shape has nodes |
| Reconcile.MergeKeepsMatched | spec/models/proposal_spec.rb:155-172 | a stored approval whose user and kinds are submitted again at its place keeps its id and decision |
| Reconcile.MergeFreshOrKept | spec/models/proposal_spec.rb:155-172 | every merged approval either has an id not handed out before and, if a leaf, is pending, or is the matching stored approval at the same place, kept with its decision |
| Reconcile.MergeDeletesUnmatched | spec/models/proposal_spec.rb:196-202 | a stored approval with no matching place in the submitted tree no longer exists |
| Reconcile.NewLeafReopens | spec/models/proposal_spec.rb:223-233 | a submitted leaf that matches nothing stored keeps the tree from being approved |
| Reconcile.MergeDecisionsFromStored | spec/models/proposal_spec.rb:155-172 | after the merge every decision is either pending or one the stored tree held |
| Reconcile.MergeIds | spec/models/proposal_spec.rb:140-172 | the merged tree has unique ids, each a stored id or a newly handed-out one, and the id counter never goes back |
| Reconcile.MergeNumbered | spec/models/proposal_spec.rb:11-19 | the merge numbers the approvals in tree order starting at the root's position |
| Reconcile.NumberedInOrder | spec/models/proposal_spec.rb:11-19 | in a numbered tree the leaves and the actionable approvals are in increasing position order |
| Reconcile.NumberedSortIsTreeOrder | spec/models/proposal_spec.rb:11-15 | right after `root_approval=`, ordering by position gives tree order |
| Proposals.ResetStatusOf | spec/models/proposal_spec.rb:205-248 | a cancelled proposal stays cancelled; without approvals it is approved; otherwise it is approved iff every leaf is approved and cancelled iff some leaf is |
| Proposals.ResetStatusIdempotent | spec/models/proposal_spec.rb:205-248 | `reset_status` twice gives the same status as once |
| Proposals.Uniq | spec/models/proposal_spec.rb:85-97 | de-duplication keeps exactly the members of the list, each once |
| Proposals.UniqOfDistinct | spec/models/proposal_spec.rb:80-83 | a list without repeats is unchanged by de-duplication |
| Proposals.Proposal.constructor | spec/models/proposal_spec.rb:206-208 | a new proposal is pending, with no approvals and no observers |
| Proposals.Proposal.Approvals | spec/models/proposal_spec.rb:112 | `approvals`: nothing before `root_approval=`; afterwards every approval of the tree, each once, in position order |
| Proposals.Proposal.IndividualApprovals | spec/models/proposal_spec.rb:17 | `individual_approvals`: the leaves of the tree, each once, in position order |
| Proposals.Proposal.Approvers | spec/models/proposal_spec.rb:113 | `approvers`: one user per individual approval, in the same order |
| Proposals.Proposal.ActionableApprovals | spec/models/proposal_spec.rb:125 | `approvals.actionable`: the actionable approvals of the tree, each once, in position order |
| Proposals.Proposal.ActionableIndividuals | spec/models/proposal_spec.rb:124 | `individual_approvals.actionable`: the actionable leaves, each once, in position order |
| Proposals.Proposal.CurrentlyAwaitingApprovers | spec/models/proposal_spec.rb:11-28 | `currently_awaiting_approvers`: one user per actionable leaf, in position order |
| Proposals.Proposal.ApprovedCount | spec/models/proposal_spec.rb:168 | `approvals.approved.count`: 0 before `root_approval=`; afterwards the number of approvals of the tree whose status is approved |
| Proposals.Proposal.Users | spec/models/proposal_spec.rb:68-98 | `users` holds exactly the approvers, the observers and the requester, without repeats |
| Proposals.Proposal.SetRootApproval | spec/models/proposal_spec.rb:105-172 | the stored tree becomes the merge of the old tree with the submitted one, ids stay unique, and the status is recomputed; a malformed tree changes nothing |
| Proposals.Proposal.Approve | spec/models/proposal_spec.rb:26-27 | succeeds iff the id is an actionable leaf; that leaf becomes approved, nothing else changes and the status is recomputed |
| Proposals.Proposal.UpdatePosition | spec/models/proposal_spec.rb:17 | succeeds iff the id is in the tree; only that approval's position changes |
| Proposals.Proposal.ResetStatus | spec/models/proposal_spec.rb:205-248 | the status becomes the one derived from the tree, and nothing else changes |
| Proposals.Proposal.Cancel | spec/models/proposal_spec.rb:213-221 | the status becomes cancelled and the approvals are left alone |
| Proposals.Proposal.AddObserver | spec/models/proposal_spec.rb:286-290 | the user is appended to the observers unless already one |
| ProposalFlows.MergeFreshLeaves | spec/models/proposal_spec.rb:105-114 | a group submitted with nothing stored becomes pending leaves with consecutive new ids and positions |
| ProposalFlows.ParallelRoot | spec/models/proposal_spec.rb:105-126 | a parallel root over n users stores n+1 approvals, lists the approvers in submitted order, and has n actionable leaves and n+1 actionable approvals |
| ProposalFlows.SerialRoot | spec/models/proposal_spec.rb:128-138 | a serial root over n users stores n+1 approvals with the approvers in order, and only its first leaf is actionable (2 approvals with the root) |
| ProposalFlows.SerialApproveLeader | spec/models/proposal_spec.rb:21-28 | a serial pair awaits its first user only, then only the second once the first approves |
| ProposalFlows.SerialApproveFirst | spec/models/proposal_spec.rb:21-28 | the same, for the serial root built from two new users |
| ProposalFlows.SerialRaiseFirstOfTwo | spec/models/proposal_spec.rb:11-28 | moving the first of a serial pair of pending leaves past the second hands the turn to the second |
| ProposalFlows.SecondLeadsSerialPair | spec/models/proposal_spec.rb:21-28 | a serial pair of pending leaves whose second leaf is placed before its first awaits the second user only |
| ProposalFlows.UsersOfTwo | spec/models/proposal_spec.rb:11-19 | two leaves are listed by position, the first one first on a tie |
| ProposalFlows.ParallelRaisePosition | spec/models/proposal_spec.rb:11-19 | a parallel pair awaits both users in order, and raising the first one's position past the second reverses them |
| ProposalFlows.PendingSecondKeepsPending | spec/models/proposal_spec.rb:235-247 | a pair of leaves whose second is pending and whose first is not cancelled leaves the proposal pending |
| ProposalFlows.ApprovedPairDone | spec/models/proposal_spec.rb:174-194 | a pair of approved leaves approves the proposal and leaves nothing actionable |
| ProposalFlows.ApprovePairInTurn | spec/models/proposal_spec.rb:174-194 | approving a pair in turn: each leaf is actionable when approved, the proposal is pending in between, and afterwards nothing is actionable and the proposal is approved |
| ProposalFlows.ApproveBoth | spec/models/proposal_spec.rb:174-194 | for a root built from two new users, in either kind of group: each leaf is actionable when its turn comes, the proposal is pending after one approval, and approved with nothing actionable after both |
| ProposalFlows.ResubmitSerialChangedLeaf | spec/models/proposal_spec.rb:155-172 | a serial pair with its first leaf approved, re-submitted with the second user changed, keeps one approved approval and makes the new user's fresh leaf the only actionable one |
| ProposalFlows.MergeTwoLeaves | spec/models/proposal_spec.rb:155-172 | re-submitting a group of two leaves keeps each leaf whose user is unchanged and replaces the other with a fresh pending one |
| ProposalFlows.ExtendParallel | spec/models/proposal_spec.rb:140-153 | a parallel root extended from one user to three keeps the first leaf and has 4 actionable approvals, 3 of them leaves |
| ProposalFlows.ResubmitDropsLeaf | spec/models/proposal_spec.rb:196-202 | re-submitting a parallel pair as a serial root over the second user deletes the first leaf |
| ProposalFlows.ReopenOnAddedLeaf | spec/models/proposal_spec.rb:223-233 | an approved parallel pair re-submitted with a third user keeps both leaves' decisions and is pending again |
| ProposalFlows.AppendLeaf | spec/models/proposal_spec.rb:223-233 | an approved pair re-submitted with a third user keeps both decisions and the proposal becomes pending again |
| ProposalExamples.ParallelAwaitingOrder | spec/models/proposal_spec.rb:12-19 | awaiting approvers are [u1, u2], then [u2, u1] after the first leaf's position is set to 5 |
| ProposalExamples.SerialPairTurns | spec/models/proposal_spec.rb:21-28 | the serial pair of a new proposal awaits its first user, and its second once the first approves |
| ProposalExamples.SerialAwaitingOrder | spec/models/proposal_spec.rb:21-28 | awaiting approvers are [u1], then [u2] after the first leaf approves |
| ProposalExamples.ParallelRootCounts | spec/models/proposal_spec.rb:105-126 | n+1 approvals, approvers in submitted order, n actionable leaves, n+1 actionable approvals |
| ProposalExamples.SerialRootCounts | spec/models/proposal_spec.rb:128-138 | n+1 approvals, approvers in order, 1 actionable leaf, 2 actionable approvals |
| ProposalExamples.ExtendParallelRoot | spec/models/proposal_spec.rb:140-153 | 2 and 1 actionable before the extension, 4 and 3 after |
| ProposalExamples.ResubmitSerialRoot | spec/models/proposal_spec.rb:155-172 | 1 approved approval, 2 actionable, 1 actionable leaf, and its user is the new approver |
| ProposalExamples.FullyApproved | spec/models/proposal_spec.rb:174-194 | after both leaves approve, in either kind of group, nothing is actionable |
| ProposalExamples.DeletesApprovals | spec/models/proposal_spec.rb:196-202 | the first approval no longer exists after the re-submission |
| ProposalExamples.ResetWithoutApprovals | spec/models/proposal_spec.rb:206-211 | pending before, approved after `reset_status` |
| ProposalExamples.ResetKeepsCancelled | spec/models/proposal_spec.rb:213-221 | pending after one approval; cancelled after `cancel!` and `reset_status` |
| ProposalExamples.ResetAfterAddedApproval | spec/models/proposal_spec.rb:223-233 | approved after both leaves approve; pending after a third user is added and `reset_status` runs |
| ProposalExamples.ResetUntilAllApproved | spec/models/proposal_spec.rb:235-247 | pending, still pending after one approval, approved after both |
| ProposalExamples.UsersOfProposal | spec/models/proposal_spec.rb:69-78 | with five different people, the users are the two approvers in position order, then the two observers in the order added, then the requester, each once |
| ProposalExamples.OnlyRequester | spec/models/proposal_spec.rb:80-83 | the users of a bare proposal are [requester] |
| ProposalExamples.RequesterAsObserver | spec/models/proposal_spec.rb:85-97 | adding the requester as an observer leaves the users as [requester] |
| ProposalExamples.AddFirstObserver | spec/models/proposal_spec.rb:286-290 | adding an observer to a proposal without observers gives [observer] |
| TabularData.ParseSort | lib/tabular_data/container.rb:51-54 | nil reads as ""; the direction is descending iff the string starts with `-`; then exactly one `-` is stripped, and otherwise the key is the string unchanged |
| TabularData.SortFor | lib/tabular_data/container.rb:56 | the sort is nil iff no column has the parsed key; otherwise it is that column in the parsed direction |
| TabularData.SortString | lib/tabular_data/container.rb:31-36 | the string starts with `-` iff the column is sorted ascending or its key starts with `-`, and is one character longer than the key exactly when ascending |
| TabularData.ParseSortString | lib/tabular_data/container.rb:31-56 | reading back a column's sort string gives its key and the toggled direction, for keys that do not start with `-` |
| TabularData.DashKeyMisread | lib/tabular_data/container.rb:31-56 | a key `-x` on a column not sorted ascending is read back as key `x`, descending |
| TabularData.PermittedSort | lib/tabular_data/container.rb:22-25 | a sort is found iff the parameters hold a scalar `sort` under `tables` and then the table's name, each level a hash; the value found is that string or nil |
| TabularData.MergeSort | lib/tabular_data/container.rb:31-36 | the merged parameters carry the given sort for the table, and every other key, table and table entry is kept |
| TabularData.ColumnHashOf | lib/tabular_data/container.rb:72-77 | one column per configured name, filed under that name, qualified as `table.name`, with no sort direction yet |
| TabularData.ColumnHashOptions | lib/tabular_data/container.rb:74-77 | a column carries the options of the last pair configured under its name |
| TabularData.ColumnsInOrder | lib/tabular_data/container.rb:78 | `columns` follows `order` one for one: the column filed under each name, or nil where there is none |
| TabularData.Container.constructor | lib/tabular_data/container.rb:5-10 | the columns are built from the configuration, then the configured sort is set |
| TabularData.Container.InitColumns | lib/tabular_data/container.rb:72-79 | the column hash and the column list are the ones built from the configuration and the order, and every column is filed under its own key |
| TabularData.Container.SetSort | lib/tabular_data/container.rb:51-56 | the sort becomes the one parsed from the field, with a column whose key is the parsed key; nothing else changes |
| TabularData.Container.SetStateFromParams | lib/tabular_data/container.rb:22-29 | the sort is set from the parameters when they carry one for this table, and is left unchanged otherwise |
| TabularData.Container.SortParams | lib/tabular_data/container.rb:31-36 | the parameters carry this table's sort as the column's toggled sort string, and every other top-level key is kept |
| TabularData.SortLinkToggles | lib/tabular_data/container.rb:22-56 | following a column's sort link sorts by the same column in the toggled direction |

## Left out

- The stored approvals are modelled as one tree value held by the proposal, not as database rows that point to their parent. Updates rebuild the tree, and no two approvals can share a record.
- Matching in `root_approval=` is by place only. A leaf is kept when its user and the kinds of the groups above it are submitted again at the same index path. The test suite shows only this positional matching. So a user appearing twice never needs a tie-break, and a leaf that moves to another place is treated as a new leaf.
- Re-submitting an existing approval object (as in the test 'deletes approvals') is treated like submitting a new leaf for its user.
- A submitted tree with an empty group is refused and nothing changes. The test suite does not say what the system does here.
- Proposals.Proposal.Approve: only an actionable leaf can be approved. Approving a group directly, or a leaf that is not actionable, is refused and nothing changes.
- Positions are numbered across the whole proposal in tree order, from 1 at the root. `update_attribute(:position, ..)` moves only the one approval, and leaves the others' positions as they are.
- Ties between equal positions are broken by submitted order, both in the position-ordered lists and in choosing a serial group's leader. `ApprovalTree.SortStable` proves this for the lists. Ordering by position in the database leaves such ties unspecified.
- `CLIENT_MODELS`, `delegate_with_default`, `name`, the status scopes, `.closed` and `restart!` with its API tokens are left out. They depend on the database, the framework or random tokens.
- `add_observer` by e-mail address is left out: users are identified by number. Its comments and notification e-mails are left out too, being mail delivery.
- Transactions, locking and concurrent changes to a proposal are left out.
- `init_query`, `alter_query`, `rows` and `config_for_client` are left out. They build database queries or read configuration files.
- `Column`'s source is not shown.
  - A column is modelled as a record of its key, its qualified name, its options and its current sort direction.
  - `column.sort(dir)` is modelled as pairing the column with the direction. Whether it also changes the column's own sort direction is not modelled.
- Rails strong parameters and `deep_merge` are modelled as plain nested maps of strings, nil and hashes, with the merge specialised to the one path `sort_params` writes. Numbers, arrays and symbol-versus-string keys are not modelled.
- Sort keys are compared as plain strings; the conversion to symbols is not modelled.
