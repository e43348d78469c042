# Change-set policies of the DNS reconciliation planner

This project models the two policies that trim a proposed DNS change set before
it reaches a provider. A change set (`Changes`) holds five sequences of
endpoints: `Create`, `UpdateOld`, `UpdateNew`, `Delete` and `Current`. `Current`
is the record set observed now.

- **NoMixedIdentifierPolicy** stops a DNS name from ending up with both
  weighted and unweighted records. A weighted record has a non-empty set
  identifier; an unweighted one has none. The policy works in three steps:
  - It indexes `Current` by name, one map per category. A later record
    replaces an earlier one under the same name.
  - A delete of the same category and name removes the indexed entry when the
    owner labels agree. A delete without an owner label matches any entry.
  - It drops every creation whose name is still indexed in the opposite
    category. It counts the creations it drops.
- **OwnedRecordsPolicy** keeps an `UpdateOld`, `UpdateNew` or `Delete` endpoint
  only when the endpoint's owner label equals the controller's owner ID.
  `Create` passes through unchanged.

Files:

- `endpoints.dfy` (module `Endpoints`) holds the endpoint and change-set
  datatypes, the owner label key, the weighted/unweighted category and the
  owner comparisons.
- `subsequences.dfy` (module `Subsequences`) defines order-preserving
  selection.
- `mixed_identifier_policy.dfy` (module `MixedIdentifierPolicy`) has the
  imperative `Apply`, with the source's three loops. Its specification
  functions are `Index`, `Neutralise`, `Known`, `KeptCreates` and `Filtered`.
  Lemmas about these functions are proved beside them.
- `owned_records_policy.dfy` (module `OwnedRecordsPolicy`) has the loop
  `FilterOwnedRecords`, proved against the function `Owned`, and the pure
  `Apply`.
- `mixed_identifier_examples.dfy` restates the repository's end-to-end
  scenarios as lemmas.

The process-wide counter of skipped creations becomes the out-parameter
`skipped` of `MixedIdentifierPolicy.Apply`. It holds the number of increments
one call makes.

Unlike `MixedIdentifierPolicy.Apply`, `OwnedRecordsPolicy.Apply`
(plan/owned_records_policy.go:13-18) does not copy `Current`, so its result
has an empty `Current`. The contract of `OwnedRecordsPolicy.Apply` states this.

## Model

| member | source | states |
|---|---|---|
| `Endpoints.SameOwner` | plan/mixed_identifier_policy.go:31-39 | a candidate without an owner label matches any record; a candidate owned by `o` matches exactly the records owned by `o` |
| `Endpoints.SameOwnerCases` | plan/mixed_identifier_policy.go:31-39 | the owner comparison holds iff the delete candidate has no owner label, or both endpoints carry the same owner value |
| `Endpoints.SameOwnerIsAsymmetric` | plan/mixed_identifier_policy.go:31-39 | the comparison is not symmetric: an unlabelled endpoint matches a labelled one, but not the other way round |
| `MixedIdentifierPolicy.Apply` | plan/mixed_identifier_policy.go:28-85 | the three loops compute `Filtered(changes)` as the new Create; UpdateOld, UpdateNew, Delete and Current come back exactly as given; the skip count is the number of dropped creations |
| `MixedIdentifierPolicy.IndexKeys` | plan/mixed_identifier_policy.go:40-47 | a category's index holds exactly the names of the current records in that category |
| `MixedIdentifierPolicy.IndexEntries` | plan/mixed_identifier_policy.go:40-47 | each indexed value is a current record of the index's category, stored under its own name |
| `MixedIdentifierPolicy.IndexLastWins` | plan/mixed_identifier_policy.go:40-47 | when a name repeats within a category, the last such current record is the one indexed |
| `MixedIdentifierPolicy.NeutraliseSpec` | plan/mixed_identifier_policy.go:48-59 | deletes only remove index entries and never change one; an entry goes iff some delete has the same category and name and passes the owner comparison against it |
| `MixedIdentifierPolicy.KnownSpec` | plan/mixed_identifier_policy.go:40-59 | after the deletes, a name is known iff a current record of that category holds it and no matching same-owner delete cancels the indexed record |
| `MixedIdentifierPolicy.KeptCreatesExactly` | plan/mixed_identifier_policy.go:60-77 | a creation survives iff it was proposed and no record of the opposite category is known under its name |
| `MixedIdentifierPolicy.KeptCreatesMultiplicity` | plan/mixed_identifier_policy.go:60-77 | every copy of an admissible creation is kept and every copy of a conflicting one is dropped |
| `MixedIdentifierPolicy.KeptCreatesIsSubsequence` | plan/mixed_identifier_policy.go:60-77 | the surviving creations are a subsequence of the proposed ones, in their original order |
| `MixedIdentifierPolicy.KeptCreatesAll` | plan/mixed_identifier_policy.go:60-77 | when every creation is free of conflict, none is dropped |
| `MixedIdentifierPolicy.FilteredIsSubsequence` | plan/mixed_identifier_policy.go:60-84 | the output Create is an order-preserving selection of the input Create and is no longer than it |
| `MixedIdentifierPolicy.FilteredKeepsExactly` | plan/mixed_identifier_policy.go:61-76 | an unweighted creation is kept iff the weighted index has no entry for its name after the deletes; a weighted creation is kept iff the unweighted index has none; a kept creation keeps all its copies |
| `MixedIdentifierPolicy.EmptyCurrentKeepsCreates` | plan/mixed_identifier_policy.go:40-47 | with an empty Current, Create is returned unchanged |
| `MixedIdentifierPolicy.NoOverlapKeepsCreates` | plan/mixed_identifier_policy.go:40-77 | when no current record shares a name with a creation of the opposite category, Create is returned unchanged |
| `MixedIdentifierPolicy.CurrentBlocksOppositeCreate` | plan/mixed_identifier_policy.go:61-76 | a current record of the opposite category with the same name blocks a creation when no delete of that category and name is proposed |
| `MixedIdentifierPolicy.OwnerlessDeleteUnblocksCreate` | plan/mixed_identifier_policy.go:31-59 | an unlabelled delete of the opposite category and the same name lets the creation through |
| `MixedIdentifierPolicy.OwnerMismatchKeepsBlocking` | plan/mixed_identifier_policy.go:31-59 | a delete whose owner value differs from the current records' owner does not clear the conflict, so the creation is still dropped |
| `MixedIdentifierPolicy.FilteredIdempotent` | plan/mixed_identifier_policy.go:60-77 | filtering the policy's own output again drops nothing more |
| `MixedIdentifierExamples.NothingCurrentPasses` | plan/mixed_identifiers_policy_test.go:28-33 | with no current records, the creation `baz` is kept |
| `MixedIdentifierExamples.PlainCurrentBlocksWeighted` | plan/mixed_identifiers_policy_test.go:34-39 | a current unweighted `multi-cluster` drops the weighted creation of that name |
| `MixedIdentifierExamples.DeletedPlainAdmitsWeighted` | plan/mixed_identifiers_policy_test.go:40-45 | deleting that unweighted record keeps the weighted creation |
| `MixedIdentifierExamples.WeightedCurrentBlocksPlain` | plan/mixed_identifiers_policy_test.go:46-51 | a current weighted `multi-cluster` drops the unweighted creation of that name |
| `MixedIdentifierExamples.DeletedWeightedAdmitsPlain` | plan/mixed_identifiers_policy_test.go:52-57 | deleting that weighted record keeps the unweighted creation |
| `OwnedRecordsPolicy.OwnedMultiplicity` | plan/owned_records_policy.go:21-31 | every copy of an owned endpoint is kept and every copy of any other endpoint is dropped |
| `OwnedRecordsPolicy.FilterOwnedRecords` | plan/owned_records_policy.go:21-31 | the loop returns exactly `Owned(ownerID, eps)`, the owned endpoints in input order |
| `OwnedRecordsPolicy.OwnedKeepsExactlyOwned` | plan/owned_records_policy.go:24-28 | an endpoint survives iff it was in the input, carries the owner label, and the label's value equals the owner ID |
| `OwnedRecordsPolicy.UnlabelledIsDropped` | plan/owned_records_policy.go:24 | an endpoint without an owner label is always dropped |
| `OwnedRecordsPolicy.OwnedIsSubsequence` | plan/owned_records_policy.go:21-31 | the filter's result is a subsequence of its input, in the original order |
| `OwnedRecordsPolicy.OwnedAllUnchanged` | plan/owned_records_policy.go:21-31 | when every endpoint is owned, the filter returns its input unchanged |
| `OwnedRecordsPolicy.OwnedIdempotent` | plan/owned_records_policy.go:24-28 | filtering twice gives the same result as filtering once |
| `OwnedRecordsPolicy.Apply` | plan/owned_records_policy.go:12-19 | Create passes through; UpdateNew, UpdateOld and Delete are each an order-preserving selection of their owned endpoints, with every copy of an owned endpoint kept; Current is empty |
| `OwnedRecordsPolicy.OwnedIsOwnedSelection` | plan/owned_records_policy.go:21-31 | the filter's result is an order-preserving selection of its input holding exactly the owned endpoints, each with all its copies |
| `OwnedRecordsPolicy.ApplyIdempotent` | plan/owned_records_policy.go:12-19 | applying the policy to its own output changes nothing |

## Left out

- The counter's registration with the metrics system (plan/mixed_identifier_policy.go:9-22) is left out. The counter itself is modelled only through the per-call `skipped` count. Its concurrent increments are also out of scope.
- Diagnostic log lines (plan/mixed_identifier_policy.go:67, 74; plan/owned_records_policy.go:25) are left out. They have no effect on the result.
- The endpoint package and the definition of `Changes` are not part of this model. The owner label key is taken as the constant `"owner"`, and no proof relies on its value. Targets are opaque strings.
- Endpoints are pointers in the source. The model compares them by value, so it does not capture aliasing between change-set entries.
- The policy chain and the test helper that compares entries are not part of this model.
