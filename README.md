# Cohort node of the Kueue quota hierarchy

This project models the `Cohort` node of the quota hierarchy (`pkg/hierarchy/cohort.go`).
A cohort is an internal tree node. Its one piece of state is the set of ClusterQueues that are its direct children.
Like the source `Cohort[CQ, C]`, the Dafny class `Hierarchy.Cohort<CQ, C>` is generic over the ClusterQueue type `CQ` and the Cohort type `C`.
`CQ` must support equality so that it can be a set element, as Go's `sets.Set[CQ]` needs a comparable key.

- The child set `sets.Set[CQ]` is the mutable field `childCqs: set<CQ>`.
- `NewCohort` is the class constructor.
- `insertClusterQueue` and `deleteClusterQueue` are methods with `modifies this`. Their postconditions give the whole new child set in terms of the old one.
- `Parent`, `HasParent` and `childCount` are read-only functions.
- `ChildCQs` is a read-only method. It lists the set with a loop, in an order the model leaves open. `sets.Set.UnsortedList` also promises no order.
- Go's zero value of `C` returned by `Parent` is modelled as `None` of an `Option<C>`. Dafny has no zero value for an unconstrained type parameter.
- The methods `InsertThenDeleteRestores` and `DeleteThenInsertRestores` are clients of the class. They state properties that involve two calls in a row.

## Model

| member | source | states |
|---|---|---|
| `Hierarchy.Cohort.constructor` | pkg/hierarchy/cohort.go:38-40 | a new cohort has an empty child set and a child count of 0 |
| `Hierarchy.Cohort.Parent` | pkg/hierarchy/cohort.go:25-28 | a cohort never has a parent; the zero value of C stands as None |
| `Hierarchy.Cohort.HasParent` | pkg/hierarchy/cohort.go:25-32 | HasParent agrees with Parent and is false for every cohort, so every cohort is a root |
| `Hierarchy.Cohort.ChildCount` | pkg/hierarchy/cohort.go:52-54 | the count is the cardinality of the child set, and it is 0 exactly when the cohort has no children |
| `Hierarchy.Cohort.ChildCQs` | pkg/hierarchy/cohort.go:34-36 | the listing holds every child exactly once and nothing else; its length is the child count; the cohort is not changed |
| `Hierarchy.ListingsArePermutations` | pkg/hierarchy/cohort.go:34-36 | any two listings ChildCQs may return are permutations of each other: the result is fixed up to order |
| `Hierarchy.Cohort.InsertClusterQueue` | pkg/hierarchy/cohort.go:44-46 | afterwards cq is a child and the child set is the old set plus cq; inserting a present child leaves set and count unchanged (idempotent); inserting an absent one raises the count by exactly 1 |
| `Hierarchy.Cohort.DeleteClusterQueue` | pkg/hierarchy/cohort.go:48-50 | afterwards cq is not a child and every other child is unchanged: the set is the old set minus cq; deleting a non-member is a no-op and not an error; deleting a member lowers the count by exactly 1 |
| `Hierarchy.InsertThenDeleteRestores` | pkg/hierarchy/cohort.go:44-54 | inserting an absent ClusterQueue and then deleting it restores the original child set, and the count in between is one higher |
| `Hierarchy.DeleteThenInsertRestores` | pkg/hierarchy/cohort.go:44-50 | deleting a present ClusterQueue and then inserting it again restores the original child set |

## Left out

- The hierarchy manager is not part of this model. Neither are the `nodeBase` and `cohortNode` interfaces that the cohort implements: the source references them but does not define them. So cycle detection, re-parenting, quota and borrowing aggregation, and fair-share ranking are not modelled.
- `ChildCQs`: the listing order comes from Go's map iteration, which is unspecified. The model picks each element nondeterministically and proves only facts that hold for every order.
- Go's `int` result of `childCount` is modelled as an unbounded `nat`. A set in memory cannot hold anywhere near 2^63 elements, so overflow cannot occur.
- Concurrent access is not modelled. The source's methods are unsynchronised, and callers serialise them.
