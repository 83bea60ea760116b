/** A model of the Cohort node of the quota hierarchy: an internal tree node
    that records the set of ClusterQueues that are its direct children.
    The Cohort is generic over the ClusterQueue type CQ and the Cohort type C,
    as in the source; the only requirement on CQ is that it supports equality,
    which is what makes it usable as a set element. */
module Hierarchy {

  datatype Option<T> = None | Some(value: T)

  /** A sequence lists each of its elements exactly once. */
  predicate NoDuplicates<T(==)>(s: seq<T>) {
    forall i, j :: 0 <= i < j < |s| ==> s[i] != s[j]
  }

  /** In a sequence without duplicates every element occurs exactly once. */
  lemma {:induction false} OccursOnce<T>(s: seq<T>, x: T)
    requires NoDuplicates(s)
    ensures multiset(s)[x] == if x in s then 1 else 0
  {
    if s != [] {
      assert s == [s[0]] + s[1..];
      assert NoDuplicates(s[1..]);
      OccursOnce(s[1..], x);
      assert s[0] !in s[1..];
    }
  }

  /** Two duplicate-free listings of the same elements differ only in order:
      a listing of the children is unique up to permutation. */
  lemma ListingsArePermutations<T>(r1: seq<T>, r2: seq<T>)
    requires NoDuplicates(r1) && NoDuplicates(r2)
    requires forall x :: x in r1 <==> x in r2
    ensures multiset(r1) == multiset(r2)
  {
    forall x ensures multiset(r1)[x] == multiset(r2)[x] {
      OccursOnce(r1, x);
      OccursOnce(r2, x);
    }
  }

  class Cohort<CQ(==), C> {
    /** The direct child ClusterQueues of this cohort. */
    var childCqs: set<CQ>

    /** A new cohort has no children. */
    constructor ()
      ensures childCqs == {}
      ensures ChildCount() == 0
    {
      childCqs := {};
    }

    /** A cohort in this version of the hierarchy never has a parent: the
        zero value of C is modelled as None. */
    function Parent(): (p: Option<C>)
      ensures !p.Some?
    {
      None
    }

    /** HasParent agrees with Parent, and is therefore always false: every
        cohort is a root. */
    function HasParent(): (b: bool)
      ensures b <==> Parent().Some?
      ensures !b
    {
      false
    }

    /** The number of direct child ClusterQueues; it is zero exactly when the
        cohort has no children. */
    function ChildCount(): (n: nat)
      reads this
      ensures n == |childCqs|
      ensures n == 0 <==> childCqs == {}
    {
      |childCqs|
    }

    /** Lists the direct child ClusterQueues in no particular order: every
        child appears exactly once and nothing else appears. The cohort is
        not changed. */
    method ChildCQs() returns (r: seq<CQ>)
      ensures forall x :: x in r <==> x in childCqs
      ensures NoDuplicates(r)
      ensures |r| == ChildCount()
    {
      r := [];
      var rest := childCqs;
      while rest != {}
        invariant rest <= childCqs
        invariant forall x :: x in r <==> x in childCqs && x !in rest
        invariant NoDuplicates(r)
        invariant |r| + |rest| == |childCqs|
        decreases |rest|
      {
        var x :| x in rest;
        r := r + [x];
        rest := rest - {x};
      }
    }

    /** Adds cq to the children. Inserting a present child changes nothing;
        inserting an absent one raises the count by one. */
    method InsertClusterQueue(cq: CQ)
      modifies this
      ensures childCqs == old(childCqs) + {cq}
      ensures cq in childCqs
      ensures cq in old(childCqs) ==> childCqs == old(childCqs) && ChildCount() == old(ChildCount())
      ensures cq !in old(childCqs) ==> ChildCount() == old(ChildCount()) + 1
    {
      childCqs := childCqs + {cq};
    }

    /** Removes cq from the children, leaving every other child in place.
        Deleting an absent ClusterQueue changes nothing and is not an error;
        deleting a present one lowers the count by one. */
    method DeleteClusterQueue(cq: CQ)
      modifies this
      ensures childCqs == old(childCqs) - {cq}
      ensures cq !in childCqs
      ensures forall x :: x != cq ==> (x in childCqs <==> x in old(childCqs))
      ensures cq !in old(childCqs) ==> childCqs == old(childCqs) && ChildCount() == old(ChildCount())
      ensures cq in old(childCqs) ==> ChildCount() == old(ChildCount()) - 1
    {
      childCqs := childCqs - {cq};
    }
  }

  /** Inserting an absent ClusterQueue and then deleting it restores the
      cohort's children, and the count in between is one higher. */
  method InsertThenDeleteRestores<CQ(==), C>(c: Cohort<CQ, C>, cq: CQ) returns (between: nat)
    requires cq !in c.childCqs
    modifies c
    ensures between == old(c.ChildCount()) + 1
    ensures c.childCqs == old(c.childCqs)
  {
    c.InsertClusterQueue(cq);
    between := c.ChildCount();
    c.DeleteClusterQueue(cq);
  }

  /** Deleting a present ClusterQueue and then inserting it again restores
      the cohort's children. */
  method DeleteThenInsertRestores<CQ(==), C>(c: Cohort<CQ, C>, cq: CQ)
    requires cq in c.childCqs
    modifies c
    ensures c.childCqs == old(c.childCqs)
  {
    c.DeleteClusterQueue(cq);
    c.InsertClusterQueue(cq);
  }
}
