/**
 * Directed graphs given by adjacency lists over node indices, paths and
 * reachability, and the visit marks a depth-first search leaves behind.
 */
module Digraph {

  /** Node x has successors adj[x], in the order the links were added. */
  type Adjacency = seq<seq<nat>>

  /** Every link points to a node of the graph. */
  ghost predicate WellFormed(adj: Adjacency) {
    forall x, k :: 0 <= x < |adj| && 0 <= k < |adj[x]| ==> adj[x][k] < |adj|
  }

  /** A non-empty sequence of nodes, each one a successor of the one before it. */
  ghost predicate IsPath(adj: Adjacency, p: seq<nat>) {
    |p| > 0 &&
    (forall i :: 0 <= i < |p| ==> p[i] < |adj|) &&
    (forall i :: 0 <= i < |p| - 1 ==> p[i + 1] in adj[p[i]])
  }

  ghost predicate PathFromTo(adj: Adjacency, p: seq<nat>, u: nat, t: nat) {
    IsPath(adj, p) && p[0] == u && p[|p| - 1] == t
  }

  /** t can be reached from u by following zero or more links. */
  ghost predicate Reachable(adj: Adjacency, u: nat, t: nat) {
    exists p :: PathFromTo(adj, p, u, t)
  }

  lemma ReachableSelf(adj: Adjacency, u: nat)
    requires u < |adj|
    ensures Reachable(adj, u, u)
  {
    assert PathFromTo(adj, [u], u, u);
  }

  lemma ReachableStep(adj: Adjacency, u: nat, v: nat, t: nat)
    requires u < |adj| && v in adj[u] && Reachable(adj, v, t)
    ensures Reachable(adj, u, t)
  {
    var p :| PathFromTo(adj, p, v, t);
    var q := [u] + p;
    assert forall i :: 1 <= i < |q| ==> q[i] == p[i - 1];
    assert PathFromTo(adj, q, u, t);
  }

  lemma ReachableTrans(adj: Adjacency, u: nat, v: nat, t: nat)
    requires Reachable(adj, u, v) && Reachable(adj, v, t)
    ensures Reachable(adj, u, t)
  {
    var p :| PathFromTo(adj, p, u, v);
    var q :| PathFromTo(adj, q, v, t);
    var r := p + q[1..];
    assert forall i :: |p| <= i < |r| ==> r[i] == q[i - |p| + 1];
    assert forall i :: 0 <= i < |r| - 1 ==> r[i + 1] in adj[r[i]] by {
      forall i | 0 <= i < |r| - 1 ensures r[i + 1] in adj[r[i]] {
        if i < |p| - 1 {
        } else {
          assert r[i] == q[i - |p| + 1];
        }
      }
    }
    assert PathFromTo(adj, r, u, t);
  }

  /**
   * The recurrence a depth-first search follows: t is reachable from u
   * exactly when it is u itself or reachable from one of u's successors.
   */
  lemma ReachableUnfold(adj: Adjacency, u: nat, t: nat)
    requires u < |adj|
    ensures Reachable(adj, u, t) <==>
            u == t || exists k :: 0 <= k < |adj[u]| && Reachable(adj, adj[u][k], t)
  {
    if Reachable(adj, u, t) && u != t {
      var p :| PathFromTo(adj, p, u, t);
      assert |p| > 1;
      var k :| 0 <= k < |adj[u]| && adj[u][k] == p[1];
      assert PathFromTo(adj, p[1..], p[1], t);
    }
    if exists k :: 0 <= k < |adj[u]| && Reachable(adj, adj[u][k], t) {
      var k :| 0 <= k < |adj[u]| && Reachable(adj, adj[u][k], t);
      ReachableStep(adj, u, adj[u][k], t);
    }
    if u == t {
      ReachableSelf(adj, u);
    }
  }

  /** after marks a superset of what before marks. */
  ghost predicate Grows(before: seq<bool>, after: seq<bool>) {
    |before| == |after| && forall i :: 0 <= i < |before| && before[i] ==> after[i]
  }

  /** Every successor of a marked node is marked. */
  ghost predicate Closed(adj: Adjacency, marks: seq<bool>) {
    |marks| == |adj| &&
    forall x, k :: 0 <= x < |adj| && marks[x] && 0 <= k < |adj[x]| && adj[x][k] < |adj| ==> marks[adj[x][k]]
  }

  /** Every successor of a node marked in after but not in before is marked in after. */
  ghost predicate ClosedSince(adj: Adjacency, before: seq<bool>, after: seq<bool>) {
    |before| == |adj| && |after| == |adj| &&
    forall x, k :: 0 <= x < |adj| && after[x] && !before[x] && 0 <= k < |adj[x]| && adj[x][k] < |adj| ==> after[adj[x][k]]
  }

  /** Nodes marked by two successive searches keep the closure property together. */
  lemma ClosedSinceTrans(adj: Adjacency, m0: seq<bool>, m1: seq<bool>, m2: seq<bool>)
    requires Grows(m1, m2) && ClosedSince(adj, m0, m1) && ClosedSince(adj, m1, m2)
    ensures ClosedSince(adj, m0, m2)
  {
    forall x, k | 0 <= x < |adj| && m2[x] && !m0[x] && 0 <= k < |adj[x]| && adj[x][k] < |adj|
      ensures m2[adj[x][k]]
    {
      if m1[x] {
        assert m1[adj[x][k]];
      }
    }
  }

  /**
   * The bookkeeping of a search that follows the links in `edges` one after
   * the other: after a child search that failed and marked its start node,
   * everything marked so far stays marked and the closure property extends.
   */
  lemma ChildSearched(adj: Adjacency, marked: seq<bool>, before: seq<bool>, after: seq<bool>, edges: seq<nat>, k: nat)
    requires Grows(marked, before) && Grows(before, after)
    requires ClosedSince(adj, marked, before) && ClosedSince(adj, before, after)
    requires k < |edges| && forall j :: 0 <= j <= k ==> edges[j] < |before|
    requires forall j :: 0 <= j < k ==> before[edges[j]]
    requires after[edges[k]]
    ensures Grows(marked, after) && ClosedSince(adj, marked, after)
    ensures forall j :: 0 <= j < k + 1 ==> after[edges[j]]
  {
    ClosedSinceTrans(adj, marked, before, after);
  }

  /** Once all of x's successors are marked, x may count among the newly marked nodes. */
  lemma ClosedSinceMarked(adj: Adjacency, m0: seq<bool>, m2: seq<bool>, x: nat)
    requires x < |m0| == |adj| && ClosedSince(adj, m0[x := true], m2)
    requires forall k :: 0 <= k < |adj[x]| ==> adj[x][k] < |m2| && m2[adj[x][k]]
    ensures ClosedSince(adj, m0, m2)
  {
  }

  lemma {:induction false} MarkedPathEnd(adj: Adjacency, marks: seq<bool>, p: seq<nat>)
    requires Closed(adj, marks) && IsPath(adj, p) && marks[p[0]]
    ensures marks[p[|p| - 1]]
    decreases |p|
  {
    if |p| > 1 {
      var k :| 0 <= k < |adj[p[0]]| && adj[p[0]][k] == p[1];
      assert marks[p[1]];
      assert IsPath(adj, p[1..]);
      MarkedPathEnd(adj, marks, p[1..]);
    }
  }

  /** A closed set of marks that holds u and not t shows that t is unreachable from u. */
  lemma ClosedSeparates(adj: Adjacency, marks: seq<bool>, u: nat, t: nat)
    requires Closed(adj, marks) && u < |adj| && marks[u] && t < |adj| && !marks[t]
    ensures !Reachable(adj, u, t)
  {
    forall p | IsPath(adj, p) && p[0] == u
      ensures marks[p[|p| - 1]]
    {
      MarkedPathEnd(adj, marks, p);
    }
  }

  /** The number of unmarked nodes: the measure a depth-first search consumes. */
  function CountFalse(marks: seq<bool>): nat {
    if marks == [] then 0 else (if marks[0] then 0 else 1) + CountFalse(marks[1..])
  }

  lemma {:induction false} CountFalseMonotone(before: seq<bool>, after: seq<bool>)
    requires Grows(before, after)
    ensures CountFalse(after) <= CountFalse(before)
  {
    if before != [] {
      assert Grows(before[1..], after[1..]);
      CountFalseMonotone(before[1..], after[1..]);
    }
  }

  lemma {:induction false} CountFalseDrops(before: seq<bool>, after: seq<bool>, i: nat)
    requires Grows(before, after) && i < |before| && !before[i] && after[i]
    ensures CountFalse(after) < CountFalse(before)
  {
    assert Grows(before[1..], after[1..]);
    if i == 0 {
      CountFalseMonotone(before[1..], after[1..]);
    } else {
      CountFalseDrops(before[1..], after[1..], i - 1);
    }
  }
}
