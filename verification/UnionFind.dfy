/**
 * The array union-find with path halving that batch planning uses, refined against a plain
 * relabelling, and the relabelling against reachability over the joined pairs.
 */
module UnionFind {

  type Edge = (nat, nat)

  // ---- Reachability: the reference definition ----

  predicate Adjacent(edges: seq<Edge>, i: nat, j: nat) {
    (i, j) in edges || (j, i) in edges
  }

  ghost predicate IsPath(edges: seq<Edge>, path: seq<nat>, i: nat, j: nat) {
    && path != [] && path[0] == i && path[|path| - 1] == j
    && forall k :: 0 <= k < |path| - 1 ==> Adjacent(edges, path[k], path[k + 1])
  }

  /** `i` and `j` are linked by a chain of joined pairs. */
  ghost predicate Connected(edges: seq<Edge>, i: nat, j: nat) {
    exists path :: IsPath(edges, path, i, j)
  }

  lemma ConnectedRefl(edges: seq<Edge>, i: nat)
    ensures Connected(edges, i, i)
  {
    assert IsPath(edges, [i], i, i);
  }

  lemma ConnectedTrans(edges: seq<Edge>, i: nat, j: nat, k: nat)
    requires Connected(edges, i, j) && Connected(edges, j, k)
    ensures Connected(edges, i, k)
  {
    var p :| IsPath(edges, p, i, j);
    var q :| IsPath(edges, q, j, k);
    assert IsPath(edges, p + q[1..], i, k);
  }

  lemma {:induction false} ConnectedSym(edges: seq<Edge>, i: nat, j: nat)
    requires Connected(edges, i, j)
    ensures Connected(edges, j, i)
  {
    var p :| IsPath(edges, p, i, j);
    var q := seq(|p|, (k: nat) requires k < |p| => p[|p| - 1 - k]);
    forall k | 0 <= k < |q| - 1 ensures Adjacent(edges, q[k], q[k + 1]) {
      assert Adjacent(edges, p[|p| - 2 - k], p[|p| - 2 - k + 1]);
    }
    assert IsPath(edges, q, j, i);
  }

  lemma ConnectedGrows(edges: seq<Edge>, e: Edge, i: nat, j: nat)
    requires Connected(edges, i, j)
    ensures Connected(edges + [e], i, j)
  {
    var p :| IsPath(edges, p, i, j);
    assert IsPath(edges + [e], p, i, j);
  }

  // ---- Relabelling: the simple form ----

  /** Every member of `b`'s class takes the label of `a`'s class. */
  function Merge(rep: seq<nat>, a: nat, b: nat): (r: seq<nat>)
    requires a < |rep| && b < |rep|
    ensures |r| == |rep|
    ensures forall i :: 0 <= i < |rep| ==> r[i] == if rep[i] == rep[b] then rep[a] else rep[i]
  {
    seq(|rep|, (i: nat) requires i < |rep| => if rep[i] == rep[b] then rep[a] else rep[i])
  }

  predicate InRange(n: nat, edges: seq<Edge>) {
    forall k :: 0 <= k < |edges| ==> edges[k].0 < n && edges[k].1 < n
  }

  /** Labels after joining `edges` in order, starting from singletons. */
  function Labels(n: nat, edges: seq<Edge>): (r: seq<nat>)
    requires InRange(n, edges)
    ensures |r| == n
  {
    if edges == [] then seq(n, (i: nat) => i)
    else
      var last := |edges| - 1;
      Merge(Labels(n, edges[..last]), edges[last].0, edges[last].1)
  }

  /** Each label is the number of a member of the class it names. */
  lemma {:induction false} LabelsAreRoots(n: nat, edges: seq<Edge>)
    requires InRange(n, edges)
    ensures forall i :: 0 <= i < n ==> Labels(n, edges)[i] < n
    ensures forall i :: 0 <= i < n ==> Labels(n, edges)[Labels(n, edges)[i]] == Labels(n, edges)[i]
  {
    if edges != [] {
      LabelsAreRoots(n, edges[..|edges| - 1]);
    }
  }

  lemma {:induction false} LabelConstantOnPath(edges: seq<Edge>, rep: seq<nat>, path: seq<nat>, i: nat, j: nat)
    requires IsPath(edges, path, i, j) && i < |rep| && InRange(|rep|, edges)
    requires forall e :: e in edges ==> e.0 < |rep| && e.1 < |rep| && rep[e.0] == rep[e.1]
    ensures j < |rep| && rep[i] == rep[j]
    decreases |path|
  {
    if |path| > 1 {
      assert Adjacent(edges, path[0], path[0 + 1]);
      assert forall k :: 0 <= k < |path[1..]| - 1 ==> Adjacent(edges, path[1..][k], path[1..][k + 1])
      by {
        forall k | 0 <= k < |path[1..]| - 1 ensures Adjacent(edges, path[1..][k], path[1..][k + 1]) {
          assert Adjacent(edges, path[k + 1], path[k + 1 + 1]);
        }
      }
      LabelConstantOnPath(edges, rep, path[1..], path[1], j);
    }
  }

  lemma {:induction false} EdgesShareLabels(n: nat, edges: seq<Edge>)
    requires InRange(n, edges)
    ensures forall e :: e in edges ==> Labels(n, edges)[e.0] == Labels(n, edges)[e.1]
  {
    if edges != [] {
      var last := |edges| - 1;
      EdgesShareLabels(n, edges[..last]);
      assert edges == edges[..last] + [edges[last]];
    }
  }

  lemma {:induction false} SharedLabelIsConnected(n: nat, edges: seq<Edge>, i: nat, j: nat)
    requires InRange(n, edges) && i < n && j < n
    requires Labels(n, edges)[i] == Labels(n, edges)[j]
    ensures Connected(edges, i, j)
    decreases |edges|, 0
  {
    if edges == [] {
      ConnectedRefl(edges, i);
    } else {
      var last := |edges| - 1;
      var prior, e := edges[..last], edges[last];
      var rep := Labels(n, prior);
      assert edges == prior + [e];
      if rep[i] == rep[j] {
        SharedLabelIsConnected(n, prior, i, j);
        ConnectedGrows(prior, e, i, j);
      } else if rep[i] == rep[e.1] {
        CrossesNewEdge(n, prior, e, i, j);
      } else {
        CrossesNewEdge(n, prior, e, j, i);
        ConnectedSym(edges, j, i);
      }
    }
  }

  lemma {:induction false} CrossesNewEdge(n: nat, prior: seq<Edge>, e: Edge, i: nat, j: nat)
    requires InRange(n, prior) && e.0 < n && e.1 < n && i < n && j < n
    requires Labels(n, prior)[i] == Labels(n, prior)[e.1] && Labels(n, prior)[j] == Labels(n, prior)[e.0]
    ensures Connected(prior + [e], i, j)
    decreases |prior|, 1
  {
    var edges := prior + [e];
    SharedLabelIsConnected(n, prior, i, e.1);
    ConnectedGrows(prior, e, i, e.1);
    SharedLabelIsConnected(n, prior, e.0, j);
    ConnectedGrows(prior, e, e.0, j);
    assert IsPath(edges, [e.1, e.0], e.1, e.0);
    ConnectedTrans(edges, i, e.1, e.0);
    ConnectedTrans(edges, i, e.0, j);
  }

  /** Relabelling computes exactly the connected components of the joined pairs. */
  lemma {:induction false} LabelsAreComponents(n: nat, edges: seq<Edge>, i: nat, j: nat)
    requires InRange(n, edges) && i < n && j < n
    ensures Labels(n, edges)[i] == Labels(n, edges)[j] <==> Connected(edges, i, j)
  {
    if Labels(n, edges)[i] == Labels(n, edges)[j] {
      SharedLabelIsConnected(n, edges, i, j);
    }
    if Connected(edges, i, j) {
      var path :| IsPath(edges, path, i, j);
      EdgesShareLabels(n, edges);
      LabelConstantOnPath(edges, Labels(n, edges), path, i, j);
    }
  }

  // ---- The parent array: the fast form ----

  ghost predicate LinkOk(parents: seq<nat>, rep: seq<nat>, rank: seq<nat>, i: nat)
    requires |parents| == |rep| == |rank| && i < |parents|
  {
    && parents[i] < |parents| && rep[i] < |parents|
    && rep[parents[i]] == rep[i]
    && (parents[i] == i <==> rep[i] == i)
    && (parents[i] != i ==> rank[parents[i]] < rank[i])
  }

  /**
   * `parents` is a forest whose trees are the classes of `rep`, each rooted at its label.
   * `rank` falls along every parent link, so following links ends.
   */
  ghost predicate Forest(parents: seq<nat>, rep: seq<nat>, rank: seq<nat>) {
    && |parents| == |rep| == |rank|
    && forall i :: 0 <= i < |parents| ==> LinkOk(parents, rep, rank, i)
  }

  lemma HalvingKeepsForest(parents: seq<nat>, rep: seq<nat>, rank: seq<nat>, i: nat)
    requires Forest(parents, rep, rank) && i < |parents| && parents[i] != i
    ensures parents[i] < |parents| && parents[parents[i]] < |parents|
    ensures Forest(parents[i := parents[parents[i]]], rep, rank)
    ensures rank[parents[parents[i]]] < rank[i]
  {
    var up := parents[i];
    assert LinkOk(parents, rep, rank, i) && LinkOk(parents, rep, rank, up);
    var halved := parents[i := parents[up]];
    forall j | 0 <= j < |parents| ensures LinkOk(halved, rep, rank, j) {
      assert LinkOk(parents, rep, rank, j) && LinkOk(parents, rep, rank, parents[up]);
    }
  }

  /** The root of `index`, halving the path on the way: the classes are unchanged. */
  method Root(parents: array<nat>, index: nat, ghost rep: seq<nat>, ghost rank: seq<nat>) returns (root: nat)
    requires Forest(parents[..], rep, rank) && index < parents.Length
    modifies parents
    ensures Forest(parents[..], rep, rank)
    ensures root == rep[index] && root < parents.Length
  {
    root := index;
    while parents[root] != root
      invariant root < parents.Length && rep[root] == rep[index]
      invariant Forest(parents[..], rep, rank)
      decreases rank[root]
    {
      ghost var before := parents[..];
      assert LinkOk(before, rep, rank, root) && LinkOk(before, rep, rank, before[root]);
      parents[root] := parents[parents[root]];
      HalvingKeepsForest(before, rep, rank, root);
      assert parents[..] == before[root := before[before[root]]];
      root := parents[root];
      assert LinkOk(before, rep, rank, root);
    }
    assert LinkOk(parents[..], rep, rank, root);
  }

  /** Ranks after hanging the tree of root `b` below root `a`. */
  ghost function RanksAfterLink(rep: seq<nat>, rank: seq<nat>, a: nat, b: nat): (r: seq<nat>)
    requires |rep| == |rank| && a < |rep| && b < |rep|
    ensures |r| == |rank|
    ensures forall i :: 0 <= i < |rank| ==>
      r[i] == if a != b && rep[i] == b then rank[i] + rank[a] + 1 else rank[i]
  {
    seq(|rank|, (i: nat) requires i < |rank| =>
      if a != b && rep[i] == b then rank[i] + rank[a] + 1 else rank[i])
  }

  lemma {:induction false} RepIsRoot(parents: seq<nat>, rep: seq<nat>, rank: seq<nat>, i: nat)
    requires Forest(parents, rep, rank) && i < |parents|
    ensures rep[i] < |parents| && rep[rep[i]] == rep[i] && parents[rep[i]] == rep[i]
    decreases rank[i]
  {
    assert LinkOk(parents, rep, rank, i);
    if parents[i] != i { RepIsRoot(parents, rep, rank, parents[i]); }
  }

  lemma LinkKeepsForest(parents: seq<nat>, rep: seq<nat>, rank: seq<nat>, a: nat, b: nat)
    requires Forest(parents, rep, rank) && a < |parents| && b < |parents|
    requires rep[a] < |parents| && rep[b] < |parents|
    ensures Forest(parents[rep[b] := rep[a]], Merge(rep, a, b), RanksAfterLink(rep, rank, rep[a], rep[b]))
  {
    var ra, rb := rep[a], rep[b];
    var p, r, k := parents[rb := ra], Merge(rep, a, b), RanksAfterLink(rep, rank, ra, rb);
    RepIsRoot(parents, rep, rank, a);
    RepIsRoot(parents, rep, rank, b);
    forall i | 0 <= i < |p| ensures LinkOk(p, r, k, i) {
      assert LinkOk(parents, rep, rank, i);
    }
  }

  /** Join the classes of `a` and `b`: the array follows `Merge`. */
  method Join(parents: array<nat>, a: nat, b: nat, ghost rep: seq<nat>, ghost rank: seq<nat>)
    returns (ghost rank': seq<nat>)
    requires Forest(parents[..], rep, rank) && a < parents.Length && b < parents.Length
    modifies parents
    ensures Forest(parents[..], Merge(rep, a, b), rank')
  {
    var ra := Root(parents, a, rep, rank);
    var rb := Root(parents, b, rep, rank);
    LinkKeepsForest(parents[..], rep, rank, a, b);
    rank' := RanksAfterLink(rep, rank, ra, rb);
    ghost var before := parents[..];
    parents[rb] := ra;
    assert parents[..] == before[rb := ra];
  }
}
