/** The decorative network of the archive section: twelve nodes on a circle, each joined to the
    next one around the ring, and every even node also joined to the node opposite it. Nodes are
    named by their index, which is also their id. */
module NetworkTopology {

  /** The number of nodes the section builds. */
  const NodeCount: nat := 12
  /** How far round the ring an "opposite" edge reaches. */
  const OppositeOffset: nat := 6

  datatype Edge = Edge(from: nat, to: nat)

  /** The edges that iteration `i` of the loop pushes, in push order. */
  function EdgesFrom(n: nat, i: nat): seq<Edge>
    requires i < n
  {
    [Edge(i, (i + 1) % n)] + if i % 2 == 0 then [Edge(i, (i + OppositeOffset) % n)] else []
  }

  /** The list after the first `m` iterations of the loop over `n` nodes. */
  function Connections(n: nat, m: nat): seq<Edge>
    requires m <= n
  {
    if m == 0 then [] else Connections(n, m - 1) + EdgesFrom(n, m - 1)
  }

  /** The position of the first edge from node `i`: every node before it contributed its ring
      edge and every even node before it an opposite edge as well. */
  function GroupStart(i: nat): nat {
    i + (i + 1) / 2
  }

  predicate IsRingEdge(n: nat, e: Edge) {
    e.from < n && e.to == (e.from + 1) % n
  }

  predicate IsOppositeEdge(n: nat, e: Edge) {
    e.from < n && e.from % 2 == 0 && e.to == (e.from + OppositeOffset) % n
  }

  /** After `m` iterations the list holds `m` ring edges and one opposite edge for each even
      index below `m`. */
  lemma {:induction false} ConnectionsLength(n: nat, m: nat)
    requires m <= n
    ensures |Connections(n, m)| == GroupStart(m)
  {
    if m > 0 {
      ConnectionsLength(n, m - 1);
    }
  }

  /** Each edge sits in the block of its source: the edges from node `i` occupy positions
      `GroupStart(i)` up to `GroupStart(i + 1)`, the ring edge first and, for an even `i`, the
      opposite edge second. No other edge occurs. */
  lemma {:induction false} ConnectionsBlock(n: nat, m: nat, k: nat)
    requires m <= n && k < |Connections(n, m)|
    ensures var e := Connections(n, m)[k];
      e.from < m && GroupStart(e.from) <= k < GroupStart(e.from + 1)
    ensures var e := Connections(n, m)[k];
      if k == GroupStart(e.from) then IsRingEdge(n, e) else IsOppositeEdge(n, e)
  {
    ConnectionsLength(n, m - 1);
    if k >= GroupStart(m - 1) {
      assert Connections(n, m)[k] == EdgesFrom(n, m - 1)[k - GroupStart(m - 1)];
    } else {
      assert Connections(n, m)[k] == Connections(n, m - 1)[k];
      ConnectionsBlock(n, m - 1, k);
    }
  }

  /** The ring edge of every node below `m` is present at the head of its block, and the
      opposite edge of every even node right after it. */
  lemma {:induction false} ConnectionsAt(n: nat, m: nat, i: nat)
    requires i < m <= n
    ensures GroupStart(i) + (if i % 2 == 0 then 1 else 0) < |Connections(n, m)|
    ensures Connections(n, m)[GroupStart(i)] == Edge(i, (i + 1) % n)
    ensures i % 2 == 0 ==> Connections(n, m)[GroupStart(i) + 1] == Edge(i, (i + OppositeOffset) % n)
  {
    var prev := Connections(n, m - 1);
    assert Connections(n, m) == prev + EdgesFrom(n, m - 1);
    ConnectionsLength(n, m - 1);
    if i < m - 1 {
      ConnectionsAt(n, m - 1, i);
    } else {
      assert |prev| == GroupStart(i);
    }
  }

  /** Edges appear grouped by ascending source. */
  lemma SourcesAscending(n: nat, m: nat, j: nat, k: nat)
    requires m <= n && j <= k < |Connections(n, m)|
    ensures Connections(n, m)[j].from <= Connections(n, m)[k].from
  {
    ConnectionsBlock(n, m, j);
    ConnectionsBlock(n, m, k);
  }

  /** The opposite edge from `i` is in the list exactly when `i` is even, unless it coincides
      with the ring edge of `i`. */
  lemma OppositeEdgeIffEven(n: nat, i: nat)
    requires i < n
    requires (i + OppositeOffset) % n != (i + 1) % n
    ensures Edge(i, (i + OppositeOffset) % n) in Connections(n, n) <==> i % 2 == 0
  {
    var c := Connections(n, n);
    if i % 2 == 0 {
      ConnectionsAt(n, n, i);
    } else if Edge(i, (i + OppositeOffset) % n) in c {
      var k :| 0 <= k < |c| && c[k] == Edge(i, (i + OppositeOffset) % n);
      ConnectionsBlock(n, n, k);
    }
  }

  /** The `connections` loop: for each node, push its ring edge and, when its index is even, its
      opposite edge. */
  method BuildConnections(n: nat) returns (conns: seq<Edge>)
    ensures conns == Connections(n, n)
    ensures |conns| == n + (n + 1) / 2
    ensures forall k :: 0 <= k < |conns| ==> conns[k].from < n && conns[k].to < n
    ensures forall i :: 0 <= i < n ==>
      GroupStart(i) < |conns| && conns[GroupStart(i)] == Edge(i, (i + 1) % n)
    ensures forall i :: 0 <= i < n && i % 2 == 0 ==>
      GroupStart(i) + 1 < |conns| && conns[GroupStart(i) + 1] == Edge(i, (i + OppositeOffset) % n)
  {
    conns := [];
    for i := 0 to n
      invariant conns == Connections(n, i)
    {
      var next := (i + 1) % n;
      var opposite := (i + OppositeOffset) % n;
      conns := conns + [Edge(i, next)];
      if i % 2 == 0 {
        conns := conns + [Edge(i, opposite)];
      }
    }
    ConnectionsLength(n, n);
    forall k | 0 <= k < |conns| ensures conns[k].from < n && conns[k].to < n {
      ConnectionsEdgeKind(n, n, k);
    }
    forall i | 0 <= i < n
      ensures GroupStart(i) + (if i % 2 == 0 then 1 else 0) < |conns|
      ensures conns[GroupStart(i)] == Edge(i, (i + 1) % n)
      ensures i % 2 == 0 ==> conns[GroupStart(i) + 1] == Edge(i, (i + OppositeOffset) % n)
    {
      ConnectionsAt(n, n, i);
    }
  }

  // The twelve-node lemmas below take the node count as a parameter `n` equal to `NodeCount`
  // rather than the constant itself: with the constant as argument the verifier unfolds
  // `Connections` eagerly on it, which makes these proofs unstable.

  /** For the twelve nodes: eighteen edges, of which the first six (the ones the data-flow
      particles travel) are 0-1, 0-6, 1-2, 2-3, 2-8 and 3-4. */
  lemma TwelveNodeConnections(n: nat)
    requires n == NodeCount
    ensures |Connections(n, n)| == 18
    ensures Connections(n, n)[..6] ==
      [Edge(0, 1), Edge(0, 6), Edge(1, 2), Edge(2, 3), Edge(2, 8), Edge(3, 4)]
  {
    ConnectionsLength(n, n);
    ConnectionsAt(n, n, 0);
    ConnectionsAt(n, n, 1);
    ConnectionsAt(n, n, 2);
    ConnectionsAt(n, n, 3);
  }

  /** Every edge is the ring edge of its source or the opposite edge of an even source. */
  lemma ConnectionsEdgeKind(n: nat, m: nat, k: nat)
    requires m <= n && k < |Connections(n, m)|
    ensures Connections(n, m)[k].from < m
    ensures IsRingEdge(n, Connections(n, m)[k]) || IsOppositeEdge(n, Connections(n, m)[k])
  {
    ConnectionsBlock(n, m, k);
  }

  /** Arithmetic of the twelve-node ring: stepping by one or by six never returns to the
      start, and stepping by six twice does. */
  lemma TwelveNodeSteps(n: nat, i: nat)
    requires n == NodeCount && i < n
    ensures (i + 1) % n == (if i == 11 then 0 else i + 1)
    ensures (i + OppositeOffset) % n == (if i < 6 then i + 6 else i - 6)
  {
    assert n == 12;
  }

  /** For the twelve nodes no edge is a self-loop. */
  lemma TwelveNodeNoSelfLoop(n: nat, k: nat)
    requires n == NodeCount && k < |Connections(n, n)|
    ensures Connections(n, n)[k].from != Connections(n, n)[k].to
  {
    ConnectionsEdgeKind(n, n, k);
    TwelveNodeSteps(n, Connections(n, n)[k].from);
  }

  /** For the twelve nodes each opposite edge is matched by its reverse, so each of the three
      diameters is drawn twice. */
  lemma TwelveNodeDiametersTwice(n: nat, i: nat)
    requires n == NodeCount && i < n && i % 2 == 0
    ensures Edge(i, (i + OppositeOffset) % n) in Connections(n, n)
    ensures Edge((i + OppositeOffset) % n, i) in Connections(n, n)
  {
    var c := Connections(n, n);
    var j := (i + OppositeOffset) % n;
    TwelveNodeSteps(n, i);
    TwelveNodeSteps(n, j);
    assert j % 2 == 0 && (j + OppositeOffset) % n == i;
    ConnectionsAt(n, n, i);
    ConnectionsAt(n, n, j);
    assert c[GroupStart(i) + 1] == Edge(i, j);
    assert c[GroupStart(j) + 1] == Edge(j, i);
  }
}
