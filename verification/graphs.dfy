/**
 The graph vocabulary of the visualiser: a finite directed graph over an
 abstract node type, paths and acyclicity, in-degree-0 nodes ("sources") of
 an induced subgraph, and weakly-connected components.

 An induced subgraph is never built as a separate value: it is the original
 edge set read through a node set `S`, so "in-degree 0 in the subgraph on S"
 is "no edge into the node from a node of S".
 */
module Graphs {

  /** Node identifiers. The visualiser only compares them for equality and
      hands them to a caller-supplied label function, so any type with
      equality would do; integers keep the model first-order. */
  type Node = int

  /** A directed graph: its node set and its set of ordered edges. */
  datatype Graph = Graph(nodes: set<Node>, edges: set<(Node, Node)>)

  /** `s` lists no element twice. */
  predicate Distinct(s: seq<Node>) {
    forall i, j :: 0 <= i < j < |s| ==> s[i] != s[j]
  }

  /** `order` is an enumeration of `S`: every element exactly once. It stands
      for the iteration order of the graph library's node sets. */
  ghost predicate Enumerates(order: seq<Node>, S: set<Node>) {
    Distinct(order) && forall v :: v in S <==> v in order
  }

  /** `p` walks along edges of `E` from its first to its last element. */
  ghost predicate IsPath(E: set<(Node, Node)>, p: seq<Node>) {
    |p| >= 1 && forall k :: 0 <= k < |p| - 1 ==> (p[k], p[k + 1]) in E
  }

  /** No walk of one or more edges returns to where it started. */
  ghost predicate Acyclic(g: Graph) {
    forall p :: IsPath(g.edges, p) && |p| >= 2 ==> p[0] != p[|p| - 1]
  }

  /** `v` has in-degree 0 in the subgraph induced by `S`. */
  predicate IsSource(E: set<(Node, Node)>, S: set<Node>, v: Node) {
    v in S && forall u :: u in S ==> (u, v) !in E
  }

  /** `C` is a union of weakly-connected components of the subgraph induced
      by `S`: no edge between two nodes of `S` has exactly one end in `C`. */
  ghost predicate Closed(E: set<(Node, Node)>, S: set<Node>, C: set<Node>) {
    forall a, b :: (a, b) in E && a in S && b in S ==> (a in C <==> b in C)
  }

  /** A distinct sequence has as many elements as the set of its elements. */
  lemma {:induction false} DistinctCard(s: seq<Node>, S: set<Node>)
    requires Distinct(s)
    requires forall v :: v in S <==> v in s
    ensures |S| == |s|
  {
    if |s| > 0 {
      var t := s[1..];
      assert Distinct(t);
      assert forall v :: v in S - {s[0]} <==> v in t by {
        forall v
          ensures v in S - {s[0]} <==> v in t
        {
          if v in t {
            var k :| 0 <= k < |t| && t[k] == v;
            assert s[k + 1] == v;
          }
          if v in s && v != s[0] {
            var k :| 0 <= k < |s| && s[k] == v;
            assert t[k - 1] == v;
          }
        }
      }
      DistinctCard(t, S - {s[0]});
      assert s[0] in s;
      assert S == (S - {s[0]}) + {s[0]};
    } else {
      assert forall v :: v !in S;
      assert S == {};
    }
  }

  lemma NonEmpty(S: set<Node>)
    requires S != {}
    ensures exists v :: v in S
  {
    if forall v :: v !in S { assert false; }
  }

  /** Pigeonhole: more entries than there are values means a repetition. */
  lemma {:induction false} Repetition(p: seq<Node>, S: set<Node>) returns (i: nat, j: nat)
    requires forall k :: 0 <= k < |p| ==> p[k] in S
    requires |p| > |S|
    ensures i < j < |p| && p[i] == p[j]
  {
    if p[0] in p[1..] {
      var k :| 0 <= k < |p| - 1 && p[1..][k] == p[0];
      i, j := 0, k + 1;
    } else {
      var i', j' := Repetition(p[1..], S - {p[0]});
      i, j := i' + 1, j' + 1;
    }
  }

  /** Some node of `S` has an edge into `v`. */
  ghost predicate HasPredecessorIn(E: set<(Node, Node)>, S: set<Node>, v: Node) {
    exists u :: u in S && (u, v) in E
  }

  /** If every node of `S` has a predecessor in `S`, walks of any length can be
      built backwards inside `S`. */
  lemma {:induction false} BackwardWalk(E: set<(Node, Node)>, S: set<Node>, n: nat) returns (p: seq<Node>)
    requires S != {}
    requires forall v :: v in S ==> HasPredecessorIn(E, S, v)
    requires n >= 1
    ensures |p| == n && IsPath(E, p)
    ensures forall k :: 0 <= k < |p| ==> p[k] in S
  {
    if n == 1 {
      NonEmpty(S);
      var v :| v in S;
      p := [v];
    } else {
      var q := BackwardWalk(E, S, n - 1);
      assert HasPredecessorIn(E, S, q[0]);
      var u :| u in S && (u, q[0]) in E;
      p := [u] + q;
      forall k | 0 <= k < |p| - 1
        ensures (p[k], p[k + 1]) in E
      {
        if k > 0 {
          assert p[k] == q[k - 1] && p[k + 1] == q[k];
        }
      }
    }
  }

  /** Every non-empty node set of an acyclic graph has a node of in-degree 0
      in the subgraph it induces; this is what makes source peeling end. */
  lemma {:induction false} SourceExists(g: Graph, S: set<Node>)
    requires Acyclic(g)
    requires S != {}
    ensures exists v :: IsSource(g.edges, S, v)
  {
    if !exists v :: IsSource(g.edges, S, v) {
      forall v | v in S
        ensures HasPredecessorIn(g.edges, S, v)
      {
        assert !IsSource(g.edges, S, v);
      }
      var p := BackwardWalk(g.edges, S, |S| + 1);
      var i, j := Repetition(p, S);
      var cycle := p[i..j + 1];
      assert IsPath(g.edges, cycle) by {
        forall k | 0 <= k < |cycle| - 1
          ensures (cycle[k], cycle[k + 1]) in g.edges
        {
          assert cycle[k] == p[i + k] && cycle[k + 1] == p[i + k + 1];
        }
      }
      assert false;
    }
  }

  /** `a` and `x` are joined by an edge, in either direction. */
  predicate Linked(E: set<(Node, Node)>, a: Node, x: Node) {
    (a, x) in E || (x, a) in E
  }

  /** The nodes of `S` joined to `C` by one edge, in either direction. */
  function Adjacent(E: set<(Node, Node)>, S: set<Node>, C: set<Node>): (r: set<Node>)
    requires C <= S
    ensures r <= S
    ensures forall a, b :: (a, b) in E && a in S && b in S && a in C ==> b in r
    ensures forall a, b :: (a, b) in E && a in S && b in S && b in C ==> a in r
  {
    set x | x in S && exists a :: a in C && Linked(E, a, x)
  }

  /** A closed superset of `C` contains everything adjacent to `C`. */
  lemma AdjacentWithin(E: set<(Node, Node)>, S: set<Node>, C: set<Node>, D: set<Node>)
    requires C <= S && C <= D && Closed(E, S, D)
    ensures Adjacent(E, S, C) <= D
  {
    forall x | x in Adjacent(E, S, C)
      ensures x in D
    {
      var a :| a in C && Linked(E, a, x);
      if (a, x) in E {
        assert a in S && x in S;
      } else {
        assert a in S && x in S;
      }
    }
  }

  lemma ProperSubsetCard(A: set<Node>, B: set<Node>)
    requires A < B
    ensures |A| < |B|
  {
    var D := B - A;
    assert D != {} by {
      if D == {} { assert false; }
    }
    assert B == A + D && A * D == {};
    assert |B| == |A| + |D|;
  }

  /** Widens `C` by adjacent nodes until nothing more can be added: the least
      union of components of `S` that contains `C`. */
  function Grow(E: set<(Node, Node)>, S: set<Node>, C: set<Node>): (r: set<Node>)
    requires C <= S
    ensures C <= r <= S
    ensures Closed(E, S, r)
    ensures forall D :: C <= D <= S && Closed(E, S, D) ==> r <= D
    decreases |S - C|
  {
    var C' := C + Adjacent(E, S, C);
    assert forall D :: C <= D <= S && Closed(E, S, D) ==> C' <= D by {
      forall D | C <= D <= S && Closed(E, S, D)
        ensures C' <= D
      {
        AdjacentWithin(E, S, C, D);
      }
    }
    if C' == C then C
    else
      ProperSubsetCard(S - C', S - C);
      Grow(E, S, C')
  }

  /** The weakly-connected component of `x` in the subgraph induced by `S`:
      the least edge-closed part of `S` that contains `x`. */
  function Component(E: set<(Node, Node)>, S: set<Node>, x: Node): (r: set<Node>)
    requires x in S
    ensures x in r && r <= S
    ensures Closed(E, S, r)
    ensures forall D :: x in D && D <= S && Closed(E, S, D) ==> r <= D
  {
    Grow(E, S, {x})
  }

  /** The part of a closed set outside a closed subset is closed too. */
  lemma ComplementClosed(E: set<(Node, Node)>, S: set<Node>, C: set<Node>, D: set<Node>)
    requires D <= C && Closed(E, S, C) && Closed(E, S, D)
    ensures Closed(E, S, C - D)
  {
  }

  /** A component cannot be cut: no non-empty proper part of it is closed,
      since either that part or the rest of the component would be a closed
      set holding `x` smaller than the component. */
  lemma ComponentIndivisible(E: set<(Node, Node)>, S: set<Node>, x: Node, D: set<Node>)
    requires x in S
    requires D != {} && D < Component(E, S, x)
    ensures !Closed(E, S, D)
  {
    var C := Component(E, S, x);
    NonEmpty(D);
    var v :| v in D;
    if Closed(E, S, D) {
      ComplementClosed(E, S, C, D);
      assert false;
    }
  }

  /** Beside a closed set `C`, a set `M` of the remaining nodes is closed
      among those nodes exactly when `C + M` is closed in `S`. */
  lemma ClosedBeside(E: set<(Node, Node)>, S: set<Node>, C: set<Node>, M: set<Node>)
    requires C <= S && Closed(E, S, C) && M <= S - C
    ensures Closed(E, S, C + M) <==> Closed(E, S - C, M)
  {
  }

  /** Every member of a component has that same component. */
  lemma ComponentOfMember(E: set<(Node, Node)>, S: set<Node>, x: Node, y: Node)
    requires x in S && y in Component(E, S, x)
    ensures Component(E, S, y) == Component(E, S, x)
  {
    var D := Component(E, S, y);
    if D != Component(E, S, x) {
      ComponentIndivisible(E, S, x, D);
      assert false;
    }
  }

  /** Cutting a closed set away from `S` leaves the component of every
      remaining node as it was. */
  lemma ComponentBeside(E: set<(Node, Node)>, S: set<Node>, C: set<Node>, y: Node)
    requires C <= S && Closed(E, S, C) && y in S - C
    ensures Component(E, S - C, y) == Component(E, S, y)
  {
    var D := Component(E, S - C, y);
    ClosedBeside(E, S, C, D);
    ComplementClosed(E, S, C + D, C);
    assert (C + D) - C == D;
  }

  /** The first element of `order` that lies in `S`: the node from which the
      graph library starts its next component. */
  function FirstIn(order: seq<Node>, S: set<Node>): (x: Node)
    requires exists k :: 0 <= k < |order| && order[k] in S
    ensures x in S
    ensures exists k :: 0 <= k < |order| && order[k] == x &&
                        forall k' :: 0 <= k' < k ==> order[k'] !in S
  {
    if order[0] in S then order[0]
    else
      assert exists k :: 0 <= k < |order[1..]| && order[1..][k] in S by {
        var k :| 0 <= k < |order| && order[k] in S;
        assert order[1..][k - 1] == order[k];
      }
      var x := FirstIn(order[1..], S);
      var k :| 0 <= k < |order[1..]| && order[1..][k] == x &&
               forall k' :: 0 <= k' < k ==> order[1..][k'] !in S;
      assert order[k + 1] == x;
      assert forall k' :: 0 <= k' < k + 1 ==> order[k'] !in S by {
        forall k' | 0 <= k' < k + 1
          ensures order[k'] !in S
        {
          if k' > 0 { assert order[k'] == order[1..][k' - 1]; }
        }
      }
      x
  }
}
