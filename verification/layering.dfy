/**
 The layering phase of `visualize_dag`: peeling in-degree-0 nodes off each
 weakly-connected component, giving every node a row (its output line) and
 an indent (its horizontal depth, in units of two characters).

 The graph library's iteration order over node sets is not fixed by the
 algorithm; it is modelled by one enumeration `order` of all nodes, through
 which both the sources of a component and the order of components are read.
 Every property below holds for every such enumeration.
 */
module Layering {
  import opened Graphs

  /** The result of the peeling: `rows` lists the nodes in output order, and
      `indents[i]` is the indent of the node on row `i`. */
  datatype Layout = Layout(rows: seq<Node>, indents: seq<nat>)

  /** The layout lists the nodes of `S`, each exactly once, with one indent
      per row. */
  ghost predicate Covers(L: Layout, S: set<Node>) {
    |L.rows| == |L.indents| && Distinct(L.rows) && forall v :: v in S <==> v in L.rows
  }

  /** No indent is below the baseline `b`. */
  ghost predicate AtLeast(L: Layout, b: nat) {
    forall i :: 0 <= i < |L.indents| ==> L.indents[i] >= b
  }

  /** Every edge between two listed nodes goes downwards. */
  ghost predicate Topological(E: set<(Node, Node)>, rows: seq<Node>) {
    forall i, j :: 0 <= i < |rows| && 0 <= j < |rows| && (rows[i], rows[j]) in E ==> i < j
  }

  /** Every row below the tail of an edge, down to and including its head, is
      indented strictly deeper than the tail. This is what keeps every cell the
      renderer writes inside the row buffers. */
  ghost predicate Nested(E: set<(Node, Node)>, L: Layout) {
    |L.rows| == |L.indents| &&
    forall i, r, j :: 0 <= i < r <= j < |L.rows| && (L.rows[i], L.rows[j]) in E ==>
      L.indents[r] > L.indents[i]
  }

  /** `L` is a valid layering of the subgraph induced by `S` from baseline `b`. */
  ghost predicate Layered(E: set<(Node, Node)>, S: set<Node>, b: nat, L: Layout) {
    Covers(L, S) && AtLeast(L, b) && Topological(E, L.rows) && Nested(E, L)
  }

  /** The rows return to the baseline `b` exactly where a new
      weakly-connected component of the subgraph induced by `S` begins: row
      `k` sits at `b` exactly when the nodes above it form whole components,
      and, for a row of `S`, exactly when none of the nodes above it lies in
      its own component. */
  ghost predicate Restarts(E: set<(Node, Node)>, S: set<Node>, b: nat, L: Layout) {
    |L.rows| == |L.indents| &&
    forall k :: 0 <= k < |L.rows| ==>
      (L.indents[k] == b <==> WholeAbove(E, S, L.rows, k)) &&
      (L.rows[k] in S ==> (L.indents[k] == b <==> NewComponent(E, S, L.rows, k)))
  }

  /** The nodes above row `k` form whole components of `S`. */
  ghost predicate WholeAbove(E: set<(Node, Node)>, S: set<Node>, rows: seq<Node>, k: int)
    requires 0 <= k <= |rows|
  {
    Closed(E, S, Members(rows[..k]))
  }

  /** No node above row `k` lies in the component of row `k`. */
  ghost predicate NewComponent(E: set<(Node, Node)>, S: set<Node>, rows: seq<Node>, k: int)
    requires 0 <= k < |rows| && rows[k] in S
  {
    Members(rows[..k]) !! Component(E, S, rows[k])
  }

  /** The baseline of what is left of a component once its `n` sources are
      placed: `n` indents deeper. */
  function Deeper(indent: nat, n: nat): nat {
    indent + n
  }

  /** The indents `from, from + 1, ..., from + n - 1`. */
  function Ladder(from: nat, n: nat): (r: seq<nat>)
    ensures |r| == n
    ensures forall k :: 0 <= k < n ==> r[k] == from + k
  {
    if n == 0 then [] else Ladder(from, n - 1) + [from + n - 1]
  }

  /** The nodes of `C` with in-degree 0 in the subgraph `C` induces, each
      taken from `order` and listed once. */
  function Sources(E: set<(Node, Node)>, C: set<Node>, order: seq<Node>): (r: seq<Node>)
    ensures forall k :: 0 <= k < |r| ==> IsSource(E, C, r[k])
    ensures forall v :: v in order && IsSource(E, C, v) ==> v in r
    ensures forall v :: v in r ==> v in order
    ensures Distinct(order) ==> Distinct(r)
  {
    if |order| == 0 then []
    else
      var rest := Sources(E, C, order[1..]);
      assert forall v :: v in order && v != order[0] ==> v in order[1..];
      if IsSource(E, C, order[0]) then [order[0]] + rest else rest
  }

  /** The nodes a sequence lists. */
  function Members(s: seq<Node>): (r: set<Node>)
    ensures forall v :: v in r <==> v in s
  {
    set v | v in s
  }

  /** The concatenation of two layouts. */
  function Append(a: Layout, b: Layout): Layout {
    Layout(a.rows + b.rows, a.indents + b.indents)
  }

  /** Laying out a closed part `C` of `S` and then the rest of `S` from the same
      baseline lays out all of `S`. */
  lemma AppendComponent(E: set<(Node, Node)>, S: set<Node>, C: set<Node>, b: nat,
                        a: Layout, rest: Layout)
    requires C <= S && Closed(E, S, C)
    requires Layered(E, C, b, a) && Layered(E, S - C, b, rest)
    ensures Layered(E, S, b, Append(a, rest))
  {
    forall k | 0 <= k < |a.rows|
      ensures a.rows[k] in C
    {
      assert a.rows[k] in a.rows;
    }
    forall k | 0 <= k < |rest.rows|
      ensures rest.rows[k] in S - C
    {
      assert rest.rows[k] in rest.rows;
    }
    AppendComponentCovers(S, C, b, a, rest);
    AppendComponentOrder(E, S, C, a, rest);
  }

  lemma AppendComponentCovers(S: set<Node>, C: set<Node>, b: nat, a: Layout, rest: Layout)
    requires C <= S
    requires Covers(a, C) && AtLeast(a, b) && Covers(rest, S - C) && AtLeast(rest, b)
    ensures Covers(Append(a, rest), S) && AtLeast(Append(a, rest), b)
  {
    var L := Append(a, rest);
    var m := |a.rows|;
    assert forall i :: 0 <= i < m ==> L.rows[i] == a.rows[i] && L.indents[i] == a.indents[i];
    assert forall i :: m <= i < |L.rows| ==> L.rows[i] == rest.rows[i - m] && L.indents[i] == rest.indents[i - m];
    forall i, j | 0 <= i < j < |L.rows|
      ensures L.rows[i] != L.rows[j]
    {
      if j < m {
      } else if i >= m {
        assert rest.rows[i - m] != rest.rows[j - m];
      } else {
        assert a.rows[i] in C;
        assert rest.rows[j - m] in S - C;
      }
    }
    forall v
      ensures v in S <==> v in L.rows
    {
      if v in C {
        assert v in a.rows;
      } else if v in S {
        assert v in rest.rows;
      }
    }
  }

  lemma AppendComponentOrder(E: set<(Node, Node)>, S: set<Node>, C: set<Node>, a: Layout, rest: Layout)
    requires C <= S && Closed(E, S, C)
    requires |a.rows| == |a.indents| && |rest.rows| == |rest.indents|
    requires forall k :: 0 <= k < |a.rows| ==> a.rows[k] in C
    requires forall k :: 0 <= k < |rest.rows| ==> rest.rows[k] in S - C
    requires Topological(E, a.rows) && Nested(E, a)
    requires Topological(E, rest.rows) && Nested(E, rest)
    ensures Topological(E, Append(a, rest).rows) && Nested(E, Append(a, rest))
  {
    var L := Append(a, rest);
    var m := |a.rows|;
    assert forall i :: 0 <= i < m ==> L.rows[i] == a.rows[i] && L.indents[i] == a.indents[i];
    assert forall i :: m <= i < |L.rows| ==> L.rows[i] == rest.rows[i - m] && L.indents[i] == rest.indents[i - m];
    forall i, j | 0 <= i < |L.rows| && 0 <= j < |L.rows| && (L.rows[i], L.rows[j]) in E
      ensures i < j
    {
      if i < m && j < m {
        assert (a.rows[i], a.rows[j]) in E;
      } else if i >= m && j >= m {
        assert (rest.rows[i - m], rest.rows[j - m]) in E;
      } else if i >= m {
        assert false;
      }
    }
    forall i, r, j | 0 <= i < r <= j < |L.rows| && (L.rows[i], L.rows[j]) in E
      ensures L.indents[r] > L.indents[i]
    {
      if j < m {
        assert (a.rows[i], a.rows[j]) in E;
      } else if i >= m {
        assert (rest.rows[i - m], rest.rows[j - m]) in E;
      } else {
        assert false;
      }
    }
  }

  /** A run of sources of `C` at consecutive indents from `b`, followed by a
      layering of the rest of `C` from `Deeper(b, |src|)`, lays out all of `C`. */
  lemma {:induction false} SourcesThenRest(E: set<(Node, Node)>, C: set<Node>, b: nat,
                                           src: seq<Node>, rest: Layout)
    requires Distinct(src)
    requires forall k :: 0 <= k < |src| ==> IsSource(E, C, src[k])
    requires Layered(E, C - Members(src), Deeper(b, |src|), rest)
    ensures Layered(E, C, b, Append(Layout(src, Ladder(b, |src|)), rest))
  {
    var L := Append(Layout(src, Ladder(b, |src|)), rest);
    SourcesThenRestCovers(E, C, b, src, rest);
    SourcesThenRestOrder(E, C, b, src, rest);
  }

  lemma SourcesThenRestCovers(E: set<(Node, Node)>, C: set<Node>, b: nat,
                              src: seq<Node>, rest: Layout)
    requires Distinct(src)
    requires forall k :: 0 <= k < |src| ==> IsSource(E, C, src[k])
    requires Covers(rest, C - Members(src)) && AtLeast(rest, b + |src|)
    ensures Covers(Append(Layout(src, Ladder(b, |src|)), rest), C)
    ensures AtLeast(Append(Layout(src, Ladder(b, |src|)), rest), b)
  {
    SourcesThenRestDistinct(E, C, src, rest);
    SourcesThenRestMembers(E, C, src, rest);
  }

  lemma SourcesThenRestDistinct(E: set<(Node, Node)>, C: set<Node>, src: seq<Node>, rest: Layout)
    requires Distinct(src)
    requires Distinct(rest.rows) && forall v :: v in rest.rows ==> v in C - Members(src)
    ensures Distinct(src + rest.rows)
  {
    var rows := src + rest.rows;
    var m := |src|;
    forall i, j | 0 <= i < j < |rows|
      ensures rows[i] != rows[j]
    {
      if j < m {
        assert rows[i] == src[i] && rows[j] == src[j];
      } else if i >= m {
        assert rows[i] == rest.rows[i - m] && rows[j] == rest.rows[j - m];
      } else {
        assert rows[i] == src[i] && rows[i] in Members(src);
        assert rows[j] == rest.rows[j - m] && rows[j] in rest.rows;
      }
    }
  }

  lemma SourcesThenRestMembers(E: set<(Node, Node)>, C: set<Node>, src: seq<Node>, rest: Layout)
    requires forall k :: 0 <= k < |src| ==> IsSource(E, C, src[k])
    requires forall v :: v in C - Members(src) <==> v in rest.rows
    ensures forall v :: v in C <==> v in src + rest.rows
  {
    forall v
      ensures v in C <==> v in src + rest.rows
    {
      if v in src {
        var k :| 0 <= k < |src| && src[k] == v;
        assert IsSource(E, C, src[k]);
      }
    }
  }

  lemma SourcesThenRestOrder(E: set<(Node, Node)>, C: set<Node>, b: nat,
                             src: seq<Node>, rest: Layout)
    requires forall k :: 0 <= k < |src| ==> IsSource(E, C, src[k])
    requires Covers(Append(Layout(src, Ladder(b, |src|)), rest), C)
    requires AtLeast(rest, b + |src|)
    requires Topological(E, rest.rows) && Nested(E, rest)
    ensures Topological(E, Append(Layout(src, Ladder(b, |src|)), rest).rows)
    ensures Nested(E, Append(Layout(src, Ladder(b, |src|)), rest))
  {
    var L := Append(Layout(src, Ladder(b, |src|)), rest);
    forall k | 0 <= k < |rest.rows|
      ensures rest.rows[k] in C
    {
      assert L.rows[k + |src|] == rest.rows[k];
    }
    SourcesThenRestTopological(E, C, src, rest.rows);
    SourcesThenRestNested(E, C, b, src, rest);
  }

  lemma SourcesThenRestTopological(E: set<(Node, Node)>, C: set<Node>, src: seq<Node>, rest: seq<Node>)
    requires forall k :: 0 <= k < |src| ==> IsSource(E, C, src[k])
    requires forall k :: 0 <= k < |rest| ==> rest[k] in C
    requires Topological(E, rest)
    ensures Topological(E, src + rest)
  {
    var rows := src + rest;
    var m := |src|;
    assert forall i :: 0 <= i < m ==> rows[i] == src[i] && IsSource(E, C, rows[i]);
    assert forall i :: m <= i < |rows| ==> rows[i] == rest[i - m] && rows[i] in C;
    forall i, j | 0 <= i < |rows| && 0 <= j < |rows| && (rows[i], rows[j]) in E
      ensures i < j
    {
      if j < m {
        assert false;
      } else if i >= m {
        assert (rest[i - m], rest[j - m]) in E;
      }
    }
  }

  lemma SourcesThenRestNested(E: set<(Node, Node)>, C: set<Node>, b: nat, src: seq<Node>, rest: Layout)
    requires |rest.rows| == |rest.indents|
    requires AtLeast(rest, b + |src|)
    requires Nested(E, rest)
    ensures Nested(E, Append(Layout(src, Ladder(b, |src|)), rest))
  {
    var L := Append(Layout(src, Ladder(b, |src|)), rest);
    var m := |src|;
    forall i, r, j | 0 <= i < r <= j < |L.rows| && (L.rows[i], L.rows[j]) in E
      ensures L.indents[r] > L.indents[i]
    {
      if i >= m {
        assert L.rows[i] == rest.rows[i - m] && L.rows[j] == rest.rows[j - m];
        assert L.indents[r] == rest.indents[r - m] && L.indents[i] == rest.indents[i - m];
      } else if r >= m {
        assert L.indents[r] == rest.indents[r - m] >= b + m;
        assert L.indents[i] == b + i;
      } else {
        assert L.indents[r] == b + r && L.indents[i] == b + i;
      }
    }
  }

  /** An appended layout splits back into its two parts. */
  lemma AppendSplit(a: Layout, c: Layout)
    requires |a.rows| == |a.indents|
    ensures var r := Append(a, c);
      r.rows[..|a.rows|] == a.rows && Layout(r.rows[|a.rows|..], r.indents[|a.rows|..]) == c
    ensures var r := Append(a, c);
      (forall k :: 0 <= k < |a.indents| ==> r.indents[k] == a.indents[k]) &&
      (forall k :: |a.indents| <= k < |r.indents| ==> r.indents[k] == c.indents[k - |a.indents|])
  {
    var r := Append(a, c);
    assert r.rows[|a.rows|..] == c.rows;
    assert r.indents[|a.rows|..] == c.indents;
  }

  /** The part of an appended layout after its first part keeps the
      baseline structure of that second part. */
  lemma AppendRestartsRest(E: set<(Node, Node)>, S: set<Node>, b: nat, a: Layout, c: Layout)
    requires |a.rows| == |a.indents| && Restarts(E, S, b, c)
    ensures var r := Append(a, c);
      Restarts(E, S, b, Layout(r.rows[|a.rows|..], r.indents[|a.rows|..]))
  {
    AppendSplit(a, c);
  }

  /** A component laid out first, its first row at the baseline and every
      other row deeper, followed by the rest laid out so that each of its
      components restarts at the baseline: then every component of the whole
      restarts at the baseline. */
  lemma AppendRestarts(E: set<(Node, Node)>, S: set<Node>, x: Node, b: nat, head: Layout, tail: Layout)
    requires x in S
    requires Covers(head, Component(E, S, x)) && |head.rows| > 0 && head.indents[0] == b
    requires forall k :: 0 < k < |head.indents| ==> head.indents[k] > b
    requires Covers(tail, S - Component(E, S, x)) && Restarts(E, S - Component(E, S, x), b, tail)
    ensures Restarts(E, S, b, Append(head, tail))
  {
    AppendWhole(E, S, x, b, head, tail);
    AppendFresh(E, S, x, b, head, tail);
  }

  /** The whole-components half of `AppendRestarts`. */
  lemma AppendWhole(E: set<(Node, Node)>, S: set<Node>, x: Node, b: nat, head: Layout, tail: Layout)
    requires x in S
    requires Covers(head, Component(E, S, x)) && |head.rows| > 0 && head.indents[0] == b
    requires forall k :: 0 < k < |head.indents| ==> head.indents[k] > b
    requires Covers(tail, S - Component(E, S, x))
    requires forall t :: 0 <= t < |tail.rows| ==>
               (tail.indents[t] == b <==> WholeAbove(E, S - Component(E, S, x), tail.rows, t))
    ensures var L := Append(head, tail);
      forall k :: 0 <= k < |L.rows| ==> (L.indents[k] == b <==> WholeAbove(E, S, L.rows, k))
  {
    var L := Append(head, tail);
    var m := |head.rows|;
    forall k | 0 <= k < |L.rows|
      ensures L.indents[k] == b <==> WholeAbove(E, S, L.rows, k)
    {
      if k < m {
        assert L.rows[..k] == head.rows[..k] && L.indents[k] == head.indents[k];
        RestartsHead(E, S, x, b, head, k);
      } else {
        var t := k - m;
        assert L.rows[..k] == head.rows + tail.rows[..t] && L.indents[k] == tail.indents[t];
        assert tail.indents[t] == b <==> WholeAbove(E, S - Component(E, S, x), tail.rows, t);
        RestartsTail(E, S, x, b, head, tail, t);
      }
    }
  }

  /** The own-component half of `AppendRestarts`. */
  lemma AppendFresh(E: set<(Node, Node)>, S: set<Node>, x: Node, b: nat, head: Layout, tail: Layout)
    requires x in S
    requires Covers(head, Component(E, S, x)) && |head.rows| > 0 && head.indents[0] == b
    requires forall k :: 0 < k < |head.indents| ==> head.indents[k] > b
    requires Covers(tail, S - Component(E, S, x))
    requires forall t :: 0 <= t < |tail.rows| && tail.rows[t] in S - Component(E, S, x) ==>
               (tail.indents[t] == b <==> NewComponent(E, S - Component(E, S, x), tail.rows, t))
    ensures var L := Append(head, tail);
      forall k :: 0 <= k < |L.rows| && L.rows[k] in S ==>
        (L.indents[k] == b <==> NewComponent(E, S, L.rows, k))
  {
    var L := Append(head, tail);
    var m := |head.rows|;
    forall k | 0 <= k < |L.rows| && L.rows[k] in S
      ensures L.indents[k] == b <==> NewComponent(E, S, L.rows, k)
    {
      if k < m {
        assert L.rows[..k] == head.rows[..k] && L.indents[k] == head.indents[k] && L.rows[k] == head.rows[k];
        LeadsHead(E, S, x, b, head, k);
      } else {
        var t := k - m;
        assert L.rows[..k] == head.rows + tail.rows[..t] && L.indents[k] == tail.indents[t] && L.rows[k] == tail.rows[t];
        assert tail.rows[t] in tail.rows;
        LeadsTail(E, S, x, b, head, tail, t);
      }
    }
  }

  /** Inside the first component only its first row is at the baseline, and
      only the empty prefix is closed. */
  lemma RestartsHead(E: set<(Node, Node)>, S: set<Node>, x: Node, b: nat, head: Layout, k: nat)
    requires x in S
    requires Covers(head, Component(E, S, x)) && k < |head.rows| && head.indents[0] == b
    requires forall k :: 0 < k < |head.indents| ==> head.indents[k] > b
    ensures head.indents[k] == b <==> Closed(E, S, Members(head.rows[..k]))
  {
    var D := Members(head.rows[..k]);
    if k == 0 {
      assert D == {};
    } else {
      var C := Component(E, S, x);
      assert head.rows[0] in D;
      assert D <= C by {
        forall v | v in D
          ensures v in C
        {
          var i :| 0 <= i < k && head.rows[i] == v;
          assert head.rows[i] in head.rows;
        }
      }
      assert head.rows[k] in C - D by {
        assert head.rows[k] in head.rows;
        forall i | 0 <= i < k
          ensures head.rows[i] != head.rows[k]
        {
        }
      }
      ComponentIndivisible(E, S, x, D);
    }
  }

  /** Past the first component, a prefix is closed in `S` exactly when its
      part after the component is closed among the remaining nodes. */
  lemma RestartsTail(E: set<(Node, Node)>, S: set<Node>, x: Node, b: nat, head: Layout, tail: Layout, t: nat)
    requires x in S
    requires Covers(head, Component(E, S, x))
    requires Covers(tail, S - Component(E, S, x)) && t < |tail.rows|
    requires tail.indents[t] == b <==> Closed(E, S - Component(E, S, x), Members(tail.rows[..t]))
    ensures tail.indents[t] == b <==> Closed(E, S, Members(head.rows + tail.rows[..t]))
  {
    var C := Component(E, S, x);
    var M := Members(tail.rows[..t]);
    assert Members(head.rows + tail.rows[..t]) == C + M;
    assert M <= S - C by {
      forall v | v in M
        ensures v in S - C
      {
        var i :| 0 <= i < t && tail.rows[i] == v;
        assert tail.rows[i] in tail.rows;
      }
    }
    ClosedBeside(E, S, C, M);
  }

  /** Inside the first component every row shares the component of the first
      row, which is the only one with nothing of its component above it. */
  lemma LeadsHead(E: set<(Node, Node)>, S: set<Node>, x: Node, b: nat, head: Layout, k: nat)
    requires x in S
    requires Covers(head, Component(E, S, x)) && k < |head.rows| && head.indents[0] == b
    requires forall k :: 0 < k < |head.indents| ==> head.indents[k] > b
    ensures head.indents[k] == b <==> Members(head.rows[..k]) !! Component(E, S, head.rows[k])
  {
    assert head.rows[k] in head.rows;
    ComponentOfMember(E, S, x, head.rows[k]);
    if k > 0 {
      assert head.rows[0] in Members(head.rows[..k]);
      assert head.rows[0] in head.rows;
    }
  }

  /** Past the first component, a row's component lies among the remaining
      nodes, so only the rows of the rest can share it. */
  lemma LeadsTail(E: set<(Node, Node)>, S: set<Node>, x: Node, b: nat, head: Layout, tail: Layout, t: nat)
    requires x in S
    requires Covers(head, Component(E, S, x))
    requires Covers(tail, S - Component(E, S, x)) && t < |tail.rows|
    requires tail.indents[t] == b <==>
             Members(tail.rows[..t]) !! Component(E, S - Component(E, S, x), tail.rows[t])
    ensures tail.indents[t] == b <==>
            Members(head.rows + tail.rows[..t]) !! Component(E, S, tail.rows[t])
  {
    var C := Component(E, S, x);
    var y := tail.rows[t];
    assert y in tail.rows && y in S - C;
    ComponentBeside(E, S, C, y);
    MembersAppend(head.rows, tail.rows[..t]);
    DisjointBeside(C, Members(tail.rows[..t]), Component(E, S - C, y));
  }

  lemma MembersAppend(a: seq<Node>, c: seq<Node>)
    ensures Members(a + c) == Members(a) + Members(c)
  {
  }

  lemma DisjointBeside(C: set<Node>, M: set<Node>, Y: set<Node>)
    requires C !! Y
    ensures (C + M) !! Y <==> M !! Y
  {
  }

  lemma SubsetCard(A: set<Node>, B: set<Node>)
    requires A <= B
    ensures |A| <= |B|
  {
    assert B == A + (B - A) && A * (B - A) == {};
  }

  /** `_process_dag` (dagviz.py:20-22): lays out the weakly-connected
      components of the subgraph induced by `S` one after another, each from
      the same baseline `indent`. Components come in the order in which
      `order` first meets one of their nodes. */
  function LayerDag(g: Graph, S: set<Node>, order: seq<Node>, indent: nat): (r: Layout)
    requires Acyclic(g) && Enumerates(order, g.nodes) && S <= g.nodes
    ensures Layered(g.edges, S, indent, r)
    ensures S != {} ==> |r.indents| > 0 && r.indents[0] == indent
    decreases |S|, 1
  {
    if S == {} then
      assert forall v :: v !in S;
      Layout([], [])
    else
      assert exists k :: 0 <= k < |order| && order[k] in S by {
        NonEmpty(S);
        var v :| v in S;
        assert v in order;
      }
      var x := FirstIn(order, S);
      var C := Component(g.edges, S, x);
      SubsetCard(C, S);
      ProperSubsetCard(S - C, S);
      var head := LayerComp(g, C, order, indent);
      var tail := LayerDag(g, S - C, order, indent);
      AppendComponent(g.edges, S, C, indent, head, tail);
      Append(head, tail)
  }

  /** `_process_component` (dagviz.py:24-33): the in-degree-0 nodes of the
      component `C` take the next rows at indents `indent, indent + 1, ...`;
      the rest of `C` is then laid out from `indent` plus their number. */
  function LayerComp(g: Graph, C: set<Node>, order: seq<Node>, indent: nat): (r: Layout)
    requires Acyclic(g) && Enumerates(order, g.nodes) && C <= g.nodes
    ensures Layered(g.edges, C, indent, r)
    ensures C != {} ==> |Sources(g.edges, C, order)| > 0
    ensures var src := Sources(g.edges, C, order);
      |src| <= |r.rows| && r.rows[..|src|] == src &&
      (forall k :: 0 <= k < |src| ==> r.indents[k] == indent + k) &&
      (forall k :: |src| <= k < |r.indents| ==> r.indents[k] >= indent + |src|)
    decreases |C|, 0
  {
    if C == {} then
      assert forall v :: v !in C;
      Layout([], [])
    else
      SourceExists(g, C);
      var src := Sources(g.edges, C, order);
      assert src != [] by {
        var v :| IsSource(g.edges, C, v);
        assert v in order;
      }
      assert src[0] in Members(src);
      ProperSubsetCard(C - Members(src), C);
      var tail := LayerDag(g, C - Members(src), order, Deeper(indent, |src|));
      SourcesThenRest(g.edges, C, indent, src, tail);
      var r := Append(Layout(src, Ladder(indent, |src|)), tail);
      AppendSplit(Layout(src, Ladder(indent, |src|)), tail);
      r
  }

  /** The whole layering phase (dagviz.py:16-35): every node of the graph gets
      exactly one row, rows are in topological order, and every row spanned by
      an edge is indented deeper than the edge's tail. */
  function Layer(g: Graph, order: seq<Node>): (r: Layout)
    requires Acyclic(g) && Enumerates(order, g.nodes)
    ensures Layered(g.edges, g.nodes, 0, r)
    ensures |r.rows| == |r.indents| == |g.nodes|
    ensures Restarts(g.edges, g.nodes, 0, r)
  {
    var r := LayerDag(g, g.nodes, order, 0);
    DistinctCard(r.rows, g.nodes);
    LayerDagRestarts(g, g.nodes, order, 0);
    r
  }

  /** Laying out the components of `S` from baseline `indent` returns to the
      baseline exactly where a new component of `S` begins. */
  lemma {:induction false} LayerDagRestarts(g: Graph, S: set<Node>, order: seq<Node>, indent: nat)
    requires Acyclic(g) && Enumerates(order, g.nodes) && S <= g.nodes
    ensures Restarts(g.edges, S, indent, LayerDag(g, S, order, indent))
    decreases |S|
  {
    if S != {} {
      assert exists k :: 0 <= k < |order| && order[k] in S by {
        NonEmpty(S);
        var v :| v in S;
        assert v in order;
      }
      var x := FirstIn(order, S);
      var C := Component(g.edges, S, x);
      SubsetCard(C, S);
      ProperSubsetCard(S - C, S);
      var head := LayerComp(g, C, order, indent);
      var tail := LayerDag(g, S - C, order, indent);
      assert LayerDag(g, S, order, indent) == Append(head, tail);
      LayerDagRestarts(g, S - C, order, indent);
      AppendRestarts(g.edges, S, x, indent, head, tail);
    }
  }

  /** Inside a component, the rows after its sources return to the deeper
      baseline `indent + |sources|` exactly where a new component of the rest
      of the component begins. */
  lemma LayerCompRestarts(g: Graph, C: set<Node>, order: seq<Node>, indent: nat)
    requires Acyclic(g) && Enumerates(order, g.nodes) && C <= g.nodes
    ensures var src := Sources(g.edges, C, order);
      var r := LayerComp(g, C, order, indent);
      |src| <= |r.rows| == |r.indents| &&
      Restarts(g.edges, C - Members(src), indent + |src|, Layout(r.rows[|src|..], r.indents[|src|..]))
  {
    var src := Sources(g.edges, C, order);
    if C == {} {
      assert forall v :: v !in C;
    } else {
      var b := Deeper(indent, |src|);
      var tail := LayerDag(g, C - Members(src), order, b);
      assert LayerComp(g, C, order, indent) == Append(Layout(src, Ladder(indent, |src|)), tail);
      LayerDagRestarts(g, C - Members(src), order, b);
      AppendRestartsRest(g.edges, C - Members(src), b, Layout(src, Ladder(indent, |src|)), tail);
    }
  }

  /** `node_to_row` (dagviz.py:17, 27): the map from a node to its row, the
      inverse of `rows`. */
  function RowIndex(rows: seq<Node>): (m: map<Node, nat>)
    requires Distinct(rows)
    ensures forall v :: v in m <==> v in rows
    ensures forall i :: 0 <= i < |rows| ==> rows[i] in m && m[rows[i]] == i
    ensures forall v :: v in m ==> m[v] < |rows| && rows[m[v]] == v
  {
    map i | 0 <= i < |rows| :: rows[i] := i
  }
}
