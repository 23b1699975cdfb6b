/** The dependency graph: nodes are strings, and each node maps to the set
    of nodes it depends on. A node that is not a key has no outgoing edge. */
module Graphs {

  type Node = string

  type Graph = map<Node, set<Node>>

  /** `graph.value(n)`: the successors of `n`, empty when `n` is not a key. */
  function Succ(g: Graph, n: Node): set<Node> {
    if n in g then g[n] else {}
  }

  /** A walk of one or more edges. */
  ghost predicate IsWalk(g: Graph, w: seq<Node>) {
    |w| >= 2 && forall i :: 0 <= i < |w| - 1 ==> w[i + 1] in Succ(g, w[i])
  }

  /** `b` can be reached from `a` by following one or more edges. */
  ghost predicate Reaches(g: Graph, a: Node, b: Node) {
    exists w :: IsWalk(g, w) && w[0] == a && w[|w| - 1] == b
  }

  /** The relation `dependsOn` decides: every node depends on itself and on
      everything it reaches. */
  ghost predicate Depends(g: Graph, a: Node, b: Node) {
    a == b || Reaches(g, a, b)
  }

  /** Every key of the graph and every member of an adjacency set. */
  function NodesOf(g: Graph): (r: set<Node>)
    ensures forall n :: n in r <==> n in g || exists k :: k in g && n in g[k]
  {
    g.Keys + set k, n | k in g && n in g[k] :: n
  }

  lemma EdgeReaches(g: Graph, a: Node, b: Node)
    requires b in Succ(g, a)
    ensures Reaches(g, a, b)
  {
    assert IsWalk(g, [a, b]);
  }

  lemma ReachesStep(g: Graph, a: Node, b: Node, c: Node)
    requires Reaches(g, a, b) && c in Succ(g, b)
    ensures Reaches(g, a, c)
  {
    var w :| IsWalk(g, w) && w[0] == a && w[|w| - 1] == b;
    var w' := w + [c];
    forall i | 0 <= i < |w'| - 1
      ensures w'[i + 1] in Succ(g, w'[i])
    {
      if i < |w| - 1 {
        assert w'[i] == w[i] && w'[i + 1] == w[i + 1];
      }
    }
    assert IsWalk(g, w');
  }

  /** Every node reachable from `a` is a node of the graph. */
  lemma ReachedIsNode(g: Graph, a: Node, b: Node)
    requires Reaches(g, a, b)
    ensures b in NodesOf(g)
  {
    var w :| IsWalk(g, w) && w[0] == a && w[|w| - 1] == b;
    assert b in Succ(g, w[|w| - 2]);
  }

  /** A walk that starts inside a set closed under successors stays in it. */
  lemma {:induction false} WalkStaysIn(g: Graph, w: seq<Node>, s: set<Node>, i: nat)
    requires IsWalk(g, w) && 1 <= i < |w|
    requires w[1] in s
    requires forall v, n :: v in s && n in Succ(g, v) ==> n in s
    ensures w[i] in s
  {
    if i > 1 {
      WalkStaysIn(g, w, s, i - 1);
      assert w[i] in Succ(g, w[i - 1]);
    }
  }

  /** Everything reachable from `a` lies in any set that holds `a`'s
      successors and is closed under successors. */
  lemma ClosedSetBoundsReach(g: Graph, a: Node, s: set<Node>, b: Node)
    requires forall n :: n in Succ(g, a) ==> n in s
    requires forall v, n :: v in s && n in Succ(g, v) ==> n in s
    requires Reaches(g, a, b)
    ensures b in s
  {
    var w :| IsWalk(g, w) && w[0] == a && w[|w| - 1] == b;
    assert w[1] in Succ(g, w[0]);
    WalkStaysIn(g, w, s, |w| - 1);
  }

  /** `allNodes`: the union of the keys and of every adjacency set. */
  method AllNodes(g: Graph) returns (result: set<Node>)
    ensures forall n :: n in result <==> n in g || exists k :: k in g && n in g[k]
  {
    result := {};
    var pending := g.Keys;
    while pending != {}
      invariant pending <= g.Keys
      invariant result <= NodesOf(g)
      invariant forall k :: k in g && k !in pending ==> k in result && g[k] <= result
      decreases pending
    {
      var k :| k in pending;
      result := result + {k} + g[k];
      pending := pending - {k};
    }
  }

  /** `toList()` on a set: its members in some order. */
  method ToList(s: set<Node>) returns (xs: seq<Node>)
    ensures forall n :: n in xs <==> n in s
  {
    xs := [];
    var rest := s;
    while rest != {}
      invariant rest <= s
      invariant forall n :: n in s <==> n in xs || n in rest
      decreases rest
    {
      var n :| n in rest;
      xs := xs + [n];
      rest := rest - {n};
    }
  }

  /** Every successor of the start node and of every visited node is
      either visited or still waiting in the work list. */
  ghost predicate Covered(g: Graph, start: Node, visited: set<Node>, work: seq<Node>) {
    && (forall n :: n in Succ(g, start) ==> n in visited || n in work)
    && (forall v, n :: v in visited && n in Succ(g, v) ==> n in visited || n in work)
  }

  /** Popping a node that was already visited keeps the cover. */
  lemma CoveredAfterSkip(g: Graph, start: Node, visited: set<Node>, work: seq<Node>)
    requires work != [] && work[0] in visited
    requires Covered(g, start, visited, work)
    ensures Covered(g, start, visited, work[1..])
  {
    assert work == [work[0]] + work[1..];
  }

  /** Popping a new node, marking it visited and queueing its successors
      keeps the cover. */
  lemma CoveredAfterExpand(g: Graph, start: Node, visited: set<Node>, work: seq<Node>, next: seq<Node>)
    requires work != []
    requires forall n :: n in next <==> n in Succ(g, work[0])
    requires Covered(g, start, visited, work)
    ensures Covered(g, start, visited + {work[0]}, work[1..] + next)
  {
    assert work == [work[0]] + work[1..];
  }

  /** Visiting one more node of a finite set leaves fewer unvisited. */
  lemma FewerUnvisited(all: set<Node>, visited: set<Node>, n: Node)
    requires n in all && n !in visited
    ensures |all - (visited + {n})| < |all - visited|
  {
    assert all - (visited + {n}) + {n} == all - visited;
  }

  /** `dependsOn`: a worklist search with a visited set. It terminates on
      cyclic graphs because each node of the finite graph is expanded at
      most once, and it answers exactly the reachability question. */
  method DependsOn(g: Graph, depender: Node, dependee: Node) returns (b: bool)
    ensures b <==> Depends(g, depender, dependee)
  {
    if depender == dependee {
      return true;
    }
    ghost var all := NodesOf(g);
    var visited: set<Node> := {};
    var tmp := ToList(Succ(g, depender));
    forall n | n in tmp
      ensures Reaches(g, depender, n)
    {
      EdgeReaches(g, depender, n);
    }
    while tmp != []
      invariant visited <= all
      invariant forall n :: n in tmp ==> n in all
      invariant dependee !in visited
      invariant forall n :: n in visited ==> Reaches(g, depender, n)
      invariant forall n :: n in tmp ==> Reaches(g, depender, n)
      invariant Covered(g, depender, visited, tmp)
      decreases |all - visited|, |tmp|
    {
      var node := tmp[0];
      if node == dependee {
        return true;
      }
      if node in visited {
        CoveredAfterSkip(g, depender, visited, tmp);
        tmp := tmp[1..];
      } else {
        var next := ToList(Succ(g, node));
        CoveredAfterExpand(g, depender, visited, tmp, next);
        FewerUnvisited(all, visited, node);
        forall n | n in next
          ensures Reaches(g, depender, n) && n in all
        {
          ReachesStep(g, depender, node, n);
          ReachedIsNode(g, depender, n);
        }
        visited := visited + {node};
        tmp := tmp[1..] + next;
      }
    }
    if Reaches(g, depender, dependee) {
      ClosedSetBoundsReach(g, depender, visited, dependee);
    }
    return false;
  }
}
