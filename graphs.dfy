/** Directed graphs given as adjacency maps, walks over them and reachability. */
module Graphs {

  /** A node identifier. The lab graph names its nodes with one upper-case
      letter; the alphabetical tie-break is the order on `char`. */
  type Node = char

  /** Node to ordered successor list. A node that is not a key has no successors. */
  type Graph = map<Node, seq<Node>>

  /** `graph.get(n, [])`: the successor list of `n`, empty for a missing key. */
  function Succ(g: Graph, n: Node): (ns: seq<Node>)
    ensures n !in g ==> ns == []
    ensures n in g ==> ns == g[n]
  {
    if n in g then g[n] else []
  }

  /** Every node a traversal from `start` can ever see: the start node,
      every key and every listed successor. */
  function Nodes(g: Graph, start: Node): (ns: set<Node>)
    ensures start in ns
  {
    {start} + g.Keys + (set k, v | k in g && v in g[k] :: v)
  }

  /** Every successor of every node is among those nodes. */
  lemma SuccInNodes(g: Graph, start: Node, u: Node)
    ensures Elems(Succ(g, u)) <= Nodes(g, start)
  {
  }

  /** The elements of a sequence, as a set. */
  function Elems(s: seq<Node>): (r: set<Node>)
    ensures forall x :: x in r <==> x in s
  {
    set x | x in s
  }

  lemma ElemsAppend(a: seq<Node>, b: seq<Node>)
    ensures Elems(a + b) == Elems(a) + Elems(b)
  {
    assert forall x :: x in a + b <==> x in a || x in b;
  }

  /** Each element of `p` is a successor of the one before it. */
  ghost predicate IsWalk(g: Graph, p: seq<Node>)
  {
    forall i :: 0 < i < |p| ==> p[i] in Succ(g, p[i - 1])
  }

  /** `p` is a walk from `s` to `v`; it has |p| - 1 edges. */
  ghost predicate WalkFrom(g: Graph, s: Node, v: Node, p: seq<Node>)
  {
    |p| > 0 && p[0] == s && p[|p| - 1] == v && IsWalk(g, p)
  }

  ghost predicate Reachable(g: Graph, s: Node, v: Node)
  {
    exists p :: WalkFrom(g, s, v, p)
  }

  /** No edge leaves `vs`. */
  ghost predicate Closed(g: Graph, vs: set<Node>)
  {
    forall u, v :: u in vs && v in Succ(g, u) ==> v in vs
  }

  /** Dropping the last node of a walk of two or more nodes leaves a walk
      that ends at a predecessor of the dropped node. */
  lemma WalkPrefix(g: Graph, s: Node, v: Node, p: seq<Node>)
    requires WalkFrom(g, s, v, p) && |p| >= 2
    ensures WalkFrom(g, s, p[|p| - 2], p[..|p| - 1])
    ensures v in Succ(g, p[|p| - 2])
  {
  }

  /** Extending a walk by an edge gives a walk. */
  lemma WalkExtend(g: Graph, s: Node, u: Node, v: Node, p: seq<Node>)
    requires WalkFrom(g, s, u, p) && v in Succ(g, u)
    ensures WalkFrom(g, s, v, p + [v])
  {
  }

  /** A set that holds `s` and that no edge leaves holds every node reachable from `s`. */
  lemma {:induction false} ClosedContainsReachable(g: Graph, s: Node, vs: set<Node>, v: Node, p: seq<Node>)
    requires s in vs && Closed(g, vs)
    requires WalkFrom(g, s, v, p)
    ensures v in vs
    decreases |p|
  {
    if |p| >= 2 {
      WalkPrefix(g, s, v, p);
      ClosedContainsReachable(g, s, vs, p[|p| - 2], p[..|p| - 1]);
    }
  }

  /** Growing a set inside a bound shrinks what is left of the bound. */
  lemma Shrinks(bound: set<Node>, a: set<Node>, b: set<Node>)
    requires a <= b <= bound && a != b
    ensures bound - b < bound - a
  {
    var x :| x in b && x !in a;
    assert x in bound - a;
  }
}
