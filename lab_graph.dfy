/** The graph of the lab exercise and the breadth-first run on it from A to
    F, worked out step by step from the specification functions of the
    search. */
module LabGraph {
  import opened Graphs
  import opened Sequences
  import opened Discovery
  import opened BreadthFirst

  /** `GRAPH`: eight nodes A to H; F has no successors. */
  const Lab: Graph := map[
    'A' := ['D', 'B'],
    'B' := ['C', 'E', 'G'],
    'C' := ['A'],
    'D' := ['C', 'A'],
    'E' := ['H'],
    'F' := [],
    'G' := ['F'],
    'H' := ['G', 'F']
  ]

  // The successor lists of the expanded nodes, sorted as each search sorts them.

  lemma AscendingA()
    ensures Sort(Succ(Lab, 'A')) == ['B', 'D']
  {
  }

  lemma AscendingB()
    ensures Sort(Succ(Lab, 'B')) == ['C', 'E', 'G']
  {
  }

  lemma AscendingC()
    ensures Sort(Succ(Lab, 'C')) == ['A']
  {
  }

  lemma AscendingD()
    ensures Sort(Succ(Lab, 'D')) == ['A', 'C']
  {
  }

  lemma AscendingE()
    ensures Sort(Succ(Lab, 'E')) == ['H']
  {
  }

  lemma AscendingG()
    ensures Sort(Succ(Lab, 'G')) == ['F']
  {
  }

  lemma AscendingH()
    ensures Sort(Succ(Lab, 'H')) == ['F', 'G']
  {
  }

  // What the scans of those lists discover.

  lemma FoundAfterA()
    ensures NewlyDiscovered(['B', 'D'], Elems(['A'])) == ['B', 'D']
  {
    NewlyDiscoveredAll(['B', 'D'], Elems(['A']));
  }

  lemma FoundAfterB()
    ensures NewlyDiscovered(['C', 'E', 'G'], Elems(['A', 'B', 'D'])) == ['C', 'E', 'G']
  {
    NewlyDiscoveredAll(['C', 'E', 'G'], Elems(['A', 'B', 'D']));
  }

  lemma LabBfsOrder1()
    ensures BfsOrder(Lab, 'A', ['A']) == ['A', 'B', 'D']
  {
    assert ['A'][..0] == [];
    assert Sort(Succ(Lab, 'A')) == ['B', 'D'] by { AscendingA(); }
    assert NewlyDiscovered(['B', 'D'], Elems(['A'])) == ['B', 'D'] by { FoundAfterA(); }
  }

  lemma LabBfsOrder2()
    ensures BfsOrder(Lab, 'A', ['A', 'B']) == ['A', 'B', 'D', 'C', 'E', 'G']
  {
    assert ['A', 'B'][..1] == ['A'];
    assert BfsOrder(Lab, 'A', ['A']) == ['A', 'B', 'D'] by { LabBfsOrder1(); }
    assert Sort(Succ(Lab, 'B')) == ['C', 'E', 'G'] by { AscendingB(); }
    assert NewlyDiscovered(['C', 'E', 'G'], Elems(['A', 'B', 'D'])) == ['C', 'E', 'G'] by { FoundAfterB(); }
  }

  lemma LabBfsOrder3()
    ensures BfsOrder(Lab, 'A', ['A', 'B', 'D']) == ['A', 'B', 'D', 'C', 'E', 'G']
  {
    assert ['A', 'B', 'D'][..2] == ['A', 'B'];
    assert BfsOrder(Lab, 'A', ['A', 'B']) == ['A', 'B', 'D', 'C', 'E', 'G'] by { LabBfsOrder2(); }
    assert Sort(Succ(Lab, 'D')) == ['A', 'C'] by { AscendingD(); }
    assert NewlyDiscovered(['A', 'C'], Elems(['A', 'B', 'D', 'C', 'E', 'G'])) == [] by {
      NothingNew(['A', 'C'], Elems(['A', 'B', 'D', 'C', 'E', 'G']));
    }
  }

  lemma LabBfsOrder4()
    ensures BfsOrder(Lab, 'A', ['A', 'B', 'D', 'C']) == ['A', 'B', 'D', 'C', 'E', 'G']
  {
    assert ['A', 'B', 'D', 'C'][..3] == ['A', 'B', 'D'];
    assert BfsOrder(Lab, 'A', ['A', 'B', 'D']) == ['A', 'B', 'D', 'C', 'E', 'G'] by { LabBfsOrder3(); }
    assert Sort(Succ(Lab, 'C')) == ['A'] by { AscendingC(); }
    assert NewlyDiscovered(['A'], Elems(['A', 'B', 'D', 'C', 'E', 'G'])) == [] by {
      NothingNew(['A'], Elems(['A', 'B', 'D', 'C', 'E', 'G']));
    }
  }

  lemma LabBfsOrder5()
    ensures BfsOrder(Lab, 'A', ['A', 'B', 'D', 'C', 'E']) == ['A', 'B', 'D', 'C', 'E', 'G', 'H']
  {
    assert ['A', 'B', 'D', 'C', 'E'][..4] == ['A', 'B', 'D', 'C'];
    assert BfsOrder(Lab, 'A', ['A', 'B', 'D', 'C']) == ['A', 'B', 'D', 'C', 'E', 'G'] by { LabBfsOrder4(); }
    assert Sort(Succ(Lab, 'E')) == ['H'] by { AscendingE(); }
    assert NewlyDiscovered(['H'], Elems(['A', 'B', 'D', 'C', 'E', 'G'])) == ['H'] by {
      NewlyDiscoveredAll(['H'], Elems(['A', 'B', 'D', 'C', 'E', 'G']));
    }
  }

  lemma LabBfsOrder6()
    ensures BfsOrder(Lab, 'A', ['A', 'B', 'D', 'C', 'E', 'G']) == ['A', 'B', 'D', 'C', 'E', 'G', 'H', 'F']
  {
    assert ['A', 'B', 'D', 'C', 'E', 'G'][..5] == ['A', 'B', 'D', 'C', 'E'];
    assert BfsOrder(Lab, 'A', ['A', 'B', 'D', 'C', 'E']) == ['A', 'B', 'D', 'C', 'E', 'G', 'H'] by { LabBfsOrder5(); }
    assert Sort(Succ(Lab, 'G')) == ['F'] by { AscendingG(); }
    assert NewlyDiscovered(['F'], Elems(['A', 'B', 'D', 'C', 'E', 'G', 'H'])) == ['F'] by {
      NewlyDiscoveredAll(['F'], Elems(['A', 'B', 'D', 'C', 'E', 'G', 'H']));
    }
  }

  lemma LabBfsOrder7()
    ensures BfsOrder(Lab, 'A', ['A', 'B', 'D', 'C', 'E', 'G', 'H']) == ['A', 'B', 'D', 'C', 'E', 'G', 'H', 'F']
  {
    assert ['A', 'B', 'D', 'C', 'E', 'G', 'H'][..6] == ['A', 'B', 'D', 'C', 'E', 'G'];
    assert BfsOrder(Lab, 'A', ['A', 'B', 'D', 'C', 'E', 'G']) == ['A', 'B', 'D', 'C', 'E', 'G', 'H', 'F'] by { LabBfsOrder6(); }
    assert Sort(Succ(Lab, 'H')) == ['F', 'G'] by { AscendingH(); }
    assert NewlyDiscovered(['F', 'G'], Elems(['A', 'B', 'D', 'C', 'E', 'G', 'H', 'F'])) == [] by {
      NothingNew(['F', 'G'], Elems(['A', 'B', 'D', 'C', 'E', 'G', 'H', 'F']));
    }
  }

  /** The order in which the breadth-first search from A enqueues the nodes
      of the lab graph. */
  const LabQueueOrder: seq<Node> := ['A', 'B', 'D', 'C', 'E', 'G', 'H', 'F']

  /** Once the first `j` nodes of that order are expanded, the queue order
      reaches node `j` of it. */
  ghost predicate OrderReaches(j: nat)
    requires j < 8
  {
    var d := BfsOrder(Lab, 'A', LabQueueOrder[..j]);
    j < |d| && d[j] == LabQueueOrder[j]
  }

  lemma LabOrderAt0()
    ensures OrderReaches(0)
  {
    assert LabQueueOrder[..0] == [];
  }

  lemma LabOrderAt1()
    ensures OrderReaches(1)
  {
    assert LabQueueOrder[..1] == ['A'];
    LabBfsOrder1();
  }

  lemma LabOrderAt2()
    ensures OrderReaches(2)
  {
    assert LabQueueOrder[..2] == ['A', 'B'];
    LabBfsOrder2();
  }

  lemma LabOrderAt3()
    ensures OrderReaches(3)
  {
    assert LabQueueOrder[..3] == ['A', 'B', 'D'];
    LabBfsOrder3();
  }

  lemma LabOrderAt4()
    ensures OrderReaches(4)
  {
    assert LabQueueOrder[..4] == ['A', 'B', 'D', 'C'];
    LabBfsOrder4();
  }

  lemma LabOrderAt5()
    ensures OrderReaches(5)
  {
    assert LabQueueOrder[..5] == ['A', 'B', 'D', 'C', 'E'];
    LabBfsOrder5();
  }

  lemma LabOrderAt6()
    ensures OrderReaches(6)
  {
    assert LabQueueOrder[..6] == ['A', 'B', 'D', 'C', 'E', 'G'];
    LabBfsOrder6();
  }

  lemma LabOrderAt7()
    ensures OrderReaches(7)
  {
    assert LabQueueOrder[..7] == ['A', 'B', 'D', 'C', 'E', 'G', 'H'];
    LabBfsOrder7();
  }

  lemma LabOrderAt(j: nat)
    requires j < 8
    ensures OrderReaches(j)
  {
    if j == 0 {
      LabOrderAt0();
    } else if j == 1 {
      LabOrderAt1();
    } else if j == 2 {
      LabOrderAt2();
    } else if j == 3 {
      LabOrderAt3();
    } else if j == 4 {
      LabOrderAt4();
    } else if j == 5 {
      LabOrderAt5();
    } else if j == 6 {
      LabOrderAt6();
    } else {
      LabOrderAt7();
    }
  }

  /** F comes last in the queue order. */
  lemma OnlyLastIsF(j: nat)
    requires j < 8 && LabQueueOrder[j] == 'F'
    ensures j == 7
  {
  }

  /** Two sequences that agree on their first `k` elements and on element
      `k` agree on their first `k + 1`. */
  lemma PrefixGrows(a: seq<Node>, b: seq<Node>, k: nat)
    requires k < |a| && k < |b| && a[..k] == b[..k] && a[k] == b[k]
    ensures a[..k + 1] == b[..k + 1]
  {
    assert a[..k + 1] == a[..k] + [a[k]];
    assert b[..k + 1] == b[..k] + [b[k]];
  }

  /** A non-empty prefix is the shorter prefix and one more element. */
  lemma PrefixSnoc(s: seq<Node>, k: nat)
    requires 0 < k <= |s|
    ensures s[..k] == s[..k - 1] + [s[k - 1]]
  {
  }

  /** Every run of the breadth-first search from A dequeues the nodes in
      queue order: the queue order is the only possible one. */
  lemma {:induction false} LabPrefixIsOrder(us: seq<Node>, k: nat)
    requires IsBfsPrefix(Lab, 'A', us) && k <= |us| && k <= 8
    ensures us[..k] == LabQueueOrder[..k]
  {
    if k > 0 {
      LabPrefixIsOrder(us, k - 1);
      BfsPrefixNext(Lab, 'A', us, k - 1);
      LabOrderAt(k - 1);
      PrefixGrows(us, LabQueueOrder, k - 1);
    }
  }

  /** The search from A stops when F reaches the head of the queue, after
      expanding A, B, D, C, E, G and H. */
  lemma LabExpansions(us: seq<Node>)
    requires IsBfsPrefix(Lab, 'A', us)
    requires |us| < |BfsOrder(Lab, 'A', us)| && BfsOrder(Lab, 'A', us)[|us|] == 'F'
    ensures us == ['A', 'B', 'D', 'C', 'E', 'G', 'H']
  {
    BfsNextUnexpanded(Lab, 'A', us);
    if |us| >= 8 {
      LabPrefixIsOrder(us, 7);
      BfsPrefixNext(Lab, 'A', us, 7);
      LabOrderAt(7);
      assert false;
    }
    var n := |us|;
    LabPrefixIsOrder(us, n);
    assert us == LabQueueOrder[..n];
    LabOrderAt(n);
    assert LabQueueOrder[n] == 'F';
    OnlyLastIsF(n);
    assert LabQueueOrder[..7] == ['A', 'B', 'D', 'C', 'E', 'G', 'H'];
  }

  /** A, B, G, F is a walk from A to F. */
  lemma LabWalk()
    ensures WalkFrom(Lab, 'A', 'F', ['A', 'B', 'G', 'F'])
  {
    var p := ['A', 'B', 'G', 'F'];
    assert p[1] in Succ(Lab, p[0]) && p[2] in Succ(Lab, p[1]) && p[3] in Succ(Lab, p[2]);
  }

  /** No walk from A reaches F in fewer than three edges, and A, B, G, F is
      the only one with three. */
  lemma LabShortWalks(p: seq<Node>)
    requires WalkFrom(Lab, 'A', 'F', p) && |p| <= 4
    ensures p == ['A', 'B', 'G', 'F']
  {
    assert p[0] == 'A';
    if |p| >= 2 {
      assert p[1] in Succ(Lab, p[0]);
      assert p[1] == 'D' || p[1] == 'B';
    }
    if |p| >= 3 {
      assert p[2] in Succ(Lab, p[1]);
    }
    if |p| == 4 {
      assert p[3] in Succ(Lab, p[2]);
      assert p[2] == 'G';
      assert p[1] == 'B';
    }
  }

  /** Whatever level map and path a search returns, if its levels are
      shortest and it reports its outcome faithfully, the path from A to F
      is A, B, G, F, at level 3. */
  lemma LabPath(path: seq<Node>, level: map<Node, nat>)
    requires ShortestLevels(Lab, 'A', level) && IsPathOutcome(Lab, 'A', 'F', path, level)
    ensures path == ['A', 'B', 'G', 'F'] && 'F' in level && level['F'] == 3
  {
    LabWalk();
    assert Reachable(Lab, 'A', 'F');
    assert level['F'] < 4;
    LabShortWalks(path);
  }

  /** `breadth_first_search(GRAPH, 'A', 'F')`: the path A, B, G, F with F at
      level 3, and the 'Start' row followed by one row for each of A, B, D,
      C, E, G and H. */
  method LabBreadthFirstSearch() returns (path: seq<Node>, steps: seq<TraceStep>, level: map<Node, nat>)
    ensures path == ['A', 'B', 'G', 'F'] && 'F' in level && level['F'] == 3
    ensures AllExpanded(steps) && Expansions(steps) == ['A', 'B', 'D', 'C', 'E', 'G', 'H'] && |steps| == 8
    ensures steps[0] == InitialStep('A', Queue)
  {
    path, steps, level := BreadthFirstSearch(Lab, 'A', 'F');
    LabPath(path, level);
    LabExpansions(Expansions(steps));
  }
}
