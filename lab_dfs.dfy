/** The depth-first run on the graph of the lab exercise from A to F,
    worked out step by step from the specification functions of the
    search. */
module LabDepthFirst {
  import opened Graphs
  import opened Sequences
  import opened Discovery
  import opened DepthFirst
  import opened BreadthFirst
  import opened LabGraph

  // The successor lists of the expanded nodes, in the order they are pushed.

  lemma DescendingA()
    ensures SortDesc(Succ(Lab, 'A')) == ['D', 'B']
  {
    AscendingA();
  }

  lemma DescendingB()
    ensures SortDesc(Succ(Lab, 'B')) == ['G', 'E', 'C']
  {
    AscendingB();
  }

  lemma DescendingC()
    ensures SortDesc(Succ(Lab, 'C')) == ['A']
  {
    AscendingC();
  }

  lemma DescendingE()
    ensures SortDesc(Succ(Lab, 'E')) == ['H']
  {
    AscendingE();
  }

  lemma DescendingH()
    ensures SortDesc(Succ(Lab, 'H')) == ['G', 'F']
  {
    AscendingH();
  }

  // What the scans of those lists push.

  lemma PushedAfterA()
    ensures NewlyDiscovered(['D', 'B'], {'A'}) == ['D', 'B']
  {
    NewlyDiscoveredAll(['D', 'B'], {'A'});
  }

  lemma PushedAfterB()
    ensures NewlyDiscovered(['G', 'E', 'C'], {'A', 'B', 'D'}) == ['G', 'E', 'C']
  {
    NewlyDiscoveredAll(['G', 'E', 'C'], {'A', 'B', 'D'});
  }

  lemma PushedAfterC()
    ensures NewlyDiscovered(['A'], {'A', 'B', 'C', 'D', 'E', 'G'}) == []
  {
    NothingNew(['A'], {'A', 'B', 'C', 'D', 'E', 'G'});
  }

  lemma PushedAfterE()
    ensures NewlyDiscovered(['H'], {'A', 'B', 'C', 'D', 'E', 'G'}) == ['H']
  {
    NewlyDiscoveredAll(['H'], {'A', 'B', 'C', 'D', 'E', 'G'});
  }

  lemma PushedAfterH()
    ensures NewlyDiscovered(['G', 'F'], {'A', 'B', 'C', 'D', 'E', 'G', 'H'}) == ['F']
  {
    NewlyDiscoveredAll(['F'], {'A', 'B', 'C', 'D', 'E', 'G', 'H'});
  }

  /** The order in which the depth-first search from A pops the nodes of
      the lab graph, and the stack and visited set before each pop. */
  const LabPops: seq<Node> := ['A', 'B', 'C', 'E', 'H', 'F']
  function LabStack(j: nat): seq<Node>
  {
    if j == 0 then ['A']
    else if j == 1 then ['D', 'B']
    else if j == 2 then ['D', 'G', 'E', 'C']
    else if j == 3 then ['D', 'G', 'E']
    else if j == 4 then ['D', 'G', 'H']
    else ['D', 'G', 'F']
  }

  function LabSeen(j: nat): set<Node>
  {
    if j == 0 then {'A'}
    else if j == 1 then {'A', 'B', 'D'}
    else if j <= 3 then {'A', 'B', 'C', 'D', 'E', 'G'}
    else if j == 4 then {'A', 'B', 'C', 'D', 'E', 'G', 'H'}
    else {'A', 'B', 'C', 'D', 'E', 'F', 'G', 'H'}
  }

  /** Popping node `j` of the order from stack `j` and pushing its new
      successors gives stack `j + 1`. */
  ghost predicate PopStep(j: nat)
    requires j < 5
  {
    var desc := SortDesc(Succ(Lab, LabPops[j]));
    && OnTop(LabStack(j), LabPops[j])
    && LabStack(j + 1) == Pop(LabStack(j)) + NewlyDiscovered(desc, LabSeen(j))
    && LabSeen(j + 1) == LabSeen(j) + Elems(desc)
  }

  lemma PopStep0()
    ensures PopStep(0)
  {
    assert LabPops[0] == 'A';
    assert SortDesc(Succ(Lab, 'A')) == ['D', 'B'] by { DescendingA(); }
    assert NewlyDiscovered(['D', 'B'], {'A'}) == ['D', 'B'] by { PushedAfterA(); }
  }

  lemma PopStep1()
    ensures PopStep(1)
  {
    assert LabPops[1] == 'B';
    assert LabStack(2) == Pop(['D', 'B']) + NewlyDiscovered(SortDesc(Succ(Lab, 'B')), {'A', 'B', 'D'}) by {
      StackAfterB();
    }
    assert SortDesc(Succ(Lab, 'B')) == ['G', 'E', 'C'] by { DescendingB(); }
  }

  lemma StackAfterB()
    ensures ['D', 'G', 'E', 'C'] == Pop(['D', 'B']) + NewlyDiscovered(SortDesc(Succ(Lab, 'B')), {'A', 'B', 'D'})
  {
    assert ['D', 'B'][..1] == ['D'];
    assert SortDesc(Succ(Lab, 'B')) == ['G', 'E', 'C'] by { DescendingB(); }
    assert NewlyDiscovered(['G', 'E', 'C'], {'A', 'B', 'D'}) == ['G', 'E', 'C'] by { PushedAfterB(); }
  }

  lemma PopStep2()
    ensures PopStep(2)
  {
    assert LabPops[2] == 'C';
    assert SortDesc(Succ(Lab, 'C')) == ['A'] by { DescendingC(); }
    assert NewlyDiscovered(['A'], {'A', 'B', 'C', 'D', 'E', 'G'}) == [] by { PushedAfterC(); }
  }

  lemma PopStep3()
    ensures PopStep(3)
  {
    assert LabPops[3] == 'E';
    assert SortDesc(Succ(Lab, 'E')) == ['H'] by { DescendingE(); }
    assert NewlyDiscovered(['H'], LabSeen(3)) == ['H'] by { PushedAfterE(); }
    assert LabStack(4) == Pop(LabStack(3)) + ['H'] by {
      assert Pop(['D', 'G', 'E']) == ['D', 'G'];
    }
    assert LabSeen(4) == LabSeen(3) + Elems(['H']) by {
      assert Elems(['H']) == {'H'};
    }
  }

  lemma PopStep4()
    ensures PopStep(4)
  {
    assert LabPops[4] == 'H';
    assert SortDesc(Succ(Lab, 'H')) == ['G', 'F'] by { DescendingH(); }
    assert NewlyDiscovered(['G', 'F'], {'A', 'B', 'C', 'D', 'E', 'G', 'H'}) == ['F'] by { PushedAfterH(); }
  }

  lemma PopStepAt(j: nat)
    requires j < 5
    ensures PopStep(j)
  {
    if j == 0 {
      PopStep0();
    } else if j == 1 {
      PopStep1();
    } else if j == 2 {
      PopStep2();
    } else if j == 3 {
      PopStep3();
    } else {
      PopStep4();
    }
  }

  /** After the first `k` pops of that order, the stack and the visited set
      are those of the table. */
  lemma {:induction false} LabDfsState(k: nat)
    requires k <= 5
    ensures DfsStack(Lab, 'A', LabPops[..k]) == LabStack(k)
    ensures DfsVisited(Lab, 'A', LabPops[..k]) == LabSeen(k)
  {
    if k == 0 {
      assert LabPops[..0] == [];
    } else {
      LabDfsState(k - 1);
      PopStepAt(k - 1);
      DfsSnoc(Lab, 'A', LabPops[..k - 1], LabPops[k - 1]);
      PrefixSnoc(LabPops, k);
    }
  }

  /** F is popped last in that order. */
  lemma OnlyLastPopIsF(j: nat)
    requires j < 6 && LabPops[j] == 'F'
    ensures j == 5
  {
  }

  /** After the first `k` pops of the table, the top of the stack is node
      `k` of the table. */
  lemma LabNextPop(prefix: seq<Node>, k: nat)
    requires k <= 5 && prefix == LabPops[..k]
    ensures OnTop(DfsStack(Lab, 'A', prefix), LabPops[k])
  {
    LabDfsState(k);
    LabTopAt(k);
  }

  /** Every run of the depth-first search from A pops the nodes in the
      order of the table: no other order is possible. */
  lemma {:induction false} LabDfsPrefixIsOrder(us: seq<Node>, k: nat)
    requires IsDfsPrefix(Lab, 'A', us) && k <= |us| && k <= 6
    ensures us[..k] == LabPops[..k]
  {
    if k > 0 {
      LabDfsPrefixIsOrder(us, k - 1);
      assert us[k - 1] == LabPops[k - 1] by {
        DfsPrefixNext(Lab, 'A', us, k - 1);
        LabNextPop(us[..k - 1], k - 1);
      }
      PrefixGrows(us, LabPops, k - 1);
    }
  }

  /** The top of stack `j` is node `j` of the pop order. */
  lemma LabTopAt(j: nat)
    requires j <= 5
    ensures OnTop(LabStack(j), LabPops[j])
  {
    if j < 5 {
      PopStepAt(j);
    }
  }

  /** A run from A that has not popped F has popped at most five nodes. */
  lemma LabDfsShort(us: seq<Node>)
    requires IsDfsPrefix(Lab, 'A', us) && 'F' !in us
    ensures |us| <= 5
  {
    if |us| >= 6 {
      LabDfsPrefixIsOrder(us, 5);
      DfsPrefixNext(Lab, 'A', us, 5);
      LabNextPop(us[..5], 5);
      assert false;
    }
  }

  /** The search from A stops when F reaches the top of the stack, after
      popping A, B, C, E and H. */
  lemma LabDfsExpansions(us: seq<Node>)
    requires IsDfsPrefix(Lab, 'A', us) && OnTop(DfsStack(Lab, 'A', us), 'F')
    ensures us == ['A', 'B', 'C', 'E', 'H']
  {
    assert |us| <= 5 by {
      DfsPartition(Lab, 'A', us);
      LabDfsShort(us);
    }
    var n := |us|;
    assert us == LabPops[..n] by { LabDfsPrefixIsOrder(us, n); }
    assert LabPops[n] == 'F' by { LabNextPop(us, n); }
    OnlyLastPopIsF(n);
    assert LabPops[..5] == ['A', 'B', 'C', 'E', 'H'];
  }

  /** The visited copy of record `k` of a depth-first trace from A that
      pops in table order is visited set `k` of the table. */
  lemma {:induction false} LabRowVisited(steps: seq<TraceStep>, level: map<Node, nat>, k: nat)
    requires IsTrace(Lab, 'A', 'F', Stack, steps, level)
    requires AllExpanded(steps) && Expansions(steps) == LabPops[..5] && k <= 5
    ensures steps[k].visited == LabSeen(k)
  {
    if k > 0 {
      LabRowVisited(steps, level, k - 1);
      assert FollowsRecord(Lab, 'F', Stack, level, k, steps[k - 1], steps[k]);
      var us := Expansions(steps);
      assert us[k - 1] == steps[k].expansion.node;
      assert us[k - 1] == LabPops[k - 1];
      PopStepAt(k - 1);
      PushedDescending(Succ(Lab, LabPops[k - 1]), LabSeen(k - 1));
    }
  }

  /** Record `k` gives the nodes it adds to the visited set the level of
      its expanded node plus one. */
  ghost predicate RowLevel(level: map<Node, nat>, k: nat)
    requires 1 <= k <= 5
  {
    && LabPops[k - 1] in level
    && forall n :: n in LabSeen(k) && n !in LabSeen(k - 1) ==> n in level && level[n] == level[LabPops[k - 1]] + 1
  }

  lemma LabRowLevel(steps: seq<TraceStep>, level: map<Node, nat>, k: nat)
    requires IsTrace(Lab, 'A', 'F', Stack, steps, level)
    requires AllExpanded(steps) && Expansions(steps) == LabPops[..5] && 1 <= k <= 5
    ensures RowLevel(level, k)
  {
    LabRowVisited(steps, level, k);
    LabRowVisited(steps, level, k - 1);
    assert FollowsRecord(Lab, 'F', Stack, level, k, steps[k - 1], steps[k]);
    var us := Expansions(steps);
    assert us[k - 1] == steps[k].expansion.node;
    assert us[k - 1] == LabPops[k - 1];
  }

  /** The level map those rows give, starting from A at level 0. */
  lemma LevelsFromRows(level: map<Node, nat>)
    requires level.Keys == LabSeen(5) && 'A' in level && level['A'] == 0
    requires RowLevel(level, 1) && RowLevel(level, 2) && RowLevel(level, 4) && RowLevel(level, 5)
    ensures level == LabDfsLevel
  {
    assert LabPops[0] == 'A' && LabSeen(1) == {'A', 'B', 'D'} && LabSeen(0) == {'A'};
    assert level['B'] == 1 && level['D'] == 1;
    assert LabPops[1] == 'B' && LabSeen(2) == {'A', 'B', 'C', 'D', 'E', 'G'};
    assert level['C'] == 2 && level['E'] == 2 && level['G'] == 2;
    assert LabPops[3] == 'E' && LabSeen(4) == {'A', 'B', 'C', 'D', 'E', 'G', 'H'} && LabSeen(3) == LabSeen(2);
    assert level['H'] == 3;
    assert LabPops[4] == 'H' && LabSeen(5) == {'A', 'B', 'C', 'D', 'E', 'F', 'G', 'H'};
    assert level['F'] == 4;
    assert level.Keys == LabDfsLevel.Keys;
  }

  /** `level` of the depth-first search from A to F. */
  const LabDfsLevel: map<Node, nat> :=
    map['A' := 0, 'B' := 1, 'D' := 1, 'C' := 2, 'E' := 2, 'G' := 2, 'H' := 3, 'F' := 4]

  /** The records of a depth-first trace from A that expands A, B, C, E and
      H fix the whole level map: each record gives the nodes it discovers
      the level of the expanded node plus one. */
  lemma LabDfsLevels(steps: seq<TraceStep>, level: map<Node, nat>)
    requires IsTrace(Lab, 'A', 'F', Stack, steps, level) && 'A' in level && level['A'] == 0
    requires AllExpanded(steps) && Expansions(steps) == ['A', 'B', 'C', 'E', 'H']
    ensures level == LabDfsLevel
  {
    assert LabPops[..5] == ['A', 'B', 'C', 'E', 'H'];
    LabRowLevel(steps, level, 1);
    LabRowLevel(steps, level, 2);
    LabRowLevel(steps, level, 4);
    LabRowLevel(steps, level, 5);
    LabRowVisited(steps, level, 5);
    LevelsFromRows(level);
  }

  /** The depth-first levels are not shortest distances: F sits at level 4,
      but A, B, G, F reaches it in three edges. */
  lemma LabDfsNotShortest()
    ensures !ShortestLevels(Lab, 'A', LabDfsLevel)
  {
    LabWalk();
    assert 'F' in LabDfsLevel && LabDfsLevel['F'] == 4;
  }

  /** With those levels, the only walk A to F whose i-th node sits at level
      i is A, B, E, H, F. */
  lemma LabDfsPath(path: seq<Node>, level: map<Node, nat>)
    requires level == LabDfsLevel && IsPathOutcome(Lab, 'A', 'F', path, level)
    ensures path == ['A', 'B', 'E', 'H', 'F']
  {
    LabWalk();
    assert Reachable(Lab, 'A', 'F');
    assert |path| == 5 && path[4] == 'F';
    assert level[path[3]] == 3 && level[path[2]] == 2 && level[path[1]] == 1;
    assert path[3] == 'H';
    assert path[3] in Succ(Lab, path[2]);
    assert path[2] == 'E';
    assert path[2] in Succ(Lab, path[1]);
    assert path[1] == 'B';
  }

  /** `depth_first_search(GRAPH, 'A', 'F')`: the path A, B, E, H, F with F
      at level 4, and the 'Start' row followed by one row for each of A, B,
      C, E and H. */
  method LabDepthFirstSearch() returns (path: seq<Node>, steps: seq<TraceStep>, level: map<Node, nat>)
    ensures path == ['A', 'B', 'E', 'H', 'F'] && level == LabDfsLevel
    ensures AllExpanded(steps) && Expansions(steps) == ['A', 'B', 'C', 'E', 'H'] && |steps| == 6
    ensures steps[0] == InitialStep('A', Stack)
  {
    path, steps, level := DepthFirstSearch(Lab, 'A', 'F');
    LabWalk();
    assert path != [];
    LabDfsExpansions(Expansions(steps));
    LevelTreeStart(Lab, 'A', level);
    LabDfsLevels(steps, level);
    LabDfsPath(path, level);
  }
}
