/** `breadth_first_search`: FIFO frontier, successors enqueued in ascending
    order, nodes marked visited when discovered, stop when the goal is
    dequeued. */
module BreadthFirst {
  import opened Graphs
  import opened Sequences
  import opened Discovery

  /** The order in which nodes enter the queue once the nodes `us` have been
      expanded in turn: the start node, then for each expanded node its
      not-yet-seen successors in ascending order. */
  function BfsOrder(g: Graph, start: Node, us: seq<Node>): (d: seq<Node>)
    ensures |d| >= 1 && d[0] == start
    decreases |us|
  {
    if |us| == 0 then [start]
    else
      var prev := BfsOrder(g, start, us[..|us| - 1]);
      prev + NewlyDiscovered(Sort(Succ(g, us[|us| - 1])), Elems(prev))
  }

  /** No node enters the queue twice. */
  lemma {:induction false} BfsOrderDistinct(g: Graph, start: Node, us: seq<Node>)
    ensures Distinct(BfsOrder(g, start, us))
    decreases |us|
  {
    if us != [] {
      var prev := BfsOrder(g, start, us[..|us| - 1]);
      var found := NewlyDiscovered(Sort(Succ(g, us[|us| - 1])), Elems(prev));
      BfsOrderDistinct(g, start, us[..|us| - 1]);
      NewlyDiscoveredDistinct(Sort(Succ(g, us[|us| - 1])), Elems(prev));
      DistinctAppend(prev, found);
    }
  }

  /** Expanding one more node appends its newly discovered successors. */
  lemma BfsOrderSnoc(g: Graph, start: Node, us: seq<Node>, u: Node)
    ensures BfsOrder(g, start, us + [u])
         == BfsOrder(g, start, us) + NewlyDiscovered(Sort(Succ(g, u)), Elems(BfsOrder(g, start, us)))
  {
    assert (us + [u])[..|us|] == us;
  }

  /** Tie-break: BFS enqueues the unvisited successors of a node in ascending
      order, each once, and no other node. */
  lemma EnqueuedAscending(succ: seq<Node>, visited: set<Node>)
    ensures var found := NewlyDiscovered(Sort(succ), visited);
      && Ascending(found)
      && Distinct(found)
      && (forall n :: n in found <==> n in succ && n !in visited)
  {
    SortSorts(succ);
    NewlyDiscoveredAscending(Sort(succ), visited);
    NewlyDiscoveredDistinct(Sort(succ), visited);
    var found := NewlyDiscovered(Sort(succ), visited);
    forall n
      ensures n in found <==> n in succ && n !in visited
    {
      assert n in Sort(succ) <==> n in multiset(Sort(succ));
    }
  }

  /** `us` can be the sequence of nodes dequeued so far: each one is the
      next node of the queue order at the time it is dequeued. */
  ghost predicate IsBfsPrefix(g: Graph, start: Node, us: seq<Node>)
    decreases |us|
  {
    |us| == 0 ||
      var prev := us[..|us| - 1];
      && IsBfsPrefix(g, start, prev)
      && |prev| < |BfsOrder(g, start, prev)|
      && us[|us| - 1] == BfsOrder(g, start, prev)[|prev|]
  }

  /** `parent_map` once the nodes `us` have been expanded in turn. */
  function BfsParents(g: Graph, start: Node, us: seq<Node>): map<Node, Option<Node>>
    decreases |us|
  {
    if |us| == 0 then map[start := None]
    else
      var u := us[|us| - 1];
      Adopt(BfsParents(g, start, us[..|us| - 1]), Elems(Sort(Succ(g, u))), Some(u))
  }

  /** `level` once the nodes `us` have been expanded in turn. */
  function BfsLevels(g: Graph, start: Node, us: seq<Node>): map<Node, nat>
    decreases |us|
  {
    if |us| == 0 then map[start := 0]
    else
      var u := us[|us| - 1];
      var before := BfsLevels(g, start, us[..|us| - 1]);
      Adopt(before, Elems(Sort(Succ(g, u))), LevelOf(before, u) + 1)
  }

  /** `process_steps` once the nodes `us` have been expanded in turn: the
      'Start' row, then per expansion its number, the node, the node's level,
      the queue after the dequeue followed by the sorted queue after the
      enqueues (nodes already waiting appear twice), and a copy of `visited`. */
  function BfsSteps(g: Graph, start: Node, us: seq<Node>): (steps: seq<TraceStep>)
    ensures |steps| == |us| + 1 && steps[0] == InitialStep(start, Queue)
    decreases |us|
  {
    if |us| == 0 then [InitialStep(start, Queue)]
    else
      var k := |us|;
      var u := us[k - 1];
      var before := BfsOrder(g, start, us[..k - 1]);
      var after := BfsOrder(g, start, us);
      BfsSteps(g, start, us[..k - 1])
        + [TraceStep(k, Expanded(u), LevelOf(BfsLevels(g, start, us), u), Queue,
                     Drop(before, k) + Sort(Drop(after, k)), Elems(after))]
  }

  /** A whole BFS run: its expansions are a prefix of queue order, its rows
      are the BFS rows of those expansions, and the goal was dequeued exactly
      when the queue order goes on past the expansions, with the goal next. */
  ghost predicate IsBfsRun(g: Graph, start: Node, goal: Node, steps: seq<TraceStep>, found: bool)
    requires AllExpanded(steps)
  {
    var us := Expansions(steps);
    var d := BfsOrder(g, start, us);
    && IsBfsPrefix(g, start, us)
    && steps == BfsSteps(g, start, us)
    && (found <==> |us| < |d|)
    && (found ==> d[|us|] == goal)
  }

  /** Every discovered node's level is at most the length of any walk to it. */
  ghost predicate ShortestLevels(g: Graph, start: Node, level: map<Node, nat>)
  {
    forall n, p :: n in level && WalkFrom(g, start, n, p) ==> level[n] < |p|
  }

  /** The queue is what follows the expanded prefix of the queue order, and
      the visited set is everything in the queue order. */
  ghost predicate QueueState(g: Graph, start: Node, queue: seq<Node>, visited: set<Node>, expanded: seq<Node>)
  {
    var d := BfsOrder(g, start, expanded);
    && |expanded| <= |d|
    && d[..|expanded|] == expanded
    && queue == d[|expanded|..]
    && visited == Elems(d)
  }

  /** Levels along the queue order never decrease, and none exceeds the
      level of the queue's head by more than one. */
  ghost predicate LevelOrder(g: Graph, start: Node, level: map<Node, nat>, expanded: seq<Node>)
  {
    var d := BfsOrder(g, start, expanded);
    && (forall i :: 0 <= i < |d| ==> d[i] in level)
    && (forall i, j :: 0 <= i <= j < |d| ==> level[d[i]] <= level[d[j]])
    && (|expanded| < |d| ==> forall j :: 0 <= j < |d| ==> level[d[j]] <= level[d[|expanded|]] + 1)
  }

  /** Every node with a walk of fewer edges than the level of the queue's
      head has already been expanded. */
  lemma {:induction false} ShortWalkExpanded(g: Graph, start: Node, queue: seq<Node>, visited: set<Node>,
                                             level: map<Node, nat>, expanded: seq<Node>,
                                             x: Node, p: seq<Node>)
    requires QueueState(g, start, queue, visited, expanded)
    requires LevelOrder(g, start, level, expanded)
    requires ExpandedClosed(g, expanded, visited)
    requires ShortestLevels(g, start, level)
    requires start in level && level[start] == 0
    requires queue != [] && queue[0] in level
    requires WalkFrom(g, start, x, p) && |p| <= level[queue[0]]
    ensures x in expanded
    decreases |p|
  {
    var d := BfsOrder(g, start, expanded);
    var k := |expanded|;
    assert queue[0] == d[k];
    if |p| == 1 {
      assert k > 0;
      assert x == d[0] == expanded[0];
    } else {
      WalkPrefix(g, start, x, p);
      ShortWalkExpanded(g, start, queue, visited, level, expanded, p[|p| - 2], p[..|p| - 1]);
      assert x in visited;
      var j :| 0 <= j < |d| && d[j] == x;
      assert level[x] < |p|;
      assert j < k;
      assert expanded[j] == x;
    }
  }

  /** Queue bookkeeping of one iteration that dequeues `queue[0]` and
      enqueues its newly discovered successors. */
  lemma BfsQueueStep(g: Graph, start: Node, queue: seq<Node>, visited: set<Node>, expanded: seq<Node>,
                     queue': seq<Node>, visited': set<Node>)
    requires QueueState(g, start, queue, visited, expanded)
    requires queue != []
    requires queue' == queue[1..] + NewlyDiscovered(Sort(Succ(g, queue[0])), visited)
    requires visited' == visited + Elems(Succ(g, queue[0]))
    ensures queue[0] == BfsOrder(g, start, expanded)[|expanded|]
    ensures BfsOrder(g, start, expanded + [queue[0]])
         == BfsOrder(g, start, expanded) + NewlyDiscovered(Sort(Succ(g, queue[0])), visited)
    ensures QueueState(g, start, queue', visited', expanded + [queue[0]])
  {
    var u := queue[0];
    var k := |expanded|;
    var d := BfsOrder(g, start, expanded);
    var found := NewlyDiscovered(Sort(Succ(g, u)), visited);
    BfsOrderSnoc(g, start, expanded, u);
    assert u == d[k];
    QueueSlices(d, found, expanded, queue, queue');
    assert visited' == Elems(d + found) by {
      assert Elems(found) == Elems(Succ(g, u)) - visited by {
        EnqueuedAscending(Succ(g, u), visited);
      }
      ElemsAppend(d, found);
    }
  }

  /** The sequence reasoning behind `BfsQueueStep`. */
  lemma QueueSlices(d: seq<Node>, found: seq<Node>, expanded: seq<Node>, queue: seq<Node>, queue': seq<Node>)
    requires |expanded| < |d| && d[..|expanded|] == expanded && queue == d[|expanded|..]
    requires queue' == queue[1..] + found
    ensures (d + found)[..|expanded| + 1] == expanded + [queue[0]]
    ensures queue' == (d + found)[|expanded| + 1..]
  {
    var k := |expanded|;
    assert d[..k + 1] == d[..k] + [d[k]];
  }

  /** Level bookkeeping of one iteration: levels along the queue order stay
      non-decreasing and within one of the head's level. */
  lemma BfsLevelStep(g: Graph, start: Node, queue: seq<Node>, visited: set<Node>,
                     level: map<Node, nat>, expanded: seq<Node>, level': map<Node, nat>)
    requires QueueState(g, start, queue, visited, expanded)
    requires LevelOrder(g, start, level, expanded)
    requires queue != [] && queue[0] in level
    requires forall n :: n in visited ==> n in level && n in level' && level'[n] == level[n]
    requires forall n :: n in Succ(g, queue[0]) && n !in visited ==>
               n in level' && level'[n] == level[queue[0]] + 1
    ensures LevelOrder(g, start, level', expanded + [queue[0]])
  {
    var u := queue[0];
    var d := BfsOrder(g, start, expanded);
    var found := NewlyDiscovered(Sort(Succ(g, u)), visited);
    BfsOrderSnoc(g, start, expanded, u);
    assert u == d[|expanded|];
    assert forall n :: n in found ==> n in Succ(g, u) && n !in visited by {
      EnqueuedAscending(Succ(g, u), visited);
    }
    LevelsAppend(d, found, |expanded|, level, level');
  }

  /** The sequence reasoning behind `BfsLevelStep`: appending nodes one level
      below the head keeps levels non-decreasing, within one of the next head. */
  lemma LevelsAppend(d: seq<Node>, found: seq<Node>, k: nat, level: map<Node, nat>, level': map<Node, nat>)
    requires k < |d|
    requires forall i :: 0 <= i < |d| ==> d[i] in level && d[i] in level' && level'[d[i]] == level[d[i]]
    requires forall i, j :: 0 <= i <= j < |d| ==> level[d[i]] <= level[d[j]]
    requires forall j :: 0 <= j < |d| ==> level[d[j]] <= level[d[k]] + 1
    requires forall n :: n in found ==> n in level' && level'[n] == level[d[k]] + 1
    ensures var d' := d + found;
      && (forall i :: 0 <= i < |d'| ==> d'[i] in level')
      && (forall i, j :: 0 <= i <= j < |d'| ==> level'[d'[i]] <= level'[d'[j]])
      && (k + 1 < |d'| ==> forall j :: 0 <= j < |d'| ==> level'[d'[j]] <= level'[d'[k + 1]] + 1)
  {
    var d' := d + found;
    forall i | 0 <= i < |d'|
      ensures d'[i] in level'
      ensures i < |d| ==> level'[d'[i]] == level[d[i]] <= level[d[k]] + 1
      ensures i >= |d| ==> level'[d'[i]] == level[d[k]] + 1
    {
      if i >= |d| {
        assert d'[i] == found[i - |d|];
      }
    }
  }

  /** The nodes discovered by an iteration get their shortest distance. */
  lemma BfsShortestStep(g: Graph, start: Node, queue: seq<Node>, visited: set<Node>,
                        level: map<Node, nat>, expanded: seq<Node>, level': map<Node, nat>)
    requires QueueState(g, start, queue, visited, expanded)
    requires LevelOrder(g, start, level, expanded)
    requires ExpandedClosed(g, expanded, visited)
    requires ShortestLevels(g, start, level)
    requires start in level && level[start] == 0
    requires queue != [] && queue[0] in level
    requires forall n :: n in level' ==> n in visited || n in Succ(g, queue[0])
    requires forall n :: n in visited ==> n in level && n in level' && level'[n] == level[n]
    requires forall n :: n in level' && n !in visited ==> level'[n] == level[queue[0]] + 1
    ensures ShortestLevels(g, start, level')
  {
    var u := queue[0];
    forall n, p | n in level' && WalkFrom(g, start, n, p)
      ensures level'[n] < |p|
    {
      if n !in visited && |p| <= level[u] + 1 {
        assert n != start;
        WalkPrefix(g, start, n, p);
        ShortWalkExpanded(g, start, queue, visited, level, expanded, p[|p| - 2], p[..|p| - 1]);
        assert false;
      }
    }
  }

  /** The head of a non-empty queue is the next node of queue order. */
  lemma BfsHead(g: Graph, start: Node, us: seq<Node>)
    requires Drop(BfsOrder(g, start, us), |us|) != []
    ensures |us| < |BfsOrder(g, start, us)|
    ensures Drop(BfsOrder(g, start, us), |us|)[0] == BfsOrder(g, start, us)[|us|]
  {
  }

  /** Expanding a node adds its successors to the enqueued nodes. */
  lemma BfsOrderElems(g: Graph, start: Node, us: seq<Node>)
    requires us != []
    ensures Elems(BfsOrder(g, start, us))
         == Elems(BfsOrder(g, start, us[..|us| - 1])) + Elems(Succ(g, us[|us| - 1]))
  {
    var before := BfsOrder(g, start, us[..|us| - 1]);
    EnqueuedAscending(Succ(g, us[|us| - 1]), Elems(before));
    ElemsAppend(before, NewlyDiscovered(Sort(Succ(g, us[|us| - 1])), Elems(before)));
  }

  /** Every enqueued node is a node of the graph. */
  lemma {:induction false} BfsOrderNodes(g: Graph, start: Node, us: seq<Node>)
    ensures Elems(BfsOrder(g, start, us)) <= Nodes(g, start)
    decreases |us|
  {
    if us == [] {
      assert Elems([start]) == {start};
    } else {
      BfsOrderNodes(g, start, us[..|us| - 1]);
      BfsOrderElems(g, start, us);
      SuccInNodes(g, start, us[|us| - 1]);
    }
  }

  /** The last node of a non-empty BFS prefix is the head of the queue
      left by the nodes before it. */
  lemma BfsPrefixLast(g: Graph, start: Node, us: seq<Node>)
    requires IsBfsPrefix(g, start, us) && us != []
    ensures IsBfsPrefix(g, start, us[..|us| - 1])
    ensures var queue := Drop(BfsOrder(g, start, us[..|us| - 1]), |us| - 1);
      queue != [] && queue[0] == us[|us| - 1] && us == us[..|us| - 1] + [queue[0]]
  {
    var prev := us[..|us| - 1];
    var d := BfsOrder(g, start, prev);
    assert |prev| < |d| && us[|us| - 1] == d[|prev|];
    assert Drop(d, |prev|) == d[|prev|..];
    assert us == prev + [us[|us| - 1]];
  }

  /** Node `k` of a BFS prefix is the node the queue order reaches after
      the first `k` expansions. */
  lemma {:induction false} BfsPrefixNext(g: Graph, start: Node, us: seq<Node>, k: nat)
    requires IsBfsPrefix(g, start, us) && k < |us|
    ensures k < |BfsOrder(g, start, us[..k])| && us[k] == BfsOrder(g, start, us[..k])[k]
    decreases |us|
  {
    var prev := us[..|us| - 1];
    if k == |us| - 1 {
      assert prev == us[..k];
    } else {
      BfsPrefixNext(g, start, prev, k);
      assert prev[..k] == us[..k];
    }
  }

  /** The node at the head of the queue has not been expanded yet. */
  lemma BfsNextUnexpanded(g: Graph, start: Node, us: seq<Node>)
    requires IsBfsPrefix(g, start, us)
    ensures |us| < |BfsOrder(g, start, us)| ==> BfsOrder(g, start, us)[|us|] !in us
  {
    BfsPrefixOrder(g, start, us);
    BfsOrderDistinct(g, start, us);
    var d := BfsOrder(g, start, us);
    if |us| < |d| {
      forall i | 0 <= i < |us|
        ensures us[i] != d[|us|]
      {
        assert us[i] == d[i];
      }
    }
  }

  /** How one expansion changes the level map: old entries stay, and the
      successors not seen before get the expanded node's level plus one. */
  lemma BfsLevelsStep(g: Graph, start: Node, us: seq<Node>)
    requires us != []
    requires us[|us| - 1] in BfsLevels(g, start, us[..|us| - 1])
    requires BfsLevels(g, start, us[..|us| - 1]).Keys == Elems(BfsOrder(g, start, us[..|us| - 1]))
    ensures var u, visited := us[|us| - 1], Elems(BfsOrder(g, start, us[..|us| - 1]));
      var level, level' := BfsLevels(g, start, us[..|us| - 1]), BfsLevels(g, start, us);
      && (forall n :: n in visited ==> n in level && n in level' && level'[n] == level[n])
      && (forall n :: n in Succ(g, u) && n !in visited ==> n in level' && level'[n] == level[u] + 1)
      && (forall n :: n in level' ==> n in visited || n in Succ(g, u))
      && (forall n :: n in level' && n !in visited ==> level'[n] == level[u] + 1)
  {
    SortSameElems(Succ(g, us[|us| - 1]));
  }

  /** Taking the next node of a sequence extends a prefix of it, also
      after more nodes are appended to the sequence. */
  lemma PrefixExtend(before: seq<Node>, found: seq<Node>, prev: seq<Node>)
    requires |prev| < |before| && before[..|prev|] == prev
    ensures (before + found)[..|prev| + 1] == prev + [before[|prev|]]
  {
    assert (before + found)[..|prev| + 1] == before[..|prev| + 1];
    assert before[..|prev| + 1] == before[..|prev|] + [before[|prev|]];
  }

  /** A BFS prefix is a prefix of queue order. */
  lemma {:induction false} BfsPrefixOrder(g: Graph, start: Node, us: seq<Node>)
    requires IsBfsPrefix(g, start, us)
    ensures |us| <= |BfsOrder(g, start, us)| && BfsOrder(g, start, us)[..|us|] == us
    decreases |us|
  {
    if us != [] {
      var k := |us|;
      var prev := us[..k - 1];
      var before := BfsOrder(g, start, prev);
      BfsPrefixOrder(g, start, prev);
      PrefixExtend(before, NewlyDiscovered(Sort(Succ(g, us[k - 1])), Elems(before)), prev);
      assert us == prev + [us[k - 1]];
    }
  }

  /** Along a BFS prefix the queue is what follows the prefix in queue
      order, and the visited set is everything in queue order. */
  lemma BfsPrefixQueue(g: Graph, start: Node, us: seq<Node>)
    requires IsBfsPrefix(g, start, us)
    ensures QueueState(g, start, Drop(BfsOrder(g, start, us), |us|), Elems(BfsOrder(g, start, us)), us)
  {
    BfsPrefixOrder(g, start, us);
  }

  /** `parent_map`, `level` and `visited` always have the same keys. */
  lemma {:induction false} BfsKeys(g: Graph, start: Node, us: seq<Node>)
    ensures BfsParents(g, start, us).Keys == Elems(BfsOrder(g, start, us))
    ensures BfsLevels(g, start, us).Keys == Elems(BfsOrder(g, start, us))
    decreases |us|
  {
    if us == [] {
      assert Elems([start]) == {start};
    } else {
      BfsKeys(g, start, us[..|us| - 1]);
      BfsOrderElems(g, start, us);
    }
  }

  /** BFS builds a discovery tree: every discovered node other than the
      start has its discoverer as parent and is one level below it. */
  lemma {:induction false} BfsTree(g: Graph, start: Node, us: seq<Node>)
    requires IsBfsPrefix(g, start, us)
    ensures IsTree(g, start, Elems(BfsOrder(g, start, us)), BfsParents(g, start, us), BfsLevels(g, start, us))
    decreases |us|
  {
    if us == [] {
      assert Elems([start]) == {start};
    } else {
      var prev := us[..|us| - 1];
      var u := us[|us| - 1];
      BfsTree(g, start, prev);
      assert u in Elems(BfsOrder(g, start, prev));
      SortSameElems(Succ(g, u));
      DiscoveryKeepsTree(g, start, u, Elems(Sort(Succ(g, u))), Elems(BfsOrder(g, start, prev)),
                         BfsParents(g, start, prev), BfsLevels(g, start, prev));
      BfsOrderElems(g, start, us);
    }
  }

  /** Levels along queue order never decrease and stay within one of the
      level of the next node to dequeue. */
  lemma {:induction false} BfsLevelOrder(g: Graph, start: Node, us: seq<Node>)
    requires IsBfsPrefix(g, start, us)
    ensures LevelOrder(g, start, BfsLevels(g, start, us), us)
    decreases |us|
  {
    if us == [] {
      assert BfsOrder(g, start, us) == [start];
    } else {
      var prev := us[..|us| - 1];
      var before := BfsOrder(g, start, prev);
      var queue := Drop(before, |prev|);
      BfsPrefixLast(g, start, us);
      BfsLevelOrder(g, start, prev);
      BfsPrefixQueue(g, start, prev);
      BfsTree(g, start, prev);
      BfsLevelsStep(g, start, us);
      BfsLevelStep(g, start, queue, Elems(before), BfsLevels(g, start, prev), prev, BfsLevels(g, start, us));
    }
  }

  /** Every successor of an expanded node has been enqueued. */
  lemma {:induction false} BfsClosed(g: Graph, start: Node, us: seq<Node>)
    ensures ExpandedClosed(g, us, Elems(BfsOrder(g, start, us)))
    decreases |us|
  {
    if us != [] {
      var prev := us[..|us| - 1];
      BfsClosed(g, start, prev);
      BfsOrderElems(g, start, us);
      assert forall e :: e in us ==> e in prev || e == us[|us| - 1];
    }
  }

  /** Every level BFS assigns is the length of a shortest walk: no walk to a
      discovered node has fewer edges than its level. */
  lemma {:induction false} BfsShortest(g: Graph, start: Node, us: seq<Node>)
    requires IsBfsPrefix(g, start, us)
    ensures ShortestLevels(g, start, BfsLevels(g, start, us))
    decreases |us|
  {
    if us != [] {
      var prev := us[..|us| - 1];
      var before := BfsOrder(g, start, prev);
      var queue := Drop(before, |prev|);
      BfsPrefixLast(g, start, us);
      BfsShortest(g, start, prev);
      BfsPrefixQueue(g, start, prev);
      BfsLevelOrder(g, start, prev);
      BfsClosed(g, start, prev);
      BfsTree(g, start, prev);
      BfsLevelsStep(g, start, us);
      BfsShortestStep(g, start, queue, Elems(before), BfsLevels(g, start, prev), prev, BfsLevels(g, start, us));
    }
  }

  /** Appending the row of the last expansion keeps the trace shape. */
  lemma BfsTraceStep(g: Graph, start: Node, goal: Node, us: seq<Node>)
    requires IsBfsPrefix(g, start, us) && goal !in us && us != []
    requires var prev := us[..|us| - 1];
      TraceState(g, start, goal, Queue, BfsSteps(g, start, prev), BfsLevels(g, start, prev),
                 Elems(BfsOrder(g, start, prev)), prev)
    ensures TraceState(g, start, goal, Queue, BfsSteps(g, start, us), BfsLevels(g, start, us),
                       Elems(BfsOrder(g, start, us)), us)
  {
    var k := |us|;
    var prev, u := us[..k - 1], us[k - 1];
    assert us == prev + [u];
    var before := BfsOrder(g, start, prev);
    var after := BfsOrder(g, start, us);
    var r := TraceStep(k, Expanded(u), LevelOf(BfsLevels(g, start, us), u), Queue,
                       Drop(before, k) + Sort(Drop(after, k)), Elems(after));
    assert u == before[|prev|] && goal !in prev;
    BfsKeys(g, start, prev);
    BfsOrderElems(g, start, us);
    BfsLevelsStep(g, start, us);
    TraceAppend(g, start, goal, Queue, u, Elems(before), BfsLevels(g, start, prev), prev,
                BfsSteps(g, start, prev), Elems(after), BfsLevels(g, start, us), r);
  }

  /** The BFS rows form a trace: one row per expansion of a node other than
      the goal, each following the one before it. */
  lemma {:induction false} BfsTrace(g: Graph, start: Node, goal: Node, us: seq<Node>)
    requires IsBfsPrefix(g, start, us) && goal !in us
    ensures TraceState(g, start, goal, Queue, BfsSteps(g, start, us), BfsLevels(g, start, us),
                       Elems(BfsOrder(g, start, us)), us)
    decreases |us|
  {
    if us == [] {
      assert Elems([start]) == {start};
    } else {
      assert us[..|us| - 1] <= us;
      BfsTrace(g, start, goal, us[..|us| - 1]);
      BfsTraceStep(g, start, goal, us);
    }
  }

  /** Dropping the last expansion drops the last row. */
  lemma BfsStepsInit(g: Graph, start: Node, us: seq<Node>)
    requires us != []
    ensures BfsSteps(g, start, us)[..|us|] == BfsSteps(g, start, us[..|us| - 1])
  {
  }

  /** A row kept by a prefix is the same row. */
  lemma TakeIndex(all: seq<TraceStep>, rows: seq<TraceStep>, k: nat)
    requires |rows| <= |all| && all[..|rows|] == rows && k < |rows|
    ensures all[k] == rows[k]
  {
  }

  /** The frontier column of the last BFS row. */
  lemma BfsLastFrontier(g: Graph, start: Node, us: seq<Node>)
    requires us != []
    ensures var k := |us|;
      BfsSteps(g, start, us)[k].frontier
        == Drop(BfsOrder(g, start, us[..k - 1]), k) + Sort(Drop(BfsOrder(g, start, us), k))
  {
  }

  /** The frontier column of row k, whatever follows it: the queue left by
      the k-th dequeue followed by the sorted queue after its enqueues, so a
      node already waiting appears twice. */
  lemma {:induction false} BfsFrontierColumn(g: Graph, start: Node, us: seq<Node>, k: nat)
    requires 1 <= k <= |us|
    ensures BfsSteps(g, start, us)[k].frontier
         == Drop(BfsOrder(g, start, us[..k - 1]), k) + Sort(Drop(BfsOrder(g, start, us[..k]), k))
    decreases |us|
  {
    if k == |us| {
      assert us[..k] == us;
      BfsLastFrontier(g, start, us);
    } else {
      var prev := us[..|us| - 1];
      var before, after := BfsOrder(g, start, us[..k - 1]), BfsOrder(g, start, us[..k]);
      assert BfsSteps(g, start, prev)[k].frontier == Drop(before, k) + Sort(Drop(after, k)) by {
        BfsFrontierColumn(g, start, prev, k);
        assert prev[..k] == us[..k] && prev[..k - 1] == us[..k - 1];
      }
      assert BfsSteps(g, start, us)[k] == BfsSteps(g, start, prev)[k] by {
        BfsStepsInit(g, start, us);
        TakeIndex(BfsSteps(g, start, us), BfsSteps(g, start, prev), k);
      }
    }
  }

  /** No node is dequeued twice. */
  lemma ExpandedDistinct(g: Graph, start: Node, queue: seq<Node>, visited: set<Node>, expanded: seq<Node>)
    requires QueueState(g, start, queue, visited, expanded)
    ensures Distinct(expanded)
  {
    var d := BfsOrder(g, start, expanded);
    BfsOrderDistinct(g, start, expanded);
    assert forall i :: 0 <= i < |expanded| ==> expanded[i] == d[i];
  }

  /** Levels of a BFS trace never decrease from one record to the next. */
  lemma BfsTraceLevels(g: Graph, start: Node, goal: Node, queue: seq<Node>, visited: set<Node>,
                    level: map<Node, nat>, expanded: seq<Node>, steps: seq<TraceStep>)
    requires QueueState(g, start, queue, visited, expanded)
    requires LevelOrder(g, start, level, expanded)
    requires TraceState(g, start, goal, Queue, steps, level, visited, expanded)
    ensures forall i, j :: 1 <= i <= j < |steps| ==> steps[i].level <= steps[j].level
  {
    var d := BfsOrder(g, start, expanded);
    forall i | 1 <= i < |steps|
      ensures steps[i].level == level[d[i - 1]]
    {
      assert FollowsRecord(g, goal, Queue, level, i, steps[i - 1], steps[i]);
      assert expanded[i - 1] == d[i - 1];
    }
  }

  /** Expanding one more node: its parent links. */
  lemma BfsParentsSnoc(g: Graph, start: Node, us: seq<Node>, u: Node)
    ensures BfsParents(g, start, us + [u]) == Adopt(BfsParents(g, start, us), Elems(Sort(Succ(g, u))), Some(u))
  {
    assert (us + [u])[..|us|] == us;
  }

  /** Expanding one more node: its levels. */
  lemma BfsLevelsSnoc(g: Graph, start: Node, us: seq<Node>, u: Node)
    ensures var level := BfsLevels(g, start, us);
      BfsLevels(g, start, us + [u]) == Adopt(level, Elems(Sort(Succ(g, u))), LevelOf(level, u) + 1)
  {
    assert (us + [u])[..|us|] == us;
  }

  /** The level map `Discover` leaves after expanding `u` is the next one. */
  lemma BfsLevelsNext(g: Graph, start: Node, us: seq<Node>, u: Node, level0: map<Node, nat>, level: map<Node, nat>)
    requires level0 == BfsLevels(g, start, us)
    requires level == Adopt(level0, Elems(Sort(Succ(g, u))), LevelOf(level0, u) + 1)
    ensures level == BfsLevels(g, start, us + [u])
  {
    BfsLevelsSnoc(g, start, us, u);
  }

  /** Expanding one more node: its row. */
  lemma BfsStepsSnoc(g: Graph, start: Node, us: seq<Node>, u: Node)
    ensures var k, after := |us| + 1, BfsOrder(g, start, us + [u]);
      BfsSteps(g, start, us + [u])
        == BfsSteps(g, start, us)
           + [TraceStep(k, Expanded(u), LevelOf(BfsLevels(g, start, us + [u]), u), Queue,
                        Drop(BfsOrder(g, start, us), k) + Sort(Drop(after, k)), Elems(after))]
  {
    assert (us + [u])[..|us|] == us;
  }

  /** One iteration of the loop that dequeues `node`, a node other than
      the goal, and discovers its successors in ascending order moves the
      queue and the visited set to the BFS state of one more expansion. */
  lemma BfsIterationQueue(g: Graph, start: Node, expanded: seq<Node>, queue: seq<Node>, node: Node,
                          queue': seq<Node>, visited': set<Node>)
    requires IsBfsPrefix(g, start, expanded) && Elems(BfsOrder(g, start, expanded)) <= Nodes(g, start)
    requires queue == Drop(BfsOrder(g, start, expanded), |expanded|) && queue != [] && node == queue[0]
    requires queue' == queue[1..] + NewlyDiscovered(Sort(Succ(g, node)), Elems(BfsOrder(g, start, expanded)))
    requires visited' == Elems(BfsOrder(g, start, expanded)) + Elems(Sort(Succ(g, node)))
    ensures IsBfsPrefix(g, start, expanded + [node])
    ensures queue[1..] == Drop(BfsOrder(g, start, expanded), |expanded| + 1)
    ensures queue' == Drop(BfsOrder(g, start, expanded + [node]), |expanded| + 1)
    ensures visited' == Elems(BfsOrder(g, start, expanded + [node])) && visited' <= Nodes(g, start)
    ensures visited' == Elems(BfsOrder(g, start, expanded)) ==> |queue'| < |queue|
  {
    var us := expanded + [node];
    var before := BfsOrder(g, start, expanded);
    assert us[..|us| - 1] == expanded && us[|us| - 1] == node;
    BfsHead(g, start, expanded);
    BfsPrefixQueue(g, start, expanded);
    SortSameElems(Succ(g, node));
    SuccInNodes(g, start, node);
    BfsQueueStep(g, start, queue, Elems(before), expanded, queue', visited');
    if visited' == Elems(before) {
      NothingNew(Sort(Succ(g, node)), Elems(before));
    }
  }

  /** The loop variables of `breadth_first_search` after the expansions
      `expanded`, none of them the goal: each is the function of `expanded`
      that defines it. */
  ghost predicate BfsLoopState(g: Graph, start: Node, goal: Node, expanded: seq<Node>,
                               queue: seq<Node>, visited: set<Node>, parent: map<Node, Option<Node>>,
                               level: map<Node, nat>, steps: seq<TraceStep>)
  {
    && IsBfsPrefix(g, start, expanded) && goal !in expanded
    && queue == Drop(BfsOrder(g, start, expanded), |expanded|)
    && visited == Elems(BfsOrder(g, start, expanded))
    && parent == BfsParents(g, start, expanded)
    && level == BfsLevels(g, start, expanded)
    && steps == BfsSteps(g, start, expanded)
  }

  /** One pass of the loop body: after dequeuing `node`, a node other than
      the goal, and discovering its sorted successors, the loop variables
      describe the expansions `expanded + [node]`, and either more nodes are
      visited or the queue is shorter. */
  lemma BfsStep(g: Graph, start: Node, goal: Node, expanded: seq<Node>, node: Node,
                queue0: seq<Node>, visited0: set<Node>, parent0: map<Node, Option<Node>>,
                level0: map<Node, nat>, steps0: seq<TraceStep>,
                queue: seq<Node>, visited: set<Node>, parent: map<Node, Option<Node>>,
                level: map<Node, nat>, steps: seq<TraceStep>)
    requires IsBfsPrefix(g, start, expanded) && goal !in expanded
    requires queue0 == Drop(BfsOrder(g, start, expanded), |expanded|) && queue0 != []
    requires node == queue0[0] && node != goal
    requires visited0 == Elems(BfsOrder(g, start, expanded))
    requires parent0 == BfsParents(g, start, expanded)
    requires level0 == BfsLevels(g, start, expanded)
    requires steps0 == BfsSteps(g, start, expanded)
    requires queue == queue0[1..] + NewlyDiscovered(Sort(Succ(g, node)), visited0)
    requires visited == visited0 + Elems(Sort(Succ(g, node)))
    requires parent == Adopt(parent0, Elems(Sort(Succ(g, node))), Some(node))
    requires level == Adopt(level0, Elems(Sort(Succ(g, node))), LevelOf(level0, node) + 1)
    requires steps == steps0 + [TraceStep(|expanded| + 1, Expanded(node), LevelOf(level, node), Queue,
                                          queue0[1..] + Sort(queue), visited)]
    ensures IsBfsPrefix(g, start, expanded + [node]) && goal !in expanded + [node]
    ensures queue == Drop(BfsOrder(g, start, expanded + [node]), |expanded + [node]|)
    ensures visited == Elems(BfsOrder(g, start, expanded + [node]))
    ensures parent == BfsParents(g, start, expanded + [node])
    ensures level == BfsLevels(g, start, expanded + [node])
    ensures steps == BfsSteps(g, start, expanded + [node])
    ensures Nodes(g, start) - visited < Nodes(g, start) - visited0
         || (visited == visited0 && |queue| < |queue0|)
  {
    BfsOrderNodes(g, start, expanded);
    BfsIterationQueue(g, start, expanded, queue0, node, queue, visited);
    BfsParentsSnoc(g, start, expanded, node);
    BfsLevelsNext(g, start, expanded, node, level0, level);
    BfsStepsSnoc(g, start, expanded, node);
    if visited != visited0 {
      Shrinks(Nodes(g, start), visited0, visited);
    }
  }

  /** What the search returns when it stops after expanding `us`: either
      the queue ran empty, or the goal is the next node of queue order and
      `path` is the walk of parent links to it. */
  lemma BfsResult(g: Graph, start: Node, goal: Node, us: seq<Node>, path: seq<Node>)
    requires IsBfsPrefix(g, start, us) && goal !in us
    requires path == [] ==> Drop(BfsOrder(g, start, us), |us|) == []
    requires path != [] ==>
      var level := BfsLevels(g, start, us);
      && |us| < |BfsOrder(g, start, us)| && BfsOrder(g, start, us)[|us|] == goal
      && WalkFrom(g, start, goal, path) && goal in level && |path| == level[goal] + 1
      && forall i :: 0 <= i < |path| ==> path[i] in level && level[path[i]] == i
    ensures IsLevelTree(g, start, BfsLevels(g, start, us))
    ensures ShortestLevels(g, start, BfsLevels(g, start, us))
    ensures IsPathOutcome(g, start, goal, path, BfsLevels(g, start, us))
    ensures start == goal ==> us == [] && path == [start]
  {
    var d := BfsOrder(g, start, us);
    var level := BfsLevels(g, start, us);
    BfsTree(g, start, us);
    BfsKeys(g, start, us);
    BfsShortest(g, start, us);
    BfsPrefixQueue(g, start, us);
    if path == [] {
      assert d == us;
      BfsClosed(g, start, us);
      ExhaustedSearch(g, start, goal, level, us);
    }
    if start == goal && us != [] {
      assert false;
    }
  }

  /** The recorded rows form a valid trace whose expansions are `us`. */
  lemma BfsResultTrace(g: Graph, start: Node, goal: Node, us: seq<Node>)
    requires IsBfsPrefix(g, start, us) && goal !in us
    ensures IsTrace(g, start, goal, Queue, BfsSteps(g, start, us), BfsLevels(g, start, us))
    ensures AllExpanded(BfsSteps(g, start, us)) && Expansions(BfsSteps(g, start, us)) == us
  {
    var d := BfsOrder(g, start, us);
    BfsTrace(g, start, goal, us);
    BfsPrefixQueue(g, start, us);
    BfsKeys(g, start, us);
    ExpandedDistinct(g, start, Drop(d, |us|), Elems(d), us);
    TraceDone(g, start, goal, Queue, Elems(d), BfsLevels(g, start, us), us, BfsSteps(g, start, us));
  }

  /** The rows describe a breadth-first run that stopped at the goal or ran dry. */
  lemma BfsResultRun(g: Graph, start: Node, goal: Node, us: seq<Node>, found: bool)
    requires IsBfsPrefix(g, start, us) && goal !in us
    requires found ==> |us| < |BfsOrder(g, start, us)| && BfsOrder(g, start, us)[|us|] == goal
    requires !found ==> Drop(BfsOrder(g, start, us), |us|) == []
    ensures AllExpanded(BfsSteps(g, start, us))
    ensures IsBfsRun(g, start, goal, BfsSteps(g, start, us), found)
  {
    BfsResultTrace(g, start, goal, us);
    BfsPrefixOrder(g, start, us);
  }

  /** The levels in the rows never decrease. */
  lemma BfsResultLevels(g: Graph, start: Node, goal: Node, us: seq<Node>)
    requires IsBfsPrefix(g, start, us) && goal !in us
    ensures var steps := BfsSteps(g, start, us);
      forall i, j :: 1 <= i <= j < |steps| ==> steps[i].level <= steps[j].level
  {
    var d := BfsOrder(g, start, us);
    BfsTrace(g, start, goal, us);
    BfsPrefixQueue(g, start, us);
    BfsKeys(g, start, us);
    BfsLevelOrder(g, start, us);
    BfsTraceLevels(g, start, goal, Drop(d, |us|), Elems(d), BfsLevels(g, start, us), us, BfsSteps(g, start, us));
  }

  /** When the goal is the next node of queue order, the parent links lead
      from it back to the start node. */
  lemma BfsFound(g: Graph, start: Node, goal: Node, us: seq<Node>)
    requires IsBfsPrefix(g, start, us)
    requires |us| < |BfsOrder(g, start, us)| && BfsOrder(g, start, us)[|us|] == goal
    ensures var parent := BfsParents(g, start, us);
      IsTree(g, start, parent.Keys, parent, BfsLevels(g, start, us)) && goal in parent
  {
    BfsTree(g, start, us);
    BfsKeys(g, start, us);
  }

  /** BFS levels are never above the levels of any other discovery tree,
      depth-first search's included: a tree level is the length of a walk,
      and a shortest level is at most that length. */
  lemma DfsNotBelowBfs(g: Graph, start: Node, bfs: map<Node, nat>, dfs: map<Node, nat>, n: Node)
    requires ShortestLevels(g, start, bfs) && IsLevelTree(g, start, dfs)
    requires n in bfs && n in dfs
    ensures bfs[n] <= dfs[n]
  {
    LevelTreeWalk(g, start, dfs, n);
  }

  /** Everything the search promises about its result, once it stops after
      expanding `us` and returns `path`. */
  lemma BfsOutcome(g: Graph, start: Node, goal: Node, us: seq<Node>, path: seq<Node>)
    requires IsBfsPrefix(g, start, us) && goal !in us
    requires path == [] ==> Drop(BfsOrder(g, start, us), |us|) == []
    requires path != [] ==>
      var level := BfsLevels(g, start, us);
      && |us| < |BfsOrder(g, start, us)| && BfsOrder(g, start, us)[|us|] == goal
      && WalkFrom(g, start, goal, path) && goal in level && |path| == level[goal] + 1
      && (forall i :: 0 <= i < |path| ==> path[i] in level && level[path[i]] == i)
      && FollowsParents(BfsParents(g, start, us), path)
    ensures var level, steps := BfsLevels(g, start, us), BfsSteps(g, start, us);
      && IsLevelTree(g, start, level)
      && ShortestLevels(g, start, level)
      && IsPathOutcome(g, start, goal, path, level)
      && IsTrace(g, start, goal, Queue, steps, level)
      && AllExpanded(steps) && IsBfsRun(g, start, goal, steps, path != [])
      && Expansions(steps) == us
      && FollowsParents(BfsParents(g, start, Expansions(steps)), path)
      && (forall i, j :: 1 <= i <= j < |steps| ==> steps[i].level <= steps[j].level)
      && (start == goal ==> path == [start] && steps == [InitialStep(start, Queue)] && level == map[start := 0])
  {
    BfsResult(g, start, goal, us, path);
    BfsResultTrace(g, start, goal, us);
    BfsResultRun(g, start, goal, us, path != []);
    BfsResultLevels(g, start, goal, us);
  }

  /** The body of the `while queue:` loop after `node`, not the goal, was
      dequeued from `queue0`: sort the successors, discover the unvisited
      ones and record the row. The loop variables move on to the expansions
      `expanded + [node]`, and either more nodes are visited or the queue
      is shorter than before the dequeue. */
  method BfsExpand(g: Graph, node: Node, queue: seq<Node>, visited: set<Node>,
                   parent: map<Node, Option<Node>>, level: map<Node, nat>,
                   steps: seq<TraceStep>, expansionOrder: nat,
                   ghost start: Node, ghost goal: Node, ghost expanded: seq<Node>, ghost queue0: seq<Node>)
    returns (queue': seq<Node>, visited': set<Node>, parent': map<Node, Option<Node>>,
             level': map<Node, nat>, steps': seq<TraceStep>)
    requires BfsLoopState(g, start, goal, expanded, queue0, visited, parent, level, steps)
    requires queue0 != [] && node == queue0[0] && queue == queue0[1..] && node != goal
    requires expansionOrder == |expanded| + 1
    ensures BfsLoopState(g, start, goal, expanded + [node], queue', visited', parent', level', steps')
    ensures Nodes(g, start) - visited' < Nodes(g, start) - visited
         || (visited' == visited && |queue'| < |queue0|)
  {
    BfsHead(g, start, expanded);
    assert parent.Keys == visited && level.Keys == visited && node in visited by {
      BfsKeys(g, start, expanded);
    }
    var neighbors := Sort(Succ(g, node));
    var newFrontier := queue;
    queue', visited', parent', level' := Discover(neighbors, node, queue, visited, parent, level);
    steps' := steps + [TraceStep(expansionOrder, Expanded(node), level'[node], Queue, newFrontier + Sort(queue'), visited')];
    BfsStep(g, start, goal, expanded, node, queue0, visited, parent, level, steps,
            queue', visited', parent', level', steps');
  }

  /** The `while queue:` loop of `breadth_first_search`. It stops when the
      goal is dequeued or the queue runs empty; `current` is the node dequeued
      last. The ghost `expanded` lists the nodes expanded so far. */
  method BfsLoop(g: Graph, start: Node, goal: Node)
    returns (current: Option<Node>, parent: map<Node, Option<Node>>, level: map<Node, nat>,
             steps: seq<TraceStep>, ghost expanded: seq<Node>)
    ensures IsBfsPrefix(g, start, expanded) && goal !in expanded
    ensures parent == BfsParents(g, start, expanded)
    ensures level == BfsLevels(g, start, expanded)
    ensures steps == BfsSteps(g, start, expanded)
    ensures current == Some(goal) ==>
      |expanded| < |BfsOrder(g, start, expanded)| && BfsOrder(g, start, expanded)[|expanded|] == goal
    ensures current != Some(goal) ==> Drop(BfsOrder(g, start, expanded), |expanded|) == []
  {
    var queue := [start];
    var visited := {start};
    parent := map[start := None];
    level := map[start := 0];
    steps := [InitialStep(start, Queue)];
    var expansionOrder := 0;
    current := None;
    expanded := [];
    assert Elems([start]) == {start};
    while queue != []
      invariant BfsLoopState(g, start, goal, expanded, queue, visited, parent, level, steps)
      invariant expansionOrder == |expanded|
      invariant current.Some? ==> current.value in expanded
      decreases Nodes(g, start) - visited, |queue|
    {
      ghost var queue0 := queue;
      var node := queue[0];
      queue := queue[1..];
      current := Some(node);
      expansionOrder := expansionOrder + 1;
      if node == goal {
        BfsHead(g, start, expanded);
        break;
      }
      queue, visited, parent, level, steps :=
        BfsExpand(g, node, queue, visited, parent, level, steps, expansionOrder, start, goal, expanded, queue0);
      expanded := expanded + [node];
    }
  }

  /** `breadth_first_search(graph, start_node, goal_node)`: returns the
      path, the rows of `process_steps` and the level map. */
  method BreadthFirstSearch(g: Graph, start: Node, goal: Node)
    returns (path: seq<Node>, steps: seq<TraceStep>, level: map<Node, nat>)
    ensures IsLevelTree(g, start, level)
    ensures ShortestLevels(g, start, level)
    ensures IsPathOutcome(g, start, goal, path, level)
    ensures IsTrace(g, start, goal, Queue, steps, level)
    ensures AllExpanded(steps) && IsBfsRun(g, start, goal, steps, path != [])
    ensures FollowsParents(BfsParents(g, start, Expansions(steps)), path)
    ensures forall i, j :: 1 <= i <= j < |steps| ==> steps[i].level <= steps[j].level
    ensures start == goal ==> path == [start] && steps == [InitialStep(start, Queue)] && level == map[start := 0]
  {
    var current, parent;
    ghost var expanded;
    current, parent, level, steps, expanded := BfsLoop(g, start, goal);
    path := [];
    if current == Some(goal) {
      BfsFound(g, start, goal, expanded);
      path := ReconstructPath(g, start, parent, level, goal);
    }
    BfsOutcome(g, start, goal, expanded, path);
  }
}
