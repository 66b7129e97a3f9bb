/** `depth_first_search`: LIFO frontier, successors pushed in descending
    order so that the alphabetically first is popped first, nodes marked
    visited when pushed, stop when the goal is popped. */
module DepthFirst {
  import opened Graphs
  import opened Sequences
  import opened Discovery

  /** `stack.pop()` on a non-empty stack: everything but the top. */
  function Pop(s: seq<Node>): seq<Node>
  {
    if |s| == 0 then [] else s[..|s| - 1]
  }

  /** `x` is the top of `stack`, the node `stack.pop()` returns. */
  predicate OnTop(stack: seq<Node>, x: Node)
  {
    |stack| > 0 && stack[|stack| - 1] == x
  }

  /** Tie-break: DFS pushes the unvisited successors of a node in descending
      order, each once, and no other node; sorting keeps the successors. */
  lemma PushedDescending(succ: seq<Node>, visited: set<Node>)
    ensures Elems(SortDesc(succ)) == Elems(succ)
    ensures var found := NewlyDiscovered(SortDesc(succ), visited);
      && Descending(found)
      && Distinct(found)
      && (forall n :: n in found <==> n in succ && n !in visited)
  {
    SortDescSorts(succ);
    NewlyDiscoveredDescending(SortDesc(succ), visited);
    NewlyDiscoveredDistinct(SortDesc(succ), visited);
    forall n
      ensures n in SortDesc(succ) <==> n in succ
    {
      assert n in SortDesc(succ) <==> n in multiset(SortDesc(succ));
    }
  }

  /** `visited` once the nodes `us` have been expanded in turn. */
  function DfsVisited(g: Graph, start: Node, us: seq<Node>): (visited: set<Node>)
    ensures start in visited
    decreases |us|
  {
    if |us| == 0 then {start}
    else DfsVisited(g, start, us[..|us| - 1]) + Elems(SortDesc(Succ(g, us[|us| - 1])))
  }

  /** `stack` once the nodes `us` have been expanded in turn: the top is
      popped, then the not-yet-seen successors of the popped node are pushed
      in descending order. */
  function DfsStack(g: Graph, start: Node, us: seq<Node>): seq<Node>
    decreases |us|
  {
    if |us| == 0 then [start]
    else
      var prev := us[..|us| - 1];
      Pop(DfsStack(g, start, prev))
        + NewlyDiscovered(SortDesc(Succ(g, us[|us| - 1])), DfsVisited(g, start, prev))
  }

  /** `us` can be the sequence of nodes popped so far: each one is the top
      of the stack at the time it is popped. */
  ghost predicate IsDfsPrefix(g: Graph, start: Node, us: seq<Node>)
    decreases |us|
  {
    |us| == 0 ||
      var prev := us[..|us| - 1];
      var stack := DfsStack(g, start, prev);
      && IsDfsPrefix(g, start, prev)
      && OnTop(stack, us[|us| - 1])
  }

  /** `parent_map` once the nodes `us` have been expanded in turn. */
  function DfsParents(g: Graph, start: Node, us: seq<Node>): map<Node, Option<Node>>
    decreases |us|
  {
    if |us| == 0 then map[start := None]
    else
      var u := us[|us| - 1];
      Adopt(DfsParents(g, start, us[..|us| - 1]), Elems(SortDesc(Succ(g, u))), Some(u))
  }

  /** `level` once the nodes `us` have been expanded in turn. */
  function DfsLevels(g: Graph, start: Node, us: seq<Node>): map<Node, nat>
    decreases |us|
  {
    if |us| == 0 then map[start := 0]
    else
      var u := us[|us| - 1];
      var before := DfsLevels(g, start, us[..|us| - 1]);
      Adopt(before, Elems(SortDesc(Succ(g, u))), LevelOf(before, u) + 1)
  }

  /** `process_steps` once the nodes `us` have been expanded in turn: the
      'Start' row, then per expansion its number, the node, the node's level,
      the stack listed from the top down and a copy of `visited`. */
  function DfsSteps(g: Graph, start: Node, us: seq<Node>): (steps: seq<TraceStep>)
    decreases |us|
  {
    if |us| == 0 then [InitialStep(start, Stack)]
    else
      var k := |us|;
      var u := us[k - 1];
      DfsSteps(g, start, us[..k - 1])
        + [TraceStep(k, Expanded(u), LevelOf(DfsLevels(g, start, us), u), Stack,
                     Reverse(DfsStack(g, start, us)), DfsVisited(g, start, us))]
  }

  /** A whole DFS run: its expansions follow the stack discipline, its rows
      are the DFS rows of those expansions, and the goal was popped exactly
      when the stack is not empty, with the goal on top. */
  ghost predicate IsDfsRun(g: Graph, start: Node, goal: Node, steps: seq<TraceStep>, found: bool)
    requires AllExpanded(steps)
  {
    var us := Expansions(steps);
    var stack := DfsStack(g, start, us);
    && IsDfsPrefix(g, start, us)
    && steps == DfsSteps(g, start, us)
    && (found <==> stack != [])
    && (found ==> OnTop(stack, goal))
  }

  /** How the popped nodes, the stack and the visited set relate: no node is
      popped twice, none is on the stack twice, none is both popped and on
      the stack, and the visited nodes are exactly those popped or waiting. */
  ghost predicate StackPartition(g: Graph, start: Node, us: seq<Node>)
  {
    var stack := DfsStack(g, start, us);
    && Distinct(us)
    && Distinct(stack)
    && (forall x :: x in stack ==> x !in us)
    && DfsVisited(g, start, us) == Elems(us) + Elems(stack)
  }

  /** Popping the top of a stack without repeats: the top is not among the
      rest, and the rest has no repeats. */
  lemma PopTop(s: seq<Node>)
    requires s != [] && Distinct(s)
    ensures Distinct(Pop(s))
    ensures s[|s| - 1] !in Pop(s)
    ensures Elems(s) == Elems(Pop(s)) + {s[|s| - 1]}
  {
    assert s == Pop(s) + [s[|s| - 1]];
  }

  /** Expanding one more node: the new visited set and stack. */
  lemma DfsSnoc(g: Graph, start: Node, us: seq<Node>, u: Node)
    ensures DfsVisited(g, start, us + [u]) == DfsVisited(g, start, us) + Elems(SortDesc(Succ(g, u)))
    ensures DfsStack(g, start, us + [u])
         == Pop(DfsStack(g, start, us)) + NewlyDiscovered(SortDesc(Succ(g, u)), DfsVisited(g, start, us))
  {
    assert (us + [u])[..|us|] == us;
  }

  /** Popping the top `u` of `stack` and pushing `found`, nodes not seen
      before, keeps the popped nodes and the stack free of repeats and
      apart from each other. */
  lemma PopPushDistinct(popped: seq<Node>, stack: seq<Node>, seen: set<Node>, found: seq<Node>)
    requires Distinct(popped) && Distinct(stack) && stack != []
    requires forall x :: x in stack ==> x !in popped
    requires seen == Elems(popped) + Elems(stack)
    requires Distinct(found) && forall x :: x in found ==> x !in seen
    ensures var u := stack[|stack| - 1];
      && Distinct(popped + [u])
      && Distinct(Pop(stack) + found)
      && forall x :: x in Pop(stack) + found ==> x !in popped + [u]
  {
    PopTop(stack);
    DistinctAppend(popped, [stack[|stack| - 1]]);
    DistinctAppend(Pop(stack), found);
  }

  /** Popping the top `u` of `stack` and pushing the nodes of `added` not
      seen before: what was seen, plus `added`, is what has been popped or
      is waiting. */
  lemma PopPushElems(popped: seq<Node>, stack: seq<Node>, seen: set<Node>, found: seq<Node>, added: set<Node>)
    requires stack != [] && seen == Elems(popped) + Elems(stack)
    requires Elems(found) == added - seen
    ensures seen + added == Elems(popped + [stack[|stack| - 1]]) + Elems(Pop(stack) + found)
  {
    assert stack == Pop(stack) + [stack[|stack| - 1]];
    ElemsAppend(Pop(stack), [stack[|stack| - 1]]);
    ElemsAppend(Pop(stack), found);
    ElemsAppend(popped, [stack[|stack| - 1]]);
  }

  /** One expansion keeps the partition into popped and waiting nodes. */
  lemma PartitionStep(g: Graph, start: Node, prev: seq<Node>, u: Node)
    requires StackPartition(g, start, prev)
    requires OnTop(DfsStack(g, start, prev), u)
    ensures StackPartition(g, start, prev + [u])
  {
    var s0, v0 := DfsStack(g, start, prev), DfsVisited(g, start, prev);
    var found := NewlyDiscovered(SortDesc(Succ(g, u)), v0);
    DfsSnoc(g, start, prev, u);
    PushedDescending(Succ(g, u), v0);
    assert Elems(found) == Elems(SortDesc(Succ(g, u))) - v0;
    PopPushDistinct(prev, s0, v0, found);
    PopPushElems(prev, s0, v0, found, Elems(SortDesc(Succ(g, u))));
  }

  /** Along a DFS prefix the popped nodes and the stack partition the
      visited set. */
  lemma {:induction false} DfsPartition(g: Graph, start: Node, us: seq<Node>)
    requires IsDfsPrefix(g, start, us)
    ensures StackPartition(g, start, us)
    decreases |us|
  {
    if us == [] {
      assert Elems([start]) == {start};
    } else {
      var prev, u := us[..|us| - 1], us[|us| - 1];
      assert us == prev + [u] && OnTop(DfsStack(g, start, prev), u);
      DfsPartition(g, start, prev);
      PartitionStep(g, start, prev, u);
    }
  }

  /** Node `k` of a DFS prefix is the top of the stack left by the first
      `k` pops. */
  lemma {:induction false} DfsPrefixNext(g: Graph, start: Node, us: seq<Node>, k: nat)
    requires IsDfsPrefix(g, start, us) && k < |us|
    ensures OnTop(DfsStack(g, start, us[..k]), us[k])
    decreases |us|
  {
    var prev := us[..|us| - 1];
    if k == |us| - 1 {
      assert prev == us[..k];
    } else {
      DfsPrefixNext(g, start, prev, k);
      assert prev[..k] == us[..k];
    }
  }

  /** A non-empty DFS prefix starts with the start node. */
  lemma {:induction false} DfsFirst(g: Graph, start: Node, us: seq<Node>)
    requires IsDfsPrefix(g, start, us) && us != []
    ensures us[0] == start && start in us
    decreases |us|
  {
    if |us| > 1 {
      DfsFirst(g, start, us[..|us| - 1]);
    }
  }

  /** `parent_map`, `level` and `visited` always have the same keys. */
  lemma {:induction false} DfsKeys(g: Graph, start: Node, us: seq<Node>)
    ensures DfsParents(g, start, us).Keys == DfsVisited(g, start, us)
    ensures DfsLevels(g, start, us).Keys == DfsVisited(g, start, us)
    decreases |us|
  {
    if us != [] {
      DfsKeys(g, start, us[..|us| - 1]);
    }
  }

  /** Every visited node is a node of the graph. */
  lemma {:induction false} DfsVisitedNodes(g: Graph, start: Node, us: seq<Node>)
    ensures DfsVisited(g, start, us) <= Nodes(g, start)
    decreases |us|
  {
    if us != [] {
      var u := us[|us| - 1];
      DfsVisitedNodes(g, start, us[..|us| - 1]);
      PushedDescending(Succ(g, u), {});
      SuccInNodes(g, start, u);
    }
  }

  /** Every successor of a popped node has been visited. */
  lemma {:induction false} DfsClosed(g: Graph, start: Node, us: seq<Node>)
    ensures ExpandedClosed(g, us, DfsVisited(g, start, us))
    decreases |us|
  {
    if us != [] {
      var prev := us[..|us| - 1];
      DfsClosed(g, start, prev);
      PushedDescending(Succ(g, us[|us| - 1]), {});
      assert forall e :: e in us ==> e in prev || e == us[|us| - 1];
    }
  }

  /** DFS builds a discovery tree: every visited node other than the start
      has its discoverer as parent and is one level below it. */
  lemma {:induction false} DfsTree(g: Graph, start: Node, us: seq<Node>)
    requires IsDfsPrefix(g, start, us)
    ensures IsTree(g, start, DfsVisited(g, start, us), DfsParents(g, start, us), DfsLevels(g, start, us))
    decreases |us|
  {
    if us != [] {
      var prev := us[..|us| - 1];
      var u := us[|us| - 1];
      DfsTree(g, start, prev);
      DfsPartition(g, start, prev);
      PushedDescending(Succ(g, u), {});
      DiscoveryKeepsTree(g, start, u, Elems(SortDesc(Succ(g, u))), DfsVisited(g, start, prev),
                         DfsParents(g, start, prev), DfsLevels(g, start, prev));
    }
  }

  /** How one expansion changes the level map: old entries stay, and the
      successors not seen before get the popped node's level plus one. */
  lemma DfsLevelsStep(g: Graph, start: Node, us: seq<Node>)
    requires us != []
    requires us[|us| - 1] in DfsLevels(g, start, us[..|us| - 1])
    requires DfsLevels(g, start, us[..|us| - 1]).Keys == DfsVisited(g, start, us[..|us| - 1])
    ensures var u, visited := us[|us| - 1], DfsVisited(g, start, us[..|us| - 1]);
      var level, level' := DfsLevels(g, start, us[..|us| - 1]), DfsLevels(g, start, us);
      && DfsVisited(g, start, us) == visited + Elems(Succ(g, u))
      && (forall n :: n in level ==> n in level' && level'[n] == level[n])
      && (forall n :: n in level' && n !in visited ==> level'[n] == level[u] + 1)
  {
    PushedDescending(Succ(g, us[|us| - 1]), {});
  }

  /** Appending the row of the last expansion keeps the trace shape. */
  lemma DfsTraceStep(g: Graph, start: Node, goal: Node, us: seq<Node>)
    requires IsDfsPrefix(g, start, us) && goal !in us && us != []
    requires var prev := us[..|us| - 1];
      TraceState(g, start, goal, Stack, DfsSteps(g, start, prev), DfsLevels(g, start, prev),
                 DfsVisited(g, start, prev), prev)
    ensures TraceState(g, start, goal, Stack, DfsSteps(g, start, us), DfsLevels(g, start, us),
                       DfsVisited(g, start, us), us)
  {
    var prev, u := us[..|us| - 1], us[|us| - 1];
    assert us == prev + [u];
    var r := TraceStep(|us|, Expanded(u), LevelOf(DfsLevels(g, start, us), u), Stack,
                       Reverse(DfsStack(g, start, us)), DfsVisited(g, start, us));
    DfsPartition(g, start, prev);
    DfsKeys(g, start, prev);
    DfsLevelsStep(g, start, us);
    TraceAppend(g, start, goal, Stack, u, DfsVisited(g, start, prev), DfsLevels(g, start, prev), prev,
                DfsSteps(g, start, prev), DfsVisited(g, start, us), DfsLevels(g, start, us), r);
  }

  /** The DFS rows form a trace: one row per expansion of a node other than
      the goal, each following the one before it. */
  lemma {:induction false} DfsTrace(g: Graph, start: Node, goal: Node, us: seq<Node>)
    requires IsDfsPrefix(g, start, us) && goal !in us
    ensures TraceState(g, start, goal, Stack, DfsSteps(g, start, us), DfsLevels(g, start, us),
                       DfsVisited(g, start, us), us)
    decreases |us|
  {
    if us != [] {
      assert us[..|us| - 1] <= us;
      DfsTrace(g, start, goal, us[..|us| - 1]);
      DfsTraceStep(g, start, goal, us);
    }
  }

  /** Tie-break: when an expansion discovers new nodes, the next node popped
      is the least of them, and the row lists it first. */
  lemma DfsPopsLeast(g: Graph, start: Node, us: seq<Node>, u: Node)
    requires NewlyDiscovered(SortDesc(Succ(g, u)), DfsVisited(g, start, us)) != []
    ensures var stack := DfsStack(g, start, us + [u]);
      var top := stack[|stack| - 1];
      && top in Succ(g, u) && top !in DfsVisited(g, start, us)
      && (forall n :: n in Succ(g, u) && n !in DfsVisited(g, start, us) ==> top <= n)
      && Reverse(stack)[0] == top
  {
    var visited := DfsVisited(g, start, us);
    var found := NewlyDiscovered(SortDesc(Succ(g, u)), visited);
    DfsSnoc(g, start, us, u);
    PushedDescending(Succ(g, u), visited);
    var stack := DfsStack(g, start, us + [u]);
    assert stack == Pop(DfsStack(g, start, us)) + found;
    assert Reverse(stack)[0] == stack[|stack| - 1] == found[|found| - 1];
    DescendingLast(found);
  }

  /** The loop variables of `depth_first_search` after the expansions
      `expanded`, none of them the goal: each is the function of `expanded`
      that defines it. */
  ghost predicate DfsLoopState(g: Graph, start: Node, goal: Node, expanded: seq<Node>,
                               stack: seq<Node>, visited: set<Node>, parent: map<Node, Option<Node>>,
                               level: map<Node, nat>, steps: seq<TraceStep>)
  {
    && IsDfsPrefix(g, start, expanded) && goal !in expanded
    && stack == DfsStack(g, start, expanded)
    && visited == DfsVisited(g, start, expanded)
    && parent == DfsParents(g, start, expanded)
    && level == DfsLevels(g, start, expanded)
    && steps == DfsSteps(g, start, expanded)
  }

  /** Expanding one more node: its parent links. */
  lemma DfsParentsSnoc(g: Graph, start: Node, us: seq<Node>, u: Node)
    ensures DfsParents(g, start, us + [u]) == Adopt(DfsParents(g, start, us), Elems(SortDesc(Succ(g, u))), Some(u))
  {
    assert (us + [u])[..|us|] == us;
  }

  /** The level map `Discover` leaves after expanding `u` is the next one. */
  lemma DfsLevelsNext(g: Graph, start: Node, us: seq<Node>, u: Node, level0: map<Node, nat>, level: map<Node, nat>)
    requires level0 == DfsLevels(g, start, us)
    requires level == Adopt(level0, Elems(SortDesc(Succ(g, u))), LevelOf(level0, u) + 1)
    ensures level == DfsLevels(g, start, us + [u])
  {
    assert (us + [u])[..|us|] == us;
  }

  /** One iteration of the loop that pops `node`, a node other than the
      goal, and discovers its successors in descending order moves the stack
      and the visited set to the DFS state of one more expansion; either
      more nodes are visited or the stack is shorter. */
  lemma DfsIterationStack(g: Graph, start: Node, expanded: seq<Node>, stack0: seq<Node>, node: Node,
                          stack: seq<Node>, visited: set<Node>)
    requires IsDfsPrefix(g, start, expanded)
    requires stack0 == DfsStack(g, start, expanded) && stack0 != [] && node == stack0[|stack0| - 1]
    requires stack == stack0[..|stack0| - 1] + NewlyDiscovered(SortDesc(Succ(g, node)), DfsVisited(g, start, expanded))
    requires visited == DfsVisited(g, start, expanded) + Elems(SortDesc(Succ(g, node)))
    ensures IsDfsPrefix(g, start, expanded + [node])
    ensures stack == DfsStack(g, start, expanded + [node])
    ensures visited == DfsVisited(g, start, expanded + [node])
    ensures Nodes(g, start) - visited < Nodes(g, start) - DfsVisited(g, start, expanded)
         || (visited == DfsVisited(g, start, expanded) && |stack| < |stack0|)
  {
    var visited0 := DfsVisited(g, start, expanded);
    assert (expanded + [node])[..|expanded|] == expanded;
    DfsSnoc(g, start, expanded, node);
    DfsVisitedNodes(g, start, expanded + [node]);
    if visited != visited0 {
      Shrinks(Nodes(g, start), visited0, visited);
    } else {
      NothingNew(SortDesc(Succ(g, node)), visited0);
    }
  }

  /** Expanding one more node: its row. */
  lemma DfsStepsSnoc(g: Graph, start: Node, us: seq<Node>, u: Node)
    ensures var us' := us + [u];
      DfsSteps(g, start, us') == DfsSteps(g, start, us)
        + [TraceStep(|us'|, Expanded(u), LevelOf(DfsLevels(g, start, us'), u), Stack,
                     Reverse(DfsStack(g, start, us')), DfsVisited(g, start, us'))]
  {
    assert (us + [u])[..|us|] == us;
  }

  /** One pass of the loop body: after popping `node`, a node other than the
      goal, and discovering its successors in descending order, the loop
      variables describe the expansions `expanded + [node]`, and either more
      nodes are visited or the stack is shorter. */
  lemma DfsStep(g: Graph, start: Node, goal: Node, expanded: seq<Node>, node: Node,
                stack0: seq<Node>, visited0: set<Node>, parent0: map<Node, Option<Node>>,
                level0: map<Node, nat>, steps0: seq<TraceStep>,
                stack: seq<Node>, visited: set<Node>, parent: map<Node, Option<Node>>,
                level: map<Node, nat>, steps: seq<TraceStep>)
    requires IsDfsPrefix(g, start, expanded) && goal !in expanded
    requires stack0 == DfsStack(g, start, expanded) && stack0 != []
    requires node == stack0[|stack0| - 1] && node != goal
    requires visited0 == DfsVisited(g, start, expanded)
    requires parent0 == DfsParents(g, start, expanded)
    requires level0 == DfsLevels(g, start, expanded)
    requires steps0 == DfsSteps(g, start, expanded)
    requires stack == stack0[..|stack0| - 1] + NewlyDiscovered(SortDesc(Succ(g, node)), visited0)
    requires visited == visited0 + Elems(SortDesc(Succ(g, node)))
    requires parent == Adopt(parent0, Elems(SortDesc(Succ(g, node))), Some(node))
    requires level == Adopt(level0, Elems(SortDesc(Succ(g, node))), LevelOf(level0, node) + 1)
    requires steps == steps0 + [TraceStep(|expanded| + 1, Expanded(node), LevelOf(level, node), Stack,
                                          Reverse(stack), visited)]
    ensures IsDfsPrefix(g, start, expanded + [node]) && goal !in expanded + [node]
    ensures stack == DfsStack(g, start, expanded + [node])
    ensures visited == DfsVisited(g, start, expanded + [node])
    ensures parent == DfsParents(g, start, expanded + [node])
    ensures level == DfsLevels(g, start, expanded + [node])
    ensures steps == DfsSteps(g, start, expanded + [node])
    ensures Nodes(g, start) - visited < Nodes(g, start) - visited0
         || (visited == visited0 && |stack| < |stack0|)
  {
    DfsIterationStack(g, start, expanded, stack0, node, stack, visited);
    DfsParentsSnoc(g, start, expanded, node);
    DfsLevelsNext(g, start, expanded, node, level0, level);
    DfsStepsSnoc(g, start, expanded, node);
  }

  /** A search whose stack ran empty discovered every reachable node and
      did not discover the goal. */
  lemma DfsExhausted(g: Graph, start: Node, goal: Node, us: seq<Node>)
    requires IsDfsPrefix(g, start, us) && goal !in us
    requires DfsStack(g, start, us) == []
    ensures IsPathOutcome(g, start, goal, [], DfsLevels(g, start, us))
  {
    DfsTree(g, start, us);
    DfsKeys(g, start, us);
    DfsPartition(g, start, us);
    assert DfsVisited(g, start, us) == Elems(us);
    DfsClosed(g, start, us);
    ExhaustedSearch(g, start, goal, DfsLevels(g, start, us), us);
  }

  /** What the search returns when it stops after expanding `us`: either the
      stack ran empty, or the goal is on top and `path` is the walk of parent
      links to it. */
  lemma DfsResult(g: Graph, start: Node, goal: Node, us: seq<Node>, path: seq<Node>)
    requires IsDfsPrefix(g, start, us) && goal !in us
    requires path == [] ==> DfsStack(g, start, us) == []
    requires path != [] ==>
      var level, stack := DfsLevels(g, start, us), DfsStack(g, start, us);
      && OnTop(stack, goal)
      && WalkFrom(g, start, goal, path) && goal in level && |path| == level[goal] + 1
      && forall i :: 0 <= i < |path| ==> path[i] in level && level[path[i]] == i
    ensures IsLevelTree(g, start, DfsLevels(g, start, us))
    ensures IsPathOutcome(g, start, goal, path, DfsLevels(g, start, us))
    ensures start == goal ==> us == [] && path == [start]
  {
    DfsTree(g, start, us);
    DfsKeys(g, start, us);
    if path == [] {
      DfsExhausted(g, start, goal, us);
    }
    if start == goal && us != [] {
      DfsFirst(g, start, us);
      assert false;
    }
    if start == goal {
      assert path[0] == start && |path| == 1;
      assert path == [start];
    }
  }

  /** The recorded rows form a valid trace whose expansions are `us`, and
      they describe a depth-first run that stopped at the goal or ran dry. */
  lemma DfsResultRun(g: Graph, start: Node, goal: Node, us: seq<Node>, found: bool)
    requires IsDfsPrefix(g, start, us) && goal !in us
    requires found ==> OnTop(DfsStack(g, start, us), goal)
    requires !found ==> DfsStack(g, start, us) == []
    ensures IsTrace(g, start, goal, Stack, DfsSteps(g, start, us), DfsLevels(g, start, us))
    ensures AllExpanded(DfsSteps(g, start, us)) && Expansions(DfsSteps(g, start, us)) == us
    ensures IsDfsRun(g, start, goal, DfsSteps(g, start, us), found)
  {
    DfsTrace(g, start, goal, us);
    DfsPartition(g, start, us);
    DfsKeys(g, start, us);
    TraceDone(g, start, goal, Stack, DfsVisited(g, start, us), DfsLevels(g, start, us), us, DfsSteps(g, start, us));
  }

  /** When the goal is on top of the stack, the parent links lead from it
      back to the start node. */
  lemma DfsFound(g: Graph, start: Node, goal: Node, us: seq<Node>)
    requires IsDfsPrefix(g, start, us)
    requires OnTop(DfsStack(g, start, us), goal)
    ensures var parent := DfsParents(g, start, us);
      IsTree(g, start, parent.Keys, parent, DfsLevels(g, start, us)) && goal in parent
  {
    DfsTree(g, start, us);
    DfsKeys(g, start, us);
    DfsPartition(g, start, us);
  }

  /** Everything the search promises about its result, once it stops after
      expanding `us` and returns `path`. */
  lemma DfsOutcome(g: Graph, start: Node, goal: Node, us: seq<Node>, path: seq<Node>)
    requires IsDfsPrefix(g, start, us) && goal !in us
    requires path == [] ==> DfsStack(g, start, us) == []
    requires path != [] ==>
      var level, stack := DfsLevels(g, start, us), DfsStack(g, start, us);
      && OnTop(stack, goal)
      && WalkFrom(g, start, goal, path) && goal in level && |path| == level[goal] + 1
      && (forall i :: 0 <= i < |path| ==> path[i] in level && level[path[i]] == i)
      && FollowsParents(DfsParents(g, start, us), path)
    ensures var level, steps := DfsLevels(g, start, us), DfsSteps(g, start, us);
      && IsLevelTree(g, start, level)
      && IsPathOutcome(g, start, goal, path, level)
      && IsTrace(g, start, goal, Stack, steps, level)
      && AllExpanded(steps) && IsDfsRun(g, start, goal, steps, path != [])
      && Expansions(steps) == us
      && FollowsParents(DfsParents(g, start, Expansions(steps)), path)
      && (start == goal ==> path == [start] && steps == [InitialStep(start, Stack)] && level == map[start := 0])
  {
    DfsResult(g, start, goal, us, path);
    DfsResultRun(g, start, goal, us, path != []);
  }

  /** The body of the `while stack:` loop after `node`, not the goal, was
      popped from `stack0`: sort the successors in descending order, discover
      the unvisited ones and record the row. The loop variables move on to
      the expansions `expanded + [node]`, and either more nodes are visited
      or the stack is shorter than before the pop. */
  method DfsExpand(g: Graph, node: Node, stack: seq<Node>, visited: set<Node>,
                   parent: map<Node, Option<Node>>, level: map<Node, nat>,
                   steps: seq<TraceStep>, expansionOrder: nat,
                   ghost start: Node, ghost goal: Node, ghost expanded: seq<Node>, ghost stack0: seq<Node>)
    returns (stack': seq<Node>, visited': set<Node>, parent': map<Node, Option<Node>>,
             level': map<Node, nat>, steps': seq<TraceStep>)
    requires DfsLoopState(g, start, goal, expanded, stack0, visited, parent, level, steps)
    requires stack0 != [] && node == stack0[|stack0| - 1] && stack == stack0[..|stack0| - 1] && node != goal
    requires expansionOrder == |expanded| + 1
    ensures DfsLoopState(g, start, goal, expanded + [node], stack', visited', parent', level', steps')
    ensures Nodes(g, start) - visited' < Nodes(g, start) - visited
         || (visited' == visited && |stack'| < |stack0|)
  {
    assert parent.Keys == visited && level.Keys == visited && node in visited by {
      DfsKeys(g, start, expanded);
      DfsPartition(g, start, expanded);
    }
    var neighbors := SortDesc(Succ(g, node));
    stack', visited', parent', level' := Discover(neighbors, node, stack, visited, parent, level);
    steps' := steps + [TraceStep(expansionOrder, Expanded(node), level'[node], Stack, Reverse(stack'), visited')];
    DfsStep(g, start, goal, expanded, node, stack0, visited, parent, level, steps,
            stack', visited', parent', level', steps');
  }

  /** The `while stack:` loop of `depth_first_search`. It stops when the goal
      is popped or the stack runs empty; `current` is the node popped last.
      The ghost `expanded` lists the nodes expanded so far. */
  method DfsLoop(g: Graph, start: Node, goal: Node)
    returns (current: Option<Node>, parent: map<Node, Option<Node>>, level: map<Node, nat>,
             steps: seq<TraceStep>, ghost expanded: seq<Node>)
    ensures IsDfsPrefix(g, start, expanded) && goal !in expanded
    ensures parent == DfsParents(g, start, expanded)
    ensures level == DfsLevels(g, start, expanded)
    ensures steps == DfsSteps(g, start, expanded)
    ensures var stack := DfsStack(g, start, expanded);
      current == Some(goal) ==> OnTop(stack, goal)
    ensures current != Some(goal) ==> DfsStack(g, start, expanded) == []
  {
    var stack := [start];
    var visited := {start};
    parent := map[start := None];
    level := map[start := 0];
    steps := [InitialStep(start, Stack)];
    var expansionOrder := 0;
    current := None;
    expanded := [];
    while stack != []
      invariant DfsLoopState(g, start, goal, expanded, stack, visited, parent, level, steps)
      invariant expansionOrder == |expanded|
      invariant current.Some? ==> current.value in expanded
      decreases Nodes(g, start) - visited, |stack|
    {
      ghost var stack0 := stack;
      var node := stack[|stack| - 1];
      stack := stack[..|stack| - 1];
      current := Some(node);
      expansionOrder := expansionOrder + 1;
      if node == goal {
        assert OnTop(stack0, goal);
        break;
      }
      stack, visited, parent, level, steps :=
        DfsExpand(g, node, stack, visited, parent, level, steps, expansionOrder, start, goal, expanded, stack0);
      expanded := expanded + [node];
    }
  }

  /** `depth_first_search(graph, start_node, goal_node)`: returns the path,
      the rows of `process_steps` and the level map. */
  method DepthFirstSearch(g: Graph, start: Node, goal: Node)
    returns (path: seq<Node>, steps: seq<TraceStep>, level: map<Node, nat>)
    ensures IsLevelTree(g, start, level)
    ensures IsPathOutcome(g, start, goal, path, level)
    ensures IsTrace(g, start, goal, Stack, steps, level)
    ensures AllExpanded(steps) && IsDfsRun(g, start, goal, steps, path != [])
    ensures FollowsParents(DfsParents(g, start, Expansions(steps)), path)
    ensures start == goal ==> path == [start] && steps == [InitialStep(start, Stack)] && level == map[start := 0]
  {
    var current, parent;
    ghost var expanded;
    current, parent, level, steps, expanded := DfsLoop(g, start, goal);
    path := [];
    if current == Some(goal) {
      DfsFound(g, start, goal, expanded);
      path := ReconstructPath(g, start, parent, level, goal);
    }
    DfsOutcome(g, start, goal, expanded, path);
  }
}
