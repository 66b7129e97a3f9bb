/** What breadth-first and depth-first search share: discovering the
    successors of an expanded node, the parent/level tree built by
    discovery, rebuilding the path from parent links, and the shape of the
    step-by-step trace. */
module Discovery {
  import opened Graphs
  import opened Sequences

  datatype Option<T> = None | Some(value: T)

  /** The `Expansion` column: the step-0 sentinel 'Start', or the node expanded. */
  datatype Expansion = Start | Expanded(node: Node)

  /** Which frontier column a record carries: 'Frontier (Queue)' or 'Frontier (Stack)'. */
  datatype FrontierKind = Queue | Stack

  /** One row of `process_steps`. `frontier` and `visited` are copies taken
      when the row is written. */
  datatype TraceStep = TraceStep(
    step: nat,
    expansion: Expansion,
    level: nat,
    kind: FrontierKind,
    frontier: seq<Node>,
    visited: set<Node>)

  /** The row written before the loop starts. */
  function InitialStep(start: Node, kind: FrontierKind): (r: TraceStep)
    ensures r.step == 0 && r.expansion == Start && r.level == 0
    ensures r.kind == kind && r.frontier == [start] && r.visited == {start}
  {
    TraceStep(0, Start, 0, kind, [start], {start})
  }

  /** The successors in `neighbors` that the discovery loop adds to the
      frontier, in the order it adds them: those not yet visited, each once. */
  function NewlyDiscovered(neighbors: seq<Node>, visited: set<Node>): (found: seq<Node>)
    ensures forall n :: n in found <==> n in neighbors && n !in visited
    decreases |neighbors|
  {
    if neighbors == [] then []
    else if neighbors[0] in visited then NewlyDiscovered(neighbors[1..], visited)
    else [neighbors[0]] + NewlyDiscovered(neighbors[1..], visited + {neighbors[0]})
  }

  /** A node found once is marked visited and never found again. */
  lemma {:induction false} NewlyDiscoveredDistinct(neighbors: seq<Node>, visited: set<Node>)
    ensures Distinct(NewlyDiscovered(neighbors, visited))
    decreases |neighbors|
  {
    if neighbors != [] {
      if neighbors[0] in visited {
        NewlyDiscoveredDistinct(neighbors[1..], visited);
      } else {
        var rest := NewlyDiscovered(neighbors[1..], visited + {neighbors[0]});
        NewlyDiscoveredDistinct(neighbors[1..], visited + {neighbors[0]});
        DistinctAppend([neighbors[0]], rest);
      }
    }
  }

  /** A list with no visited and no repeated node is discovered whole, in order. */
  lemma {:induction false} NewlyDiscoveredAll(neighbors: seq<Node>, visited: set<Node>)
    requires Distinct(neighbors)
    requires forall i :: 0 <= i < |neighbors| ==> neighbors[i] !in visited
    ensures NewlyDiscovered(neighbors, visited) == neighbors
    decreases |neighbors|
  {
    if neighbors != [] {
      var rest := neighbors[1..];
      assert forall i :: 0 <= i < |rest| ==> rest[i] == neighbors[i + 1] && rest[i] != neighbors[0];
      NewlyDiscoveredAll(rest, visited + {neighbors[0]});
      assert neighbors == [neighbors[0]] + rest;
    }
  }

  /** Scanning `xs + ys` finds what scanning `xs` finds, then what scanning
      `ys` finds once the nodes of `xs` count as visited. */
  lemma {:induction false} NewlyDiscoveredAppend(xs: seq<Node>, ys: seq<Node>, visited: set<Node>)
    ensures NewlyDiscovered(xs + ys, visited)
         == NewlyDiscovered(xs, visited) + NewlyDiscovered(ys, visited + Elems(xs))
    decreases |xs|
  {
    if xs == [] {
      assert xs + ys == ys;
      assert visited + Elems(xs) == visited;
    } else {
      assert (xs + ys)[1..] == xs[1..] + ys;
      if xs[0] in visited {
        NewlyDiscoveredAppend(xs[1..], ys, visited);
        assert visited + Elems(xs[1..]) == visited + Elems(xs);
      } else {
        NewlyDiscoveredAppend(xs[1..], ys, visited + {xs[0]});
        assert visited + {xs[0]} + Elems(xs[1..]) == visited + Elems(xs);
      }
    }
  }

  /** A scan over already visited nodes finds nothing. */
  lemma NothingNew(neighbors: seq<Node>, visited: set<Node>)
    requires Elems(neighbors) <= visited
    ensures NewlyDiscovered(neighbors, visited) == []
  {
  }

  /** Discovery keeps the order of the list it scans: an ascending list
      yields an ascending run of new nodes. */
  lemma {:induction false} NewlyDiscoveredAscending(neighbors: seq<Node>, visited: set<Node>)
    requires Ascending(neighbors)
    ensures Ascending(NewlyDiscovered(neighbors, visited))
    decreases |neighbors|
  {
    if neighbors != [] {
      TailMultiset(neighbors);
      var v := if neighbors[0] in visited then visited else visited + {neighbors[0]};
      NewlyDiscoveredAscending(neighbors[1..], v);
      var rest := NewlyDiscovered(neighbors[1..], v);
      forall k | 0 <= k < |rest|
        ensures neighbors[0] <= rest[k]
      {
        assert rest[k] in neighbors[1..];
      }
    }
  }

  /** The same for a descending list. */
  lemma {:induction false} NewlyDiscoveredDescending(neighbors: seq<Node>, visited: set<Node>)
    requires Descending(neighbors)
    ensures Descending(NewlyDiscovered(neighbors, visited))
    decreases |neighbors|
  {
    if neighbors != [] {
      assert Descending(neighbors[1..]);
      var v := if neighbors[0] in visited then visited else visited + {neighbors[0]};
      NewlyDiscoveredDescending(neighbors[1..], v);
      var rest := NewlyDiscovered(neighbors[1..], v);
      forall k | 0 <= k < |rest|
        ensures neighbors[0] >= rest[k]
      {
        assert rest[k] in neighbors[1..];
      }
    }
  }

  /** The parent/level bookkeeping of both searches: `visited`, `parent_map`
      and `level` have the same keys; the start node has no parent and level
      0; every other node was discovered from a visited parent it is a
      successor of, one level below it. */
  ghost predicate IsTree(g: Graph, start: Node, visited: set<Node>,
                         parent: map<Node, Option<Node>>, level: map<Node, nat>)
  {
    && parent.Keys == visited
    && level.Keys == visited
    && start in visited
    && parent[start] == None
    && level[start] == 0
    && forall n {:trigger parent[n]} :: n in parent && n != start ==>
         && parent[n].Some?
         && parent[n].value in visited
         && n in Succ(g, parent[n].value)
         && level[n] == level[parent[n].value] + 1
  }

  /** `level` is the level map of some discovery tree rooted at `start`. */
  ghost predicate IsLevelTree(g: Graph, start: Node, level: map<Node, nat>)
  {
    exists parent :: IsTree(g, start, level.Keys, parent, level)
  }

  /** Following parent links from a discovered node reaches the start node
      in exactly `level[n]` edges, so every discovered node is reachable and
      its level is the length of a walk to it. */
  lemma {:induction false} TreeWalk(g: Graph, start: Node, visited: set<Node>,
                                    parent: map<Node, Option<Node>>, level: map<Node, nat>, n: Node)
    requires IsTree(g, start, visited, parent, level) && n in visited
    ensures exists p :: WalkFrom(g, start, n, p) && |p| == level[n] + 1
    decreases level[n]
  {
    if n == start {
      assert WalkFrom(g, start, start, [start]);
    } else {
      var q := parent[n].value;
      TreeWalk(g, start, visited, parent, level, q);
      var p :| WalkFrom(g, start, q, p) && |p| == level[q] + 1;
      WalkExtend(g, start, q, n, p);
    }
  }

  /** A level tree's levels are lengths of walks: level[n] is at least the
      shortest distance to n. */
  lemma LevelTreeWalk(g: Graph, start: Node, level: map<Node, nat>, n: Node)
    requires IsLevelTree(g, start, level) && n in level
    ensures exists p :: WalkFrom(g, start, n, p) && |p| == level[n] + 1
  {
    var parent :| IsTree(g, start, level.Keys, parent, level);
    TreeWalk(g, start, level.Keys, parent, level, n);
  }

  /** The start node is at level 0 of a level tree. */
  lemma LevelTreeStart(g: Graph, start: Node, level: map<Node, nat>)
    requires IsLevelTree(g, start, level)
    ensures start in level && level[start] == 0
  {
    var parent :| IsTree(g, start, level.Keys, parent, level);
  }

  /** `m` extended with the nodes of `added` it lacks, each mapped to `v`:
      how discovery extends `parent_map` and `level` (first discoverer wins). */
  function Adopt<V>(m: map<Node, V>, added: set<Node>, v: V): (m': map<Node, V>)
    ensures m'.Keys == m.Keys + added
    ensures forall n :: n in m ==> m'[n] == m[n]
    ensures forall n :: n in added && n !in m ==> m'[n] == v
  {
    map n | n in m.Keys + added :: if n in m then m[n] else v
  }

  /** `level[n]`, read only where `n` has a level. */
  function LevelOf(level: map<Node, nat>, n: Node): nat
  {
    if n in level then level[n] else 0
  }

  /** Adding one more node to `added` maps it to `v` unless it is already a key. */
  lemma AdoptOne<V>(m: map<Node, V>, added: set<Node>, x: Node, v: V)
    ensures x in m.Keys + added ==> Adopt(m, added + {x}, v) == Adopt(m, added, v)
    ensures x !in m.Keys + added ==> Adopt(m, added + {x}, v) == Adopt(m, added, v)[x := v]
  {
  }

  /** The discovery tree is kept when the successors of a visited node are
      discovered: first discoverer wins and nothing else changes. */
  lemma DiscoveryKeepsTree(g: Graph, start: Node, u: Node, added: set<Node>,
                           visited: set<Node>, parent: map<Node, Option<Node>>, level: map<Node, nat>)
    requires IsTree(g, start, visited, parent, level) && u in visited
    requires added <= Elems(Succ(g, u))
    ensures IsTree(g, start, visited + added, Adopt(parent, added, Some(u)), Adopt(level, added, LevelOf(level, u) + 1))
  {
  }

  /** Every successor of an expanded node has been visited. */
  ghost predicate ExpandedClosed(g: Graph, expanded: seq<Node>, visited: set<Node>)
  {
    forall e, v :: e in expanded && v in Succ(g, e) ==> v in visited
  }

  /** What a search returns as its path: non-empty exactly when the goal is
      reachable; then a walk from the start node to the goal whose i-th node
      has level i; otherwise the goal has no level and every reachable node
      was discovered. */
  ghost predicate IsPathOutcome(g: Graph, start: Node, goal: Node, path: seq<Node>, level: map<Node, nat>)
  {
    && (path != [] <==> Reachable(g, start, goal))
    && (path != [] ==>
          && WalkFrom(g, start, goal, path)
          && goal in level
          && |path| == level[goal] + 1
          && forall i :: 0 <= i < |path| ==> path[i] in level && level[path[i]] == i)
    && (path == [] ==> goal !in level && forall n :: Reachable(g, start, n) ==> n in level)
  }

  /** A search whose frontier ran empty before the goal was dequeued has
      expanded every discovered node, so it discovered everything reachable
      and the goal is not reachable. */
  lemma ExhaustedSearch(g: Graph, start: Node, goal: Node, level: map<Node, nat>, expanded: seq<Node>)
    requires start in level
    requires Elems(expanded) == level.Keys
    requires ExpandedClosed(g, expanded, level.Keys)
    requires goal !in expanded
    ensures IsPathOutcome(g, start, goal, [], level)
  {
    assert Closed(g, level.Keys);
    forall n | Reachable(g, start, n)
      ensures n in level
    {
      var p :| WalkFrom(g, start, n, p);
      ClosedContainsReachable(g, start, level.Keys, n, p);
    }
  }

  /** Moving to a larger level map that agrees on the old keys keeps a record valid. */
  lemma FollowsRecordGrow(g: Graph, goal: Node, kind: FrontierKind, level: map<Node, nat>,
                          level': map<Node, nat>, i: nat, prev: TraceStep, r: TraceStep)
    requires FollowsRecord(g, goal, kind, level, i, prev, r)
    requires forall n :: n in level ==> n in level' && level'[n] == level[n]
    ensures FollowsRecord(g, goal, kind, level', i, prev, r)
  {
  }

  /** Scanning one more neighbor finds it exactly when it was not seen before. */
  lemma ScanOne(neighbors: seq<Node>, k: nat, visited: set<Node>)
    requires k < |neighbors|
    ensures Elems(neighbors[..k + 1]) == Elems(neighbors[..k]) + {neighbors[k]}
    ensures NewlyDiscovered(neighbors[..k + 1], visited)
         == NewlyDiscovered(neighbors[..k], visited)
            + (if neighbors[k] in visited + Elems(neighbors[..k]) then [] else [neighbors[k]])
  {
    assert neighbors[..k + 1] == neighbors[..k] + [neighbors[k]];
    NewlyDiscoveredAppend(neighbors[..k], [neighbors[k]], visited);
    ElemsAppend(neighbors[..k], [neighbors[k]]);
  }

  /** The state of the discovery loop after its first `k` neighbors. */
  ghost predicate Scanned(neighbors: seq<Node>, k: nat, current: Node, frontier: seq<Node>, visited: set<Node>,
                          parent: map<Node, Option<Node>>, level: map<Node, nat>,
                          frontier': seq<Node>, visited': set<Node>,
                          parent': map<Node, Option<Node>>, level': map<Node, nat>)
    requires k <= |neighbors|
  {
    && frontier' == frontier + NewlyDiscovered(neighbors[..k], visited)
    && visited' == visited + Elems(neighbors[..k])
    && parent' == Adopt(parent, Elems(neighbors[..k]), Some(current))
    && level' == Adopt(level, Elems(neighbors[..k]), LevelOf(level, current) + 1)
  }

  /** An unseen neighbor is appended, marked, and adopted by `current`. */
  lemma ScanFound(neighbors: seq<Node>, k: nat, current: Node, frontier: seq<Node>, visited: set<Node>,
                  parent: map<Node, Option<Node>>, level: map<Node, nat>,
                  frontier': seq<Node>, visited': set<Node>,
                  parent': map<Node, Option<Node>>, level': map<Node, nat>)
    requires k < |neighbors| && neighbors[k] !in visited'
    requires parent.Keys == visited && level.Keys == visited
    requires Scanned(neighbors, k, current, frontier, visited, parent, level, frontier', visited', parent', level')
    ensures Scanned(neighbors, k + 1, current, frontier, visited, parent, level,
                    frontier' + [neighbors[k]], visited' + {neighbors[k]},
                    parent'[neighbors[k] := Some(current)],
                    level'[neighbors[k] := LevelOf(level, current) + 1])
  {
    var x := neighbors[k];
    var seen := Elems(neighbors[..k]);
    ScanOne(neighbors, k, visited);
    assert frontier' + [x] == frontier + NewlyDiscovered(neighbors[..k + 1], visited) by {
      assert frontier' + [x] == frontier + (NewlyDiscovered(neighbors[..k], visited) + [x]);
    }
    assert parent'[x := Some(current)] == Adopt(parent, seen + {x}, Some(current)) by {
      AdoptOne(parent, seen, x, Some(current));
    }
    assert level'[x := LevelOf(level, current) + 1] == Adopt(level, seen + {x}, LevelOf(level, current) + 1) by {
      AdoptOne(level, seen, x, LevelOf(level, current) + 1);
    }
  }

  /** A neighbor seen before changes nothing. */
  lemma ScanSkip(neighbors: seq<Node>, k: nat, current: Node, frontier: seq<Node>, visited: set<Node>,
                 parent: map<Node, Option<Node>>, level: map<Node, nat>,
                 frontier': seq<Node>, visited': set<Node>,
                 parent': map<Node, Option<Node>>, level': map<Node, nat>)
    requires k < |neighbors| && neighbors[k] in visited'
    requires parent.Keys == visited && level.Keys == visited
    requires Scanned(neighbors, k, current, frontier, visited, parent, level, frontier', visited', parent', level')
    ensures Scanned(neighbors, k + 1, current, frontier, visited, parent, level,
                    frontier', visited', parent', level')
  {
    var x := neighbors[k];
    var seen := Elems(neighbors[..k]);
    ScanOne(neighbors, k, visited);
    assert parent' == Adopt(parent, seen + {x}, Some(current)) by {
      AdoptOne(parent, seen, x, Some(current));
    }
    assert level' == Adopt(level, seen + {x}, LevelOf(level, current) + 1) by {
      AdoptOne(level, seen, x, LevelOf(level, current) + 1);
    }
  }

  /** One pass of the loop body `if neighbor not in visited: ...` on the
      `k`-th neighbor: an unseen neighbor is marked, adopted by `current` a
      level below it and appended to the frontier; a seen one changes nothing. */
  method DiscoverOne(neighbors: seq<Node>, k: nat, current: Node, frontier: seq<Node>, visited: set<Node>,
                     parent: map<Node, Option<Node>>, level: map<Node, nat>,
                     frontier': seq<Node>, visited': set<Node>,
                     parent': map<Node, Option<Node>>, level': map<Node, nat>)
    returns (frontier'': seq<Node>, visited'': set<Node>,
             parent'': map<Node, Option<Node>>, level'': map<Node, nat>)
    requires k < |neighbors|
    requires parent.Keys == visited && level.Keys == visited && current in visited
    requires Scanned(neighbors, k, current, frontier, visited, parent, level, frontier', visited', parent', level')
    ensures Scanned(neighbors, k + 1, current, frontier, visited, parent, level, frontier'', visited'', parent'', level'')
  {
    var neighbor := neighbors[k];
    if neighbor !in visited' {
      ScanFound(neighbors, k, current, frontier, visited, parent, level, frontier', visited', parent', level');
      assert level'[current] == LevelOf(level, current);
      visited'' := visited' + {neighbor};
      parent'' := parent'[neighbor := Some(current)];
      level'' := level'[neighbor := level'[current] + 1];
      frontier'' := frontier' + [neighbor];
    } else {
      ScanSkip(neighbors, k, current, frontier, visited, parent, level, frontier', visited', parent', level');
      frontier'', visited'', parent'', level'' := frontier', visited', parent', level';
    }
  }

  /** The loop `for neighbor in neighbors: if neighbor not in visited: ...`
      shared by both searches. Only unvisited successors are touched: each is
      marked visited, gets `current` as parent and `level[current] + 1` as
      level, and is appended to the frontier; existing entries never change. */
  method Discover(neighbors: seq<Node>, current: Node, frontier: seq<Node>, visited: set<Node>,
                  parent: map<Node, Option<Node>>, level: map<Node, nat>)
    returns (frontier': seq<Node>, visited': set<Node>,
             parent': map<Node, Option<Node>>, level': map<Node, nat>)
    requires parent.Keys == visited && level.Keys == visited
    requires current in visited
    ensures frontier' == frontier + NewlyDiscovered(neighbors, visited)
    ensures visited' == visited + Elems(neighbors)
    ensures parent' == Adopt(parent, Elems(neighbors), Some(current))
    ensures level' == Adopt(level, Elems(neighbors), LevelOf(level, current) + 1)
  {
    frontier', visited', parent', level' := frontier, visited, parent, level;
    for k := 0 to |neighbors|
      invariant Scanned(neighbors, k, current, frontier, visited, parent, level, frontier', visited', parent', level')
    {
      frontier', visited', parent', level' :=
        DiscoverOne(neighbors, k, current, frontier, visited, parent, level, frontier', visited', parent', level');
    }
    assert neighbors[..|neighbors|] == neighbors;
  }

  /** `links` is the chain of parent links from `goal` back to the start node. */
  ghost predicate IsParentChain(g: Graph, start: Node, parent: map<Node, Option<Node>>,
                                level: map<Node, nat>, goal: Node, links: seq<Node>)
  {
    && goal in level
    && |links| == level[goal] + 1
    && links[0] == goal
    && links[|links| - 1] == start
    && (forall i :: 0 <= i < |links| ==> links[i] in level && level[links[i]] == level[goal] - i)
    && (forall i :: 0 <= i < |links| ==> links[i] in parent)
    && (forall i :: 0 < i < |links| ==> parent[links[i - 1]] == Some(links[i]))
  }

  /** Each link of the chain is a tree edge: the node is a successor of its
      parent, which is the next node of the chain. */
  lemma ChainLink(g: Graph, start: Node, parent: map<Node, Option<Node>>,
                  level: map<Node, nat>, goal: Node, links: seq<Node>, k: nat)
    requires IsTree(g, start, parent.Keys, parent, level)
    requires IsParentChain(g, start, parent, level, goal, links)
    requires 0 < k < |links|
    ensures parent[links[k - 1]] == Some(links[k])
    ensures links[k - 1] in Succ(g, links[k])
  {
    var n := links[k - 1];
    assert level[n] == level[goal] - (k - 1) > 0;
    assert n != start;
  }

  /** Along the chain every node is a successor of the next one. */
  lemma ChainBack(g: Graph, start: Node, parent: map<Node, Option<Node>>,
                  level: map<Node, nat>, goal: Node, links: seq<Node>)
    requires IsTree(g, start, parent.Keys, parent, level)
    requires IsParentChain(g, start, parent, level, goal, links)
    ensures forall k :: 0 < k < |links| ==> links[k - 1] in Succ(g, links[k])
  {
    forall k | 0 < k < |links|
      ensures links[k - 1] in Succ(g, links[k])
    {
      ChainLink(g, start, parent, level, goal, links, k);
    }
  }

  /** The chain read backwards runs from level 0, the start node, up to
      `goal`, one level per node. */
  lemma ReversedLevels(g: Graph, start: Node, parent: map<Node, Option<Node>>,
                       level: map<Node, nat>, goal: Node, links: seq<Node>, path: seq<Node>)
    requires IsParentChain(g, start, parent, level, goal, links)
    requires |path| == |links| && forall i :: 0 <= i < |path| ==> path[i] == links[|links| - 1 - i]
    ensures |path| == level[goal] + 1 && path[0] == start && path[|path| - 1] == goal
    ensures forall i :: 0 <= i < |path| ==> path[i] in level && level[path[i]] == i
  {
    var n := |links|;
    forall i | 0 < i < n
      ensures path[i] in level && level[path[i]] == i
    {
      assert path[i] == links[n - 1 - i];
    }
  }

  /** A sequence whose reverse steps back along successor and parent links
      is a walk, each node the parent of the next. */
  lemma ReversedWalk(g: Graph, parent: map<Node, Option<Node>>, links: seq<Node>, path: seq<Node>)
    requires forall k :: 0 < k < |links| ==> links[k - 1] in Succ(g, links[k])
    requires forall k :: 0 <= k < |links| ==> links[k] in parent
    requires forall k :: 0 < k < |links| ==> parent[links[k - 1]] == Some(links[k])
    requires |path| == |links| && forall i :: 0 <= i < |path| ==> path[i] == links[|links| - 1 - i]
    ensures IsWalk(g, path)
    ensures forall i :: 0 < i < |path| ==> path[i] in parent && parent[path[i]] == Some(path[i - 1])
  {
    var n := |links|;
    forall i | 0 < i < n
      ensures path[i] in Succ(g, path[i - 1]) && path[i] in parent && parent[path[i]] == Some(path[i - 1])
    {
      assert path[i] == links[n - i - 1] && path[i - 1] == links[n - i];
    }
  }

  /** Every node of `path` after the first has the node before it as its
      `parent_map` entry: `path` is a parent chain read from its first node. */
  ghost predicate FollowsParents(parent: map<Node, Option<Node>>, path: seq<Node>)
  {
    forall i :: 0 < i < |path| ==> path[i] in parent && parent[path[i]] == Some(path[i - 1])
  }

  /** A parent chain is fixed by its length and its last node: each node
      before the last is the parent of the node after it. */
  lemma {:induction false} ParentChainUnique(parent: map<Node, Option<Node>>, p: seq<Node>, q: seq<Node>)
    requires |p| == |q| && p != [] && p[|p| - 1] == q[|q| - 1]
    requires FollowsParents(parent, p) && FollowsParents(parent, q)
    ensures p == q
    decreases |p|
  {
    var n := |p|;
    if n > 1 {
      assert parent[p[n - 1]] == Some(p[n - 2]) && parent[q[n - 1]] == Some(q[n - 2]);
      var p', q' := p[..n - 1], q[..n - 1];
      assert FollowsParents(parent, p') by {
        forall i | 0 < i < |p'| ensures p'[i] in parent && parent[p'[i]] == Some(p'[i - 1]) {
          assert p'[i] == p[i] && p'[i - 1] == p[i - 1];
        }
      }
      assert FollowsParents(parent, q') by {
        forall i | 0 < i < |q'| ensures q'[i] in parent && parent[q'[i]] == Some(q'[i - 1]) {
          assert q'[i] == q[i] && q'[i - 1] == q[i - 1];
        }
      }
      ParentChainUnique(parent, p', q');
      assert p == p' + [p[n - 1]] && q == q' + [q[n - 1]];
    }
  }

  /** The outcome of a search is fixed by its level map and its parent map:
      two paths that both report the outcome faithfully and both follow the
      parent links are the same path. */
  lemma PathDetermined(g: Graph, start: Node, goal: Node, parent: map<Node, Option<Node>>,
                       level: map<Node, nat>, p: seq<Node>, q: seq<Node>)
    requires IsPathOutcome(g, start, goal, p, level) && IsPathOutcome(g, start, goal, q, level)
    requires FollowsParents(parent, p) && FollowsParents(parent, q)
    ensures p == q
  {
    if p != [] {
      ParentChainUnique(parent, p, q);
    }
  }

  /** The parent chain read backwards, `path`, is a walk from the start
      node to `goal` with node i at level i. */
  lemma ReversedChain(g: Graph, start: Node, parent: map<Node, Option<Node>>,
                      level: map<Node, nat>, goal: Node, links: seq<Node>, path: seq<Node>)
    requires IsTree(g, start, parent.Keys, parent, level)
    requires IsParentChain(g, start, parent, level, goal, links)
    requires |path| == |links| && forall i :: 0 <= i < |path| ==> path[i] == links[|links| - 1 - i]
    ensures WalkFrom(g, start, goal, path)
    ensures |path| == level[goal] + 1
    ensures forall i :: 0 <= i < |path| ==> path[i] in level && level[path[i]] == i
    ensures FollowsParents(parent, path)
  {
    ChainBack(g, start, parent, level, goal, links);
    ReversedLevels(g, start, parent, level, goal, links, path);
    ReversedWalk(g, parent, links, path);
  }

  /** The loop state of the path reconstruction: `links` holds the parent
      links followed from `goal` so far and `curr` is the next node to
      append, or None once the start node was appended. */
  ghost predicate ChainSoFar(start: Node, parent: map<Node, Option<Node>>, level: map<Node, nat>,
                             goal: Node, links: seq<Node>, curr: Option<Node>)
  {
    && goal in level
    && (forall i :: 0 <= i < |links| ==> links[i] in parent && links[i] in level && level[links[i]] == level[goal] - i)
    && (forall i :: 0 < i < |links| ==> parent[links[i - 1]] == Some(links[i]))
    && (links == [] ==> curr == Some(goal))
    && (links != [] ==> links[0] == goal && curr == parent[links[|links| - 1]])
    && (curr.Some? ==> curr.value in parent && curr.value in level && |links| + level[curr.value] == level[goal])
    && (curr.None? ==> |links| == level[goal] + 1 && links != [] && links[|links| - 1] == start)
  }

  /** Appending `curr` and moving to its parent keeps the loop state, and
      the level of the next node is lower. */
  lemma ChainStep(g: Graph, start: Node, parent: map<Node, Option<Node>>, level: map<Node, nat>,
                  goal: Node, links: seq<Node>, curr: Option<Node>)
    requires IsTree(g, start, parent.Keys, parent, level)
    requires ChainSoFar(start, parent, level, goal, links, curr) && curr.Some?
    ensures var next := if curr.value in parent then parent[curr.value] else None;
      && ChainSoFar(start, parent, level, goal, links + [curr.value], next)
      && (next.Some? ==> next.value in level && level[next.value] < level[curr.value])
  {
    var c := curr.value;
    var links' := links + [c];
    forall i | 0 <= i < |links'|
      ensures links'[i] in parent && links'[i] in level && level[links'[i]] == level[goal] - i
    {
      if i < |links| {
        assert links'[i] == links[i];
      }
    }
    forall i | 0 < i < |links'|
      ensures parent[links'[i - 1]] == Some(links'[i])
    {
      assert links'[i - 1] == links[i - 1];
      if i < |links| {
        assert links'[i] == links[i];
      }
    }
  }

  /** Lines `curr = goal_node; while curr is not None: path.append(curr);
      curr = parent_map.get(curr)` followed by `path.reverse()`: the walk of
      parent links from the start node to `goal`, one node per level. */
  method ReconstructPath(ghost g: Graph, ghost start: Node, parent: map<Node, Option<Node>>,
                         ghost level: map<Node, nat>, goal: Node)
    returns (path: seq<Node>)
    requires IsTree(g, start, parent.Keys, parent, level) && goal in parent
    ensures WalkFrom(g, start, goal, path)
    ensures |path| == level[goal] + 1
    ensures forall i :: 0 <= i < |path| ==> path[i] in level && level[path[i]] == i
    ensures FollowsParents(parent, path)
  {
    path := [];
    var curr: Option<Node> := Some(goal);
    while curr.Some?
      invariant ChainSoFar(start, parent, level, goal, path, curr)
      decreases if curr.Some? then level[curr.value] + 1 else 0
    {
      ChainStep(g, start, parent, level, goal, path, curr);
      path := path + [curr.value];
      curr := if curr.value in parent then parent[curr.value] else None;
    }
    ReversedChain(g, start, parent, level, goal, path, Reverse(path));
    path := Reverse(path);
  }

  /** All records after the first carry an expanded node. */
  predicate AllExpanded(steps: seq<TraceStep>)
  {
    forall i :: 1 <= i < |steps| ==> steps[i].expansion.Expanded?
  }

  /** The expanded nodes of a trace, in order (record i expands node i - 1). */
  function Expansions(steps: seq<TraceStep>): (us: seq<Node>)
    requires AllExpanded(steps)
    ensures |us| == if steps == [] then 0 else |steps| - 1
    ensures forall j :: 0 <= j < |us| ==> us[j] == steps[j + 1].expansion.node
  {
    if |steps| <= 1 then []
    else seq(|steps| - 1, j requires 0 <= j < |steps| - 1 => steps[j + 1].expansion.node)
  }

  /** Record `r`, number `i`, follows record `prev`: it expands a node other
      than the goal, carries that node's level, and its visited copy adds
      exactly that node's successors, each new one a level deeper. */
  ghost predicate FollowsRecord(g: Graph, goal: Node, kind: FrontierKind, level: map<Node, nat>,
                                i: nat, prev: TraceStep, r: TraceStep)
  {
    && r.step == i
    && r.kind == kind
    && r.expansion.Expanded?
    && r.expansion.node != goal
    && r.expansion.node in level
    && r.level == level[r.expansion.node]
    && r.visited == prev.visited + Elems(Succ(g, r.expansion.node))
    && forall n :: n in r.visited && n !in prev.visited ==> n in level && level[n] == r.level + 1
  }

  /** The trace shape shared by both searches: the 'Start' row, then one row
      per expansion that was not the goal, numbered consecutively, no node
      expanded twice, and the last visited copy equal to the discovered set. */
  ghost predicate IsTrace(g: Graph, start: Node, goal: Node, kind: FrontierKind,
                          steps: seq<TraceStep>, level: map<Node, nat>)
  {
    && |steps| >= 1
    && steps[0] == InitialStep(start, kind)
    && (forall i :: 1 <= i < |steps| ==> FollowsRecord(g, goal, kind, level, i, steps[i - 1], steps[i]))
    && (forall i, j :: 1 <= i < j < |steps| ==> steps[i].expansion != steps[j].expansion)
    && steps[|steps| - 1].visited == level.Keys
  }

  /** Each record's visited copy contains the previous one. */
  lemma VisitedGrows(g: Graph, start: Node, goal: Node, kind: FrontierKind,
                     steps: seq<TraceStep>, level: map<Node, nat>, i: nat, j: nat)
    requires IsTrace(g, start, goal, kind, steps, level)
    requires i <= j < |steps|
    ensures steps[i].visited <= steps[j].visited
    decreases j - i
  {
    if i < j {
      assert FollowsRecord(g, goal, kind, level, j, steps[j - 1], steps[j]);
      VisitedGrows(g, start, goal, kind, steps, level, i, j - 1);
    }
  }

  /** No node is expanded twice, so there are at most as many expansion
      records as discovered nodes. */
  lemma ExpansionCount(g: Graph, start: Node, goal: Node, kind: FrontierKind,
                       steps: seq<TraceStep>, level: map<Node, nat>)
    requires IsTrace(g, start, goal, kind, steps, level)
    ensures |steps| <= |level| + 1
  {
    assert AllExpanded(steps) by {
      forall i | 1 <= i < |steps|
        ensures steps[i].expansion.Expanded?
      {
        assert FollowsRecord(g, goal, kind, level, i, steps[i - 1], steps[i]);
      }
    }
    var us := Expansions(steps);
    assert Distinct(us);
    assert Elems(us) <= level.Keys by {
      forall j | 0 <= j < |us|
        ensures us[j] in level
      {
        assert FollowsRecord(g, goal, kind, level, j + 1, steps[j], steps[j + 1]);
      }
    }
    DistinctCard(us);
    assert level.Keys == Elems(us) + (level.Keys - Elems(us));
  }

  /** The trace half of a search loop's invariant: one record per expanded
      non-goal node, the last one's visited copy current. */
  ghost predicate TraceState(g: Graph, start: Node, goal: Node, kind: FrontierKind, steps: seq<TraceStep>,
                             level: map<Node, nat>, visited: set<Node>, expanded: seq<Node>)
  {
    && |steps| == |expanded| + 1
    && steps[0] == InitialStep(start, kind)
    && (forall i :: 1 <= i < |steps| ==> steps[i].expansion == Expanded(expanded[i - 1]))
    && (forall i :: 1 <= i < |steps| ==> FollowsRecord(g, goal, kind, level, i, steps[i - 1], steps[i]))
    && steps[|steps| - 1].visited == visited
  }

  /** Appending the record of an iteration keeps the trace half of the invariant. */
  lemma TraceAppend(g: Graph, start: Node, goal: Node, kind: FrontierKind, u: Node, visited: set<Node>,
                    level: map<Node, nat>, expanded: seq<Node>, steps: seq<TraceStep>,
                    visited': set<Node>, level': map<Node, nat>, r: TraceStep)
    requires TraceState(g, start, goal, kind, steps, level, visited, expanded)
    requires u != goal && u in level
    requires visited' == visited + Elems(Succ(g, u))
    requires forall n :: n in level ==> n in level' && level'[n] == level[n]
    requires forall n :: n in visited' && n !in visited ==> n in level' && level'[n] == level[u] + 1
    requires r == TraceStep(|expanded| + 1, Expanded(u), level[u], kind, r.frontier, visited')
    ensures TraceState(g, start, goal, kind, steps + [r], level', visited', expanded + [u])
  {
    var steps' := steps + [r];
    var k := |expanded|;
    assert FollowsRecord(g, goal, kind, level', k + 1, steps'[k], steps'[k + 1]);
    forall i | 1 <= i <= k
      ensures FollowsRecord(g, goal, kind, level', i, steps'[i - 1], steps'[i])
    {
      FollowsRecordGrow(g, goal, kind, level, level', i, steps[i - 1], steps[i]);
    }
  }

  /** At the end of a search loop the trace half of the invariant is a trace
      whose expansions are the expanded non-goal nodes. */
  lemma TraceDone(g: Graph, start: Node, goal: Node, kind: FrontierKind, visited: set<Node>,
                  level: map<Node, nat>, expanded: seq<Node>, steps: seq<TraceStep>)
    requires Distinct(expanded) && level.Keys == visited
    requires TraceState(g, start, goal, kind, steps, level, visited, expanded)
    ensures IsTrace(g, start, goal, kind, steps, level)
    ensures AllExpanded(steps) && Expansions(steps) == expanded
  {
  }
}
