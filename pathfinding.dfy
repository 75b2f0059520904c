/**
 * processing/pathfinding.rb: a search from a start tile towards a goal tile
 * that advances one node per call of `step`. The searcher's nodes live in an
 * arena `nodes`; `@open` and `@closed` hold indices into it, and so does
 * every node's `parent`. Tiles are slots of the grid's tile arena.
 *
 * `heuristic` is the Euclidean distance `Math.sqrt(dx*dx + dy*dy)`. It only
 * feeds the strict comparison of best_option, added to a `cost_from_start`
 * that step never writes (so it stays 0), and the square root preserves
 * order, so the model compares squared distances and picks the same node.
 */
module Pathfindings {
  import opened Wrappers
  import opened Points
  import opened TileTypes
  import opened Tiles
  import opened Layout
  import opened Seqs
  import opened Boards
  import opened Grids
  import opened PathfindNodes

  /** `@path_check_states`: the states a search may step onto. */
  const PathStates: seq<TileState> := [Floor, Hall, EndPoint]

  /** `@clear_check_states`: the states `clear` turns back into FLOOR. */
  const ClearStates: seq<TileState> := [Explored, StartPoint, EndPoint, Path]

  lemma SquareFacts(n: int)
    ensures n * n >= 0 && (n != 0 ==> n * n > 0)
  {
    if n < 0 {
      assert n * n == (-n) * (-n);
    }
  }

  /** The squared distance between two tiles' grid coordinates: 0 exactly when they share them. */
  function SqDistance(a: Tile, b: Tile): (d: nat)
    ensures d == 0 <==> a.x == b.x && a.y == b.y
  {
    var dx, dy := a.x - b.x, a.y - b.y;
    SquareFacts(dx);
    SquareFacts(dy);
    dx * dx + dy * dy
  }

  // ---------------------------------------------------------------------------
  // The search state as values.

  /** Node `node`'s parent, if any, is a node below `bound` on an orthogonally adjacent tile. */
  predicate Linked(b: Board, nodes: seq<PathfindNode>, node: PathfindNode, bound: int)
  {
    node.parent.Some? ==>
      node.parent.value < bound && node.parent.value < |nodes|
      && Adjacent(b.CoordOf(nodes[node.parent.value].tile), b.CoordOf(node.tile))
  }

  /** Node k stands on a tile of an n-tile arena, has cost 0, and its parent is an earlier node. */
  predicate NodeOk(b: Board, nodes: seq<PathfindNode>, n: int, k: int)
    requires 0 <= k < |nodes|
  {
    nodes[k].tile < n && nodes[k].costFromStart == 0 && Linked(b, nodes, nodes[k], k)
  }

  ghost predicate Arena(b: Board, nodes: seq<PathfindNode>, n: int)
  {
    Rooted(nodes) && OnCells(nodes, n) && forall k :: 0 <= k < |nodes| ==> NodeOk(b, nodes, n, k)
  }

  lemma ArenaOfNodes(b: Board, nodes: seq<PathfindNode>, n: int)
    requires forall k :: 0 <= k < |nodes| ==> NodeOk(b, nodes, n, k)
    ensures Arena(b, nodes, n)
  {
    forall k | 0 <= k < |nodes| ensures nodes[k].tile < n && (nodes[k].parent.Some? ==> nodes[k].parent.value < k) {
      assert NodeOk(b, nodes, n, k);
    }
  }

  /** Appending nodes leaves the old ones well linked. */
  lemma ArenaKept(b: Board, nodes: seq<PathfindNode>, extra: seq<PathfindNode>, n: int)
    requires Arena(b, nodes, n)
    ensures forall k :: 0 <= k < |nodes| ==> NodeOk(b, nodes + extra, n, k)
  {
    var all := nodes + extra;
    forall k | 0 <= k < |nodes| ensures NodeOk(b, all, n, k) {
      assert all[k] == nodes[k] && NodeOk(b, nodes, n, k);
      if nodes[k].parent.Some? {
        assert all[nodes[k].parent.value] == nodes[nodes[k].parent.value];
      }
    }
  }

  /** begin_scan's start node, which has no parent, keeps the arena well linked. */
  lemma ArenaRoot(b: Board, nodes: seq<PathfindNode>, n: int, t: nat)
    requires Arena(b, nodes, n) && t < n
    ensures Arena(b, nodes + [NewNode(t)], n)
  {
    ArenaKept(b, nodes, [NewNode(t)], n);
    assert NodeOk(b, nodes + [NewNode(t)], n, |nodes|);
    ArenaOfNodes(b, nodes + [NewNode(t)], n);
  }

  /** Every node stands on a tile of an n-tile arena. */
  predicate OnCells(nodes: seq<PathfindNode>, n: int)
  {
    forall k :: 0 <= k < |nodes| ==> nodes[k].tile < n
  }

  /** Every parent link points to an earlier node. */
  predicate Rooted(nodes: seq<PathfindNode>)
  {
    forall k :: 0 <= k < |nodes| && nodes[k].parent.Some? ==> nodes[k].parent.value < k
  }

  /** No tile has more than one node in `listed`. */
  ghost predicate OneNodePerTile(nodes: seq<PathfindNode>, listed: seq<nat>)
  {
    forall a, c :: a in listed && c in listed && a < |nodes| && c < |nodes| && nodes[a].tile == nodes[c].tile ==> a == c
  }

  /**
   * The invariant of a search on a board b of n tiles: the node arena is
   * well linked, open and closed list distinct nodes and none in both, no
   * tile has two nodes across them, and the goal node exists once anything
   * is open.
   */
  ghost predicate Search(b: Board, n: int, nodes: seq<PathfindNode>, open: seq<nat>, closed: seq<nat>, end: Option<PathfindNode>)
  {
    && Arena(b, nodes, n)
    && Slots(open, |nodes|) && Slots(closed, |nodes|)
    && Distinct(open) && Distinct(closed) && (forall k :: k in open ==> k !in closed)
    && OneNodePerTile(nodes, open + closed)
    && (end.Some? ==> end.value.tile < n && Linked(b, nodes, end.value, |nodes|))
    && (open != [] ==> end.Some?)
  }

  // ---------------------------------------------------------------------------
  // in_list, best_option and the neighbours a step discovers.

  /** `in_list(tile, list)`: some node of the list stands on the tile. */
  function InList(nodes: seq<PathfindNode>, list: seq<nat>, tile: nat): (r: bool)
    requires Slots(list, |nodes|)
    ensures r <==> exists k :: k in list && k < |nodes| && nodes[k].tile == tile
  {
    if list == [] then false
    else nodes[list[0]].tile == tile || InList(nodes, list[1..], tile)
  }

  /** What best_option compares for the node on tile t: cost_from_start (0) plus the distance to the goal. */
  function Score(cells: seq<Tile>, t: nat, goal: Tile): nat
    requires t < |cells|
  {
    SqDistance(cells[t], goal)
  }

  /**
   * The position in `list` of the node best_option picks: no node of the
   * list scores less, and every node before it scores more, so it is the
   * earliest of the nearest.
   */
  function BestAt(cells: seq<Tile>, nodes: seq<PathfindNode>, list: seq<nat>, goal: Tile): (p: nat)
    requires list != [] && Slots(list, |nodes|) && OnCells(nodes, |cells|)
    ensures p < |list|
    ensures forall q :: 0 <= q < |list| ==> Score(cells, nodes[list[q]].tile, goal) >= Score(cells, nodes[list[p]].tile, goal)
    ensures forall q :: 0 <= q < p ==> Score(cells, nodes[list[q]].tile, goal) > Score(cells, nodes[list[p]].tile, goal)
  {
    if |list| == 1 then 0
    else
      var p := BestAt(cells, nodes, list[..|list| - 1], goal);
      var last := |list| - 1;
      if Score(cells, nodes[list[p]].tile, goal) > Score(cells, nodes[list[last]].tile, goal) then last else p
  }

  /** best_option's loop at position k: the best of list[..k + 1] is k when k scores strictly less than the best so far. */
  lemma BestAtStep(cells: seq<Tile>, nodes: seq<PathfindNode>, list: seq<nat>, k: nat, goal: Tile)
    requires k < |list| && Slots(list, |nodes|) && OnCells(nodes, |cells|)
    ensures Slots(list[..k + 1], |nodes|)
    ensures k == 0 ==> BestAt(cells, nodes, list[..k + 1], goal) == 0
    ensures k > 0 ==>
      var p := BestAt(cells, nodes, list[..k], goal);
      p < k && list[p] == list[..k][p]
      && BestAt(cells, nodes, list[..k + 1], goal)
         == if Score(cells, nodes[list[p]].tile, goal) > Score(cells, nodes[list[k]].tile, goal) then k else p
  {
    assert list[..k + 1][..k] == list[..k];
  }

  /**
   * The neighbours in ns, in order, that step turns into new open nodes:
   * those in FLOOR, HALL or END_POINT with no node in `listed`.
   */
  function Fresh(cells: seq<Tile>, nodes: seq<PathfindNode>, listed: seq<nat>, ns: seq<nat>): (r: seq<nat>)
    requires Slots(ns, |cells|) && Slots(listed, |nodes|)
    ensures Slots(r, |cells|)
  {
    if ns == [] then []
    else
      var j := ns[|ns| - 1];
      Fresh(cells, nodes, listed, ns[..|ns| - 1])
      + (if cells[j].OneOf(PathStates) && !InList(nodes, listed, j) then [j] else [])
  }

  /** A neighbour is discovered exactly when it is in a path state and has no node yet; none twice. */
  lemma {:induction false} FreshSpec(cells: seq<Tile>, nodes: seq<PathfindNode>, listed: seq<nat>, ns: seq<nat>)
    requires Slots(ns, |cells|) && Slots(listed, |nodes|)
    ensures forall j :: j in Fresh(cells, nodes, listed, ns) <==> j in ns && cells[j].OneOf(PathStates) && !InList(nodes, listed, j)
    ensures Distinct(ns) ==> Distinct(Fresh(cells, nodes, listed, ns))
    decreases |ns|
  {
    if ns != [] {
      var init, j := ns[..|ns| - 1], ns[|ns| - 1];
      FreshSpec(cells, nodes, listed, init);
      assert ns == init + [j];
      if Distinct(ns) {
        assert Distinct(init) by {
          forall a, c | 0 <= a < c < |init| ensures init[a] != init[c] {
            assert init[a] == ns[a] && init[c] == ns[c];
          }
        }
        assert j !in init;
        var tail := if cells[j].OneOf(PathStates) && !InList(nodes, listed, j) then [j] else [];
        DistinctConcat(Fresh(cells, nodes, listed, init), tail);
      }
    }
  }

  /** The node step creates for tile t: a child of node `parent`, its total cost `cost` plus the distance to the goal. */
  function ChildNode(cells: seq<Tile>, t: nat, parent: nat, cost: int, goal: Tile): PathfindNode
    requires t < |cells|
  {
    NewNode(t).(totalCost := cost + SqDistance(cells[t], goal)).(parent := Some(parent))
  }

  /** The child node depends only on the coordinates of its tile and the goal's. */
  lemma ChildNodeSamePlace(cells: seq<Tile>, cells': seq<Tile>, t: nat, parent: nat, cost: int, goal: Tile, goal': Tile)
    requires t < |cells| && t < |cells'| && cells[t].SamePlace(cells'[t]) && goal.SamePlace(goal')
    ensures ChildNode(cells, t, parent, cost, goal) == ChildNode(cells', t, parent, cost, goal')
  {
  }

  /** The nodes step creates for the tiles ts, children of node `parent` whose cost is `cost`. */
  function Spawn(cells: seq<Tile>, ts: seq<nat>, parent: nat, cost: int, goal: Tile): (r: seq<PathfindNode>)
    requires Slots(ts, |cells|)
    ensures |r| == |ts|
    ensures forall i :: 0 <= i < |ts| ==> r[i].tile == ts[i] && r[i].parent == Some(parent) && r[i].costFromStart == 0
  {
    if ts == [] then []
    else
      var t := ts[|ts| - 1];
      Spawn(cells, ts[..|ts| - 1], parent, cost, goal) + [ChildNode(cells, t, parent, cost, goal)]
  }

  lemma SpawnSnoc(cells: seq<Tile>, ts: seq<nat>, t: nat, parent: nat, cost: int, goal: Tile)
    requires Slots(ts, |cells|) && t < |cells|
    ensures Slots(ts + [t], |cells|)
    ensures Spawn(cells, ts + [t], parent, cost, goal) == Spawn(cells, ts, parent, cost, goal) + [ChildNode(cells, t, parent, cost, goal)]
  {
    assert (ts + [t])[..|ts|] == ts;
  }

  /** The arena indices start, start + 1, ..., start + n - 1. */
  function Indices(start: nat, n: nat): (r: seq<nat>)
    ensures |r| == n && forall i :: 0 <= i < n ==> r[i] == start + i
  {
    if n == 0 then [] else Indices(start, n - 1) + [start + n - 1]
  }

  /** `become_explored unless end?` */
  function ExploreTile(t: Tile): (r: Tile)
    ensures r.SamePlace(t)
  {
    if t.IsEnd() then t else t.Become(Explored)
  }

  /** Tile j after a step that discovered ts: EXPLORED if discovered and not the END_POINT. */
  function ExploreOne(cells: seq<Tile>, ts: seq<nat>, j: int): (r: Tile)
    requires 0 <= j < |cells|
    ensures r.SamePlace(cells[j])
  {
    if j in ts then ExploreTile(cells[j]) else cells[j]
  }

  /** Every tile after a step that discovered ts. */
  function AfterExplore(cells: seq<Tile>, ts: seq<nat>): (r: seq<Tile>)
    ensures |r| == |cells| && forall j :: 0 <= j < |cells| ==> r[j] == ExploreOne(cells, ts, j)
  {
    seq(|cells|, j requires 0 <= j < |cells| => ExploreOne(cells, ts, j))
  }

  /** One more neighbour of the loop: discovered exactly when in a path state with no node in `listed`. */
  lemma FreshSnoc(cells: seq<Tile>, nodes: seq<PathfindNode>, listed: seq<nat>, ns: seq<nat>, k: nat)
    requires Slots(ns, |cells|) && Slots(listed, |nodes|) && k < |ns|
    ensures Slots(ns[..k], |cells|) && Slots(ns[..k + 1], |cells|)
    ensures Fresh(cells, nodes, listed, ns[..k + 1])
      == Fresh(cells, nodes, listed, ns[..k]) + (if cells[ns[k]].OneOf(PathStates) && !InList(nodes, listed, ns[k]) then [ns[k]] else [])
  {
    assert ns[..k + 1][..k] == ns[..k];
  }

  /** The loop of clear over the tile arena: every tile is cleared in place. */
  method ClearTiles(elements: array<Tile>, states: seq<TileState>)
    requires states == ClearStates
    modifies elements
    ensures forall i :: 0 <= i < elements.Length ==> elements[i] == ClearOne(old(elements[i]))
  {
    var i := 0;
    while i < elements.Length
      invariant 0 <= i <= elements.Length
      invariant forall j :: 0 <= j < i ==> elements[j] == ClearOne(old(elements[j]))
      invariant forall j :: i <= j < elements.Length ==> elements[j] == old(elements[j])
    {
      var tile := elements[i];
      if tile.OneOf(states) {
        elements[i] := tile.Become(Floor);
      }
      i := i + 1;
    }
  }

  /** What clear does to one tile. */
  function ClearOne(t: Tile): Tile
  {
    if t.OneOf(ClearStates) then t.Become(Floor) else t
  }

  /**
   * After clear no tile is EXPLORED, START_POINT, END_POINT or PATH; a tile
   * in none of those states is untouched, so clearing twice is clearing
   * once; coordinates never change.
   */
  lemma ClearOneSpec(t: Tile)
    ensures !ClearOne(t).OneOf(ClearStates)
    ensures !t.OneOf(ClearStates) ==> ClearOne(t) == t
    ensures t.OneOf(ClearStates) ==> ClearOne(t).Is(Floor)
    ensures ClearOne(ClearOne(t)) == ClearOne(t)
    ensures ClearOne(t).SamePlace(t)
  {
    assert !Floor.Explored? && Floor !in ClearStates;
  }

  // ---------------------------------------------------------------------------
  // trace_path.

  /** The tiles of node and its ancestors, stopping before the first node without a parent. */
  function Chain(nodes: seq<PathfindNode>, node: PathfindNode, n: int): (r: seq<nat>)
    requires Rooted(nodes) && OnCells(nodes, n) && node.tile < n
    requires node.parent.Some? ==> node.parent.value < |nodes|
    ensures Slots(r, n)
    decreases if node.parent.Some? then node.parent.value + 1 else 0
  {
    match node.parent
    case None => []
    case Some(p) => [node.tile] + Chain(nodes, nodes[p], n)
  }

  /** The tiles of ts that are not END_POINT, order kept. */
  function NotEnd(cells: seq<Tile>, ts: seq<nat>): (r: seq<nat>)
    requires Slots(ts, |cells|)
  {
    if ts == [] then []
    else (if cells[ts[0]].IsEnd() then [] else [ts[0]]) + NotEnd(cells, ts[1..])
  }

  /** A chain starts at its node, and each tile on it is orthogonally adjacent to the next. */
  lemma {:induction false} ChainAdjacent(b: Board, nodes: seq<PathfindNode>, node: PathfindNode, n: int)
    requires Arena(b, nodes, n) && node.tile < n && Linked(b, nodes, node, |nodes|)
    ensures var ch := Chain(nodes, node, n);
      && (|ch| > 0 ==> ch[0] == node.tile)
      && forall i :: 0 <= i < |ch| - 1 ==> Adjacent(b.CoordOf(ch[i]), b.CoordOf(ch[i + 1]))
    decreases if node.parent.Some? then node.parent.value + 1 else 0
  {
    match node.parent
    case None =>
    case Some(p) =>
      assert NodeOk(b, nodes, n, p);
      ChainAdjacent(b, nodes, nodes[p], n);
      var rest := Chain(nodes, nodes[p], n);
      var ch := Chain(nodes, node, n);
      assert ch == [node.tile] + rest;
      forall i | 0 <= i < |ch| - 1 ensures Adjacent(b.CoordOf(ch[i]), b.CoordOf(ch[i + 1])) {
        if i == 0 {
          assert ch[1] == nodes[p].tile;
          assert Adjacent(b.CoordOf(ch[1]), b.CoordOf(ch[0]));
        } else {
          assert ch[i] == rest[i - 1] && ch[i + 1] == rest[i];
        }
      }
  }

  /** trace_path keeps exactly the chain's tiles that are not END_POINT, in chain order. */
  lemma {:induction false} NotEndSpec(cells: seq<Tile>, ts: seq<nat>)
    requires Slots(ts, |cells|)
    ensures forall t :: t in NotEnd(cells, ts) <==> t in ts && !cells[t].IsEnd()
    decreases |ts|
  {
    if ts != [] {
      NotEndSpec(cells, ts[1..]);
      assert ts == [ts[0]] + ts[1..];
    }
  }

  /** When only the first tile (the goal) is END_POINT, trace_path is the chain without it. */
  lemma {:induction false} NotEndDropsGoal(cells: seq<Tile>, ts: seq<nat>)
    requires Slots(ts, |cells|) && |ts| > 0 && cells[ts[0]].IsEnd()
    requires forall i :: 0 < i < |ts| ==> !cells[ts[i]].IsEnd()
    ensures NotEnd(cells, ts) == ts[1..]
  {
    NotEndNone(cells, ts[1..]);
  }

  lemma {:induction false} NotEndNone(cells: seq<Tile>, ts: seq<nat>)
    requires Slots(ts, |cells|) && forall i :: 0 <= i < |ts| ==> !cells[ts[i]].IsEnd()
    ensures NotEnd(cells, ts) == ts
    decreases |ts|
  {
    if ts != [] {
      NotEndNone(cells, ts[1..]);
    }
  }

  // ---------------------------------------------------------------------------
  // A step keeps the search invariant.

  /** In a new step, the closed and open lists seen by the loop name the same nodes as before. */
  lemma ListedNow(nodes0: seq<PathfindNode>, extra: seq<PathfindNode>, closed: seq<nat>, open0: seq<nat>,
                  listed: seq<nat>, found: seq<nat>, j: nat)
    requires Slots(closed, |nodes0|) && Slots(open0, |nodes0|) && Slots(listed, |nodes0|)
    requires forall k :: k in listed <==> k in closed || k in open0
    requires |extra| == |found| && forall i :: 0 <= i < |extra| ==> extra[i].tile == found[i]
    requires j !in found
    ensures Slots(open0 + Indices(|nodes0|, |extra|), |nodes0 + extra|)
    ensures InList(nodes0 + extra, closed, j) || InList(nodes0 + extra, open0 + Indices(|nodes0|, |extra|), j)
      <==> InList(nodes0, listed, j)
  {
    var nodes := nodes0 + extra;
    var open := open0 + Indices(|nodes0|, |extra|);
    if InList(nodes0, listed, j) {
      var k :| k in listed && k < |nodes0| && nodes0[k].tile == j;
      assert nodes[k] == nodes0[k];
      if k in closed {
        assert InList(nodes, closed, j);
      } else {
        assert k in open;
        assert InList(nodes, open, j);
      }
    }
    if InList(nodes, closed, j) {
      var k :| k in closed && k < |nodes| && nodes[k].tile == j;
      assert k < |nodes0| && nodes[k] == nodes0[k];
      assert k in listed;
    }
    if InList(nodes, open, j) {
      var k :| k in open && k < |nodes| && nodes[k].tile == j;
      if k in open0 {
        assert k < |nodes0| && nodes[k] == nodes0[k];
        assert k in listed;
      }
    }
  }

  /** The new nodes of a step keep the arena well linked. */
  lemma ArenaGrows(b: Board, nodes: seq<PathfindNode>, n: int, cells: seq<Tile>, ts: seq<nat>, c: nat, cost: int, goal: Tile)
    requires Arena(b, nodes, n) && c < |nodes| && Slots(ts, |cells|)
    requires forall j :: j in ts ==> j < n && Adjacent(b.CoordOf(nodes[c].tile), b.CoordOf(j))
    ensures Arena(b, nodes + Spawn(cells, ts, c, cost, goal), n)
  {
    var born := Spawn(cells, ts, c, cost, goal);
    var all := nodes + born;
    ArenaKept(b, nodes, born, n);
    forall k | |nodes| <= k < |all| ensures NodeOk(b, all, n, k) {
      var i := k - |nodes|;
      assert all[k] == born[i] && born[i].tile == ts[i] && ts[i] in ts;
      assert all[c] == nodes[c];
    }
    ArenaOfNodes(b, all, n);
  }

  /** After a step open and closed still list distinct nodes of the grown arena, none in both. */
  lemma ListsAfterStep(m: nat, open: seq<nat>, closed: seq<nat>, c: nat, count: nat)
    requires Slots(open, m) && Slots(closed, m)
    requires Distinct(open) && Distinct(closed) && (forall k :: k in open ==> k !in closed) && c in open
    ensures var open' := Without(open, {c}) + Indices(m, count);
      var closed' := closed + [c];
      && Slots(open', m + count) && Slots(closed', m + count)
      && Distinct(open') && Distinct(closed') && (forall k :: k in open' ==> k !in closed')
  {
    var kept := Without(open, {c});
    var idx := Indices(m, count);
    assert forall k :: k in kept ==> k < m by {
      forall k | k in kept ensures k < m {
        var i :| 0 <= i < |open| && open[i] == k;
      }
    }
    assert forall k :: k in closed ==> k < m by {
      forall k | k in closed ensures k < m {
        var i :| 0 <= i < |closed| && closed[i] == k;
      }
    }
    DistinctWithout(open, {c});
    assert Distinct(idx);
    DistinctConcat(kept, idx);
    DistinctConcat(closed, [c]);
    SlotsMembers(kept + idx, m + count);
    SlotsMembers(closed + [c], m + count);
  }

  /** After a step no tile has two nodes across open and closed. */
  lemma UniqueAfterStep(nodes: seq<PathfindNode>, open: seq<nat>, closed: seq<nat>, c: nat, born: seq<PathfindNode>, ts: seq<nat>, listed: seq<nat>)
    requires Slots(open, |nodes|) && Slots(closed, |nodes|) && Slots(listed, |nodes|)
    requires OneNodePerTile(nodes, open + closed) && c in open
    requires forall k :: k in listed <==> k in closed || k in open
    requires |born| == |ts| && Distinct(ts) && forall i :: 0 <= i < |ts| ==> born[i].tile == ts[i]
    requires forall j :: j in ts ==> !InList(nodes, listed, j)
    ensures OneNodePerTile(nodes + born, Without(open, {c}) + Indices(|nodes|, |ts|) + (closed + [c]))
  {
    var nodes' := nodes + born;
    var listed' := Without(open, {c}) + Indices(|nodes|, |ts|) + (closed + [c]);
    OldStayListed(nodes, open, closed, c, |ts|, listed);
    forall a, d | a in listed' && d in listed' && a < |nodes'| && d < |nodes'| && nodes'[a].tile == nodes'[d].tile
      ensures a == d
    {
      if a < |nodes| && d < |nodes| {
        assert nodes'[a] == nodes[a] && nodes'[d] == nodes[d];
        assert a in open + closed && d in open + closed;
      } else if a < |nodes| {
        NewNodeUnlisted(nodes, born, ts, listed, a, d);
      } else if d < |nodes| {
        NewNodeUnlisted(nodes, born, ts, listed, d, a);
      } else {
        assert nodes'[a] == born[a - |nodes|] && nodes'[d] == born[d - |nodes|];
      }
    }
  }

  /** The old nodes still listed after a step were listed before it. */
  lemma OldStayListed(nodes: seq<PathfindNode>, open: seq<nat>, closed: seq<nat>, c: nat, count: nat, listed: seq<nat>)
    requires c in open && forall k :: k in listed <==> k in closed || k in open
    ensures forall a :: a in Without(open, {c}) + Indices(|nodes|, count) + (closed + [c]) && a < |nodes| ==> a in listed
    ensures forall a :: a in listed ==> a in open + closed
  {
    var idx := Indices(|nodes|, count);
    assert forall a :: a in idx ==> a >= |nodes|;
  }

  /** A node born in a step has a tile no listed old node has. */
  lemma NewNodeUnlisted(nodes: seq<PathfindNode>, born: seq<PathfindNode>, ts: seq<nat>, listed: seq<nat>, a: nat, d: nat)
    requires |born| == |ts| && forall i :: 0 <= i < |ts| ==> born[i].tile == ts[i]
    requires Slots(listed, |nodes|) && forall j :: j in ts ==> !InList(nodes, listed, j)
    requires a in listed && a < |nodes| && |nodes| <= d < |nodes| + |born|
    ensures (nodes + born)[a].tile != (nodes + born)[d].tile
  {
    var i := d - |nodes|;
    assert (nodes + born)[d] == born[i] && ts[i] in ts;
  }

  /**
   * One non-final step keeps the search invariant: the chosen node moves
   * from open to closed and the discovered neighbours join open as its
   * children.
   */
  lemma StepKeeps(b: Board, n: int, cells: seq<Tile>, nodes: seq<PathfindNode>, open: seq<nat>, closed: seq<nat>,
                  end: Option<PathfindNode>, c: nat, listed: seq<nat>, cost: int, goal: Tile)
    requires Search(b, n, nodes, open, closed, end) && c in open && |cells| == n
    requires b.WellFormed() && n == b.cols * b.rows
    requires listed == closed + open
    requires c < |nodes| && nodes[c].tile < n
    ensures var ns := b.NeighborList(nodes[c].tile);
      Slots(ns, |cells|) && Slots(listed, |nodes|)
    ensures var ts := Fresh(cells, nodes, listed, b.NeighborList(nodes[c].tile));
      Search(b, n, nodes + Spawn(cells, ts, c, cost, goal), Without(open, {c}) + Indices(|nodes|, |ts|), closed + [c], end)
  {
    var ns := b.NeighborList(nodes[c].tile);
    b.NeighborListBounded(nodes[c].tile);
    b.NeighborListDistinct(nodes[c].tile);
    var ts := Fresh(cells, nodes, listed, ns);
    FreshSpec(cells, nodes, listed, ns);
    forall j | j in ts ensures j < n && Adjacent(b.CoordOf(nodes[c].tile), b.CoordOf(j)) {
      b.NeighborListSpec(nodes[c].tile, j);
    }
    ArenaGrows(b, nodes, n, cells, ts, c, cost, goal);
    var born := Spawn(cells, ts, c, cost, goal);
    ListsAfterStep(|nodes|, open, closed, c, |ts|);
    UniqueAfterStep(nodes, open, closed, c, born, ts, listed);
    if end.Some? && end.value.parent.Some? {
      assert (nodes + born)[end.value.parent.value] == nodes[end.value.parent.value];
    }
  }

  /** Whether step's loop makes a node for tile j: in a path state, with no node in closed or open. */
  function Admits(cells: seq<Tile>, nodes: seq<PathfindNode>, closed: seq<nat>, open: seq<nat>, j: nat): bool
    requires j < |cells| && Slots(open, |nodes|) && Slots(closed, |nodes|)
  {
    cells[j].OneOf(PathStates) && !InList(nodes, closed, j) && !InList(nodes, open, j)
  }

  /**
   * One round of step's neighbour loop, on values: after the first k
   * neighbours of ns were handled from the arena nodes0, open list open0 and
   * tiles cells, the current tiles are cur; neighbour ns[k] is admitted
   * exactly when Fresh takes it.
   */
  lemma ExpandAdmit(cells: seq<Tile>, cur: seq<Tile>, nodes0: seq<PathfindNode>, open0: seq<nat>, closed: seq<nat>,
                    listed: seq<nat>, ns: seq<nat>, k: nat, found: seq<nat>, c: nat, cost: int, goal: Tile)
    requires Slots(ns, |cells|) && Distinct(ns) && k < |ns|
    requires Slots(open0, |nodes0|) && Slots(closed, |nodes0|) && Slots(listed, |nodes0|)
    requires forall i :: i in listed <==> i in closed || i in open0
    requires found == Fresh(cells, nodes0, listed, ns[..k]) && c < |nodes0|
    requires cur == AfterExplore(cells, found)
    ensures var j := ns[k];
      var born := Spawn(cells, found, c, cost, goal);
      var admit := cells[j].OneOf(PathStates) && !InList(nodes0, listed, j);
      && Slots(open0 + Indices(|nodes0|, |found|), |nodes0 + born|) && Slots(closed, |nodes0 + born|)
      && (nodes0 + born)[c] == nodes0[c]
      && Admits(cur, nodes0 + born, closed, open0 + Indices(|nodes0|, |found|), j) == admit
  {
    var j := ns[k];
    var born := Spawn(cells, found, c, cost, goal);
    NeighborUnseen(cells, nodes0, listed, ns, k);
    ListedNow(nodes0, born, closed, open0, listed, found, j);
    ExploreSnoc(cells, found, j);
  }

  /**
   * The same round, admitted: the node made for tile j is its Spawn entry
   * and its index joins the open list.
   */
  lemma ExpandGrow(cells: seq<Tile>, cur: seq<Tile>, nodes0: seq<PathfindNode>, open0: seq<nat>,
                   found: seq<nat>, j: nat, c: nat, cost: int, goalTile: nat)
    requires Slots(found, |cells|) && j < |cells| && goalTile < |cells|
    requires cur == AfterExplore(cells, found) && cur[j] == cells[j]
    ensures var born := Spawn(cells, found, c, cost, cells[goalTile]);
      && nodes0 + Spawn(cells, found + [j], c, cost, cells[goalTile])
           == nodes0 + born + [ChildNode(cur, j, c, cost, cur[goalTile])]
      && open0 + Indices(|nodes0|, |found + [j]|) == open0 + Indices(|nodes0|, |found|) + [|nodes0 + born|]
  {
    var goal := cells[goalTile];
    var born := Spawn(cells, found, c, cost, goal);
    assert cur[goalTile] == ExploreOne(cells, found, goalTile);
    ChildNodeSamePlace(cur, cells, j, c, cost, cur[goalTile], goal);
    SpawnSnoc(cells, found, j, c, cost, goal);
    ConcatAssoc(nodes0, born, [ChildNode(cells, j, c, cost, goal)]);
    IndicesSnoc(open0, |nodes0|, |found|, |found + [j]|, |nodes0 + born|);
  }

  /**
   * One round of step's neighbour loop on values: whatever the round did to
   * the arena (nodes to nodes'), the open list and the tiles (cur to cur'),
   * as Discover does it, the loop state after k + 1 neighbours follows.
   */
  lemma RoundStep(cells: seq<Tile>, cur: seq<Tile>, nodes0: seq<PathfindNode>, open0: seq<nat>, closed: seq<nat>,
                  listed: seq<nat>, ns: seq<nat>, k: nat, found: seq<nat>, c: nat, cost: int, goalTile: nat,
                  nodes: seq<PathfindNode>, open: seq<nat>, nodes': seq<PathfindNode>, open': seq<nat>, cur': seq<Tile>, admit: bool)
    requires Slots(ns, |cells|) && Distinct(ns) && k < |ns|
    requires Slots(open0, |nodes0|) && Slots(closed, |nodes0|) && Slots(listed, |nodes0|)
    requires forall i :: i in listed <==> i in closed || i in open0
    requires found == Fresh(cells, nodes0, listed, ns[..k]) && c < |nodes0| && goalTile < |cells|
    requires cur == AfterExplore(cells, found)
    requires nodes == nodes0 + Spawn(cells, found, c, cost, cells[goalTile]) && open == open0 + Indices(|nodes0|, |found|)
    requires admit == (cells[ns[k]].OneOf(PathStates) && !InList(nodes0, listed, ns[k]))
    requires admit ==>
      && nodes' == nodes + [ChildNode(cur, ns[k], c, cost, cur[goalTile])]
      && open' == open + [|nodes|]
      && cur' == cur[ns[k] := ExploreTile(cur[ns[k]])]
    requires !admit ==> nodes' == nodes && open' == open && cur' == cur
    ensures var found' := if admit then found + [ns[k]] else found;
      && found' == Fresh(cells, nodes0, listed, ns[..k + 1])
      && nodes' == nodes0 + Spawn(cells, found', c, cost, cells[goalTile])
      && open' == open0 + Indices(|nodes0|, |found'|)
      && cur' == AfterExplore(cells, found')
  {
    var j := ns[k];
    NeighborUnseen(cells, nodes0, listed, ns, k);
    if admit {
      ExploreSnoc(cells, found, j);
      ExpandGrow(cells, cur, nodes0, open0, found, j, c, cost, goalTile);
    }
  }

  /** Neighbour ns[k] is not among those found before it, and Fresh takes it exactly when it is admitted. */
  lemma NeighborUnseen(cells: seq<Tile>, nodes: seq<PathfindNode>, listed: seq<nat>, ns: seq<nat>, k: nat)
    requires Slots(ns, |cells|) && Distinct(ns) && Slots(listed, |nodes|) && k < |ns|
    ensures Slots(ns[..k], |cells|)
    ensures ns[k] !in Fresh(cells, nodes, listed, ns[..k])
    ensures var admit := cells[ns[k]].OneOf(PathStates) && !InList(nodes, listed, ns[k]);
      && (!admit ==> Fresh(cells, nodes, listed, ns[..k + 1]) == Fresh(cells, nodes, listed, ns[..k]))
      && (admit ==> Fresh(cells, nodes, listed, ns[..k + 1]) == Fresh(cells, nodes, listed, ns[..k]) + [ns[k]])
  {
    var found := Fresh(cells, nodes, listed, ns[..k]);
    FreshSnoc(cells, nodes, listed, ns, k);
    FreshSpec(cells, nodes, listed, ns[..k]);
    assert ns[k] !in found by {
      assert forall i :: 0 <= i < k ==> ns[..k][i] != ns[k];
    }
    assert found + [] == found;
  }

  /** Exploring one more tile j updates that tile alone. */
  lemma ExploreSnoc(cells: seq<Tile>, found: seq<nat>, j: nat)
    requires j < |cells| && j !in found
    ensures AfterExplore(cells, found)[j] == cells[j]
    ensures AfterExplore(cells, found + [j]) == AfterExplore(cells, found)[j := ExploreTile(cells[j])]
  {
    var before, after := AfterExplore(cells, found), AfterExplore(cells, found + [j]);
    forall i | 0 <= i < |cells| ensures after[i] == before[j := ExploreTile(cells[j])][i] {
      assert (i in found + [j]) <==> (i in found || i == j);
    }
  }

  lemma IndicesSnoc(s: seq<nat>, m: nat, n: nat, n': nat, last: nat)
    requires n' == n + 1 && last == m + n
    ensures s + Indices(m, n') == s + Indices(m, n) + [last]
  {
  }

  /** Moving node c from open to closed keeps both lists inside the arena and lists the same nodes. */
  lemma MoveToClosed(m: nat, open: seq<nat>, closed: seq<nat>, c: nat)
    requires Slots(open, m) && Slots(closed, m) && c in open
    ensures Slots(Without(open, {c}), m) && Slots(closed + [c], m) && Slots(closed + open, m)
    ensures forall k :: k in closed + open <==> k in closed + [c] || k in Without(open, {c})
  {
    SlotsMembers(open, m);
    SlotsMembers(Without(open, {c}), m);
    SlotsMembers(closed + [c], m);
    SlotsConcat(closed, open, m);
  }

  /** Reaching the goal: the chosen open node becomes `@end`, which keeps the search invariant. */
  lemma GoalKeeps(b: Board, n: int, nodes: seq<PathfindNode>, open: seq<nat>, closed: seq<nat>, end: Option<PathfindNode>, c: nat)
    requires Search(b, n, nodes, open, closed, end) && c in open
    ensures c < |nodes| && Search(b, n, nodes, open, closed, Some(nodes[c]))
  {
    assert NodeOk(b, nodes, n, c);
  }

  /** One round of trace_path: the node's tile, unless END_POINT, then its parent's chain. */
  lemma TraceStep(cells: seq<Tile>, nodes: seq<PathfindNode>, node: PathfindNode, n: int)
    requires Rooted(nodes) && OnCells(nodes, n) && node.tile < n && |cells| == n
    requires node.parent.Some? && node.parent.value < |nodes|
    ensures cells[node.tile].IsEnd() ==> NotEnd(cells, Chain(nodes, node, n)) == NotEnd(cells, Chain(nodes, nodes[node.parent.value], n))
    ensures !cells[node.tile].IsEnd() ==> NotEnd(cells, Chain(nodes, node, n)) == [node.tile] + NotEnd(cells, Chain(nodes, nodes[node.parent.value], n))
  {
    var ch := Chain(nodes, node, n);
    assert ch[0] == node.tile && ch[1..] == Chain(nodes, nodes[node.parent.value], n);
  }

  /** The loop of trace_path, walking the parents of `node` over the tiles of `elements`. */
  method TraceFrom(elements: array<Tile>, nodes: seq<PathfindNode>, node: PathfindNode) returns (path: seq<nat>)
    requires Rooted(nodes) && OnCells(nodes, elements.Length) && node.tile < elements.Length
    requires node.parent.Some? ==> node.parent.value < |nodes|
    ensures path == NotEnd(elements[..], Chain(nodes, node, elements.Length))
  {
    ghost var cells := elements[..];
    ghost var n := elements.Length;
    path := [];
    var at := node;
    while at.parent.Some?
      invariant at.tile < n && (at.parent.Some? ==> at.parent.value < |nodes|)
      invariant NotEnd(cells, Chain(nodes, node, n)) == path + NotEnd(cells, Chain(nodes, at, n))
      decreases if at.parent.Some? then at.parent.value + 1 else 0
    {
      var curr := at.tile;
      var next := nodes[at.parent.value];
      TraceStep(cells, nodes, at, n);
      if !elements[curr].IsEnd() {
        ConcatAssoc(path, [curr], NotEnd(cells, Chain(nodes, next, n)));
        path := path + [curr];
      }
      at := next;
    }
  }

  class Pathfinding {
    /** `@tile_grid` */
    const tileGrid: Grid
    /** Every node created so far; open, closed, parents and `start` index into it. */
    var nodes: seq<PathfindNode>
    var open: seq<nat>
    var closed: seq<nat>
    var start: Option<nat>
    var end: Option<PathfindNode>
    var working: bool
    const pathCheckStates: seq<TileState>
    const clearCheckStates: seq<TileState>

    ghost predicate Valid()
      reads this, tileGrid, tileGrid.elements, tileGrid.neighbors
    {
      && tileGrid.Valid()
      && pathCheckStates == PathStates && clearCheckStates == ClearStates
      && Search(tileGrid.Shape(), tileGrid.elements.Length, nodes, open, closed, end)
      && (start.Some? ==> start.value < |nodes|)
    }

    /** Pathfinding.new(tile_grid): nothing open or closed, no start or goal, not working. */
    constructor (tileGrid: Grid)
      requires tileGrid.Valid()
      ensures this.tileGrid == tileGrid
      ensures nodes == [] && open == [] && closed == []
      ensures start.None? && end.None? && !working
      ensures Valid()
    {
      this.tileGrid := tileGrid;
      nodes, open, closed := [], [], [];
      start, end := None, None;
      working := false;
      pathCheckStates := PathStates;
      clearCheckStates := ClearStates;
    }

    /**
     * clear: open and closed are emptied and every EXPLORED, START_POINT,
     * END_POINT or PATH tile becomes FLOOR; `working` is not reset.
     */
    method Clear()
      requires Valid()
      modifies this`open, this`closed, tileGrid.elements
      ensures Valid()
      ensures open == [] && closed == [] && working == old(working)
      ensures forall i :: 0 <= i < tileGrid.elements.Length ==> tileGrid.elements[i] == ClearOne(old(tileGrid.elements[i]))
    {
      open := [];
      closed := [];
      var elements := tileGrid.elements;
      ClearTiles(elements, clearCheckStates);
      assert tileGrid.Valid() by {
        forall j | 0 <= j < elements.Length ensures tileGrid.Placed(elements[j], j) {
          ClearOneSpec(old(elements[j]));
        }
      }
    }

    /**
     * begin_scan(start, goal): a node for the start tile, cost 0, joins open,
     * a node for the goal tile becomes `@end`, and the search is working.
     * Its caller (processing/window.rb) starts a scan only after `clear` or
     * on a fresh searcher, so open and closed are empty.
     */
    method BeginScan(startTile: nat, endTile: nat)
      requires Valid() && startTile < tileGrid.elements.Length && endTile < tileGrid.elements.Length
      requires open == [] && closed == []
      modifies this
      ensures Valid()
      ensures nodes == old(nodes) + [NewNode(startTile)] && start == Some(|old(nodes)|)
      ensures end == Some(NewNode(endTile))
      ensures open == [|old(nodes)|] && closed == []
      ensures working
    {
      var s := NewNode(startTile);
      var e := NewNode(endTile);
      nodes := nodes + [s];
      start := Some(|nodes| - 1);
      end := Some(e);
      // cost_from_start and total_cost are already 0
      open := open + [|nodes| - 1];
      working := true;
      ArenaRoot(tileGrid.Shape(), old(nodes), tileGrid.elements.Length, startTile);
    }

    /** heuristic(node): the squared distance from the node's tile to the goal's. */
    function Heuristic(node: PathfindNode): (h: nat)
      reads this, tileGrid.elements
      requires end.Some? && node.tile < tileGrid.elements.Length && end.value.tile < tileGrid.elements.Length
      ensures h == 0 <==> tileGrid.elements[node.tile].x == tileGrid.elements[end.value.tile].x
                          && tileGrid.elements[node.tile].y == tileGrid.elements[end.value.tile].y
    {
      SqDistance(tileGrid.elements[node.tile], tileGrid.elements[end.value.tile])
    }

    /** On a valid grid the heuristic is 0 exactly on the goal's own tile. */
    lemma HeuristicZero(node: PathfindNode)
      requires Valid() && end.Some? && node.tile < tileGrid.elements.Length
      ensures Heuristic(node) == 0 <==> node.tile == end.value.tile
    {
      var b := tileGrid.Shape();
      var g := end.value.tile;
      assert tileGrid.Placed(tileGrid.elements[node.tile], node.tile);
      assert tileGrid.Placed(tileGrid.elements[g], g);
      b.CoordOfRoundTrip(node.tile);
      b.CoordOfRoundTrip(g);
    }

    /** The goal tile of the current search, for best_option's comparison. */
    function Goal(): Tile
      reads this, tileGrid.elements
      requires end.Some? && end.value.tile < tileGrid.elements.Length
    {
      tileGrid.elements[end.value.tile]
    }

    /** The node best_option picks. */
    ghost function Chosen(): nat
      reads this, tileGrid, tileGrid.elements, tileGrid.neighbors
      requires Valid() && open != []
    {
      open[BestAt(tileGrid.elements[..], nodes, open, Goal())]
    }

    /** The neighbours step discovers for node c of the open list. */
    ghost function Discovered(c: nat): (ts: seq<nat>)
      reads this, tileGrid, tileGrid.elements, tileGrid.neighbors
      requires Valid() && c in open
      ensures Slots(ts, tileGrid.elements.Length)
    {
      tileGrid.Shape().NeighborListBounded(nodes[c].tile);
      SlotsConcat(closed, open, |nodes|);
      Fresh(tileGrid.elements[..], nodes, closed + open, tileGrid.Shape().NeighborList(nodes[c].tile))
    }

    /** The nodes step creates for them. */
    ghost function Offspring(c: nat): seq<PathfindNode>
      reads this, tileGrid, tileGrid.elements, tileGrid.neighbors
      requires Valid() && c in open
    {
      Spawn(tileGrid.elements[..], Discovered(c), c, nodes[c].costFromStart, Goal())
    }

    /**
     * step. With nothing open the search stops and fails. Otherwise the
     * node best_option picks is the goal, which ends the search with it as
     * `@end`; or it moves from open to closed and its discovered neighbours
     * join open as its children, each turned EXPLORED unless END_POINT.
     */
    method Step() returns (reached: bool)
      requires Valid()
      modifies this, tileGrid.elements
      ensures Valid()
      ensures old(open) == [] ==>
        && !reached && !working
        && nodes == old(nodes) && open == old(open) && closed == old(closed) && end == old(end)
        && tileGrid.elements[..] == old(tileGrid.elements[..])
      ensures old(open) != [] && old(nodes[Chosen()].tile) == old(end.value.tile) ==>
        && reached && !working && end == Some(old(nodes[Chosen()]))
        && nodes == old(nodes) && open == old(open) && closed == old(closed)
        && tileGrid.elements[..] == old(tileGrid.elements[..])
      ensures old(open) != [] && old(nodes[Chosen()].tile) != old(end.value.tile) ==>
        && !reached && working == old(working) && end == old(end)
        && closed == old(closed) + [old(Chosen())]
        && nodes == old(nodes) + old(Offspring(Chosen()))
        && open == Without(old(open), {old(Chosen())}) + Indices(|old(nodes)|, |old(Discovered(Chosen()))|)
        && tileGrid.elements[..] == AfterExplore(old(tileGrid.elements[..]), old(Discovered(Chosen())))
      ensures start == old(start)
    {
      if open == [] {
        working := false;
        return false;
      }
      var curr := BestOption();
      if nodes[curr].tile == end.value.tile {
        GoalKeeps(tileGrid.Shape(), tileGrid.elements.Length, nodes, open, closed, end, curr);
        end := Some(nodes[curr]);
        working := false;
        return true;
      }
      Advance(curr);
      reached := false;
    }

    /** The non-final branch of step for the chosen node c. */
    method Advance(c: nat)
      requires Valid() && c in open
      modifies this`nodes, this`open, this`closed, tileGrid.elements
      ensures Valid()
      ensures closed == old(closed) + [c]
      ensures nodes == old(nodes) + old(Offspring(c))
      ensures open == Without(old(open), {c}) + Indices(|old(nodes)|, |old(Discovered(c))|)
      ensures tileGrid.elements[..] == AfterExplore(old(tileGrid.elements[..]), old(Discovered(c)))
    {
      ghost var listed := closed + open;
      ghost var cells := tileGrid.elements[..];
      ghost var cost, goal := nodes[c].costFromStart, Goal();
      ghost var ts := Discovered(c);
      ghost var nodes1 := nodes + Spawn(cells, ts, c, cost, goal);
      assert nodes1 == nodes + Offspring(c);
      ghost var open1 := Without(open, {c}) + Indices(|nodes|, |ts|);
      ghost var closed1 := closed + [c];
      StepKeeps(tileGrid.Shape(), tileGrid.elements.Length, cells, nodes, open, closed, end, c, listed, cost, goal);
      assert tileGrid.Placed(cells[nodes[c].tile], nodes[c].tile) by { assert cells[nodes[c].tile] == tileGrid.elements[nodes[c].tile]; }
      AdvanceLists(c, listed, cells, cost, goal, ts);
      ExploredPlaced(cells, ts);
    }

    /** Advance's changes to the lists, the arena and the tiles, on the facts about them that they need. */
    method AdvanceLists(c: nat, ghost listed: seq<nat>, ghost cells: seq<Tile>, ghost cost: int, ghost goal: Tile, ghost ts: seq<nat>)
      requires pathCheckStates == PathStates && tileGrid.Wired()
      requires c in open && c < |nodes| && OnCells(nodes, tileGrid.elements.Length)
      requires Slots(open, |nodes|) && Slots(closed, |nodes|) && listed == closed + open
      requires end.Some? && end.value.tile < tileGrid.elements.Length
      requires cells == tileGrid.elements[..] && cost == nodes[c].costFromStart && goal == Goal()
      requires tileGrid.Placed(cells[nodes[c].tile], nodes[c].tile)
      requires ts == Fresh(cells, nodes, listed, tileGrid.Shape().NeighborList(nodes[c].tile))
      modifies this`nodes, this`open, this`closed, tileGrid.elements
      ensures closed == old(closed) + [c]
      ensures nodes == old(nodes) + Spawn(cells, ts, c, cost, goal)
      ensures open == Without(old(open), {c}) + Indices(|old(nodes)|, |ts|)
      ensures tileGrid.elements[..] == AfterExplore(cells, ts)
    {
      MoveToClosed(|nodes|, open, closed, c);
      open := Without(open, {c});
      closed := closed + [c];
      var ns := tileGrid.GetNeighbors(nodes[c].tile, None);
      tileGrid.Shape().NeighborListBounded(nodes[c].tile);
      tileGrid.Shape().NeighborListDistinct(nodes[c].tile);
      Expand(c, ns, listed, cells, cost, goal);
    }

    /** Exploring tiles never moves them, so the grid stays valid. */
    lemma ExploredPlaced(cells: seq<Tile>, ts: seq<nat>)
      requires tileGrid.Wired() && |cells| == tileGrid.elements.Length
      requires forall i :: 0 <= i < |cells| ==> tileGrid.Placed(cells[i], i)
      requires tileGrid.elements[..] == AfterExplore(cells, ts)
      ensures tileGrid.Valid()
    {
      forall i | 0 <= i < tileGrid.elements.Length ensures tileGrid.Placed(tileGrid.elements[i], i) {
        assert tileGrid.elements[i] == tileGrid.elements[..][i] == ExploreOne(cells, ts, i);
      }
    }

    /**
     * One neighbour of step's loop: an admitted tile gets a new open node,
     * child of node c, and turns EXPLORED unless it is END_POINT; any other
     * neighbour changes nothing.
     */
    method Discover(c: nat, neighbor: nat, ghost admit: bool, ghost cur: seq<Tile>, ghost cost: int, ghost goal: Tile)
      requires pathCheckStates == PathStates
      requires c < |nodes| && neighbor < tileGrid.elements.Length
      requires Slots(open, |nodes|) && Slots(closed, |nodes|)
      requires cur == tileGrid.elements[..] && cost == nodes[c].costFromStart
      requires admit == Admits(cur, nodes, closed, open, neighbor)
      requires end.Some? && end.value.tile < tileGrid.elements.Length && goal == Goal()
      modifies this`nodes, this`open, tileGrid.elements
      ensures admit ==>
        && nodes == old(nodes) + [ChildNode(cur, neighbor, c, cost, goal)]
        && open == old(open) + [|old(nodes)|]
        && tileGrid.elements[..] == cur[neighbor := ExploreTile(cur[neighbor])]
      ensures !admit ==>
        nodes == old(nodes) && open == old(open) && tileGrid.elements[..] == cur
    {
      var elements := tileGrid.elements;
      if elements[neighbor].OneOf(pathCheckStates) {
        if !InList(nodes, closed, neighbor) {
          var node := NewNode(neighbor);
          node := node.(totalCost := nodes[c].costFromStart + Heuristic(node));
          if !InList(nodes, open, neighbor) {
            if !elements[neighbor].IsEnd() {
              elements[neighbor] := elements[neighbor].Become(Explored);
            }
            node := node.(parent := Some(c));
            nodes := nodes + [node];
            open := open + [|nodes| - 1];
          }
        }
      }
    }

    /**
     * The neighbour loop of step for the chosen node c with recorded
     * neighbours ns. `listed` is closed and open as the step found them.
     */
    method Expand(c: nat, ns: seq<nat>, ghost listed: seq<nat>, ghost cells: seq<Tile>, ghost cost: int, ghost goal: Tile)
      requires pathCheckStates == PathStates
      requires c < |nodes| && OnCells(nodes, tileGrid.elements.Length)
      requires Slots(ns, tileGrid.elements.Length) && Distinct(ns)
      requires Slots(open, |nodes|) && Slots(closed, |nodes|) && Slots(listed, |nodes|)
      requires forall k :: k in listed <==> k in closed || k in open
      requires end.Some? && end.value.tile < tileGrid.elements.Length
      requires cells == tileGrid.elements[..] && cost == nodes[c].costFromStart && goal == Goal()
      modifies this`nodes, this`open, tileGrid.elements
      ensures nodes == old(nodes) + Spawn(cells, Fresh(cells, old(nodes), listed, ns), c, cost, goal)
      ensures open == old(open) + Indices(|old(nodes)|, |Fresh(cells, old(nodes), listed, ns)|)
      ensures tileGrid.elements[..] == AfterExplore(cells, Fresh(cells, old(nodes), listed, ns))
    {
      ghost var nodes0, open0 := nodes, open;
      ghost var found: seq<nat> := [];
      assert Fresh(cells, nodes0, listed, ns[..0]) == [];
      assert AfterExplore(cells, []) == cells;
      var k := 0;
      while k < |ns|
        invariant 0 <= k <= |ns|
        invariant Round(cells, nodes0, open0, listed, ns, k, found, c, cost, goal)
      {
        found := ExpandRound(c, ns, k, cells, nodes0, open0, listed, found, cost);
        k := k + 1;
      }
      assert ns[..k] == ns;
    }

    /** The state of step's neighbour loop after its first k rounds. */
    ghost predicate Round(cells: seq<Tile>, nodes0: seq<PathfindNode>, open0: seq<nat>, listed: seq<nat>, ns: seq<nat>,
                          k: nat, found: seq<nat>, c: nat, cost: int, goal: Tile)
      reads this, tileGrid.elements
    {
      && k <= |ns| && Slots(ns, |cells|) && Slots(listed, |nodes0|)
      && found == Fresh(cells, nodes0, listed, ns[..k])
      && nodes == nodes0 + Spawn(cells, found, c, cost, goal)
      && open == open0 + Indices(|nodes0|, |found|)
      && tileGrid.elements[..] == AfterExplore(cells, found)
    }

    /** Round k + 1 of step's neighbour loop: neighbour ns[k]. */
    method ExpandRound(c: nat, ns: seq<nat>, k: nat, ghost cells: seq<Tile>, ghost nodes0: seq<PathfindNode>, ghost open0: seq<nat>,
                       ghost listed: seq<nat>, ghost found: seq<nat>, ghost cost: int) returns (ghost found': seq<nat>)
      requires pathCheckStates == PathStates
      requires end.Some? && end.value.tile < |cells|
      requires Slots(ns, |cells|) && Distinct(ns) && k < |ns|
      requires Slots(open0, |nodes0|) && Slots(closed, |nodes0|) && Slots(listed, |nodes0|)
      requires forall i :: i in listed <==> i in closed || i in open0
      requires c < |nodes0| && cost == nodes0[c].costFromStart
      requires Round(cells, nodes0, open0, listed, ns, k, found, c, cost, cells[end.value.tile])
      modifies this`nodes, this`open, tileGrid.elements
      ensures Round(cells, nodes0, open0, listed, ns, k + 1, found', c, cost, cells[end.value.tile])
    {
      var neighbor := ns[k];
      ghost var admit := cells[neighbor].OneOf(PathStates) && !InList(nodes0, listed, neighbor);
      ghost var cur, nodes1, open1 := tileGrid.elements[..], nodes, open;
      ExpandAdmit(cells, cur, nodes0, open0, closed, listed, ns, k, found, c, cost, cells[end.value.tile]);
      Discover(c, neighbor, admit, cur, cost, cur[end.value.tile]);
      found' := if admit then found + [neighbor] else found;
      RoundStep(cells, cur, nodes0, open0, closed, listed, ns, k, found, c, cost, end.value.tile,
                nodes1, open1, nodes, open, tileGrid.elements[..], admit);
    }

    /** best_option: the earliest open node nearest the goal (`min_cost > total_cost` keeps the first of a tie). */
    method BestOption() returns (best: nat)
      requires Valid() && open != []
      ensures best == Chosen()
    {
      ghost var cs, goal := tileGrid.elements[..], Goal();
      assert forall k :: 0 <= k < |open| ==> NodeOk(tileGrid.Shape(), nodes, |cs|, open[k]);
      var choice := ScanOpen(cs, goal);
      best := choice.value;
    }

    /** best_option's loop over the open list, on the facts about it that the loop needs. */
    method ScanOpen(ghost cs: seq<Tile>, ghost goal: Tile) returns (choice: Option<nat>)
      requires open != [] && Slots(open, |nodes|) && OnCells(nodes, |cs|)
      requires forall k :: 0 <= k < |open| ==> nodes[open[k]].costFromStart == 0
      requires end.Some? && end.value.tile < |cs| && cs == tileGrid.elements[..] && goal == cs[end.value.tile]
      ensures choice == Some(open[BestAt(cs, nodes, open, goal)])
    {
      var minCost: Option<int> := None;  // Float::INFINITY
      choice := None;
      var k := 0;
      ghost var p: nat := 0;
      while k < |open|
        invariant 0 <= k <= |open|
        invariant Scanned(cs, goal, k, p, minCost, choice)
      {
        minCost, choice, p := Consider(k, minCost, choice, cs, goal, p);
        k := k + 1;
      }
      assert open[..k] == open;
    }

    /**
     * best_option after the first k open nodes: nothing chosen yet, or the
     * choice is the earliest of them nearest the goal and minCost its score.
     */
    ghost predicate Scanned(cs: seq<Tile>, goal: Tile, k: nat, p: nat, minCost: Option<int>, choice: Option<nat>)
      reads this
    {
      && k <= |open| && Slots(open, |nodes|) && OnCells(nodes, |cs|)
      && (k == 0 ==> minCost.None? && choice.None?)
      && (k > 0 ==>
        && p == BestAt(cs, nodes, open[..k], goal) && p < k
        && choice == Some(open[p]) && minCost == Some(Score(cs, nodes[open[p]].tile, goal)))
    }

    /** One node of best_option's loop: open[k] becomes the choice when it scores strictly less. */
    method Consider(k: nat, minCost: Option<int>, choice: Option<nat>, ghost cs: seq<Tile>, ghost goal: Tile, ghost p: nat)
      returns (minCost': Option<int>, choice': Option<nat>, ghost p': nat)
      requires k < |open| && Slots(open, |nodes|) && OnCells(nodes, |cs|) && nodes[open[k]].costFromStart == 0
      requires end.Some? && end.value.tile < |cs| && cs == tileGrid.elements[..] && goal == cs[end.value.tile]
      requires Scanned(cs, goal, k, p, minCost, choice)
      ensures Scanned(cs, goal, k + 1, p', minCost', choice')
    {
      var node := nodes[open[k]];
      var totalCost := node.costFromStart + Heuristic(node);
      assert totalCost == Score(cs, nodes[open[k]].tile, goal);
      BestAtStep(cs, nodes, open, k, goal);
      minCost', choice', p' := minCost, choice, p;
      if minCost.None? || minCost.value > totalCost {
        minCost' := Some(totalCost);
        choice' := Some(open[k]);
        p' := k;
      }
    }

    /**
     * trace_path: the tiles from `@end` back along the parents, stopping
     * before the parentless start node, END_POINT tiles left out.
     */
    method TracePath() returns (path: seq<nat>)
      requires Valid() && end.Some?
      ensures path == NotEnd(tileGrid.elements[..], Chain(nodes, end.value, tileGrid.elements.Length))
    {
      path := TraceFrom(tileGrid.elements, nodes, end.value);
    }

    /**
     * The search ends: closed never holds more nodes than the grid has
     * tiles, and every step that neither stops nor reaches the goal adds one.
     */
    lemma ClosedBounded()
      requires Valid()
      ensures |closed| <= tileGrid.elements.Length
    {
      var n := tileGrid.elements.Length;
      var closed, nodes := closed, nodes;
      var ts: seq<nat> := seq(|closed|, i requires 0 <= i < |closed| => nodes[closed[i]].tile);
      forall i | 0 <= i < |closed| ensures ts[i] < n {
        assert NodeOk(tileGrid.Shape(), nodes, n, closed[i]);
      }
      assert Distinct(ts) by {
        forall a, d | 0 <= a < d < |ts| ensures ts[a] != ts[d] {
          assert closed[a] in open + closed && closed[d] in open + closed;
        }
      }
      DistinctBound(ts, n);
    }
  }
}
