/** `BFSMazeSolver`: breadth-first search over the rows of the maze text,
    split on '\n' and not trimmed. `visited` and `parent` are sized by the
    first row; a reachable cell beyond it makes the array access throw. */
module BfsMazeSolver {
  import opened Outcomes
  import opened Seqs
  import opened Text
  import opened Grid
  import opened PathFormat

  /** `FindPoint`: the first row holding `point` and the first index of it there, or (-1, -1). */
  method FindPoint(maze: string, point: char) returns (r: Pos)
    ensures var rows := Split(maze, '\n');
      (r == (-1, -1) && !Has(rows, point)) || IsFirst(rows, point, r)
  {
    var rows := Split(maze, '\n');
    var i := 0;
    while i < |rows|
      invariant 0 <= i <= |rows|
      invariant forall k :: 0 <= k < i ==> point !in rows[k]
    {
      var index := IndexOf(rows[i], point);
      if index != -1 {
        return (i, index);
      }
      i := i + 1;
    }
    return (-1, -1);
  }

  /** `IsValidMove`: inside the rows, not a wall, and not yet visited; reading
      `visited` past its bounds throws. */
  function IsValidMove(x: int, y: int, rows: Rows, visited: array2<bool>): (r: Outcome<bool>)
    reads visited
    ensures r.Threw? <==> Open(rows, (x, y)) && !(x < visited.Length0 && y < visited.Length1)
    ensures r == Returned(true) <==>
      Open(rows, (x, y)) && x < visited.Length0 && y < visited.Length1 && !visited[x, y]
  {
    if Open(rows, (x, y)) then
      if x < visited.Length0 && y < visited.Length1 then Returned(!visited[x, y])
      else Threw(IndexOutOfRangeException)
    else Returned(false)
  }

  /** Each recorded cell other than the start points back to an adjacent
      recorded cell one level closer to the start. */
  ghost predicate ParentLinks(rows: Rows, parent: array2<Pos>, start: Pos, dist: map<Pos, nat>)
    reads parent
  {
    && start in dist && dist[start] == 0
    && (forall v :: v in dist ==> Open(rows, v) && 0 <= v.0 < parent.Length0 && 0 <= v.1 < parent.Length1)
    && (forall v {:trigger parent[v.0, v.1]} :: v in dist && v != start ==>
          && parent[v.0, v.1] in dist && Adjacent(parent[v.0, v.1], v)
          && dist[parent[v.0, v.1]] + 1 == dist[v])
  }

  /** The cells followed back from the goal so far, `current` next: a walk
      from the goal whose `i`-th cell is `dist[goal] - i` moves from the start. */
  ghost predicate Chain(rows: Rows, dist: map<Pos, nat>, goal: Pos, cells: seq<Pos>, current: Pos) {
    && current in dist && goal in dist
    && |cells| + dist[current] == dist[goal]
    && (forall i :: 0 <= i < |cells| ==> cells[i] in dist && dist[cells[i]] == dist[goal] - i)
    && IsWalk(rows, cells + [current]) && (cells + [current])[0] == goal
  }

  /** Following one more parent link keeps the chain. */
  lemma ChainStep(rows: Rows, parent: array2<Pos>, start: Pos, dist: map<Pos, nat>, goal: Pos, cells: seq<Pos>, current: Pos)
    requires ParentLinks(rows, parent, start, dist) && Chain(rows, dist, goal, cells, current) && current != start
    ensures Chain(rows, dist, goal, cells + [current], parent[current.0, current.1])
  {
    var next := parent[current.0, current.1];
    var w := cells + [current];
    assert w + [next] == cells + [current] + [next];
    assert forall i :: 0 <= i < |w| ==> (w + [next])[i] == w[i];
  }

  /** A chain that has reached the start, read backwards, is a simple path
      of `dist[goal]` moves. */
  lemma ChainDone(rows: Rows, start: Pos, dist: map<Pos, nat>, goal: Pos, cells: seq<Pos>)
    requires Chain(rows, dist, goal, cells, start) && dist[start] == 0
    ensures IsSimplePath(rows, Reverse(cells + [start]), start, goal) && |Reverse(cells + [start])| == dist[goal] + 1
  {
    var w := cells + [start];
    assert Distinct(w) by {
      forall i, j | 0 <= i < j < |w| ensures w[i] != w[j] {
        assert dist[w[i]] == dist[goal] - i;
      }
    }
    ReverseWalk(rows, w);
    assert w[|w| - 1] == start && w[0] == goal;
  }

  /** `ReconstructPath`: follows the parent links from the goal back to the
      start, then reverses; the result is a path of `dist[goal]` moves. */
  method ReconstructPath(parent: array2<Pos>, start: Pos, goal: Pos, ghost rows: Rows, ghost dist: map<Pos, nat>)
    returns (text: string, ghost path: seq<Pos>)
    requires ParentLinks(rows, parent, start, dist) && goal in dist
    ensures IsSimplePath(rows, path, start, goal) && |path| == dist[goal] + 1
    ensures text == Render(" -> ", path)
  {
    var items: seq<string> := [];
    ghost var cells: seq<Pos> := [];
    var current := goal;
    while current != start
      invariant Chain(rows, dist, goal, cells, current)
      invariant items == PosTexts(cells)
      decreases dist[current]
    {
      var next := parent[current.0, current.1];
      ChainStep(rows, parent, start, dist, goal, cells, current);
      PosTextsAppend(cells, current);
      items := items + [PosText(current)];
      cells := cells + [current];
      current := next;
    }
    ChainDone(rows, start, dist, goal, cells);
    PosTextsAppend(cells, start);
    items := items + [PosText(start)];
    cells := cells + [start];
    ReversePosTexts(cells);
    items := Reverse(items);
    path := Reverse(cells);
    text := Join(" -> ", items);
  }

  /** `idx` gives each recorded cell its place in `hist`, so no cell is recorded twice. */
  ghost predicate Indexed(hist: seq<Pos>, dist: map<Pos, nat>, idx: map<Pos, nat>) {
    && idx.Keys == dist.Keys
    && (forall i :: 0 <= i < |hist| ==> hist[i] in idx && idx[hist[i]] == i)
    && (forall v :: v in idx ==> idx[v] < |hist| && hist[idx[v]] == v)
  }

  /** Dequeued cells are at most at level `d`; the queue holds level `d`
      before `mid` and level `d + 1` from `mid` on. */
  ghost predicate Levels(hist: seq<Pos>, head: nat, mid: nat, d: nat, dist: map<Pos, nat>) {
    && head <= mid <= |hist|
    && (forall i :: 0 <= i < head ==> hist[i] in dist && dist[hist[i]] <= d)
    && (forall i :: head <= i < mid ==> hist[i] in dist && dist[hist[i]] == d)
    && (forall i :: mid <= i < |hist| ==> hist[i] in dist && dist[hist[i]] == d + 1)
  }

  /** `dist[v]` is the number of moves to `v`, exactly: `v` is within
      `dist[v]` moves and not within `dist[v] - 1`; every cell within `d`
      moves is recorded. */
  ghost predicate Exact(rows: Rows, start: Pos, W: int, d: nat, dist: map<Pos, nat>) {
    && start in dist && dist[start] == 0
    && (forall v :: v in dist ==> Open(rows, v) && v.1 < W)
    && (forall v :: v in dist && dist[v] > 0 ==> !InReach(rows, start, dist[v] - 1, v))
    && (forall v :: InReach(rows, start, d, v) ==> v in dist)
  }

  /** The dequeued cells are not the goal and have had their open
      neighbours recorded, the last one only for its first `kk` directions. */
  ghost predicate Expanded(rows: Rows, goal: Pos, hist: seq<Pos>, head: nat, d: nat, dist: map<Pos, nat>, kk: int) {
    && head <= |hist|
    && (forall i, k :: 0 <= i < head && 0 <= k < 4 && (i < head - 1 || k < kk) && Open(rows, Step(hist[i], k)) ==>
          Step(hist[i], k) in dist)
    && (forall i :: 0 <= i < head ==> hist[i] != goal)
    && 0 <= kk <= 4 && (kk < 4 ==> 0 < head && hist[head - 1] in dist && dist[hist[head - 1]] == d)
  }

  /** The search state, on values: `hist` lists every cell ever enqueued,
      in order, and `queue` is `hist[head..]`. */
  ghost predicate Frontier(rows: Rows, start: Pos, goal: Pos, W: int, hist: seq<Pos>, head: nat, mid: nat,
                           d: nat, dist: map<Pos, nat>, idx: map<Pos, nat>, kk: int)
  {
    && Indexed(hist, dist, idx)
    && Levels(hist, head, mid, d, dist)
    && Exact(rows, start, W, d, dist)
    && Expanded(rows, goal, hist, head, d, dist, kk)
  }

  /** The recorded cells are distinct cells of the `R` by `W` array. */
  lemma HistBound(rows: Rows, start: Pos, goal: Pos, W: int, hist: seq<Pos>, head: nat, mid: nat,
                  d: nat, dist: map<Pos, nat>, idx: map<Pos, nat>, kk: int)
    requires Frontier(rows, start, goal, W, hist, head, mid, d, dist, idx, kk) && W >= 0
    ensures |hist| <= |rows| * W
  {
    forall i, j | 0 <= i < j < |hist| ensures hist[i] != hist[j] {
      assert idx[hist[i]] == i && idx[hist[j]] == j;
    }
    forall i | 0 <= i < |hist| ensures 0 <= hist[i].0 < |rows| && 0 <= hist[i].1 < W {
      assert hist[i] in dist;
    }
    DistinctInBox(hist, |rows|, W);
  }

  /** Dequeuing the first cell of the next level: every cell within `d + 1`
      moves is already recorded, because its predecessor within `d` moves
      has been dequeued and expanded. */
  lemma LevelAdvance(rows: Rows, start: Pos, goal: Pos, W: int, hist: seq<Pos>, head: nat,
                     d: nat, dist: map<Pos, nat>, idx: map<Pos, nat>)
    requires Frontier(rows, start, goal, W, hist, head, head, d, dist, idx, 4) && head < |hist|
    ensures forall v :: InReach(rows, start, d + 1, v) ==> v in dist
  {
    forall v | InReach(rows, start, d + 1, v) ensures v in dist {
      if !InReach(rows, start, d, v) {
        var p, k := ReachSource(rows, start, d, v);
        var i := idx[p];
        LevelBound(rows, start, p, dist[p], d);
        assert hist[i] == p && i < head;
      }
    }
  }

  /** Dequeuing `hist[head]`: the level moves on when the queue's front is at `d + 1`. */
  lemma Dequeue(rows: Rows, start: Pos, goal: Pos, W: int, hist: seq<Pos>, head: nat, mid: nat,
                d: nat, dist: map<Pos, nat>, idx: map<Pos, nat>) returns (mid': nat, d': nat)
    requires Frontier(rows, start, goal, W, hist, head, mid, d, dist, idx, 4)
    requires head < |hist| && hist[head] != goal
    ensures head == mid ==> mid' == |hist| && d' == d + 1
    ensures head < mid ==> mid' == mid && d' == d
    ensures Frontier(rows, start, goal, W, hist, head + 1, mid', d', dist, idx, 0)
  {
    if head == mid {
      LevelAdvance(rows, start, goal, W, hist, head, d, dist, idx);
      mid', d' := |hist|, d + 1;
    } else {
      mid', d' := mid, d;
    }
  }

  /** Recording a new cell at the end of `hist`. */
  lemma IndexedAppend(hist: seq<Pos>, dist: map<Pos, nat>, idx: map<Pos, nat>, next: Pos, n: nat)
    requires Indexed(hist, dist, idx) && next !in dist
    ensures Indexed(hist + [next], dist[next := n], idx[next := |hist|])
  {
    var hist', idx' := hist + [next], idx[next := |hist|];
    forall i | 0 <= i < |hist'| ensures hist'[i] in idx' && idx'[hist'[i]] == i {
      if i < |hist| {
        assert hist'[i] == hist[i];
      }
    }
  }

  /** A cell recorded at level `d + 1` joins the back of the queue. */
  lemma LevelsAppend(hist: seq<Pos>, head: nat, mid: nat, d: nat, dist: map<Pos, nat>, next: Pos)
    requires Levels(hist, head, mid, d, dist) && next !in dist
    ensures Levels(hist + [next], head, mid, d, dist[next := d + 1])
  {
    var hist' := hist + [next];
    assert forall i :: 0 <= i < |hist| ==> hist'[i] == hist[i];
  }

  /** A neighbour of a level-`d` cell that is not recorded is exactly `d + 1` moves away. */
  lemma ExactAppend(rows: Rows, start: Pos, W: int, d: nat, dist: map<Pos, nat>, u: Pos, k: int)
    requires Exact(rows, start, W, d, dist) && u in dist && dist[u] == d && 0 <= k < 4
    requires Open(rows, Step(u, k)) && Step(u, k).1 < W && Step(u, k) !in dist
    ensures Exact(rows, start, W, d, dist[Step(u, k) := d + 1])
  {
  }

  /** Direction `kk` of the last dequeued cell is done once its neighbour is recorded. */
  lemma ExpandedNext(rows: Rows, goal: Pos, hist: seq<Pos>, head: nat, d: nat, dist: map<Pos, nat>, kk: int,
                     hist': seq<Pos>, dist': map<Pos, nat>)
    requires Expanded(rows, goal, hist, head, d, dist, kk) && kk < 4
    requires hist <= hist' && dist.Keys <= dist'.Keys && hist[head - 1] in dist' && dist'[hist[head - 1]] == d
    requires !Open(rows, Step(hist[head - 1], kk)) || Step(hist[head - 1], kk) in dist'
    ensures Expanded(rows, goal, hist', head, d, dist', kk + 1)
  {
    forall i, k | 0 <= i < head && 0 <= k < 4 && (i < head - 1 || k < kk + 1) && Open(rows, Step(hist'[i], k))
      ensures Step(hist'[i], k) in dist'
    {
      assert hist'[i] == hist[i];
    }
    forall i | 0 <= i < head ensures hist'[i] != goal {
      assert hist'[i] == hist[i];
    }
  }

  /** Recording the unvisited open neighbour of the last dequeued cell in direction `kk`. */
  lemma Enqueue(rows: Rows, start: Pos, goal: Pos, W: int, hist: seq<Pos>, head: nat, mid: nat,
                d: nat, dist: map<Pos, nat>, idx: map<Pos, nat>, kk: int, next: Pos)
    requires Frontier(rows, start, goal, W, hist, head, mid, d, dist, idx, kk) && kk < 4
    requires next == Step(hist[head - 1], kk) && Open(rows, next) && next.1 < W && next !in dist
    ensures Frontier(rows, start, goal, W, hist + [next], head, mid, d, dist[next := d + 1], idx[next := |hist|], kk + 1)
  {
    var u := hist[head - 1];
    IndexedAppend(hist, dist, idx, next, d + 1);
    LevelsAppend(hist, head, mid, d, dist, next);
    ExactAppend(rows, start, W, d, dist, u, kk);
    ExpandedNext(rows, goal, hist, head, d, dist, kk, hist + [next], dist[next := d + 1]);
  }

  /** Passing over direction `kk` of the last dequeued cell: a wall, outside the maze, or recorded already. */
  lemma Skip(rows: Rows, start: Pos, goal: Pos, W: int, hist: seq<Pos>, head: nat, mid: nat,
             d: nat, dist: map<Pos, nat>, idx: map<Pos, nat>, kk: int)
    requires Frontier(rows, start, goal, W, hist, head, mid, d, dist, idx, kk) && kk < 4
    requires !Open(rows, Step(hist[head - 1], kk)) || Step(hist[head - 1], kk) in dist
    ensures Frontier(rows, start, goal, W, hist, head, mid, d, dist, idx, kk + 1)
  {
  }

  /** An empty queue: the recorded cells are closed under moves, hold the start and not the goal. */
  lemma Exhausted(rows: Rows, start: Pos, goal: Pos, W: int, hist: seq<Pos>, mid: nat,
                  d: nat, dist: map<Pos, nat>, idx: map<Pos, nat>)
    requires Frontier(rows, start, goal, W, hist, |hist|, mid, d, dist, idx, 4)
    ensures !Reachable(rows, start, goal)
  {
    forall p, k | p in dist.Keys && 0 <= k < 4 && Open(rows, Step(p, k)) ensures Step(p, k) in dist.Keys {
      assert hist[idx[p]] == p;
    }
    ClosedSeparates(rows, dist.Keys, start, goal);
  }

  /** A path of `n` moves to a cell not within `n - 1` moves is a shortest one. */
  lemma ShortestByLevel(rows: Rows, start: Pos, goal: Pos, path: seq<Pos>, n: nat)
    requires IsPath(rows, path, start, goal) && |path| == n + 1
    requires n > 0 ==> !InReach(rows, start, n - 1, goal)
    ensures IsShortestPath(rows, path, start, goal)
  {
    forall w | IsPath(rows, w, start, goal) ensures |path| <= |w| {
      WalkEndsInReach(rows, w);
      if |w| < |path| {
        ReachGrows(rows, start, |w| - 1, n - 1, goal);
      }
    }
  }

  /** The open neighbours of `u` outside `known` in its first `k`
      directions, in direction order: what expanding `u` enqueues. */
  function Fresh(rows: Rows, u: Pos, known: set<Pos>, k: int): (r: seq<Pos>)
    requires 0 <= k <= 4
    ensures forall v :: v in r ==> Open(rows, v) && v !in known && exists j :: 0 <= j < k && v == Step(u, j)
  {
    if k == 0 then []
    else
      var next := Step(u, k - 1);
      Fresh(rows, u, known, k - 1) + (if Open(rows, next) && next !in known then [next] else [])
  }

  /** Distinct directions lead to distinct cells, so direction `k` has not
      been enqueued by the directions before it. */
  lemma FreshBefore(rows: Rows, u: Pos, known: set<Pos>, k: int)
    requires 0 <= k < 4
    ensures Step(u, k) !in Fresh(rows, u, known, k)
  {
  }

  /** Marks `next` visited and records `u` as its parent, one level further from the start. */
  method Mark(visited: array2<bool>, parent: array2<Pos>, next: Pos, u: Pos,
              ghost rows: Rows, ghost start: Pos, ghost dist: map<Pos, nat>, ghost d: nat, ghost cells: seq<Pos>)
    requires 0 <= next.0 < visited.Length0 == parent.Length0 && 0 <= next.1 < visited.Length1 == parent.Length1
    requires ParentsAre(parent, cells, u) && next !in cells
    requires ParentLinks(rows, parent, start, dist) && next !in dist && Open(rows, next)
    requires u in dist && dist[u] == d && Adjacent(u, next)
    requires forall x, y :: 0 <= x < visited.Length0 && 0 <= y < visited.Length1 ==> (visited[x, y] <==> (x, y) in dist)
    modifies visited, parent
    ensures parent[next.0, next.1] == u
    ensures forall x, y {:trigger old(parent[x, y])} :: 0 <= x < parent.Length0 && 0 <= y < parent.Length1 && (x, y) != next ==>
              parent[x, y] == old(parent[x, y])
    ensures ParentLinks(rows, parent, start, dist[next := d + 1])
    ensures forall x, y :: 0 <= x < visited.Length0 && 0 <= y < visited.Length1 ==> (visited[x, y] <==> (x, y) in dist[next := d + 1])
    ensures ParentsAre(parent, cells + [next], u)
  {
    visited[next.0, next.1] := true;
    parent[next.0, next.1] := u;
    forall i | 0 <= i < |cells| ensures parent[cells[i].0, cells[i].1] == u {
      assert cells[i] in cells;
    }
  }

  /** A valid move from the dequeued cell `u` in direction `k`: the new
      cell is marked visited, given `u` as parent and enqueued. */
  method Record(rows: Rows, u: Pos, k: int, visited: array2<bool>, parent: array2<Pos>, queue: seq<Pos>,
                ghost start: Pos, ghost goal: Pos, W: int, ghost hist: seq<Pos>, ghost head: nat, ghost mid: nat,
                ghost d: nat, ghost dist: map<Pos, nat>, ghost idx: map<Pos, nat>, ghost cells: seq<Pos>)
    returns (q: seq<Pos>, ghost hist': seq<Pos>, ghost dist': map<Pos, nat>, ghost idx': map<Pos, nat>)
    requires |rows| > 0 && W == |rows[0]| && 0 <= k < 4
    requires visited.Length0 == |rows| && visited.Length1 == W && parent.Length0 == |rows| && parent.Length1 == W
    requires Frontier(rows, start, goal, W, hist, head, mid, d, dist, idx, k)
    requires 0 < head <= |hist| && u == hist[head - 1] && queue == hist[head..] && |hist| <= |rows| * W
    requires forall x, y :: 0 <= x < |rows| && 0 <= y < W ==> (visited[x, y] <==> (x, y) in dist)
    requires ParentLinks(rows, parent, start, dist)
    requires Open(rows, Step(u, k)) && Step(u, k).1 < W && Step(u, k) !in dist
    requires ParentsAre(parent, cells, u) && Step(u, k) !in cells
    modifies visited, parent
    ensures Frontier(rows, start, goal, W, hist', head, mid, d, dist', idx', k + 1)
    ensures q == hist'[head..] && hist'[head - 1] == u && |hist'| <= |rows| * W
    ensures forall x, y :: 0 <= x < |rows| && 0 <= y < W ==> (visited[x, y] <==> (x, y) in dist')
    ensures ParentLinks(rows, parent, start, dist')
    ensures var next := Step(u, k);
      hist' == hist + [next] && dist' == dist[next := d + 1] && parent[next.0, next.1] == u
    ensures ParentsAre(parent, cells + [Step(u, k)], u)
    ensures forall x, y {:trigger old(parent[x, y])} :: 0 <= x < |rows| && 0 <= y < W && (x, y) != Step(u, k) ==>
              parent[x, y] == old(parent[x, y])
  {
    var next := Step(u, k);
    Mark(visited, parent, next, u, rows, start, dist, d, cells);
    Enqueue(rows, start, goal, W, hist, head, mid, d, dist, idx, k, next);
    SuffixAppend(hist, next, head);
    hist', dist', idx' := hist + [next], dist[next := d + 1], idx[next := |hist|];
    HistBound(rows, start, goal, W, hist', head, mid, d, dist', idx', k + 1);
    q := queue + [next];
  }

  /** One step of the `foreach` over `Directions`: a valid move from the
      dequeued cell `u` in direction `k` is marked visited, given `u` as
      parent and enqueued; any other move changes nothing. */
  method Visit(rows: Rows, u: Pos, k: int, visited: array2<bool>, parent: array2<Pos>, queue: seq<Pos>,
               ghost start: Pos, ghost goal: Pos, W: int, ghost hist: seq<Pos>, ghost head: nat, ghost mid: nat,
               ghost d: nat, ghost dist: map<Pos, nat>, ghost idx: map<Pos, nat>, ghost cells: seq<Pos>)
    returns (r: Outcome<seq<Pos>>, ghost hist': seq<Pos>, ghost dist': map<Pos, nat>, ghost idx': map<Pos, nat>)
    requires |rows| > 0 && W == |rows[0]| && 0 <= k < 4
    requires visited.Length0 == |rows| && visited.Length1 == W && parent.Length0 == |rows| && parent.Length1 == W
    requires Frontier(rows, start, goal, W, hist, head, mid, d, dist, idx, k)
    requires 0 < head <= |hist| && u == hist[head - 1] && queue == hist[head..] && |hist| <= |rows| * W
    requires forall x, y :: 0 <= x < |rows| && 0 <= y < W ==> (visited[x, y] <==> (x, y) in dist)
    requires ParentLinks(rows, parent, start, dist)
    requires ParentsAre(parent, cells, u) && Step(u, k) !in cells
    modifies visited, parent
    ensures r.Threw? ==> r.exception == IndexOutOfRangeException && exists i :: 0 <= i < |rows| && |rows[i]| > W
    ensures r.Returned? ==>
      && Frontier(rows, start, goal, W, hist', head, mid, d, dist', idx', k + 1)
      && r.value == hist'[head..] && |hist'| <= |rows| * W && hist'[head - 1] == u
      && (forall x, y :: 0 <= x < |rows| && 0 <= y < W ==> (visited[x, y] <==> (x, y) in dist'))
      && ParentLinks(rows, parent, start, dist')
    ensures r.Returned? ==> var next := Step(u, k);
      if Open(rows, next) && next !in dist then
        hist' == hist + [next] && dist' == dist[next := d + 1] && parent[next.0, next.1] == u
      else hist' == hist && dist' == dist
    ensures r.Returned? ==> var next := Step(u, k);
      ParentsAre(parent, cells + if Open(rows, next) && next !in dist then [next] else [], u)
    ensures forall x, y {:trigger old(parent[x, y])} :: 0 <= x < |rows| && 0 <= y < W && (x, y) != Step(u, k) ==>
              parent[x, y] == old(parent[x, y])
  {
    hist', dist', idx' := hist, dist, idx;
    var next := Step(u, k);
    var valid := IsValidMove(next.0, next.1, rows, visited);
    if valid.Threw? {
      assert |rows[next.0]| > W;
      return Threw(valid.exception), hist', dist', idx';
    }
    if !valid.value {
      Skip(rows, start, goal, W, hist, head, mid, d, dist, idx, k);
      assert cells + [] == cells;
      return Returned(queue), hist', dist', idx';
    }
    var q;
    q, hist', dist', idx' := Record(rows, u, k, visited, parent, queue, start, goal, W, hist, head, mid, d, dist, idx, cells);
    return Returned(q), hist', dist', idx';
  }

  /** After the first `k` directions of `u`: `hist` and the recorded
      distances have grown by exactly the fresh neighbours of `u`, in
      direction order, each one level beyond `u`. */
  ghost predicate Grows(rows: Rows, u: Pos, hist: seq<Pos>, dist: map<Pos, nat>,
                        hist': seq<Pos>, dist': map<Pos, nat>, k: int)
    requires 0 <= k <= 4
  {
    var added := Fresh(rows, u, dist.Keys, k);
    hist' == hist + added
    && (forall v :: v in dist' <==> v in dist || v in added)
    && (forall v :: v in dist ==> dist'[v] == dist[v])
    && (forall v :: v in added ==> u in dist && dist'[v] == dist[u] + 1)
  }

  /** Every cell of `cells` has `u` as its parent. */
  ghost predicate ParentsAre(parent: array2<Pos>, cells: seq<Pos>, u: Pos)
    reads parent
  {
    forall i :: 0 <= i < |cells| ==>
      0 <= cells[i].0 < parent.Length0 && 0 <= cells[i].1 < parent.Length1 && parent[cells[i].0, cells[i].1] == u
  }

  /** One more direction of `u` keeps `Grows`. */
  lemma GrowsStep(rows: Rows, u: Pos, hist: seq<Pos>, dist: map<Pos, nat>,
                  histK: seq<Pos>, distK: map<Pos, nat>, hist': seq<Pos>, dist': map<Pos, nat>, k: int, d: nat)
    requires 0 <= k < 4 && u in dist && dist[u] == d
    requires Grows(rows, u, hist, dist, histK, distK, k)
    requires Step(u, k) !in Fresh(rows, u, dist.Keys, k)
    requires var next := Step(u, k);
      if Open(rows, next) && next !in distK then hist' == histK + [next] && dist' == distK[next := d + 1]
      else hist' == histK && dist' == distK
    ensures Grows(rows, u, hist, dist, hist', dist', k + 1)
  {
  }

  /** One step of the `foreach` with what it adds to the round so far: the
      fresh neighbours of `u` among the first `k + 1` directions. */
  method Direction(rows: Rows, u: Pos, k: int, visited: array2<bool>, parent: array2<Pos>, queue: seq<Pos>,
                   ghost start: Pos, ghost goal: Pos, W: int, ghost hist0: seq<Pos>, ghost dist0: map<Pos, nat>,
                   ghost hist: seq<Pos>, ghost head: nat, ghost mid: nat,
                   ghost d: nat, ghost dist: map<Pos, nat>, ghost idx: map<Pos, nat>)
    returns (r: Outcome<seq<Pos>>, ghost hist': seq<Pos>, ghost dist': map<Pos, nat>, ghost idx': map<Pos, nat>)
    requires |rows| > 0 && W == |rows[0]| && 0 <= k < 4
    requires visited.Length0 == |rows| && visited.Length1 == W && parent.Length0 == |rows| && parent.Length1 == W
    requires Frontier(rows, start, goal, W, hist, head, mid, d, dist, idx, k)
    requires 0 < head <= |hist| && u == hist[head - 1] && queue == hist[head..] && |hist| <= |rows| * W
    requires forall x, y :: 0 <= x < |rows| && 0 <= y < W ==> (visited[x, y] <==> (x, y) in dist)
    requires ParentLinks(rows, parent, start, dist)
    requires u in dist0 && dist0[u] == d
    requires Grows(rows, u, hist0, dist0, hist, dist, k) && ParentsAre(parent, Fresh(rows, u, dist0.Keys, k), u)
    modifies visited, parent
    ensures r.Threw? ==> r.exception == IndexOutOfRangeException && exists i :: 0 <= i < |rows| && |rows[i]| > W
    ensures r.Returned? ==>
      && Frontier(rows, start, goal, W, hist', head, mid, d, dist', idx', k + 1)
      && r.value == hist'[head..] && |hist'| <= |rows| * W && hist'[head - 1] == u
      && (forall x, y :: 0 <= x < |rows| && 0 <= y < W ==> (visited[x, y] <==> (x, y) in dist'))
      && ParentLinks(rows, parent, start, dist')
      && Grows(rows, u, hist0, dist0, hist', dist', k + 1)
      && ParentsAre(parent, Fresh(rows, u, dist0.Keys, k + 1), u)
  {
    FreshBefore(rows, u, dist0.Keys, k);
    r, hist', dist', idx' := Visit(rows, u, k, visited, parent, queue, start, goal, W, hist, head, mid, d, dist, idx,
                                   Fresh(rows, u, dist0.Keys, k));
    if r.Returned? {
      GrowsStep(rows, u, hist0, dist0, hist, dist, hist', dist', k, d);
    }
  }

  /** The `foreach` over `Directions` in `Solve`: each valid move from the
      dequeued cell `u` is marked visited, given `u` as parent and enqueued,
      in direction order. */
  method Expand(rows: Rows, u: Pos, visited: array2<bool>, parent: array2<Pos>, queue: seq<Pos>,
                ghost start: Pos, ghost goal: Pos, W: int, ghost hist: seq<Pos>, ghost head: nat, ghost mid: nat,
                ghost d: nat, ghost dist: map<Pos, nat>, ghost idx: map<Pos, nat>)
    returns (r: Outcome<seq<Pos>>, ghost hist': seq<Pos>, ghost dist': map<Pos, nat>, ghost idx': map<Pos, nat>)
    requires |rows| > 0 && W == |rows[0]|
    requires visited.Length0 == |rows| && visited.Length1 == W && parent.Length0 == |rows| && parent.Length1 == W
    requires Frontier(rows, start, goal, W, hist, head, mid, d, dist, idx, 0)
    requires u == hist[head - 1] && queue == hist[head..] && |hist| <= |rows| * W
    requires forall x, y :: 0 <= x < |rows| && 0 <= y < W ==> (visited[x, y] <==> (x, y) in dist)
    requires ParentLinks(rows, parent, start, dist)
    modifies visited, parent
    ensures r.Threw? ==> r.exception == IndexOutOfRangeException && exists i :: 0 <= i < |rows| && |rows[i]| > W
    ensures r.Returned? ==>
      && Frontier(rows, start, goal, W, hist', head, mid, d, dist', idx', 4)
      && r.value == hist'[head..] && |hist'| <= |rows| * W
      && (forall x, y :: 0 <= x < |rows| && 0 <= y < W ==> (visited[x, y] <==> (x, y) in dist'))
      && ParentLinks(rows, parent, start, dist')
      && Grows(rows, u, hist, dist, hist', dist', 4) && hist <= hist' && dist.Keys <= dist'.Keys
      && ParentsAre(parent, Fresh(rows, u, dist.Keys, 4), u)
  {
    hist', dist', idx' := hist, dist, idx;
    var q := queue;
    assert hist + [] == hist;
    for k := 0 to 4
      invariant Frontier(rows, start, goal, W, hist', head, mid, d, dist', idx', k)
      invariant q == hist'[head..] && |hist'| <= |rows| * W
      invariant 0 < head <= |hist'| && hist'[head - 1] == u
      invariant forall x, y :: 0 <= x < |rows| && 0 <= y < W ==> (visited[x, y] <==> (x, y) in dist')
      invariant ParentLinks(rows, parent, start, dist')
      invariant Grows(rows, u, hist, dist, hist', dist', k) && ParentsAre(parent, Fresh(rows, u, dist.Keys, k), u)
    {
      var visit;
      visit, hist', dist', idx' := Direction(rows, u, k, visited, parent, q, start, goal, W, hist, dist,
                                             hist', head, mid, d, dist', idx');
      if visit.Threw? {
        return visit, hist', dist', idx';
      }
      q := visit.value;
    }
    return Returned(q), hist', dist', idx';
  }

  /** One round of the `while` loop of `Solve` after dequeuing `u`, which
      is not the goal: the level moves on when `u` opens it, and `u`'s valid
      moves are enqueued. */
  method Advance(rows: Rows, u: Pos, visited: array2<bool>, parent: array2<Pos>, queue: seq<Pos>,
                 ghost start: Pos, ghost goal: Pos, W: int, ghost hist: seq<Pos>, ghost head: nat, ghost mid: nat,
                 ghost d: nat, ghost dist: map<Pos, nat>, ghost idx: map<Pos, nat>)
    returns (r: Outcome<seq<Pos>>, ghost hist': seq<Pos>, ghost head': nat, ghost mid': nat,
             ghost d': nat, ghost dist': map<Pos, nat>, ghost idx': map<Pos, nat>)
    requires |rows| > 0 && W == |rows[0]|
    requires visited.Length0 == |rows| && visited.Length1 == W && parent.Length0 == |rows| && parent.Length1 == W
    requires Frontier(rows, start, goal, W, hist, head, mid, d, dist, idx, 4)
    requires head < |hist| && hist[head] == u && u != goal && queue == hist[head + 1..] && |hist| <= |rows| * W
    requires forall x, y :: 0 <= x < |rows| && 0 <= y < W ==> (visited[x, y] <==> (x, y) in dist)
    requires ParentLinks(rows, parent, start, dist)
    modifies visited, parent
    ensures head' == head + 1
    ensures r.Threw? ==> r.exception == IndexOutOfRangeException && exists i :: 0 <= i < |rows| && |rows[i]| > W
    ensures r.Returned? ==>
      && Frontier(rows, start, goal, W, hist', head', mid', d', dist', idx', 4)
      && r.value == hist'[head'..] && |hist| <= |hist'| <= |rows| * W
      && (forall x, y :: 0 <= x < |rows| && 0 <= y < W ==> (visited[x, y] <==> (x, y) in dist'))
      && ParentLinks(rows, parent, start, dist')
      && Grows(rows, u, hist, dist, hist', dist', 4) && hist <= hist' && dist.Keys <= dist'.Keys
      && ParentsAre(parent, Fresh(rows, u, dist.Keys, 4), u)
  {
    mid', d' := Dequeue(rows, start, goal, W, hist, head, mid, d, dist, idx);
    head' := head + 1;
    r, hist', dist', idx' := Expand(rows, u, visited, parent, queue, start, goal, W, hist, head', mid', d', dist, idx);
  }

  /** The queue holding only the start, at level 0. */
  lemma Initial(rows: Rows, start: Pos, goal: Pos, W: int)
    requires Open(rows, start) && start.1 < W
    ensures Frontier(rows, start, goal, W, [start], 0, 1, 0, map[start := 0], map[start := 0], 4)
  {
  }

  /** The `while` loop of `Solve`, from a queue holding only the start: the
      queue is drained level by level until the goal is dequeued. */
  method Search(rows: Rows, start: Pos, goal: Pos, visited: array2<bool>, parent: array2<Pos>)
    returns (r: Outcome<Option<string>>, ghost path: seq<Pos>, ghost dequeued: nat)
    requires |rows| > 0 && Open(rows, start) && 0 <= start.1 < |rows[0]|
    requires visited.Length0 == |rows| && visited.Length1 == |rows[0]|
    requires parent.Length0 == |rows| && parent.Length1 == |rows[0]|
    requires forall x, y :: 0 <= x < |rows| && 0 <= y < |rows[0]| ==> (visited[x, y] <==> (x, y) == start)
    modifies visited, parent
    ensures r.Threw? ==> r.exception == IndexOutOfRangeException && exists i :: 0 <= i < |rows| && |rows[i]| > |rows[0]|
    ensures r == Returned(None) ==> !Reachable(rows, start, goal)
    ensures r.Returned? && r.value.Some? ==>
      && IsShortestPath(rows, path, start, goal) && Distinct(path)
      && r.value.value == Render(" -> ", path)
    ensures dequeued <= |rows| * |rows[0]|
  {
    var R, W := |rows|, |rows[0]|;
    var queue: seq<Pos> := [start];
    ghost var hist: seq<Pos> := [start];
    ghost var head: nat := 0;
    ghost var mid: nat := 1;
    ghost var d: nat := 0;
    ghost var dist: map<Pos, nat> := map[start := 0];
    ghost var idx: map<Pos, nat> := map[start := 0];
    Initial(rows, start, goal, W);
    HistBound(rows, start, goal, W, hist, head, mid, d, dist, idx, 4);

    while |queue| > 0
      invariant Frontier(rows, start, goal, W, hist, head, mid, d, dist, idx, 4)
      invariant queue == hist[head..] && |hist| <= R * W
      invariant forall x, y :: 0 <= x < R && 0 <= y < W ==> (visited[x, y] <==> (x, y) in dist)
      invariant ParentLinks(rows, parent, start, dist)
      decreases R * W - |hist|, |queue|
    {
      var u := queue[0];
      queue := queue[1..];
      if u == goal {
        var text;
        text, path := ReconstructPath(parent, start, goal, rows, dist);
        ShortestByLevel(rows, start, goal, path, dist[goal]);
        return Returned(Some(text)), path, head + 1;
      }
      var expanded;
      expanded, hist, head, mid, d, dist, idx := Advance(rows, u, visited, parent, queue, start, goal, W, hist, head, mid, d, dist, idx);
      if expanded.Threw? {
        return Threw(expanded.exception), [], head;
      }
      queue := expanded.value;
    }
    Exhausted(rows, start, goal, W, hist, mid, d, dist, idx);
    return Returned(None), [], head;
  }

  /** `S` and `G` are in the text exactly when they are in one of its rows. */
  lemma SplitMarks(maze: string)
    ensures 'S' in maze <==> Has(Split(maze, '\n'), 'S')
    ensures 'G' in maze <==> Has(Split(maze, '\n'), 'G')
  {
    SplitKeeps(maze, '\n', 'S');
    SplitKeeps(maze, '\n', 'G');
  }

  /** What `Solve` answers on the rows of the maze: a throw only when some
      row is longer than the first; no path only when the first `S` does not
      reach the first `G`; otherwise a shortest path between them. */
  ghost predicate Solved(rows: Rows, r: Outcome<Option<string>>, path: seq<Pos>, dequeued: nat) {
    && |rows| > 0
    && (r.Threw? ==>
          r.exception == IndexOutOfRangeException && exists i :: 0 <= i < |rows| && |rows[i]| > |rows[0]|)
    && (r == Returned(None) ==>
          forall s, t :: IsFirst(rows, 'S', s) && IsFirst(rows, 'G', t) ==> !Reachable(rows, s, t))
    && (r.Returned? && r.value.Some? ==>
          && |path| > 0 && IsFirst(rows, 'S', path[0]) && IsFirst(rows, 'G', path[|path| - 1])
          && IsShortestPath(rows, path, path[0], path[|path| - 1]) && Distinct(path)
          && r.value.value == Render(" -> ", path))
    && dequeued <= |rows| * |rows[0]|
  }

  /** Without an `S` or a `G` there is nothing to reach. */
  lemma MissingSolved(rows: Rows)
    requires |rows| > 0
    ensures !Has(rows, 'S') || !Has(rows, 'G') ==> Solved(rows, Returned(None), [], 0)
  {
    forall s, t | IsFirst(rows, 'S', s) && IsFirst(rows, 'G', t) ensures Has(rows, 'S') && Has(rows, 'G') {
      FirstHas(rows, 'S', s);
      FirstHas(rows, 'G', t);
    }
  }

  /** The arrays of `Solve`, sized by the first row, and the search from the first `S`. */
  method SearchFrom(rows: Rows, start: Pos, goal: Pos) returns (r: Outcome<Option<string>>, ghost path: seq<Pos>, ghost dequeued: nat)
    requires |rows| > 0 && IsFirst(rows, 'S', start) && IsFirst(rows, 'G', goal)
    ensures Solved(rows, r, path, dequeued)
  {
    var visited := new bool[|rows|, |rows[0]|]((x, y) => false);
    var parent := new Pos[|rows|, |rows[0]|];
    if start.1 >= |rows[0]| {
      assert |rows[start.0]| > |rows[0]|;
      return Threw(IndexOutOfRangeException), [], 0;
    }
    visited[start.0, start.1] := true;
    r, path, dequeued := Search(rows, start, goal, visited, parent);
    if r == Returned(None) {
      FirstsUnreachable(rows, 'S', 'G', start, goal);
    }
  }

  /** `Solve`: breadth-first search from `S`; on reaching `G` the path is
      rebuilt from the parent links and rendered with " -> ". */
  method Solve(maze: string) returns (r: Outcome<Option<string>>, ghost path: seq<Pos>, ghost dequeued: nat)
    ensures 'S' !in maze || 'G' !in maze ==> r == Returned(None)
    ensures Solved(Split(maze, '\n'), r, path, dequeued)
  {
    var rows := Split(maze, '\n');
    SplitMarks(maze);
    var start := FindPoint(maze, 'S');
    var goal := FindPoint(maze, 'G');
    if start == (-1, -1) || goal == (-1, -1) {
      MissingSolved(rows);
      return Returned(None), [], 0;
    }
    r, path, dequeued := SearchFrom(rows, start, goal);
  }
}
