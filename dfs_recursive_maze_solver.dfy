/** `DFSRecursiveMazeSolver`: backtracking depth-first search over the padded
    character array, with a shared `visited` array and a shared path list,
    and a guard that gives up when the recursion depth exceeds the number of
    cells. The depth each child call receives is a parameter of the model:
    `PostIncrement` is the source's `recursionDepth++` (child `k` of a call at
    depth `d` receives `d + k`), `PlusOne` the evidently intended `d + 1`. */
module DfsRecursiveMazeSolver {
  import opened Outcomes
  import opened Seqs
  import opened Text
  import opened Grid
  import opened PathFormat
  import opened CharGrid

  /** How a call passes its depth to its children. */
  datatype DepthRule = PostIncrement | PlusOne

  /** The depth the `k`-th child of a call at `depth` receives. */
  function ChildDepth(rule: DepthRule, depth: nat, k: nat): nat {
    match rule
    case PostIncrement => depth + k
    case PlusOne => depth + 1
  }

  /** What a call leaves behind: its answer, the visited cells and the path list. */
  datatype Search = Search(found: bool, visited: set<Pos>, path: seq<Pos>)

  /** `g` is an `R` by `C` rectangle. */
  predicate Rect(g: Rows, R: int, C: int) {
    |g| == R && forall i :: 0 <= i < R ==> |g[i]| == C
  }

  /** One call of `DFSImplementation` at cell `p`, on values: `vis` and
      `path` are the shared `visited` cells and path list at entry. The call
      gives up past depth `R * C`, rejects a cell outside the array, visited
      or a wall, and otherwise marks and appends the cell, stops on the goal,
      tries the four directions in order and on failure removes the last
      path entry. A failed call leaves the path as it found it. */
  function Explore(g: Rows, R: nat, C: nat, goal: Pos, rule: DepthRule,
                   vis: set<Pos>, path: seq<Pos>, p: Pos, depth: nat): (r: Search)
    requires Rect(g, R, C)
    ensures vis <= r.visited
    ensures !r.found ==> r.path == path
    decreases Box(R, C) - vis, 0, 0
  {
    if depth > R * C then Search(false, vis, path)
    else if p.0 < 0 || p.1 < 0 || p.0 >= R || p.1 >= C || p in vis || g[p.0][p.1] == 'X' then
      Search(false, vis, path)
    else if p == goal then Search(true, vis + {p}, path + [p])
    else
      assert p in Box(R, C);
      var r := ExploreDirs(g, R, C, goal, rule, vis + {p}, path + [p], p, depth, 0);
      if r.found then r else Search(false, r.visited, r.path[..|r.path| - 1])
  }

  /** The directions `k` to 3 of the loop in `DFSImplementation`, each child
      starting from the state the previous one left, stopping at the first
      that reaches the goal. */
  function ExploreDirs(g: Rows, R: nat, C: nat, goal: Pos, rule: DepthRule,
                       vis: set<Pos>, path: seq<Pos>, p: Pos, depth: nat, k: nat): (r: Search)
    requires Rect(g, R, C) && k <= 4
    ensures vis <= r.visited
    ensures !r.found ==> r.path == path
    decreases Box(R, C) - vis, 1, 4 - k
  {
    if k == 4 then Search(false, vis, path)
    else
      var r := Explore(g, R, C, goal, rule, vis, path, Step(p, k), ChildDepth(rule, depth, k));
      if r.found then r else ExploreDirs(g, R, C, goal, rule, r.visited, r.path, p, depth, k + 1)
  }

  /** A successful call appends to the path a simple path from its cell to
      the goal, through cells it visited and that were not visited before. */
  lemma {:induction false} ExploreSound(g: Rows, R: nat, C: nat, goal: Pos, rule: DepthRule,
                                        vis: set<Pos>, path: seq<Pos>, p: Pos, depth: nat)
    requires Rect(g, R, C)
    ensures var r := Explore(g, R, C, goal, rule, vis, path, p, depth);
      r.found ==>
        && |path| < |r.path| && r.path[..|path|] == path
        && IsPath(g, r.path[|path|..], p, goal) && Distinct(r.path[|path|..])
        && (forall i :: |path| <= i < |r.path| ==> r.path[i] !in vis && r.path[i] in r.visited)
    decreases Box(R, C) - vis, 0, 0
  {
    var r := Explore(g, R, C, goal, rule, vis, path, p, depth);
    if r.found && p != goal {
      assert p in Box(R, C);
      var path1 := path + [p];
      ExploreDirsSound(g, R, C, goal, rule, vis + {p}, path1, p, depth, 0);
      assert r.path[..|path1|] == path1;
      assert r.path[|path|..] == [p] + r.path[|path1|..];
    }
  }

  /** The loop's counterpart of `ExploreSound`: the appended cells and the
      cell `p` itself, last on the path, form a simple path to the goal. */
  lemma {:induction false} ExploreDirsSound(g: Rows, R: nat, C: nat, goal: Pos, rule: DepthRule,
                                            vis: set<Pos>, path: seq<Pos>, p: Pos, depth: nat, k: nat)
    requires Rect(g, R, C) && k <= 4
    requires |path| > 0 && path[|path| - 1] == p && p in vis && Open(g, p)
    ensures var r := ExploreDirs(g, R, C, goal, rule, vis, path, p, depth, k);
      r.found ==>
        && |path| < |r.path| && r.path[..|path|] == path
        && IsPath(g, r.path[|path| - 1..], p, goal) && Distinct(r.path[|path|..])
        && (forall i :: |path| <= i < |r.path| ==> r.path[i] !in vis && r.path[i] in r.visited)
    decreases Box(R, C) - vis, 1, 4 - k
  {
    if k < 4 {
      var c := Step(p, k);
      var r1 := Explore(g, R, C, goal, rule, vis, path, c, ChildDepth(rule, depth, k));
      ExploreSound(g, R, C, goal, rule, vis, path, c, ChildDepth(rule, depth, k));
      if r1.found {
        PrependStep(g, path, r1.path, p, c, goal);
      } else {
        ExploreDirsSound(g, R, C, goal, rule, r1.visited, r1.path, p, depth, k + 1);
      }
    }
  }

  /** A path from the neighbour `c` of the open cell `p`, appended after a
      path ending in `p`, makes one from `p`. */
  lemma PrependStep(g: Rows, path: seq<Pos>, rp: seq<Pos>, p: Pos, c: Pos, goal: Pos)
    requires |path| > 0 && path[|path| - 1] == p && Open(g, p) && Adjacent(p, c)
    requires |path| < |rp| && rp[..|path|] == path && IsPath(g, rp[|path|..], c, goal)
    ensures IsPath(g, rp[|path| - 1..], p, goal)
  {
    var w := rp[|path|..];
    assert rp[|path| - 1..] == [p] + w;
  }

  /** Every open neighbour of a cell of `N` is in `V`. */
  ghost predicate ClosedInto(g: Rows, N: set<Pos>, V: set<Pos>) {
    forall q, k :: q in N && 0 <= k < 4 && Open(g, Step(q, k)) ==> Step(q, k) in V
  }

  /** All cells of `S` lie in the `R` by `C` array. */
  ghost predicate Within(S: set<Pos>, R: int, C: int) {
    forall v :: v in S ==> 0 <= v.0 < R && 0 <= v.1 < C
  }

  /** With `PlusOne` the depth of a call is the length of the path before it,
      which as a duplicate-free list of cells never exceeds `R * C`, so the
      guard never fires. A failed call then leaves every open neighbour of
      the cells it visited visited, has not visited the goal, and has visited
      its own cell if that cell is open. */
  lemma {:induction false} ExploreComplete(g: Rows, R: nat, C: nat, goal: Pos,
                                           vis: set<Pos>, path: seq<Pos>, p: Pos, depth: nat)
    requires Rect(g, R, C) && Within(vis, R, C)
    requires depth == |path| && Distinct(path) && forall i :: 0 <= i < |path| ==> path[i] in vis
    ensures var r := Explore(g, R, C, goal, PlusOne, vis, path, p, depth);
      && Within(r.visited, R, C)
      && (!r.found ==>
            && ClosedInto(g, r.visited - vis, r.visited) && goal !in r.visited - vis
            && (Open(g, p) ==> p in r.visited))
    decreases Box(R, C) - vis, 0, 0
  {
    DistinctInBox(path, R, C);
    var r := Explore(g, R, C, goal, PlusOne, vis, path, p, depth);
    if 0 <= p.0 < R && 0 <= p.1 < C && p !in vis && g[p.0][p.1] != 'X' && p != goal {
      assert p in Box(R, C);
      var vis1, path1 := vis + {p}, path + [p];
      ExploreDirsComplete(g, R, C, goal, vis1, path1, p, depth, 0);
    }
  }

  /** The loop's counterpart of `ExploreComplete`: a failed loop from
      direction `k` on has every open neighbour of `p` in directions `k` to 3
      visited. */
  lemma {:induction false} ExploreDirsComplete(g: Rows, R: nat, C: nat, goal: Pos,
                                               vis: set<Pos>, path: seq<Pos>, p: Pos, depth: nat, k: nat)
    requires Rect(g, R, C) && Within(vis, R, C) && k <= 4
    requires |path| == depth + 1 && Distinct(path) && forall i :: 0 <= i < |path| ==> path[i] in vis
    ensures var r := ExploreDirs(g, R, C, goal, PlusOne, vis, path, p, depth, k);
      && Within(r.visited, R, C)
      && (!r.found ==>
            && ClosedInto(g, r.visited - vis, r.visited) && goal !in r.visited - vis
            && forall j :: k <= j < 4 && Open(g, Step(p, j)) ==> Step(p, j) in r.visited)
    decreases Box(R, C) - vis, 1, 4 - k
  {
    if k < 4 {
      var c := Step(p, k);
      var r1 := Explore(g, R, C, goal, PlusOne, vis, path, c, depth + 1);
      ExploreComplete(g, R, C, goal, vis, path, c, depth + 1);
      if !r1.found {
        ExploreDirsComplete(g, R, C, goal, r1.visited, r1.path, p, depth, k + 1);
      }
    }
  }

  /** With `PlusOne`, the top-level call from an open start finds the goal
      exactly when the goal can be reached from the start. */
  lemma PlusOneComplete(g: Rows, R: nat, C: nat, s: Pos, t: Pos)
    requires Rect(g, R, C) && Open(g, s)
    ensures Explore(g, R, C, t, PlusOne, {}, [], s, 0).found <==> Reachable(g, s, t)
  {
    var r := Explore(g, R, C, t, PlusOne, {}, [], s, 0);
    ExploreSound(g, R, C, t, PlusOne, {}, [], s, 0);
    ExploreComplete(g, R, C, t, {}, [], s, 0);
    if r.found {
      assert r.path[0..] == r.path;
      assert IsPath(g, r.path, s, t);
    } else {
      assert r.visited - {} == r.visited;
      ClosedSeparates(g, r.visited, s, t);
    }
  }

  /** The one-row maze "SG" as the depth-first solvers see it. */
  lemma SgRows()
    ensures MazeRows("SG") == ["SG"] && Rect(["SG"], 1, 2)
    ensures IsFirst(["SG"], 'S', (0, 0)) && IsFirst(["SG"], 'G', (0, 1))
    ensures Reachable(["SG"], (0, 0), (0, 1))
  {
    TrimUntouched("SG");
    SplitFree("SG", '\n');
    assert Padded(["SG"])[0] == "SG";
    assert IsPath(["SG"], [(0, 0), (0, 1)], (0, 0), (0, 1));
  }

  /** On "SG", after the start is marked, the loop over the four directions
      fails under `recursionDepth++`: up, down and left leave the array and
      right arrives at depth 3, past 1 * 2. */
  lemma SgLoopFails(vis: set<Pos>, path: seq<Pos>)
    requires Rect(["SG"], 1, 2)
    ensures ExploreDirs(["SG"], 1, 2, (0, 1), PostIncrement, vis, path, (0, 0), 0, 0) == Search(false, vis, path)
  {
    var g: Rows := ["SG"];
    assert Explore(g, 1, 2, (0, 1), PostIncrement, vis, path, (0, 1), 3) == Search(false, vis, path);
    assert ExploreDirs(g, 1, 2, (0, 1), PostIncrement, vis, path, (0, 0), 0, 3) == Search(false, vis, path);
    assert Explore(g, 1, 2, (0, 1), PostIncrement, vis, path, (0, -1), 2) == Search(false, vis, path);
    assert ExploreDirs(g, 1, 2, (0, 1), PostIncrement, vis, path, (0, 0), 0, 2) == Search(false, vis, path);
    assert Explore(g, 1, 2, (0, 1), PostIncrement, vis, path, (1, 0), 1) == Search(false, vis, path);
    assert ExploreDirs(g, 1, 2, (0, 1), PostIncrement, vis, path, (0, 0), 0, 1) == Search(false, vis, path);
    assert Explore(g, 1, 2, (0, 1), PostIncrement, vis, path, (-1, 0), 0) == Search(false, vis, path);
  }

  /** On "SG" with `PlusOne`, the right move arrives at depth 1 and finds the goal. */
  lemma SgLoopFinds(vis: set<Pos>, path: seq<Pos>)
    requires Rect(["SG"], 1, 2) && (0, 1) !in vis
    ensures ExploreDirs(["SG"], 1, 2, (0, 1), PlusOne, vis, path, (0, 0), 0, 0).found
  {
    var g: Rows := ["SG"];
    assert Explore(g, 1, 2, (0, 1), PlusOne, vis, path, (0, 1), 1).found;
    assert ExploreDirs(g, 1, 2, (0, 1), PlusOne, vis, path, (0, 0), 0, 3).found;
    assert Explore(g, 1, 2, (0, 1), PlusOne, vis, path, (0, -1), 1) == Search(false, vis, path);
    assert ExploreDirs(g, 1, 2, (0, 1), PlusOne, vis, path, (0, 0), 0, 2).found;
    assert Explore(g, 1, 2, (0, 1), PlusOne, vis, path, (1, 0), 1) == Search(false, vis, path);
    assert ExploreDirs(g, 1, 2, (0, 1), PlusOne, vis, path, (0, 0), 0, 1).found;
    assert Explore(g, 1, 2, (0, 1), PlusOne, vis, path, (-1, 0), 1) == Search(false, vis, path);
  }

  /** On the one-row maze "SG" the goal is one move to the right of the
      start, yet with `recursionDepth++` the right move is the fourth child
      and receives depth 3, past the guard's limit of 1 * 2 cells; the search
      fails. With `PlusOne` it succeeds. */
  lemma PostIncrementMissesAdjacentGoal()
    ensures MazeRows("SG") == ["SG"]
    ensures IsFirst(["SG"], 'S', (0, 0)) && IsFirst(["SG"], 'G', (0, 1))
    ensures Reachable(["SG"], (0, 0), (0, 1))
    ensures !Explore(["SG"], 1, 2, (0, 1), PostIncrement, {}, [], (0, 0), 0).found
    ensures Explore(["SG"], 1, 2, (0, 1), PlusOne, {}, [], (0, 0), 0).found
  {
    SgRows();
    SgTopLevel();
  }

  /** The top-level call on "SG" under each rule. */
  lemma SgTopLevel()
    ensures !Explore(["SG"], 1, 2, (0, 1), PostIncrement, {}, [], (0, 0), 0).found
    ensures Explore(["SG"], 1, 2, (0, 1), PlusOne, {}, [], (0, 0), 0).found
  {
    var g: Rows := ["SG"];
    assert Rect(g, 1, 2);
    var vis: set<Pos>, path: seq<Pos> := {}, [];
    SgLoopFails(vis + {(0, 0)}, path + [(0, 0)]);
    SgLoopFinds(vis + {(0, 0)}, path + [(0, 0)]);
    assert g[0][0] == 'S';
    assert !Explore(g, 1, 2, (0, 1), PostIncrement, vis, path, (0, 0), 0).found;
    assert Explore(g, 1, 2, (0, 1), PlusOne, vis, path, (0, 0), 0).found;
  }

  /** `List<(int, int)>`, as the shared path of the search uses it. */
  class PathList {
    var items: seq<Pos>

    constructor ()
      ensures items == []
    {
      items := [];
    }

    function Count(): (n: nat)
      reads this
      ensures n == |items|
    {
      |items|
    }

    method Add(p: Pos)
      modifies this
      ensures items == old(items) + [p]
    {
      items := items + [p];
    }

    method RemoveAt(index: int)
      requires 0 <= index < |items|
      modifies this
      ensures items == old(items)[..index] + old(items)[index + 1..]
    {
      items := items[..index] + items[index + 1..];
    }
  }

  /** The array's set flags are exactly the cells of `vis`. */
  ghost predicate Marks(visited: array2<bool>, vis: set<Pos>)
    reads visited
  {
    && Within(vis, visited.Length0, visited.Length1)
    && forall x, y :: 0 <= x < visited.Length0 && 0 <= y < visited.Length1 ==> (visited[x, y] <==> (x, y) in vis)
  }

  /** `DFSImplementation`: the recursive search, on the arrays and the shared
      path list. It does what `Explore` says, from the visited cells and the
      path it finds. */
  method DfsImplementation(maze: array2<char>, visited: array2<bool>, goal: Pos, path: PathList,
                           rowIndex: int, columnIndex: int, rowsCount: nat, columnsCount: nat,
                           recursionDepth: nat, rule: DepthRule, ghost g: Rows, ghost vis: set<Pos>)
    returns (found: bool, ghost vis': set<Pos>)
    requires Shows(maze, g) && Rect(g, rowsCount, columnsCount)
    requires rowsCount == maze.Length0 && columnsCount == maze.Length1
    requires rowsCount == visited.Length0 && columnsCount == visited.Length1
    requires Marks(visited, vis)
    modifies visited, path
    ensures Marks(visited, vis')
    ensures var r := Explore(g, rowsCount, columnsCount, goal, rule, vis, old(path.items),
                             (rowIndex, columnIndex), recursionDepth);
      found == r.found && vis' == r.visited && path.items == r.path
    decreases Box(rowsCount, columnsCount) - vis, 0
  {
    if recursionDepth > rowsCount * columnsCount {
      return false, vis;
    }
    if rowIndex < 0 || columnIndex < 0 || rowIndex >= rowsCount || columnIndex >= columnsCount ||
       visited[rowIndex, columnIndex] || maze[rowIndex, columnIndex] == 'X' {
      return false, vis;
    }
    var p := (rowIndex, columnIndex);
    assert p in Box(rowsCount, columnsCount) && p !in vis;
    MarkCell(visited, rowIndex, columnIndex, vis);
    vis' := vis + {p};
    path.Add(p);
    if rowIndex == goal.0 && columnIndex == goal.1 {
      return true, vis';
    }
    found, vis' := TryDirections(maze, visited, goal, path, p, rowsCount, columnsCount, recursionDepth, rule, g, vis');
    if !found {
      path.RemoveAt(path.Count() - 1);
    }
  }

  /** The loop of `DFSImplementation` over the four directions, after cell
      `p` has been marked and appended: it does what `ExploreDirs` says. */
  method TryDirections(maze: array2<char>, visited: array2<bool>, goal: Pos, path: PathList,
                       p: Pos, rowsCount: nat, columnsCount: nat,
                       recursionDepth: nat, rule: DepthRule, ghost g: Rows, ghost vis: set<Pos>)
    returns (found: bool, ghost vis': set<Pos>)
    requires Shows(maze, g) && Rect(g, rowsCount, columnsCount)
    requires rowsCount == maze.Length0 && columnsCount == maze.Length1
    requires rowsCount == visited.Length0 && columnsCount == visited.Length1
    requires Marks(visited, vis)
    modifies visited, path
    ensures Marks(visited, vis')
    ensures var r := ExploreDirs(g, rowsCount, columnsCount, goal, rule, vis, old(path.items), p, recursionDepth, 0);
      found == r.found && vis' == r.visited && path.items == r.path
    decreases Box(rowsCount, columnsCount) - vis, 1
  {
    vis' := vis;
    ghost var target := ExploreDirs(g, rowsCount, columnsCount, goal, rule, vis, path.items, p, recursionDepth, 0);
    var depth := recursionDepth;
    for i := 0 to 4
      invariant Marks(visited, vis') && vis <= vis'
      invariant ExploreDirs(g, rowsCount, columnsCount, goal, rule, vis', path.items, p, recursionDepth, i) == target
      invariant rule == PostIncrement ==> depth == recursionDepth + i
    {
      var childDepth: nat;
      if rule == PostIncrement {
        childDepth := depth;
        depth := depth + 1;
      } else {
        childDepth := recursionDepth + 1;
      }
      assert childDepth == ChildDepth(rule, recursionDepth, i);
      ghost var child := Explore(g, rowsCount, columnsCount, goal, rule, vis', path.items, Step(p, i), childDepth);
      ghost var rest := ExploreDirs(g, rowsCount, columnsCount, goal, rule, vis', path.items, p, recursionDepth, i);
      assert rest == if child.found then child
                     else ExploreDirs(g, rowsCount, columnsCount, goal, rule, child.visited, child.path, p, recursionDepth, i + 1);
      var next := Step(p, i);
      var ok;
      ok, vis' := DfsImplementation(maze, visited, goal, path, next.0, next.1,
                                    rowsCount, columnsCount, childDepth, rule, g, vis');
      assert ok == child.found && vis' == child.visited && path.items == child.path;
      if ok {
        return true, vis';
      }
    }
    return false, vis';
  }

  /** Sets the flag of one cell. */
  method MarkCell(visited: array2<bool>, x: int, y: int, ghost vis: set<Pos>)
    requires 0 <= x < visited.Length0 && 0 <= y < visited.Length1 && Marks(visited, vis)
    modifies visited
    ensures Marks(visited, vis + {(x, y)})
  {
    visited[x, y] := true;
  }

  /** `PathToString`: the cells joined by "->"; nothing for an empty path,
      otherwise text that opens with `(` and closes with `)`. */
  function PathToString(path: PathList): (s: string)
    reads path
    ensures |s| == 0 <==> |path.items| == 0
    ensures |path.items| > 0 ==> s[0] == '(' && s[|s| - 1] == ')'
  {
    RenderEnds("->", path.items);
    Render("->", path.items)
  }

  /** What `Solve` answers about the grid `g`: the answer is the top-level
      search from the first `S` to the first `G`; a path is a simple path
      between them, rendered with "->"; with `PlusOne` there is no answer
      exactly when `S` or `G` is missing or `G` cannot be reached. */
  ghost predicate Answers(g: Rows, rule: DepthRule, r: Option<string>, path: seq<Pos>)
    requires |g| > 0 && Rect(g, |g|, |g[0]|)
  {
    && (forall s, t :: IsFirst(g, 'S', s) && IsFirst(g, 'G', t) ==>
          (r.Some? <==> Explore(g, |g|, |g[0]|, t, rule, {}, [], s, 0).found))
    && (r.Some? ==>
          && |path| > 0 && IsFirst(g, 'S', path[0]) && IsFirst(g, 'G', path[|path| - 1])
          && IsSimplePath(g, path, path[0], path[|path| - 1]) && r.value == Render("->", path))
    && (rule == PlusOne ==>
          (r.None? <==>
             || !Has(g, 'S') || !Has(g, 'G')
             || forall s, t :: IsFirst(g, 'S', s) && IsFirst(g, 'G', t) ==> !Reachable(g, s, t)))
  }

  /** `Solve`: converts the text, finds `S` and `G`, and runs the recursive
      search from `S` with an empty path and nothing visited. */
  method Solve(maze: string, rule: DepthRule) returns (r: Option<string>, ghost path: seq<Pos>)
    ensures 'S' !in maze || 'G' !in maze ==> r.None?
    ensures var g := MazeRows(maze); |g| > 0 && Rect(g, |g|, |g[0]|) && Answers(g, rule, r, path)
  {
    ghost var g := MazeRows(maze);
    MazeRowsMarks(maze);
    var mazeArray := ConvertTo2DArray(maze);
    r, path := SolveGrid(mazeArray, rule, g);
  }

  /** `Solve` once the text is in the array `mazeArray`, which shows `g`. */
  method SolveGrid(mazeArray: array2<char>, rule: DepthRule, ghost g: Rows) returns (r: Option<string>, ghost path: seq<Pos>)
    requires Shows(mazeArray, g) && |g| > 0
    ensures Rect(g, |g|, |g[0]|)
    ensures !Has(g, 'S') || !Has(g, 'G') ==> r.None?
    ensures Answers(g, rule, r, path)
  {
    var rows := mazeArray.Length0;
    var columns := mazeArray.Length1;
    assert Rect(g, rows, columns);
    var start := FindPoint(mazeArray, rows, columns, 'S', g);
    var goal := FindPoint(mazeArray, rows, columns, 'G', g);
    if start.None? || goal.None? {
      MissingAnswer(g, rule);
      return None, [];
    }
    var s, t := start.value, goal.value;
    r, path := Run(mazeArray, rows, columns, s, t, rule, g);
    FoundAnswer(g, s, t, rule, r, path);
  }

  /** What the top-level call from the first `S` to the first `G` means: a
      path it finds is a simple path between them, and with `PlusOne` it
      finds one exactly when `G` can be reached. */
  lemma TopLevel(g: Rows, R: nat, C: nat, s: Pos, t: Pos, rule: DepthRule)
    requires Rect(g, R, C) && IsFirst(g, 'S', s) && IsFirst(g, 'G', t)
    ensures var e := Explore(g, R, C, t, rule, {}, [], s, 0);
      && (e.found ==> |e.path| > 0 && e.path[0] == s && e.path[|e.path| - 1] == t && IsSimplePath(g, e.path, s, t))
      && (rule == PlusOne ==> (e.found <==> Reachable(g, s, t)))
      && forall s', t' :: IsFirst(g, 'S', s') && IsFirst(g, 'G', t') ==> s' == s && t' == t
  {
    var e := Explore(g, R, C, t, rule, {}, [], s, 0);
    ExploreSound(g, R, C, t, rule, {}, [], s, 0);
    if e.found {
      assert e.path[0..] == e.path;
    }
    if rule == PlusOne {
      PlusOneComplete(g, R, C, s, t);
    }
    forall s', t' | IsFirst(g, 'S', s') && IsFirst(g, 'G', t') ensures s' == s && t' == t {
      FirstIsUnique(g, 'S', s', s);
      FirstIsUnique(g, 'G', t', t);
    }
  }

  /** Without `S` or without `G` there is nothing to answer. */
  lemma MissingAnswer(g: Rows, rule: DepthRule)
    requires |g| > 0 && Rect(g, |g|, |g[0]|)
    ensures !Has(g, 'S') || !Has(g, 'G') ==> Answers(g, rule, None, [])
  {
    forall s, t | IsFirst(g, 'S', s) && IsFirst(g, 'G', t) ensures Has(g, 'S') && Has(g, 'G') {
      FirstHas(g, 'S', s);
      FirstHas(g, 'G', t);
    }
  }

  /** The outcome of the top-level search from the first `S` to the first
      `G` is what `Answers` asks for. */
  lemma FoundAnswer(g: Rows, s: Pos, t: Pos, rule: DepthRule, r: Option<string>, path: seq<Pos>)
    requires |g| > 0 && Rect(g, |g|, |g[0]|) && IsFirst(g, 'S', s) && IsFirst(g, 'G', t)
    requires var e := Explore(g, |g|, |g[0]|, t, rule, {}, [], s, 0);
      && (r.Some? <==> e.found)
      && (r.Some? ==> path == e.path && r.value == Render("->", path))
    ensures Answers(g, rule, r, path)
  {
    TopLevel(g, |g|, |g[0]|, s, t, rule);
    FirstHas(g, 'S', s);
    FirstHas(g, 'G', t);
  }

  /** The search part of `Solve`, from `S` at `s` to `G` at `t`, with a fresh
      `visited` array and an empty path list. */
  method Run(mazeArray: array2<char>, rows: nat, columns: nat, s: Pos, t: Pos, rule: DepthRule, ghost g: Rows)
    returns (r: Option<string>, ghost path: seq<Pos>)
    requires Shows(mazeArray, g) && Rect(g, rows, columns)
    requires rows == mazeArray.Length0 && columns == mazeArray.Length1
    ensures var e := Explore(g, rows, columns, t, rule, {}, [], s, 0);
      && (r.Some? <==> e.found)
      && (r.Some? ==> path == e.path && r.value == Render("->", path))
  {
    var visited := new bool[rows, columns]((i, j) => false);
    var pathList := new PathList();
    var found;
    ghost var vis;
    found, vis := DfsImplementation(mazeArray, visited, t, pathList, s.0, s.1, rows, columns, 0, rule, g, {});
    if found {
      return Some(PathToString(pathList)), pathList.items;
    }
    return None, [];
  }
}
