/** `DFSMazeSolver`: iterative depth-first search over the padded character
    array. Each stack entry carries its own copy of the path that reached
    it, and a cell is marked visited when it is pushed. */
module DfsMazeSolver {
  import opened Outcomes
  import opened Seqs
  import opened Text
  import opened Grid
  import opened PathFormat
  import opened CharGrid

  /** A stack entry: a cell and the path from the start that reached it. */
  datatype Entry = Entry(row: int, col: int, path: seq<Pos>)

  /** `IsValidMove`: false outside the array, on a wall or on a visited cell. */
  function IsValidMove(maze: array2<char>, rowNumber: int, columnNumber: int, visited: array2<bool>,
                       rowsCount: int, columnsCount: int): (valid: bool)
    requires rowsCount == maze.Length0 == visited.Length0 && columnsCount == maze.Length1 == visited.Length1
    reads maze, visited
    ensures valid ==> 0 <= rowNumber < rowsCount && 0 <= columnNumber < columnsCount && !visited[rowNumber, columnNumber]
    ensures 0 <= rowNumber < rowsCount && 0 <= columnNumber < columnsCount && maze[rowNumber, columnNumber] == 'X' ==> !valid
  {
    if rowNumber < 0 || columnNumber < 0 || rowNumber >= rowsCount || columnNumber >= columnsCount then false
    else maze[rowNumber, columnNumber] != 'X' && !visited[rowNumber, columnNumber]
  }

  /** On an array showing `g`, a move is valid exactly when it lands on an
      open cell of `g` that is not yet visited. */
  lemma ValidMoveIsOpen(maze: array2<char>, g: Rows, r: int, c: int, visited: array2<bool>)
    requires Shows(maze, g) && visited.Length0 == maze.Length0 && visited.Length1 == maze.Length1
    ensures IsValidMove(maze, r, c, visited, maze.Length0, maze.Length1) <==>
              Open(g, (r, c)) && !visited[r, c]
  {
  }

  /** `FindStart`: the first `'S'` in row-major order, or nothing. */
  method FindStart(maze: array2<char>, rows: int, columns: int, ghost g: Rows) returns (r: Option<Pos>)
    requires rows == maze.Length0 && columns == maze.Length1 && Shows(maze, g)
    ensures r.None? <==> !Has(g, 'S')
    ensures r.Some? ==> IsFirst(g, 'S', r.value)
  {
    r := FindPoint(maze, rows, columns, 'S', g);
  }

  /** `FindGoal`: the first `'G'` in row-major order, or nothing. */
  method FindGoal(maze: array2<char>, rows: int, columns: int, ghost g: Rows) returns (r: Option<Pos>)
    requires rows == maze.Length0 && columns == maze.Length1 && Shows(maze, g)
    ensures r.None? <==> !Has(g, 'G')
    ensures r.Some? ==> IsFirst(g, 'G', r.value)
  {
    r := FindPoint(maze, rows, columns, 'G', g);
  }

  /** `PathToString`: each cell followed by a space, then trimmed; that is,
      the cells joined by single spaces. */
  method PathToString(path: seq<Pos>) returns (s: string)
    ensures s == Render(" ", path)
  {
    var pathString := "";
    for i := 0 to |path|
      invariant pathString == Terminated(" ", PosTexts(path[..i]))
    {
      PosTextsStep(path, i);
      pathString := pathString + PosText(path[i]) + " ";
    }
    assert path[..|path|] == path;
    TrimTerminated(path);
    return Trim(pathString);
  }

  /** One more cell rendered and terminated by a space. */
  lemma PosTextsStep(path: seq<Pos>, i: int)
    requires 0 <= i < |path|
    ensures Terminated(" ", PosTexts(path[..i + 1])) == Terminated(" ", PosTexts(path[..i])) + PosText(path[i]) + " "
  {
    assert PosTexts(path[..i + 1]) == PosTexts(path[..i]) + [PosText(path[i])];
    TerminatedAppend(" ", PosTexts(path[..i]), PosText(path[i]));
  }

  /** Trimming the space-terminated cells leaves the cells joined by spaces. */
  lemma TrimTerminated(path: seq<Pos>)
    ensures Trim(Terminated(" ", PosTexts(path))) == Render(" ", path)
  {
    var parts := PosTexts(path);
    var j := Render(" ", path);
    assert j == Join(" ", parts);
    if |path| > 0 {
      TerminatedJoin(" ", parts);
      RenderEnds(" ", path);
      assert !IsWhiteSpace(j[0]) && !IsWhiteSpace(j[|j| - 1]);
      TrimTrailingSpace(j);
    } else {
      assert Terminated(" ", parts) == [];
    }
  }

  /** The cells of the stack entries. */
  function StackCells(stack: seq<Entry>): set<Pos> {
    if |stack| == 0 then {}
    else StackCells(stack[..|stack| - 1]) + {(stack[|stack| - 1].row, stack[|stack| - 1].col)}
  }

  /** The search state, on values. `marked` is the set of visited cells and
      `expanded` the set of popped ones; every visited cell is popped or still
      on the stack; every entry's path is a simple path from the start to the
      entry's cell through visited cells; the popped cells have all their open
      neighbours visited, except that `cur`, popped last, has had only its
      first `kk` directions tried; and the goal has not been popped. */
  ghost predicate Searching(g: Rows, start: Pos, goal: Pos, stack: seq<Entry>, marked: set<Pos>,
                            expanded: set<Pos>, cur: Pos, kk: int)
  {
    && start in marked && expanded <= marked && 0 <= kk <= 4
    && (forall v :: v in marked ==> Open(g, v))
    && marked <= expanded + StackCells(stack)
    && (forall i :: 0 <= i < |stack| ==>
          && IsSimplePath(g, stack[i].path, start, (stack[i].row, stack[i].col))
          && (forall j :: 0 <= j < |stack[i].path| ==> stack[i].path[j] in marked))
    && (forall v, k :: v in expanded && 0 <= k < 4 && (v != cur || k < kk) && Open(g, Step(v, k)) ==>
          Step(v, k) in marked)
    && goal !in expanded
  }

  /** Popping the top entry, which is not the goal: its cell counts as expanded, with no direction tried yet. */
  lemma Pop(g: Rows, start: Pos, goal: Pos, stack: seq<Entry>, marked: set<Pos>, expanded: set<Pos>, cur: Pos)
    requires Searching(g, start, goal, stack, marked, expanded, cur, 4) && |stack| > 0
    requires (stack[|stack| - 1].row, stack[|stack| - 1].col) != goal
    ensures var top := stack[|stack| - 1];
      Searching(g, start, goal, stack[..|stack| - 1], marked, expanded + {(top.row, top.col)}, (top.row, top.col), 0)
  {
  }

  /** Pushing the unvisited open neighbour of `cur` in direction `kk`, with the path extended by it. */
  lemma Push(g: Rows, start: Pos, goal: Pos, stack: seq<Entry>, marked: set<Pos>, expanded: set<Pos>,
             cur: Pos, kk: int, curPath: seq<Pos>)
    requires Searching(g, start, goal, stack, marked, expanded, cur, kk) && kk < 4
    requires IsSimplePath(g, curPath, start, cur) && forall j :: 0 <= j < |curPath| ==> curPath[j] in marked
    requires Open(g, Step(cur, kk)) && Step(cur, kk) !in marked
    ensures var n := Step(cur, kk);
      Searching(g, start, goal, stack + [Entry(n.0, n.1, curPath + [n])], marked + {n}, expanded, cur, kk + 1)
  {
    var n := Step(cur, kk);
    var stack' := stack + [Entry(n.0, n.1, curPath + [n])];
    assert stack'[..|stack'| - 1] == stack;
    forall i | 0 <= i < |stack'|
      ensures IsSimplePath(g, stack'[i].path, start, (stack'[i].row, stack'[i].col))
    {
      if i == |stack| {
        var w := curPath + [n];
        assert n !in curPath;
        assert forall j :: 0 <= j < |curPath| ==> w[j] == curPath[j];
      } else {
        assert stack'[i] == stack[i];
      }
    }
  }

  /** Passing over direction `kk` of `cur`: not an open cell, or already visited. */
  lemma Skip(g: Rows, start: Pos, goal: Pos, stack: seq<Entry>, marked: set<Pos>, expanded: set<Pos>,
             cur: Pos, kk: int)
    requires Searching(g, start, goal, stack, marked, expanded, cur, kk) && kk < 4
    requires !Open(g, Step(cur, kk)) || Step(cur, kk) in marked
    ensures Searching(g, start, goal, stack, marked, expanded, cur, kk + 1)
  {
  }

  /** An empty stack: the visited cells are closed under moves and hold the start but not the goal. */
  lemma Exhausted(g: Rows, start: Pos, goal: Pos, marked: set<Pos>, expanded: set<Pos>, cur: Pos)
    requires Searching(g, start, goal, [], marked, expanded, cur, 4)
    ensures !Reachable(g, start, goal)
  {
    ClosedSeparates(g, expanded, start, goal);
  }

  /** A popped cell whose four directions were all tried has its open neighbours visited. */
  lemma Expanded(g: Rows, start: Pos, goal: Pos, stack: seq<Entry>, marked: set<Pos>, expanded: set<Pos>, cur: Pos)
    requires Searching(g, start, goal, stack, marked, expanded, cur, 4) && cur in expanded
    ensures forall k :: 0 <= k < 4 && Open(g, Step(cur, k)) ==> Step(cur, k) in marked
  {
  }

  /** `visited[x, y] = true`, on the set of visited cells. */
  method MarkVisited(visited: array2<bool>, x: int, y: int, ghost marked: set<Pos>)
    requires 0 <= x < visited.Length0 && 0 <= y < visited.Length1
    requires forall i, j :: 0 <= i < visited.Length0 && 0 <= j < visited.Length1 ==> (visited[i, j] <==> (i, j) in marked)
    modifies visited
    ensures forall i, j :: 0 <= i < visited.Length0 && 0 <= j < visited.Length1 ==>
              (visited[i, j] <==> (i, j) in marked + {(x, y)})
  {
    visited[x, y] := true;
  }

  /** One step of the `for` loop of `Solve`: the move in direction `i`, if
      valid, is marked visited and pushed with the path extended by it. */
  method TryMove(maze: array2<char>, rows: int, columns: int, visited: array2<bool>, stack: seq<Entry>,
                 currentRow: int, currentColumn: int, currentPath: seq<Pos>, i: int,
                 ghost g: Rows, ghost start: Pos, ghost goal: Pos, ghost marked: set<Pos>, ghost expanded: set<Pos>)
    returns (stack': seq<Entry>, ghost marked': set<Pos>)
    requires rows == maze.Length0 == visited.Length0 && columns == maze.Length1 == visited.Length1
    requires Shows(maze, g) && 0 <= i < 4
    requires Searching(g, start, goal, stack, marked, expanded, (currentRow, currentColumn), i)
    requires IsSimplePath(g, currentPath, start, (currentRow, currentColumn))
    requires forall j :: 0 <= j < |currentPath| ==> currentPath[j] in marked
    requires forall x, y :: 0 <= x < rows && 0 <= y < columns ==> (visited[x, y] <==> (x, y) in marked)
    modifies visited
    ensures Searching(g, start, goal, stack', marked', expanded, (currentRow, currentColumn), i + 1)
    ensures forall x, y :: 0 <= x < rows && 0 <= y < columns ==> (visited[x, y] <==> (x, y) in marked')
    ensures marked <= marked' && (marked' == marked ==> stack' == stack)
    ensures var next := Step((currentRow, currentColumn), i);
      if Open(g, next) && next !in marked then
        stack' == stack + [Entry(next.0, next.1, currentPath + [next])] && marked' == marked + {next}
      else stack' == stack && marked' == marked
  {
    var u := (currentRow, currentColumn);
    var newRow := currentRow + Directions[i].0;
    var newColumn := currentColumn + Directions[i].1;
    assert (newRow, newColumn) == Step(u, i);
    ValidMoveIsOpen(maze, g, newRow, newColumn, visited);
    if IsValidMove(maze, newRow, newColumn, visited, rows, columns) {
      MarkVisited(visited, newRow, newColumn, marked);
      var newPath := currentPath + [(newRow, newColumn)];
      Push(g, start, goal, stack, marked, expanded, u, i, currentPath);
      stack' := stack + [Entry(newRow, newColumn, newPath)];
      marked' := marked + {(newRow, newColumn)};
    } else {
      Skip(g, start, goal, stack, marked, expanded, u, i);
      stack', marked' := stack, marked;
    }
  }

  /** The entries the `for` loop pushes for the cell `u` reached by `path`,
      over its first `k` directions in order: one per open neighbour not yet
      visited, carrying `path` extended by that neighbour. */
  function Pushed(g: Rows, u: Pos, path: seq<Pos>, marked: set<Pos>, k: int): (r: seq<Entry>)
    requires 0 <= k <= 4
    ensures |r| <= k
  {
    if k == 0 then []
    else
      var next := Step(u, k - 1);
      Pushed(g, u, path, marked, k - 1) +
        if Open(g, next) && next !in marked then [Entry(next.0, next.1, path + [next])] else []
  }

  /** The cells of two stacks put together. */
  lemma StackCellsAppend(a: seq<Entry>, b: seq<Entry>)
    requires |b| <= 1
    ensures StackCells(a + b) == StackCells(a) + StackCells(b)
  {
    if |b| == 1 {
      assert (a + b)[..|a + b| - 1] == a;
      assert b[..0] == [];
    } else {
      assert a + b == a;
    }
  }

  /** Direction `k` adds its cell to those `Pushed` lists exactly when that
      cell is open and was not visited before the loop. */
  lemma PushedNext(g: Rows, u: Pos, path: seq<Pos>, marked: set<Pos>, k: int)
    requires 0 <= k < 4
    ensures var next := Step(u, k);
      StackCells(Pushed(g, u, path, marked, k + 1)) ==
        StackCells(Pushed(g, u, path, marked, k)) + if Open(g, next) && next !in marked then {next} else {}
  {
    var next := Step(u, k);
    var before := Pushed(g, u, path, marked, k);
    if Open(g, next) && next !in marked {
      var e := Entry(next.0, next.1, path + [next]);
      assert Pushed(g, u, path, marked, k + 1) == before + [e];
      StackCellsAppend(before, [e]);
      assert StackCells([e]) == {next} by {
        assert [e][..0] == [];
      }
    } else {
      assert Pushed(g, u, path, marked, k + 1) == before + [];
      assert before + [] == before;
    }
  }

  /** The cells `Pushed` lists are exactly the open neighbours of `u` among
      its first `k` directions that were not visited before the loop. */
  lemma {:induction false} PushedCells(g: Rows, u: Pos, path: seq<Pos>, marked: set<Pos>, k: int)
    requires 0 <= k <= 4
    ensures forall v :: v in StackCells(Pushed(g, u, path, marked, k)) <==>
      Open(g, v) && v !in marked && exists j :: 0 <= j < k && v == Step(u, j)
  {
    if k > 0 {
      PushedCells(g, u, path, marked, k - 1);
      PushedNext(g, u, path, marked, k - 1);
      forall v | Open(g, v) && v !in marked && exists j :: 0 <= j < k && v == Step(u, j)
        ensures v in StackCells(Pushed(g, u, path, marked, k))
      {
        var j :| 0 <= j < k && v == Step(u, j);
        if j < k - 1 {
          assert v in StackCells(Pushed(g, u, path, marked, k - 1));
        }
      }
    }
  }

  /** The cells `Pushed` lists were not visited before the loop. */
  lemma {:induction false} PushedUnvisited(g: Rows, u: Pos, path: seq<Pos>, marked: set<Pos>, k: int)
    requires 0 <= k <= 4
    ensures StackCells(Pushed(g, u, path, marked, k)) !! marked
  {
    if k > 0 {
      PushedUnvisited(g, u, path, marked, k - 1);
      PushedNext(g, u, path, marked, k - 1);
    }
  }

  /** The loop pushes something exactly when it visits a new cell. */
  lemma PushedVisits(g: Rows, u: Pos, path: seq<Pos>, marked: set<Pos>, k: int)
    requires 0 <= k <= 4
    ensures var pushed := Pushed(g, u, path, marked, k);
      pushed == [] <==> marked + StackCells(pushed) == marked
  {
    var pushed := Pushed(g, u, path, marked, k);
    PushedUnvisited(g, u, path, marked, k);
    if pushed != [] {
      var e := pushed[|pushed| - 1];
      assert (e.row, e.col) in StackCells(pushed);
    }
  }

  /** Direction `m` leads to a cell that the directions before `k <= m` did not push. */
  lemma {:induction false} PushedBefore(g: Rows, u: Pos, path: seq<Pos>, marked: set<Pos>, k: int, m: int)
    requires 0 <= k <= m < 4
    ensures Step(u, m) !in StackCells(Pushed(g, u, path, marked, k))
  {
    if k > 0 {
      PushedBefore(g, u, path, marked, k - 1, m);
      PushedNext(g, u, path, marked, k - 1);
      StepsDiffer(u, k - 1, m);
    }
  }

  /** One more direction of the `for` loop extends `Pushed` by what `TryMove` pushes. */
  lemma PushedStep(g: Rows, u: Pos, path: seq<Pos>, marked: set<Pos>, k: int,
                   stack: seq<Entry>, stackK: seq<Entry>, markedK: set<Pos>, stack': seq<Entry>, marked': set<Pos>)
    requires 0 <= k < 4
    requires stackK == stack + Pushed(g, u, path, marked, k)
    requires markedK == marked + StackCells(Pushed(g, u, path, marked, k))
    requires var next := Step(u, k);
      if Open(g, next) && next !in markedK then
        stack' == stackK + [Entry(next.0, next.1, path + [next])] && marked' == markedK + {next}
      else stack' == stackK && marked' == markedK
    ensures stack' == stack + Pushed(g, u, path, marked, k + 1)
    ensures marked' == marked + StackCells(Pushed(g, u, path, marked, k + 1))
  {
    var next := Step(u, k);
    var before := Pushed(g, u, path, marked, k);
    PushedBefore(g, u, path, marked, k, k);
    PushedNext(g, u, path, marked, k);
    if Open(g, next) && next !in marked {
      assert next !in markedK;
      assert Pushed(g, u, path, marked, k + 1) == before + [Entry(next.0, next.1, path + [next])];
    } else {
      assert Pushed(g, u, path, marked, k + 1) == before + [];
      assert before + [] == before;
      assert !(Open(g, next) && next !in markedK);
    }
  }

  /** After the first `k` directions of `u`, the stack and the visited set
      have grown from `stack0` and `marked0` by exactly what `Pushed` lists. */
  ghost predicate PushedSoFar(g: Rows, u: Pos, path: seq<Pos>, stack0: seq<Entry>, marked0: set<Pos>,
                              stack: seq<Entry>, marked: set<Pos>, k: int)
    requires 0 <= k <= 4
  {
    var pushed := Pushed(g, u, path, marked0, k);
    stack == stack0 + pushed && marked == marked0 + StackCells(pushed)
  }

  /** The invariant of the `for` loop of `Solve` after `i` directions of the
      popped cell `u`, reached by `path`: the search invariant, `path` visited,
      and the growth from `stack0` and `marked0` that `Pushed` lists. */
  ghost predicate Pushing(g: Rows, start: Pos, goal: Pos, stack0: seq<Entry>, marked0: set<Pos>,
                          stack: seq<Entry>, marked: set<Pos>, expanded: set<Pos>, u: Pos, path: seq<Pos>, i: int)
  {
    && 0 <= i <= 4
    && Searching(g, start, goal, stack, marked, expanded, u, i)
    && (forall j :: 0 <= j < |path| ==> path[j] in marked)
    && PushedSoFar(g, u, path, stack0, marked0, stack, marked, i)
  }

  /** One round of the `for` loop of `Solve`: direction `i` extends what the
      loop has pushed to the entries `Pushed` lists for `i + 1` directions. */
  method PushDirection(maze: array2<char>, rows: int, columns: int, visited: array2<bool>, stack: seq<Entry>,
                       currentRow: int, currentColumn: int, currentPath: seq<Pos>, i: int,
                       ghost g: Rows, ghost start: Pos, ghost goal: Pos, ghost marked: set<Pos>, ghost expanded: set<Pos>,
                       ghost stack0: seq<Entry>, ghost marked0: set<Pos>)
    returns (stack': seq<Entry>, ghost marked': set<Pos>)
    requires rows == maze.Length0 == visited.Length0 && columns == maze.Length1 == visited.Length1
    requires Shows(maze, g) && 0 <= i < 4
    requires Pushing(g, start, goal, stack0, marked0, stack, marked, expanded, (currentRow, currentColumn), currentPath, i)
    requires IsSimplePath(g, currentPath, start, (currentRow, currentColumn))
    requires forall x, y :: 0 <= x < rows && 0 <= y < columns ==> (visited[x, y] <==> (x, y) in marked)
    modifies visited
    ensures Pushing(g, start, goal, stack0, marked0, stack', marked', expanded, (currentRow, currentColumn), currentPath, i + 1)
    ensures forall x, y :: 0 <= x < rows && 0 <= y < columns ==> (visited[x, y] <==> (x, y) in marked')
  {
    stack', marked' := TryMove(maze, rows, columns, visited, stack, currentRow, currentColumn, currentPath, i,
                               g, start, goal, marked, expanded);
    PushedStep(g, (currentRow, currentColumn), currentPath, marked0, i, stack0, stack, marked, stack', marked');
  }

  /** The `for` loop of `Solve`: the valid moves from the popped cell, in
      direction order, are marked visited and pushed with the path extended
      by them; afterwards every open neighbour of that cell is visited. */
  method PushMoves(maze: array2<char>, rows: int, columns: int, visited: array2<bool>, stack: seq<Entry>,
                   currentRow: int, currentColumn: int, currentPath: seq<Pos>,
                   ghost g: Rows, ghost start: Pos, ghost goal: Pos, ghost marked: set<Pos>, ghost expanded: set<Pos>)
    returns (stack': seq<Entry>, ghost marked': set<Pos>)
    requires rows == maze.Length0 == visited.Length0 && columns == maze.Length1 == visited.Length1
    requires Shows(maze, g)
    requires Searching(g, start, goal, stack, marked, expanded, (currentRow, currentColumn), 0)
    requires (currentRow, currentColumn) in expanded
    requires IsSimplePath(g, currentPath, start, (currentRow, currentColumn))
    requires forall j :: 0 <= j < |currentPath| ==> currentPath[j] in marked
    requires forall x, y :: 0 <= x < rows && 0 <= y < columns ==> (visited[x, y] <==> (x, y) in marked)
    modifies visited
    ensures Searching(g, start, goal, stack', marked', expanded, (currentRow, currentColumn), 4)
    ensures forall x, y :: 0 <= x < rows && 0 <= y < columns ==> (visited[x, y] <==> (x, y) in marked')
    ensures PushedSoFar(g, (currentRow, currentColumn), currentPath, stack, marked, stack', marked', 4)
    ensures forall k :: 0 <= k < 4 && Open(g, Step((currentRow, currentColumn), k)) ==>
      Step((currentRow, currentColumn), k) in marked'
  {
    var u := (currentRow, currentColumn);
    stack', marked' := stack, marked;
    assert PushedSoFar(g, u, currentPath, stack, marked, stack', marked', 0) by {
      assert stack + [] == stack;
    }
    for i := 0 to 4
      invariant Pushing(g, start, goal, stack, marked, stack', marked', expanded, u, currentPath, i)
      invariant forall x, y :: 0 <= x < rows && 0 <= y < columns ==> (visited[x, y] <==> (x, y) in marked')
    {
      stack', marked' := PushDirection(maze, rows, columns, visited, stack', currentRow, currentColumn, currentPath, i,
                                       g, start, goal, marked', expanded, stack, marked);
    }
    Expanded(g, start, goal, stack', marked', expanded, u);
  }

  /** The stack holding only the start, nothing expanded yet. */
  lemma Initial(g: Rows, start: Pos, goal: Pos)
    requires Open(g, start)
    ensures Searching(g, start, goal, [Entry(start.0, start.1, [start])], {start}, {}, start, 4)
  {
    var stack := [Entry(start.0, start.1, [start])];
    assert StackCells(stack) == {start} by {
      assert stack[..0] == [];
    }
  }

  /** One round of the `while` loop of `Solve` after popping `top`, which is
      not the goal: its valid moves are marked and pushed. */
  method Round(maze: array2<char>, rows: int, columns: int, visited: array2<bool>, stack: seq<Entry>, top: Entry,
               ghost g: Rows, ghost start: Pos, ghost goal: Pos, ghost marked: set<Pos>, ghost expanded: set<Pos>)
    returns (stack': seq<Entry>, ghost marked': set<Pos>, ghost expanded': set<Pos>)
    requires rows == maze.Length0 == visited.Length0 && columns == maze.Length1 == visited.Length1
    requires Shows(maze, g)
    requires Searching(g, start, goal, stack + [top], marked, expanded, start, 4)
    requires (top.row, top.col) != goal
    requires forall x, y :: 0 <= x < rows && 0 <= y < columns ==> (visited[x, y] <==> (x, y) in marked)
    modifies visited
    ensures Searching(g, start, goal, stack', marked', expanded', start, 4)
    ensures forall x, y :: 0 <= x < rows && 0 <= y < columns ==> (visited[x, y] <==> (x, y) in marked')
    ensures marked <= marked' <= Box(rows, columns) && (marked' == marked ==> stack' == stack)
    ensures expanded' == expanded + {(top.row, top.col)}
    ensures PushedSoFar(g, (top.row, top.col), top.path, stack, marked, stack', marked', 4)
  {
    Pop(g, start, goal, stack + [top], marked, expanded, start);
    assert (stack + [top])[..|stack|] == stack;
    assert top == (stack + [top])[|stack|];
    expanded' := expanded + {(top.row, top.col)};
    stack', marked' := PushMoves(maze, rows, columns, visited, stack, top.row, top.col, top.path,
                                 g, start, goal, marked, expanded');
    PushedVisits(g, (top.row, top.col), top.path, marked, 4);
    assert stack + [] == stack;
    forall v | v in marked' ensures v in Box(rows, columns) {
      assert Open(g, v);
      assert v == (v.0, v.1);
    }
  }

  /** The `while` loop of `Solve`: pops entries until one is the goal. */
  method Traverse(maze: array2<char>, rows: int, columns: int, visited: array2<bool>, stack0: seq<Entry>,
                  ghost g: Rows, start: Pos, goal: Pos)
    returns (r: Option<string>, ghost path: seq<Pos>)
    requires rows == maze.Length0 == visited.Length0 && columns == maze.Length1 == visited.Length1
    requires Shows(maze, g) && Open(g, start)
    requires stack0 == [Entry(start.0, start.1, [start])]
    requires forall x, y :: 0 <= x < rows && 0 <= y < columns ==> (visited[x, y] <==> (x, y) == start)
    modifies visited
    ensures r.None? ==> !Reachable(g, start, goal)
    ensures r.Some? ==> IsSimplePath(g, path, start, goal) && r.value == Render(" ", path)
  {
    var stack := stack0;
    ghost var marked: set<Pos> := {start};
    ghost var expanded: set<Pos> := {};
    ghost var box := Box(rows, columns);
    Initial(g, start, goal);
    assert start in box by {
      assert Open(g, start);
    }
    while |stack| > 0
      invariant Searching(g, start, goal, stack, marked, expanded, start, 4)
      invariant forall x, y :: 0 <= x < rows && 0 <= y < columns ==> (visited[x, y] <==> (x, y) in marked)
      invariant marked <= box
      decreases box - marked, |stack|
    {
      ghost var before := stack;
      var top := stack[|stack| - 1];
      stack := stack[..|stack| - 1];
      assert before == stack + [top];
      if top.row == goal.0 && top.col == goal.1 {
        var s := PathToString(top.path);
        return Some(s), top.path;
      }
      stack, marked, expanded := Round(maze, rows, columns, visited, stack, top, g, start, goal, marked, expanded);
    }
    Exhausted(g, start, goal, marked, expanded, start);
    return None, [];
  }

  /** What `Solve` answers on the rows of the maze: no path exactly when a
      mark is missing or the first `S` does not reach the first `G`;
      otherwise a simple path between them, rendered with spaces. */
  ghost predicate Solved(g: Rows, r: Option<string>, path: seq<Pos>) {
    && (r.None? <==>
          || !Has(g, 'S') || !Has(g, 'G')
          || forall s, t :: IsFirst(g, 'S', s) && IsFirst(g, 'G', t) ==> !Reachable(g, s, t))
    && (r.Some? ==>
          && |path| > 0 && IsFirst(g, 'S', path[0]) && IsFirst(g, 'G', path[|path| - 1])
          && IsSimplePath(g, path, path[0], path[|path| - 1]) && r.value == Render(" ", path))
  }

  /** The arrays of `Solve` and the search from the first `S`. */
  method SearchFrom(mazeArray: array2<char>, rows: int, columns: int, ghost g: Rows, start: Pos, goal: Pos)
    returns (r: Option<string>, ghost path: seq<Pos>)
    requires rows == mazeArray.Length0 && columns == mazeArray.Length1 && Shows(mazeArray, g)
    requires IsFirst(g, 'S', start) && IsFirst(g, 'G', goal)
    ensures Solved(g, r, path)
  {
    var stack := [Entry(start.0, start.1, [start])];
    var visited := new bool[rows, columns]((i, j) => false);
    visited[start.0, start.1] := true;
    r, path := Traverse(mazeArray, rows, columns, visited, stack, g, start, goal);
    FirstHas(g, 'S', start);
    FirstHas(g, 'G', goal);
    if r.Some? {
      assert IsPath(g, path, start, goal);
      assert Reachable(g, start, goal);
    } else {
      FirstsUnreachable(g, 'S', 'G', start, goal);
    }
  }

  /** `Solve`: converts the text, finds `S` and `G`, and searches depth first. */
  method Solve(maze: string) returns (r: Option<string>, ghost path: seq<Pos>)
    ensures 'S' !in maze || 'G' !in maze ==> r.None?
    ensures Solved(MazeRows(maze), r, path)
  {
    ghost var g := MazeRows(maze);
    MazeRowsMarks(maze);
    var mazeArray := ConvertTo2DArray(maze);
    var rows := mazeArray.Length0;
    var columns := mazeArray.Length1;
    var start := FindStart(mazeArray, rows, columns, g);
    var goal := FindGoal(mazeArray, rows, columns, g);
    if start.None? || goal.None? {
      return None, [];
    }
    r, path := SearchFrom(mazeArray, rows, columns, g, start.value, goal.value);
  }
}
