/** `MazeService`: checks a submitted maze against its own guard, solves it
    with the configured solver and stores a solved maze in the repository. */
module MazeService {
  import opened Outcomes
  import opened Text
  import opened MazeRepository
  import V = MazeRequestValidator
  import BfsMazeSolver
  import DfsMazeSolver
  import DfsRecursiveMazeSolver
  import opened Grid
  import opened CharGrid
  import opened PathFormat

  const SizeMessage := "Maze exceeds the allowed size of 20x20."
  const CountMessage := "Maze must contain exactly one start point (S) and one goal point (G)."
  const InvalidCharactersMessage := "Maze contains invalid characters."
  const MissingMessage := "Start or goal point is missing."

  /** The guard's rules: each condition, true when the maze breaks the rule,
      with its message, in declaration order. */
  function Validations(mazeData: string): (v: seq<(bool, string)>)
    ensures |v| == 4
    ensures v[0].1 == SizeMessage && v[1].1 == CountMessage
    ensures v[2].1 == InvalidCharactersMessage && v[3].1 == MissingMessage
    ensures v[0].0 <==> !V.ContainValidDemensions(mazeData)
    ensures v[2].0 <==> !V.ContainAllowedCharacters(mazeData)
    ensures v[3].0 ==> v[1].0
  {
    var rows := Split(mazeData, '\n');
    var startCount := Count(mazeData, 'S');
    var goalCount := Count(mazeData, 'G');
    [ (|rows| > 20 || exists i :: 0 <= i < |rows| && |rows[i]| > 20, SizeMessage),
      (startCount != 1 || goalCount != 1, CountMessage),
      (!V.ContainAllowedCharacters(mazeData), InvalidCharactersMessage),
      (startCount == 0 || goalCount == 0, MissingMessage) ]
  }

  /** `Where(condition).Select(errorMessage)`: the messages of the broken
      rules, in order. */
  function Failing(validations: seq<(bool, string)>): (errors: seq<string>)
    ensures |errors| <= |validations|
    ensures forall m :: m in errors <==> exists i :: 0 <= i < |validations| && validations[i] == (true, m)
    ensures |validations| > 0 && validations[|validations| - 1].0 ==>
      |errors| > 0 && errors[|errors| - 1] == validations[|validations| - 1].1
  {
    if |validations| == 0 then []
    else
      var rest := Failing(validations[1..]);
      assert forall i :: 1 <= i < |validations| ==> validations[i] == validations[1..][i - 1];
      (if validations[0].0 then [validations[0].1] else []) + rest
  }

  /** The filter keeps the rules' order: the messages of a sequence of rules
      are those of its first part followed by those of the rest. */
  lemma {:induction false} FailingAppend(a: seq<(bool, string)>, b: seq<(bool, string)>)
    ensures Failing(a + b) == Failing(a) + Failing(b)
  {
    if |a| > 0 {
      assert (a + b)[1..] == a[1..] + b;
      FailingAppend(a[1..], b);
    } else {
      assert a + b == b;
    }
  }

  /** One rule: its message when it is broken, nothing otherwise. */
  lemma FailingOne(x: (bool, string))
    ensures Failing([x]) == if x.0 then [x.1] else []
  {
    assert [x][1..] == [];
  }

  /** Four rules' messages, in their order. */
  lemma FailingFour(v: seq<(bool, string)>)
    requires |v| == 4
    ensures Failing(v) ==
      (if v[0].0 then [v[0].1] else []) + (if v[1].0 then [v[1].1] else []) +
      (if v[2].0 then [v[2].1] else []) + (if v[3].0 then [v[3].1] else [])
  {
    var a, b, c, d := [v[0]], [v[1]], [v[2]], [v[3]];
    assert v == a + b + c + d;
    FailingOne(v[0]);
    FailingOne(v[1]);
    FailingOne(v[2]);
    FailingOne(v[3]);
    FailingAppend(a + b + c, d);
    FailingAppend(a + b, c);
    FailingAppend(a, b);
  }

  /** The messages the guard collects for `mazeData`: the size, count,
      characters and missing-point messages, each present when its rule is
      broken, in that order. */
  function GuardErrors(mazeData: string): (errors: seq<string>)
    ensures errors ==
      (if V.ContainValidDemensions(mazeData) then [] else [SizeMessage]) +
      (if Count(mazeData, 'S') != 1 || Count(mazeData, 'G') != 1 then [CountMessage] else []) +
      (if V.ContainAllowedCharacters(mazeData) then [] else [InvalidCharactersMessage]) +
      (if Count(mazeData, 'S') == 0 || Count(mazeData, 'G') == 0 then [MissingMessage] else [])
    ensures SizeMessage in errors <==> !V.ContainValidDemensions(mazeData)
    ensures CountMessage in errors <==> Count(mazeData, 'S') != 1 || Count(mazeData, 'G') != 1
    ensures InvalidCharactersMessage in errors <==> !V.ContainAllowedCharacters(mazeData)
    ensures MissingMessage in errors <==> Count(mazeData, 'S') == 0 || Count(mazeData, 'G') == 0
    ensures forall m :: m in errors ==> m in [SizeMessage, CountMessage, InvalidCharactersMessage, MissingMessage]
  {
    var v := Validations(mazeData);
    FailingFour(v);
    Failing(v)
  }

  /** `GuardAgainstInvalidMaze`: passes a maze within 20 by 20 with one `S`,
      one `G` and only allowed characters; otherwise throws one
      `ArgumentException` with the collected messages joined by a space. */
  function GuardAgainstInvalidMaze(mazeData: string): (r: Outcome<Unit>)
    ensures r.Returned? <==>
      && V.ContainValidDemensions(mazeData) && V.ContainAllowedCharacters(mazeData)
      && Count(mazeData, 'S') == 1 && Count(mazeData, 'G') == 1
    ensures r.Threw? ==> r.exception == ArgumentException(Join(" ", GuardErrors(mazeData)))
  {
    var errors := GuardErrors(mazeData);
    assert |errors| > 0 ==> errors[0] in errors;
    if |errors| > 0 then Threw(ArgumentException(Join(" ", errors))) else Returned(Unit)
  }

  /** A maze missing `S` or `G` breaks the count rule too, and the thrown
      message ends with the missing-point message. */
  lemma MissingPointMessage(mazeData: string)
    requires Count(mazeData, 'S') == 0 || Count(mazeData, 'G') == 0
    ensures CountMessage in GuardErrors(mazeData)
    ensures var r := GuardAgainstInvalidMaze(mazeData);
      && r.Threw? && r.exception.ArgumentException?
      && var m := r.exception.message;
         |MissingMessage| <= |m| && m[|m| - |MissingMessage|..] == MissingMessage
  {
    var v := Validations(mazeData);
    var errors := GuardErrors(mazeData);
    assert v[3] == (true, MissingMessage);
    assert errors[|errors| - 1] == MissingMessage;
    JoinEndsWith(" ", errors);
  }

  /** Whatever the request validator accepts, the guard accepts. */
  lemma ValidatedMazePassesGuard(mazeData: string)
    requires V.Validate(mazeData) == []
    ensures GuardAgainstInvalidMaze(mazeData) == Returned(Unit)
  {
    V.StartGoalByCounts(mazeData);
  }

  /** The converse fails: the guard does not ask `S` to come before `G`. */
  lemma GuardAllowsGoalBeforeStart()
    ensures GuardAgainstInvalidMaze("GS") == Returned(Unit)
    ensures V.Validate("GS") == [V.StartGoalMessage]
  {
    var m := "GS";
    SplitFree(m, '\n');
    assert Count(m, 'S') == 1 && Count(m, 'G') == 1;
    assert IndexOf(m, 'S') == 1 && IndexOf(m, 'G') == 0;
    V.StartGoalByCounts(m);
    V.StartsNonBlank(m);
    assert V.ContainAllowedCharacters(m);
    assert V.ContainValidDemensions(m);
  }

  /** No path leads from the first `S` to the first `G`, or one of them is missing. */
  ghost predicate Unsolvable(g: Rows) {
    || !Has(g, 'S') || !Has(g, 'G')
    || forall s, t :: IsFirst(g, 'S', s) && IsFirst(g, 'G', t) ==> !Reachable(g, s, t)
  }

  /** The solver the service is configured with. The recursive solver is
      modelled with its depth rule: `PostIncrement` as the program passes
      the depth, `PlusOne` corrected. */
  datatype SolverKind = Bfs | Dfs | DfsRecursive(rule: DfsRecursiveMazeSolver.DepthRule)

  /** The grid the configured solver searches: the rows of the text as they
      are for the breadth-first solver, trimmed and padded for the two
      depth-first ones. */
  function SolverRows(kind: SolverKind, maze: string): Rows {
    if kind == Bfs then Split(maze, '\n') else MazeRows(maze)
  }

  /** The separator each solver puts between rendered cells. */
  function Separator(kind: SolverKind): string {
    match kind
    case Bfs => " -> "
    case Dfs => " "
    case DfsRecursive(_) => "->"
  }

  /** `path` is a simple path from the first `S` to the first `G`. */
  ghost predicate FirstToFirst(rows: Rows, path: seq<Pos>) {
    && |path| > 0 && IsFirst(rows, 'S', path[0]) && IsFirst(rows, 'G', path[|path| - 1])
    && IsSimplePath(rows, path, path[0], path[|path| - 1])
  }

  /** A walk from the first `S` to the first `G` makes the maze solvable. */
  lemma WalkSolvable(rows: Rows, path: seq<Pos>)
    requires |path| > 0 && IsFirst(rows, 'S', path[0]) && IsFirst(rows, 'G', path[|path| - 1])
    requires IsWalk(rows, path)
    ensures !Unsolvable(rows)
  {
    var s, t := path[0], path[|path| - 1];
    FirstHas(rows, 'S', s);
    FirstHas(rows, 'G', t);
    assert IsPath(rows, path, s, t);
  }

  /** A breadth-first answer that returns is no path exactly when the maze
      has none. */
  lemma BfsAnswer(rows: Rows, r: Outcome<Option<string>>, path: seq<Pos>, dequeued: nat)
    requires BfsMazeSolver.Solved(rows, r, path, dequeued)
    ensures r.Returned? ==> (r.value.None? <==> Unsolvable(rows))
  {
    if r.Returned? && r.value.Some? {
      assert IsShortestPath(rows, path, path[0], path[|path| - 1]);
      WalkSolvable(rows, path);
    }
  }

  /** `IMazeSolver.Solve` on the configured solver. A solution is the
      solver's rendering of a simple path from the first `S` to the first
      `G`, a shortest one for the breadth-first solver. No solution means the
      grid is unsolvable, except for the recursive solver with the depth rule
      as written, which can miss a path. Only the breadth-first solver can
      throw, on a row longer than the first. */
  method Solve(kind: SolverKind, maze: string) returns (r: Outcome<Option<string>>, ghost path: seq<Pos>)
    ensures 'S' !in maze || 'G' !in maze ==> r == Returned(None)
    ensures r.Threw? ==> kind == Bfs && r.exception == IndexOutOfRangeException
    ensures kind != Bfs ==> r.Returned?
    ensures r.Returned? && r.value.Some? ==>
      && FirstToFirst(SolverRows(kind, maze), path)
      && r.value.value == Render(Separator(kind), path)
      && (kind == Bfs ==> IsShortestPath(SolverRows(kind, maze), path, path[0], path[|path| - 1]))
    ensures r.Returned? && r.value.Some? ==> !Unsolvable(SolverRows(kind, maze))
    ensures r.Returned? && kind != DfsRecursive(DfsRecursiveMazeSolver.PostIncrement) ==>
      (r.value.None? <==> Unsolvable(SolverRows(kind, maze)))
  {
    match kind {
      case Bfs =>
        ghost var dequeued;
        r, path, dequeued := BfsMazeSolver.Solve(maze);
        BfsAnswer(Split(maze, '\n'), r, path, dequeued);
      case Dfs =>
        var solution;
        solution, path := DfsMazeSolver.Solve(maze);
        r := Returned(solution);
      case DfsRecursive(rule) =>
        var solution;
        solution, path := DfsRecursiveMazeSolver.Solve(maze, rule);
        r := Returned(solution);
        if solution.Some? {
          WalkSolvable(MazeRows(maze), path);
        }
    }
  }

  class MazeService {
    const mazeRepository: BasicInMemoryMazeRepository
    const mazeSolver: SolverKind

    constructor (repository: BasicInMemoryMazeRepository, solver: SolverKind)
      ensures mazeRepository == repository && mazeSolver == solver
    {
      mazeRepository := repository;
      mazeSolver := solver;
    }

    /** `Get`: the repository's answer. */
    method Get(id: Guid) returns (r: Outcome<MazeConfiguration>)
      ensures id in mazeRepository.mazeDataStore ==> r == Returned(mazeRepository.mazeDataStore[id])
      ensures id !in mazeRepository.mazeDataStore ==> r == Threw(NullReferenceException(NotFoundMessage(id)))
    {
      r := mazeRepository.Get(id);
    }

    /** `GetAll`: the repository's stored entities. */
    method GetAll() returns (r: seq<MazeConfiguration>)
      requires mazeRepository.Valid()
      ensures forall e :: e in r <==> e in mazeRepository.mazeDataStore.Values
    {
      r := mazeRepository.GetAll();
    }

    /** `Submit`: a maze failing the guard throws before it is solved; a maze
        the solver returns no solution for returns none; a solved one is
        stored under the new id `newId` (the model's stand-in for
        `Guid.NewGuid()`) with its text and solution, and the solution, the
        solver's rendering of a path from the first `S` to the first `G`, is
        returned. Only a solved maze changes the store. */
    method Submit(mazeConfiguration: MazeConfiguration, newId: Guid)
      returns (r: Outcome<Option<string>>, ghost path: seq<Pos>)
      modifies mazeRepository
      ensures GuardAgainstInvalidMaze(mazeConfiguration.maze).Threw? ==>
        r == Threw(GuardAgainstInvalidMaze(mazeConfiguration.maze).exception)
      ensures GuardAgainstInvalidMaze(mazeConfiguration.maze).Returned? && r.Threw? ==>
        || (mazeSolver == Bfs && r.exception == IndexOutOfRangeException)
        || (newId in old(mazeRepository.mazeDataStore) && r.exception.ArgumentException?)
      ensures r.Returned? && r.value.Some? ==>
        && GuardAgainstInvalidMaze(mazeConfiguration.maze).Returned?
        && FirstToFirst(SolverRows(mazeSolver, mazeConfiguration.maze), path)
        && r.value.value == Render(Separator(mazeSolver), path)
        && (mazeSolver == Bfs ==>
              IsShortestPath(SolverRows(mazeSolver, mazeConfiguration.maze), path, path[0], path[|path| - 1]))
        && newId !in old(mazeRepository.mazeDataStore)
        && mazeRepository.mazeDataStore ==
             old(mazeRepository.mazeDataStore)[newId := MazeConfiguration(newId, mazeConfiguration.maze, r.value)]
      ensures r == Returned(None) ==>
        && GuardAgainstInvalidMaze(mazeConfiguration.maze).Returned?
        && (mazeSolver != DfsRecursive(DfsRecursiveMazeSolver.PostIncrement) ==>
              Unsolvable(SolverRows(mazeSolver, mazeConfiguration.maze)))
      ensures !(r.Returned? && r.value.Some?) ==> mazeRepository.mazeDataStore == old(mazeRepository.mazeDataStore)
      ensures old(mazeRepository.Valid()) ==> mazeRepository.Valid()
    {
      var maze := mazeConfiguration.maze;
      var guard := GuardAgainstInvalidMaze(maze);
      if guard.Threw? {
        return Threw(guard.exception), [];
      }
      var solution;
      solution, path := Solve(mazeSolver, maze);
      if solution.Threw? {
        return Threw(solution.exception), path;
      }
      if solution.value.None? {
        return Returned(None), path;
      }
      var added := mazeRepository.Add(MazeConfiguration(newId, maze, solution.value));
      if added.Threw? {
        return Threw(added.exception), path;
      }
      return Returned(solution.value), path;
    }
  }
}
