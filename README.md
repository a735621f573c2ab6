# MazeSolver in Dafny

A model of the core of MazeSolver, a small .NET service that solves grid mazes. A maze arrives as text: one line per row, with
`S` for the start, `G` for the goal, `X` for a wall and `_` for an open cell. The service does three things with it:

- checks the text against its own rules;
- solves the maze with one of three interchangeable solvers;
- stores a solved maze, together with its solution, in an in-memory repository keyed by a `Guid`.

The API layer also runs the text through a request validator with four ordered rules.

The model covers the following.

- **The breadth-first solver** (`BfsMazeSolver`).
  - It splits the text on `'\n'` without trimming it.
  - It finds the first `S` and the first `G`, then runs a FIFO search over `visited` and `parent` arrays. Both arrays
    are sized by the first row.
  - It rebuilds the path by walking the parent links back from the goal.
  - The queue is a sequence. The two arrays are `array2`s updated in place.
  - A reachable cell beyond the first row's width makes the source index past `visited`. The model returns this as an
    `IndexOutOfRangeException` outcome rather than excluding such mazes.
- **The iterative depth-first solver** (`DfsMazeSolver`).
  - The text is trimmed, split, and copied into a `char[,]` as wide as the longest row. Short rows are padded with
    `'\0'`, and `'\0'` is not a wall (`CharGrid`).
  - The search is a LIFO stack of entries. Each entry carries its own path.
  - A cell is marked visited when it is pushed.
  - Expanding a popped cell pushes exactly its open, unvisited neighbours in up/down/left/right order (`Pushed`). The
    visited set grows by exactly those cells.
- **The recursive backtracking solver** (`DfsRecursiveMazeSolver`).
  - It uses a shared `visited` array and a shared path list (the class `PathList`).
  - It appends a cell before recursing and removes it on backtrack.
  - A depth guard gives up past rows × columns.
  - The method is proved equal to a recursive specification function, `Explore`.
- **Path rendering.** Cells are rendered as `(row,column)`. The separator differs per solver: `" -> "` for
  breadth-first, `" "` for iterative depth-first, and `"->"` for recursive depth-first.
- **The service's guard** (`MazeService.GuardAgainstInvalidMaze`). It collects every broken rule, in declaration order,
  into one `ArgumentException` whose message joins them with a space.
- **`MazeService.Submit`.** It runs the guard, then the configured solver, and adds a new entity only when the maze is
  solved.
- **The request validator's rule chain** (`MazeRequestValidator`). The two regular expressions are written as
  predicates over the string.
- **`BasicInMemoryMazeRepository`.** A class over a `map<Guid, MazeConfiguration>` with `Add`, `Delete`, `Get`,
  `GetAll` and `Update`, each with its exception.

The .NET string operations the code relies on are in `Text`:

- `Split`, `Trim` (with the `Char.IsWhiteSpace` set), `IndexOf`, LINQ `Count` and `string.Join`;
- integer formatting.

Shared graph notions are in `Grid`:

- four-way moves in the order up, down, left, right;
- walks, reachability, shortest paths, and cells within `n` moves.

Two things the proofs establish about the whole system:

- **The guard is weaker than the request validator.** Every text the validator accepts passes the guard. The guard
  does not ask the `S` to come before the `G`, so `"GS"` passes the guard and fails the validator.
- **Only the breadth-first solver can throw.** It throws only on a maze with a row longer than the first row, when
  the search reaches a cell beyond the first row's width. The service configured with the breadth-first solver passes
  such mazes on to it.

## Model

| member | source | states |
|---|---|---|
| BfsMazeSolver.Solve | MazeSolver.Domain/BFSMazeSolver.cs:16-58 | No `S` or no `G` in the text gives no path. Otherwise the answer satisfies `Solved` on the rows: a throw only when some row is longer than the first; no path only when the first `S` cannot reach the first `G`; a found path runs from the first `S` to the first `G`, is a shortest walk between them, has no repeated cell and is rendered with `" -> "`; at most rows × width cells are dequeued |
| BfsMazeSolver.SearchFrom | MazeSolver.Domain/BFSMazeSolver.cs:27-32 | With the arrays sized by the first row, a start beyond the first row's width throws; otherwise the search answers as `Solved` says |
| BfsMazeSolver.MissingSolved | MazeSolver.Domain/BFSMazeSolver.cs:22-25 | Returning no path without searching is the right answer when `S` or `G` is missing |
| BfsMazeSolver.SplitMarks | MazeSolver.Domain/BFSMazeSolver.cs:18-20 | `S` (resp. `G`) is in the text exactly when some row of the split holds it |
| BfsMazeSolver.Search | MazeSolver.Domain/BFSMazeSolver.cs:34-57 | The `while` loop from a queue holding the visited start: a throw only on a row longer than the first; an empty queue means the goal is unreachable; dequeuing the goal yields a shortest, repetition-free path rendered with `" -> "`; the number of dequeues is bounded by rows × width |
| BfsMazeSolver.Advance | MazeSolver.Domain/BFSMazeSolver.cs:36-54 | Dequeuing a non-goal cell and enqueuing its valid moves keeps the search invariant `Frontier` (each cell recorded once, the queue split into the current and next level, recorded distances exact, dequeued cells expanded), keeps `visited` equal to the recorded cells and keeps the parent links; the enqueued cells are exactly the open, unrecorded neighbours of the dequeued cell in the order up, down, left, right (`Grows`), each one move further than it, with every earlier distance unchanged, and each has the dequeued cell as its parent |
| BfsMazeSolver.Expand | MazeSolver.Domain/BFSMazeSolver.cs:43-54 | After the four directions every open neighbour of the dequeued cell is recorded and the invariants are kept; the history grows by exactly the fresh neighbours in direction order (`Grows`), and the dequeued cell is the parent of each of them, so the first cell to reach a neighbour wins the tie |
| BfsMazeSolver.Direction | MazeSolver.Domain/BFSMazeSolver.cs:43-53 | One round of the `foreach`: `Grows` and the parent fact extend from the first k directions to the first k + 1 |
| BfsMazeSolver.Visit | MazeSolver.Domain/BFSMazeSolver.cs:45-53 | One direction: a valid move appends exactly the new cell to the history, records it at one more move than the dequeued cell, gives it the dequeued cell as parent and enqueues it; anything else leaves history and distances unchanged; no other parent cell changes; the recorded cells never exceed rows × width |
| BfsMazeSolver.Record | MazeSolver.Domain/BFSMazeSolver.cs:48-52 | The valid-move branch: the new cell is appended to history and queue at distance d + 1, with the dequeued cell as parent and no other parent cell changed; the invariant moves on to the next direction |
| BfsMazeSolver.Mark | MazeSolver.Domain/BFSMazeSolver.cs:50-51 | Setting `visited` and `parent` for the new cell: its parent becomes the dequeued cell and no other parent cell changes; `visited` stays equal to the recorded cells and every parent link points to an adjacent cell one move closer to the start |
| BfsMazeSolver.Fresh | MazeSolver.Domain/BFSMazeSolver.cs:43-53 | What expanding a cell enqueues: only open cells not yet recorded, each reached by one of the directions tried so far |
| BfsMazeSolver.FreshBefore | MazeSolver.Domain/BFSMazeSolver.cs:43-46 | Distinct directions lead to distinct cells, so the k-th direction's cell was not enqueued by the earlier directions |
| BfsMazeSolver.GrowsStep | MazeSolver.Domain/BFSMazeSolver.cs:43-53 | One more direction, which appends its cell only when it is open and unrecorded, extends `Grows` from k to k + 1 directions |
| BfsMazeSolver.Initial | MazeSolver.Domain/BFSMazeSolver.cs:31-32 | The queue holding only the start satisfies the search invariant |
| BfsMazeSolver.Dequeue | MazeSolver.Domain/BFSMazeSolver.cs:36 | Dequeuing the first cell of the next level moves the level on; the invariant is kept |
| BfsMazeSolver.LevelAdvance | MazeSolver.Domain/BFSMazeSolver.cs:34-54 | When a level is fully dequeued, every cell within one more move is already recorded (FIFO order) |
| BfsMazeSolver.Enqueue | MazeSolver.Domain/BFSMazeSolver.cs:48-52 | Enqueuing an unrecorded open neighbour at distance d + 1 keeps the invariant |
| BfsMazeSolver.ExactAppend | MazeSolver.Domain/BFSMazeSolver.cs:48-52 | An unrecorded open neighbour of a level-d cell is exactly d + 1 moves from the start |
| BfsMazeSolver.Skip | MazeSolver.Domain/BFSMazeSolver.cs:48 | Passing over a wall, an outside cell or a visited cell keeps the invariant |
| BfsMazeSolver.HistBound | MazeSolver.Domain/BFSMazeSolver.cs:48-53 | Since no cell is enqueued twice, at most rows × width cells are ever enqueued |
| BfsMazeSolver.Exhausted | MazeSolver.Domain/BFSMazeSolver.cs:57 | An empty queue leaves a set of recorded cells closed under moves that holds the start and not the goal, so the goal is unreachable |
| BfsMazeSolver.ShortestByLevel | MazeSolver.Domain/BFSMazeSolver.cs:27-55 | A path of n moves to a goal that is not within n - 1 moves is a shortest path |
| BfsMazeSolver.FindPoint | MazeSolver.Domain/BFSMazeSolver.cs:60-72 | The first row holding the character and its first index there, or (-1, -1) exactly when no row holds it |
| BfsMazeSolver.IsValidMove | MazeSolver.Domain/BFSMazeSolver.cs:74-78 | A move is valid exactly when the cell is inside the rows, not `'X'` and not visited; it throws exactly when such a cell lies beyond the `visited` array |
| BfsMazeSolver.ReconstructPath | MazeSolver.Domain/BFSMazeSolver.cs:80-93 | Following parent links from the goal and reversing gives a repetition-free walk from start to goal of exactly the goal's distance, rendered with `" -> "` |
| BfsMazeSolver.ChainStep | MazeSolver.Domain/BFSMazeSolver.cs:85-89 | Each parent link followed extends a walk back from the goal, one level closer to the start |
| BfsMazeSolver.ChainDone | MazeSolver.Domain/BFSMazeSolver.cs:90-92 | The chain back from the goal, reversed, is a simple path from start to goal |
| DfsMazeSolver.Solve | MazeSolver.Domain/DFSMazeSolver.cs:11-60 | No `S` or no `G` gives no path; no path exactly when a mark is missing or the first `S` cannot reach the first `G` (both directions); a found path is a simple path from the first `S` to the first `G`, rendered with single spaces |
| DfsMazeSolver.SearchFrom | MazeSolver.Domain/DFSMazeSolver.cs:26-31 | The search from the first `S`, with only the start visited and on the stack, answers as `Solved` says |
| DfsMazeSolver.Traverse | MazeSolver.Domain/DFSMazeSolver.cs:34-59 | The `while` loop terminates (each cell is pushed at most once); no path means unreachable; a popped goal yields its entry's simple path from the start, rendered with spaces |
| DfsMazeSolver.Round | MazeSolver.Domain/DFSMazeSolver.cs:36-56 | Popping a non-goal entry and pushing its valid moves keeps the invariant `Searching`; the popped cell joins the expanded cells (`expanded' == expanded + {popped}`); the stack becomes the rest of the stack plus exactly the `Pushed` entries of the popped cell and the visited set grows by exactly their cells (`PushedSoFar`); the visited cells stay inside the array, and they are unchanged only when nothing was pushed |
| DfsMazeSolver.PushMoves | MazeSolver.Domain/DFSMazeSolver.cs:45-56 | For a popped cell, the `for` loop leaves the stack equal to the old stack plus the `Pushed` entries (one per open, unvisited neighbour, in up/down/left/right order, each carrying the popped path plus that neighbour) and the visited set equal to the old one plus exactly their cells (`PushedSoFar`); afterwards every open neighbour of the popped cell is visited and the invariant is kept |
| DfsMazeSolver.PushDirection | MazeSolver.Domain/DFSMazeSolver.cs:47-55 | One round of the `for` loop turns the growth listed by `Pushed` for the first `i` directions into that for the first `i + 1`, keeping the invariant and `visited` in step with the visited set |
| DfsMazeSolver.Pushed | MazeSolver.Domain/DFSMazeSolver.cs:45-56 | The entries the loop pushes over the first `k` directions; at most one per direction |
| DfsMazeSolver.PushedCells | MazeSolver.Domain/DFSMazeSolver.cs:47-55 | A cell is among those `Pushed` lists if and only if it is open, was not visited before the loop, and is the neighbour in one of the first `k` directions |
| DfsMazeSolver.PushedNext | MazeSolver.Domain/DFSMazeSolver.cs:50-55 | Direction `k` adds its neighbour to the pushed cells exactly when that neighbour is open and was not visited before the loop, and adds nothing else |
| DfsMazeSolver.PushedUnvisited | MazeSolver.Domain/DFSMazeSolver.cs:50-52 | The pushed cells are disjoint from the cells visited before the loop |
| DfsMazeSolver.PushedVisits | MazeSolver.Domain/DFSMazeSolver.cs:50-55 | The loop pushes nothing if and only if the visited set does not grow |
| DfsMazeSolver.PushedBefore | MazeSolver.Domain/DFSMazeSolver.cs:45-47 | The neighbour in direction `m` is not among the cells pushed by the directions before `k <= m`, so the visited check of direction `k` sees exactly the cells visited before the loop plus the earlier pushes |
| DfsMazeSolver.PushedStep | MazeSolver.Domain/DFSMazeSolver.cs:47-55 | What `TryMove` does in direction `k` extends the stack and visited set from the `Pushed` growth for `k` directions to that for `k + 1` |
| DfsMazeSolver.Expanded | MazeSolver.Domain/DFSMazeSolver.cs:45-56 | Under the invariant, a popped cell whose four directions were tried has every open neighbour visited |
| DfsMazeSolver.TryMove | MazeSolver.Domain/DFSMazeSolver.cs:47-55 | A valid move (an open, unvisited cell) is marked and pushed: the stack becomes the old stack plus one entry for the new cell whose path is the popped path plus the new cell, and the visited set gains exactly that cell; otherwise stack and visited set are unchanged |
| DfsMazeSolver.IsValidMove | MazeSolver.Domain/DFSMazeSolver.cs:113-123 | A valid move is inside the array and not yet visited; an in-bounds `'X'` is never valid |
| DfsMazeSolver.MarkVisited | MazeSolver.Domain/DFSMazeSolver.cs:52 | `visited` holds exactly the visited cells plus the new one |
| DfsMazeSolver.Initial | MazeSolver.Domain/DFSMazeSolver.cs:28-31 | The stack holding the start with path [start] satisfies the invariant |
| DfsMazeSolver.Pop | MazeSolver.Domain/DFSMazeSolver.cs:36 | Popping a non-goal entry keeps the invariant with that cell expanded |
| DfsMazeSolver.Push | MazeSolver.Domain/DFSMazeSolver.cs:52-54 | The pushed entry's path, the popped path plus the new cell, is a simple path from the start to the new cell |
| DfsMazeSolver.Skip | MazeSolver.Domain/DFSMazeSolver.cs:50 | An invalid move keeps the invariant |
| DfsMazeSolver.Exhausted | MazeSolver.Domain/DFSMazeSolver.cs:59 | An empty stack means the goal is unreachable |
| DfsMazeSolver.ValidMoveIsOpen | MazeSolver.Domain/DFSMazeSolver.cs:113-123 | `IsValidMove` holds exactly for an in-bounds cell that is not `'X'` and not visited |
| DfsMazeSolver.FindStart | MazeSolver.Domain/DFSMazeSolver.cs:81-94 | The first `S` in row-major order, or nothing exactly when there is no `S` |
| DfsMazeSolver.FindGoal | MazeSolver.Domain/DFSMazeSolver.cs:97-110 | The first `G` in row-major order, or nothing exactly when there is no `G` |
| DfsMazeSolver.PathToString | MazeSolver.Domain/DFSMazeSolver.cs:126-136 | Appending each cell and a space, then trimming, gives the cells joined by single spaces |
| DfsMazeSolver.PosTextsStep | MazeSolver.Domain/DFSMazeSolver.cs:130-133 | One more loop round appends the cell's text and a space |
| DfsMazeSolver.TrimTerminated | MazeSolver.Domain/DFSMazeSolver.cs:135 | `Trim` removes exactly the final space |
| CharGrid.ConvertTo2DArray | MazeSolver.Domain/DFSMazeSolver.cs:63-78 | The array has one row per line of the trimmed text, is as wide as the longest line, holds each line's characters and `'\0'` after them |
| CharGrid.CopyRow | MazeSolver.Domain/DFSMazeSolver.cs:71-74 | Row i receives the line's characters; every other cell is unchanged |
| CharGrid.MaxLength | MazeSolver.Domain/DFSMazeSolver.cs:66 | The longest line's length: no line is longer and some line has it |
| CharGrid.Padded | MazeSolver.Domain/DFSMazeSolver.cs:67-75 | Every line padded with `'\0'` to the longest: a rectangle agreeing with the lines |
| CharGrid.PadRow | MazeSolver.Domain/DFSMazeSolver.cs:67 | A line extended with `'\0'` to the given width |
| CharGrid.PaddedShows | MazeSolver.Domain/DFSMazeSolver.cs:67-77 | The filled array shows the padded rows |
| CharGrid.FindPoint | MazeSolver.Domain/DFSRecursiveMazeSolver.cs:108-121 | The first occurrence in row-major order, or nothing exactly when the character is absent |
| CharGrid.MazeRowsMarks | MazeSolver.Domain/DFSMazeSolver.cs:65 | After trimming, splitting and padding, `S` and `G` are in the grid exactly when they are in the text |
| CharGrid.MazeRows | MazeSolver.Domain/DFSMazeSolver.cs:65-67 | The grid has one row per `'\n'` of the trimmed text plus one, all rows equally wide, and holds a character that is neither white space nor `'\0'` exactly when the text does |
| CharGrid.PaddedSplitHas | MazeSolver.Domain/DFSMazeSolver.cs:63-78 | Any character that is neither white space nor `'\0'` survives trimming, splitting and padding, and no other such character appears |
| CharGrid.PaddedHas | MazeSolver.Domain/DFSMazeSolver.cs:67-75 | Padding adds only `'\0'` |
| CharGrid.SplitTrimHas | MazeSolver.Domain/DFSMazeSolver.cs:65 | Trimming and splitting keep every non-white-space character |
| DfsRecursiveMazeSolver.Solve | MazeSolver.Domain/DFSRecursiveMazeSolver.cs:13-36 | No `S` or no `G` gives no path; the answer is the top-level search from the first `S` to the first `G`; a found path is a simple path between them rendered with `"->"`; with the corrected depth rule, no path exactly when a mark is missing or the goal is unreachable |
| DfsRecursiveMazeSolver.SolveGrid | MazeSolver.Domain/DFSRecursiveMazeSolver.cs:16-35 | The same, once the text is in the array |
| DfsRecursiveMazeSolver.Run | MazeSolver.Domain/DFSRecursiveMazeSolver.cs:27-35 | With nothing visited and an empty path list, a path is returned exactly when `Explore` finds the goal, and it is `Explore`'s path rendered with `"->"` |
| DfsRecursiveMazeSolver.DfsImplementation | MazeSolver.Domain/DFSRecursiveMazeSolver.cs:38-89 | The method on the shared arrays and list does what `Explore` says: same answer, same visited cells, same final path |
| DfsRecursiveMazeSolver.TryDirections | MazeSolver.Domain/DFSRecursiveMazeSolver.cs:71-84 | The loop over the four directions, with the child depth given by the depth rule, does what `ExploreDirs` says |
| DfsRecursiveMazeSolver.MarkCell | MazeSolver.Domain/DFSRecursiveMazeSolver.cs:61 | `visited` holds exactly the visited cells plus the new one |
| DfsRecursiveMazeSolver.Explore | MazeSolver.Domain/DFSRecursiveMazeSolver.cs:48-88 | `visited` only grows, and a call that returns false leaves the path exactly as it found it (the backtracking invariant) |
| DfsRecursiveMazeSolver.ExploreDirs | MazeSolver.Domain/DFSRecursiveMazeSolver.cs:70-88 | The same for the loop over directions |
| DfsRecursiveMazeSolver.ExploreSound | MazeSolver.Domain/DFSRecursiveMazeSolver.cs:60-84 | A successful call keeps the old path as a prefix and appends a simple path from its cell to the goal through cells newly visited |
| DfsRecursiveMazeSolver.ExploreDirsSound | MazeSolver.Domain/DFSRecursiveMazeSolver.cs:70-84 | A successful child extends the path from the current cell to the goal |
| DfsRecursiveMazeSolver.PrependStep | MazeSolver.Domain/DFSRecursiveMazeSolver.cs:74-80 | A path from an adjacent child, after the current cell, is a path from the current cell |
| DfsRecursiveMazeSolver.ExploreComplete | MazeSolver.Domain/DFSRecursiveMazeSolver.cs:48-89 | With the corrected depth rule the guard never fires, and a failed call leaves every open neighbour of the cells it visited visited, without the goal |
| DfsRecursiveMazeSolver.ExploreDirsComplete | MazeSolver.Domain/DFSRecursiveMazeSolver.cs:70-88 | A failed loop has every open neighbour of the current cell visited |
| DfsRecursiveMazeSolver.PlusOneComplete | MazeSolver.Domain/DFSRecursiveMazeSolver.cs:30 | With the corrected depth rule the top-level call finds the goal exactly when it is reachable |
| DfsRecursiveMazeSolver.TopLevel | MazeSolver.Domain/DFSRecursiveMazeSolver.cs:28-33 | A top-level success is a simple path from the first `S` to the first `G`; with the corrected rule, success exactly when reachable |
| DfsRecursiveMazeSolver.FoundAnswer | MazeSolver.Domain/DFSRecursiveMazeSolver.cs:30-35 | The top-level outcome meets `Answers` |
| DfsRecursiveMazeSolver.MissingAnswer | MazeSolver.Domain/DFSRecursiveMazeSolver.cs:22-25 | No path is the right answer when a mark is missing |
| DfsRecursiveMazeSolver.PostIncrementMissesAdjacentGoal | MazeSolver.Domain/DFSRecursiveMazeSolver.cs:80 | On `"SG"` the goal is reachable in one move, yet with `recursionDepth++` the search fails, and with the corrected rule it succeeds |
| DfsRecursiveMazeSolver.SgTopLevel | MazeSolver.Domain/DFSRecursiveMazeSolver.cs:71-84 | The top-level call on `"SG"` under each depth rule |
| DfsRecursiveMazeSolver.SgLoopFails | MazeSolver.Domain/DFSRecursiveMazeSolver.cs:80 | Under `recursionDepth++` the right move is tried at depth 3, past the 1 × 2 guard |
| DfsRecursiveMazeSolver.SgLoopFinds | MazeSolver.Domain/DFSRecursiveMazeSolver.cs:71-84 | Under the corrected rule the right move finds the goal |
| DfsRecursiveMazeSolver.SgRows | MazeSolver.Domain/DFSRecursiveMazeSolver.cs:93-103 | `"SG"` converts to the one-row grid with `S` at (0,0) and `G` at (0,1), which is reachable |
| DfsRecursiveMazeSolver.PathToString | MazeSolver.Domain/DFSRecursiveMazeSolver.cs:123-126 | The joined text is empty exactly when the path is; otherwise it opens with `(` and closes with `)` |
| DfsRecursiveMazeSolver.PathList.constructor | MazeSolver.Domain/DFSRecursiveMazeSolver.cs:28 | A new list is empty |
| DfsRecursiveMazeSolver.PathList.Add | MazeSolver.Domain/DFSRecursiveMazeSolver.cs:62 | `Add` appends the cell |
| DfsRecursiveMazeSolver.PathList.RemoveAt | MazeSolver.Domain/DFSRecursiveMazeSolver.cs:87 | `RemoveAt(i)` removes exactly the i-th cell |
| DfsRecursiveMazeSolver.PathList.Count | MazeSolver.Domain/DFSRecursiveMazeSolver.cs:87 | The number of cells held |
| Grid.Step | MazeSolver.Domain/BFSMazeSolver.cs:8-14 | Each of the four directions leads to an adjacent cell |
| Grid.StepsDiffer | MazeSolver.Domain/BFSMazeSolver.cs:8-14 | The four directions lead to four different cells |
| Grid.DirectionTo | MazeSolver.Domain/DFSRecursiveMazeSolver.cs:5-11 | Every adjacent cell is reached by one of the four directions |
| Grid.ClosedSeparates | MazeSolver.Domain/DFSMazeSolver.cs:59 | A move-closed set of cells holding the start but not the goal proves the goal unreachable |
| Grid.DistinctInBox | MazeSolver.Domain/DFSRecursiveMazeSolver.cs:48 | Distinct cells of a rows × columns array number at most rows × columns |
| Grid.FirstsUnreachable | MazeSolver.Domain/BFSMazeSolver.cs:19-20 | The first occurrences are unique, so one unreachable pair settles them all |
| Grid.ReverseWalk | MazeSolver.Domain/BFSMazeSolver.cs:91 | A reversed walk is a walk with its ends swapped, distinct if the walk was |
| Grid.WalkEndsInReach | MazeSolver.Domain/BFSMazeSolver.cs:27-55 | A walk of n moves ends within n moves of its start |
| PathFormat.ReversePosTexts | MazeSolver.Domain/BFSMazeSolver.cs:91-92 | Rendering the cells and reversing is reversing and rendering |
| PathFormat.RenderEnds | MazeSolver.Domain/DFSMazeSolver.cs:135 | A rendered path is empty exactly when the path is; otherwise it opens with `(` and closes with `)`, so `Trim` leaves it alone |
| PathFormat.PosTextEnds | MazeSolver.Domain/BFSMazeSolver.cs:87 | `$"({x},{y})"` begins with `(` and ends with `)` |
| Text.Split | MazeSolver.Domain/BFSMazeSolver.cs:18 | `Split` yields at least one piece, none holding the separator |
| Text.SplitJoin | MazeSolver.Domain/BFSMazeSolver.cs:18 | Joining the pieces of a split with the separator gives the text back |
| Text.JoinSplit | MazeSolver.Domain/BFSMazeSolver.cs:18 | Splitting the join of separator-free pieces gives the pieces back |
| Text.SplitKeeps | MazeSolver.Domain/BFSMazeSolver.cs:18-20 | A character other than the separator is in the text exactly when it is in a piece |
| Text.SplitCount | MazeSolver.Domain/Services/MazeService.cs:41 | A text has one more row than it has `'\n'`s |
| Text.TrimStart | MazeSolver.Domain/DFSMazeSolver.cs:65 | Drops exactly the leading white space |
| Text.TrimEnd | MazeSolver.Domain/DFSMazeSolver.cs:65 | Drops exactly the trailing white space |
| Text.TrimKeeps | MazeSolver.Domain/DFSMazeSolver.cs:65 | `Trim` keeps every non-white-space character |
| Text.IndexOf | MazeSolver.Domain/BFSMazeSolver.cs:65 | The first index holding the character, or -1 exactly when it is absent |
| Text.CountZero | MazeSolver.Domain/Services/MazeService.cs:51 | A count of zero means the character is absent |
| Text.TerminatedJoin | MazeSolver.Domain/DFSMazeSolver.cs:130-135 | Each part followed by the separator is the join plus one trailing separator |
| Text.JoinEndsWith | MazeSolver.Domain/Services/MazeService.cs:63 | A join ends with its last part |
| Text.NatRoundTrip | MazeSolver.Domain/BFSMazeSolver.cs:87 | Decimal formatting of a coordinate reads back as the same number |
| MazeRequestValidator.Validate | MazeSolver.Api/Validators/MazeRequestValidator.cs:12-19 | No errors exactly when the content is not blank, fits 20 × 20, uses only allowed characters and has one `S` before one `G`; the first error is the first rule broken, in declared order |
| MazeRequestValidator.NotEmpty | MazeSolver.Api/Validators/MazeRequestValidator.cs:15 | Content passes exactly when trimming its white space leaves something |
| MazeRequestValidator.NonBlankTrim | MazeSolver.Api/Validators/MazeRequestValidator.cs:15 | Some character is not white space exactly when the trimmed content is nonempty |
| MazeRequestValidator.ContainValidDemensions | MazeSolver.Api/Validators/MazeRequestValidator.cs:21-25 | A passing maze has fewer than 20 `'\n'`s; a maze without `'\n'` passes exactly when it has at most 20 characters |
| MazeRequestValidator.ContainAllowedCharacters | MazeSolver.Api/Validators/MazeRequestValidator.cs:27-30 | Passes exactly when every character is one of `S`, `G`, `X`, `_`, `'\n'`; so a passing maze holds no white space but `'\n'` (no `'\r'`) |
| MazeRequestValidator.AllowedMembers | MazeSolver.Api/Validators/MazeRequestValidator.cs:29 | The character class holds at every index exactly when every character is one of the five |
| MazeRequestValidator.ContainExactlyOneStartAndGoal | MazeSolver.Api/Validators/MazeRequestValidator.cs:32-35 | Passes exactly when there is one `S`, one `G`, and the `S` comes first |
| MazeRequestValidator.StartGoalByCounts | MazeSolver.Api/Validators/MazeRequestValidator.cs:34 | The start/goal pattern matches exactly when there is one `S`, one `G`, and the `S` comes first |
| MazeRequestValidator.PatternCounts | MazeSolver.Api/Validators/MazeRequestValidator.cs:34 | A match has one `S` and one `G`, in that order |
| MazeRequestValidator.CountsPattern | MazeSolver.Api/Validators/MazeRequestValidator.cs:34 | One `S` before one `G` and no other marks matches |
| MazeRequestValidator.CountOne | MazeSolver.Api/Validators/MazeRequestValidator.cs:34 | A character occurs once exactly when no other index holds it |
| MazeRequestValidator.CountAppend | MazeSolver.Domain/Services/MazeService.cs:42-43 | Counts add up over a concatenation |
| MazeRequestValidator.WideFirstRow | MazeSolver.Api/Validators/MazeRequestValidator.cs:21-25 | A first row longer than 20 breaks the dimension rule |
| MazeRequestValidator.SmallFits | MazeSolver.Api/Validators/MazeRequestValidator.cs:21-25 | Three short rows fit |
| MazeRequestValidator.ThreeRows | MazeSolver.Api/Validators/MazeRequestValidator.cs:23 | Splitting three lines joined by `'\n'` gives the three lines |
| MazeRequestValidator.StartsNonBlank | MazeSolver.Api/Validators/MazeRequestValidator.cs:15 | Content starting with a non-white-space character is not empty |
| MazeRequestValidator.EmptyFirstError | MazeSolver.Tests/API/MazeRequestValidatorFixture.cs:17 | Empty content's first error is "Maze cannot be empty." |
| MazeRequestValidator.LongRowTooWide | MazeSolver.Tests/API/MazeRequestValidatorFixture.cs:18 | The 22-character row breaks the dimension rule |
| MazeRequestValidator.LongRowFirstError | MazeSolver.Tests/API/MazeRequestValidatorFixture.cs:18 | Its first error is the dimension message |
| MazeRequestValidator.ForeignCharacter | MazeSolver.Tests/API/MazeRequestValidatorFixture.cs:19 | A `'#'` breaks the character rule |
| MazeRequestValidator.ForeignCharacterFirstError | MazeSolver.Tests/API/MazeRequestValidatorFixture.cs:19 | Its first error is the character message |
| MazeRequestValidator.MissingStartCharacters | MazeSolver.Tests/API/MazeRequestValidatorFixture.cs:20 | The maze without `S` has only allowed characters and breaks the start/goal rule |
| MazeRequestValidator.MissingStartFirstError | MazeSolver.Tests/API/MazeRequestValidatorFixture.cs:20 | Its only error is the start/goal message |
| MazeRepository.BasicInMemoryMazeRepository.constructor | MazeSolver.Domain/DataAccess/BasicMazeRepository.cs:10 | The store starts empty |
| MazeRepository.BasicInMemoryMazeRepository.Add | MazeSolver.Domain/DataAccess/BasicMazeRepository.cs:12-21 | A fresh id is stored with the entity and nothing else changes; a taken id throws `ArgumentException` and changes nothing; every entity stays under its own id |
| MazeRepository.BasicInMemoryMazeRepository.Delete | MazeSolver.Domain/DataAccess/BasicMazeRepository.cs:23-30 | A stored id is removed and nothing else; an absent id throws `ArgumentException` and changes nothing |
| MazeRepository.BasicInMemoryMazeRepository.Get | MazeSolver.Domain/DataAccess/BasicMazeRepository.cs:32-40 | The stored entity, whose id is the one asked for; an absent id throws `NullReferenceException` naming the id |
| MazeRepository.BasicInMemoryMazeRepository.GetAll | MazeSolver.Domain/DataAccess/BasicMazeRepository.cs:42-45 | Exactly the stored entities, each once |
| MazeRepository.BasicInMemoryMazeRepository.Update | MazeSolver.Domain/DataAccess/BasicMazeRepository.cs:47-58 | A stored id gets the new entity and nothing else changes; an absent id throws `ArgumentException` naming the id and changes nothing |
| MazeRepository.AddGetDelete | MazeSolver.Tests/DataAccess/BasicMazeRepositoryFixture.cs:66-76 | Add, Get, Delete, Get on a fresh id: the first Get returns the entity, the second throws, and the store ends as it began |
| MazeRepository.GuidText | MazeSolver.Domain/DataAccess/BasicMazeRepository.cs:39 | A `Guid` renders as 36 characters with hyphens at 8, 13, 18 and 23 |
| MazeRepository.Hex | MazeSolver.Domain/DataAccess/BasicMazeRepository.cs:39 | n lower-case hexadecimal digits |
| MazeService.Validations | MazeSolver.Domain/Services/MazeService.cs:46-52 | The four rules in declared order with their messages: size (broken exactly when the validator's dimension rule fails), counts, characters (broken exactly when the validator's character rule fails), missing point (which implies the count rule is broken) |
| MazeService.Failing | MazeSolver.Domain/Services/MazeService.cs:55-58 | A message is collected exactly when some rule with it is broken; no more messages than rules; a broken last rule's message comes last |
| MazeService.FailingAppend | MazeSolver.Domain/Services/MazeService.cs:55-58 | Filtering keeps the declared order: the messages of two lists of rules are the first list's followed by the second's |
| MazeService.FailingOne | MazeSolver.Domain/Services/MazeService.cs:56-57 | One rule contributes its message exactly when it is broken |
| MazeService.FailingFour | MazeSolver.Domain/Services/MazeService.cs:55-58 | The messages of four rules are those of the broken ones, in declared order |
| MazeService.GuardErrors | MazeSolver.Domain/Services/MazeService.cs:41-58 | The collected messages are, in this order, the size, count, character and missing-point messages of the rules that are broken; each is present exactly when its condition holds, and no other message |
| MazeService.GuardAgainstInvalidMaze | MazeSolver.Domain/Services/MazeService.cs:39-65 | Passes exactly when the maze fits 20 × 20, uses only allowed characters and has one `S` and one `G`; otherwise throws `ArgumentException` whose message is the collected messages joined by a space |
| MazeService.MissingPointMessage | MazeSolver.Domain/Services/MazeService.cs:49-51 | A missing `S` or `G` breaks the count rule too, and the thrown message ends with "Start or goal point is missing." |
| MazeService.ValidatedMazePassesGuard | MazeSolver.Domain/Services/MazeService.cs:39-65 | Every text the request validator accepts passes the guard |
| MazeService.GuardAllowsGoalBeforeStart | MazeSolver.Domain/Services/MazeService.cs:48-52 | `"GS"` passes the guard but the validator reports the start/goal error |
| MazeService.WalkSolvable | MazeSolver.Domain/Services/MazeService.cs:28-29 | A walk from the first `S` to the first `G` means the maze is solvable |
| MazeService.BfsAnswer | MazeSolver.Domain/Services/MazeService.cs:28-29 | A returning breadth-first answer is no path exactly when the maze is unsolvable |
| MazeService.Solve | MazeSolver.Domain/Services/MazeService.cs:28 | The configured solver: no path when a mark is missing; a throw only from the breadth-first solver, as `IndexOutOfRangeException`; a path is the solver's rendering, with its own separator, of a simple path from the first `S` to the first `G` of its grid (a shortest one for breadth-first), so the grid is solvable; no path exactly when the grid is unsolvable, for every solver but the recursive one with the depth rule as written |
| MazeService.MazeService.constructor | MazeSolver.Domain/Services/MazeService.cs:7-12 | Holds the given repository and solver |
| MazeService.MazeService.Get | MazeSolver.Domain/Services/MazeService.cs:14-17 | The repository's `Get` |
| MazeService.MazeService.GetAll | MazeSolver.Domain/Services/MazeService.cs:19-22 | The repository's stored entities |
| MazeService.MazeService.Submit | MazeSolver.Domain/Services/MazeService.cs:24-36 | A maze failing the guard throws the guard's exception before solving and stores nothing; past the guard, a throw is the breadth-first solver's `IndexOutOfRangeException` or the repository's `ArgumentException` for a taken id; no path stores nothing and, for every solver but the recursive one with the depth rule as written, means the maze is unsolvable; a returned solution is the solver's rendering of a simple path from the first `S` to the first `G` (shortest for breadth-first), stored with the maze under the new id; the store's invariant is kept |

## Left out

- String length in UTF-16 code units. .NET `string.Length` counts UTF-16 code units; a Dafny `string` counts Unicode
  scalar values. A character outside the Basic Multilingual Plane counts twice in the source's 20-character width rules
  and once in the model. A row of eleven `😀` is 22 code units long and breaks the width rules in .NET, but it is 11
  characters in the model. Such a row fails the character rules anyway, so the verdict of the validator and of the
  guard as a whole does not change; only which size message appears does.
- Null content: the model's strings are never null, so `Maze!` and `string?` content are not modelled.
- FluentValidation and the .NET regular-expression engine. Each rule is modelled by its meaning. The rule chain uses the
  default cascade, so every failing rule reports. `NotEmpty` on a string rejects white-space-only content.
- `Guid.NewGuid()` in `AsNewMazeEntity` (MazeSolver.Domain/Models/ModelsExtensions.cs:9) is nondeterministic. It is the
  `newId` parameter of `MazeService.MazeService.Submit`.
- The HTTP controllers, random maze generation, the middleware, and host and dependency-injection setup.
  - The `IMazeSolver` registration becomes the `SolverKind` held by the service. The recursive solver's kind carries
    its depth rule, so the service can be modelled with the code as written or with the corrected rule. The host
    registers the breadth-first solver.
  - The API models' mapping to domain models is not part of this model.
- Reference semantics of `MazeConfiguration`. Entities are values here, so mutating a stored object after `Add` (which
  the update fixture relies on) has no counterpart. `Update` replaces the stored value.
- Concurrency and the repository's thread-safety note.
- 32-bit integers. Coordinates, `rowsCount * columnsCount` and the depth counter are unbounded integers. Overflow would
  need a maze of more than 2³¹ characters.
- The 10 × 10 solver fixtures are not stated as lemmas. Unfolding a search over 100 cells is beyond the proof budget.
  The general soundness and completeness results of each solver cover them.
- DfsRecursiveMazeSolver.Solve: with `PostIncrement`, the depth rule as written, only soundness is stated (a found path
  is a simple path from `S` to `G`). The as-written rule is incomplete; see Findings.
- MazeService.Solve and MazeService.MazeService.Submit: when the service holds the recursive solver with the depth
  rule as written (`PostIncrement`), only the soundness of a returned path is stated, not that no path means
  unsolvable. That rule misses reachable goals; see Findings.
- MazeRepository.BasicInMemoryMazeRepository.GetAll: the order of `Dictionary.Values` is not modelled. The result is
  some duplicate-free listing of the stored entities.
- MazeRepository.BasicInMemoryMazeRepository.GetAll and MazeService.MazeService.GetAll require the store invariant
  `Valid()` (every entity is stored under its own id). The constructor establishes it and every method keeps it.
- The `Queue` and `Stack` of the iterative solvers are sequences held in local variables, not separate objects.

## Findings

| source | as written | input that shows it | evidently intended | confidence | as-written member | corrected member |
|---|---|---|---|---|---|---|
| MazeSolver.Domain/DFSRecursiveMazeSolver.cs:80 | `recursionDepth++` passes depth d + k to the k-th direction's child, so later directions reach the guard `recursionDepth > rowsCount * columnsCount` early | the one-row maze `"SG"`: the goal is one move right, but the right move is the fourth child and gets depth 3 > 1 × 2, so `Solve` returns null | each child receives d + 1, the length of the path before it, so the guard never fires on a duplicate-free path and the search finds every reachable goal | not executed | DfsRecursiveMazeSolver.PostIncrementMissesAdjacentGoal | DfsRecursiveMazeSolver.PlusOneComplete |
