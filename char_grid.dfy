/** The maze as the two depth-first solvers see it: the text is trimmed,
    split on '\n' and copied into a `char[,]` as wide as the longest row,
    so shorter rows are padded with `'\0'`, which is not a wall. */
module CharGrid {
  import opened Outcomes
  import opened Text
  import opened Grid

  /** `rows.Max(row => row.Length)`, with 0 for no rows. */
  function MaxLength(rows: Rows): (m: nat)
    ensures forall i :: 0 <= i < |rows| ==> |rows[i]| <= m
    ensures |rows| == 0 ==> m == 0
    ensures |rows| > 0 ==> exists i :: 0 <= i < |rows| && |rows[i]| == m
  {
    if |rows| == 0 then 0
    else
      var m := MaxLength(rows[1..]);
      if |rows| == 1 || |rows[0]| >= m then
        assert |rows| > 1 ==> forall i :: 1 <= i < |rows| ==> |rows[i]| == |rows[1..][i - 1]|;
        |rows[0]|
      else
        var i :| 0 <= i < |rows[1..]| && |rows[1..][i]| == m;
        assert |rows[i + 1]| == m;
        m
  }

  /** `row` followed by `'\0'` up to `width` characters. */
  function PadRow(row: string, width: nat): (r: string)
    requires |row| <= width
    ensures |r| == width
    ensures forall j :: 0 <= j < width ==> r[j] == if j < |row| then row[j] else '\0'
  {
    row + seq(width - |row|, _ => '\0')
  }

  /** Every row padded to the longest one: a rectangle that agrees with the
      rows where they have characters and holds `'\0'` elsewhere. */
  function Padded(rows: Rows): (g: Rows)
    ensures |g| == |rows|
    ensures forall i :: 0 <= i < |g| ==> |g[i]| == MaxLength(rows)
    ensures forall i, j :: 0 <= i < |g| && 0 <= j < |g[i]| ==>
              g[i][j] == if j < |rows[i]| then rows[i][j] else '\0'
  {
    seq(|rows|, i requires 0 <= i < |rows| => PadRow(rows[i], MaxLength(rows)))
  }

  /** The grid both depth-first solvers search, from the maze text: one
      row per line of the trimmed text, all as wide as the longest line, and
      holding every character that is neither white space nor `'\0'`
      exactly when the text holds it. */
  function MazeRows(text: string): (g: Rows)
    ensures |g| == Count(Trim(text), '\n') + 1
    ensures forall i :: 0 <= i < |g| ==> |g[i]| == |g[0]|
    ensures forall c :: !IsWhiteSpace(c) && c != '\0' ==> (Has(g, c) <==> c in text)
  {
    SplitCount(Trim(text), '\n');
    PaddedSplitHas(text);
    Padded(Split(Trim(text), '\n'))
  }

  /** Padding adds only `'\0'`: any other character is in a padded row exactly when it is in the row. */
  lemma PaddedHas(rows: Rows, c: char)
    requires c != '\0'
    ensures Has(Padded(rows), c) <==> Has(rows, c)
  {
    var g := Padded(rows);
    if Has(g, c) {
      var i :| 0 <= i < |g| && c in g[i];
      var j :| 0 <= j < |g[i]| && g[i][j] == c;
      assert rows[i][j] == c;
    }
    if Has(rows, c) {
      var i :| 0 <= i < |rows| && c in rows[i];
      var j :| 0 <= j < |rows[i]| && rows[i][j] == c;
      assert g[i][j] == c;
    }
  }

  /** Trimming and splitting keep every character that is not white space. */
  lemma SplitTrimHas(text: string, c: char)
    requires !IsWhiteSpace(c)
    ensures Has(Split(Trim(text), '\n'), c) <==> c in text
  {
    var t := Trim(text);
    TrimKeeps(text, c);
    SplitKeeps(t, '\n', c);
  }

  /** A character that is neither white space nor `'\0'` survives trimming,
      splitting and padding exactly when the text holds it. */
  lemma PaddedSplitHas(text: string)
    ensures forall c :: !IsWhiteSpace(c) && c != '\0' ==>
      (Has(Padded(Split(Trim(text), '\n')), c) <==> c in text)
  {
    forall c | !IsWhiteSpace(c) && c != '\0'
      ensures Has(Padded(Split(Trim(text), '\n')), c) <==> c in text
    {
      SplitTrimHas(text, c);
      PaddedHas(Split(Trim(text), '\n'), c);
    }
  }

  /** `S` and `G` are in the grid exactly when they are in the maze text. */
  lemma MazeRowsMarks(text: string)
    ensures Has(MazeRows(text), 'S') <==> 'S' in text
    ensures Has(MazeRows(text), 'G') <==> 'G' in text
  {
    assert !IsWhiteSpace('S') && !IsWhiteSpace('G');
  }

  /** The array holds exactly the rectangle `g`. */
  ghost predicate Shows(a: array2<char>, g: Rows)
    reads a
  {
    && a.Length0 == |g|
    && (forall i :: 0 <= i < |g| ==> |g[i]| == a.Length1)
    && (forall i, j :: 0 <= i < a.Length0 && 0 <= j < a.Length1 ==> a[i, j] == g[i][j])
  }

  /** `ConvertTo2DArray`: copies each row of the trimmed, split text into a
      `'\0'`-initialised array as wide as the longest row. */
  method ConvertTo2DArray(mazeData: string) returns (maze: array2<char>)
    ensures Shows(maze, MazeRows(mazeData))
  {
    var rows := Split(Trim(mazeData), '\n');
    var maxColumns := MaxLength(rows);
    maze := new char[|rows|, maxColumns]((i, j) => '\0');
    for i := 0 to |rows|
      invariant maze.Length0 == |rows| && maze.Length1 == maxColumns
      invariant forall x, y :: 0 <= x < |rows| && 0 <= y < maxColumns ==>
                  maze[x, y] == if x < i && y < |rows[x]| then rows[x][y] else '\0'
    {
      CopyRow(maze, i, rows[i]);
    }
    PaddedShows(maze, rows);
  }

  /** The inner loop of `ConvertTo2DArray`: row `i` of the array receives `row`. */
  method CopyRow(maze: array2<char>, i: int, row: string)
    requires 0 <= i < maze.Length0 && |row| <= maze.Length1
    modifies maze
    ensures forall x, y :: 0 <= x < maze.Length0 && 0 <= y < maze.Length1 ==>
              maze[x, y] == if x == i && y < |row| then row[y] else old(maze[x, y])
  {
    for j := 0 to |row|
      invariant forall x, y :: 0 <= x < maze.Length0 && 0 <= y < maze.Length1 ==>
                  maze[x, y] == if x == i && y < j then row[y] else old(maze[x, y])
    {
      maze[i, j] := row[j];
    }
  }

  /** An array holding every row, padded with `'\0'`, shows `Padded(rows)`. */
  lemma PaddedShows(maze: array2<char>, rows: Rows)
    requires maze.Length0 == |rows| && maze.Length1 == MaxLength(rows)
    requires forall x, y :: 0 <= x < |rows| && 0 <= y < MaxLength(rows) ==>
               maze[x, y] == if y < |rows[x]| then rows[x][y] else '\0'
    ensures Shows(maze, Padded(rows))
  {
  }

  /** `FindPoint` (and the iterative solver's `FindStart` and `FindGoal`):
      the first cell holding `point`, scanning row by row. */
  method FindPoint(maze: array2<char>, rows: int, columns: int, point: char, ghost g: Rows) returns (r: Option<Pos>)
    requires rows == maze.Length0 && columns == maze.Length1 && Shows(maze, g)
    ensures r.None? <==> !Has(g, point)
    ensures r.Some? ==> IsFirst(g, point, r.value)
  {
    for i := 0 to rows
      invariant forall x :: 0 <= x < i ==> point !in g[x]
    {
      for j := 0 to columns
        invariant forall y :: 0 <= y < j ==> g[i][y] != point
      {
        if maze[i, j] == point {
          return Some((i, j));
        }
      }
    }
    return None;
  }
}
