/** `MazeRequestValidator`: the API's chain of rules on a submitted maze's
    content. The rules run in their declared order and every failing rule
    contributes its message, so the first message belongs to the first rule
    that fails. The two regular expressions are modelled by what they match. */
module MazeRequestValidator {
  import opened Text

  const MaxMazeHeight := 20
  const MaxMazeWidth := 20

  const EmptyMessage := "Maze cannot be empty."
  const DimensionsMessage := "Maze format is invalid: dimensions must not exceed 20x20."
  const CharactersMessage := "Maze format is invalid: only allowed characters are 'S', 'G', 'X', '_', and '\n'."
  const StartGoalMessage := "Maze format is invalid: allowed exactly one start (S) and goal (G)."

  /** `NotEmpty()` on a string: some character is not white space, so the
      content does not trim to nothing. */
  function NotEmpty(content: string): (r: bool)
    ensures r <==> |Trim(content)| > 0
  {
    NonBlankTrim(content);
    exists i :: 0 <= i < |content| && !IsWhiteSpace(content[i])
  }

  /** A text holds a character that is not white space exactly when
      trimming leaves something. */
  lemma NonBlankTrim(s: string)
    ensures (exists i :: 0 <= i < |s| && !IsWhiteSpace(s[i])) <==> |Trim(s)| > 0
  {
    var t := TrimStart(s);
    var u := TrimEnd(t);
    assert Trim(s) == u;
    if i :| 0 <= i < |s| && !IsWhiteSpace(s[i]) {
      assert |t| > 0 && !IsWhiteSpace(t[0]);
    }
    if |u| > 0 {
      assert u[0] == t[0] == s[|s| - |t|];
    }
  }

  /** At most 20 rows between `'\n'`s, none longer than 20 characters: a
      valid maze has fewer than 20 line breaks, and a single-row maze is
      valid exactly when it is at most 20 characters long. */
  function ContainValidDemensions(maze: string): (r: bool)
    ensures r ==> Count(maze, '\n') < MaxMazeHeight
    ensures '\n' !in maze ==> (r <==> |maze| <= MaxMazeWidth)
  {
    SplitCount(maze, '\n');
    SingleRow(maze);
    var rows := Split(maze, '\n');
    assert '\n' !in maze ==> |rows| == 1 && rows[0] == maze;
    |rows| <= MaxMazeHeight && forall i :: 0 <= i < |rows| ==> |rows[i]| <= MaxMazeWidth
  }

  /** A text without a line break is one row. */
  lemma SingleRow(s: string)
    ensures '\n' !in s ==> Split(s, '\n') == [s]
  {
    if '\n' !in s {
      SplitFree(s, '\n');
    }
  }

  /** The class `[SGX_\n]`. */
  predicate AllowedChar(c: char) {
    c == 'S' || c == 'G' || c == 'X' || c == '_' || c == '\n'
  }

  /** `^[SGX_\n]*$`: every character is allowed; in particular the only
      white space an accepted maze holds is `'\n'` (no `'\r'`, no blank). */
  function ContainAllowedCharacters(maze: string): (r: bool)
    ensures r <==> forall c :: c in maze ==> c in {'S', 'G', 'X', '_', '\n'}
    ensures r ==> forall c :: c in maze && IsWhiteSpace(c) ==> c == '\n'
  {
    AllowedMembers(maze);
    forall i :: 0 <= i < |maze| ==> AllowedChar(maze[i])
  }

  /** Every index holds an allowed character exactly when every member of
      the text is one of the five. */
  lemma AllowedMembers(maze: string)
    ensures (forall i :: 0 <= i < |maze| ==> AllowedChar(maze[i])) <==>
      forall c :: c in maze ==> c in {'S', 'G', 'X', '_', '\n'}
  {
    if forall i :: 0 <= i < |maze| ==> AllowedChar(maze[i]) {
      forall c | c in maze ensures c in {'S', 'G', 'X', '_', '\n'} {
        var i :| 0 <= i < |maze| && maze[i] == c;
        assert AllowedChar(maze[i]);
      }
    }
    if forall c :: c in maze ==> c in {'S', 'G', 'X', '_', '\n'} {
      forall i | 0 <= i < |maze| ensures AllowedChar(maze[i]) {
        assert maze[i] in maze;
      }
    }
  }

  /** The class `[^SG]*`: no start and no goal. */
  predicate NoMark(s: string) {
    forall k :: 0 <= k < |s| ==> s[k] != 'S' && s[k] != 'G'
  }

  /** What `^(?=[^S]*S[^S]*$)(?=[^G]*G[^G]*$)[^SG]*S[^SG]*G[^SG]*$` matches
      (its two look-aheads add nothing): the text is mark-free apart from one
      `S` at `i` followed by one `G` at `j`. */
  predicate MatchesStartGoal(maze: string) {
    exists i, j :: 0 <= i < j < |maze| && maze[i] == 'S' && maze[j] == 'G' &&
      NoMark(maze[..i]) && NoMark(maze[i + 1..j]) && NoMark(maze[j + 1..])
  }

  /** The start/goal rule: exactly one `S`, exactly one `G`, and the `S`
      comes first. */
  function ContainExactlyOneStartAndGoal(maze: string): (r: bool)
    ensures r <==> Count(maze, 'S') == 1 && Count(maze, 'G') == 1 && IndexOf(maze, 'S') < IndexOf(maze, 'G')
  {
    StartGoalByCounts(maze);
    MatchesStartGoal(maze)
  }

  /** The rule chain of the constructor: the messages of the failing rules,
      in declaration order. */
  function Validate(content: string): (errors: seq<string>)
    ensures |errors| == 0 <==>
      NotEmpty(content) && ContainValidDemensions(content) &&
      ContainAllowedCharacters(content) && ContainExactlyOneStartAndGoal(content)
    ensures !NotEmpty(content) ==> |errors| > 0 && errors[0] == EmptyMessage
    ensures NotEmpty(content) && !ContainValidDemensions(content) ==>
      |errors| > 0 && errors[0] == DimensionsMessage
    ensures NotEmpty(content) && ContainValidDemensions(content) && !ContainAllowedCharacters(content) ==>
      |errors| > 0 && errors[0] == CharactersMessage
    ensures (&& NotEmpty(content) && ContainValidDemensions(content) && ContainAllowedCharacters(content)
             && !ContainExactlyOneStartAndGoal(content)) ==> errors == [StartGoalMessage]
    ensures |errors| <= 4
  {
    (if NotEmpty(content) then [] else [EmptyMessage]) +
    (if ContainValidDemensions(content) then [] else [DimensionsMessage]) +
    (if ContainAllowedCharacters(content) then [] else [CharactersMessage]) +
    (if ContainExactlyOneStartAndGoal(content) then [] else [StartGoalMessage])
  }

  /** Occurrences in a concatenation add up. */
  lemma {:induction false} CountAppend(a: string, b: string, c: char)
    ensures Count(a + b, c) == Count(a, c) + Count(b, c)
  {
    if |a| > 0 {
      CountAppend(a[1..], b, c);
      assert (a + b)[1..] == a[1..] + b;
    } else {
      assert a + b == b;
    }
  }

  /** With `c` at index `i`, there is exactly one `c` when no other index holds one. */
  lemma CountOne(s: string, c: char, i: int)
    requires 0 <= i < |s| && s[i] == c
    ensures Count(s, c) == 1 <==> forall k :: 0 <= k < |s| && k != i ==> s[k] != c
  {
    var a, b := s[..i], s[i + 1..];
    assert s == a + [c] + b;
    CountAppend(a + [c], b, c);
    CountAppend(a, [c], c);
    assert Count([c], c) == 1;
    CountZero(a, c);
    CountZero(b, c);
    if Count(s, c) == 1 {
      forall k | 0 <= k < |s| && k != i ensures s[k] != c {
        if k < i { assert s[k] == a[k]; } else { assert s[k] == b[k - i - 1]; }
      }
    }
    if forall k :: 0 <= k < |s| && k != i ==> s[k] != c {
      assert forall k :: 0 <= k < |a| ==> a[k] == s[k];
      assert forall k :: 0 <= k < |b| ==> b[k] == s[k + i + 1];
    }
  }

  /** The pattern's `S` and `G` are the only marks, so each occurs once
      and `IndexOf` finds them in that order. */
  lemma PatternCounts(maze: string)
    requires MatchesStartGoal(maze)
    ensures Count(maze, 'S') == 1 && Count(maze, 'G') == 1 && IndexOf(maze, 'S') < IndexOf(maze, 'G')
  {
    var i, j :| 0 <= i < j < |maze| && maze[i] == 'S' && maze[j] == 'G' &&
      NoMark(maze[..i]) && NoMark(maze[i + 1..j]) && NoMark(maze[j + 1..]);
    forall k | 0 <= k < |maze| && k != i && k != j ensures maze[k] != 'S' && maze[k] != 'G' {
      if k < i { assert maze[k] == maze[..i][k]; }
      else if k < j { assert maze[k] == maze[i + 1..j][k - i - 1]; }
      else { assert maze[k] == maze[j + 1..][k - j - 1]; }
    }
    CountOne(maze, 'S', i);
    CountOne(maze, 'G', j);
    assert IndexOf(maze, 'S') == i;
    assert IndexOf(maze, 'G') == j;
  }

  /** One `S` before one `G` and nothing else marked is the pattern. */
  lemma CountsPattern(maze: string)
    requires Count(maze, 'S') == 1 && Count(maze, 'G') == 1 && IndexOf(maze, 'S') < IndexOf(maze, 'G')
    ensures MatchesStartGoal(maze)
  {
    CountZero(maze, 'S');
    var i, j := IndexOf(maze, 'S'), IndexOf(maze, 'G');
    CountOne(maze, 'S', i);
    CountOne(maze, 'G', j);
    assert NoMark(maze[..i]);
    assert NoMark(maze[i + 1..j]);
    assert NoMark(maze[j + 1..]);
  }

  /** The start/goal pattern holds exactly when there is one `S`, one `G`,
      and the `S` comes first. */
  lemma StartGoalByCounts(maze: string)
    ensures MatchesStartGoal(maze) <==>
      Count(maze, 'S') == 1 && Count(maze, 'G') == 1 && IndexOf(maze, 'S') < IndexOf(maze, 'G')
  {
    if MatchesStartGoal(maze) {
      PatternCounts(maze);
    }
    if Count(maze, 'S') == 1 && Count(maze, 'G') == 1 && IndexOf(maze, 'S') < IndexOf(maze, 'G') {
      CountsPattern(maze);
    }
  }

  /** A text whose first character is not white space is not empty. */
  lemma StartsNonBlank(content: string)
    requires |content| > 0 && !IsWhiteSpace(content[0])
    ensures NotEmpty(content)
  {
  }

  /** A first row longer than 20 characters breaks the dimension rule. */
  lemma WideFirstRow(row: string, rest: string)
    requires '\n' !in row && |row| > MaxMazeWidth
    ensures !ContainValidDemensions(row + ['\n'] + rest)
  {
    SplitAppend(row, '\n', rest);
    var rows := Split(row + ['\n'] + rest, '\n');
    assert rows[0] == row;
  }

  /** The long-row fixture has a 22-character first row. */
  lemma LongRowTooWide()
    ensures !ContainValidDemensions("S_____X_____XXXX_____G\n")
  {
    var row := "S_____X_____XXXX_____G";
    WideFirstRow(row, "");
    assert row + ['\n'] + "" == "S_____X_____XXXX_____G\n";
  }

  /** A 22-character first row fails the dimension rule first. */
  lemma LongRowFirstError()
    ensures |Validate("S_____X_____XXXX_____G\n")| > 0 && Validate("S_____X_____XXXX_____G\n")[0] == DimensionsMessage
  {
    StartsNonBlank("S_____X_____XXXX_____G\n");
    LongRowTooWide();
  }

  /** The rows of a three-row fixture. */
  lemma ThreeRows(a: string, b: string, c: string)
    requires '\n' !in a && '\n' !in b && '\n' !in c
    ensures Split(a + ['\n'] + (b + ['\n'] + c), '\n') == [a, b, c]
  {
    var tail := b + ['\n'] + c;
    SplitFree(c, '\n');
    SplitAppend(b, '\n', c);
    assert Split(tail, '\n') == [b, c];
    SplitAppend(a, '\n', tail);
  }

  /** Three rows of three characters or fewer fit. */
  lemma SmallFits(a: string, b: string, c: string)
    requires '\n' !in a && '\n' !in b && '\n' !in c && |a| <= 3 && |b| <= 3 && |c| <= 3
    ensures ContainValidDemensions(a + ['\n'] + (b + ['\n'] + c))
  {
    ThreeRows(a, b, c);
  }

  /** The '#' fixture fails the character rule. */
  lemma ForeignCharacter()
    ensures !ContainAllowedCharacters("S__\n_#_\n__G")
  {
    assert "S__\n_#_\n__G"[5] == '#';
  }

  /** A '#' fails the character rule first. */
  lemma ForeignCharacterFirstError()
    ensures |Validate("S__\n_#_\n__G")| > 0 && Validate("S__\n_#_\n__G")[0] == CharactersMessage
  {
    StartsNonBlank("S__\n_#_\n__G");
    SmallFits("S__", "_#_", "__G");
    assert "S__" + ['\n'] + ("_#_" + ['\n'] + "__G") == "S__\n_#_\n__G";
    ForeignCharacter();
  }

  /** The missing-start fixture has only allowed characters and no `S`. */
  lemma MissingStartCharacters()
    ensures ContainAllowedCharacters("__\n_X_\n__G") && !ContainExactlyOneStartAndGoal("__\n_X_\n__G")
  {
    var content := "__\n_X_\n__G";
    assert forall i :: 0 <= i < |content| ==> content[i] in "_\nXG";
    assert !MatchesStartGoal(content);
  }

  /** Without an `S`, the start/goal rule is the only one that fails. */
  lemma MissingStartFirstError()
    ensures Validate("__\n_X_\n__G") == [StartGoalMessage]
  {
    StartsNonBlank("__\n_X_\n__G");
    SmallFits("__", "_X_", "__G");
    assert "__" + ['\n'] + ("_X_" + ['\n'] + "__G") == "__\n_X_\n__G";
    MissingStartCharacters();
  }

  /** Empty content fails the emptiness rule first. */
  lemma EmptyFirstError()
    ensures |Validate("")| > 0 && Validate("")[0] == EmptyMessage
  {
  }
}
