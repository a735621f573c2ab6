/** How the solvers render a path: each cell as `(row,column)`, the cells
    joined by a separator that differs per solver. */
module PathFormat {
  import opened Text
  import opened Grid
  import opened Seqs

  /** `$"({row},{column})"`. */
  function PosText(p: Pos): string {
    "(" + IntToString(p.0) + "," + IntToString(p.1) + ")"
  }

  /** A rendered cell is bracketed by parentheses. */
  lemma PosTextEnds(p: Pos)
    ensures var t := PosText(p); |t| > 0 && t[0] == '(' && t[|t| - 1] == ')'
  {
  }

  /** The rendered cells, in path order. */
  function PosTexts(path: seq<Pos>): (r: seq<string>)
    ensures |r| == |path| && forall i :: 0 <= i < |path| ==> r[i] == PosText(path[i])
  {
    seq(|path|, i requires 0 <= i < |path| => PosText(path[i]))
  }

  /** Rendering one more cell appends its text. */
  lemma PosTextsAppend(path: seq<Pos>, p: Pos)
    ensures PosTexts(path + [p]) == PosTexts(path) + [PosText(p)]
  {
  }

  /** Rendering commutes with reversal. */
  lemma ReversePosTexts(path: seq<Pos>)
    ensures Reverse(PosTexts(path)) == PosTexts(Reverse(path))
  {
    var a, b := Reverse(PosTexts(path)), PosTexts(Reverse(path));
    ReverseLength(PosTexts(path));
    ReverseLength(path);
    forall i | 0 <= i < |a| ensures a[i] == b[i] {
      ReverseAt(PosTexts(path), i);
      ReverseAt(path, i);
    }
  }

  /** The rendered cells joined by `sep`. */
  function Render(sep: string, path: seq<Pos>): string {
    Join(sep, PosTexts(path))
  }

  /** A rendered path is empty exactly when the path is; otherwise it opens
      with `(` and closes with `)`. */
  lemma RenderEnds(sep: string, path: seq<Pos>)
    ensures var r := Render(sep, path); |r| == 0 <==> |path| == 0
    ensures |path| > 0 ==> var r := Render(sep, path); |r| > 0 && r[0] == '(' && r[|r| - 1] == ')'
  {
    var parts := PosTexts(path);
    assert Render(sep, path) == Join(sep, parts);
    if |parts| > 0 {
      forall i | 0 <= i < |parts| ensures |parts[i]| > 0 && parts[i][0] == '(' {
        PosTextEnds(path[i]);
      }
      JoinEnds(sep, parts);
      PosTextEnds(path[|path| - 1]);
    }
  }
}
