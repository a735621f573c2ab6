/** The maze as a graph: cells of a grid of rows, four-way moves, walks, and
    the cells reachable within a given number of moves. Shared by the three
    solvers. */
module Grid {
  import opened Seqs

  /** A cell position (row, column), as the solvers' `(int, int)` tuples. */
  type Pos = (int, int)

  /** A maze as its rows of characters. */
  type Rows = seq<string>

  /** The moves in the order every solver tries them: up, down, left, right. */
  const Directions: seq<Pos> := [(-1, 0), (1, 0), (0, -1), (0, 1)]

  /** Four-way adjacency: the cells differ by one in exactly one coordinate. */
  predicate Adjacent(p: Pos, q: Pos) {
    (p.0 == q.0 && (p.1 - q.1 == 1 || q.1 - p.1 == 1)) ||
    (p.1 == q.1 && (p.0 - q.0 == 1 || q.0 - p.0 == 1))
  }

  /** The neighbour of `p` in direction `k`. */
  function Step(p: Pos, k: int): (q: Pos)
    requires 0 <= k < 4
    ensures Adjacent(p, q) && Adjacent(q, p)
  {
    (p.0 + Directions[k].0, p.1 + Directions[k].1)
  }

  /** Distinct directions lead to distinct neighbours. */
  lemma StepsDiffer(p: Pos, j: int, k: int)
    requires 0 <= j < 4 && 0 <= k < 4 && j != k
    ensures Step(p, j) != Step(p, k)
  {
  }

  /** The direction that leads from `p` to an adjacent `q`. */
  function DirectionTo(p: Pos, q: Pos): (k: int)
    requires Adjacent(p, q)
    ensures 0 <= k < 4 && Step(p, k) == q
  {
    if q.0 == p.0 - 1 then 0
    else if q.0 == p.0 + 1 then 1
    else if q.1 == p.1 - 1 then 2
    else 3
  }

  /** `p` names a character of the rows. */
  predicate InGrid(g: Rows, p: Pos) {
    0 <= p.0 < |g| && 0 <= p.1 < |g[p.0]|
  }

  /** `p` can be stepped on: it is in the grid and is not a wall `'X'`. */
  predicate Open(g: Rows, p: Pos) {
    InGrid(g, p) && g[p.0][p.1] != 'X'
  }

  /** Some row contains `c`. */
  predicate Has(g: Rows, c: char) {
    exists i :: 0 <= i < |g| && c in g[i]
  }

  /** `p` is the first occurrence of `c` in row-major order. */
  ghost predicate IsFirst(g: Rows, c: char, p: Pos) {
    && InGrid(g, p) && g[p.0][p.1] == c
    && (forall i :: 0 <= i < p.0 ==> c !in g[i])
    && (forall j :: 0 <= j < p.1 ==> g[p.0][j] != c)
  }

  /** A character with a first occurrence occurs. */
  lemma FirstHas(g: Rows, c: char, p: Pos)
    requires IsFirst(g, c, p)
    ensures Has(g, c)
  {
    assert c in g[p.0];
  }

  lemma FirstIsUnique(g: Rows, c: char, p: Pos, q: Pos)
    requires IsFirst(g, c, p) && IsFirst(g, c, q)
    ensures p == q
  {
    assert c in g[p.0] && c in g[q.0];
  }

  /** When the first `a` does not reach the first `b`, no first `a` reaches a first `b`. */
  lemma FirstsUnreachable(g: Rows, a: char, b: char, s0: Pos, t0: Pos)
    requires IsFirst(g, a, s0) && IsFirst(g, b, t0) && !Reachable(g, s0, t0)
    ensures forall s, t :: IsFirst(g, a, s) && IsFirst(g, b, t) ==> !Reachable(g, s, t)
  {
    forall s, t | IsFirst(g, a, s) && IsFirst(g, b, t) ensures !Reachable(g, s, t) {
      FirstIsUnique(g, a, s, s0);
      FirstIsUnique(g, b, t, t0);
    }
  }

  /** A walk: a nonempty sequence of open cells, each adjacent to the next. */
  ghost predicate IsWalk(g: Rows, w: seq<Pos>) {
    && |w| > 0
    && (forall i :: 0 <= i < |w| ==> Open(g, w[i]))
    && (forall i :: 0 <= i < |w| - 1 ==> Adjacent(w[i], w[i + 1]))
  }

  /** A walk from `s` to `t`. */
  ghost predicate IsPath(g: Rows, w: seq<Pos>, s: Pos, t: Pos) {
    IsWalk(g, w) && w[0] == s && w[|w| - 1] == t
  }

  ghost predicate Reachable(g: Rows, s: Pos, t: Pos) {
    exists w :: IsPath(g, w, s, t)
  }

  /** A walk from `s` to `t` with no repeated cell. */
  ghost predicate IsSimplePath(g: Rows, w: seq<Pos>, s: Pos, t: Pos) {
    IsPath(g, w, s, t) && Distinct(w)
  }

  /** A walk from `s` to `t` with no more cells than any other. */
  ghost predicate IsShortestPath(g: Rows, w: seq<Pos>, s: Pos, t: Pos) {
    IsPath(g, w, s, t) && forall w' :: IsPath(g, w', s, t) ==> |w| <= |w'|
  }

  /** A walk read backwards is a walk; it keeps its cells distinct. */
  lemma ReverseWalk(g: Rows, w: seq<Pos>)
    requires IsWalk(g, w)
    ensures IsWalk(g, Reverse(w)) && |Reverse(w)| == |w|
    ensures Reverse(w)[0] == w[|w| - 1] && Reverse(w)[|w| - 1] == w[0]
    ensures Distinct(w) ==> Distinct(Reverse(w))
  {
    var r := Reverse(w);
    var n := |w|;
    ReverseLength(w);
    forall i | 0 <= i < n ensures r[i] == w[n - 1 - i] {
      ReverseAt(w, i);
    }
    forall i | 0 <= i < n - 1 ensures Adjacent(r[i], r[i + 1]) {
      assert Adjacent(w[n - 2 - i], w[n - 1 - i]);
    }
  }

  /** `v` can be reached from `s` by a walk of at most `n` moves: it is `s`,
      or it is open and it or one of its four neighbours is within `n - 1`. */
  ghost predicate InReach(g: Rows, s: Pos, n: nat, v: Pos) {
    if n == 0 then v == s
    else
      || InReach(g, s, n - 1, v)
      || (&& Open(g, v)
          && (|| InReach(g, s, n - 1, (v.0 + 1, v.1))
              || InReach(g, s, n - 1, (v.0 - 1, v.1))
              || InReach(g, s, n - 1, (v.0, v.1 + 1))
              || InReach(g, s, n - 1, (v.0, v.1 - 1))))
  }

  /** One more move from a cell within `n` moves lands within `n + 1`. */
  lemma ReachStep(g: Rows, s: Pos, n: nat, p: Pos, k: int)
    requires InReach(g, s, n, p) && 0 <= k < 4 && Open(g, Step(p, k))
    ensures InReach(g, s, n + 1, Step(p, k))
  {
    var q := Step(p, k);
    assert p == (q.0 + 1, q.1) || p == (q.0 - 1, q.1) || p == (q.0, q.1 + 1) || p == (q.0, q.1 - 1);
  }

  /** A cell first reached with `n + 1` moves is one move from a cell within `n`. */
  lemma ReachSource(g: Rows, s: Pos, n: nat, v: Pos) returns (p: Pos, k: int)
    requires InReach(g, s, n + 1, v) && !InReach(g, s, n, v)
    ensures InReach(g, s, n, p) && 0 <= k < 4 && Open(g, v) && v == Step(p, k)
  {
    if InReach(g, s, n, (v.0 + 1, v.1)) {
      p, k := (v.0 + 1, v.1), 0;
    } else if InReach(g, s, n, (v.0 - 1, v.1)) {
      p, k := (v.0 - 1, v.1), 1;
    } else if InReach(g, s, n, (v.0, v.1 + 1)) {
      p, k := (v.0, v.1 + 1), 2;
    } else {
      p, k := (v.0, v.1 - 1), 3;
    }
  }

  lemma {:induction false} ReachGrows(g: Rows, s: Pos, m: nat, n: nat, v: Pos)
    requires m <= n && InReach(g, s, m, v)
    ensures InReach(g, s, n, v)
  {
    if m < n {
      ReachGrows(g, s, m, n - 1, v);
    }
  }

  /** A cell within `d` moves and not within `n - 1` moves has `n <= d`. */
  lemma LevelBound(g: Rows, s: Pos, p: Pos, n: nat, d: nat)
    requires InReach(g, s, d, p)
    requires n > 0 ==> !InReach(g, s, n - 1, p)
    ensures n <= d
  {
    if n > d {
      ReachGrows(g, s, d, n - 1, p);
    }
  }

  /** A walk of `|w| - 1` moves ends within that many moves of its first cell. */
  lemma {:induction false} WalkEndsInReach(g: Rows, w: seq<Pos>)
    requires IsWalk(g, w)
    ensures InReach(g, w[0], |w| - 1, w[|w| - 1])
  {
    if |w| > 1 {
      var w' := w[..|w| - 1];
      WalkEndsInReach(g, w');
      var k := DirectionTo(w[|w| - 2], w[|w| - 1]);
      ReachStep(g, w[0], |w| - 2, w[|w| - 2], k);
    }
  }

  /** Every open neighbour of a cell of `S` is in `S`. */
  ghost predicate Closed(g: Rows, S: set<Pos>) {
    forall p, k :: p in S && 0 <= k < 4 && Open(g, Step(p, k)) ==> Step(p, k) in S
  }

  /** A walk that starts inside a closed set never leaves it. */
  lemma {:induction false} WalkStaysInClosed(g: Rows, S: set<Pos>, w: seq<Pos>)
    requires Closed(g, S) && IsWalk(g, w) && w[0] in S
    ensures w[|w| - 1] in S
  {
    if |w| > 1 {
      WalkStaysInClosed(g, S, w[..|w| - 1]);
      var k := DirectionTo(w[|w| - 2], w[|w| - 1]);
    }
  }

  /** A closed set holding `s` but not `t` shows that `t` cannot be reached from `s`. */
  lemma ClosedSeparates(g: Rows, S: set<Pos>, s: Pos, t: Pos)
    requires Closed(g, S) && s in S && t !in S
    ensures !Reachable(g, s, t)
  {
    forall w | IsPath(g, w, s, t) ensures false {
      WalkStaysInClosed(g, S, w);
    }
  }

  /** The cells of an `R` by `C` array. */
  ghost function Box(R: int, C: int): set<Pos> {
    set i, j | 0 <= i < R && 0 <= j < C :: (i, j)
  }

  ghost function RowCells(i: int, C: int): set<Pos> {
    set j | 0 <= j < C :: (i, j)
  }

  lemma {:induction false} RowCellsSize(i: int, C: nat)
    ensures |RowCells(i, C)| == C
  {
    if C > 0 {
      RowCellsSize(i, C - 1);
      assert RowCells(i, C) == RowCells(i, C - 1) + {(i, C - 1)};
    }
  }

  /** The first `R` rows are the first `R - 1` rows and, apart from them, row `R - 1`. */
  lemma BoxSplit(R: nat, C: nat)
    requires R > 0
    ensures Box(R, C) == Box(R - 1, C) + RowCells(R - 1, C)
    ensures Box(R - 1, C) !! RowCells(R - 1, C)
  {
    var upper, last := Box(R - 1, C), RowCells(R - 1, C);
    forall p | p in Box(R, C) ensures p in upper + last {
      if p.0 < R - 1 {
        assert p in upper by { assert p == (p.0, p.1); }
      } else {
        assert p in last by { assert p == (R - 1, p.1); }
      }
    }
    forall p | p in upper + last ensures p in Box(R, C) {
      assert p == (p.0, p.1);
    }
    forall p | p in upper ensures p !in last {
      assert p.0 < R - 1;
    }
  }

  /** An `R` by `C` array has `R * C` cells. */
  lemma {:induction false} BoxSize(R: nat, C: nat)
    ensures |Box(R, C)| == R * C
  {
    if R > 0 {
      BoxSize(R - 1, C);
      RowCellsSize(R - 1, C);
      BoxSplit(R, C);
      MulPred(R, C);
    }
  }

  lemma MulPred(R: nat, C: nat)
    requires R > 0
    ensures R * C == (R - 1) * C + C
  {
  }

  /** Distinct cells of an `R` by `C` array number at most `R * C`. */
  lemma DistinctInBox(s: seq<Pos>, R: nat, C: nat)
    requires Distinct(s)
    requires forall i :: 0 <= i < |s| ==> 0 <= s[i].0 < R && 0 <= s[i].1 < C
    ensures |s| <= R * C
  {
    forall i | 0 <= i < |s| ensures s[i] in Box(R, C) {
      assert s[i] == (s[i].0, s[i].1);
    }
    DistinctWithin(s, Box(R, C));
    BoxSize(R, C);
  }
}
