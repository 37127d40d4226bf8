/** The global alignment of dynamic_programming/needleman_wunsch.cpp: a score
    matrix over prefix pairs filled row by row, then a traceback from the bottom
    right corner that builds the two aligned strings from the back. */
module NeedlemanWunsch {

  /** The three scores the function takes, by default 5, -3 and -4. */
  datatype Scoring = Scoring(matchScore: int, mismatchScore: int, gapPenalty: int)

  const DefaultScoring := Scoring(5, -3, -4)

  function Max3(a: int, b: int, c: int): (r: int)
    ensures r >= a && r >= b && r >= c && (r == a || r == b || r == c)
  {
    if a >= b && a >= c then a else if b >= c then b else c
  }

  /** One column of an alignment: two characters facing each other, a character
      of the first string over a gap, or a gap over a character of the second. */
  datatype Column = Pair(a: char, b: char) | OverGap(a: char) | UnderGap(b: char)

  function ColumnScore(sc: Scoring, c: Column): int {
    match c
    case Pair(a, b) => if a == b then sc.matchScore else sc.mismatchScore
    case OverGap(_) => sc.gapPenalty
    case UnderGap(_) => sc.gapPenalty
  }

  /** The score of an alignment: the sum of its columns' scores. */
  function AlignScore(sc: Scoring, cols: seq<Column>): int {
    if cols == [] then 0 else ColumnScore(sc, cols[0]) + AlignScore(sc, cols[1..])
  }

  /** The characters of the first string that the columns consume. */
  function Firsts(cols: seq<Column>): string {
    if cols == [] then []
    else (if cols[0].UnderGap? then [] else [cols[0].a]) + Firsts(cols[1..])
  }

  /** The characters of the second string that the columns consume. */
  function Seconds(cols: seq<Column>): string {
    if cols == [] then []
    else (if cols[0].OverGap? then [] else [cols[0].b]) + Seconds(cols[1..])
  }

  /** The top line of an alignment, `-` for a gap. */
  function Top(cols: seq<Column>): (r: string)
    ensures |r| == |cols|
  {
    if cols == [] then [] else [if cols[0].UnderGap? then '-' else cols[0].a] + Top(cols[1..])
  }

  /** The bottom line of an alignment, `-` for a gap. */
  function Bottom(cols: seq<Column>): (r: string)
    ensures |r| == |cols|
  {
    if cols == [] then [] else [if cols[0].OverGap? then '-' else cols[0].b] + Bottom(cols[1..])
  }

  /** The columns align `s1` with `s2`. */
  ghost predicate Aligns(cols: seq<Column>, s1: string, s2: string) {
    Firsts(cols) == s1 && Seconds(cols) == s2
  }

  /** The matrix cell for the prefixes of lengths `i` and `j`: the borders add a gap
      per step, an inner cell is the best of the diagonal plus the pair's score
      and either neighbour plus a gap. */
  function Cell(s1: string, s2: string, sc: Scoring, i: int, j: int): int
    requires 0 <= i <= |s1| && 0 <= j <= |s2|
    decreases i + j
  {
    if i == 0 && j == 0 then 0
    else if j == 0 then Cell(s1, s2, sc, i - 1, 0) + sc.gapPenalty
    else if i == 0 then Cell(s1, s2, sc, 0, j - 1) + sc.gapPenalty
    else Max3(Cell(s1, s2, sc, i - 1, j - 1) + ColumnScore(sc, Pair(s1[i - 1], s2[j - 1])),
              Cell(s1, s2, sc, i - 1, j) + sc.gapPenalty,
              Cell(s1, s2, sc, i, j - 1) + sc.gapPenalty)
  }

  /** The borders are multiples of the gap penalty. */
  lemma {:induction false} Borders(s1: string, s2: string, sc: Scoring, i: int, j: int)
    requires 0 <= i <= |s1| && 0 <= j <= |s2|
    ensures Cell(s1, s2, sc, i, 0) == i * sc.gapPenalty
    ensures Cell(s1, s2, sc, 0, j) == j * sc.gapPenalty
  {
    if i > 0 {
      Borders(s1, s2, sc, i - 1, 0);
    }
    if j > 0 {
      Borders(s1, s2, sc, 0, j - 1);
    }
  }

  /** The matrix fill: the first column, the first row, then every inner cell row
      by row. */
  method FillMatrix(s1: string, s2: string, sc: Scoring) returns (matrix: array2<int>)
    ensures fresh(matrix) && matrix.Length0 == |s1| + 1 && matrix.Length1 == |s2| + 1
    ensures forall i, j {:trigger matrix[i, j]} :: 0 <= i <= |s1| && 0 <= j <= |s2| ==> matrix[i, j] == Cell(s1, s2, sc, i, j)
  {
    matrix := new int[|s1| + 1, |s2| + 1]((_, _) => 0);
    for i := 1 to |s1| + 1
      invariant forall r {:trigger matrix[r, 0]} :: 0 <= r < i ==> matrix[r, 0] == Cell(s1, s2, sc, r, 0)
    {
      matrix[i, 0] := matrix[i - 1, 0] + sc.gapPenalty;
    }
    for j := 1 to |s2| + 1
      invariant forall r {:trigger matrix[r, 0]} :: 0 <= r <= |s1| ==> matrix[r, 0] == Cell(s1, s2, sc, r, 0)
      invariant forall c {:trigger matrix[0, c]} :: 0 <= c < j ==> matrix[0, c] == Cell(s1, s2, sc, 0, c)
    {
      matrix[0, j] := matrix[0, j - 1] + sc.gapPenalty;
    }
    for i := 1 to |s1| + 1
      invariant forall r {:trigger matrix[r, 0]} :: 0 <= r <= |s1| ==> matrix[r, 0] == Cell(s1, s2, sc, r, 0)
      invariant forall r, c {:trigger matrix[r, c]} :: 0 <= r < i && 0 <= c <= |s2| ==> matrix[r, c] == Cell(s1, s2, sc, r, c)
    {
      FillRow(matrix, s1, s2, sc, i);
    }
  }

  /** The inner loop for row `i`: each cell from its diagonal, upper and left
      neighbours. */
  method FillRow(matrix: array2<int>, s1: string, s2: string, sc: Scoring, i: int)
    modifies matrix
    requires matrix.Length0 == |s1| + 1 && matrix.Length1 == |s2| + 1 && 1 <= i <= |s1|
    requires forall r {:trigger matrix[r, 0]} :: 0 <= r <= |s1| ==> matrix[r, 0] == Cell(s1, s2, sc, r, 0)
    requires forall r, c {:trigger matrix[r, c]} :: 0 <= r < i && 0 <= c <= |s2| ==> matrix[r, c] == Cell(s1, s2, sc, r, c)
    ensures forall r {:trigger matrix[r, 0]} :: 0 <= r <= |s1| ==> matrix[r, 0] == Cell(s1, s2, sc, r, 0)
    ensures forall r, c {:trigger matrix[r, c]} :: 0 <= r <= i && 0 <= c <= |s2| ==> matrix[r, c] == Cell(s1, s2, sc, r, c)
  {
    for j := 1 to |s2| + 1
      invariant forall r {:trigger matrix[r, 0]} :: 0 <= r <= |s1| ==> matrix[r, 0] == Cell(s1, s2, sc, r, 0)
      invariant forall r, c {:trigger matrix[r, c]} :: 0 <= r < i && 0 <= c <= |s2| ==> matrix[r, c] == Cell(s1, s2, sc, r, c)
      invariant forall c {:trigger matrix[i, c]} :: 0 <= c < j ==> matrix[i, c] == Cell(s1, s2, sc, i, c)
    {
      FillCell(matrix, s1, s2, sc, i, j);
    }
  }

  /** One inner cell: the best of a match or mismatch on the diagonal, a gap from
      above and a gap from the left. */
  method FillCell(matrix: array2<int>, s1: string, s2: string, sc: Scoring, i: int, j: int)
    modifies matrix
    requires matrix.Length0 == |s1| + 1 && matrix.Length1 == |s2| + 1 && 1 <= i <= |s1| && 1 <= j <= |s2|
    requires matrix[i - 1, j - 1] == Cell(s1, s2, sc, i - 1, j - 1)
    requires matrix[i - 1, j] == Cell(s1, s2, sc, i - 1, j)
    requires matrix[i, j - 1] == Cell(s1, s2, sc, i, j - 1)
    ensures matrix[i, j] == Cell(s1, s2, sc, i, j)
    ensures forall r, c {:trigger matrix[r, c]} :: 0 <= r <= |s1| && 0 <= c <= |s2| && (r != i || c != j) ==> matrix[r, c] == old(matrix[r, c])
  {
    var score;
    if s1[i - 1] == s2[j - 1] {
      score := sc.matchScore;
    } else {
      score := sc.mismatchScore;
    }
    var diagonal := matrix[i - 1, j - 1] + score;
    var up := matrix[i - 1, j] + sc.gapPenalty;
    var left := matrix[i, j - 1] + sc.gapPenalty;
    matrix[i, j] := Max3(diagonal, up, left);
  }

  /** The cell a column steps back to from `(i, j)`. */
  function PrevI(i: int, c: Column): int {
    if c.UnderGap? then i else i - 1
  }

  function PrevJ(j: int, c: Column): int {
    if c.OverGap? then j else j - 1
  }

  /** Column `c` consumes the characters just before `i` and `j` that it names. */
  ghost predicate Consumes(s1: string, s2: string, i: int, j: int, c: Column)
    requires 0 <= i <= |s1| && 0 <= j <= |s2|
  {
    match c
    case Pair(a, b) => 0 < i && 0 < j && a == s1[i - 1] && b == s2[j - 1]
    case OverGap(a) => 0 < i && a == s1[i - 1]
    case UnderGap(b) => 0 < j && b == s2[j - 1]
  }

  /** The traceback: from the bottom right corner, step diagonally when the cell
      came from its diagonal, else up when it came from above, else left, putting
      the column in front of both lines. The columns align the two strings and
      score the corner's value. */
  method Traceback(matrix: array2<int>, s1: string, s2: string, sc: Scoring)
    returns (top: string, bottom: string, ghost cols: seq<Column>)
    requires matrix.Length0 == |s1| + 1 && matrix.Length1 == |s2| + 1
    requires forall i, j {:trigger matrix[i, j]} :: 0 <= i <= |s1| && 0 <= j <= |s2| ==> matrix[i, j] == Cell(s1, s2, sc, i, j)
    ensures Aligns(cols, s1, s2) && top == Top(cols) && bottom == Bottom(cols)
    ensures AlignScore(sc, cols) == Cell(s1, s2, sc, |s1|, |s2|)
  {
    top, bottom, cols := "", "", [];
    var i, j := |s1|, |s2|;
    while i > 0 || j > 0
      invariant 0 <= i <= |s1| && 0 <= j <= |s2|
      invariant Aligns(cols, s1[i..], s2[j..]) && top == Top(cols) && bottom == Bottom(cols)
      invariant Cell(s1, s2, sc, i, j) + AlignScore(sc, cols) == Cell(s1, s2, sc, |s1|, |s2|)
      decreases i + j
    {
      var c := TraceStep(matrix, s1, s2, sc, i, j);
      top, bottom, cols := TakeColumn(s1, s2, i, j, c, top, bottom, cols);
      i, j := PrevI(i, c), PrevJ(j, c);
    }
    assert s1[0..] == s1 && s2[0..] == s2;
  }

  /** One choice of the traceback, by the order of its tests: the column the cell
      at `(i, j)` came from. */
  method TraceStep(matrix: array2<int>, s1: string, s2: string, sc: Scoring, i: int, j: int) returns (c: Column)
    requires matrix.Length0 == |s1| + 1 && matrix.Length1 == |s2| + 1
    requires forall i, j {:trigger matrix[i, j]} :: 0 <= i <= |s1| && 0 <= j <= |s2| ==> matrix[i, j] == Cell(s1, s2, sc, i, j)
    requires 0 <= i <= |s1| && 0 <= j <= |s2| && (i > 0 || j > 0)
    ensures Consumes(s1, s2, i, j, c)
    ensures Cell(s1, s2, sc, i, j) == Cell(s1, s2, sc, PrevI(i, c), PrevJ(j, c)) + ColumnScore(sc, c)
  {
    if i > 0 && j > 0 && matrix[i, j] == matrix[i - 1, j - 1] + (if s1[i - 1] == s2[j - 1] then sc.matchScore else sc.mismatchScore) {
      c := Pair(s1[i - 1], s2[j - 1]);
    } else if i > 0 && matrix[i, j] == matrix[i - 1, j] + sc.gapPenalty {
      c := OverGap(s1[i - 1]);
    } else {
      assert j > 0 && matrix[i, j] == matrix[i, j - 1] + sc.gapPenalty;
      c := UnderGap(s2[j - 1]);
    }
  }

  /** Putting a column consuming the characters just before `i` and `j` in front of
      the alignment of the suffixes. */
  method TakeColumn(s1: string, s2: string, i: int, j: int, c: Column, top: string, bottom: string,
                    ghost cols: seq<Column>)
    returns (top': string, bottom': string, ghost cols': seq<Column>)
    requires 0 <= i <= |s1| && 0 <= j <= |s2| && Consumes(s1, s2, i, j, c)
    requires Aligns(cols, s1[i..], s2[j..]) && top == Top(cols) && bottom == Bottom(cols)
    ensures cols' == [c] + cols && top' == Top(cols') && bottom' == Bottom(cols')
    ensures Aligns(cols', s1[PrevI(i, c)..], s2[PrevJ(j, c)..])
  {
    cols' := [c] + cols;
    assert cols'[1..] == cols;
    match c
    case Pair(a, b) =>
      top', bottom' := [a] + top, [b] + bottom;
      assert s1[i - 1..] == [a] + s1[i..] && s2[j - 1..] == [b] + s2[j..];
    case OverGap(a) =>
      top', bottom' := [a] + top, "-" + bottom;
      assert s1[i - 1..] == [a] + s1[i..];
    case UnderGap(b) =>
      top', bottom' := "-" + top, [b] + bottom;
      assert s2[j - 1..] == [b] + s2[j..];
  }

  /** needleman_wunsch: fill the matrix, trace back from its corner and return the
      two aligned lines with the corner's score. The lines are of one length and
      spell an alignment of the two strings that scores the corner's value, and no
      alignment of the two strings scores more. */
  method NeedlemanWunsch(s1: string, s2: string, sc: Scoring)
    returns (top: string, bottom: string, score: int, ghost cols: seq<Column>)
    ensures Aligns(cols, s1, s2) && top == Top(cols) && bottom == Bottom(cols) && |top| == |bottom|
    ensures score == Cell(s1, s2, sc, |s1|, |s2|) == AlignScore(sc, cols)
    ensures forall other :: Aligns(other, s1, s2) ==> AlignScore(sc, other) <= score
  {
    var matrix := FillMatrix(s1, s2, sc);
    top, bottom, cols := Traceback(matrix, s1, s2, sc);
    score := matrix[|s1|, |s2|];
    forall other | Aligns(other, s1, s2) ensures AlignScore(sc, other) <= score {
      assert s1[..|s1|] == s1 && s2[..|s2|] == s2;
      CellIsBest(s1, s2, sc, |s1|, |s2|, other);
    }
  }

  /** No alignment of the prefixes of lengths `i` and `j` scores more than their
      cell. */
  lemma {:induction false} CellIsBest(s1: string, s2: string, sc: Scoring, i: int, j: int, cols: seq<Column>)
    requires 0 <= i <= |s1| && 0 <= j <= |s2| && Aligns(cols, s1[..i], s2[..j])
    ensures AlignScore(sc, cols) <= Cell(s1, s2, sc, i, j)
    decreases |cols|
  {
    if cols == [] {
      assert i == |s1[..i]| == 0 && j == |s2[..j]| == 0;
    } else {
      var rest, c := cols[..|cols| - 1], cols[|cols| - 1];
      LastColumn(s1, s2, sc, i, j, cols, rest, c);
      CellIsBest(s1, s2, sc, PrevI(i, c), PrevJ(j, c), rest);
      CellCovers(s1, s2, sc, i, j, c);
    }
  }

  /** The last column of an alignment of two prefixes consumes their last
      characters; the columns before it align what is left. */
  lemma LastColumn(s1: string, s2: string, sc: Scoring, i: int, j: int, cols: seq<Column>,
                   rest: seq<Column>, c: Column)
    requires 0 <= i <= |s1| && 0 <= j <= |s2| && Aligns(cols, s1[..i], s2[..j])
    requires cols != [] && rest == cols[..|cols| - 1] && c == cols[|cols| - 1]
    ensures Consumes(s1, s2, i, j, c) && 0 <= PrevI(i, c) && 0 <= PrevJ(j, c)
    ensures Aligns(rest, s1[..PrevI(i, c)], s2[..PrevJ(j, c)])
    ensures AlignScore(sc, cols) == AlignScore(sc, rest) + ColumnScore(sc, c)
  {
    SplitLast(sc, cols, rest, c);
    match c
    case Pair(a, b) =>
      DropLast(s1[..i], Firsts(rest), a);
      DropLast(s2[..j], Seconds(rest), b);
      assert s1[..i][..i - 1] == s1[..i - 1] && s2[..j][..j - 1] == s2[..j - 1];
    case OverGap(a) =>
      DropLast(s1[..i], Firsts(rest), a);
      assert s1[..i][..i - 1] == s1[..i - 1];
    case UnderGap(b) =>
      DropLast(s2[..j], Seconds(rest), b);
      assert s2[..j][..j - 1] == s2[..j - 1];
  }

  /** An alignment is its columns but the last, followed by the last one. */
  lemma SplitLast(sc: Scoring, cols: seq<Column>, rest: seq<Column>, c: Column)
    requires cols != [] && rest == cols[..|cols| - 1] && c == cols[|cols| - 1]
    ensures Firsts(cols) == Firsts(rest) + (if c.UnderGap? then [] else [c.a])
    ensures Seconds(cols) == Seconds(rest) + (if c.OverGap? then [] else [c.b])
    ensures AlignScore(sc, cols) == AlignScore(sc, rest) + ColumnScore(sc, c)
  {
    assert cols == rest + [c];
    FirstsConcat(rest, [c]);
    SecondsConcat(rest, [c]);
    ScoreConcat(sc, rest, [c]);
  }

  /** A cell is at least the cell any column steps back to plus that column's
      score. */
  lemma CellCovers(s1: string, s2: string, sc: Scoring, i: int, j: int, c: Column)
    requires 0 <= i <= |s1| && 0 <= j <= |s2| && Consumes(s1, s2, i, j, c)
    ensures 0 <= PrevI(i, c) && 0 <= PrevJ(j, c)
    ensures Cell(s1, s2, sc, PrevI(i, c), PrevJ(j, c)) + ColumnScore(sc, c) <= Cell(s1, s2, sc, i, j)
  {
  }

  /** A string that is `t` followed by `x` is non-empty, ends in `x` and is `t`
      without it. */
  lemma DropLast(s: string, t: string, x: char)
    requires s == t + [x]
    ensures |s| > 0 && s[|s| - 1] == x && s[..|s| - 1] == t
  {
  }

  lemma {:induction false} FirstsConcat(a: seq<Column>, b: seq<Column>)
    ensures Firsts(a + b) == Firsts(a) + Firsts(b)
  {
    if a != [] {
      assert (a + b)[1..] == a[1..] + b;
      FirstsConcat(a[1..], b);
    } else {
      assert a + b == b;
    }
  }

  lemma {:induction false} SecondsConcat(a: seq<Column>, b: seq<Column>)
    ensures Seconds(a + b) == Seconds(a) + Seconds(b)
  {
    if a != [] {
      assert (a + b)[1..] == a[1..] + b;
      SecondsConcat(a[1..], b);
    } else {
      assert a + b == b;
    }
  }

  lemma {:induction false} ScoreConcat(sc: Scoring, a: seq<Column>, b: seq<Column>)
    ensures AlignScore(sc, a + b) == AlignScore(sc, a) + AlignScore(sc, b)
  {
    if a != [] {
      assert (a + b)[1..] == a[1..] + b;
      ScoreConcat(sc, a[1..], b);
    } else {
      assert a + b == b;
    }
  }

  /** A line with its gap characters taken out. */
  function Strip(s: string): (r: string)
    ensures |r| <= |s| && '-' !in r
  {
    if s == [] then [] else (if s[0] == '-' then [] else [s[0]]) + Strip(s[1..])
  }

  /** When the strings hold no `-`, taking the gaps out of the two lines gives the
      two strings back. */
  lemma {:induction false} StripLines(cols: seq<Column>)
    requires '-' !in Firsts(cols) && '-' !in Seconds(cols)
    ensures Strip(Top(cols)) == Firsts(cols) && Strip(Bottom(cols)) == Seconds(cols)
  {
    if cols != [] {
      StripLines(cols[1..]);
      assert Top(cols)[1..] == Top(cols[1..]) && Bottom(cols)[1..] == Bottom(cols[1..]);
    }
  }

  /** When the strings hold no `-`, no column of the two lines is a gap over a
      gap. */
  lemma {:induction false} NoDoubleGap(cols: seq<Column>)
    requires '-' !in Firsts(cols) && '-' !in Seconds(cols)
    ensures forall k :: 0 <= k < |cols| ==> Top(cols)[k] != '-' || Bottom(cols)[k] != '-'
  {
    if cols != [] {
      NoDoubleGap(cols[1..]);
      forall k | 0 <= k < |cols| ensures Top(cols)[k] != '-' || Bottom(cols)[k] != '-' {
        if k > 0 {
          assert Top(cols)[k] == Top(cols[1..])[k - 1] && Bottom(cols)[k] == Bottom(cols[1..])[k - 1];
        }
      }
    }
  }
}
