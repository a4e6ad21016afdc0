/** A playing card ("board"): a grid of numbers and blanks with a parallel
    grid of marks, the marking of a drawn number, and the three win
    predicates Pick, Line and Lota.
 */
module Boards {

  /** A grid cell: a number, or the blank sentinel " ". */
  datatype Cell = Num(value: int) | Blank

  /** `numbers` holds the card's cells, `used` says which cells are marked. */
  datatype Board = Board(numbers: seq<seq<Cell>>, used: seq<seq<bool>>)

  /** The shape newBoard asserts before returning a card: both grids have the
      same number of rows, every row is as long as the first, and the two
      grids have the same row lengths. Every board operation relies on it. */
  predicate WellFormed(b: Board) {
    && |b.numbers| == |b.used|
    && forall i :: 0 <= i < |b.used| ==> |b.used[i]| == |b.used[0]| && |b.numbers[i]| == |b.used[i]|
  }

  /** The columns of a row that hold the blank. */
  function BlankPositions(row: seq<Cell>): set<int> {
    set j | 0 <= j < |row| && row[j] == Blank
  }

  /** The columns of a row that hold a number. */
  function NumberPositions(row: seq<Cell>): set<int> {
    set j | 0 <= j < |row| && row[j].Num?
  }

  /** Cell `j` holds the first occurrence of number `x` in `row`. */
  predicate FirstOccurrence(row: seq<Cell>, j: int, x: int) {
    0 <= j < |row| && row[j] == Num(x) && forall k :: 0 <= k < j ==> row[k] != Num(x)
  }

  /** `row.findIndex(n => n === x)`. The comparison is strict, so a blank
      never matches a number; -1 means "not found". */
  function FindIndex(row: seq<Cell>, x: int): (j: int)
    ensures -1 <= j < |row|
    ensures j == -1 <==> Num(x) !in row
    ensures j != -1 ==> FirstOccurrence(row, j, x)
  {
    if row == [] then -1
    else if row[0] == Num(x) then 0
    else
      var j := FindIndex(row[1..], x);
      if j == -1 then -1 else j + 1
  }

  /** One row of boardAddNumber: mark the first cell holding `x`, if any. */
  function MarkRow(row: seq<Cell>, used: seq<bool>, x: int): (r: seq<bool>)
    requires |used| == |row|
    ensures |r| == |used|
    ensures forall j :: 0 <= j < |r| ==> r[j] == (used[j] || FirstOccurrence(row, j, x))
  {
    var j := FindIndex(row, x);
    if j == -1 then used else used[j := true]
  }

  /** boardAddNumber(board, x): in every row, the first cell equal to `x`
      becomes marked. Nothing else changes. */
  function AddNumber(b: Board, x: int): (r: Board)
    requires WellFormed(b)
    ensures WellFormed(r)
    ensures r.numbers == b.numbers
    ensures |r.used| == |b.used|
    ensures forall i :: 0 <= i < |r.used| ==> |r.used[i]| == |b.used[i]|
    ensures forall i, j :: 0 <= i < |b.used| && 0 <= j < |b.used[i]| ==>
      r.used[i][j] == (b.used[i][j] || FirstOccurrence(b.numbers[i], j, x))
  {
    Board(b.numbers, seq(|b.used|, i requires 0 <= i < |b.used| => MarkRow(b.numbers[i], b.used[i], x)))
  }

  /** JavaScript's loose `c != " "`. A blank is " ", and the number 0 is
      loosely equal to " " too, because " " converts to the number 0. */
  predicate LooselyNotBlank(c: Cell) {
    match c
    case Blank => false
    case Num(v) => v != 0
  }

  /** boardHasPick: some marked cell is (loosely) not blank. */
  predicate HasPick(b: Board)
    requires WellFormed(b)
  {
    exists i, j :: 0 <= i < |b.used| && 0 <= j < |b.used[i]| && b.used[i][j] && LooselyNotBlank(b.numbers[i][j])
  }

  /** Because the comparison is loose, a card whose only marked number is 0
      has no Pick, while the same card with 1 in place of 0 has one. */
  lemma MarkedZeroIsNoPick()
    ensures !HasPick(Board([[Num(0), Blank]], [[true, true]]))
    ensures HasPick(Board([[Num(1), Blank]], [[true, true]]))
  {
    var b := Board([[Num(1), Blank]], [[true, true]]);
    assert b.used[0][0] && LooselyNotBlank(b.numbers[0][0]);
  }

  /** `s.every(e => e)`. */
  predicate AllTrue(s: seq<bool>) {
    forall k :: 0 <= k < |s| ==> s[k]
  }

  /** boardHasLine: some row is marked throughout. */
  predicate HasLine(b: Board) {
    exists i :: 0 <= i < |b.used| && AllTrue(b.used[i])
  }

  /** `g.flat()`: the rows of a grid, concatenated. */
  function Flatten(g: seq<seq<bool>>): (r: seq<bool>)
    ensures forall x :: x in r <==> exists i :: 0 <= i < |g| && x in g[i]
  {
    if g == [] then []
    else
      var r := g[0] + Flatten(g[1..]);
      assert forall i :: 0 < i < |g| ==> g[i] == g[1..][i - 1];
      r
  }

  /** boardHasLota: the flattened mark grid is marked throughout. */
  predicate HasLota(b: Board) {
    AllTrue(Flatten(b.used))
  }

  /** Flattening before testing makes no difference: Lota holds exactly when
      every cell of every row is marked. */
  lemma LotaIffEveryCell(b: Board)
    ensures HasLota(b) <==> forall i, j :: 0 <= i < |b.used| && 0 <= j < |b.used[i]| ==> b.used[i][j]
  {
    var f := Flatten(b.used);
    if HasLota(b) {
      forall i, j | 0 <= i < |b.used| && 0 <= j < |b.used[i]| ensures b.used[i][j] {
        var x := b.used[i][j];
        assert x in b.used[i];
        assert x in f;
      }
    } else {
      var k :| 0 <= k < |f| && !f[k];
      assert false in f;
      var i :| 0 <= i < |b.used| && false in b.used[i];
      var j :| 0 <= j < |b.used[i]| && b.used[i][j] == false;
    }
  }

  /** On a card with at least one row, a full card has a full line. */
  lemma LotaImpliesLine(b: Board)
    requires |b.used| > 0
    requires HasLota(b)
    ensures HasLine(b)
  {
    LotaIffEveryCell(b);
    assert AllTrue(b.used[0]);
  }

  /** Marking never clears a mark, so Pick stays won. */
  lemma PickMonotone(b: Board, x: int)
    requires WellFormed(b)
    requires HasPick(b)
    ensures HasPick(AddNumber(b, x))
  {
    var i, j :| 0 <= i < |b.used| && 0 <= j < |b.used[i]| && b.used[i][j] && LooselyNotBlank(b.numbers[i][j]);
    var r := AddNumber(b, x);
    assert r.used[i][j];
  }

  /** Marking never clears a mark, so Line stays won. */
  lemma LineMonotone(b: Board, x: int)
    requires WellFormed(b)
    requires HasLine(b)
    ensures HasLine(AddNumber(b, x))
  {
    var i :| 0 <= i < |b.used| && AllTrue(b.used[i]);
    var r := AddNumber(b, x);
    assert AllTrue(r.used[i]);
  }

  /** Marking never clears a mark, so Lota stays won. */
  lemma LotaMonotone(b: Board, x: int)
    requires WellFormed(b)
    requires HasLota(b)
    ensures HasLota(AddNumber(b, x))
  {
    var r := AddNumber(b, x);
    LotaIffEveryCell(b);
    LotaIffEveryCell(r);
  }

  /** Marking the same number twice marks nothing more the second time. */
  lemma AddNumberIdempotent(b: Board, x: int)
    requires WellFormed(b)
    ensures AddNumber(AddNumber(b, x), x) == AddNumber(b, x)
  {
    var r := AddNumber(b, x);
    var r2 := AddNumber(r, x);
    assert |r2.used| == |r.used|;
    forall i | 0 <= i < |r.used| ensures r2.used[i] == r.used[i] {
    }
  }

  /** Marking a number that is on no row of the card changes nothing. */
  lemma AddAbsentNumber(b: Board, x: int)
    requires WellFormed(b)
    requires forall i :: 0 <= i < |b.numbers| ==> Num(x) !in b.numbers[i]
    ensures AddNumber(b, x) == b
  {
    var r := AddNumber(b, x);
    forall i | 0 <= i < |b.used| ensures r.used[i] == b.used[i] {
      forall j | 0 <= j < |b.used[i]| ensures r.used[i][j] == b.used[i][j] {
        assert b.numbers[i][j] in b.numbers[i];
      }
    }
  }

  /** Within a row, no number occurs twice (true of every card newBoard
      builds, since its numbers are pairwise distinct). */
  predicate DistinctRows(b: Board) {
    forall i, j, k :: 0 <= i < |b.numbers| && 0 <= j < k < |b.numbers[i]| && b.numbers[i][j].Num? ==>
      b.numbers[i][j] != b.numbers[i][k]
  }

  /** When no row repeats a number, marking the first occurrence marks every
      cell holding the number: the code's per-row findIndex agrees with
      "mark every cell equal to the drawn number". */
  lemma AddNumberMarksEveryOccurrence(b: Board, x: int)
    requires WellFormed(b)
    requires DistinctRows(b)
    ensures forall i, j :: 0 <= i < |b.used| && 0 <= j < |b.used[i]| ==>
      AddNumber(b, x).used[i][j] == (b.used[i][j] || b.numbers[i][j] == Num(x))
  {
    forall i, j | 0 <= i < |b.used| && 0 <= j < |b.used[i]| && b.numbers[i][j] == Num(x)
      ensures FirstOccurrence(b.numbers[i], j, x)
    {
      forall k | 0 <= k < j ensures b.numbers[i][k] != Num(x) {
        assert b.numbers[i][k].Num? ==> b.numbers[i][k] != b.numbers[i][j];
      }
    }
  }
}
