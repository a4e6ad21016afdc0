/** Card construction (newBoard).

    Column j of a card receives three distinct offsets chosen by pickN from
    0..9, one per row, giving the numbers 10j + offset. Then each of the three
    rows receives four distinct column positions chosen by pickN from 0..8,
    which are overwritten with the blank and marked in advance. So every row
    ends with four pre-marked blanks and five unmarked numbers.
 */
module Cards {
  import opened Sampler
  import opened Boards

  /** The random choices behind one card: for each of the 9 columns the
      shuffled order of the offsets 0..9, and for each of the 3 rows the
      shuffled order of the column positions 0..8. */
  datatype Layout = Layout(offsetOrders: seq<seq<int>>, blankOrders: seq<seq<int>>)

  /** Every shuffled order is a permutation of the literal array it shuffles. */
  predicate ValidLayout(l: Layout) {
    && |l.offsetOrders| == 9
    && (forall j :: 0 <= j < 9 ==> IsPermutation(l.offsetOrders[j], Range(10)))
    && |l.blankOrders| == 3
    && (forall i :: 0 <= i < 3 ==> IsPermutation(l.blankOrders[i], Range(9)))
  }

  /** `pickN([0..9], 3)` for column j: the offsets of its three rows. */
  function Offsets(l: Layout, j: int): (o: seq<int>)
    requires ValidLayout(l) && 0 <= j < 9
    ensures |o| == 3 && Distinct(o)
    ensures forall k :: 0 <= k < 3 ==> 0 <= o[k] <= 9
  {
    RangeMembers(10);
    var o := PickN(Range(10), l.offsetOrders[j], 3);
    assert forall k :: 0 <= k < 3 ==> o[k] in o;
    o
  }

  /** `pickN([0..8], 4)` for row i: the columns that become blank. */
  function Blanks(l: Layout, i: int): (p: seq<int>)
    requires ValidLayout(l) && 0 <= i < 3
    ensures |p| == 4 && Distinct(p)
    ensures forall k :: 0 <= k < 4 ==> 0 <= p[k] < 9
  {
    RangeMembers(9);
    var p := PickN(Range(9), l.blankOrders[i], 4);
    assert forall k :: 0 <= k < 4 ==> p[k] in p;
    p
  }

  /** newBoard(): column by column the numbers, then row by row the blanks.
      A cell is blank when its column is among the row's chosen blank
      positions (setting a cell blank twice has the effect of setting it
      once), and exactly the blank cells start marked. */
  function NewBoard(l: Layout): (b: Board)
    requires ValidLayout(l)
    ensures WellFormed(b)
    ensures |b.numbers| == 3
    ensures forall i :: 0 <= i < 3 ==> |b.numbers[i]| == 9
    ensures forall i, j :: 0 <= i < 3 && 0 <= j < 9 ==> (b.used[i][j] <==> b.numbers[i][j] == Blank)
  {
    Board(
      seq(3, i requires 0 <= i < 3 =>
        seq(9, j requires 0 <= j < 9 =>
          if j in Blanks(l, i) then Blank else Num(10 * j + Offsets(l, j)[i]))),
      seq(3, i requires 0 <= i < 3 => seq(9, j => j in Blanks(l, i))))
  }

  /** Each row of a new card has exactly four blanks and five numbers, and
      a cell starts marked exactly when it is blank. */
  lemma NewBoardRows(l: Layout)
    requires ValidLayout(l)
    ensures forall i :: 0 <= i < 3 ==>
      && |BlankPositions(NewBoard(l).numbers[i])| == 4
      && |NumberPositions(NewBoard(l).numbers[i])| == 5
    ensures forall i, j :: 0 <= i < 3 && 0 <= j < 9 ==>
      (NewBoard(l).used[i][j] <==> NewBoard(l).numbers[i][j] == Blank)
  {
    var b := NewBoard(l);
    var all := set x | x in Range(9);
    DistinctCardinality(Range(9));
    RangeMembers(9);
    forall i | 0 <= i < 3
      ensures |BlankPositions(b.numbers[i])| == 4
      ensures |NumberPositions(b.numbers[i])| == 5
    {
      var p := Blanks(l, i);
      var row := b.numbers[i];
      assert BlankPositions(row) == set x | x in p;
      DistinctCardinality(p);
      assert NumberPositions(row) == all - BlankPositions(row);
      assert all == NumberPositions(row) + BlankPositions(row);
    }
  }

  /** Unfolds NewBoard at row i, column j, for the proofs below. */
  lemma NewBoardCell(l: Layout, i: int, j: int)
    requires ValidLayout(l) && 0 <= i < 3 && 0 <= j < 9
    ensures NewBoard(l).numbers[i][j] ==
      if j in Blanks(l, i) then Blank else Num(10 * j + Offsets(l, j)[i])
  {
  }

  /** Every number on a new card lies in its column's decade, and so in
      [0, 90). */
  lemma NewBoardDecades(l: Layout)
    requires ValidLayout(l)
    ensures forall i, j :: 0 <= i < 3 && 0 <= j < 9 && NewBoard(l).numbers[i][j].Num? ==>
      && 10 * j <= NewBoard(l).numbers[i][j].value < 10 * j + 10
      && 0 <= NewBoard(l).numbers[i][j].value < 90
  {
    forall i, j | 0 <= i < 3 && 0 <= j < 9
      ensures NewBoard(l).numbers[i][j].Num? ==> 10 * j <= NewBoard(l).numbers[i][j].value < 10 * j + 10
    {
      NewBoardCell(l, i, j);
    }
  }

  /** No number appears twice on a new card: two cells of one column hold
      distinct offsets, and two columns hold different decades. */
  lemma NewBoardNumbersDistinct(l: Layout)
    requires ValidLayout(l)
    ensures forall i, j, i', j' ::
      && 0 <= i < 3 && 0 <= j < 9 && 0 <= i' < 3 && 0 <= j' < 9
      && (i, j) != (i', j')
      && NewBoard(l).numbers[i][j].Num?
      ==> NewBoard(l).numbers[i][j] != NewBoard(l).numbers[i'][j']
  {
    var b := NewBoard(l);
    forall i, j, i', j' |
      && 0 <= i < 3 && 0 <= j < 9 && 0 <= i' < 3 && 0 <= j' < 9
      && (i, j) != (i', j')
      && b.numbers[i][j].Num?
      ensures b.numbers[i][j] != b.numbers[i'][j']
    {
      NewBoardCell(l, i, j);
      NewBoardCell(l, i', j');
      var o := Offsets(l, j);
      var o' := Offsets(l, j');
      if b.numbers[i'][j'].Num? {
        if j == j' {
          assert o[i] != o[i'];
        } else {
          assert 0 <= o[i] <= 9 && 0 <= o'[i'] <= 9;
        }
      }
    }
  }

  /** Consequently no row of a new card repeats a number, so marking on a
      new card marks every cell holding the drawn number. */
  lemma NewBoardDistinctRows(l: Layout)
    requires ValidLayout(l)
    ensures DistinctRows(NewBoard(l))
  {
    NewBoardNumbersDistinct(l);
  }

  /** Every row of a new card has a number cell outside column 0: it has
      five number cells, and only one of them can be column 0. */
  lemma NumberOutsideFirstColumn(l: Layout, i: int) returns (c: int)
    requires ValidLayout(l) && 0 <= i < 3
    ensures 0 < c < 9 && NewBoard(l).numbers[i][c].Num?
  {
    NewBoardRows(l);
    var ps := NumberPositions(NewBoard(l).numbers[i]);
    assert |ps - {0}| >= 4;
    c :| c in ps - {0};
  }

  /** On a card laid out by newBoard, however it has been marked since, a
      full row gives a Pick. Column j holds numbers from 10j to 10j + 9, so
      only column 0 can hold the 0 that the loose blank test skips, and every
      row has a number outside column 0. */
  lemma NewBoardLineImpliesPick(l: Layout, b: Board)
    requires ValidLayout(l) && WellFormed(b)
    requires b.numbers == NewBoard(l).numbers
    requires HasLine(b)
    ensures HasPick(b)
  {
    var i :| 0 <= i < |b.used| && AllTrue(b.used[i]);
    var c := NumberOutsideFirstColumn(l, i);
    NewBoardCell(l, i, c);
    assert 0 <= c < |b.used[i]| && b.used[i][c];
    assert LooselyNotBlank(b.numbers[i][c]);
  }
}
