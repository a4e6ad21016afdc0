/** One trial ("game"): a draw order, a set of cards, and the turn and winner
    count at which each milestone (Pick, then Line, then Lota) first fired.

    playGame walks the draw order once. Each turn it marks the drawn number
    on every card and then tests only the predicate of the milestone it is
    waiting for; on the turn after Lota has fired it stops. -1 stands for
    "not fired".
 */
module Games {
  import opened Sampler
  import opened Boards
  import opened Cards

  datatype Game = Game(
    numbers: seq<int>,
    boards: seq<Board>,
    isPlayed: bool,
    firstPickTurn: int,
    firstPickBoards: int,
    firstLineTurn: int,
    firstLineBoards: int,
    firstLotaTurn: int,
    firstLotaBoards: int)

  datatype Milestone = Pick | Line | Lota

  predicate AllWellFormed(bs: seq<Board>) {
    forall k :: 0 <= k < |bs| ==> WellFormed(bs[k])
  }

  /** The win predicate of a milestone. */
  predicate Holds(m: Milestone, b: Board)
    requires WellFormed(b)
  {
    match m
    case Pick => HasPick(b)
    case Line => HasLine(b)
    case Lota => HasLota(b)
  }

  /** `boards.filter(b => predicate(b)).length`. */
  function Winners(m: Milestone, bs: seq<Board>): (n: nat)
    requires AllWellFormed(bs)
    ensures n <= |bs|
  {
    if bs == [] then 0 else (if Holds(m, bs[0]) then 1 else 0) + Winners(m, bs[1..])
  }

  /** The count is zero exactly when no card satisfies the milestone. */
  lemma {:induction false} WinnersZero(m: Milestone, bs: seq<Board>)
    requires AllWellFormed(bs)
    ensures Winners(m, bs) == 0 <==> forall k :: 0 <= k < |bs| ==> !Holds(m, bs[k])
  {
    if bs != [] {
      WinnersZero(m, bs[1..]);
      assert forall k :: 0 < k < |bs| ==> bs[k] == bs[1..][k - 1];
    }
  }

  /** `boards.forEach(b => boardAddNumber(b, x))`. */
  function MarkAll(bs: seq<Board>, x: int): (r: seq<Board>)
    requires AllWellFormed(bs)
    ensures |r| == |bs| && AllWellFormed(r)
    ensures forall k :: 0 <= k < |bs| ==> r[k] == AddNumber(bs[k], x)
  {
    seq(|bs|, k requires 0 <= k < |bs| => AddNumber(bs[k], x))
  }

  /** A game nobody has played yet, holding well-formed cards. */
  predicate Fresh(g: Game) {
    && !g.isPlayed
    && g.firstPickTurn == -1 && g.firstPickBoards == -1
    && g.firstLineTurn == -1 && g.firstLineBoards == -1
    && g.firstLotaTurn == -1 && g.firstLotaBoards == -1
    && AllWellFormed(g.boards)
  }

  /** newGame(boardCount): the shuffled numbers 0..89 (`draw`) and
      `boardCount` new cards, built from the given layouts. */
  function NewGame(boardCount: nat, draw: seq<int>, layouts: seq<Layout>): (g: Game)
    requires IsPermutation(draw, Range(90))
    requires |layouts| == boardCount
    requires forall k :: 0 <= k < |layouts| ==> ValidLayout(layouts[k])
    ensures Fresh(g)
    ensures |g.numbers| == 90 && Distinct(g.numbers)
    ensures forall x :: x in g.numbers <==> 0 <= x < 90
    ensures |g.boards| == boardCount
    ensures forall k :: 0 <= k < boardCount ==> g.boards[k] == NewBoard(layouts[k])
  {
    PermutationOfRange(draw, 90);
    assert |draw| == |multiset(draw)| == 90;
    Game(draw, seq(boardCount, k requires 0 <= k < boardCount => NewBoard(layouts[k])),
      false, -1, -1, -1, -1, -1, -1)
  }

  /** Every milestone has fired: the loop's final `else` returns. */
  predicate Done(g: Game) {
    g.firstPickTurn != -1 && g.firstLineTurn != -1 && g.firstLotaTurn != -1
  }

  /** The `if / else if` chain of one turn: test only the predicate of the
      first milestone that has not fired, and record it if some card
      satisfies it. */
  function Advance(g: Game, turn: nat): (r: Game)
    requires AllWellFormed(g.boards)
    requires !Done(g)
    ensures r.numbers == g.numbers && r.boards == g.boards && r.isPlayed == g.isPlayed
  {
    if g.firstPickTurn == -1 then
      var amount := Winners(Pick, g.boards);
      if amount > 0 then g.(firstPickTurn := turn, firstPickBoards := amount) else g
    else if g.firstLineTurn == -1 then
      var amount := Winners(Line, g.boards);
      if amount > 0 then g.(firstLineTurn := turn, firstLineBoards := amount) else g
    else
      var amount := Winners(Lota, g.boards);
      if amount > 0 then g.(firstLotaTurn := turn, firstLotaBoards := amount) else g
  }

  /** The loop of playGame from the number at index i on (turn i + 1): mark
      the number on every card, stop if every milestone has already fired,
      otherwise advance the milestones and go on. */
  function Run(g: Game, i: nat): (r: Game)
    requires i <= |g.numbers| && AllWellFormed(g.boards)
    ensures r.numbers == g.numbers && r.isPlayed == g.isPlayed
    ensures |r.boards| == |g.boards| && AllWellFormed(r.boards)
    decreases |g.numbers| - i
  {
    if i == |g.numbers| then g
    else
      var marked := g.(boards := MarkAll(g.boards, g.numbers[i]));
      if Done(marked) then marked else Run(Advance(marked, i + 1), i + 1)
  }

  /** playGame: a played game is left alone; otherwise it is flagged as
      played and the loop runs from the first number. */
  function PlayGame(g: Game): (r: Game)
    requires AllWellFormed(g.boards)
    ensures r.isPlayed
    ensures g.isPlayed ==> r == g
    ensures r.numbers == g.numbers
    ensures |r.boards| == |g.boards| && AllWellFormed(r.boards)
  {
    if g.isPlayed then g else Run(g.(isPlayed := true), 0)
  }

  // ---------------------------------------------------------------------
  // The reference behaviour: each milestone fires at the first turn, after
  // the previous milestone, at which some card satisfies it, judged on the
  // cards as they stand after that many numbers have been drawn.
  // ---------------------------------------------------------------------

  /** The cards after the first t numbers of the draw have been marked. */
  function BoardsAfter(bs: seq<Board>, draw: seq<int>, t: nat): (r: seq<Board>)
    requires AllWellFormed(bs) && t <= |draw|
    ensures |r| == |bs| && AllWellFormed(r)
  {
    if t == 0 then bs else MarkAll(BoardsAfter(bs, draw, t - 1), draw[t - 1])
  }

  /** The number of cards satisfying milestone m after t numbers. */
  function WinnersAt(m: Milestone, bs: seq<Board>, draw: seq<int>, t: nat): nat
    requires AllWellFormed(bs) && t <= |draw|
  {
    Winners(m, BoardsAfter(bs, draw, t))
  }

  /** `s` lists WinnersAt(m, bs, draw, t) for t = 0 .. |draw|. */
  predicate IsSeries(m: Milestone, bs: seq<Board>, draw: seq<int>, s: seq<nat>)
    requires AllWellFormed(bs)
  {
    && |s| == |draw| + 1
    && forall t: nat {:trigger WinnersAt(m, bs, draw, t)} :: t <= |draw| ==> s[t] == WinnersAt(m, bs, draw, t)
  }

  /** The winner counts of milestone m, turn by turn. */
  function Series(m: Milestone, bs: seq<Board>, draw: seq<int>): (s: seq<nat>)
    requires AllWellFormed(bs)
    ensures IsSeries(m, bs, draw, s)
  {
    seq(|draw| + 1, t requires 0 <= t <= |draw| => WinnersAt(m, bs, draw, t))
  }

  /** `turn` is the first turn in (after, horizon] whose count in `s` is
      positive and `count` is that count; or both are -1 and every count in
      (after, horizon] is zero. */
  predicate FirstWin(s: seq<nat>, after: nat, horizon: nat, turn: int, count: int)
    requires horizon < |s|
  {
    if turn == -1 then
      && count == -1
      && forall u :: after < u <= horizon ==> s[u] == 0
    else
      && after < turn <= horizon
      && count == s[turn] > 0
      && forall u :: after < u < turn ==> s[u] == 0
  }

  /** The record of `g` is the one the count series `sp`, `sl`, `sL` (of
      Pick, Line, Lota) call for up to turn `horizon`: Pick at its first
      turn, Line at its first turn after Pick, Lota at its first turn after
      Line, each with its count then; a milestone is never recorded before
      the one preceding it. */
  predicate Records(g: Game, sp: seq<nat>, sl: seq<nat>, sL: seq<nat>, horizon: nat)
    requires horizon < |sp| && horizon < |sl| && horizon < |sL|
  {
    && FirstWin(sp, 0, horizon, g.firstPickTurn, g.firstPickBoards)
    && (if g.firstPickTurn == -1
        then g.firstLineTurn == -1 && g.firstLineBoards == -1
        else FirstWin(sl, g.firstPickTurn, horizon, g.firstLineTurn, g.firstLineBoards))
    && (if g.firstLineTurn == -1
        then g.firstLotaTurn == -1 && g.firstLotaBoards == -1
        else FirstWin(sL, g.firstLineTurn, horizon, g.firstLotaTurn, g.firstLotaBoards))
  }

  /** The record of `g` is the one playing cards `bs` against `draw` calls
      for. */
  predicate RecordsGame(g: Game, bs: seq<Board>, draw: seq<int>)
    requires AllWellFormed(bs)
  {
    Records(g, Series(Pick, bs, draw), Series(Line, bs, draw), Series(Lota, bs, draw), |draw|)
  }

  /** How many numbers a finished game has marked on its cards: all of them,
      unless Lota fired early, in which case the loop marks one more number
      and stops. */
  function MarkedTurns(r: Game): nat {
    if 0 <= r.firstLotaTurn < |r.numbers| then r.firstLotaTurn + 1 else |r.numbers|
  }

  /** A milestone that has fired stays recorded as the horizon grows. */
  lemma FirstWinExtends(s: seq<nat>, after: nat, h: nat, h': nat, turn: int, count: int)
    requires h <= h' < |s|
    requires turn != -1
    requires FirstWin(s, after, h, turn, count)
    ensures FirstWin(s, after, h', turn, count)
  {
  }

  /** One more turn for the milestone being waited for: it fires exactly when
      its count after this turn is positive. */
  lemma FirstWinStep(s: seq<nat>, after: nat, i: nat)
    requires i + 1 < |s| && after <= i
    requires FirstWin(s, after, i, -1, -1)
    ensures s[i + 1] > 0 ==> FirstWin(s, after, i + 1, i + 1, s[i + 1])
    ensures s[i + 1] == 0 ==> FirstWin(s, after, i + 1, -1, -1)
  {
  }

  /** The winner count the loop computes after marking turn i + 1's number
      is the series entry of that turn. */
  lemma CountIsSeriesEntry(m: Milestone, bs: seq<Board>, draw: seq<int>, s: seq<nat>, i: nat, boards: seq<Board>)
    requires AllWellFormed(bs) && i < |draw| && IsSeries(m, bs, draw, s)
    requires boards == BoardsAfter(bs, draw, i + 1)
    ensures Winners(m, boards) == s[i + 1]
  {
    assert WinnersAt(m, bs, draw, i + 1) == Winners(m, boards);
  }

  /** While Pick is awaited, a turn records Pick exactly when some card
      has one. */
  lemma AdvancePick(g: Game, sp: seq<nat>, sl: seq<nat>, sL: seq<nat>, i: nat)
    requires i + 1 < |sp| && i + 1 < |sl| && i + 1 < |sL|
    requires AllWellFormed(g.boards) && Winners(Pick, g.boards) == sp[i + 1]
    requires Records(g, sp, sl, sL, i)
    requires g.firstPickTurn == -1
    ensures Records(Advance(g, i + 1), sp, sl, sL, i + 1)
    ensures Advance(g, i + 1).firstLotaTurn == -1
  {
    FirstWinStep(sp, 0, i);
  }

  /** While Line is awaited, a turn records Line exactly when some card
      has one. */
  lemma AdvanceLine(g: Game, sp: seq<nat>, sl: seq<nat>, sL: seq<nat>, i: nat)
    requires i + 1 < |sp| && i + 1 < |sl| && i + 1 < |sL|
    requires AllWellFormed(g.boards) && Winners(Line, g.boards) == sl[i + 1]
    requires Records(g, sp, sl, sL, i)
    requires g.firstPickTurn != -1 && g.firstLineTurn == -1
    ensures Records(Advance(g, i + 1), sp, sl, sL, i + 1)
    ensures Advance(g, i + 1).firstLotaTurn == -1
  {
    FirstWinExtends(sp, 0, i, i + 1, g.firstPickTurn, g.firstPickBoards);
    FirstWinStep(sl, g.firstPickTurn, i);
  }

  /** While Lota is awaited, a turn records Lota exactly when some card
      has one. */
  lemma AdvanceLota(g: Game, sp: seq<nat>, sl: seq<nat>, sL: seq<nat>, i: nat)
    requires i + 1 < |sp| && i + 1 < |sl| && i + 1 < |sL|
    requires AllWellFormed(g.boards) && Winners(Lota, g.boards) == sL[i + 1]
    requires Records(g, sp, sl, sL, i)
    requires g.firstPickTurn != -1 && g.firstLineTurn != -1 && g.firstLotaTurn == -1
    ensures Records(Advance(g, i + 1), sp, sl, sL, i + 1)
    ensures Advance(g, i + 1).firstLotaTurn in {-1, i + 1}
  {
    FirstWinExtends(sp, 0, i, i + 1, g.firstPickTurn, g.firstPickBoards);
    FirstWinExtends(sl, g.firstPickTurn, i, i + 1, g.firstLineTurn, g.firstLineBoards);
    FirstWinStep(sL, g.firstLineTurn, i);
  }

  /** Once every milestone has fired, the record stays right however many
      more turns are considered. */
  lemma DoneRecords(g: Game, sp: seq<nat>, sl: seq<nat>, sL: seq<nat>, h: nat, h': nat)
    requires h <= h' && h' < |sp| && h' < |sl| && h' < |sL|
    requires Records(g, sp, sl, sL, h)
    requires Done(g)
    ensures Records(g, sp, sl, sL, h')
  {
    FirstWinExtends(sp, 0, h, h', g.firstPickTurn, g.firstPickBoards);
    FirstWinExtends(sl, g.firstPickTurn, h, h', g.firstLineTurn, g.firstLineBoards);
    FirstWinExtends(sL, g.firstLineTurn, h, h', g.firstLotaTurn, g.firstLotaBoards);
  }

  /** One turn of the loop keeps the record right: after the number of turn
      i + 1 is marked, advancing the awaited milestone gives the record the
      series call for up to turn i + 1. */
  lemma AdvanceRecords(bs: seq<Board>, g: Game, i: nat, sp: seq<nat>, sl: seq<nat>, sL: seq<nat>)
    requires AllWellFormed(bs) && i < |g.numbers|
    requires IsSeries(Pick, bs, g.numbers, sp) && IsSeries(Line, bs, g.numbers, sl) && IsSeries(Lota, bs, g.numbers, sL)
    requires g.boards == BoardsAfter(bs, g.numbers, i + 1)
    requires Records(g, sp, sl, sL, i)
    requires !Done(g)
    ensures Records(Advance(g, i + 1), sp, sl, sL, i + 1)
    ensures Advance(g, i + 1).firstLotaTurn in {-1, i + 1}
  {
    var draw := g.numbers;
    if g.firstPickTurn == -1 {
      CountIsSeriesEntry(Pick, bs, draw, sp, i, g.boards);
      AdvancePick(g, sp, sl, sL, i);
    } else if g.firstLineTurn == -1 {
      CountIsSeriesEntry(Line, bs, draw, sl, i, g.boards);
      AdvanceLine(g, sp, sl, sL, i);
    } else {
      CountIsSeriesEntry(Lota, bs, draw, sL, i, g.boards);
      AdvanceLota(g, sp, sl, sL, i);
    }
  }

  /** The loop invariant of playGame: if the record is right up to turn i
      and the cards are those after i numbers, the loop ends with the record
      right for the whole draw and the cards marked with the numbers up to
      the turn after Lota. */
  lemma {:induction false} RunRecords(bs: seq<Board>, g: Game, i: nat, sp: seq<nat>, sl: seq<nat>, sL: seq<nat>)
    requires AllWellFormed(bs) && i <= |g.numbers|
    requires IsSeries(Pick, bs, g.numbers, sp) && IsSeries(Line, bs, g.numbers, sl) && IsSeries(Lota, bs, g.numbers, sL)
    requires g.boards == BoardsAfter(bs, g.numbers, i)
    requires Records(g, sp, sl, sL, i)
    requires g.firstLotaTurn == -1 || g.firstLotaTurn == i
    ensures Records(Run(g, i), sp, sl, sL, |g.numbers|)
    ensures Run(g, i).boards == BoardsAfter(bs, g.numbers, MarkedTurns(Run(g, i)))
    decreases |g.numbers| - i
  {
    var draw := g.numbers;
    if i < |draw| {
      var marked := g.(boards := MarkAll(g.boards, draw[i]));
      assert marked.boards == BoardsAfter(bs, draw, i + 1);
      if Done(marked) {
        DoneRecords(marked, sp, sl, sL, i, |draw|);
      } else {
        AdvanceRecords(bs, marked, i, sp, sl, sL);
        RunRecords(bs, Advance(marked, i + 1), i + 1, sp, sl, sL);
      }
    }
  }

  /** Playing a fresh game records each milestone at the first turn (after
      the previous milestone) at which some card satisfies it, together with
      the number of cards satisfying it at that turn, or -1 and -1 if no such
      turn exists; the cards end marked with every number drawn before the
      loop stopped. */
  lemma PlayGameRecordsFirstWins(g: Game)
    requires Fresh(g)
    ensures RecordsGame(PlayGame(g), g.boards, g.numbers)
    ensures PlayGame(g).boards == BoardsAfter(g.boards, g.numbers, MarkedTurns(PlayGame(g)))
  {
    var g0 := g.(isPlayed := true);
    var sp, sl, sL := Series(Pick, g.boards, g.numbers), Series(Line, g.boards, g.numbers), Series(Lota, g.boards, g.numbers);
    assert Records(g0, sp, sl, sL, 0);
    RunRecords(g.boards, g0, 0, sp, sl, sL);
  }

  /** What a record says about one milestone: -1 twice when it never fired,
      otherwise a turn in 1..turns and a card count in 1..cards. */
  predicate Outcome(turn: int, count: int, turns: nat, cards: nat) {
    if turn == -1 then count == -1 else 1 <= turn <= turns && 1 <= count <= cards
  }

  /** The bounds and ordering of a played game's record: each turn is -1 or
      in 1..|g.numbers| (90 for a game from NewGame), each count is -1 exactly when its turn is,
      and otherwise lies in 1..|boards| and is the number of cards satisfying
      the milestone at that turn; Line fires only after Pick, Lota only after
      Line. */
  lemma PlayGameBounds(g: Game)
    requires Fresh(g)
    ensures var r := PlayGame(g);
      && Outcome(r.firstPickTurn, r.firstPickBoards, |g.numbers|, |g.boards|)
      && Outcome(r.firstLineTurn, r.firstLineBoards, |g.numbers|, |g.boards|)
      && Outcome(r.firstLotaTurn, r.firstLotaBoards, |g.numbers|, |g.boards|)
    ensures var r := PlayGame(g);
      && (r.firstPickTurn != -1 ==> r.firstPickBoards == WinnersAt(Pick, g.boards, g.numbers, r.firstPickTurn))
      && (r.firstLineTurn != -1 ==> r.firstLineBoards == WinnersAt(Line, g.boards, g.numbers, r.firstLineTurn))
      && (r.firstLotaTurn != -1 ==> r.firstLotaBoards == WinnersAt(Lota, g.boards, g.numbers, r.firstLotaTurn))
    ensures var r := PlayGame(g);
      && (r.firstLineTurn != -1 ==> r.firstPickTurn != -1 && r.firstPickTurn < r.firstLineTurn)
      && (r.firstLotaTurn != -1 ==> r.firstLineTurn != -1 && r.firstLineTurn < r.firstLotaTurn)
  {
    var r := PlayGame(g);
    var bs, draw := g.boards, g.numbers;
    PlayGameRecordsFirstWins(g);
    var sp, sl, sL := Series(Pick, bs, draw), Series(Line, bs, draw), Series(Lota, bs, draw);
    if r.firstPickTurn != -1 {
      assert sp[r.firstPickTurn] == WinnersAt(Pick, bs, draw, r.firstPickTurn);
    }
    if r.firstLineTurn != -1 {
      assert sl[r.firstLineTurn] == WinnersAt(Line, bs, draw, r.firstLineTurn);
    }
    if r.firstLotaTurn != -1 {
      assert sL[r.firstLotaTurn] == WinnersAt(Lota, bs, draw, r.firstLotaTurn);
    }
  }

  /** Marking a number never takes a win away from a card. */
  lemma HoldsMonotone(m: Milestone, b: Board, x: int)
    requires WellFormed(b) && Holds(m, b)
    ensures Holds(m, AddNumber(b, x))
  {
    match m
    case Pick => PickMonotone(b, x);
    case Line => LineMonotone(b, x);
    case Lota => LotaMonotone(b, x);
  }

  /** Marking a number on every card never lowers a winner count. */
  lemma {:induction false} WinnersGrow(m: Milestone, bs: seq<Board>, x: int)
    requires AllWellFormed(bs)
    ensures Winners(m, bs) <= Winners(m, MarkAll(bs, x))
  {
    if bs != [] {
      var r := MarkAll(bs, x);
      assert r[1..] == MarkAll(bs[1..], x);
      WinnersGrow(m, bs[1..], x);
      if Holds(m, bs[0]) {
        HoldsMonotone(m, bs[0], x);
      }
    }
  }

  /** Winner counts never fall from one turn to the next, so a milestone that
      some card has reached stays reached for the rest of the game. */
  lemma WinnersNondecreasing(m: Milestone, bs: seq<Board>, draw: seq<int>, t: nat)
    requires AllWellFormed(bs) && t < |draw|
    ensures WinnersAt(m, bs, draw, t) <= WinnersAt(m, bs, draw, t + 1)
  {
    WinnersGrow(m, BoardsAfter(bs, draw, t), draw[t]);
  }
}
