/** The minesweeper engine (apps/apps.c): a new board, revealing a cell, and flagging one. */
module Minesweeper {
  import opened Arithmetic
  import opened FloodFill
  import opened MinePlacement

  const MINE := 9

  function Marked(s: seq<bool>): set<nat> { set n: nat | n < |s| && s[n] }

  ghost function Mines(field: seq<int>): set<nat> { set n: nat | n < |field| && field[n] == MINE }

  ghost function SafeCells(field: seq<int>): set<nat> { set n: nat | n < |field| && field[n] != MINE }

  ghost function Hidden(revealed: seq<bool>, flagged: seq<bool>): set<nat>
    requires |revealed| == |flagged|
  {
    set n: nat | n < |revealed| && !revealed[n] && !flagged[n]
  }

  predicate OnBoard(w: int, h: int, x: int, y: int) { 0 <= x < w && 0 <= y < h }

  lemma CellIndex(w: nat, h: nat, x: int, y: int)
    requires OnBoard(w, h, x, y)
    ensures 0 <= y * w + x < w * h && (y * w + x) / w == y && (y * w + x) % w == x
  {
    DivModUnique(y * w + x, w, y, x);
    RowFits(w, h, y);
  }

  lemma {:induction false} RowFits(w: nat, h: nat, y: nat)
    requires y < h
    ensures y * w + w <= w * h
    decreases h
  {
    if y < h - 1 { RowFits(w, h - 1, y); }
    assert w * h == w * (h - 1) + w && (y + 1) * w == y * w + w;
  }

  /** The mines on the cells around cell `n` */
  ghost function MinesNear(w: nat, field: seq<int>, n: nat): set<nat>
    requires w > 0
  {
    set m: nat | m < |field| && m != n && Near(w, n, m) && field[m] == MINE
  }

  /** Cells without a mine that do not hold the number of mines around them */
  ghost function Miscounted(w: nat, field: seq<int>): set<nat>
    requires w > 0
  {
    set n: nat | n < |field| && field[n] != MINE && field[n] != |MinesNear(w, field, n)|
  }

  ghost predicate Counted(w: nat, field: seq<int>)
    requires w > 0
  {
    Miscounted(w, field) == {}
  }

  lemma ZeroTouchesNone(w: nat, field: seq<int>, a: nat, b: nat)
    requires w > 0 && Counted(w, field) && a < |field| && b < |field| && field[a] == 0 && Near(w, a, b)
    ensures field[b] != MINE
  {
    assert a !in Miscounted(w, field);
    assert b !in MinesNear(w, field, a);
  }

  /** A cell whose count is zero touches no mine, so a flood never opens one. */
  lemma FloodIsSafe(w: nat, field: seq<int>, hidden: set<nat>, s: nat)
    requires w > 0 && Counted(w, field)
    requires s in hidden && s < |field| && field[s] != MINE && forall n | n in hidden :: n < |field|
    ensures Flood(w, field, hidden, s) <= SafeCells(field)
  {
    forall a, b | a in SafeCells(field) && b in hidden && Spreads(w, field, a, b) ensures b in SafeCells(field) {
      ZeroTouchesNone(w, field, a, b);
    }
    FloodIsLeast(w, field, hidden, s, SafeCells(field));
  }

  lemma BoardPosition(w: nat, h: nat, n: nat)
    requires w > 0 && n < w * h
    ensures OnBoard(w, h, n % w, n / w) && n / w * w + n % w == n
  {
    assert n == w * (n / w) + n % w;
    var row := n / w;
    assert row >= h ==> w * row >= w * h;
  }

  predicate MineAt(w: nat, h: nat, field: seq<int>, x: int, y: int)
    requires |field| == w * h
  {
    OnBoard(w, h, x, y) && (CellIndex(w, h, x, y); field[y * w + x] == MINE)
  }

  /** Step `k` of the three-by-three scan around (`x`, `y`) meets a mine; step 4 is the cell itself. */
  predicate MineAtStep(w: nat, h: nat, field: seq<int>, x: int, y: int, k: nat)
    requires |field| == w * h
  {
    MineAt(w, h, field, x + k % 3 - 1, y + k / 3 - 1)
  }

  /** The steps before `n` that meet a mine. */
  ghost function SeenSteps(w: nat, h: nat, field: seq<int>, x: int, y: int, n: nat): set<nat>
    requires |field| == w * h
  {
    set k: nat | k < n && MineAtStep(w, h, field, x, y, k)
  }

  /** The steps to the cells around a cell, and to the cell itself, that meet a mine. */
  ghost function MineSteps(w: nat, h: nat, field: seq<int>, x: int, y: int): set<nat>
    requires |field| == w * h
  {
    SeenSteps(w, h, field, x, y, 9)
  }

  /** A game under way or over, as a value. */
  datatype Board = Board(w: nat, h: nat, field: seq<int>, revealed: seq<bool>, flagged: seq<bool>, over: bool,
                         won: bool) {

    ghost predicate Shaped() {
      w > 0 && |field| == |revealed| == |flagged| == w * h && Counted(w, field)
    }

    /** A live game has revealed no mine and not yet every safe cell; a won one has revealed exactly the safe cells. */
    ghost predicate Consistent() {
      && Shaped()
      && (!over ==> !won && Marked(revealed) <= SafeCells(field) &&
                    (SafeCells(field) != {} ==> Marked(revealed) != SafeCells(field)))
      && (won ==> over && Marked(revealed) == SafeCells(field))
    }
  }

  /** What revealing a cell does. */
  ghost predicate Reveals(b: Board, b': Board, x: int, y: int)
    requires b.Shaped()
  {
    var n := y * b.w + x;
    && b' == b.(revealed := b'.revealed, over := b'.over, won := b'.won) && |b'.revealed| == |b.revealed|
    && if !OnBoard(b.w, b.h, x, y) || b.over || (CellIndex(b.w, b.h, x, y); n !in Hidden(b.revealed, b.flagged)) then
         b' == b
       else if b.field[n] == MINE then
         Marked(b'.revealed) == Marked(b.revealed) + {n} && b'.over && !b'.won
       else
         && Marked(b'.revealed) == Marked(b.revealed) + Flood(b.w, b.field, Hidden(b.revealed, b.flagged), n)
         && b'.over == b'.won && (b'.won <==> SafeCells(b.field) <= Marked(b'.revealed))
  }

  /** Revealing keeps a board consistent, whatever its outcome. */
  lemma RevealKeepsConsistent(b: Board, b': Board, x: int, y: int)
    requires b.Consistent() && Reveals(b, b', x, y)
    ensures b'.Consistent()
  {
    var n := y * b.w + x;
    if OnBoard(b.w, b.h, x, y) && !b.over {
      CellIndex(b.w, b.h, x, y);
      var hidden := Hidden(b.revealed, b.flagged);
      if n in hidden && b.field[n] != MINE {
        FloodIsSafe(b.w, b.field, hidden, n);
        assert n in SafeCells(b.field);
      }
    }
  }

  lemma MarkedIs(a: seq<bool>, b: seq<bool>, more: set<nat>, n: nat)
    requires |a| == |b| && n < |a| && Marked(b) == Marked(a) + more
    ensures b[n] <==> a[n] || n in more
  {
    assert b[n] <==> n in Marked(b);
    assert a[n] <==> n in Marked(a);
  }

  /** What that means cell by cell: a flagged cell is never opened, and nothing is hidden again. */
  lemma FlagsProtect(b: Board, b': Board, x: int, y: int, m: nat)
    requires b.Consistent() && Reveals(b, b', x, y) && m < |b.field|
    ensures b.flagged[m] || b.revealed[m] ==> b'.revealed[m] == b.revealed[m]
  {
    var n, hidden := y * b.w + x, Hidden(b.revealed, b.flagged);
    if OnBoard(b.w, b.h, x, y) && !b.over {
      CellIndex(b.w, b.h, x, y);
      if n in hidden {
        var cells := if b.field[n] == MINE then {n} else Flood(b.w, b.field, hidden, n);
        assert cells <= hidden;
        MarkedIs(b.revealed, b'.revealed, cells, m);
      }
    }
  }

  /** The cell itself is opened if it is hidden and not flagged, and so is everything around it that is not flagged if
  its count is 0; if it is not, nothing else is. */
  lemma RevealOpens(b: Board, b': Board, x: int, y: int, m: nat)
    requires b.Consistent() && Reveals(b, b', x, y) && m < |b.field| && 0 <= x < b.w && 0 <= y < b.h && !b.over
    requires var n := y * b.w + x; 0 <= n < |b.field| && !b.revealed[n] && !b.flagged[n]
    ensures var n := y * b.w + x;
            && (m == n ==> b'.revealed[m])
            && (b.field[n] == 0 && Near(b.w, n, m) && !b.flagged[m] ==> b'.revealed[m])
            && (b.field[n] != 0 && m != n ==> b'.revealed[m] == b.revealed[m])
  {
    var n, hidden := y * b.w + x, Hidden(b.revealed, b.flagged);
    CellIndex(b.w, b.h, x, y);
    var cells := if b.field[n] == MINE then {n} else Flood(b.w, b.field, hidden, n);
    MarkedIs(b.revealed, b'.revealed, cells, m);
    FloodStarts(b.w, b.field, hidden, n);
    FloodIsClosed(b.w, b.field, hidden, n);
    assert Near(b.w, n, m) && b.field[n] == 0 ==> Spreads(b.w, b.field, n, m);
    if b.field[n] != 0 { FloodIsLeast(b.w, b.field, hidden, n, {n}); }
  }

  /** The board `b` is a stage of revealing the zero cell `n` of `b0`; `open` are the cells opened so far. */
  ghost predicate Searching(b0: Board, b: Board, n: nat, open: set<nat>) {
    && b0.Consistent() && !b0.over && b.Consistent()
    && n in Hidden(b0.revealed, b0.flagged) && b0.field[n] == 0
    && b == b0.(revealed := b.revealed, over := b.over, won := b.won)
    && Marked(b.revealed) == Marked(b0.revealed) + open
    && PartialFlood(b0.w, b0.field, Hidden(b0.revealed, b0.flagged), n, open)
    && b.over == b.won
  }

  /** Cells of the board that a stage has not opened are still hidden. */
  lemma StillHidden(b0: Board, b: Board, n: nat, open: set<nat>)
    requires Searching(b0, b, n, open)
    ensures Hidden(b.revealed, b.flagged) == Hidden(b0.revealed, b0.flagged) - open
  {
    assert forall m: nat | m < |b.revealed| :: b.revealed[m] <==> m in Marked(b.revealed);
    assert forall m: nat | m < |b0.revealed| :: b0.revealed[m] <==> m in Marked(b0.revealed);
  }

  /** Trying one cell around `n` opens it if it was hidden; if the game is already won, it has been opened before. */
  lemma TryNeighbour(b0: Board, b: Board, b': Board, n: nat, open: set<nat>, x: int, y: int) returns (open': set<nat>)
    requires Searching(b0, b, n, open) && Reveals(b, b', x, y)
    requires -1 <= x - n % b0.w <= 1 && -1 <= y - n / b0.w <= 1
    ensures Searching(b0, b', n, open') && open <= open'
    ensures OnBoard(b0.w, b0.h, x, y) && y * b0.w + x in Hidden(b0.revealed, b0.flagged) ==> y * b0.w + x in open'
  {
    var hidden := Hidden(b0.revealed, b0.flagged);
    var m := y * b0.w + x;
    RevealKeepsConsistent(b, b', x, y);
    StillHidden(b0, b, n, open);
    open' := open;
    if OnBoard(b0.w, b0.h, x, y) {
      CellIndex(b0.w, b0.h, x, y);
      if m in hidden {
        assert Spreads(b0.w, b0.field, n, m);
        FloodIsClosed(b0.w, b0.field, hidden, n);
        FloodIsSafe(b0.w, b0.field, hidden, n);
        if !b.over && m !in open {
          PartialFloodGrows(b0.w, b0.field, hidden, n, open, m);
          open' := open + Flood(b0.w, b0.field, hidden - open, m);
        }
      }
    }
  }

  /** The board right after a hidden cell is marked and the win test is done. */
  ghost function Uncovered(b: Board, n: nat): Board
    requires b.Shaped() && n < |b.revealed|
  {
    var revealed := b.revealed[n := true];
    var won := b.field[n] != MINE && Marked(revealed) == SafeCells(b.field);
    b.(revealed := revealed, over := won || b.field[n] == MINE, won := won)
  }

  ghost predicate Uncoverable(b: Board, x: int, y: int) {
    && b.Consistent() && !b.over && OnBoard(b.w, b.h, x, y) && 0 <= y * b.w + x < |b.revealed|
    && y * b.w + x in Hidden(b.revealed, b.flagged)
  }

  /** The win test of the source compares two counts; it holds exactly when every safe cell has been revealed. */
  lemma WinTest(b: Board, x: int, y: int)
    requires Uncoverable(b, x, y) && b.field[y * b.w + x] != MINE
    ensures Uncovered(b, y * b.w + x).won <==> |Marked(b.revealed)| + 1 == b.w * b.h - |Mines(b.field)|
  {
    WinCounts(b.field, b.revealed, y * b.w + x);
  }

  lemma WinCounts(field: seq<int>, revealed: seq<bool>, n: nat)
    requires |revealed| == |field| && n < |field| && field[n] != MINE && !revealed[n]
    requires Marked(revealed) <= SafeCells(field)
    ensures Marked(revealed[n := true]) == SafeCells(field) <==> |Marked(revealed)| + 1 == |field| - |Mines(field)|
  {
    MarkOne(revealed, n);
    assert n in SafeCells(field);
    CountsAgree(field, Marked(revealed[n := true]));
  }

  /** A mine or a number ends the call; a zero starts the search. */
  lemma Uncover(b: Board, x: int, y: int)
    requires Uncoverable(b, x, y)
    ensures var n, b' := y * b.w + x, Uncovered(b, y * b.w + x);
            && b'.Consistent() && (b.field[n] != 0 ==> Reveals(b, b', x, y))
            && (b.field[n] == 0 ==> Searching(b, b', n, {n}))
  {
    var n := y * b.w + x;
    var b' := Uncovered(b, n);
    var hidden := Hidden(b.revealed, b.flagged);
    CellIndex(b.w, b.h, x, y);
    MarkOne(b.revealed, n);
    assert Marked(b'.revealed) == Marked(b.revealed) + {n};
    if b.field[n] != MINE {
      assert n in SafeCells(b.field);
      if b.field[n] != 0 { FloodOfNumber(b.w, b.field, hidden, n); } else { FloodStarts(b.w, b.field, hidden, n); }
    }
  }

  lemma UncoverKeepsConsistent(b: Board, x: int, y: int)
    requires Uncoverable(b, x, y)
    ensures Uncovered(b, y * b.w + x).Consistent()
  {
    Uncover(b, x, y);
  }

  /** The cells around `n` that come before step (`dx`, `dy`) in the scan have been opened, if they were hidden. */
  ghost predicate Tried(b0: Board, n: nat, open: set<nat>, dy: int, dx: int)
    requires b0.Shaped()
  {
    forall m | m in Hidden(b0.revealed, b0.flagged) && Near(b0.w, n, m) ::
      (m / b0.w - n / b0.w < dy || (m / b0.w - n / b0.w == dy && m % b0.w - n % b0.w < dx)) ==> m in open
  }

  lemma TriedNext(b0: Board, n: nat, open: set<nat>, wider: set<nat>, dy: int, dx: int)
    requires b0.Shaped() && Tried(b0, n, open, dy, dx) && open <= wider
    requires var x, y := n % b0.w + dx, n / b0.w + dy;
             OnBoard(b0.w, b0.h, x, y) && y * b0.w + x in Hidden(b0.revealed, b0.flagged) ==> y * b0.w + x in wider
    ensures Tried(b0, n, wider, dy, dx + 1)
  {
    forall m | m in Hidden(b0.revealed, b0.flagged) && m / b0.w - n / b0.w == dy && m % b0.w - n % b0.w == dx
      ensures m in wider
    {
      BoardPosition(b0.w, b0.h, m);
    }
  }

  /** The search around cell (`x`, `y`) of `b0` is about to try step (`dx`, `dy`). */
  ghost predicate SearchAt(b0: Board, b: Board, x: int, y: int, n: nat, open: set<nat>, dy: int, dx: int) {
    Searching(b0, b, n, open) && n == y * b0.w + x && OnBoard(b0.w, b0.h, x, y) && Tried(b0, n, open, dy, dx)
  }

  /** The search that is left to do is over fewer hidden cells. */
  lemma SearchLeft(b0: Board, b: Board, x: int, y: int, n: nat, open: set<nat>, dy: int, dx: int)
    requires SearchAt(b0, b, x, y, n, open, dy, dx)
    ensures Hidden(b.revealed, b.flagged) < Hidden(b0.revealed, b0.flagged)
  {
    StillHidden(b0, b, n, open);
  }

  lemma SearchNext(b0: Board, b: Board, b': Board, x: int, y: int, n: nat, open: set<nat>, dy: int, dx: int,
                   nx: int, ny: int)
    returns (open': set<nat>)
    requires SearchAt(b0, b, x, y, n, open, dy, dx) && -1 <= dy <= 1 && -1 <= dx <= 1
    requires nx == x + dx && ny == y + dy && Reveals(b, b', nx, ny)
    ensures SearchAt(b0, b', x, y, n, open', dy, dx + 1)
  {
    CellIndex(b0.w, b0.h, x, y);
    open' := TryNeighbour(b0, b, b', n, open, nx, ny);
    TriedNext(b0, n, open, open', dy, dx);
  }

  lemma RowDone(b0: Board, b: Board, x: int, y: int, n: nat, open: set<nat>, dy: int)
    requires SearchAt(b0, b, x, y, n, open, dy, 2)
    ensures SearchAt(b0, b, x, y, n, open, dy + 1, -1)
  {
  }

  /** All nine cells have been tried: the search has opened the flood, and the outcome is as promised. */
  lemma SearchDone(b0: Board, b: Board, x: int, y: int, n: nat, open: set<nat>)
    requires SearchAt(b0, b, x, y, n, open, 2, -1)
    ensures Reveals(b0, b, x, y)
  {
    CellIndex(b0.w, b0.h, x, y);
    PartialFloodComplete(b0.w, b0.field, Hidden(b0.revealed, b0.flagged), n, open);
    assert n in SafeCells(b0.field);
  }

  lemma CountsAgree(field: seq<int>, marked: set<nat>)
    requires marked <= SafeCells(field)
    ensures |marked| == |field| - |Mines(field)| <==> marked == SafeCells(field)
  {
    var all := Mines(field) + SafeCells(field);
    assert all == Below(|field|);
    assert SafeCells(field) == marked + (SafeCells(field) - marked);
  }

  lemma MarkOne(s: seq<bool>, n: nat)
    requires n < |s|
    ensures Marked(s[n := true]) == Marked(s) + {n} && Marked(s[n := false]) == Marked(s) - {n}
    ensures !s[n] ==> |Marked(s[n := true])| == |Marked(s)| + 1
    ensures s[n] ==> |Marked(s[n := false])| == |Marked(s)| - 1
  {
    assert Marked(s[n := true]) == Marked(s) + {n};
    assert Marked(s[n := false]) == Marked(s) - {n};
  }

  class Game {
    var width: nat
    var height: nat
    var mineCount: nat
    var revealedCount: nat
    var gameOver: bool
    var gameWon: bool
    var field: array<int>
    var revealed: array<bool>
    var flagged: array<bool>
    var flagsRemaining: int

    ghost function Now(): Board
      reads this, field, revealed, flagged
    {
      Board(width, height, field[..], revealed[..], flagged[..], gameOver, gameWon)
    }

    ghost predicate Valid()
      reads this, field, revealed, flagged
    {
      && revealed != flagged
      && Now().Consistent()
      && mineCount == |Mines(field[..])|
      && revealedCount == |Marked(revealed[..])|
      && flagsRemaining == mineCount - |Marked(flagged[..])|
    }

    /** `minesweeper_reveal_cell`: a depth-first search that stops early once the game is won. */
    method RevealCell(x: int, y: int)
      requires Valid()
      modifies this`revealedCount, this`gameOver, this`gameWon, revealed
      ensures Valid() && Reveals(old(Now()), Now(), x, y)
      decreases Hidden(revealed[..], flagged[..]), 3
    {
      if 0 <= x < width && 0 <= y < height && !gameOver {
        var index := y * width + x;
        CellIndex(width, height, x, y);
        if !revealed[index] && !flagged[index] { OpenCell(x, y, index); }
      }
    }

    /** The call on a hidden cell of a live game. */
    method OpenCell(x: int, y: int, index: nat)
      requires Valid() && index == y * width + x && Uncoverable(Now(), x, y)
      modifies this`revealedCount, this`gameOver, this`gameWon, revealed
      ensures Valid() && Reveals(old(Now()), Now(), x, y)
      decreases Hidden(revealed[..], flagged[..]), 2
    {
      ghost var b0 := Now();
      UncoverCell(x, y, index);
      Uncover(b0, x, y);
      if field[index] == 0 { RevealAround(b0, index, x, y); }
    }

    /** The part of the call before its loops: mark the cell, count it, and test for a mine or a win. */
    method UncoverCell(x: int, y: int, index: nat)
      requires Valid() && index == y * width + x && Uncoverable(Now(), x, y)
      modifies this`revealedCount, this`gameOver, this`gameWon, revealed
      ensures Valid() && Now() == Uncovered(old(Now()), index)
    {
      ghost var b0 := Now();
      UncoverKeepsConsistent(b0, x, y);
      MarkRevealed(index);
      if field[index] == MINE {
        gameOver := true;
      } else {
        WinTest(b0, x, y);
        if revealedCount == width * height - mineCount {
          gameWon := true;
          gameOver := true;
        }
      }
      assert Now() == Uncovered(b0, index);
    }

    method MarkRevealed(index: nat)
      requires index < revealed.Length && !revealed[index] && revealedCount == |Marked(revealed[..])|
      modifies this`revealedCount, revealed
      ensures revealed[..] == old(revealed[..])[index := true]
      ensures revealedCount == old(revealedCount) + 1 == |Marked(revealed[..])|
    {
      MarkOne(revealed[..], index);
      ghost var before := revealed[..];
      revealed[index] := true;
      assert revealed[..] == before[index := true];
      revealedCount := revealedCount + 1;
    }

    method RevealNeighbour(ghost b0: Board, x: int, y: int, ghost n: nat, ghost open: set<nat>, dy: int, dx: int)
      returns (ghost open': set<nat>)
      requires Valid() && SearchAt(b0, Now(), x, y, n, open, dy, dx) && -1 <= dy <= 1 && -1 <= dx <= 1
      modifies this`revealedCount, this`gameOver, this`gameWon, revealed
      ensures Valid() && SearchAt(b0, Now(), x, y, n, open', dy, dx + 1)
      decreases Hidden(b0.revealed, b0.flagged), 0
    {
      ghost var b := Now();
      SearchLeft(b0, b, x, y, n, open, dy, dx);
      var nx, ny := x + dx, y + dy;
      RevealCell(nx, ny);
      open' := SearchNext(b0, b, Now(), x, y, n, open, dy, dx, nx, ny);
    }

    /** The two loops of the search, over the cell just revealed and the cells around it. */
    method RevealAround(ghost b0: Board, ghost n: nat, x: int, y: int)
      requires Valid() && SearchAt(b0, Now(), x, y, n, {n}, -1, -1)
      modifies this`revealedCount, this`gameOver, this`gameWon, revealed
      ensures Valid() && Reveals(b0, Now(), x, y)
      decreases Hidden(b0.revealed, b0.flagged), 1
    {
      ghost var open := {n};
      var dy := -1;
      while dy <= 1
        invariant -1 <= dy <= 2 && Valid() && SearchAt(b0, Now(), x, y, n, open, dy, -1)
      {
        var dx := -1;
        while dx <= 1
          invariant -1 <= dx <= 2 && Valid() && SearchAt(b0, Now(), x, y, n, open, dy, dx)
        {
          open := RevealNeighbour(b0, x, y, n, open, dy, dx);
          dx := dx + 1;
        }
        RowDone(b0, Now(), x, y, n, open, dy);
        dy := dy + 1;
      }
      SearchDone(b0, Now(), x, y, n, open);
    }

    /** `minesweeper_flag_cell` */
    method FlagCell(x: int, y: int)
      requires Valid()
      modifies this`flagsRemaining, flagged
      ensures Valid()
      ensures var b, n := old(Now()), y * width + x;
              if 0 <= x < width && 0 <= y < height && !gameOver && (CellIndex(width, height, x, y); !b.revealed[n])
              then Now() == b.(flagged := b.flagged[n := !b.flagged[n]])
              else Now() == b
    {
      if x >= 0 && x < width && y >= 0 && y < height && !gameOver {
        var index := y * width + x;
        CellIndex(width, height, x, y);
        if !revealed[index] { ToggleFlag(index); }
      }
    }

    method ToggleFlag(index: nat)
      requires Valid() && index < flagged.Length && !revealed[index]
      modifies this`flagsRemaining, flagged
      ensures Valid() && Now() == old(Now()).(flagged := old(flagged[..])[index := !old(flagged[index])])
    {
      ghost var before := flagged[..];
      MarkOne(before, index);
      flagged[index] := !flagged[index];
      assert flagged[..] == before[index := !before[index]];
      flagsRemaining := flagsRemaining + if flagged[index] then -1 else 1;
    }

    /** `minesweeper_new_game`. The condition is the exact one under which its placement loop ends. */
    method NewGame(w: nat, h: nat, mines: nat)
      requires w > 0 && mines <= w * h && Placeable(w, mines)
      requires revealed != flagged && field.Length == revealed.Length == flagged.Length == w * h
      modifies this`width, this`height, this`mineCount, this`revealedCount, this`gameOver, this`gameWon,
               this`flagsRemaining, field, revealed, flagged
      ensures Valid() && !gameOver && !gameWon && mineCount == flagsRemaining == mines && width == w && height == h
      ensures Mines(field[..]) == Cells(w, mines) && |Mines(field[..])| == mines
      ensures forall n: nat | n < field.Length && field[n] != 9 ::
                field[n] == |set m: nat | m < field.Length && m != n && Near(w, n, m) && field[..][m] == 9|
      ensures Marked(revealed[..]) == {} && Marked(flagged[..]) == {}
    {
      width, height, mineCount, revealedCount := w, h, mines, 0;
      gameOver, gameWon, flagsRemaining := false, false, mines;
      FillBoard(w, h, mines);
    }

    /** The part of the call that fills the three arrays. */
    method FillBoard(w: nat, h: nat, mines: nat)
      requires w > 0 && mines <= w * h && Placeable(w, mines)
      requires revealed != flagged && field.Length == revealed.Length == flagged.Length == w * h
      modifies field, revealed, flagged
      ensures Counted(w, field[..])
      ensures Mines(field[..]) == Cells(w, mines) && |Mines(field[..])| == mines
      ensures forall n: nat | n < field.Length && field[n] != 9 ::
                field[n] == |set m: nat | m < field.Length && m != n && Near(w, n, m) && field[..][m] == 9|
      ensures Marked(revealed[..]) == {} && Marked(flagged[..]) == {}
    {
      ClearBoard();
      PlaceMines(w, h, mines);
      CountCells(w, mines, mines);
      CountAll(w, h);
      TrueCounts(w, field[..]);
      NothingMarked(revealed[..]);
      NothingMarked(flagged[..]);
    }

    /** The three `memset` calls. */
    method ClearBoard()
      requires revealed != flagged && field.Length == revealed.Length == flagged.Length
      modifies field, revealed, flagged
      ensures forall i :: 0 <= i < field.Length ==> field[i] == 0 && !revealed[i] && !flagged[i]
    {
      var i := 0;
      while i < field.Length
        invariant i <= field.Length
        invariant forall k :: 0 <= k < i ==> field[k] == 0 && !revealed[k] && !flagged[k]
      {
        field[i], revealed[i], flagged[i] := 0, false, false;
        i := i + 1;
      }
    }

    /** The placement loop. */
    method PlaceMines(w: nat, h: nat, mines: nat)
      requires w > 0 && mines <= w * h && Placeable(w, mines) && field.Length == w * h
      requires forall i :: 0 <= i < field.Length ==> field[i] == 0
      modifies field
      ensures Mines(field[..]) == Cells(w, mines)
    {
      var placed := 0;
      assert Mines(field[..]) == {};
      while placed < mines
        invariant placed <= mines && Mines(field[..]) == Cells(w, placed)
      {
        CellOnBoard(w, h, placed);
        NextCellIsNew(w, mines, placed);
        var x := (placed * 3 + w) % w;
        var y := placed / w;
        var index := y * w + x;
        assert index == Cell(w, placed);
        assert index !in Mines(field[..]);
        if field[index] != MINE {
          ghost var before := field[..];
          field[index] := MINE;
          MineOne(before, index);
          assert field[..] == before[index := MINE];
          placed := placed + 1;
        }
      }
    }

    /** The counting pass, in place: the counts it writes are never taken for mines. */
    method CountAll(w: nat, h: nat)
      requires w > 0 && field.Length == w * h
      modifies field
      ensures Counted(w, field[..]) && Mines(field[..]) == old(Mines(field[..]))
    {
      ghost var f0, done: nat := field[..], 0;
      var y := 0;
      while y < h
        invariant y <= h && done == y * w && CountedUpTo(w, f0, field[..], done)
      {
        CountRow(w, h, y, f0, done);
        RowEnd(w, y);
        y := y + 1;
        done := done + w;
      }
      assert done == |field[..]|;
      AllCounted(w, f0, field[..]);
    }

    method CountRow(w: nat, h: nat, y: nat, ghost f0: seq<int>, ghost start: nat)
      requires w > 0 && field.Length == w * h == |f0| && y < h && start == y * w
      requires CountedUpTo(w, f0, field[..], start)
      modifies field
      ensures CountedUpTo(w, f0, field[..], start + w)
    {
      RowFits(w, h, y);
      var x := 0;
      while x < w
        invariant x <= w && CountedUpTo(w, f0, field[..], start + x)
      {
        CellIndex(w, h, x, y);
        var index := y * w + x;
        ghost var f := field[..];
        if field[index] != MINE {
          var count := CountMines(w, h, x, y);
          field[index] := count;
          assert field[..] == f[index := count];
          WriteCount(w, h, f0, f, index, count);
        }
        x := x + 1;
      }
    }

    /** The two inner loops of the counting pass. */
    method CountMines(w: nat, h: nat, x: int, y: int) returns (count: int)
      requires field.Length == w * h && OnBoard(w, h, x, y)
      requires 0 <= y * w + x < field.Length && field[y * w + x] != MINE
      ensures count == |MinesNear(w, field[..], y * w + x)|
    {
      count := 0;
      ghost var f, k := field[..], 0;
      assert SeenSteps(w, h, f, x, y, 0) == {};
      var dy := -1;
      while dy <= 1
        invariant -1 <= dy <= 2 && k == 3 * (dy + 1) && count == |SeenSteps(w, h, f, x, y, k)|
      {
        var dx := -1;
        while dx <= 1
          invariant -1 <= dx <= 2 && k == 3 * (dy + 1) + dx + 1 && count == |SeenSteps(w, h, f, x, y, k)|
        {
          var nx := x + dx;
          var ny := y + dy;
          SeeStep(w, h, f, x, y, k, dx, dy);
          k := k + 1;
          if nx >= 0 && nx < w && ny >= 0 && ny < h {
            CellIndex(w, h, nx, ny);
            if field[ny * w + nx] == MINE {
              count := count + 1;
            }
          }
          dx := dx + 1;
        }
        dy := dy + 1;
      }
      CellIndex(w, h, x, y);
      ScanIsRight(w, h, f, y * w + x);
    }
  }

  /** Counted boards, in numbers */
  lemma TrueCounts(w: nat, field: seq<int>)
    requires w > 0 && Counted(w, field)
    ensures forall n: nat | n < |field| && field[n] != 9 ::
              field[n] == |set m: nat | m < |field| && m != n && Near(w, n, m) && field[m] == 9|
  {
    forall n: nat | n < |field| && field[n] != 9
      ensures field[n] == |set m: nat | m < |field| && m != n && Near(w, n, m) && field[m] == 9|
    {
      assert n !in Miscounted(w, field);
      assert MinesNear(w, field, n) == set m: nat | m < |field| && m != n && Near(w, n, m) && field[m] == 9;
    }
  }

  lemma RowEnd(w: nat, y: nat)
    ensures (y + 1) * w == y * w + w
  {
  }

  lemma NothingMarked(s: seq<bool>)
    requires forall i :: 0 <= i < |s| ==> !s[i]
    ensures Marked(s) == {}
  {
  }

  lemma MineOne(field: seq<int>, n: nat)
    requires n < |field|
    ensures Mines(field[n := MINE]) == Mines(field) + {n}
  {
  }

  lemma SeeStep(w: nat, h: nat, f: seq<int>, x: int, y: int, n: nat, dx: int, dy: int)
    requires |f| == w * h && n == 3 * (dy + 1) + dx + 1 && -1 <= dx <= 1
    ensures |SeenSteps(w, h, f, x, y, n + 1)| ==
            |SeenSteps(w, h, f, x, y, n)| + if MineAt(w, h, f, x + dx, y + dy) then 1 else 0
  {
    assert n % 3 == dx + 1 && n / 3 == dy + 1;
    MoreSteps(w, h, f, x, y, n);
  }

  /** Cell that step `k` of the scan looks at, if it lies on the board */
  function StepCell(w: nat, h: nat, x: int, y: int, k: nat): nat {
    if OnBoard(w, h, x + k % 3 - 1, y + k / 3 - 1)
    then CellIndex(w, h, x + k % 3 - 1, y + k / 3 - 1); (y + k / 3 - 1) * w + x + k % 3 - 1
    else 0
  }

  ghost function CellsSeen(w: nat, h: nat, f: seq<int>, x: int, y: int, n: nat): set<nat>
    requires |f| == w * h
  {
    set k: nat | k < n && MineAtStep(w, h, f, x, y, k) :: StepCell(w, h, x, y, k)
  }

  /** Different steps look at different cells. */
  lemma StepsDiffer(w: nat, h: nat, x: int, y: int, k: nat, n: nat)
    requires k < n && OnBoard(w, h, x + k % 3 - 1, y + k / 3 - 1) && OnBoard(w, h, x + n % 3 - 1, y + n / 3 - 1)
    ensures StepCell(w, h, x, y, k) != StepCell(w, h, x, y, n)
  {
    CellIndex(w, h, x + k % 3 - 1, y + k / 3 - 1);
    CellIndex(w, h, x + n % 3 - 1, y + n / 3 - 1);
    assert k == 3 * (k / 3) + k % 3 && n == 3 * (n / 3) + n % 3;
  }

  lemma CellIsNew(w: nat, h: nat, f: seq<int>, x: int, y: int, k: nat)
    requires |f| == w * h && MineAtStep(w, h, f, x, y, k)
    ensures StepCell(w, h, x, y, k) !in CellsSeen(w, h, f, x, y, k)
  {
    forall j: nat | j < k && MineAtStep(w, h, f, x, y, j) ensures StepCell(w, h, x, y, j) != StepCell(w, h, x, y, k) {
      StepsDiffer(w, h, x, y, j, k);
    }
  }

  /** The next step that meets a mine adds its cell. */
  lemma MoreCells(w: nat, h: nat, f: seq<int>, x: int, y: int, k: nat)
    requires |f| == w * h
    ensures |CellsSeen(w, h, f, x, y, k + 1)| ==
            |CellsSeen(w, h, f, x, y, k)| + if MineAtStep(w, h, f, x, y, k) then 1 else 0
  {
    CellsSeenNext(w, h, f, x, y, k);
    if MineAtStep(w, h, f, x, y, k) { CellIsNew(w, h, f, x, y, k); }
  }

  lemma CellsSeenNext(w: nat, h: nat, f: seq<int>, x: int, y: int, k: nat)
    requires |f| == w * h
    ensures CellsSeen(w, h, f, x, y, k + 1) ==
            CellsSeen(w, h, f, x, y, k) + if MineAtStep(w, h, f, x, y, k) then {StepCell(w, h, x, y, k)} else {}
  {
  }

  lemma {:induction false} AsManyCells(w: nat, h: nat, f: seq<int>, x: int, y: int, n: nat)
    requires |f| == w * h
    ensures |CellsSeen(w, h, f, x, y, n)| == |SeenSteps(w, h, f, x, y, n)|
  {
    if n == 0 {
      assert CellsSeen(w, h, f, x, y, 0) == {} && SeenSteps(w, h, f, x, y, 0) == {};
    } else {
      AsManyCells(w, h, f, x, y, n - 1);
      MoreCells(w, h, f, x, y, n - 1);
      MoreSteps(w, h, f, x, y, n - 1);
    }
  }

  lemma MoreSteps(w: nat, h: nat, f: seq<int>, x: int, y: int, k: nat)
    requires |f| == w * h
    ensures |SeenSteps(w, h, f, x, y, k + 1)| ==
            |SeenSteps(w, h, f, x, y, k)| + if MineAtStep(w, h, f, x, y, k) then 1 else 0
  {
    assert SeenSteps(w, h, f, x, y, k + 1)
        == SeenSteps(w, h, f, x, y, k) + if MineAtStep(w, h, f, x, y, k) then {k} else {};
  }

  /** The nine steps look at the cell and the cells around it, and at no other cell of the board. */
  lemma StepTo(w: nat, h: nat, f: seq<int>, n: nat, m: nat)
    requires w > 0 && |f| == w * h && n < |f| && m < |f| && Near(w, n, m) && f[m] == MINE
    ensures m in CellsSeen(w, h, f, n % w, n / w, 9)
  {
    var i, j := m % w - n % w + 1, m / w - n / w + 1;
    var k := 3 * j + i;
    assert k % 3 == i && k / 3 == j;
    BoardPosition(w, h, m);
    assert MineAtStep(w, h, f, n % w, n / w, k) && StepCell(w, h, n % w, n / w, k) == m;
  }

  lemma StepFrom(w: nat, h: nat, f: seq<int>, n: nat, k: nat)
    requires w > 0 && |f| == w * h && n < |f| && f[n] != MINE && k < 9 && MineAtStep(w, h, f, n % w, n / w, k)
    ensures StepCell(w, h, n % w, n / w, k) in MinesNear(w, f, n)
  {
    CellIndex(w, h, n % w + k % 3 - 1, n / w + k / 3 - 1);
  }

  /** So the scan counts exactly the mines around a cell that holds none. */
  lemma ScanIsRight(w: nat, h: nat, f: seq<int>, n: nat)
    requires w > 0 && |f| == w * h && n < |f| && f[n] != MINE
    ensures |MineSteps(w, h, f, n % w, n / w)| == |MinesNear(w, f, n)|
  {
    var cells := CellsSeen(w, h, f, n % w, n / w, 9);
    AsManyCells(w, h, f, n % w, n / w, 9);
    forall m | m in MinesNear(w, f, n) ensures m in cells { StepTo(w, h, f, n, m); }
    forall m | m in cells ensures m in MinesNear(w, f, n) {
      var k: nat :| k < 9 && MineAtStep(w, h, f, n % w, n / w, k) && StepCell(w, h, n % w, n / w, k) == m;
      StepFrom(w, h, f, n, k);
    }
    assert cells == MinesNear(w, f, n);
  }

  /** A cell that is no mine has at most eight mines around it, so its count is not taken for a mine. */
  lemma AtMostEight(w: nat, h: nat, f: seq<int>, n: nat)
    requires w > 0 && |f| == w * h && n < |f| && f[n] != MINE
    ensures |MinesNear(w, f, n)| <= 8
  {
    BoardPosition(w, h, n);
    ScanIsRight(w, h, f, n);
    FourIsFree(w, h, f, n % w, n / w);
  }

  lemma FourIsFree(w: nat, h: nat, f: seq<int>, x: int, y: int)
    requires |f| == w * h && !MineAt(w, h, f, x, y)
    ensures |MineSteps(w, h, f, x, y)| <= 8
  {
    var steps, others: set<nat> := MineSteps(w, h, f, x, y), {0, 1, 2, 3, 5, 6, 7, 8};
    assert !MineAtStep(w, h, f, x, y, 4);
    assert others == steps + (others - steps);
  }

  /** Counts have been written below cell `k`; the mines are those of `f0`. */
  ghost predicate CountedUpTo(w: nat, f0: seq<int>, f: seq<int>, k: nat)
    requires w > 0
  {
    && |f| == |f0| && (forall n | 0 <= n < |f| :: f[n] == MINE <==> f0[n] == MINE)
    && (forall n: nat | n < k && n < |f| && f[n] != MINE :: f[n] == |MinesNear(w, f0, n)|)
  }

  lemma SameMinesNear(w: nat, f0: seq<int>, f: seq<int>, n: nat)
    requires w > 0 && |f0| == |f| && forall m | 0 <= m < |f| :: f[m] == MINE <==> f0[m] == MINE
    ensures MinesNear(w, f, n) == MinesNear(w, f0, n)
  {
  }

  lemma WriteCount(w: nat, h: nat, f0: seq<int>, f: seq<int>, n: nat, count: int)
    requires w > 0 && |f0| == w * h && n < |f0|
    requires CountedUpTo(w, f0, f, n) && f[n] != MINE && count == |MinesNear(w, f, n)|
    ensures CountedUpTo(w, f0, f[n := count], n + 1)
  {
    SameMinesNear(w, f0, f, n);
    AtMostEight(w, h, f, n);
  }

  lemma AllCounted(w: nat, f0: seq<int>, f: seq<int>)
    requires w > 0 && CountedUpTo(w, f0, f, |f|)
    ensures Counted(w, f) && Mines(f) == Mines(f0)
  {
    forall n: nat ensures n !in Miscounted(w, f) { SameMinesNear(w, f0, f, n); }
  }
}
