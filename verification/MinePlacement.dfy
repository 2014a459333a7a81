/** Where `minesweeper_new_game` puts its mines, and when its placement loop ends (apps/apps.c:459-470). */
module MinePlacement {
  import opened Arithmetic

  /** Cell that the loop tries when `placed` mines have been placed. */
  function Cell(w: nat, placed: nat): nat
    requires w > 0
  {
    placed / w * w + (placed * 3 + w) % w
  }

  /** Cells of the first `placed` mines. */
  function Cells(w: nat, placed: nat): set<nat>
    requires w > 0
  {
    if placed == 0 then {} else Cells(w, placed - 1) + {Cell(w, placed - 1)}
  }

  datatype Placing = Placing(placed: nat, mined: set<nat>)

  /** One turn of the loop body: a cell that already holds a mine changes nothing. */
  function Turn(w: nat, s: Placing): Placing
    requires w > 0
  {
    if Cell(w, s.placed) in s.mined then s else Placing(s.placed + 1, s.mined + {Cell(w, s.placed)})
  }

  function Turns(w: nat, n: nat): Placing
    requires w > 0
  {
    if n == 0 then Placing(0, {}) else Turn(w, Turns(w, n - 1))
  }

  /** The condition under which the loop ends. */
  predicate Placeable(w: nat, mines: nat) {
    w % 3 != 0 || mines <= w / 3
  }

  lemma CellCoordinates(w: nat, p: nat)
    requires w > 0
    ensures Cell(w, p) / w == p / w && Cell(w, p) % w == 3 * p % w
  {
    var x := (p * 3 + w) % w;
    var q := (p * 3 + w) / w;
    assert p * 3 == w * (q - 1) + x by { assert p * 3 + w == w * q + x; assert w * (q - 1) == w * q - w; }
    DivModUnique(p * 3, w, q - 1, x);
    assert Cell(w, p) == w * (p / w) + x;
    DivModUnique(Cell(w, p), w, p / w, x);
  }

  /** Two turns of one row meet exactly when their distance is a third of the width, or two thirds. */
  lemma SameCell(w: nat, p: nat, q: nat)
    requires w > 0 && p < q && Cell(w, p) == Cell(w, q)
    ensures 3 * (q - p) == w || 3 * (q - p) == 2 * w
  {
    CellCoordinates(w, p);
    CellCoordinates(w, q);
    SameRemainder(p, q, w);
    SameRemainder(3 * p, 3 * q, w);
    MultipleBetween(w, 3 * q / w - 3 * p / w, 3 * q - 3 * p);
  }

  lemma DistinctCells(w: nat, mines: nat, p: nat, q: nat)
    requires w > 0 && Placeable(w, mines) && p < q < mines
    ensures Cell(w, p) != Cell(w, q)
  {
    if Cell(w, p) == Cell(w, q) {
      SameCell(w, p, q);
      ThirdOfWidth(w, mines, q - p);
    }
  }

  lemma NotAMultiple(w: nat, d: nat)
    requires w % 3 != 0
    ensures 3 * d != w && 3 * d != 2 * w
  {
    var q, r := w / 3, w % 3;
    assert w == 3 * q + r && 2 * w == 3 * (2 * q) + 2 * r;
  }

  lemma ThirdOfWidth(w: nat, mines: nat, d: nat)
    requires 0 < d < mines && Placeable(w, mines)
    ensures 3 * d != w && 3 * d != 2 * w
  {
    assert w == 3 * (w / 3) + w % 3;
    if w % 3 != 0 { NotAMultiple(w, d); }
  }

  lemma {:induction false} CellsAre(w: nat, placed: nat, c: nat)
    requires w > 0
    ensures c in Cells(w, placed) <==> exists p: nat :: p < placed && Cell(w, p) == c
  {
    if placed > 0 { CellsAre(w, placed - 1, c); }
  }

  /** The cell tried next is new, as long as the condition holds. */
  lemma NextCellIsNew(w: nat, mines: nat, placed: nat)
    requires w > 0 && Placeable(w, mines) && placed < mines
    ensures Cell(w, placed) !in Cells(w, placed)
  {
    CellsAre(w, placed, Cell(w, placed));
    if p: nat :| p < placed && Cell(w, p) == Cell(w, placed) { DistinctCells(w, mines, p, placed); }
  }

  lemma {:induction false} CountCells(w: nat, mines: nat, placed: nat)
    requires w > 0 && Placeable(w, mines) && placed <= mines
    ensures |Cells(w, placed)| == placed
  {
    if placed > 0 {
      CountCells(w, mines, placed - 1);
      NextCellIsNew(w, mines, placed - 1);
    }
  }

  lemma CellOnBoard(w: nat, h: nat, p: nat)
    requires w > 0 && p < w * h
    ensures Cell(w, p) < w * h && p / w < h
  {
    var row := p / w;
    assert p >= w * row && (row >= h ==> w * row >= w * h);
    assert w * (p / w) + w <= w * h by { assert w * (p / w + 1) <= w * h; }
  }

  lemma {:induction false} TurnsProgress(w: nat, mines: nat, n: nat)
    requires w > 0 && Placeable(w, mines) && n <= mines
    ensures Turns(w, n) == Placing(n, Cells(w, n))
  {
    if n > 0 {
      TurnsProgress(w, mines, n - 1);
      NextCellIsNew(w, mines, n - 1);
    }
  }

  /** On a width divisible by three the loop is stuck for good after a third of a row. */
  lemma {:induction false} TurnsStuck(w: nat, n: nat)
    requires w > 0 && w % 3 == 0
    ensures Turns(w, n).placed <= w / 3
  {
    if n <= w / 3 {
      TurnsProgress(w, w / 3, n);
    } else {
      StuckState(w, n);
    }
  }

  lemma {:induction false} StuckState(w: nat, n: nat)
    requires w > 0 && w % 3 == 0 && n >= w / 3
    ensures Turns(w, n) == Placing(w / 3, Cells(w, w / 3))
    decreases n
  {
    var third := w / 3;
    if n == third {
      TurnsProgress(w, third, third);
    } else {
      StuckState(w, n - 1);
      assert Cell(w, third) == 0 by {
        CellCoordinates(w, third);
        DivModUnique(w, w, 1, 0);
        assert third < w;
        DivModUnique(third, w, 0, third);
        assert Cell(w, third) == w * (Cell(w, third) / w) + Cell(w, third) % w;
      }
      CellsAre(w, third, 0);
      assert Cell(w, 0) == 0 by { CellCoordinates(w, 0); assert Cell(w, 0) == w * (Cell(w, 0) / w) + Cell(w, 0) % w; }
    }
  }

  /** The placement loop ends exactly when 3 does not divide the width or the mines fit in a third of a row. */
  lemma PlacementEnds(w: nat, mines: nat)
    requires w > 0
    ensures (exists n: nat :: Turns(w, n).placed == mines) <==> Placeable(w, mines)
  {
    if Placeable(w, mines) { TurnsProgress(w, mines, mines); }
    if n: nat :| Turns(w, n).placed == mines {
      if w % 3 == 0 { TurnsStuck(w, n); }
    }
  }
}
