/** The region that revealing a minesweeper cell opens, defined by paths and independent of any search order.

Cells are numbered row by row. A path may leave only cells whose count is zero, and all its cells are hidden.
*/
module FloodFill {

  /** `a` and `b` are the same cell or touch, on a board `w` cells wide. */
  predicate Near(w: nat, a: nat, b: nat)
    requires w > 0
  {
    -1 <= a % w - b % w <= 1 && -1 <= a / w - b / w <= 1
  }

  ghost predicate Spreads(w: nat, field: seq<int>, a: nat, b: nat)
    requires w > 0
  {
    a < |field| && field[a] == 0 && Near(w, a, b)
  }

  ghost predicate IsPath(w: nat, field: seq<int>, hidden: set<nat>, s: nat, path: seq<nat>, c: nat)
    requires w > 0
  {
    && |path| > 0 && path[0] == s && path[|path| - 1] == c
    && (forall i :: 0 <= i < |path| ==> path[i] in hidden)
    && (forall i :: 0 <= i < |path| - 1 ==> Spreads(w, field, path[i], path[i + 1]))
  }

  ghost predicate Reachable(w: nat, field: seq<int>, hidden: set<nat>, s: nat, c: nat)
    requires w > 0
  {
    exists path :: IsPath(w, field, hidden, s, path, c)
  }

  /** All cells that a path of hidden cells reaches from `s`. */
  ghost function Flood(w: nat, field: seq<int>, hidden: set<nat>, s: nat): set<nat>
    requires w > 0
  {
    set c | c in hidden && Reachable(w, field, hidden, s, c)
  }

  /** Nothing hidden spreads out of `q`. */
  ghost predicate Closed(w: nat, field: seq<int>, hidden: set<nat>, q: set<nat>)
    requires w > 0
  {
    forall a, b | a in q && b in hidden :: Spreads(w, field, a, b) ==> b in q
  }

  lemma FloodStarts(w: nat, field: seq<int>, hidden: set<nat>, s: nat)
    requires w > 0 && s in hidden
    ensures s in Flood(w, field, hidden, s)
  {
    assert IsPath(w, field, hidden, s, [s], s);
  }

  lemma FloodIsClosed(w: nat, field: seq<int>, hidden: set<nat>, s: nat)
    requires w > 0
    ensures Closed(w, field, hidden, Flood(w, field, hidden, s))
  {
    forall a, b | a in Flood(w, field, hidden, s) && b in hidden && Spreads(w, field, a, b)
      ensures b in Flood(w, field, hidden, s)
    {
      var path :| IsPath(w, field, hidden, s, path, a);
      assert IsPath(w, field, hidden, s, path + [b], b);
    }
  }

  lemma {:induction false} PathStaysInside(w: nat, field: seq<int>, hidden: set<nat>, s: nat, path: seq<nat>, c: nat,
                                           q: set<nat>)
    requires w > 0 && IsPath(w, field, hidden, s, path, c) && s in q && Closed(w, field, hidden, q)
    ensures c in q
    decreases |path|
  {
    if |path| > 1 {
      var shorter, last := path[..|path| - 1], path[|path| - 2];
      PathStaysInside(w, field, hidden, s, shorter, last, q);
      assert Spreads(w, field, path[|path| - 2], path[|path| - 1]);
    }
  }

  /** The flood is the least closed set around its start. */
  lemma FloodIsLeast(w: nat, field: seq<int>, hidden: set<nat>, s: nat, q: set<nat>)
    requires w > 0 && s in q && Closed(w, field, hidden, q)
    ensures Flood(w, field, hidden, s) <= q
  {
    forall c | c in Flood(w, field, hidden, s) ensures c in q {
      var path :| IsPath(w, field, hidden, s, path, c);
      PathStaysInside(w, field, hidden, s, path, c, q);
    }
  }

  /** A flood from a cell of another flood, through cells still hidden, stays within it. */
  lemma FloodWithinFlood(w: nat, field: seq<int>, hidden: set<nat>, s: nat, hidden': set<nat>, n: nat)
    requires w > 0 && hidden' <= hidden && n in Flood(w, field, hidden, s)
    ensures Flood(w, field, hidden', n) <= Flood(w, field, hidden, s)
  {
    FloodIsClosed(w, field, hidden, s);
    FloodIsLeast(w, field, hidden', n, Flood(w, field, hidden, s));
  }

  /** A cell whose count is not zero opens nothing but itself. */
  lemma FloodOfNumber(w: nat, field: seq<int>, hidden: set<nat>, s: nat)
    requires w > 0 && s in hidden && s < |field| && field[s] != 0
    ensures Flood(w, field, hidden, s) == {s}
  {
    FloodStarts(w, field, hidden, s);
    FloodIsLeast(w, field, hidden, s, {s});
  }

  /** What a search from `s` has opened: it lies in the flood, and every hidden cell that an opened cell, other than
  `s` itself, spreads to is open too. */
  ghost predicate PartialFlood(w: nat, field: seq<int>, hidden: set<nat>, s: nat, open: set<nat>)
    requires w > 0
  {
    && s in open && open <= Flood(w, field, hidden, s)
    && (forall a, b | a in open && a != s && b in hidden :: Spreads(w, field, a, b) ==> b in open)
  }

  /** Searching on from a neighbour `n` of `s` keeps the search partial and opens `n`. */
  lemma PartialFloodGrows(w: nat, field: seq<int>, hidden: set<nat>, s: nat, open: set<nat>, n: nat)
    requires w > 0 && PartialFlood(w, field, hidden, s, open) && n in hidden - open && Spreads(w, field, s, n)
    ensures PartialFlood(w, field, hidden, s, open + Flood(w, field, hidden - open, n))
    ensures n in Flood(w, field, hidden - open, n)
  {
    FloodIsClosed(w, field, hidden, s);
    FloodWithinFlood(w, field, hidden, s, hidden - open, n);
    FloodIsClosed(w, field, hidden - open, n);
    FloodStarts(w, field, hidden - open, n);
  }

  /** When all neighbours of `s` have been tried, the search has opened exactly the flood. */
  lemma PartialFloodComplete(w: nat, field: seq<int>, hidden: set<nat>, s: nat, open: set<nat>)
    requires w > 0 && PartialFlood(w, field, hidden, s, open)
    requires forall b | b in hidden :: Spreads(w, field, s, b) ==> b in open
    ensures open == Flood(w, field, hidden, s)
  {
    FloodIsLeast(w, field, hidden, s, open);
  }
}
