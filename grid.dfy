/**
 * The word-search board as a value: rows of cells indexed [y][x], where y is
 * the row and x the column, exactly as the generator indexes its char[][].
 * Everything the generator does to the board (blanking, placing one word,
 * padding with filler letters) is specified here as a function of the board
 * before the operation and of the random draws it consumes.
 */
module Grid {

  /** The marker of a cell no word occupies yet. */
  const EMPTY: char := ' '

  /** Filler alphabet; a letter's multiplicity is its weight. */
  const CHARACTER_WEIGHT: string := "aaabbccddeeeffgghhiijjkkll" + "mmnnooppqrrrssstttuuvvwwxyyz"

  /** Number of random anchor/direction attempts made for one word. */
  const ATTEMPTS: nat := 1000

  /** Bound of the two draws from which a direction is derived. */
  const DIRECTION_DRAW: nat := 10

  type Board = seq<seq<char>>

  /** One attempt's four draws, in the order they are taken. */
  datatype Attempt = Attempt(x: int, y: int, rx: int, ry: int)

  predicate Square(g: Board)
  {
    forall y :: 0 <= y < |g| ==> |g[y]| == |g|
  }

  /** Bounds test: the column is checked against the length of row 0. */
  predicate ValidAt(g: Board, x: int, y: int)
  {
    |g| > 0 && 0 <= x < |g[0]| && 0 <= y < |g|
  }

  predicate EmptyAt(g: Board, x: int, y: int)
    requires Square(g)
  {
    ValidAt(g, x, y) && g[y][x] == EMPTY
  }

  predicate NoEmpty(g: Board)
  {
    forall y, x :: 0 <= y < |g| && 0 <= x < |g[y]| ==> g[y][x] != EMPTY
  }

  /** The board initBoard builds: n rows of n empty cells. */
  function Blank(n: nat): (g: Board)
    ensures Square(g) && |g| == n
    ensures forall y, x :: 0 <= y < n && 0 <= x < n ==> EmptyAt(g, x, y)
  {
    seq(n, _ => seq(n, _ => EMPTY))
  }

  /** Every cell of g holding a letter holds the same letter in h. */
  predicate KeepsLetters(g: Board, h: Board)
  {
    |h| == |g| &&
    forall y :: 0 <= y < |g| ==>
      |h[y]| == |g[y]| && forall x :: 0 <= x < |g[y]| ==> (g[y][x] != EMPTY ==> h[y][x] == g[y][x])
  }

  // ---------------------------------------------------------------------
  // Directions

  predicate IsDirection(ux: int, uy: int)
  {
    -1 <= ux <= 1 && -1 <= uy <= 1 && !(ux == 0 && uy == 0)
  }

  /** a + j * u for a unit step u, without a product. */
  function At(a: int, j: int, u: int): int
    requires -1 <= u <= 1
  {
    if u == 0 then a else if u > 0 then a + j else a - j
  }

  lemma AtIsProduct(a: int, j: int, u: int)
    requires -1 <= u <= 1
    ensures At(a, j, u) == a + j * u
  {
  }

  /** The direction examined at position (s, t) of the 3x3 scan. */
  function ScanDirection(rx: nat, ry: nat, s: nat, t: nat): (d: (int, int))
    ensures -1 <= d.0 <= 1 && -1 <= d.1 <= 1
  {
    ((ry + s) % 3 - 1, (rx + t) % 3 - 1)
  }

  /**
   * The one direction an attempt effectively tests: the first position of the
   * 3x3 scan that is not the centre.  Later positions never write, because
   * the attempt's flag is only raised once, before the scan starts.
   */
  function FirstDirection(rx: nat, ry: nat): (d: (int, int))
    ensures IsDirection(d.0, d.1)
    ensures ScanDirection(rx, ry, 0, 0) != (0, 0) ==> d == ScanDirection(rx, ry, 0, 0)
    ensures ScanDirection(rx, ry, 0, 0) == (0, 0) ==> d == ScanDirection(rx, ry, 0, 1)
  {
    if ry % 3 == 1 && rx % 3 == 1 then (0, 1) else (ry % 3 - 1, rx % 3 - 1)
  }

  /**
   * While no direction has been tested, the scan is at (0, 0), or at (0, 1)
   * after skipping the centre; there the first non-centre position is the
   * effective direction, and the centre is never met twice in a row.
   */
  lemma ScanReachesFirst(rx: nat, ry: nat, t: nat)
    requires t <= 1 && (t == 1 ==> ScanDirection(rx, ry, 0, 0) == (0, 0))
    ensures ScanDirection(rx, ry, 0, t) != (0, 0) ==> ScanDirection(rx, ry, 0, t) == FirstDirection(rx, ry)
    ensures ScanDirection(rx, ry, 0, t) == (0, 0) ==> t == 0
  {
  }

  /** Each of the eight directions is the effective one for some in-range draws. */
  lemma EveryDirectionReachable(ux: int, uy: int)
    requires IsDirection(ux, uy)
    ensures exists rx, ry :: 0 <= rx < DIRECTION_DRAW && 0 <= ry < DIRECTION_DRAW && FirstDirection(rx, ry) == (ux, uy)
  {
    var rx, ry := uy + 1, ux + 1;
    assert FirstDirection(rx, ry) == (ux, uy);
  }

  // ---------------------------------------------------------------------
  // Runs of cells

  /** Every cell a word of the given length would occupy is in bounds and empty. */
  predicate Fits(g: Board, w: string, x: int, y: int, ux: int, uy: int)
    requires Square(g) && IsDirection(ux, uy)
    ensures |w| == 0 ==> Fits(g, w, x, y, ux, uy)
    ensures Fits(g, w, x, y, ux, uy) && |w| > 0 ==>
      EmptyAt(g, x, y) && EmptyAt(g, At(x, |w| - 1, ux), At(y, |w| - 1, uy))
  {
    var fits := forall j :: 0 <= j < |w| ==> EmptyAt(g, At(x, j, ux), At(y, j, uy));
    assert fits && |w| > 0 ==> EmptyAt(g, At(x, 0, ux), At(y, 0, uy));
    fits
  }

  /** The word's letters stand, in order, on the run from (x, y) along (ux, uy). */
  predicate Placed(g: Board, w: string, x: int, y: int, ux: int, uy: int)
    requires Square(g) && IsDirection(ux, uy)
  {
    forall j :: 0 <= j < |w| ==>
      ValidAt(g, At(x, j, ux), At(y, j, uy)) && g[At(y, j, uy)][At(x, j, ux)] == w[j]
  }

  /** The word occupies a straight in-bounds run in one of the eight directions. */
  ghost predicate Appears(g: Board, w: string)
    requires Square(g)
  {
    exists x, y, ux, uy :: IsDirection(ux, uy) && Placed(g, w, x, y, ux, uy)
  }

  /** The step count from (x, y) to (cx, cy) along a run in direction (ux, uy). */
  function RunIndex(x: int, y: int, ux: int, uy: int, cx: int, cy: int): int
  {
    if ux > 0 then cx - x else if ux < 0 then x - cx else if uy > 0 then cy - y else y - cy
  }

  predicate OnRun(len: nat, x: int, y: int, ux: int, uy: int, cx: int, cy: int)
    requires -1 <= ux <= 1 && -1 <= uy <= 1
  {
    var j := RunIndex(x, y, ux, uy, cx, cy);
    0 <= j < len && cx == At(x, j, ux) && cy == At(y, j, uy)
  }

  /** The run of j + 1 letters is the run of j letters and the cell j steps on. */
  lemma OnRunNext(j: nat, x: int, y: int, ux: int, uy: int, cx: int, cy: int)
    requires IsDirection(ux, uy)
    ensures OnRun(j + 1, x, y, ux, uy, cx, cy) <==>
      OnRun(j, x, y, ux, uy, cx, cy) || (cx == At(x, j, ux) && cy == At(y, j, uy))
    ensures cx == At(x, j, ux) && cy == At(y, j, uy) ==> RunIndex(x, y, ux, uy, cx, cy) == j
  {
  }

  /** The board after the word's letters are written along the run. */
  function Written(g: Board, w: string, x: int, y: int, ux: int, uy: int): (h: Board)
    requires IsDirection(ux, uy)
    ensures |h| == |g| && forall cy :: 0 <= cy < |g| ==> |h[cy]| == |g[cy]|
  {
    seq(|g|, cy requires 0 <= cy < |g| =>
      seq(|g[cy]|, cx requires 0 <= cx < |g[cy]| =>
        if OnRun(|w|, x, y, ux, uy, cx, cy) then w[RunIndex(x, y, ux, uy, cx, cy)] else g[cy][cx]))
  }

  /** Writing a word where it fits places it, and overwrites no letter. */
  lemma WrittenPlaces(g: Board, w: string, x: int, y: int, ux: int, uy: int)
    requires Square(g) && IsDirection(ux, uy) && Fits(g, w, x, y, ux, uy)
    ensures Square(Written(g, w, x, y, ux, uy))
    ensures Placed(Written(g, w, x, y, ux, uy), w, x, y, ux, uy)
    ensures KeepsLetters(g, Written(g, w, x, y, ux, uy))
  {
    var h := Written(g, w, x, y, ux, uy);
    forall j | 0 <= j < |w|
      ensures ValidAt(h, At(x, j, ux), At(y, j, uy)) && h[At(y, j, uy)][At(x, j, ux)] == w[j]
    {
      assert EmptyAt(g, At(x, j, ux), At(y, j, uy));
      assert RunIndex(x, y, ux, uy, At(x, j, ux), At(y, j, uy)) == j;
    }
    forall cy, cx | 0 <= cy < |g| && 0 <= cx < |g[cy]| && OnRun(|w|, x, y, ux, uy, cx, cy)
      ensures g[cy][cx] == EMPTY
    {
      var j := RunIndex(x, y, ux, uy, cx, cy);
      assert EmptyAt(g, At(x, j, ux), At(y, j, uy));
    }
  }

  /** A non-empty run can only fit if it is no longer than the board's side. */
  lemma FitsNeedsRoom(g: Board, w: string, x: int, y: int, ux: int, uy: int)
    requires Square(g) && IsDirection(ux, uy) && Fits(g, w, x, y, ux, uy)
    ensures |w| <= |g|
  {
    if |w| > 0 {
      var j := |w| - 1;
      assert EmptyAt(g, At(x, 0, ux), At(y, 0, uy));
      assert EmptyAt(g, At(x, j, ux), At(y, j, uy));
    }
  }

  // ---------------------------------------------------------------------
  // Placing one word

  predicate AttemptInRange(a: Attempt, n: int)
  {
    0 <= a.x < n && 0 <= a.y < n && 0 <= a.rx < DIRECTION_DRAW && 0 <= a.ry < DIRECTION_DRAW
  }

  predicate AttemptsInRange(attempts: seq<Attempt>, n: int)
  {
    forall k :: 0 <= k < |attempts| ==> AttemptInRange(attempts[k], n)
  }

  /**
   * Outcome of the attempts, in order: the first attempt whose anchor and
   * effective direction give a run that fits writes the word there; if none
   * does, the board is returned as it was.
   */
  function Place(g: Board, w: string, attempts: seq<Attempt>): (r: (bool, Board))
    requires Square(g) && AttemptsInRange(attempts, |g|)
    ensures |r.1| == |g| && Square(r.1)
    decreases |attempts|
  {
    if attempts == [] then (false, g)
    else
      var a := attempts[0];
      var d := FirstDirection(a.rx, a.ry);
      if Fits(g, w, a.x, a.y, d.0, d.1) then (true, Written(g, w, a.x, a.y, d.0, d.1))
      else Place(g, w, attempts[1..])
  }

  /**
   * A successful placement leaves the word on a straight in-bounds run and
   * keeps every letter already on the board; a failed one changes nothing.
   */
  lemma {:induction false} PlaceSound(g: Board, w: string, attempts: seq<Attempt>)
    requires Square(g) && AttemptsInRange(attempts, |g|)
    ensures Square(Place(g, w, attempts).1)
    ensures KeepsLetters(g, Place(g, w, attempts).1)
    ensures Place(g, w, attempts).0 ==> Appears(Place(g, w, attempts).1, w)
    ensures !Place(g, w, attempts).0 ==> Place(g, w, attempts).1 == g
  {
    if attempts != [] {
      var a := attempts[0];
      var d := FirstDirection(a.rx, a.ry);
      if Fits(g, w, a.x, a.y, d.0, d.1) {
        WrittenPlaces(g, w, a.x, a.y, d.0, d.1);
        assert Placed(Written(g, w, a.x, a.y, d.0, d.1), w, a.x, a.y, d.0, d.1);
      } else {
        PlaceSound(g, w, attempts[1..]);
      }
    }
  }

  /**
   * The words placed one after the other, each with its own attempts,
   * stopping at the first word that cannot be placed.
   */
  function PlaceEach(g: Board, ws: seq<string>, attempts: seq<seq<Attempt>>): (r: (bool, Board))
    requires Square(g) && |attempts| == |ws|
    requires forall k :: 0 <= k < |ws| ==> AttemptsInRange(attempts[k], |g|)
    ensures |r.1| == |g| && Square(r.1)
    decreases |ws|
  {
    if ws == [] then (true, g)
    else
      var (placed, h) := Place(g, ws[0], attempts[0]);
      if !placed then (false, h) else PlaceEach(h, ws[1..], attempts[1..])
  }

  lemma KeepsLettersTrans(f: Board, g: Board, h: Board)
    requires KeepsLetters(f, g) && KeepsLetters(g, h)
    ensures KeepsLetters(f, h)
  {
  }

  /**
   * When every word is placed, each word free of the empty marker appears on
   * the final board, and no letter written earlier is overwritten.
   */
  lemma {:induction false} PlaceEachSound(g: Board, ws: seq<string>, attempts: seq<seq<Attempt>>)
    requires Square(g) && |attempts| == |ws|
    requires forall k :: 0 <= k < |ws| ==> AttemptsInRange(attempts[k], |g|)
    ensures KeepsLetters(g, PlaceEach(g, ws, attempts).1)
    ensures PlaceEach(g, ws, attempts).0 ==>
      forall k :: 0 <= k < |ws| && EMPTY !in ws[k] ==> Appears(PlaceEach(g, ws, attempts).1, ws[k])
    decreases |ws|
  {
    if ws != [] {
      PlaceSound(g, ws[0], attempts[0]);
      var (placed, h) := Place(g, ws[0], attempts[0]);
      if placed {
        var r := PlaceEach(h, ws[1..], attempts[1..]);
        PlaceEachSound(h, ws[1..], attempts[1..]);
        KeepsLettersTrans(g, h, r.1);
        if r.0 {
          forall k | 0 <= k < |ws| && EMPTY !in ws[k]
            ensures Appears(r.1, ws[k])
          {
            if k == 0 {
              AppearsKept(h, r.1, ws[0]);
            } else {
              assert ws[k] == ws[1..][k - 1];
            }
          }
        }
      }
    }
  }

  /** A word longer than the board's side is never placed. */
  lemma {:induction false} PlaceTooLong(g: Board, w: string, attempts: seq<Attempt>)
    requires Square(g) && AttemptsInRange(attempts, |g|)
    requires |w| > |g|
    ensures Place(g, w, attempts) == (false, g)
  {
    if attempts != [] {
      var a := attempts[0];
      var d := FirstDirection(a.rx, a.ry);
      if Fits(g, w, a.x, a.y, d.0, d.1) {
        FitsNeedsRoom(g, w, a.x, a.y, d.0, d.1);
      }
      PlaceTooLong(g, w, attempts[1..]);
    }
  }

  /** A letter-free word (the empty word) is placed by the very first attempt. */
  lemma PlaceEmptyWord(g: Board, attempts: seq<Attempt>)
    requires Square(g) && AttemptsInRange(attempts, |g|) && attempts != []
    ensures Place(g, "", attempts).0
  {
  }

  /** A word keeps appearing when no letter of the board is overwritten. */
  lemma AppearsKept(g: Board, h: Board, w: string)
    requires Square(g) && Square(h) && KeepsLetters(g, h)
    requires EMPTY !in w && Appears(g, w)
    ensures Appears(h, w)
  {
    var x, y, ux, uy :| IsDirection(ux, uy) && Placed(g, w, x, y, ux, uy);
    forall j | 0 <= j < |w|
      ensures ValidAt(h, At(x, j, ux), At(y, j, uy)) && h[At(y, j, uy)][At(x, j, ux)] == w[j]
    {
      assert w[j] in w;
    }
    assert Placed(h, w, x, y, ux, uy);
  }

  // ---------------------------------------------------------------------
  // Padding with filler letters

  /** One draw per cell; a draw is used only when its cell is empty. */
  predicate PicksInRange(picks: seq<seq<int>>, n: nat)
  {
    |picks| == n &&
    forall y :: 0 <= y < n ==>
      |picks[y]| == n && forall x :: 0 <= x < n ==> 0 <= picks[y][x] < |CHARACTER_WEIGHT|
  }

  /** A cell after padding: a letter stays, an empty cell takes the picked filler letter. */
  function FillCell(c: char, pick: int): (r: char)
    requires 0 <= pick < |CHARACTER_WEIGHT|
    ensures r != EMPTY
    ensures c != EMPTY ==> r == c
  {
    FillerHasNoSpace();
    if c == EMPTY then CHARACTER_WEIGHT[pick] else c
  }

  /** The board after every empty cell receives its filler letter. */
  function Filled(g: Board, picks: seq<seq<int>>): (h: Board)
    requires Square(g) && PicksInRange(picks, |g|)
    ensures |h| == |g| && Square(h)
  {
    seq(|g|, y requires 0 <= y < |g| =>
      seq(|g[y]|, x requires 0 <= x < |g[y]| => FillCell(g[y][x], picks[y][x])))
  }

  lemma FillerHasNoSpace()
    ensures EMPTY !in CHARACTER_WEIGHT
  {
    assert EMPTY !in "aaabbccddeeeffgghhiijjkkll";
    assert EMPTY !in "mmnnooppqrrrssstttuuvvwwxyyz";
  }

  /**
   * Padding leaves no empty cell, writes a filler letter exactly into the
   * cells that were empty, and keeps every letter that was there.
   */
  lemma FilledComplete(g: Board, picks: seq<seq<int>>)
    requires Square(g) && PicksInRange(picks, |g|)
    ensures Square(Filled(g, picks)) && NoEmpty(Filled(g, picks))
    ensures KeepsLetters(g, Filled(g, picks))
    ensures forall y, x :: 0 <= y < |g| && 0 <= x < |g| && g[y][x] == EMPTY ==>
      Filled(g, picks)[y][x] in CHARACTER_WEIGHT
  {
    FillerHasNoSpace();
  }
}
