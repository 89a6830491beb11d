/**
 * The word-search object: a fixed word list, a square board of characters
 * that the generator and the answer checker update in place, and the list of
 * words found so far.  Every method is proved against the value-level
 * description of the board in the modules Grid, Answer and Scramble; the
 * random draws a method would take are passed in as parameters.
 */
module Puzzle {
  import opened Grid
  import opened Answer
  import opened Scramble

  /** The draws one level of the generator consumes. */
  datatype Round = Round(swaps: seq<int>, placements: seq<seq<Attempt>>, fill: seq<seq<int>>)

  /**
   * Draws for one level on a board of the given side: one swap per word, a
   * thousand attempts per word, and one filler pick per cell.
   */
  predicate RoundFor(r: Round, side: nat, count: nat)
  {
    |r.swaps| == count && DrawsInRange(r.swaps, count) &&
    |r.placements| == count &&
    (forall k :: 0 <= k < count ==>
      |r.placements[k]| == ATTEMPTS && AttemptsInRange(r.placements[k], side)) &&
    PicksInRange(r.fill, side)
  }

  /** Draws for consecutive levels, the board growing by one each level. */
  predicate RoundsFrom(rounds: seq<Round>, side: nat, count: nat)
  {
    forall k :: 0 <= k < |rounds| ==> RoundFor(rounds[k], side + k, count)
  }

  /** The draws left after the first level serve a board one larger. */
  lemma RoundsFromRest(rounds: seq<Round>, side: nat, count: nat)
    requires rounds != [] && RoundsFrom(rounds, side, count)
    ensures RoundsFrom(rounds[1..], side + 1, count)
  {
    forall k | 0 <= k < |rounds| - 1
      ensures RoundFor(rounds[1..][k], side + 1 + k, count)
    {
      assert rounds[1..][k] == rounds[k + 1];
    }
  }

  /**
   * One level of the generator: the words scrambled by the level's swaps and
   * placed one after another on a blank board of the given side.
   */
  function Level(ws: seq<string>, side: nat, r: Round): (b: (bool, Board))
    requires RoundFor(r, side, |ws|)
    ensures |b.1| == side && Square(b.1)
  {
    PlaceEach(Blank(side), Scrambled(ws, r.swaps, |ws|), r.placements)
  }

  /**
   * The generator as a function of its draws: the first level that places
   * every word is padded with filler letters; a level that fails hands over
   * to the next, one side larger; when the rounds run out the last failed
   * board is the result.
   */
  function Levels(ws: seq<string>, side: nat, rounds: seq<Round>): (b: (bool, Board))
    requires rounds != [] && RoundsFrom(rounds, side, |ws|)
    ensures Square(b.1) && side <= |b.1| < side + |rounds|
    decreases |rounds|
  {
    assert RoundFor(rounds[0], side, |ws|);
    var (placed, h) := Level(ws, side, rounds[0]);
    if placed then (true, Filled(h, rounds[0].fill))
    else if |rounds| == 1 then (false, h)
    else
      RoundsFromRest(rounds, side, |ws|);
      Levels(ws, side + 1, rounds[1..])
  }

  /** Level k of the supplied rounds, on a board k larger than the first, places every word. */
  predicate LevelFits(ws: seq<string>, side: nat, rounds: seq<Round>, k: int)
    requires RoundsFrom(rounds, side, |ws|)
  {
    0 <= k < |rounds| && Level(ws, side + k, rounds[k]).0
  }

  /** Level k is the first of the supplied levels that places every word. */
  predicate FirstFit(ws: seq<string>, side: nat, rounds: seq<Round>, k: int)
    requires RoundsFrom(rounds, side, |ws|)
  {
    LevelFits(ws, side, rounds, k) && forall j :: 0 <= j < k ==> !LevelFits(ws, side, rounds, j)
  }

  /** Level k + 1 of the rounds is level k of the rounds after the first. */
  lemma LevelFitsRest(ws: seq<string>, side: nat, rounds: seq<Round>, k: nat)
    requires rounds != [] && RoundsFrom(rounds, side, |ws|) && RoundsFrom(rounds[1..], side + 1, |ws|)
    ensures LevelFits(ws, side + 1, rounds[1..], k) == LevelFits(ws, side, rounds, k + 1)
  {
    if k < |rounds| - 1 {
      assert rounds[1..][k] == rounds[k + 1];
      assert side + 1 + k == side + (k + 1);
    }
  }

  /**
   * The generator succeeds exactly when some supplied level places every
   * word, and its board then has the side of the first such level.
   */
  lemma {:induction false} LevelsFirstFit(ws: seq<string>, side: nat, rounds: seq<Round>)
    requires rounds != [] && RoundsFrom(rounds, side, |ws|)
    ensures Levels(ws, side, rounds).0 ==>
      exists k :: FirstFit(ws, side, rounds, k) && |Levels(ws, side, rounds).1| == side + k
    ensures !Levels(ws, side, rounds).0 ==> forall k :: !LevelFits(ws, side, rounds, k)
    decreases |rounds|
  {
    assert RoundFor(rounds[0], side, |ws|);
    if Level(ws, side, rounds[0]).0 {
      assert FirstFit(ws, side, rounds, 0);
    } else if |rounds| == 1 {
      assert forall k :: LevelFits(ws, side, rounds, k) ==> k == 0;
    } else {
      var rest := rounds[1..];
      RoundsFromRest(rounds, side, |ws|);
      LevelsFirstFit(ws, side + 1, rest);
      assert Levels(ws, side, rounds) == Levels(ws, side + 1, rest);
      if Levels(ws, side, rounds).0 {
        var k :| FirstFit(ws, side + 1, rest, k) && |Levels(ws, side + 1, rest).1| == side + 1 + k;
        FirstFitRest(ws, side, rounds, k);
      } else {
        NoneFitRest(ws, side, rounds, rest, side + 1);
      }
    }
  }

  /** When level 0 fails and no later level fits, no level fits. */
  lemma NoneFitRest(ws: seq<string>, side: nat, rounds: seq<Round>, rest: seq<Round>, next: nat)
    requires rounds != [] && rest == rounds[1..] && next == side + 1
    requires RoundsFrom(rounds, side, |ws|) && RoundsFrom(rest, next, |ws|)
    requires !LevelFits(ws, side, rounds, 0) && forall k :: !LevelFits(ws, next, rest, k)
    ensures forall k :: !LevelFits(ws, side, rounds, k)
  {
    forall k
      ensures !LevelFits(ws, side, rounds, k)
    {
      if k > 0 {
        LevelFitsRest(ws, side, rounds, k - 1);
      }
    }
  }

  /** When level 0 fails, the first fitting level after it is one further on. */
  lemma FirstFitRest(ws: seq<string>, side: nat, rounds: seq<Round>, k: nat)
    requires rounds != [] && RoundsFrom(rounds, side, |ws|) && RoundsFrom(rounds[1..], side + 1, |ws|)
    requires !LevelFits(ws, side, rounds, 0) && FirstFit(ws, side + 1, rounds[1..], k)
    ensures FirstFit(ws, side, rounds, k + 1)
  {
    LevelFitsRest(ws, side, rounds, k);
    forall j | 0 <= j < k + 1
      ensures !LevelFits(ws, side, rounds, j)
    {
      if j > 0 {
        LevelFitsRest(ws, side, rounds, j - 1);
      }
    }
  }

  /**
   * A successful generation leaves no empty cell and shows every word that
   * holds no space on a straight run.
   */
  lemma {:induction false} LevelsSound(ws: seq<string>, side: nat, rounds: seq<Round>)
    requires rounds != [] && RoundsFrom(rounds, side, |ws|)
    ensures var (done, g) := Levels(ws, side, rounds);
      done ==> NoEmpty(g) && forall w :: w in ws && EMPTY !in w ==> Appears(g, w)
    decreases |rounds|
  {
    var r := rounds[0];
    assert RoundFor(r, side, |ws|);
    var scrambled := Scrambled(ws, r.swaps, |ws|);
    var (placed, h) := Level(ws, side, r);
    if placed {
      PlaceEachSound(Blank(side), scrambled, r.placements);
      var g := Filled(h, r.fill);
      FilledComplete(h, r.fill);
      ScrambledPermutes(ws, r.swaps, |ws|);
      forall w | w in ws && EMPTY !in w
        ensures Appears(g, w)
      {
        assert w in multiset(scrambled);
        var k :| 0 <= k < |scrambled| && scrambled[k] == w;
        AppearsKept(h, g, w);
      }
    } else if |rounds| > 1 {
      RoundsFromRest(rounds, side, |ws|);
      LevelsSound(ws, side + 1, rounds[1..]);
    }
  }

  /** Length of the longest word, or -1 for no words. */
  function Longest(ws: seq<string>): (m: int)
    ensures m >= -1
    ensures ws == [] <==> m == -1
    ensures forall i :: 0 <= i < |ws| ==> |ws[i]| <= m
    ensures ws != [] ==> exists i :: 0 <= i < |ws| && |ws[i]| == m
  {
    if ws == [] then -1
    else
      var m := Longest(ws[..|ws| - 1]);
      if |ws[|ws| - 1]| > m then |ws[|ws| - 1]| else m
  }

  /** The letters of s in the opposite order, built one character at a time. */
  method Reversed(s: string) returns (r: string)
    ensures r == Rev(s)
  {
    r := "";
    var i := |s| - 1;
    while i >= 0
      invariant -1 <= i < |s|
      invariant |r| == |s| - 1 - i
      invariant forall k :: 0 <= k < |r| ==> r[k] == s[|s| - 1 - k]
    {
      r := r + [s[i]];
      i := i - 1;
    }
  }

  /** The contents of a character grid as rows of cells, indexed [y][x]. */
  ghost function Contents(b: array2<char>): (g: Board)
    reads b
    ensures |g| == b.Length0
    ensures forall y :: 0 <= y < |g| ==> |g[y]| == b.Length1
    ensures forall y, x :: 0 <= y < b.Length0 && 0 <= x < b.Length1 ==> g[y][x] == b[y, x]
  {
    seq(b.Length0, y requires 0 <= y < b.Length0 reads b =>
      seq(b.Length1, x requires 0 <= x < b.Length1 reads b => b[y, x]))
  }

  class WordSearch {
    const words: seq<string>
    var board: array2<char>
    var foundWords: seq<string>

    /** The board is square and every found word is one of the listed words. */
    ghost predicate Valid()
      reads this
    {
      board.Length0 == board.Length1 &&
      forall i :: 0 <= i < |foundWords| ==> foundWords[i] in words
    }

    /** The board's contents as rows of cells, indexed [y][x]. */
    ghost function Cells(): (g: Board)
      reads this`board, board
      ensures board.Length0 == board.Length1 ==> Square(g)
    {
      Contents(board)
    }

    /** A board value that agrees with the array cell by cell is its contents. */
    lemma CellsAre(g: Board)
      requires |g| == board.Length0
      requires forall y :: 0 <= y < |g| ==> |g[y]| == board.Length1
      requires forall y, x :: 0 <= y < board.Length0 && 0 <= x < board.Length1 ==> g[y][x] == board[y, x]
      ensures Cells() == g
    {
      var c := Cells();
      forall y | 0 <= y < |g| ensures c[y] == g[y] {
      }
    }

    constructor (words: seq<string>)
      ensures this.words == words && foundWords == [] && Valid()
      ensures board.Length0 == 0 && Cells() == []
    {
      this.words := words;
      board := new char[0, 0];
      foundWords := [];
    }

    // -------------------------------------------------------------------
    // Board basics

    function IsValid(x: int, y: int): (r: bool)
      reads this`board, board
      ensures r == ValidAt(Cells(), x, y)
    {
      board.Length0 > 0 && 0 <= x && 0 <= y && x < board.Length1 && y < board.Length0
    }

    function IsEmpty(x: int, y: int): (r: bool)
      requires Valid()
      reads this, board
      ensures r == EmptyAt(Cells(), x, y)
    {
      IsValid(x, y) && board[y, x] == EMPTY
    }

    /** A fresh board of the given side, every cell empty. */
    method InitBoard(boardSize: nat)
      requires Valid()
      modifies this
      ensures Valid() && fresh(board) && foundWords == old(foundWords)
      ensures Cells() == Blank(boardSize)
    {
      board := new char[boardSize, boardSize];
      var y := 0;
      while y < boardSize
        invariant 0 <= y <= boardSize
        invariant forall cy, cx :: 0 <= cy < y && 0 <= cx < boardSize ==> board[cy, cx] == EMPTY
        modifies board
      {
        var x := 0;
        while x < boardSize
          invariant 0 <= x <= boardSize
          invariant forall cy, cx :: 0 <= cy < boardSize && 0 <= cx < boardSize ==>
            (cy < y || (cy == y && cx < x) ==> board[cy, cx] == EMPTY)
          modifies board
        {
          board[y, x] := EMPTY;
          x := x + 1;
        }
        y := y + 1;
      }
      CellsAre(Blank(boardSize));
    }

    // -------------------------------------------------------------------
    // Placing a word

    /** Whether every cell of the run is on the board and empty. */
    method CheckRun(word: string, x: int, y: int, ux: int, uy: int) returns (fits: bool)
      requires Valid() && IsDirection(ux, uy)
      ensures fits == Fits(Cells(), word, x, y, ux, uy)
    {
      fits := true;
      var j := 0;
      while j < |word|
        invariant 0 <= j <= |word|
        invariant forall k :: 0 <= k < j ==> EmptyAt(Cells(), At(x, k, ux), At(y, k, uy))
      {
        var nx := x + j * ux;
        var ny := y + j * uy;
        AtIsProduct(x, j, ux);
        AtIsProduct(y, j, uy);
        if !IsEmpty(nx, ny) {
          fits := false;
          break;
        }
        j := j + 1;
      }
    }

    /** Writes the word's letters along a run that fits. */
    method WriteRun(word: string, x: int, y: int, ux: int, uy: int)
      requires Valid() && IsDirection(ux, uy) && Fits(Cells(), word, x, y, ux, uy)
      modifies board
      ensures Cells() == Written(old(Cells()), word, x, y, ux, uy)
    {
      ghost var g := Cells();
      var j := 0;
      while j < |word|
        invariant 0 <= j <= |word|
        invariant forall cy, cx :: 0 <= cy < board.Length0 && 0 <= cx < board.Length1 ==>
          board[cy, cx] == if OnRun(j, x, y, ux, uy, cx, cy) then word[RunIndex(x, y, ux, uy, cx, cy)] else g[cy][cx]
      {
        var nx := x + j * ux;
        var ny := y + j * uy;
        AtIsProduct(x, j, ux);
        AtIsProduct(y, j, uy);
        assert EmptyAt(g, nx, ny);
        board[ny, nx] := word[j];
        forall cy, cx | 0 <= cy < board.Length0 && 0 <= cx < board.Length1
          ensures board[cy, cx] == if OnRun(j + 1, x, y, ux, uy, cx, cy) then word[RunIndex(x, y, ux, uy, cx, cy)] else g[cy][cx]
        {
          OnRunNext(j, x, y, ux, uy, cx, cy);
        }
        j := j + 1;
      }
      CellsAre(Written(g, word, x, y, ux, uy));
    }

    /**
     * One attempt's scan of the 3x3 directions.  The flag is raised once,
     * before the scan, and only a failed check lowers it; so the first
     * non-centre direction decides the attempt and the later ones can only
     * confirm the failure.
     */
    method ScanDirections(word: string, x: int, y: int, rx: int, ry: int) returns (matched: bool)
      requires Valid() && 0 <= rx < DIRECTION_DRAW && 0 <= ry < DIRECTION_DRAW
      modifies board
      ensures matched == Fits(old(Cells()), word, x, y, FirstDirection(rx, ry).0, FirstDirection(rx, ry).1)
      ensures matched ==> Cells() == Written(old(Cells()), word, x, y, FirstDirection(rx, ry).0, FirstDirection(rx, ry).1)
      ensures !matched ==> Cells() == old(Cells())
    {
      ghost var g := Cells();
      ghost var d := FirstDirection(rx, ry);
      ghost var tested := false;
      matched := true;
      var s := 0;
      while s < 3
        invariant 0 <= s <= 3
        invariant !tested ==> s == 0 && matched && Cells() == g
        invariant tested ==> !matched && !Fits(g, word, x, y, d.0, d.1) && Cells() == g
      {
        var t := 0;
        while t < 3
          invariant 0 <= t <= 3
          invariant !tested ==> s == 0 && t <= 1 && (t == 1 ==> ScanDirection(rx, ry, 0, 0) == (0, 0))
          invariant !tested ==> matched && Cells() == g
          invariant tested ==> !matched && !Fits(g, word, x, y, d.0, d.1) && Cells() == g
        {
          var ux := (ry + s) % 3 - 1;
          var uy := (rx + t) % 3 - 1;
          assert (ux, uy) == ScanDirection(rx, ry, s, t);
          if !tested {
            ScanReachesFirst(rx, ry, t);
          }
          if ux == 0 && uy == 0 {
            t := t + 1;
            continue;
          }
          var fits := CheckRun(word, x, y, ux, uy);
          if !fits {
            matched := false;
          }
          if matched {
            WriteRun(word, x, y, ux, uy);
            break;
          }
          tested := true;
          t := t + 1;
        }
        if matched {
          break;
        }
        s := s + 1;
      }
    }

    /**
     * Up to a thousand attempts, each with its own anchor and direction
     * draws; the first attempt whose run fits writes the word.
     */
    method PlaceWord(word: string, attempts: seq<Attempt>) returns (matched: bool)
      requires Valid() && |attempts| == ATTEMPTS && AttemptsInRange(attempts, board.Length0)
      modifies board
      ensures (matched, Cells()) == Place(old(Cells()), word, attempts)
    {
      ghost var g := Cells();
      matched := false;
      var i := 0;
      while i < ATTEMPTS
        invariant 0 <= i <= ATTEMPTS
        invariant !matched && Cells() == g
        invariant Place(g, word, attempts) == Place(g, word, attempts[i..])
      {
        var a := attempts[i];
        matched := ScanDirections(word, a.x, a.y, a.rx, a.ry);
        if matched {
          break;
        }
        i := i + 1;
      }
    }

    /** Every empty cell receives the filler letter its pick selects. */
    method FillEmpty(picks: seq<seq<int>>)
      requires Valid() && PicksInRange(picks, board.Length0)
      modifies board
      ensures Cells() == Filled(old(Cells()), picks)
    {
      ghost var g := Cells();
      var y := 0;
      while y < board.Length0
        invariant 0 <= y <= board.Length0
        invariant forall cy, cx :: 0 <= cy < board.Length0 && 0 <= cx < board.Length1 ==>
          board[cy, cx] == if cy < y then FillCell(g[cy][cx], picks[cy][cx]) else g[cy][cx]
      {
        var x := 0;
        while x < board.Length1
          invariant 0 <= x <= board.Length1
          invariant forall cy, cx :: 0 <= cy < board.Length0 && 0 <= cx < board.Length1 ==>
            board[cy, cx] == if cy < y || (cy == y && cx < x) then FillCell(g[cy][cx], picks[cy][cx]) else g[cy][cx]
        {
          if IsEmpty(x, y) {
            board[y, x] := CHARACTER_WEIGHT[picks[y][x]];
          }
          x := x + 1;
        }
        y := y + 1;
      }
      CellsAre(Filled(g, picks));
    }

    // -------------------------------------------------------------------
    // Generating the puzzle

    /** A copy of the word list after one swap with the last slot per draw. */
    method GetScrambled(swaps: seq<int>) returns (scrambled: seq<string>)
      requires |swaps| == |words| && DrawsInRange(swaps, |words|)
      ensures scrambled == Scrambled(words, swaps, |swaps|)
      ensures multiset(scrambled) == multiset(words)
    {
      var length := |words|;
      var a := new string[length](i requires 0 <= i < length => words[i]);
      assert a[..] == words;
      var i := 0;
      while i < length
        invariant 0 <= i <= length
        invariant a[..] == Scrambled(words, swaps, i)
      {
        var j := swaps[i];
        ghost var before := a[..];
        var t := a[length - 1];
        a[length - 1] := a[j];
        a[j] := t;
        assert a[..] == SwapLast(before, j);
        i := i + 1;
      }
      scrambled := a[..];
      ScrambledPermutes(words, swaps, |swaps|);
    }

    /**
     * Places the words in order, stopping at the first one that cannot be
     * placed.
     */
    method PlaceAll(ws: seq<string>, attempts: seq<seq<Attempt>>) returns (placed: bool)
      requires Valid() && |attempts| == |ws|
      requires forall k :: 0 <= k < |ws| ==> |attempts[k]| == ATTEMPTS && AttemptsInRange(attempts[k], board.Length0)
      modifies board
      ensures (placed, Cells()) == PlaceEach(old(Cells()), ws, attempts)
    {
      ghost var g := Cells();
      var i := 0;
      while i < |ws|
        invariant 0 <= i <= |ws|
        invariant PlaceEach(g, ws, attempts) == PlaceEach(Cells(), ws[i..], attempts[i..])
      {
        var matched := PlaceWord(ws[i], attempts[i]);
        assert ws[i..][1..] == ws[i + 1..] && attempts[i..][1..] == attempts[i + 1..];
        if !matched {
          return false;
        }
        i := i + 1;
      }
      return true;
    }

    /**
     * Builds a board of the given side holding every word, retrying on a
     * board one larger whenever a word cannot be placed.  Each level takes
     * its draws from the next round; when the rounds run out the result is
     * false.
     */
    method Generate(boardSize: nat, rounds: seq<Round>) returns (done: bool)
      requires Valid() && rounds != [] && RoundsFrom(rounds, boardSize, |words|)
      modifies this
      ensures Valid() && foundWords == old(foundWords)
      ensures (done, Cells()) == Levels(words, boardSize, rounds)
      ensures done <==> exists k :: LevelFits(words, boardSize, rounds, k)
      ensures done ==> exists k :: FirstFit(words, boardSize, rounds, k) && board.Length0 == boardSize + k
      ensures boardSize <= board.Length0 < boardSize + |rounds|
      ensures done ==> NoEmpty(Cells())
      ensures done ==> forall w :: w in words && EMPTY !in w ==> Appears(Cells(), w)
      decreases |rounds|
    {
      var r := rounds[0];
      assert RoundFor(r, boardSize, |words|);
      var scrambled := GetScrambled(r.swaps);
      InitBoard(boardSize);
      var placed := PlaceAll(scrambled, r.placements);
      if !placed {
        if |rounds| == 1 {
          done := false;
        } else {
          RoundsFromRest(rounds, boardSize, |words|);
          done := Generate(boardSize + 1, rounds[1..]);
        }
      } else {
        FillEmpty(r.fill);
        done := true;
      }
      LevelsFirstFit(words, boardSize, rounds);
      LevelsSound(words, boardSize, rounds);
    }

    /** Generates with the longest word's length as the starting side. */
    method GenerateFromLongest(rounds: seq<Round>) returns (done: bool)
      requires Valid() && words != [] && rounds != [] && RoundsFrom(rounds, Longest(words), |words|)
      modifies this
      ensures Valid() && foundWords == old(foundWords)
      ensures (done, Cells()) == Levels(words, Longest(words), rounds)
      ensures done <==> exists k :: LevelFits(words, Longest(words), rounds, k)
      ensures done ==> exists k :: FirstFit(words, Longest(words), rounds, k) && board.Length0 == Longest(words) + k
      ensures Longest(words) <= board.Length0 < Longest(words) + |rounds|
      ensures forall w :: w in words ==> |w| <= board.Length0
      ensures done ==> NoEmpty(Cells())
      ensures done ==> forall w :: w in words && EMPTY !in w ==> Appears(Cells(), w)
    {
      var maxLength := -1;
      var i := 0;
      while i < |words|
        invariant 0 <= i <= |words|
        invariant maxLength == Longest(words[..i])
      {
        assert words[..i + 1][..i] == words[..i];
        if |words[i]| > maxLength {
          maxLength := |words[i]|;
        }
        i := i + 1;
      }
      assert words[..i] == words;
      done := Generate(maxLength, rounds);
    }

    // -------------------------------------------------------------------
    // Checking an answer

    /** The letters on the walk between two valid cells, read in walking order. */
    method SpellPath(x1: int, y1: int, x2: int, y2: int) returns (spelled: string)
      requires Valid() && ValidAt(Cells(), x1, y1) && ValidAt(Cells(), x2, y2)
      ensures OnBoard(Cells(), Path(x1, y1, x2, y2))
      ensures spelled == SpellOf(Cells(), Path(x1, y1, x2, y2))
    {
      ghost var g := Cells();
      ghost var p := Path(x1, y1, x2, y2);
      PathOnBoard(g, x1, y1, x2, y2);
      ghost var k := 0;
      spelled := "";
      var x, y := x1, y1;
      while x != x2 || y != y2
        invariant 0 <= k < |p| && p[k] == (x, y)
        invariant |spelled| == k && forall i :: 0 <= i < k ==> spelled[i] == g[p[i].1][p[i].0]
        decreases |p| - k
      {
        WalkOn(x1, y1, x2, y2, k, x, y);
        spelled := spelled + [board[y, x]];
        x := x + Sign(x2 - x);
        y := y + Sign(y2 - y);
        k := k + 1;
      }
      WalkEnds(x1, y1, x2, y2, k);
      spelled := spelled + [board[y, x]];
      assert |spelled| == |p|;
    }

    /** Upper-cases every cell of the walk between two valid cells. */
    method UppercasePath(x1: int, y1: int, x2: int, y2: int)
      requires Valid() && ValidAt(Cells(), x1, y1) && ValidAt(Cells(), x2, y2)
      modifies board
      ensures Cells() == UpperPath(old(Cells()), Path(x1, y1, x2, y2))
    {
      ghost var g := Cells();
      ghost var p := Path(x1, y1, x2, y2);
      PathOnBoard(g, x1, y1, x2, y2);
      ghost var k := 0;
      var x, y := x1, y1;
      while x != x2 || y != y2
        invariant 0 <= k < |p| && p[k] == (x, y)
        invariant Cells() == UpperAlong(g, p[..k])
        decreases |p| - k
      {
        WalkOn(x1, y1, x2, y2, k, x, y);
        Capitalize(x, y);
        UpperAlongStep(g, p, k);
        x := x + Sign(x2 - x);
        y := y + Sign(y2 - y);
        k := k + 1;
      }
      WalkEnds(x1, y1, x2, y2, k);
      Capitalize(x, y);
      UpperAlongStep(g, p, k);
      assert p[..k + 1] == p;
      UpperAlongIsUpperPath(g, p);
    }

    /** Upper-cases the one cell (x, y). */
    method Capitalize(x: int, y: int)
      requires Valid() && ValidAt(Cells(), x, y)
      modifies board
      ensures Cells() == UpperCell(old(Cells()), (x, y))
    {
      ghost var g := Cells();
      board[y, x] := UpperChar(board[y, x]);
      CellsAre(UpperCell(g, (x, y)));
    }

    /**
     * The first listed word equal to the letters or to their reverse; the
     * reverse is rebuilt for every word, as the checker does.
     */
    method MatchWord(spelled: string) returns (found: Option<string>)
      ensures found == Found(words, spelled)
    {
      var i := 0;
      while i < |words|
        invariant 0 <= i <= |words|
        invariant Found(words, spelled) == Found(words[i..], spelled)
      {
        var word := words[i];
        var reverse := Reversed(spelled);
        if spelled == word || reverse == word {
          assert Matches(words[i..][0], spelled);
          return Some(word);
        }
        assert words[i..][1..] == words[i + 1..];
        i := i + 1;
      }
      return None;
    }

    /**
     * Accepts the two endpoints when the lower-cased letters of the walk
     * between them, forwards or reversed, equal a listed word: the walk is
     * then upper-cased and the word appended to the found words, even when
     * it is already there.  Otherwise nothing changes.
     */
    method Answer(x1: int, y1: int, x2: int, y2: int) returns (correct: bool)
      requires Valid()
      modifies this`foundWords, board
      ensures Valid()
      ensures correct == AnswerMatch(old(Cells()), words, x1, y1, x2, y2).Some?
      ensures correct ==> Cells() == UpperPath(old(Cells()), Path(x1, y1, x2, y2))
      ensures correct ==> foundWords == old(foundWords) + [AnswerMatch(old(Cells()), words, x1, y1, x2, y2).value]
      ensures !correct ==> Cells() == old(Cells()) && foundWords == old(foundWords)
    {
      if !IsValid(x1, y1) || !IsValid(x2, y2) {
        return false;
      }
      var spelled := SpellPath(x1, y1, x2, y2);
      spelled := Lower(spelled);
      var found := MatchWord(spelled);
      if found.None? {
        return false;
      }
      UppercasePath(x1, y1, x2, y2);
      foundWords := foundWords + [found.value];
      return true;
    }
  }
}
