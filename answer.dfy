/**
 * What the answer checker reads and changes, as functions of the board:
 * the sign-step walk between two cells, the letters it spells, the first
 * listed word those letters match forwards or backwards, and the board with
 * the walked cells upper-cased.
 */
module Answer {
  import opened Grid

  datatype Option<T> = None | Some(value: T)

  function Sign(d: int): int
  {
    if d > 0 then 1 else if d < 0 then -1 else 0
  }

  function Abs(d: int): nat
  {
    if d < 0 then -d else d
  }

  /** Number of sign steps from (x1, y1) to (x2, y2). */
  function Dist(x1: int, y1: int, x2: int, y2: int): nat
  {
    if Abs(x2 - x1) < Abs(y2 - y1) then Abs(y2 - y1) else Abs(x2 - x1)
  }

  /** c lies between a and b, whichever of them is smaller. */
  predicate Between(a: int, b: int, c: int)
  {
    (a <= c <= b) || (b <= c <= a)
  }

  /** The endpoints share a row, a column or a diagonal. */
  predicate Aligned(x1: int, y1: int, x2: int, y2: int)
  {
    x1 == x2 || y1 == y2 || Abs(x2 - x1) == Abs(y2 - y1)
  }

  /**
   * The cells the checker walks: from (x1, y1), each step moves each
   * coordinate by the sign of its remaining distance, until (x2, y2).
   * The walk has Dist + 1 cells and ends at (x2, y2).
   */
  function Path(x1: int, y1: int, x2: int, y2: int): (p: seq<(int, int)>)
    ensures |p| == Dist(x1, y1, x2, y2) + 1
    ensures p[0] == (x1, y1) && p[|p| - 1] == (x2, y2)
    decreases Dist(x1, y1, x2, y2)
  {
    if x1 == x2 && y1 == y2 then [(x1, y1)]
    else [(x1, y1)] + Path(x1 + Sign(x2 - x1), y1 + Sign(y2 - y1), x2, y2)
  }

  /** The walk never leaves the endpoints' bounding box. */
  lemma {:induction false} PathInBox(x1: int, y1: int, x2: int, y2: int)
    ensures forall k :: 0 <= k < |Path(x1, y1, x2, y2)| ==>
      Between(x1, x2, Path(x1, y1, x2, y2)[k].0) && Between(y1, y2, Path(x1, y1, x2, y2)[k].1)
    decreases Dist(x1, y1, x2, y2)
  {
    if x1 != x2 || y1 != y2 {
      var nx, ny := x1 + Sign(x2 - x1), y1 + Sign(y2 - y1);
      var p, q := Path(x1, y1, x2, y2), Path(nx, ny, x2, y2);
      PathInBox(nx, ny, x2, y2);
      assert p == [(x1, y1)] + q;
      forall k | 1 <= k < |p| ensures Between(x1, x2, p[k].0) && Between(y1, y2, p[k].1) {
        assert p[k] == q[k - 1];
      }
    }
  }

  /** i unit steps from a are one step, then i - 1 more in the same direction. */
  lemma AtShift(a: int, i: int, u: int, v: int)
    requires -1 <= u <= 1 && -1 <= v <= 1 && i >= 1 && (i > 1 ==> v == u)
    ensures At(a + u, i - 1, v) == At(a, i, u)
  {
  }

  /** Between aligned endpoints the walk is the straight run in one direction. */
  lemma {:induction false} PathIsStraight(x1: int, y1: int, x2: int, y2: int, i: nat)
    requires Aligned(x1, y1, x2, y2) && i <= Dist(x1, y1, x2, y2)
    ensures Path(x1, y1, x2, y2)[i] == (At(x1, i, Sign(x2 - x1)), At(y1, i, Sign(y2 - y1)))
    decreases i
  {
    if i > 0 {
      var nx, ny := x1 + Sign(x2 - x1), y1 + Sign(y2 - y1);
      AlignedStep(x1, y1, x2, y2);
      PathIsStraight(nx, ny, x2, y2, i - 1);
      assert Path(x1, y1, x2, y2)[i] == Path(nx, ny, x2, y2)[i - 1];
      AtShift(x1, i, Sign(x2 - x1), Sign(x2 - nx));
      AtShift(y1, i, Sign(y2 - y1), Sign(y2 - ny));
    }
  }

  /** One sign step from c towards (x2, y2). */
  function Step(c: (int, int), x2: int, y2: int): (int, int)
  {
    (c.0 + Sign(x2 - c.0), c.1 + Sign(y2 - c.1))
  }

  /** The walk seen from any of its cells is the walk from that cell. */
  lemma {:induction false} PathSuffix(x1: int, y1: int, x2: int, y2: int, k: nat)
    requires k < |Path(x1, y1, x2, y2)|
    ensures Path(x1, y1, x2, y2)[k..] == Path(Path(x1, y1, x2, y2)[k].0, Path(x1, y1, x2, y2)[k].1, x2, y2)
    decreases k
  {
    if k > 0 {
      var nx, ny := x1 + Sign(x2 - x1), y1 + Sign(y2 - y1);
      var p, q := Path(x1, y1, x2, y2), Path(nx, ny, x2, y2);
      assert p == [(x1, y1)] + q;
      PathSuffix(nx, ny, x2, y2, k - 1);
      assert p[k..] == q[k - 1..];
    }
  }

  /**
   * The walk's cells one after the other: each next cell is one sign step on,
   * and the target is reached only at the last cell.
   */
  lemma PathStep(x1: int, y1: int, x2: int, y2: int, k: nat)
    requires k < |Path(x1, y1, x2, y2)|
    ensures Path(x1, y1, x2, y2)[k] == (x2, y2) <==> k == |Path(x1, y1, x2, y2)| - 1
    ensures k < |Path(x1, y1, x2, y2)| - 1 ==>
      Path(x1, y1, x2, y2)[k + 1] == Step(Path(x1, y1, x2, y2)[k], x2, y2)
  {
    var p := Path(x1, y1, x2, y2);
    PathSuffix(x1, y1, x2, y2, k);
    var r := Path(p[k].0, p[k].1, x2, y2);
    assert r[0] == p[k];
    if k < |p| - 1 {
      assert r[1] == p[k + 1];
    }
  }

  /** A cell of the walk other than the target is followed by its sign step. */
  lemma WalkOn(x1: int, y1: int, x2: int, y2: int, k: nat, x: int, y: int)
    requires k < |Path(x1, y1, x2, y2)| && Path(x1, y1, x2, y2)[k] == (x, y) && (x != x2 || y != y2)
    ensures k + 1 < |Path(x1, y1, x2, y2)|
    ensures Path(x1, y1, x2, y2)[k + 1] == (x + Sign(x2 - x), y + Sign(y2 - y))
  {
    PathStep(x1, y1, x2, y2, k);
  }

  /** The walk reaches its target only at its last cell. */
  lemma WalkEnds(x1: int, y1: int, x2: int, y2: int, k: nat)
    requires k < |Path(x1, y1, x2, y2)| && Path(x1, y1, x2, y2)[k] == (x2, y2)
    ensures k == |Path(x1, y1, x2, y2)| - 1
  {
    PathStep(x1, y1, x2, y2, k);
  }

  /** One sign step between aligned endpoints keeps them aligned and heading the same way. */
  lemma AlignedStep(x1: int, y1: int, x2: int, y2: int)
    requires Aligned(x1, y1, x2, y2) && (x1, y1) != (x2, y2)
    ensures Aligned(x1 + Sign(x2 - x1), y1 + Sign(y2 - y1), x2, y2)
    ensures Dist(x1 + Sign(x2 - x1), y1 + Sign(y2 - y1), x2, y2) + 1 == Dist(x1, y1, x2, y2)
    ensures Dist(x1, y1, x2, y2) > 1 ==>
      Sign(x2 - (x1 + Sign(x2 - x1))) == Sign(x2 - x1) && Sign(y2 - (y1 + Sign(y2 - y1))) == Sign(y2 - y1)
  {
  }

  function Rev<T>(s: seq<T>): (r: seq<T>)
    ensures |r| == |s|
  {
    seq(|s|, k requires 0 <= k < |s| => s[|s| - 1 - k])
  }

  /** Walking i steps back from the end of a d-step run lands d - i steps from its start. */
  lemma AtMirror(a: int, b: int, d: int, i: int, u: int)
    requires -1 <= u <= 1 && At(a, d, u) == b
    ensures At(b, i, -u) == At(a, d - i, u)
  {
  }

  /** Swapping the endpoints keeps the distance and the alignment and reverses each sign. */
  lemma Swapped(x1: int, y1: int, x2: int, y2: int)
    ensures Dist(x2, y2, x1, y1) == Dist(x1, y1, x2, y2)
    ensures Aligned(x2, y2, x1, y1) == Aligned(x1, y1, x2, y2)
    ensures Sign(x1 - x2) == -Sign(x2 - x1) && Sign(y1 - y2) == -Sign(y2 - y1)
  {
  }

  /** Between aligned endpoints, Dist unit steps from one endpoint reach the other. */
  lemma PathEndsStraight(x1: int, y1: int, x2: int, y2: int)
    requires Aligned(x1, y1, x2, y2)
    ensures At(x1, Dist(x1, y1, x2, y2), Sign(x2 - x1)) == x2
    ensures At(y1, Dist(x1, y1, x2, y2), Sign(y2 - y1)) == y2
  {
    PathIsStraight(x1, y1, x2, y2, Dist(x1, y1, x2, y2));
  }

  /** Cell i of the walk back is cell d - i of the walk there. */
  lemma PathMirrorAt(x1: int, y1: int, x2: int, y2: int, i: nat)
    requires Aligned(x1, y1, x2, y2) && i <= Dist(x1, y1, x2, y2)
    ensures Dist(x2, y2, x1, y1) == Dist(x1, y1, x2, y2)
    ensures Path(x2, y2, x1, y1)[i] == Path(x1, y1, x2, y2)[Dist(x1, y1, x2, y2) - i]
  {
    var d := Dist(x1, y1, x2, y2);
    var sx, sy := Sign(x2 - x1), Sign(y2 - y1);
    Swapped(x1, y1, x2, y2);
    assert Path(x2, y2, x1, y1)[i] == (At(x2, i, -sx), At(y2, i, -sy)) by {
      PathIsStraight(x2, y2, x1, y1, i);
    }
    assert Path(x1, y1, x2, y2)[d - i] == (At(x1, d - i, sx), At(y1, d - i, sy)) by {
      PathIsStraight(x1, y1, x2, y2, d - i);
    }
    assert At(x2, i, -sx) == At(x1, d - i, sx) && At(y2, i, -sy) == At(y1, d - i, sy) by {
      PathEndsStraight(x1, y1, x2, y2);
      AtMirror(x1, x2, d, i, sx);
      AtMirror(y1, y2, d, i, sy);
    }
  }

  /** Swapping aligned endpoints walks the same cells in the opposite order. */
  lemma PathReversed(x1: int, y1: int, x2: int, y2: int)
    requires Aligned(x1, y1, x2, y2)
    ensures Path(x2, y2, x1, y1) == Rev(Path(x1, y1, x2, y2))
  {
    var p, q := Path(x1, y1, x2, y2), Path(x2, y2, x1, y1);
    var d := Dist(x1, y1, x2, y2);
    PathMirrorAt(x1, y1, x2, y2, 0);
    forall i | 0 <= i < |q|
      ensures q[i] == Rev(p)[i]
    {
      PathMirrorAt(x1, y1, x2, y2, i);
      assert Rev(p)[i] == p[d - i];
    }
  }

  // ---------------------------------------------------------------------
  // Letters along the walk

  /** ASCII lower case: no capital A to Z is left, and every other character is kept. */
  function LowerChar(c: char): (r: char)
    ensures !('A' <= r <= 'Z')
    ensures !('A' <= c <= 'Z') ==> r == c
  {
    if 'A' <= c <= 'Z' then (c as int + 32) as char else c
  }

  /** ASCII upper case: no small a to z is left, and every other character is kept. */
  function UpperChar(c: char): char
  {
    if 'a' <= c <= 'z' then (c as int - 32) as char else c
  }

  function Lower(s: string): (r: string)
    ensures |r| == |s|
  {
    seq(|s|, k requires 0 <= k < |s| => LowerChar(s[k]))
  }

  predicate OnBoard(g: Board, p: seq<(int, int)>)
  {
    forall k :: 0 <= k < |p| ==> ValidAt(g, p[k].0, p[k].1)
  }

  /** The walk between two valid cells stays on the board. */
  lemma PathOnBoard(g: Board, x1: int, y1: int, x2: int, y2: int)
    requires ValidAt(g, x1, y1) && ValidAt(g, x2, y2)
    ensures OnBoard(g, Path(x1, y1, x2, y2))
  {
    PathInBox(x1, y1, x2, y2);
  }

  /** The letters read along the walk, in walking order. */
  function SpellOf(g: Board, p: seq<(int, int)>): (s: string)
    requires Square(g) && OnBoard(g, p)
    ensures |s| == |p|
  {
    seq(|p|, k requires 0 <= k < |p| => g[p[k].1][p[k].0])
  }

  predicate Matches(w: string, s: string)
  {
    s == w || Rev(s) == w
  }

  /** The first listed word the spelled letters match, forwards or reversed. */
  function Found(words: seq<string>, s: string): (r: Option<string>)
    ensures r.None? <==> forall i :: 0 <= i < |words| ==> !Matches(words[i], s)
    ensures r.Some? ==> exists k :: 0 <= k < |words| && words[k] == r.value && Matches(words[k], s) &&
                                   forall i :: 0 <= i < k ==> !Matches(words[i], s)
  {
    if words == [] then None
    else if Matches(words[0], s) then Some(words[0])
    else
      var r := Found(words[1..], s);
      if r.Some? then
        var k :| 0 <= k < |words[1..]| && words[1..][k] == r.value && Matches(words[1..][k], s) &&
                 forall i :: 0 <= i < k ==> !Matches(words[1..][i], s);
        assert words[k + 1] == r.value;
        r
      else r
  }

  /**
   * The word the checker accepts for the two endpoints, if any: none when an
   * endpoint is off the board, otherwise the first word matching the
   * lower-cased letters of the walk.
   */
  function AnswerMatch(g: Board, words: seq<string>, x1: int, y1: int, x2: int, y2: int): (r: Option<string>)
    requires Square(g)
    ensures r.Some? ==> ValidAt(g, x1, y1) && ValidAt(g, x2, y2) && r.value in words
  {
    if !ValidAt(g, x1, y1) || !ValidAt(g, x2, y2) then None
    else
      PathOnBoard(g, x1, y1, x2, y2);
      Found(words, Lower(SpellOf(g, Path(x1, y1, x2, y2))))
  }

  /** The board with every cell of the walk upper-cased. */
  function UpperPath(g: Board, p: seq<(int, int)>): (h: Board)
    ensures |h| == |g|
  {
    seq(|g|, y requires 0 <= y < |g| =>
      seq(|g[y]|, x requires 0 <= x < |g[y]| => if (x, y) in p then UpperChar(g[y][x]) else g[y][x]))
  }

  lemma UpperCharIdempotent(c: char)
    ensures UpperChar(UpperChar(c)) == UpperChar(c)
  {
  }

  /** The board with the one cell c upper-cased. */
  function UpperCell(h: Board, c: (int, int)): (r: Board)
    requires 0 <= c.1 < |h| && 0 <= c.0 < |h[c.1]|
    ensures |r| == |h|
  {
    h[c.1 := h[c.1][c.0 := UpperChar(h[c.1][c.0])]]
  }

  /** Upper-casing no cell changes nothing. */
  lemma UpperPathNone(g: Board, q: seq<(int, int)>)
    requires q == []
    ensures UpperPath(g, q) == g
  {
    forall y | 0 <= y < |g| ensures UpperPath(g, q)[y] == g[y] {
    }
  }

  /** Upper-casing one more cell of the walk is upper-casing that cell. */
  lemma UpperPathSnoc(g: Board, q: seq<(int, int)>, c: (int, int))
    requires Square(g) && ValidAt(g, c.0, c.1)
    ensures UpperPath(g, q + [c]) == UpperCell(UpperPath(g, q), c)
  {
    var h, h' := UpperPath(g, q), UpperPath(g, q + [c]);
    forall y | 0 <= y < |g| ensures h'[y] == UpperCell(h, c)[y] {
      forall x | 0 <= x < |g[y]| ensures h'[y][x] == UpperCell(h, c)[y][x] {
        UpperCharIdempotent(g[y][x]);
        assert ((x, y) in q + [c]) == ((x, y) in q || (x, y) == c);
      }
    }
  }

  /** The walk's cells upper-cased one after the other, in walking order. */
  function UpperAlong(g: Board, q: seq<(int, int)>): (h: Board)
    requires Square(g) && OnBoard(g, q)
    ensures |h| == |g| && forall y :: 0 <= y < |g| ==> |h[y]| == |g[y]|
    decreases |q|
  {
    if q == [] then g else UpperCell(UpperAlong(g, q[..|q| - 1]), q[|q| - 1])
  }

  /** One more cell of the walk upper-cased. */
  lemma UpperAlongStep(g: Board, q: seq<(int, int)>, k: nat)
    requires Square(g) && OnBoard(g, q) && k < |q|
    ensures UpperAlong(g, q[..k + 1]) == UpperCell(UpperAlong(g, q[..k]), q[k])
  {
    assert q[..k + 1][..k] == q[..k];
  }

  /** Upper-casing cell by cell along the walk gives the upper-cased walk. */
  lemma {:induction false} UpperAlongIsUpperPath(g: Board, q: seq<(int, int)>)
    requires Square(g) && OnBoard(g, q)
    ensures UpperAlong(g, q) == UpperPath(g, q)
    decreases |q|
  {
    if q == [] {
      UpperPathNone(g, q);
    } else {
      var init, c := q[..|q| - 1], q[|q| - 1];
      UpperAlongIsUpperPath(g, init);
      UpperPathSnoc(g, init, c);
      assert init + [c] == q;
    }
  }

  // ---------------------------------------------------------------------
  // Properties of the checker

  /** A word matches the reversed letters exactly when it matches the letters. */
  lemma {:induction false} FoundReversed(words: seq<string>, s: string)
    ensures Found(words, Rev(s)) == Found(words, s)
  {
    assert Rev(Rev(s)) == s;
    if words != [] {
      assert Matches(words[0], Rev(s)) == Matches(words[0], s);
      FoundReversed(words[1..], s);
    }
  }

  lemma RevMembers<T>(p: seq<T>)
    ensures forall c :: c in Rev(p) <==> c in p
  {
    forall c | c in p ensures c in Rev(p) {
      var k :| 0 <= k < |p| && p[k] == c;
      assert Rev(p)[|p| - 1 - k] == c;
    }
  }

  lemma SpellReversed(g: Board, p: seq<(int, int)>)
    requires Square(g) && OnBoard(g, p)
    ensures OnBoard(g, Rev(p)) && Lower(SpellOf(g, Rev(p))) == Rev(Lower(SpellOf(g, p)))
  {
  }

  /** Upper-casing depends only on which cells the walk visits, not on their order. */
  lemma UpperPathSameCells(g: Board, p: seq<(int, int)>, q: seq<(int, int)>)
    requires forall c :: c in p <==> c in q
    ensures UpperPath(g, p) == UpperPath(g, q)
  {
    forall y | 0 <= y < |g| ensures UpperPath(g, p)[y] == UpperPath(g, q)[y] {
    }
  }

  /**
   * Checking aligned endpoints in either order accepts the same word and
   * upper-cases the same cells.
   */
  lemma AnswerSymmetric(g: Board, words: seq<string>, x1: int, y1: int, x2: int, y2: int)
    requires Square(g) && Aligned(x1, y1, x2, y2)
    ensures AnswerMatch(g, words, x2, y2, x1, y1) == AnswerMatch(g, words, x1, y1, x2, y2)
    ensures UpperPath(g, Path(x2, y2, x1, y1)) == UpperPath(g, Path(x1, y1, x2, y2))
  {
    var p := Path(x1, y1, x2, y2);
    PathReversed(x1, y1, x2, y2);
    RevMembers(p);
    UpperPathSameCells(g, Rev(p), p);
    if ValidAt(g, x1, y1) && ValidAt(g, x2, y2) {
      PathOnBoard(g, x1, y1, x2, y2);
      SpellReversed(g, p);
      FoundReversed(words, Lower(SpellOf(g, p)));
    }
  }

  lemma UpperPathShape(g: Board, p: seq<(int, int)>)
    requires Square(g)
    ensures Square(UpperPath(g, p))
    ensures forall x, y :: ValidAt(UpperPath(g, p), x, y) <==> ValidAt(g, x, y)
  {
  }

  /** Upper-casing the walk changes no letter of what the walk spells once lower-cased. */
  lemma SpellUpper(g: Board, p: seq<(int, int)>)
    requires Square(g) && OnBoard(g, p)
    ensures Square(UpperPath(g, p)) && OnBoard(UpperPath(g, p), p)
    ensures Lower(SpellOf(UpperPath(g, p), p)) == Lower(SpellOf(g, p))
  {
    UpperPathShape(g, p);
    var h := UpperPath(g, p);
    forall k | 0 <= k < |p|
      ensures LowerChar(h[p[k].1][p[k].0]) == LowerChar(g[p[k].1][p[k].0])
    {
      assert p[k] in p;
    }
  }

  /**
   * After an accepted answer, the same endpoints are accepted again with the
   * same word, and upper-casing the walk once more changes no cell.
   */
  lemma AnswerRepeat(g: Board, words: seq<string>, x1: int, y1: int, x2: int, y2: int)
    requires Square(g) && AnswerMatch(g, words, x1, y1, x2, y2).Some?
    ensures Square(UpperPath(g, Path(x1, y1, x2, y2)))
    ensures AnswerMatch(UpperPath(g, Path(x1, y1, x2, y2)), words, x1, y1, x2, y2) == AnswerMatch(g, words, x1, y1, x2, y2)
    ensures UpperPath(UpperPath(g, Path(x1, y1, x2, y2)), Path(x1, y1, x2, y2)) == UpperPath(g, Path(x1, y1, x2, y2))
  {
    var p := Path(x1, y1, x2, y2);
    var h := UpperPath(g, p);
    PathOnBoard(g, x1, y1, x2, y2);
    UpperPathShape(g, p);
    SpellUpper(g, p);
    assert AnswerMatch(h, words, x1, y1, x2, y2) == Found(words, Lower(SpellOf(h, p)));
    UpperPathIdempotent(g, p);
  }

  lemma UpperPathIdempotent(g: Board, p: seq<(int, int)>)
    ensures UpperPath(UpperPath(g, p), p) == UpperPath(g, p)
  {
    var h := UpperPath(g, p);
    forall y | 0 <= y < |g| ensures UpperPath(h, p)[y] == h[y] {
    }
  }
}
