/**
 * The text the game shows: rows of the board, the board with row and column
 * labels, the word list with found marks, the difficulty label, and the
 * decoding of a typed coordinate pair back into a column and a row.
 */
module Render {
  import opened Grid

  /** Labels of rows and columns, in order. */
  const ALPHA: string := "ABCDEFGHIJKLMNOPQRSTUVWXYZ"

  const TIERS: seq<string> := ["Very Easy", "Easy", "Medium", "Hard", "Very Hard", "Extremely Hard"]

  /** One row of cells, each followed by one space. */
  function RowOf(cells: seq<char>): (r: string)
    ensures |r| == 2 * |cells|
  {
    if cells == [] then "" else RowOf(cells[..|cells| - 1]) + [cells[|cells| - 1], ' ']
  }

  /** Each cell of the row is printed at an even column and followed by a space. */
  lemma {:induction false} RowOfLayout(cells: seq<char>)
    ensures forall k :: 0 <= k < |cells| ==> RowOf(cells)[2 * k] == cells[k] && RowOf(cells)[2 * k + 1] == ' '
    decreases |cells|
  {
    if cells != [] {
      var init := cells[..|cells| - 1];
      RowOfLayout(init);
      assert RowOf(cells) == RowOf(init) + [cells[|cells| - 1], ' '];
    }
  }

  /** Row y as printed, after its label and a bar when labelled. */
  function Line(g: Board, y: nat, labelled: bool): string
    requires y < |g| && (labelled ==> y < |ALPHA|)
  {
    (if labelled then [ALPHA[y], '|'] else "") + RowOf(g[y]) + "\n"
  }

  /** The first n rows, one line each. */
  function Rows(g: Board, n: nat, labelled: bool): string
    requires n <= |g| && (labelled ==> |g| <= |ALPHA|)
  {
    if n == 0 then "" else Rows(g, n - 1, labelled) + Line(g, n - 1, labelled)
  }

  /** The board as printed without labels: one line of equal length per row. */
  function Render(g: Board): (r: string)
    ensures Square(g) ==> |r| == |g| * LineLength(|g|, false)
  {
    if Square(g) then RowsLength(g, |g|, false); Rows(g, |g|, false)
    else Rows(g, |g|, false)
  }

  /** The label line before its last character is cut: two spaces, then each column label and '_'. */
  function LabelRun(n: nat): (r: string)
    requires n <= |ALPHA|
    ensures |r| == 2 * n + 2 && r[0] == ' ' && r[1] == ' '
    ensures forall i :: 0 <= i < n ==> r[2 + 2 * i] == ALPHA[i] && r[3 + 2 * i] == '_'
  {
    if n == 0 then "  " else LabelRun(n - 1) + [ALPHA[n - 1], '_']
  }

  /** The label line: the run of labels without its trailing '_', so it ends on the last label. */
  function Header(n: nat): (r: string)
    requires n <= |ALPHA|
    ensures |r| == 2 * n + 1
    ensures n > 0 ==> r[2 * n] == ALPHA[n - 1]
  {
    var r := LabelRun(n);
    r[..|r| - 1]
  }

  /**
   * The board with column labels on top and row labels on the left: the
   * label line and its newline, then one line of equal length per row.
   */
  function Labeled(g: Board): (r: string)
    requires |g| <= |ALPHA|
    ensures Square(g) ==> |r| == 2 * |g| + 2 + |g| * LineLength(|g|, true)
  {
    if Square(g) then RowsLength(g, |g|, true); Header(|g|) + "\n" + Rows(g, |g|, true)
    else Header(|g|) + "\n" + Rows(g, |g|, true)
  }

  function LineLength(n: nat, labelled: bool): nat
  {
    2 * n + 1 + (if labelled then 2 else 0)
  }

  /** Every printed line of a square board has the same length. */
  lemma {:induction false} RowsLength(g: Board, n: nat, labelled: bool)
    requires Square(g) && n <= |g| && (labelled ==> |g| <= |ALPHA|)
    ensures |Rows(g, n, labelled)| == n * LineLength(|g|, labelled)
  {
    if n > 0 {
      var len := LineLength(|g|, labelled);
      RowsLength(g, n - 1, labelled);
      LineHasLength(g, n - 1, labelled);
      assert |Rows(g, n, labelled)| == (n - 1) * len + len;
    }
  }

  lemma LineHasLength(g: Board, y: nat, labelled: bool)
    requires Square(g) && y < |g| && (labelled ==> y < |ALPHA|)
    ensures |Line(g, y, labelled)| == LineLength(|g|, labelled)
  {
  }

  lemma SliceOfPrefix<T>(a: seq<T>, b: seq<T>, lo: nat, hi: nat)
    requires a <= b && lo <= hi <= |a|
    ensures b[lo..hi] == a[lo..hi]
  {
  }

  lemma SliceOfRight<T>(p: seq<T>, q: seq<T>)
    ensures (p + q)[|p|..|p| + |q|] == q
  {
  }

  lemma SliceOfShifted<T>(p: seq<T>, q: seq<T>, lo: nat, hi: nat)
    requires lo <= hi <= |q|
    ensures (p + q)[|p| + lo..|p| + hi] == q[lo..hi]
  {
  }

  /** The first m printed rows are a prefix of the first n. */
  lemma {:induction false} RowsPrefix(g: Board, m: nat, n: nat, labelled: bool)
    requires m <= n <= |g| && (labelled ==> |g| <= |ALPHA|)
    ensures Rows(g, m, labelled) <= Rows(g, n, labelled)
    decreases n
  {
    if m < n {
      RowsPrefix(g, m, n - 1, labelled);
    }
  }

  /**
   * Line y of the printed board follows the first y lines; with RowsLength
   * its offset is y times the line length.
   */
  lemma RowsLayout(g: Board, n: nat, labelled: bool, y: nat)
    requires y < n <= |g| && (labelled ==> |g| <= |ALPHA|)
    ensures |Rows(g, y + 1, labelled)| <= |Rows(g, n, labelled)|
    ensures Rows(g, n, labelled)[|Rows(g, y, labelled)|..|Rows(g, y + 1, labelled)|] == Line(g, y, labelled)
  {
    RowsPrefix(g, y + 1, n, labelled);
    var before, line := Rows(g, y, labelled), Line(g, y, labelled);
    assert Rows(g, y + 1, labelled) == before + line;
    SliceOfPrefix(before + line, Rows(g, n, labelled), |before|, |before| + |line|);
    SliceOfRight(before, line);
  }

  /** The label line: its length, each column label in place, '_' between labels. */
  lemma HeaderLayout(n: nat)
    requires n <= |ALPHA|
    ensures |Header(n)| == 2 * n + 1
    ensures forall i :: 0 <= i < n ==> Header(n)[2 + 2 * i] == ALPHA[i]
    ensures forall i :: 0 <= i < n - 1 ==> Header(n)[3 + 2 * i] == '_'
  {
  }

  /**
   * The unlabelled board: line y holds the row's cells and a newline, and
   * starts y line lengths in.
   */
  lemma RenderedLine(g: Board, y: nat)
    requires Square(g) && y < |g|
    ensures |Render(g)| == |g| * LineLength(|g|, false)
    ensures |Rows(g, y, false)| == y * LineLength(|g|, false)
    ensures |Rows(g, y + 1, false)| == |Rows(g, y, false)| + LineLength(|g|, false)
    ensures |Rows(g, y + 1, false)| <= |Render(g)|
    ensures Render(g)[|Rows(g, y, false)|..|Rows(g, y + 1, false)|] == RowOf(g[y]) + "\n"
  {
    RowsLength(g, |g|, false);
    RowsLength(g, y, false);
    LineHasLength(g, y, false);
    RowsLayout(g, |g|, false, y);
    assert Rows(g, y + 1, false) == Rows(g, y, false) + Line(g, y, false);
  }

  /** Where row y's line starts in the labelled board: after the label line, its newline and y lines. */
  function LabeledOffset(g: Board, y: nat): nat
    requires y <= |g| <= |ALPHA|
  {
    2 * |g| + 2 + |Rows(g, y, true)|
  }

  /** Row y of the labelled board: its label, a bar, then the row's cells. */
  lemma LabeledLine(g: Board, y: nat)
    requires Square(g) && y < |g| <= |ALPHA|
    ensures LabeledOffset(g, y) == 2 * |g| + 2 + y * LineLength(|g|, true)
    ensures LabeledOffset(g, y) + LineLength(|g|, true) <= |Labeled(g)|
    ensures Labeled(g)[LabeledOffset(g, y)..LabeledOffset(g, y) + LineLength(|g|, true)]
            == [ALPHA[y], '|'] + RowOf(g[y]) + "\n"
  {
    assert |Header(|g|)| == 2 * |g| + 1;
    RowsLength(g, y, true);
    RowsLayout(g, |g|, true, y);
    LineHasLength(g, y, true);
    var h := Header(|g|) + "\n";
    var rows := Rows(g, |g|, true);
    assert Labeled(g) == h + rows;
    SliceOfShifted(h, rows, |Rows(g, y, true)|, |Rows(g, y + 1, true)|);
    assert |Rows(g, y + 1, true)| == |Rows(g, y, true)| + LineLength(|g|, true) by {
      assert Rows(g, y + 1, true) == Rows(g, y, true) + Line(g, y, true);
    }
    var off := LabeledOffset(g, y);
    assert off == |h| + |Rows(g, y, true)|;
    assert Labeled(g)[off..off + LineLength(|g|, true)] == Line(g, y, true);
    assert Line(g, y, true) == [ALPHA[y], '|'] + RowOf(g[y]) + "\n";
  }

  // ---------------------------------------------------------------------
  // Word list

  /** One line of the word list: the found mark, a space, the word and a newline. */
  function Entry(w: string, found: seq<string>): (r: string)
    ensures |r| == |w| + 3
    ensures r[0] == (if w in found then 'X' else 'O') && r[1] == ' ' && r[|r| - 1] == '\n'
  {
    (if w in found then "X " else "O ") + w + "\n"
  }

  /** Every word, in list order, marked X when it was found and O otherwise. */
  function ListOf(words: seq<string>, found: seq<string>): (r: string)
    ensures words == [] <==> r == ""
    ensures words != [] ==> r[|r| - 1] == '\n'
  {
    if words == [] then "" else ListOf(words[..|words| - 1], found) + Entry(words[|words| - 1], found)
  }

  lemma {:induction false} ListConcat(a: seq<string>, b: seq<string>, found: seq<string>)
    ensures ListOf(a + b, found) == ListOf(a, found) + ListOf(b, found)
    decreases |b|
  {
    if b != [] {
      var b' := b[..|b| - 1];
      assert (a + b)[..|a + b| - 1] == a + b';
      assert (a + b)[|a + b| - 1] == b[|b| - 1];
      ListConcat(a, b', found);
      assert ListOf(a + b, found) == ListOf(a + b', found) + Entry(b[|b| - 1], found);
      assert ListOf(b, found) == ListOf(b', found) + Entry(b[|b| - 1], found);
    } else {
      assert a + b == a;
    }
  }

  /** The list of a, then w, then b is their lists with w's entry between them. */
  lemma ListAround(a: seq<string>, w: string, b: seq<string>, found: seq<string>)
    ensures ListOf(a + [w] + b, found) == ListOf(a, found) + Entry(w, found) + ListOf(b, found)
  {
    ListConcat(a + [w], b, found);
    ListConcat(a, [w], found);
    assert ListOf([w], found) == Entry(w, found) by {
      assert [w][..0] == [];
    }
  }

  /** An entry between two stretches of text keeps its mark and its word at their offsets. */
  lemma EntryBetween(pre: string, w: string, found: seq<string>, post: string)
    ensures |pre| + 2 + |w| < |pre + Entry(w, found) + post|
    ensures (pre + Entry(w, found) + post)[|pre|] == (if w in found then 'X' else 'O')
    ensures (pre + Entry(w, found) + post)[|pre| + 2..|pre| + 2 + |w|] == w
  {
    var e := Entry(w, found);
    assert pre + e + post == pre + (e + post);
    SliceOfShifted(pre, e + post, 2, 2 + |w|);
    SliceOfPrefix(e, e + post, 2, 2 + |w|);
  }

  /** Word k's line carries its found mark and then the word itself. */
  lemma ListEntry(words: seq<string>, found: seq<string>, k: nat)
    requires k < |words|
    ensures var off := |ListOf(words[..k], found)|;
            off + 2 + |words[k]| < |ListOf(words, found)| &&
            ListOf(words, found)[off] == (if words[k] in found then 'X' else 'O') &&
            ListOf(words, found)[off + 2..off + 2 + |words[k]|] == words[k]
  {
    var w := words[k];
    assert words == words[..k] + [w] + words[k + 1..];
    ListAround(words[..k], w, words[k + 1..], found);
    EntryBetween(ListOf(words[..k], found), w, found, ListOf(words[k + 1..], found));
  }

  // ---------------------------------------------------------------------
  // Difficulty

  function Difficulty(size: int): (r: string)
    ensures r in TIERS
  {
    if size <= 6 then "Very Easy"
    else if size <= 9 then "Easy"
    else if size <= 15 then "Medium"
    else if size <= 18 then "Hard"
    else if size <= 21 then "Very Hard"
    else "Extremely Hard"
  }

  function Rank(tier: string): nat
  {
    if tier == TIERS[0] then 0
    else if tier == TIERS[1] then 1
    else if tier == TIERS[2] then 2
    else if tier == TIERS[3] then 3
    else if tier == TIERS[4] then 4
    else 5
  }

  /** Largest side of each label but the last, in order. */
  const THRESHOLDS: seq<int> := [6, 9, 15, 18, 21]

  /** How many of the thresholds the side exceeds. */
  function Exceeded(size: int, ts: seq<int>): (n: nat)
    ensures n <= |ts|
  {
    if ts == [] then 0 else (if ts[0] < size then 1 else 0) + Exceeded(size, ts[1..])
  }

  /** The label is the tier indexed by the number of thresholds the side exceeds. */
  lemma DifficultyByThresholds(size: int)
    ensures Difficulty(size) == TIERS[Exceeded(size, THRESHOLDS)]
  {
    var t := THRESHOLDS;
    assert t[1..] == [9, 15, 18, 21] && t[1..][1..] == [15, 18, 21];
    assert Exceeded(size, [21]) == if 21 < size then 1 else 0 by {
      assert [21][1..] == [];
    }
    assert Exceeded(size, [18, 21]) == (if 18 < size then 1 else 0) + Exceeded(size, [21]) by {
      assert [18, 21][1..] == [21];
    }
    assert Exceeded(size, [15, 18, 21]) == (if 15 < size then 1 else 0) + Exceeded(size, [18, 21]) by {
      assert [15, 18, 21][1..] == [18, 21];
    }
  }

  /** A larger board never gets an easier label. */
  lemma DifficultyMonotone(a: int, b: int)
    requires a <= b
    ensures Rank(Difficulty(a)) <= Rank(Difficulty(b))
  {
  }

  // ---------------------------------------------------------------------
  // Coordinate decode

  /** Position of the first occurrence of c in s, or -1. */
  function IndexOf(s: string, c: char): (r: int)
    ensures -1 <= r < |s|
    ensures r == -1 <==> c !in s
    ensures r >= 0 ==> s[r] == c && c !in s[..r]
  {
    if s == [] then -1
    else if s[0] == c then 0
    else
      var r := IndexOf(s[1..], c);
      if r < 0 then -1 else (assert s[1..][..r] == s[1..r + 1]; r + 1)
  }

  /** A typed pair "row letter, column letter" as (column, row). */
  function Decode(pair: string): (r: (int, int))
    requires |pair| == 2
    ensures -1 <= r.0 < |ALPHA| && -1 <= r.1 < |ALPHA|
    ensures r.0 >= 0 ==> ALPHA[r.0] == pair[1]
    ensures r.1 >= 0 ==> ALPHA[r.1] == pair[0]
  {
    (IndexOf(ALPHA, pair[1]), IndexOf(ALPHA, pair[0]))
  }

  lemma AlphaOrdered()
    ensures |ALPHA| == 26
    ensures forall i :: 0 <= i < |ALPHA| ==> ALPHA[i] as int == 'A' as int + i
  {
    var a, b := "ABCDEFGHIJKLM", "NOPQRSTUVWXYZ";
    assert forall i :: 0 <= i < |a| ==> a[i] as int == 'A' as int + i;
    assert forall i :: 0 <= i < |b| ==> b[i] as int == 'N' as int + i;
    assert ALPHA == a + b;
  }

  /** Decoding the labels of row y and column x gives back (x, y). */
  lemma DecodeLabels(x: nat, y: nat)
    requires x < |ALPHA| && y < |ALPHA|
    ensures Decode([ALPHA[y], ALPHA[x]]) == (x, y)
  {
    LabelIndex(x);
    LabelIndex(y);
  }

  /** The label at position i is found at position i. */
  lemma LabelIndex(i: nat)
    requires i < |ALPHA|
    ensures IndexOf(ALPHA, ALPHA[i]) == i
  {
    AlphaOrdered();
    var r := IndexOf(ALPHA, ALPHA[i]);
    assert r >= 0;
    assert ALPHA[r] == ALPHA[i];
  }

  /** A character that is no label decodes to -1, which no board accepts. */
  lemma DecodeRejectsNonLabel(g: Board, pair: string)
    requires |pair| == 2 && (pair[0] !in ALPHA || pair[1] !in ALPHA)
    ensures !ValidAt(g, Decode(pair).0, Decode(pair).1)
  {
  }

  /** "ZZ" names the 26th row and column, off every smaller board. */
  lemma DecodeZZOffSmallBoard(g: Board)
    requires |g| < |ALPHA|
    ensures Decode("ZZ") == (25, 25)
    ensures !ValidAt(g, Decode("ZZ").0, Decode("ZZ").1)
  {
    AlphaOrdered();
    DecodeLabels(25, 25);
    assert [ALPHA[25], ALPHA[25]] == "ZZ";
  }
}
