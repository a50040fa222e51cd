/**
 * The character grid shared by the maze solver and the lake counter: a list
 * of rows, each a list of one-character cells, decoded from a multi-line
 * string. Rows may differ in length, so every bounds check uses the length of
 * the row it addresses.
 */
module Grid {
  import Text

  /** A (row, column) position. Coordinates are integers: a neighbour of an edge cell lies outside. */
  datatype Cell = Cell(row: int, column: int)

  type Grid = seq<seq<char>>

  /** A row as the decoder leaves it: non-empty, no surrounding whitespace, no line break. */
  predicate IsTrimmedRow(row: string) {
    && row != []
    && !Text.IsWhitespace(row[0])
    && !Text.IsWhitespace(row[|row| - 1])
    && '\n' !in row
  }

  /** Each line trimmed, the lines left empty dropped, the others kept in order. */
  function TrimmedRows(lines: seq<string>): (rows: Grid)
    requires forall k :: 0 <= k < |lines| ==> '\n' !in lines[k]
    ensures |rows| <= |lines|
    ensures forall k :: 0 <= k < |rows| ==> IsTrimmedRow(rows[k])
  {
    if lines == [] then []
    else
      var t := Text.Trim(lines[0]);
      assert '\n' !in t by {
        var i, j :| Text.IsCutOf(lines[0], t, i, j);
      }
      (if t == [] then [] else [t]) + TrimmedRows(lines[1..])
  }

  /** `buildMaze` / `buildGarden`: split on line breaks, trim, drop blank lines, one cell per character. */
  function BuildGrid(text: string): (g: Grid)
    ensures forall k :: 0 <= k < |g| ==> IsTrimmedRow(g[k])
  {
    TrimmedRows(Text.Split(text, '\n'))
  }

  /** Decoding the lines of a text that was written line by line keeps exactly the non-blank lines, trimmed. */
  lemma BuildGridOfLines(lines: seq<string>)
    requires |lines| >= 1
    requires forall k :: 0 <= k < |lines| ==> '\n' !in lines[k]
    ensures BuildGrid(Text.Join(lines, '\n')) == TrimmedRows(lines)
  {
    Text.SplitJoin(lines, '\n');
  }

  /** Rows that are already trimmed and non-empty come through the decoder unchanged. */
  lemma {:induction false} TrimmedRowsOfRows(rows: Grid)
    requires forall k :: 0 <= k < |rows| ==> IsTrimmedRow(rows[k])
    ensures forall k :: 0 <= k < |rows| ==> '\n' !in rows[k]
    ensures TrimmedRows(rows) == rows
  {
    if rows != [] {
      var r := rows[0];
      assert Text.LeadingSpace(r) == 0;
      assert Text.TrailingSpace(r) == 0;
      assert r[0..|r|] == r;
      TrimmedRowsOfRows(rows[1..]);
      assert [r] + rows[1..] == rows;
    }
  }

  /** Writing a decoded grid back out line by line and decoding it again gives the same grid. */
  lemma BuildGridIdempotent(text: string)
    ensures BuildGrid(Text.Join(BuildGrid(text), '\n')) == BuildGrid(text)
  {
    var g := BuildGrid(text);
    if g == [] {
      assert Text.Split("", '\n') == [""];
    } else {
      BuildGridOfLines(g);
      TrimmedRowsOfRows(g);
    }
  }

  /**
   * `isWithinMaze` / `isWithinGarden`: the four early exits of the source, in
   * order. A cell is inside exactly when its row exists and its column lies
   * inside that particular row.
   */
  function InBounds(g: Grid, c: Cell): (inside: bool)
    ensures inside <==> 0 <= c.row < |g| && 0 <= c.column < |g[c.row]|
  {
    if c.row < 0 then false
    else if c.row >= |g| then false
    else if c.column < 0 then false
    else if c.column >= |g[c.row]| then false
    else true
  }

  /** The character at an in-bounds cell. */
  function At(g: Grid, c: Cell): char
    requires InBounds(g, c)
  {
    g[c.row][c.column]
  }

  /** The cells a row-by-row, left-to-right scan has passed when it stands on row `i`, column `j`. */
  predicate Scanned(c: Cell, i: int, j: int) {
    c.row < i || (c.row == i && c.column < j)
  }

  /** Every in-bounds cell of the grid. */
  ghost function AllCells(g: Grid): (cells: set<Cell>)
    ensures forall c :: c in cells <==> InBounds(g, c)
  {
    set r, k | 0 <= r < |g| && 0 <= k < |g[r]| :: Cell(r, k)
  }

  /** A sequence of pairwise distinct cells from a finite set is no longer than the set. */
  lemma {:induction false} DistinctCellsBound(cells: seq<Cell>, universe: set<Cell>)
    requires forall i, j :: 0 <= i < j < |cells| ==> cells[i] != cells[j]
    requires forall i :: 0 <= i < |cells| ==> cells[i] in universe
    ensures |cells| <= |universe|
  {
    if cells != [] {
      DistinctCellsBound(cells[1..], universe - {cells[0]});
    }
  }
}
