/**
 * The text form of a board: a header line with the column numbers, then one
 * line per row with the row number and the cell values, every number
 * separated by one space and every line ended by a newline. The text can be
 * read back into the board it was written from.
 */
module Display {
  import opened Outcomes
  import opened Grids
  import opened Texts

  /** Each token followed by one space. */
  function Spaced(ts: seq<string>): string
  {
    if ts == [] then [] else ts[0] + " " + Spaced(ts[1..])
  }

  /** s[:-1]: the string without its last character; the empty string stays empty. */
  function DropLast(s: string): string
  {
    if s == [] then [] else s[..|s| - 1]
  }

  function Indices(n: nat): seq<string>
  {
    seq(n, i => Show(i))
  }

  function CellTexts(row: seq<int>): seq<string>
  {
    seq(|row|, i requires 0 <= i < |row| => Show(row[i]))
  }

  /** The column numbers after two spaces, one space apart. */
  function HeaderLine(w: nat): string
  {
    DropLast("  " + Spaced(Indices(w)))
  }

  /** The row number and the cells of the row, one space apart. */
  function RowLine(y: int, row: seq<int>): string
  {
    DropLast(Show(y) + " " + Spaced(CellTexts(row)))
  }

  /** The lines of the first n rows, each ended by a newline. */
  function RowLines(g: Grid, n: nat): string
    requires n <= |g|
  {
    if n == 0 then [] else RowLines(g, n - 1) + RowLine(n - 1, g[n - 1]) + "\n"
  }

  /** The text of a board: the header line, then the row lines. */
  function Render(g: Board): string
  {
    HeaderLine(Width(g)) + "\n" + RowLines(g, |g|)
  }

  // ---------------------------------------------------------------------------
  // Reading the text back

  /** The integers of a list of words; Err at the first word that is none. */
  function ReadInts(words: seq<string>): Result<seq<int>, string>
  {
    if words == [] then Ok([])
    else
      match ParseInt(words[0])
      case Err(e) => Err(e)
      case Ok(v) =>
        match ReadInts(words[1..])
        case Err(e) => Err(e)
        case Ok(vs) => Ok([v] + vs)
  }

  /** The cells of a row line: its words after the row number. */
  function ReadRow(line: string): Result<seq<int>, string>
  {
    ReadInts(Split(line, ' ')[1..])
  }

  function ReadRows(lines: seq<string>): Result<Grid, string>
  {
    if lines == [] then Ok([])
    else
      match ReadRow(lines[0])
      case Err(e) => Err(e)
      case Ok(row) =>
        match ReadRows(lines[1..])
        case Err(e) => Err(e)
        case Ok(rows) => Ok([row] + rows)
  }

  /** The board of a text: its lines between the header and the final newline, read as rows. */
  function ReadGrid(text: string): Result<Grid, string>
  {
    var lines := Split(text, '\n');
    if |lines| < 2 then Err(text) else ReadRows(lines[1..|lines| - 1])
  }

  // ---------------------------------------------------------------------------
  // Lemmas

  /** Appending a token to the list appends it and a space to the text. */
  lemma {:induction false} SpacedSnoc(ts: seq<string>, t: string)
    ensures Spaced(ts + [t]) == Spaced(ts) + t + " "
  {
    if ts != [] {
      assert (ts + [t])[1..] == ts[1..] + [t];
      SpacedSnoc(ts[1..], t);
    }
  }

  /** The step of a loop that appends a token and a space to a prefix and the tokens before it. */
  lemma PrefixedSnoc(pre: string, ts: seq<string>, t: string)
    ensures pre + Spaced(ts + [t]) == pre + Spaced(ts) + t + " "
  {
    SpacedSnoc(ts, t);
  }

  /** The step of the row loop: one more row line and its newline. */
  lemma RowLinesStep(pre: string, g: Grid, y: nat)
    requires y < |g|
    ensures pre + RowLines(g, y + 1) == pre + RowLines(g, y) + RowLine(y, g[y]) + "\n"
  {
  }

  /** Dropping the final space of spaced tokens leaves the tokens joined by spaces. */
  lemma {:induction false} DropLastSpaced(ts: seq<string>)
    requires ts != []
    ensures DropLast(Spaced(ts)) == Join(ts, ' ')
  {
    if |ts| > 1 {
      DropLastSpaced(ts[1..]);
      var rest := Spaced(ts[1..]);
      assert (ts[0] + " " + rest)[..|ts[0]| + 1 + |rest| - 1] == ts[0] + " " + rest[..|rest| - 1];
    }
  }

  /** A row line is the row number and the cells joined by single spaces. */
  lemma RowLineWords(y: int, row: seq<int>)
    ensures RowLine(y, row) == Join([Show(y)] + CellTexts(row), ' ')
  {
    var ts := [Show(y)] + CellTexts(row);
    assert ts[1..] == CellTexts(row);
    DropLastSpaced(ts);
  }

  /** The words of a row line are the row number and the cells. */
  lemma RowLineSplits(y: int, row: seq<int>)
    ensures Split(RowLine(y, row), ' ') == [Show(y)] + CellTexts(row)
  {
    RowLineWords(y, row);
    SplitJoin([Show(y)] + CellTexts(row), ' ');
  }

  lemma {:induction false} ReadShownInts(row: seq<int>)
    ensures ReadInts(CellTexts(row)) == Ok(row)
  {
    if row != [] {
      var ts := CellTexts(row);
      ShowParses(row[0]);
      assert ts[0] == Show(row[0]) && ts[1..] == CellTexts(row[1..]);
      ReadShownInts(row[1..]);
      assert ReadInts(ts) == Ok([row[0]] + row[1..]);
      assert [row[0]] + row[1..] == row;
    }
  }

  /** A row line reads back as its row. */
  lemma ReadRowLine(y: int, row: seq<int>)
    ensures ReadRow(RowLine(y, row)) == Ok(row)
  {
    RowLineSplits(y, row);
    assert Split(RowLine(y, row), ' ')[1..] == CellTexts(row);
    ReadShownInts(row);
  }

  /** The row lines of rows k and on, without their newlines. */
  function LinesFrom(g: Grid, k: nat): seq<string>
    requires k <= |g|
  {
    seq(|g| - k, i requires 0 <= i < |g| - k => RowLine(k + i, g[k + i]))
  }

  /** Lines whose first line reads as a row and the rest as rows read as all of them. */
  lemma ReadRowsCons(ls: seq<string>, row: seq<int>, rows: Grid)
    requires ls != [] && ReadRow(ls[0]) == Ok(row) && ReadRows(ls[1..]) == Ok(rows)
    ensures ReadRows(ls) == Ok([row] + rows)
  {
  }

  /** Row k's line reads as row k in front of whatever the later lines read as. */
  lemma ReadLinesStep(g: Grid, k: nat, rows: Grid)
    requires k < |g| && ReadRows(LinesFrom(g, k + 1)) == Ok(rows)
    ensures ReadRows(LinesFrom(g, k)) == Ok([g[k]] + rows)
  {
    LinesFromFirst(g, k);
    ReadRowLine(k, g[k]);
    ReadRowsCons(LinesFrom(g, k), g[k], rows);
  }

  /** The first row line and the row lines after it. */
  lemma LinesFromFirst(g: Grid, k: nat)
    requires k < |g|
    ensures LinesFrom(g, k)[0] == RowLine(k, g[k])
    ensures LinesFrom(g, k)[1..] == LinesFrom(g, k + 1)
  {
  }

  lemma {:induction false} ReadLinesFrom(g: Grid, k: nat)
    requires k <= |g|
    ensures ReadRows(LinesFrom(g, k)) == Ok(g[k..])
    decreases |g| - k
  {
    if k < |g| {
      ReadLinesFrom(g, k + 1);
      ReadLinesStep(g, k, g[k + 1..]);
      assert [g[k]] + g[k + 1..] == g[k..];
    } else {
      assert LinesFrom(g, k) == [] && g[k..] == [];
    }
  }

  /** Each line followed by a newline, in order. */
  function Terminated(ls: seq<string>): string
  {
    if ls == [] then [] else ls[0] + "\n" + Terminated(ls[1..])
  }

  lemma {:induction false} TerminatedSnoc(ls: seq<string>, l: string)
    ensures Terminated(ls + [l]) == Terminated(ls) + l + "\n"
  {
    if ls != [] {
      assert (ls + [l])[1..] == ls[1..] + [l];
      TerminatedSnoc(ls[1..], l);
    }
  }

  lemma {:induction false} TerminatedIsJoin(ls: seq<string>)
    ensures Join(ls + [""], '\n') == Terminated(ls)
  {
    if ls != [] {
      assert (ls + [""])[1..] == ls[1..] + [""];
      TerminatedIsJoin(ls[1..]);
    }
  }

  /** The lines of the first n rows are those of the first n - 1 rows and row n - 1's line. */
  lemma LinesFromSnoc(g: Grid, n: nat)
    requires 0 < n <= |g|
    ensures LinesFrom(g[..n], 0) == LinesFrom(g[..n - 1], 0) + [RowLine(n - 1, g[n - 1])]
  {
  }

  lemma {:induction false} RowLinesTerminated(g: Grid, n: nat)
    requires n <= |g|
    ensures RowLines(g, n) == Terminated(LinesFrom(g[..n], 0))
  {
    if n > 0 {
      RowLinesTerminated(g, n - 1);
      LinesFromSnoc(g, n);
      TerminatedSnoc(LinesFrom(g[..n - 1], 0), RowLine(n - 1, g[n - 1]));
    }
  }

  lemma {:induction false} NoNewlineSpaced(ts: seq<string>)
    requires forall i :: 0 <= i < |ts| ==> '\n' !in ts[i]
    ensures '\n' !in Spaced(ts)
  {
    if ts != [] {
      NoNewlineSpaced(ts[1..]);
    }
  }

  lemma NoNewlineInLines(g: Board)
    ensures '\n' !in HeaderLine(Width(g))
    ensures forall i :: 0 <= i < |g| ==> '\n' !in LinesFrom(g, 0)[i]
  {
    NoNewlineSpaced(Indices(Width(g)));
    forall i | 0 <= i < |g| ensures '\n' !in LinesFrom(g, 0)[i] {
      NoNewlineSpaced(CellTexts(g[i]));
    }
  }

  /** Reading the text of a board gives the board back. */
  lemma RenderReadBack(g: Board)
    ensures ReadGrid(Render(g)) == Ok(g)
  {
    var rows := LinesFrom(g, 0);
    var ls := [HeaderLine(Width(g))] + rows;
    assert g[..|g|] == g;
    RowLinesTerminated(g, |g|);
    assert Render(g) == Terminated(ls);
    TerminatedIsJoin(ls);
    NoNewlineInLines(g);
    SplitJoin(ls + [""], '\n');
    assert (ls + [""])[1..|ls|] == rows;
    ReadLinesFrom(g, 0);
  }
}
