/** The text `Display` writes for a board: one glyph per cell, row by row,
    each row closed by a newline. A parser for that text shows that the
    rendering loses nothing: every grid of cells is read back from it. */
module Render {
  import opened Options
  import opened Neighbours

  /** What one cell of the board shows. */
  datatype Cell = Flagged | Hidden | Bomb | Count(n: u8)

  const FLAG_MARK: char := '\U{1F6A9}'
  const HIDDEN_MARK: char := '\U{1F7EA}'
  const BOMB_MARK: char := '\U{1F4A3}'

  function Digit(d: nat): (c: char)
    requires d < 10
    ensures '0' <= c <= '9' && c as int - '0' as int == d
  {
    ('0' as int + d) as char
  }

  /** The number a string of decimal digits denotes, most significant first. */
  function Value(s: string): int
  {
    if s == [] then 0 else Value(s[..|s| - 1]) * 10 + (s[|s| - 1] as int - '0' as int)
  }

  /** Rust's `{}` formatting of an unsigned number: its decimal digits,
      without leading zeros. */
  function Decimal(n: nat): (s: string)
    ensures |s| >= 1 && forall i :: 0 <= i < |s| ==> '0' <= s[i] <= '9'
    ensures Value(s) == n
    ensures |s| > 1 ==> s[0] != '0'
    ensures n < 10 <==> |s| == 1
  {
    if n < 10 then [Digit(n)]
    else
      var front, last := Decimal(n / 10), Digit(n % 10);
      assert (front + [last])[..|front|] == front;
      front + [last]
  }

  /** The text of one cell: a mark and a space, or the count and two spaces. */
  function Glyph(c: Cell): (s: string)
    ensures |s| >= 2 && s[0] != '\n' && s[|s| - 1] == ' '
  {
    match c
    case Flagged => [FLAG_MARK, ' ']
    case Hidden => [HIDDEN_MARK, ' ']
    case Bomb => [BOMB_MARK, ' ']
    case Count(n) => Decimal(n as nat) + "  "
  }

  /** What a glyph says: the flag, the hidden mark and the bomb are each
      told apart by the first character and followed by one space; a count
      is the decimal digits of its value followed by two spaces. */
  lemma GlyphShape(c: Cell)
    ensures Glyph(c)[0] == FLAG_MARK <==> c == Flagged
    ensures Glyph(c)[0] == HIDDEN_MARK <==> c == Hidden
    ensures Glyph(c)[0] == BOMB_MARK <==> c == Bomb
    ensures !c.Count? ==> Glyph(c) == [Glyph(c)[0], ' ']
    ensures c.Count? ==> Glyph(c) == Decimal(c.n as nat) + "  " && Value(Decimal(c.n as nat)) == c.n as int
  {
    if c.Count? {
      var d := Decimal(c.n as nat);
      assert Glyph(c)[0] == d[0];
    }
  }

  function RowText(row: seq<Cell>): string
  {
    if row == [] then "" else Glyph(row[0]) + RowText(row[1..])
  }

  /** The whole view: every row's glyphs followed by a newline. */
  function Text(rows: seq<seq<Cell>>): string
  {
    if rows == [] then "" else RowText(rows[0]) + "\n" + Text(rows[1..])
  }

  lemma {:induction false} RowTextSnoc(row: seq<Cell>, c: Cell)
    ensures RowText(row + [c]) == RowText(row) + Glyph(c)
  {
    if row != [] {
      assert (row + [c])[1..] == row[1..] + [c];
      RowTextSnoc(row[1..], c);
    } else {
      assert [c][1..] == [];
    }
  }

  lemma {:induction false} TextSnoc(rows: seq<seq<Cell>>, row: seq<Cell>)
    ensures Text(rows + [row]) == Text(rows) + RowText(row) + "\n"
  {
    if rows != [] {
      var all := rows + [row];
      assert all[0] == rows[0];
      assert all[1..] == rows[1..] + [row];
      TextSnoc(rows[1..], row);
      calc {
        Text(all);
        RowText(rows[0]) + "\n" + Text(rows[1..] + [row]);
        RowText(rows[0]) + "\n" + (Text(rows[1..]) + RowText(row) + "\n");
      }
    } else {
      assert [row][1..] == [];
    }
  }

  /** The text of the first `x + 1` cells extends that of the first `x`. */
  lemma RowTextPrefixStep(row: seq<Cell>, x: nat)
    requires x < |row|
    ensures RowText(row[..x + 1]) == RowText(row[..x]) + Glyph(row[x])
  {
    RowTextSnoc(row[..x], row[x]);
    assert row[..x + 1] == row[..x] + [row[x]];
  }

  /** The text of the first `y + 1` rows extends that of the first `y`. */
  lemma TextPrefixStep(rows: seq<seq<Cell>>, y: nat)
    requires y < |rows|
    ensures Text(rows[..y + 1]) == Text(rows[..y]) + RowText(rows[y]) + "\n"
  {
    TextSnoc(rows[..y], rows[y]);
    assert rows[..y + 1] == rows[..y] + [rows[y]];
  }

  // ---------------------------------------------------------------------------
  // Reading the text back
  // ---------------------------------------------------------------------------

  function ParseCell(s: string): (r: Option<(Cell, string)>)
    ensures r.Some? ==> |r.value.1| < |s|
  {
    if |s| >= 2 && s[1] == ' ' && s[0] == FLAG_MARK then Some((Flagged, s[2..]))
    else if |s| >= 2 && s[1] == ' ' && s[0] == HIDDEN_MARK then Some((Hidden, s[2..]))
    else if |s| >= 2 && s[1] == ' ' && s[0] == BOMB_MARK then Some((Bomb, s[2..]))
    else if |s| >= 3 && '0' <= s[0] <= '9' && s[1] == ' ' && s[2] == ' ' then
      Some((Count((s[0] as int - '0' as int) as u8), s[3..]))
    else None
  }

  /** The cells of one line and the text after its newline. */
  function ParseRow(s: string): (r: Option<(seq<Cell>, string)>)
    ensures r.Some? ==> |r.value.1| < |s|
    decreases |s|
  {
    if |s| == 0 then None
    else if s[0] == '\n' then Some(([], s[1..]))
    else match ParseCell(s)
      case None => None
      case Some((c, rest)) =>
        match ParseRow(rest)
        case None => None
        case Some((cells, after)) => Some(([c] + cells, after))
  }

  function ParseText(s: string): (r: Option<seq<seq<Cell>>>)
    decreases |s|
  {
    if |s| == 0 then Some([])
    else match ParseRow(s)
      case None => None
      case Some((row, rest)) =>
        match ParseText(rest)
        case None => None
        case Some(rows) => Some([row] + rows)
  }

  /** Every count is a single digit, as every adjacent-mine count is. */
  predicate SingleDigits(rows: seq<seq<Cell>>)
  {
    forall y, x :: 0 <= y < |rows| && 0 <= x < |rows[y]| && rows[y][x].Count? ==> rows[y][x].n < 10
  }

  lemma ParseGlyph(c: Cell, t: string)
    requires c.Count? ==> c.n < 10
    ensures ParseCell(Glyph(c) + t) == Some((c, t))
  {
    var s := Glyph(c) + t;
    match c
    case Count(n) =>
      assert s == [Digit(n as nat), ' ', ' '] + t;
      assert s[3..] == t;
    case _ =>
      assert s[2..] == t;
  }

  lemma {:induction false} ParseRowText(row: seq<Cell>, t: string)
    requires forall x :: 0 <= x < |row| && row[x].Count? ==> row[x].n < 10
    ensures ParseRow(RowText(row) + "\n" + t) == Some((row, t))
  {
    var s := RowText(row) + "\n" + t;
    if row == [] {
      assert s == "\n" + t;
      assert s[1..] == t;
    } else {
      var rest := RowText(row[1..]) + "\n" + t;
      assert s == Glyph(row[0]) + rest;
      ParseGlyph(row[0], rest);
      ParseRowText(row[1..], t);
      assert [row[0]] + row[1..] == row;
    }
  }

  /** The text of a grid whose counts are single digits reads back as that
      grid: rows in order, cells in order, nothing lost or added. */
  lemma {:induction false} TextRoundTrip(rows: seq<seq<Cell>>)
    requires SingleDigits(rows)
    ensures ParseText(Text(rows)) == Some(rows)
  {
    if rows != [] {
      var s := Text(rows);
      assert forall x :: 0 <= x < |rows[0]| && rows[0][x].Count? ==> rows[0][x].n < 10;
      ParseRowText(rows[0], Text(rows[1..]));
      assert SingleDigits(rows[1..]) by {
        forall y, x | 0 <= y < |rows[1..]| && 0 <= x < |rows[1..][y]| && rows[1..][y][x].Count?
          ensures rows[1..][y][x].n < 10
        {
          assert rows[1..][y] == rows[y + 1];
        }
      }
      TextRoundTrip(rows[1..]);
      assert [rows[0]] + rows[1..] == rows;
    }
  }
}
