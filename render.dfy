/** The text of a board (`Board.__str__`). */
module Render {
  import opened Dots
  import opened Numerals

  /** The fixed column header; it names six columns whatever the board size. */
  const HEADER: string := "  | 1 | 2 | 3 | 4 | 5 | 6 |"
  const SEP: string := " | "

  /** One-character cells with `sep` between each two of them. */
  function Join(cells: seq<char>, sep: string): string {
    if cells == [] then ""
    else if |cells| == 1 then [cells[0]]
    else Join(cells[..|cells| - 1], sep) + sep + [cells[|cells| - 1]]
  }

  /** `' | '.join(row)`: cell `j` sits at position `4 * j` with the separator after it, except
      after the last cell, and the text is `4 * |cells| - 3` characters long. */
  lemma {:induction false} JoinCells(cells: seq<char>)
    requires |cells| > 0
    ensures |Join(cells, SEP)| == 4 * |cells| - 3
    ensures forall j :: 0 <= j < |cells| ==>
              Join(cells, SEP)[4 * j] == cells[j] &&
              (j < |cells| - 1 ==> Join(cells, SEP)[4 * j + 1..4 * j + 4] == SEP)
  {
    var m := |cells| - 1;
    if m > 0 {
      var pre := cells[..m];
      JoinCells(pre);
      var jp := Join(pre, SEP);
      var js := Join(cells, SEP);
      assert js == jp + SEP + [cells[m]];
      forall j | 0 <= j < |cells|
        ensures js[4 * j] == cells[j]
        ensures j < |cells| - 1 ==> js[4 * j + 1..4 * j + 4] == SEP
      {
        if j < m {
          assert pre[j] == cells[j];
          assert js[4 * j] == jp[4 * j];
          if j < m - 1 {
            assert js[4 * j + 1..4 * j + 4] == jp[4 * j + 1..4 * j + 4];
          } else {
            assert js[4 * j + 1..4 * j + 4] == SEP;
          }
        }
      }
    }
  }

  /** The text of row `i`: a newline, the 1-based row number, then each cell framed by bars. */
  function Line(i: nat, row: seq<char>): string {
    "\n" + Decimal(i + 1) + SEP + Join(row, SEP) + " |"
  }

  /** A row's line reads back: a newline, the 1-based row number, the separator, the joined
      cells and the closing bar. */
  lemma LineParts(i: nat, row: seq<char>)
    ensures var n, l := |Decimal(i + 1)|, Line(i, row);
            |l| == n + |Join(row, SEP)| + 6 &&
            l[0] == '\n' &&
            IsDigits(l[1..n + 1]) && Value(l[1..n + 1]) == i + 1 &&
            l[n + 1..n + 4] == SEP &&
            l[n + 4..|l| - 2] == Join(row, SEP) &&
            l[|l| - 2..] == " |"
  {
    var n, l := |Decimal(i + 1)|, Line(i, row);
    ValueOfDecimal(i + 1);
    assert l[1..n + 1] == Decimal(i + 1);
  }

  /** The lines of the rows, row 0 first. */
  function Lines(rows: seq<seq<char>>): string {
    if rows == [] then "" else Lines(rows[..|rows| - 1]) + Line(|rows| - 1, rows[|rows| - 1])
  }

  /** One more row adds its line at the end. */
  lemma LinesStep(rows: seq<seq<char>>, i: nat)
    requires i < |rows|
    ensures Lines(rows[..i + 1]) == Lines(rows[..i]) + Line(i, rows[i])
  {
    assert rows[..i + 1][..i] == rows[..i];
  }

  /** Every ship glyph of `s` replaced by the empty glyph. */
  function Conceal(s: string): string {
    seq(|s|, i requires 0 <= i < |s| => if s[i] == SHIP then EMPTY else s[i])
  }

  /** Hiding keeps the length, leaves no ship glyph, changes a text without ships not at all,
      and so hiding twice is hiding once. */
  lemma ConcealIdempotent(s: string)
    ensures |Conceal(s)| == |s| && SHIP !in Conceal(s)
    ensures SHIP !in s ==> Conceal(s) == s
    ensures Conceal(Conceal(s)) == Conceal(s)
  {
    assert SHIP !in s ==> forall i :: 0 <= i < |s| ==> Conceal(s)[i] == s[i];
  }

  /** The whole text: header, one line per row, with the ship glyph hidden when `hid` is set. */
  function Show(rows: seq<seq<char>>, hid: bool): string {
    var raw := HEADER + Lines(rows);
    if hid then Conceal(raw) else raw
  }

  /** The text always starts with the header. */
  lemma ShowStartsWithHeader(rows: seq<seq<char>>, hid: bool)
    ensures |Show(rows, hid)| >= |HEADER| && Show(rows, hid)[..|HEADER|] == HEADER
  {
    var raw := HEADER + Lines(rows);
    assert raw[..|HEADER|] == HEADER;
    if hid {
      assert forall i :: 0 <= i < |HEADER| ==> HEADER[i] != SHIP;
      assert Conceal(raw)[..|HEADER|] == HEADER;
    }
  }

  /** Hiding turns exactly the ship glyphs into the empty glyph and leaves every other character,
      the hit and miss markers included, where it was; no ship glyph remains. */
  lemma ShowHidesOnlyShips(rows: seq<seq<char>>)
    ensures |Show(rows, true)| == |Show(rows, false)|
    ensures forall i :: 0 <= i < |Show(rows, true)| ==>
              Show(rows, true)[i] == if Show(rows, false)[i] == SHIP then EMPTY else Show(rows, false)[i]
    ensures SHIP !in Show(rows, true)
  {
  }

  /** The number of newline characters. */
  function NewLines(s: string): nat {
    if s == [] then 0 else NewLines(s[..|s| - 1]) + (if s[|s| - 1] == '\n' then 1 else 0)
  }

  lemma {:induction false} NewLinesAppend(a: string, b: string)
    ensures NewLines(a + b) == NewLines(a) + NewLines(b)
    decreases |b|
  {
    if b == [] {
      assert a + b == a;
    } else {
      var n := |b| - 1;
      NewLinesAppend(a, b[..n]);
      assert (a + b)[..|a + b| - 1] == a + b[..n];
    }
  }

  /** A text without newlines. */
  predicate OneLine(s: string) {
    forall i :: 0 <= i < |s| ==> s[i] != '\n'
  }

  lemma {:induction false} NewLinesNone(s: string)
    requires OneLine(s)
    ensures NewLines(s) == 0
  {
    if s != [] {
      NewLinesNone(s[..|s| - 1]);
    }
  }

  lemma {:induction false} JoinOneLine(cells: seq<char>, sep: string)
    requires OneLine(cells) && OneLine(sep)
    ensures OneLine(Join(cells, sep))
  {
    if |cells| > 1 {
      JoinOneLine(cells[..|cells| - 1], sep);
    }
  }

  /** When no cell is a newline, the text has one line per row after the header: exactly as many
      newline characters as rows. */
  lemma {:induction false} ShowLineCount(rows: seq<seq<char>>, hid: bool)
    requires forall i :: 0 <= i < |rows| ==> OneLine(rows[i])
    ensures NewLines(Show(rows, hid)) == |rows|
  {
    LinesCount(rows);
    NewLinesNone(HEADER);
    NewLinesAppend(HEADER, Lines(rows));
    if hid {
      var raw := HEADER + Lines(rows);
      ConcealKeepsNewLines(raw);
    }
  }

  lemma {:induction false} LinesCount(rows: seq<seq<char>>)
    requires forall i :: 0 <= i < |rows| ==> OneLine(rows[i])
    ensures NewLines(Lines(rows)) == |rows|
  {
    if rows != [] {
      var n := |rows| - 1;
      LinesCount(rows[..n]);
      NewLinesAppend(Lines(rows[..n]), Line(n, rows[n]));
      LineCount(n, rows[n]);
    }
  }

  /** Each row's text starts with the one newline it holds. */
  lemma LineCount(i: nat, row: seq<char>)
    requires OneLine(row)
    ensures NewLines(Line(i, row)) == 1
  {
    var rest := Decimal(i + 1) + SEP + Join(row, SEP) + " |";
    JoinOneLine(row, SEP);
    assert OneLine(rest);
    NewLinesNone(rest);
    assert Line(i, row) == "\n" + rest;
    NewLinesAppend("\n", rest);
  }

  lemma {:induction false} ConcealKeepsNewLines(s: string)
    ensures NewLines(Conceal(s)) == NewLines(s)
  {
    if s != [] {
      var n := |s| - 1;
      ConcealKeepsNewLines(s[..n]);
      assert Conceal(s)[..n] == Conceal(s[..n]);
    }
  }
}
