/**
 * The table-row markup `generateTableRow` concatenates: `<tr>`, then for
 * each cell `<td class="CLASS">TEXT</td>`, then `</tr>`; and a reader that
 * takes such markup back apart into its cells.
 */
module Markup {
  import opened Options
  import opened Text

  /** One `<td>` cell: its class attribute and its text. */
  datatype Cell = Cell(cls: string, text: string)

  const OpenCell: string := "<td class=\""
  const EndClass: string := "\">"
  const CloseCell: string := "</td>"

  /** The markup of cell `c`, followed by `rest`. */
  function CellMarkup(c: Cell, rest: string): string {
    OpenCell + (c.cls + (EndClass + (c.text + (CloseCell + rest))))
  }

  /** The markup of the cells `cs` in order, followed by `rest`. */
  function CellsMarkup(cs: seq<Cell>, rest: string): string {
    if cs == [] then rest else CellMarkup(cs[0], CellsMarkup(cs[1..], rest))
  }

  /** A whole row: the cells between `<tr>` and `</tr>`. */
  function RowMarkup(cs: seq<Cell>): string {
    "<tr>" + CellsMarkup(cs, "</tr>")
  }

  /** Reads one cell off the front of `s`, with what follows it. */
  function ParseCell(s: string): (r: Option<(Cell, string)>)
    ensures r.Some? ==> |r.value.1| < |s|
  {
    if StartsWith(s, OpenCell) then
      var r1 := s[|OpenCell|..];
      var q := IndexOf(r1, '"');
      var r2 := r1[q..];
      if StartsWith(r2, EndClass) then
        var r3 := r2[|EndClass|..];
        var t := IndexOf(r3, '<');
        var r4 := r3[t..];
        if StartsWith(r4, CloseCell) then Some((Cell(r1[..q], r3[..t]), r4[|CloseCell|..]))
        else None
      else None
    else None
  }

  /** Reads a sequence of cells ending in `</tr>`. */
  function ParseCells(s: string): Option<seq<Cell>>
    decreases |s|
  {
    if s == "</tr>" then Some([])
    else match ParseCell(s)
      case None => None
      case Some((c, rest)) =>
        match ParseCells(rest)
        case None => None
        case Some(cs) => Some([c] + cs)
  }

  function ParseRow(s: string): Option<seq<Cell>> {
    if StartsWith(s, "<tr>") then ParseCells(s[4..]) else None
  }

  /** A cell reads back unambiguously when its class has no `"` and its text no `<`. */
  predicate Readable(c: Cell) {
    '"' !in c.cls && '<' !in c.text
  }

  lemma ParseCellMarkup(c: Cell, tail: string)
    requires Readable(c)
    ensures ParseCell(CellMarkup(c, tail)) == Some((c, tail))
  {
    var r4 := CloseCell + tail;
    var r3 := c.text + r4;
    var r2 := EndClass + r3;
    var r1 := c.cls + r2;
    DropPrefix(OpenCell, r1);
    SplitAtFirst(c.cls, '"', r2);
    DropPrefix(EndClass, r3);
    SplitAtFirst(c.text, '<', r4);
    DropPrefix(CloseCell, tail);
  }

  lemma {:induction false} ParseCellsMarkup(cs: seq<Cell>)
    requires forall i :: 0 <= i < |cs| ==> Readable(cs[i])
    ensures ParseCells(CellsMarkup(cs, "</tr>")) == Some(cs)
  {
    if cs != [] {
      var tail := CellsMarkup(cs[1..], "</tr>");
      ParseCellMarkup(cs[0], tail);
      DropPrefix(OpenCell, cs[0].cls + (EndClass + (cs[0].text + (CloseCell + tail))));
      ParseCellsMarkup(cs[1..]);
      assert [cs[0]] + cs[1..] == cs;
    }
  }

  /** A row of readable cells reads back as exactly those cells, in order. */
  lemma ParseRowMarkup(cs: seq<Cell>)
    requires forall i :: 0 <= i < |cs| ==> Readable(cs[i])
    ensures ParseRow(RowMarkup(cs)) == Some(cs)
  {
    ParseCellsMarkup(cs);
    DropPrefix("<tr>", CellsMarkup(cs, "</tr>"));
  }
}
