/**
 * The success branch of `pollForever`: when a poll returns a non-empty
 * batch, the day, date and time labels are set from the first record's
 * timestamp and every table row below the first (the header) is replaced by
 * one rendered row per record, in batch order. An empty batch changes
 * nothing.
 */
module DepartureBoard {
  import opened Options
  import opened TimeFormat
  import opened Rows
  import opened Markup

  /** What the board shows: the three labels and the table rows, header first. */
  datatype Display = Display(day: string, date: string, time: string, table: seq<string>)

  /** One rendered row per record, in batch order. */
  function RenderAll(batch: seq<StatusRecord>, toLocal: int -> LocalMoment): (rows: seq<string>)
    ensures |rows| == |batch|
    ensures forall i :: 0 <= i < |batch| ==> rows[i] == RenderRow(batch[i], toLocal)
  {
    seq(|batch|, i requires 0 <= i < |batch| => RenderRow(batch[i], toLocal))
  }

  /** `tr:not(:first)` removed: what is left is the first row, if there is one. */
  function KeptRows(table: seq<string>): (kept: seq<string>)
    ensures |kept| == if table == [] then 0 else 1
    ensures table != [] ==> kept == [table[0]]
  {
    if table == [] then [] else table[..1]
  }

  /** The board after a successful poll that returned `batch`. */
  function Refresh(v: Display, batch: seq<StatusRecord>, toLocal: int -> LocalMoment): Display {
    if batch == [] then v
    else
      var now := toLocal(batch[0].timeStamp);
      Display(DayName(now.dayOfWeek), FormatDate(now), FormatTime(now), KeptRows(v.table) + RenderAll(batch, toLocal))
  }

  /** Every rendered row reads back as its record's six cells, when no field holds a `<`. */
  lemma RenderAllReadsBack(batch: seq<StatusRecord>, toLocal: int -> LocalMoment)
    ensures forall i :: 0 <= i < |batch| && NoAngle(batch[i]) ==>
      ParseRow(RenderAll(batch, toLocal)[i]) == Some(RowCells(batch[i], toLocal))
  {
    forall i | 0 <= i < |batch| && NoAngle(batch[i])
      ensures ParseRow(RenderAll(batch, toLocal)[i]) == Some(RowCells(batch[i], toLocal))
    {
      assert RenderAll(batch, toLocal)[i] == RenderRow(batch[i], toLocal);
    }
  }

  /**
   * Removing all rows but the first from a table that has a first row, then
   * appending any rows, and removing again, leaves that same first row.
   */
  lemma KeptRowsStable(table: seq<string>, added: seq<string>)
    requires table != []
    ensures KeptRows(KeptRows(table) + added) == KeptRows(table)
  {
    assert (KeptRows(table) + added)[0] == table[0];
  }

  /** An empty batch leaves labels and rows as they were. */
  lemma RefreshEmpty(v: Display, toLocal: int -> LocalMoment)
    ensures Refresh(v, [], toLocal) == v
  {
  }

  /**
   * After a non-empty batch the header is kept and followed by exactly one
   * rendered row per record, in batch order; nothing of the old rows is left.
   */
  lemma RefreshRows(v: Display, batch: seq<StatusRecord>, toLocal: int -> LocalMoment)
    requires batch != [] && v.table != []
    ensures var t := Refresh(v, batch, toLocal).table;
      |t| == |batch| + 1 && t[0] == v.table[0] &&
      forall i :: 0 <= i < |batch| ==> t[i + 1] == RenderRow(batch[i], toLocal)
  {
  }

  /**
   * The labels after a non-empty batch are read from the first record's
   * timestamp: each parses back to that moment's weekday, date and clock time.
   */
  lemma RefreshLabels(v: Display, batch: seq<StatusRecord>, toLocal: int -> LocalMoment)
    requires batch != []
    ensures var now := toLocal(batch[0].timeStamp);
      var w := Refresh(v, batch, toLocal);
      DayIndex(w.day) == Some(now.dayOfWeek) &&
      ParseDate(w.date) == Some((now.month, now.dayOfWeek, now.year)) &&
      ParseTime(w.time) == Some((now.hours, now.minutes))
  {
    var now := toLocal(batch[0].timeStamp);
    ParseFormatDate(now);
    ParseFormatTime(now);
  }

  /**
   * A non-empty batch replaces everything but the header: two boards with
   * the same header end up the same, whatever they showed before.
   */
  lemma RefreshForgetsPrevious(v1: Display, v2: Display, batch: seq<StatusRecord>, toLocal: int -> LocalMoment)
    requires batch != []
    requires KeptRows(v1.table) == KeptRows(v2.table)
    ensures Refresh(v1, batch, toLocal) == Refresh(v2, batch, toLocal)
  {
  }

  /** Applying the same batch twice is applying it once, on a table that has its header row. */
  lemma RefreshIdempotent(v: Display, batch: seq<StatusRecord>, toLocal: int -> LocalMoment)
    requires v.table != [] || batch == []
    ensures Refresh(Refresh(v, batch, toLocal), batch, toLocal) == Refresh(v, batch, toLocal)
  {
    if batch != [] {
      KeptRowsStable(v.table, RenderAll(batch, toLocal));
    }
  }

  /**
   * Without a header row the table becomes just the rendered rows, and the
   * first of them is taken for the header by the next refresh, so refreshing
   * twice keeps one row more than once.
   */
  lemma RefreshWithoutHeader(v: Display, batch: seq<StatusRecord>, toLocal: int -> LocalMoment)
    requires v.table == [] && batch != []
    ensures Refresh(v, batch, toLocal).table == RenderAll(batch, toLocal)
    ensures |Refresh(Refresh(v, batch, toLocal), batch, toLocal).table| == |Refresh(v, batch, toLocal).table| + 1
  {
    var w := Refresh(v, batch, toLocal);
    assert |w.table| == |batch|;
  }

  /** The board as the page shows it: three labels and the departures table. */
  class Board {
    var day: string
    var date: string
    var time: string
    var table: seq<string>

    function View(): Display
      reads this
    {
      Display(day, date, time, table)
    }

    /** The page as served: labels and table as its markup gives them. */
    constructor (day: string, date: string, time: string, table: seq<string>)
      ensures View() == Display(day, date, time, table)
    {
      this.day := day;
      this.date := date;
      this.time := time;
      this.table := table;
    }

    /**
     * The success callback of `pollForever` on a decoded batch: set the labels
     * from the first record, then replace the rows below the header.
     */
    method ApplyBatch(batch: seq<StatusRecord>, toLocal: int -> LocalMoment)
      modifies this
      ensures View() == Refresh(old(View()), batch, toLocal)
    {
      if |batch| > 0 {
        var now := toLocal(batch[0].timeStamp);
        day := DayName(now.dayOfWeek);
        date := FormatDate(now);
        time := FormatTime(now);
        var rows := RenderRows(batch, rec => RenderRow(rec, toLocal));
        assert rows == RenderAll(batch, toLocal);
        table := KeptRows(table) + rows;
      }
    }
  }

  /**
   * The loop of `pollForever` that appends one rendered row per record, in
   * batch order; `render` is the row renderer.
   */
  method RenderRows(batch: seq<StatusRecord>, render: StatusRecord -> string) returns (rows: seq<string>)
    ensures |rows| == |batch|
    ensures forall i :: 0 <= i < |batch| ==> rows[i] == render(batch[i])
  {
    rows := [];
    for i := 0 to |batch|
      invariant |rows| == i
      invariant forall j :: 0 <= j < i ==> rows[j] == render(batch[j])
    {
      rows := rows + [render(batch[i])];
    }
  }
}
