/**
 * `generateTableRow`: one train-status record as a six-cell table row.
 */
module Rows {
  import opened Options
  import opened Text
  import opened TimeFormat
  import opened Fields
  import opened Markup

  /**
   * One record of a poll batch. The two times are Unix epochs in seconds,
   * the lateness is in seconds.
   */
  datatype StatusRecord = StatusRecord(
    timeStamp: int,
    origin: string,
    trip: string,
    destination: string,
    scheduledTime: int,
    lateness: int,
    track: string,
    status: string)

  /** The classes of the six cells of a row, in display order. */
  const RowClasses: seq<string> := ["scheduled-time", "origin", "trip", "destination", "class", "status"]

  /** The cells a record is shown as: always six, classed as `RowClasses` says. */
  function RowCells(rec: StatusRecord, toLocal: int -> LocalMoment): (cs: seq<Cell>)
    ensures |cs| == 6
  {
    [Cell("scheduled-time", FormatTime(toLocal(rec.scheduledTime))),
     Cell("origin", Sanitize(rec.origin)),
     Cell("trip", Sanitize(rec.trip)),
     Cell("destination", Sanitize(rec.destination)),
     Cell("class", TrackCell(rec.track)),
     Cell("status", StatusCell(rec.status, rec.lateness))]
  }

  /**
   * `generateTableRow`: the six cells between `<tr>` and `</tr>`. `toLocal`
   * turns an epoch in seconds into the viewer's local calendar fields, as
   * `getDate` and the `Date` getters do. The row reads back as exactly its
   * six cells in order, unless a field smuggles in a `<`.
   */
  function RenderRow(rec: StatusRecord, toLocal: int -> LocalMoment): (r: string)
    ensures NoAngle(rec) ==> ParseRow(r) == Some(RowCells(rec, toLocal))
  {
    var r := RowMarkup(RowCells(rec, toLocal));
    assert NoAngle(rec) ==> ParseRow(r) == Some(RowCells(rec, toLocal)) by {
      if NoAngle(rec) {
        RowCellsReadable(rec, toLocal);
        ParseRowMarkup(RowCells(rec, toLocal));
      }
    }
    r
  }

  /** No field of the record holds a `<`, which quote stripping lets through. */
  predicate NoAngle(rec: StatusRecord) {
    '<' !in rec.origin && '<' !in rec.trip && '<' !in rec.destination && '<' !in rec.track && '<' !in rec.status
  }

  /** The cells carry the classes of `RowClasses`, in that order. */
  lemma RowCellsClasses(rec: StatusRecord, toLocal: int -> LocalMoment)
    ensures forall i :: 0 <= i < 6 ==> RowCells(rec, toLocal)[i].cls == RowClasses[i]
  {
  }

  /** No class name holds a double quote, so each closes its attribute. */
  lemma RowClassesUnquoted()
    ensures forall i :: 0 <= i < |RowClasses| ==> '"' !in RowClasses[i]
  {
  }

  lemma RowCellsReadable(rec: StatusRecord, toLocal: int -> LocalMoment)
    requires NoAngle(rec)
    ensures forall i :: 0 <= i < 6 ==> Readable(RowCells(rec, toLocal)[i])
  {
    var m := toLocal(rec.scheduledTime);
    assert '<' !in FormatTime(m) by { FormatTimeCharacters(m); }
    assert '<' !in StatusCell(rec.status, rec.lateness) by { StatusCellSanitised(rec.status, rec.lateness); }
    assert '<' !in Sanitize(rec.origin) by { SanitizeNoAngle(rec.origin); }
    assert '<' !in Sanitize(rec.trip) by { SanitizeNoAngle(rec.trip); }
    assert '<' !in Sanitize(rec.destination) by { SanitizeNoAngle(rec.destination); }
    assert '<' !in TrackCell(rec.track) by { SanitizeNoAngle(rec.track); }
    RowCellsClasses(rec, toLocal);
    RowClassesUnquoted();
  }

  /** Every cell text of a row is free of quotes and lowercase letters. */
  lemma RowCellsSanitised(rec: StatusRecord, toLocal: int -> LocalMoment)
    ensures forall i :: 0 <= i < 6 ==>
      Quote !in RowCells(rec, toLocal)[i].text && NoLower(RowCells(rec, toLocal)[i].text)
  {
    FormatTimeCharacters(toLocal(rec.scheduledTime));
    StatusCellSanitised(rec.status, rec.lateness);
  }
}
