/**
 * The export table: one record per stored interval with the columns
 * `type, start_time, end_time, start_frame, end_frame, behavior`.
 * Number formatting and the CSV/zip packaging are not part of this model.
 */
module Export {
  import opened IntervalStore

  /** One row of the table; `kind` is the `type` column, always "interval". */
  datatype Row = Row(kind: string, startTime: real, endTime: real, startFrame: int, endFrame: int, behavior: string)

  /** The record of one interval: it carries everything the interval holds except the `auto` flag. */
  function RowOf(iv: Interval): (row: Row)
    ensures row.kind == "interval"
    ensures FromRow(row) == iv.(auto := false)
  {
    Row("interval", iv.startTime, iv.endTime, iv.start, iv.end, iv.behavior)
  }

  /** The table body, in stored order (not the on-screen order). */
  function Rows(s: seq<Interval>): (rows: seq<Row>)
    ensures |rows| == |s|
    ensures forall i :: 0 <= i < |s| ==> rows[i] == RowOf(s[i])
  {
    if s == [] then [] else [RowOf(s[0])] + Rows(s[1..])
  }

  /** Reads an exported row back as a manually entered interval. */
  function FromRow(row: Row): Interval
  {
    Interval(row.startFrame, row.endFrame, row.startTime, row.endTime, row.behavior, false)
  }

  function FromRows(rows: seq<Row>): (s: seq<Interval>)
    ensures |s| == |rows|
    ensures forall i :: 0 <= i < |rows| ==> s[i] == FromRow(rows[i])
  {
    if rows == [] then [] else [FromRow(rows[0])] + FromRows(rows[1..])
  }

  /** The table loses nothing: reading it back gives the store, since no stored interval is automatic. */
  lemma {:induction false} ExportRoundTrip(s: seq<Interval>)
    requires forall i :: 0 <= i < |s| ==> !s[i].auto
    ensures FromRows(Rows(s)) == s
  {
    if s != [] {
      ExportRoundTrip(s[1..]);
      assert Rows(s) == [RowOf(s[0])] + Rows(s[1..]);
      var rows := Rows(s);
      assert rows[0] == RowOf(s[0]) && rows[1..] == Rows(s[1..]);
      assert FromRow(RowOf(s[0])) == s[0];
    }
  }

  /** Exporting after an append gives the old table plus one row for the new interval. */
  lemma {:induction false} RowsAppend(s: seq<Interval>, iv: Interval)
    ensures Rows(s + [iv]) == Rows(s) + [RowOf(iv)]
  {
    if s != [] {
      assert (s + [iv])[1..] == s[1..] + [iv];
      RowsAppend(s[1..], iv);
    }
  }

  /** Exporting after a relabel changes only the behaviour column of that one row. */
  lemma {:induction false} RowsRelabel(s: seq<Interval>, idx: int, b: string)
    requires 0 <= idx < |s|
    ensures Rows(Relabel(s, idx, b)) == Rows(s)[idx := RowOf(s[idx]).(behavior := b)]
  {
    var r := Relabel(s, idx, b);
    var lhs := Rows(r);
    var rhs := Rows(s)[idx := RowOf(s[idx]).(behavior := b)];
    assert |lhs| == |rhs|;
    forall i | 0 <= i < |s| ensures lhs[i] == rhs[i] {
      if i == idx {
        assert lhs[i] == RowOf(r[i]);
      } else {
        assert lhs[i] == RowOf(r[i]) && r[i] == s[i];
      }
    }
  }
}
