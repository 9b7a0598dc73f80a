/**
 The Training Status page: the attendance records of one training are
 pivoted into a participant-by-date table of present/absent marks.
 */
module StatusReport {
  import opened Records

  /** A table cell: "P" (present) or "A" (absent). */
  datatype Mark = P | A

  /** What the status page shows for a training. */
  datatype Report =
    | NotSelected                                            // the selection is empty text: nothing is shown
    | UnknownTraining                                        // no training document has the name
    | NoRecords                                              // "No attendance records available."
    | Table(dates: seq<Date>, rows: map<string, map<Date, Mark>>)
    | MissingRow(participant: string)                        // the lookup of a row that is not there fails

  /** The attendance records of one training, in the order the collection
      returns them (insertion order). */
  function RecordsFor(rs: seq<AttendanceRecord>, name: string): (fetched: seq<AttendanceRecord>)
    ensures forall x :: x in fetched <==> x in rs && x.training == name
    ensures |fetched| <= |rs|
  {
    if rs == [] then []
    else (if rs[0].training == name then [rs[0]] else []) + RecordsFor(rs[1..], name)
  }

  /** A record inserted after all others is fetched after all others. */
  lemma {:induction false} RecordsForAppend(rs: seq<AttendanceRecord>, x: AttendanceRecord, name: string)
    ensures RecordsFor(rs + [x], name) ==
      RecordsFor(rs, name) + (if x.training == name then [x] else [])
  {
    if rs != [] {
      assert (rs + [x])[1..] == rs[1..] + [x];
      RecordsForAppend(rs[1..], x, name);
    }
  }

  // ---------------------------------------------------------------------------
  // The date axis: the sorted set of the records' dates

  predicate Ascending(xs: seq<Date>)
  {
    forall i, j :: 0 <= i < j < |xs| ==> xs[i] < xs[j]
  }

  /** The dates that occur in at least one record. */
  function RecordDates(rs: seq<AttendanceRecord>): set<Date>
  {
    set i | 0 <= i < |rs| :: rs[i].date
  }

  /** Inserts a date into a strictly ascending sequence, keeping it so. */
  function InsertDate(xs: seq<Date>, d: Date): (r: seq<Date>)
    requires Ascending(xs)
    ensures Ascending(r)
    ensures forall x :: x in r <==> x in xs || x == d
  {
    if xs == [] then [d]
    else if d < xs[0] then [d] + xs
    else if d == xs[0] then xs
    else
      var rest := InsertDate(xs[1..], d);
      assert forall x :: x in xs <==> x == xs[0] || x in xs[1..];
      assert forall k :: 0 <= k < |rest| ==> xs[0] < rest[k] by {
        forall k | 0 <= k < |rest| ensures xs[0] < rest[k] {
          assert rest[k] in rest;
          if rest[k] != d {
            assert rest[k] in xs[1..];
            var j :| 0 <= j < |xs[1..]| && xs[1..][j] == rest[k];
            assert xs[j + 1] == rest[k];
          }
        }
      }
      [xs[0]] + rest
  }

  /** The column axis of the table: every record date once, in ascending order. */
  function DateAxis(rs: seq<AttendanceRecord>): (axis: seq<Date>)
    ensures Ascending(axis) && NoDuplicates(axis)
    ensures Elements(axis) == RecordDates(rs)
  {
    if rs == [] then []
    else
      var tail := DateAxis(rs[1..]);
      assert RecordDates(rs) == {rs[0].date} + RecordDates(rs[1..]) by {
        forall d | d in RecordDates(rs) ensures d in {rs[0].date} + RecordDates(rs[1..]) {
          var i :| 0 <= i < |rs| && rs[i].date == d;
          if i > 0 { assert rs[1..][i - 1] == rs[i]; }
        }
        forall d | d in RecordDates(rs[1..]) ensures d in RecordDates(rs) {
          var i :| 0 <= i < |rs[1..]| && rs[1..][i].date == d;
          assert rs[i + 1] == rs[1..][i];
        }
      }
      InsertDate(tail, rs[0].date)
  }

  // ---------------------------------------------------------------------------
  // What a cell holds: the last record, in fetch order, that names the participant on the date

  /** The record `r` sets the cell of participant p on date d. */
  predicate Writes(r: AttendanceRecord, p: string, d: Date)
  {
    r.date == d && p in r.attendance
  }

  /** The status flag of the last record among rs that writes (p, d), if any. */
  function LastWrite(rs: seq<AttendanceRecord>, p: string, d: Date): Option<bool>
  {
    if rs == [] then None
    else if Writes(rs[|rs| - 1], p, d) then Some(rs[|rs| - 1].attendance[p])
    else LastWrite(rs[..|rs| - 1], p, d)
  }

  function CellOf(rs: seq<AttendanceRecord>, p: string, d: Date): Mark
  {
    if LastWrite(rs, p, d) == Some(true) then P else A
  }

  /** The table that the records rs produce over the given roster and axis. */
  function Grid(roster: seq<string>, dates: seq<Date>, rs: seq<AttendanceRecord>): map<string, map<Date, Mark>>
  {
    map p | p in roster :: Row(dates, rs, p)
  }

  /** The row of participant p. */
  function Row(dates: seq<Date>, rs: seq<AttendanceRecord>, p: string): map<Date, Mark>
  {
    map d | d in dates :: CellOf(rs, p, d)
  }

  /** The table before any record is applied: one row per roster participant,
      one cell per axis date, every cell absent. */
  function InitialTable(roster: seq<string>, dates: seq<Date>): (t: map<string, map<Date, Mark>>)
    ensures t.Keys == Elements(roster)
    ensures forall p :: p in t ==> t[p].Keys == Elements(dates)
    ensures forall p, d :: p in t && d in t[p] ==> t[p][d] == A
  {
    map p | p in roster :: map d | d in dates :: A
  }

  /** Every participant any record names has a row. */
  predicate AllRostered(roster: seq<string>, rs: seq<AttendanceRecord>)
  {
    forall i, p :: 0 <= i < |rs| && p in rs[i].attendance ==> p in roster
  }

  /** What the pivot of `records` over `roster` produces. */
  predicate Pivoted(roster: seq<string>, records: seq<AttendanceRecord>, r: Report)
  {
    && (r.NoRecords? <==> records == [])
    && (r.Table? <==> records != [] && AllRostered(roster, records))
    && (r.MissingRow? <==> records != [] && !AllRostered(roster, records))
    && (r.Table? ==> r.dates == DateAxis(records) && r.rows == Grid(roster, r.dates, records))
    && (r.MissingRow? ==>
          r.participant !in roster &&
          exists i :: 0 <= i < |records| && r.participant in records[i].attendance
                      && AllRostered(roster, records[..i]))
  }

  function MarkOf(present: bool): Mark
  {
    if present then P else A
  }

  /** The table after one record has overwritten, on its date, the cells of the
      participants it names. */
  function Overwrite(table: map<string, map<Date, Mark>>, rec: AttendanceRecord): map<string, map<Date, Mark>>
  {
    map p | p in table :: if p in rec.attendance then table[p][rec.date := MarkOf(rec.attendance[p])] else table[p]
  }

  /** Applying the next record in fetch order to the table of the records before
      it gives the table of the longer prefix. */
  lemma GridStep(roster: seq<string>, dates: seq<Date>, rs: seq<AttendanceRecord>, rec: AttendanceRecord)
    requires rec.date in dates
    ensures Overwrite(Grid(roster, dates, rs), rec) == Grid(roster, dates, rs + [rec])
  {
    var before, after := Grid(roster, dates, rs), Grid(roster, dates, rs + [rec]);
    forall p | p in roster ensures Overwrite(before, rec)[p] == after[p] {
      RowStep(dates, rs, rec, p);
    }
  }

  lemma RowStep(dates: seq<Date>, rs: seq<AttendanceRecord>, rec: AttendanceRecord, p: string)
    requires rec.date in dates
    ensures Row(dates, rs + [rec], p) ==
      if p in rec.attendance then Row(dates, rs, p)[rec.date := MarkOf(rec.attendance[p])] else Row(dates, rs, p)
  {
    assert (rs + [rec])[..|rs|] == rs;
    forall d | d in dates
      ensures CellOf(rs + [rec], p, d) == if Writes(rec, p, d) then MarkOf(rec.attendance[p]) else CellOf(rs, p, d)
    {
    }
  }

  /** The table built before the loop is the table of no records at all. */
  lemma InitialIsEmptyGrid(roster: seq<string>, dates: seq<Date>)
    ensures InitialTable(roster, dates) == Grid(roster, dates, [])
  {
    forall p | p in roster ensures InitialTable(roster, dates)[p] == Row(dates, [], p) {
    }
  }

  /** The inner loop of the pivot: one record overwrites the cells of the
      participants it names; a name without a row stops it. */
  method ApplyRecord(table: map<string, map<Date, Mark>>, rec: AttendanceRecord)
    returns (ok: bool, stray: string, updated: map<string, map<Date, Mark>>)
    ensures ok <==> rec.attendance.Keys <= table.Keys
    ensures !ok ==> stray in rec.attendance && stray !in table
    ensures ok ==> updated == Overwrite(table, rec)
  {
    updated := table;
    var pending := rec.attendance.Keys;
    while pending != {}
      invariant pending <= rec.attendance.Keys
      invariant rec.attendance.Keys - pending <= table.Keys
      invariant updated.Keys == table.Keys
      invariant forall p :: p in updated ==>
        updated[p] == (if p in rec.attendance && p !in pending then table[p][rec.date := MarkOf(rec.attendance[p])] else table[p])
      decreases pending
    {
      var p :| p in pending;
      if p !in updated {
        return false, p, updated;
      }
      updated := updated[p := updated[p][rec.date := MarkOf(rec.attendance[p])]];
      pending := pending - {p};
    }
    ok, stray := true, "";
  }

  /** The status-page pivot: start with every cell absent, then let each record,
      in fetch order, overwrite the cells of the participants it names. A record
      that names a participant without a row stops the page; the participant
      reported comes from the first such record. */
  method Pivot(roster: seq<string>, records: seq<AttendanceRecord>) returns (r: Report)
    ensures Pivoted(roster, records, r)
  {
    if records == [] {
      return NoRecords;
    }
    var dates := DateAxis(records);
    var table := InitialTable(roster, dates);
    InitialIsEmptyGrid(roster, dates);
    assert records[..0] == [];
    for i := 0 to |records|
      invariant table == Grid(roster, dates, records[..i])
      invariant AllRostered(roster, records[..i])
    {
      var rec := records[i];
      assert records[..i + 1] == records[..i] + [rec];
      assert rec.date in Elements(dates) by { assert rec.date in RecordDates(records); }
      var ok, stray, next := ApplyRecord(table, rec);
      if !ok {
        return MissingRow(stray);
      }
      GridStep(roster, dates, records[..i], rec);
      table := next;
      assert AllRostered(roster, records[..i + 1]) by {
        forall j | 0 <= j < i + 1 ensures records[j].attendance.Keys <= Elements(roster) {
          if j < i { assert records[j] == records[..i][j]; }
        }
      }
    }
    assert records[..|records|] == records;
    r := Table(dates, table);
  }

  // ---------------------------------------------------------------------------
  // Properties of the table

  /** Record i is the last one in fetch order that writes the cell (p, d). */
  predicate LastWriter(rs: seq<AttendanceRecord>, p: string, d: Date, i: int)
  {
    0 <= i < |rs| && Writes(rs[i], p, d) && forall j :: i < j < |rs| ==> !Writes(rs[j], p, d)
  }

  /** A written cell was written by its last writer, and carries that
      record's flag. */
  lemma {:induction false} WrittenBy(rs: seq<AttendanceRecord>, p: string, d: Date) returns (i: int)
    requires LastWrite(rs, p, d).Some?
    ensures LastWriter(rs, p, d, i) && LastWrite(rs, p, d) == Some(rs[i].attendance[p])
  {
    var n := |rs| - 1;
    if Writes(rs[n], p, d) {
      i := n;
    } else {
      var front := rs[..n];
      i := WrittenBy(front, p, d);
      assert rs[i] == front[i];
      forall j | i < j < |rs| ensures !Writes(rs[j], p, d) {
        if j < n { assert rs[j] == front[j]; }
      }
    }
  }

  /** The last record in fetch order that names the participant on the date
      decides the cell, whatever the earlier records said. */
  lemma {:induction false} LastWriterDecides(rs: seq<AttendanceRecord>, p: string, d: Date, i: int)
    requires LastWriter(rs, p, d, i)
    ensures LastWrite(rs, p, d) == Some(rs[i].attendance[p])
  {
    var n := |rs| - 1;
    if i < n {
      var front := rs[..n];
      assert front[i] == rs[i];
      assert LastWriter(front, p, d, i) by {
        forall j | i < j < n ensures !Writes(front[j], p, d) {
          assert front[j] == rs[j];
        }
      }
      LastWriterDecides(front, p, d, i);
    }
  }

  /** A cell that no record names on its date is never written. */
  lemma {:induction false} NeverWritten(rs: seq<AttendanceRecord>, p: string, d: Date)
    requires forall i :: 0 <= i < |rs| ==> !Writes(rs[i], p, d)
    ensures LastWrite(rs, p, d) == None
  {
    if rs != [] {
      var front := rs[..|rs| - 1];
      forall i | 0 <= i < |front| ensures !Writes(front[i], p, d) {
        assert front[i] == rs[i];
      }
      NeverWritten(front, p, d);
    }
  }

  /** The pivot's cell (p, d) reads "P" exactly when the last record of date d
      naming p marks p present; it reads "A" when that record marks p absent or
      when no record of date d names p. */
  lemma CellMeaning(roster: seq<string>, rs: seq<AttendanceRecord>, p: string, d: Date)
    requires p in roster && d in RecordDates(rs)
    ensures p in Grid(roster, DateAxis(rs), rs) && d in Grid(roster, DateAxis(rs), rs)[p]
    ensures Grid(roster, DateAxis(rs), rs)[p][d] == P <==>
      exists i :: LastWriter(rs, p, d, i) && rs[i].attendance[p]
    ensures (forall i :: 0 <= i < |rs| ==> !Writes(rs[i], p, d)) ==>
      Grid(roster, DateAxis(rs), rs)[p][d] == A
  {
    assert d in Elements(DateAxis(rs));
    if CellOf(rs, p, d) == P {
      var i := WrittenBy(rs, p, d);
    }
    forall i | LastWriter(rs, p, d, i) && rs[i].attendance[p] ensures CellOf(rs, p, d) == P {
      LastWriterDecides(rs, p, d, i);
    }
    if forall i :: 0 <= i < |rs| ==> !Writes(rs[i], p, d) {
      NeverWritten(rs, p, d);
    }
  }

  /** The table has one row per roster participant and no other, and each row
      one cell per date that occurs in the records. */
  lemma TableShape(roster: seq<string>, rs: seq<AttendanceRecord>)
    ensures Grid(roster, DateAxis(rs), rs).Keys == Elements(roster)
    ensures forall p :: p in roster ==> Grid(roster, DateAxis(rs), rs)[p].Keys == RecordDates(rs)
  {
  }

  /** A record appended after the others decides the cells it names on its date,
      whatever the earlier records said. */
  lemma LatestRecordWins(rs: seq<AttendanceRecord>, x: AttendanceRecord, p: string)
    requires p in x.attendance
    ensures CellOf(rs + [x], p, x.date) == if x.attendance[p] then P else A
  {
    assert LastWriter(rs + [x], p, x.date, |rs|);
    LastWriterDecides(rs + [x], p, x.date, |rs|);
  }
}
