/**
 Sequences of form actions on a fresh store and what the Training Status
 page then shows, derived from the actions' contracts alone.
 */
module Scenarios {
  import opened Records
  import opened Roster
  import opened StatusReport
  import opened Store

  /** The attendance collection after the three saves of RemarkedDay. */
  const remarked: seq<AttendanceRecord> := [
    AttendanceRecord("Onboarding", 20240108, map["Alice" := true, "Bob" := false]),
    AttendanceRecord("Onboarding", 20240110, map["Alice" := true, "Bob" := true]),
    AttendanceRecord("Onboarding", 20240108, map["Alice" := true, "Bob" := true])]

  const remarkedTable: map<string, map<Date, Mark>> := map[
    "Alice" := map[20240108 := P, 20240110 := P],
    "Bob" := map[20240108 := P, 20240110 := P]]

  lemma RemarkedAxis()
    ensures DateAxis(remarked) == [20240108, 20240110]
  {
    var tail := remarked[1..];
    assert tail[1..] == [remarked[2]];
    assert DateAxis([remarked[2]]) == [20240108];
    assert DateAxis(tail) == InsertDate([20240108], 20240110) == [20240108, 20240110];
  }

  lemma RemarkedCells()
    ensures CellOf(remarked, "Alice", 20240108) == P && CellOf(remarked, "Bob", 20240108) == P
    ensures CellOf(remarked, "Alice", 20240110) == P && CellOf(remarked, "Bob", 20240110) == P
  {
    assert remarked[..2] == [remarked[0], remarked[1]];
    assert Writes(remarked[2], "Alice", 20240108) && Writes(remarked[2], "Bob", 20240108);
    assert !Writes(remarked[2], "Alice", 20240110) && !Writes(remarked[2], "Bob", 20240110);
    assert Writes(remarked[1], "Alice", 20240110) && Writes(remarked[1], "Bob", 20240110);
  }

  lemma RemarkedRows()
    ensures Row([20240108, 20240110], remarked, "Alice") == remarkedTable["Alice"]
    ensures Row([20240108, 20240110], remarked, "Bob") == remarkedTable["Bob"]
  {
    RemarkedCells();
  }

  /** The pivot of those records: two columns, and the later record of the 8th
      overrides Bob's absence. */
  lemma RemarkedPivot()
    ensures DateAxis(remarked) == [20240108, 20240110]
    ensures Grid(["Alice", "Bob"], [20240108, 20240110], remarked) == remarkedTable
  {
    RemarkedAxis();
    RemarkedRows();
    GridOfTwo("Alice", "Bob", [20240108, 20240110], remarked);
  }

  lemma GridOfTwo(p: string, q: string, dates: seq<Date>, rs: seq<AttendanceRecord>)
    ensures Grid([p, q], dates, rs) == map[p := Row(dates, rs, p), q := Row(dates, rs, q)]
  {
  }

  /** Alice and Bob attend "Onboarding"; Bob is absent on the 8th, both are
      present on the 10th, and the 8th is then marked again with everybody
      present. The table has the two dates once each, in order, and the second
      record of the 8th overrides the first. */
  method RemarkedDay() returns (r: Report)
    ensures r == Table([20240108, 20240110], remarkedTable)
  {
    var s := new TrainingStore();
    var ok := s.CreateTraining("Onboarding", "Dana", 20240101, [Monday, Wednesday]);
    s.Assign("Onboarding", ["Alice", "Bob"]);
    assert s.trainings[0].participants == ["Alice", "Bob"];
    assert s.trainings == [onboarding];
    MarkOnboarding(s, 20240108, {"Bob"});
    MarkOnboarding(s, 20240110, {});
    MarkOnboarding(s, 20240108, {});
    assert s.attendance == remarked;
    RemarkedFetch();
    RemarkedPivot();
    assert FindTraining(s.trainings, "Onboarding") == Some(0);
    r := s.StatusPage("Onboarding");
    assert r.Table?;
  }

  const onboarding := Training("Onboarding", "Dana", 20240101, [Monday, Wednesday], ["Alice", "Bob"])

  /** Saving one day's attendance for the two-person training above. */
  method MarkOnboarding(s: TrainingStore, date: Date, cleared: set<string>)
    requires s.trainings == [onboarding] && s.Consistent()
    modifies s
    ensures s.trainings == [onboarding] && s.Consistent()
    ensures s.attendance == old(s.attendance) + [AttendanceRecord("Onboarding", date,
      map["Alice" := "Alice" !in cleared, "Bob" := "Bob" !in cleared])]
  {
    assert Elements(onboarding.participants) == {"Alice", "Bob"};
    var ok := s.RecordAttendance("Onboarding", date, cleared);
    AttendanceIs(s.attendance[|old(s.attendance)|], AttendanceRecord("Onboarding", date,
      map["Alice" := "Alice" !in cleared, "Bob" := "Bob" !in cleared]));
  }

  lemma RemarkedFetch()
    ensures RecordsFor(remarked, "Onboarding") == remarked
  {
    assert remarked[1..][1..] == [remarked[2]];
  }

  /** Two records agree when their fields and their presence flags do. */
  lemma AttendanceIs(x: AttendanceRecord, y: AttendanceRecord)
    requires x.training == y.training && x.date == y.date
    requires x.attendance.Keys == y.attendance.Keys
    requires forall p :: p in x.attendance ==> x.attendance[p] == y.attendance[p]
    ensures x == y
  {
  }

  const aliceDay := AttendanceRecord("Onboarding", 20240108, map["Alice" := true])

  /** A store holding "Onboarding" with Alice on its roster and one day of
      attendance. */
  method AliceOnboarded() returns (s: TrainingStore)
    ensures fresh(s)
    ensures s.trainings == [Training("Onboarding", "Dana", 20240101, [Monday], ["Alice"])]
    ensures s.attendance == [aliceDay]
  {
    s := new TrainingStore();
    var ok := s.CreateTraining("Onboarding", "Dana", 20240101, [Monday]);
    s.Assign("Onboarding", ["Alice"]);
    assert s.trainings[0].participants == ["Alice"];
    assert Elements(["Alice"]) == {"Alice"};
    ok := s.RecordAttendance("Onboarding", 20240108, {});
    AttendanceIs(s.attendance[0], aliceDay);
  }

  /** A training that is renamed leaves its attendance records under the old
      name; a new training created under that name starts with an empty roster,
      and its status page then looks up a row that does not exist. */
  method RenameThenRecreate() returns (r: Report)
    ensures r.MissingRow? && r.participant == "Alice"
  {
    var s := AliceOnboarded();
    s.EditTraining("Onboarding", "Onboarding 2024", "Dana", 20240101, [Monday]);
    var ok := s.CreateTraining("Onboarding", "Eve", 20240201, [Tuesday]);
    assert FindTraining(s.trainings, "Onboarding") == Some(1);
    assert s.trainings[1].participants == [];
    FetchSingle(aliceDay);
    r := s.StatusPage("Onboarding");
    assert !AllRostered([], [aliceDay]) by {
      var rs := [aliceDay];
      assert rs[0] == aliceDay && "Alice" in aliceDay.attendance;
      assert "Alice" in rs[0].attendance && "Alice" !in [];
    }
  }

  lemma FetchSingle(x: AttendanceRecord)
    ensures RecordsFor([x], x.training) == [x]
  {
  }
}
