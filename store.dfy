/**
 The application's three collections held in memory, and the form actions
 that change them: create and edit a training, add a participant, assign
 participants to a training, save one day's attendance. The status page
 reads them.
 */
module Store {
  import opened Records
  import opened Roster
  import opened StatusReport

  /** The create-training form is complete: name, trainer and at least one day. */
  predicate TrainingFormComplete(name: string, trainer: string, days: seq<Weekday>)
  {
    name != "" && trainer != "" && days != []
  }

  /** The add-participant form is complete: all three fields filled in. */
  predicate ParticipantFormComplete(name: string, email: string, phone: string)
  {
    name != "" && email != "" && phone != ""
  }

  /** The presence map of the attendance form: one checkbox per roster
      participant, ticked unless the user cleared it. */
  method CheckboxStatus(roster: seq<string>, cleared: set<string>) returns (status: map<string, bool>)
    ensures status.Keys == Elements(roster)
    ensures forall p :: p in status ==> (status[p] <==> p !in cleared)
  {
    status := map[];
    for i := 0 to |roster|
      invariant status.Keys == Elements(roster[..i])
      invariant forall p :: p in status ==> (status[p] <==> p !in cleared)
    {
      assert roster[..i + 1] == roster[..i] + [roster[i]];
      status := status[roster[i] := roster[i] !in cleared];
    }
    assert roster[..|roster|] == roster;
  }

  /** Every participant the record names is on the roster of the training that
      a lookup by the record's training name finds (if any). */
  predicate RecordCovered(ts: seq<Training>, rec: AttendanceRecord)
  {
    match FindTraining(ts, rec.training)
    case None => true
    case Some(i) => rec.attendance.Keys <= Elements(ts[i].participants)
  }

  /** When every stored record is covered, the records fetched for a training
      name only ever name participants on that training's roster. */
  lemma FetchedRostered(ts: seq<Training>, rs: seq<AttendanceRecord>, name: string, i: nat)
    requires forall k :: 0 <= k < |rs| ==> RecordCovered(ts, rs[k])
    requires FindTraining(ts, name) == Some(i)
    ensures AllRostered(ts[i].participants, RecordsFor(rs, name))
  {
    var fetched := RecordsFor(rs, name);
    forall j, p | 0 <= j < |fetched| && p in fetched[j].attendance
      ensures p in ts[i].participants
    {
      assert fetched[j] in rs;
      var k :| 0 <= k < |rs| && rs[k] == fetched[j];
      assert RecordCovered(ts, rs[k]);
    }
  }

  class TrainingStore {
    var trainings: seq<Training>
    var participants: seq<Participant>
    var attendance: seq<AttendanceRecord>

    /** Every attendance record names only participants that have a row on the
        status page of its training. */
    ghost predicate Consistent()
      reads this
    {
      forall k :: 0 <= k < |attendance| ==> RecordCovered(trainings, attendance[k])
    }

    constructor ()
      ensures trainings == [] && participants == [] && attendance == []
      ensures Consistent()
    {
      trainings, participants, attendance := [], [], [];
    }

    /** "Save Training": stores the training with an empty roster when the form
        is complete, and stores nothing otherwise. */
    method CreateTraining(name: string, trainer: string, start: Date, days: seq<Weekday>) returns (saved: bool)
      modifies this
      ensures saved == TrainingFormComplete(name, trainer, days)
      ensures trainings == if saved then old(trainings) + [Training(name, trainer, start, days, [])] else old(trainings)
      ensures participants == old(participants) && attendance == old(attendance)
      ensures (old(Consistent()) && (FindTraining(old(trainings), name).Some? || RecordsFor(attendance, name) == []))
        ==> Consistent()
    {
      saved := TrainingFormComplete(name, trainer, days);
      if saved {
        var t := Training(name, trainer, start, days, []);
        forall k | 0 <= k < |attendance| && old(Consistent()) &&
                   (FindTraining(trainings, name).Some? || RecordsFor(attendance, name) == [])
          ensures RecordCovered(trainings + [t], attendance[k])
        {
          FindAfterAppend(trainings, t, attendance[k].training);
        }
        trainings := trainings + [t];
      }
    }

    /** "Update Training": the first training carrying the selected name gets
        the four edited fields; its roster is kept. The form has no completeness
        check. Nothing changes when the selection is empty text (the form is not
        shown) or no training carries the name. */
    method EditTraining(selected: string, newName: string, newTrainer: string, newStart: Date, newDays: seq<Weekday>)
      modifies this
      ensures selected == "" ==> trainings == old(trainings)
      ensures selected != "" ==> match FindTraining(old(trainings), selected)
        case None => trainings == old(trainings)
        case Some(i) => trainings == old(trainings)[i := old(trainings)[i].(
                          name := newName, trainer := newTrainer, startDate := newStart, days := newDays)]
      ensures participants == old(participants) && attendance == old(attendance)
      ensures old(Consistent()) && newName == selected ==> Consistent()
    {
      if selected == "" {
        return;
      }
      match FindTraining(trainings, selected)
      case None =>
      case Some(i) =>
        var t := trainings[i].(name := newName, trainer := newTrainer, startDate := newStart, days := newDays);
        if newName == selected {
          forall k | 0 <= k < |attendance| ensures FindTraining(trainings[i := t], attendance[k].training) ==
                                                   FindTraining(trainings, attendance[k].training) {
            FindAfterSameNameUpdate(trainings, i, t, attendance[k].training);
          }
        }
        trainings := trainings[i := t];
    }

    /** "Save Participant": stores the participant when all three fields are
        filled in, and stores nothing otherwise. */
    method AddParticipant(name: string, email: string, phone: string) returns (saved: bool)
      modifies this
      ensures saved == ParticipantFormComplete(name, email, phone)
      ensures participants == if saved then old(participants) + [Participant(name, email, phone)] else old(participants)
      ensures trainings == old(trainings) && attendance == old(attendance)
      ensures old(Consistent()) ==> Consistent()
    {
      saved := ParticipantFormComplete(name, email, phone);
      if saved {
        participants := participants + [Participant(name, email, phone)];
      }
    }

    /** "Assign": adds the chosen participants to the roster of the first
        training carrying the selected name, with set semantics. */
    method Assign(selected: string, chosen: seq<string>)
      modifies this
      ensures match FindTraining(old(trainings), selected)
        case None => trainings == old(trainings)
        case Some(i) => trainings == old(trainings)[i := old(trainings)[i].(
                          participants := AddToSet(old(trainings)[i].participants, chosen))]
      ensures participants == old(participants) && attendance == old(attendance)
      ensures old(Consistent()) ==> Consistent()
    {
      match FindTraining(trainings, selected)
      case None =>
      case Some(i) =>
        var t := trainings[i].(participants := AddToSet(trainings[i].participants, chosen));
        forall k | 0 <= k < |attendance| && old(Consistent())
          ensures RecordCovered(trainings[i := t], attendance[k])
        {
          FindAfterSameNameUpdate(trainings, i, t, attendance[k].training);
          assert RecordCovered(trainings, attendance[k]);
        }
        trainings := trainings[i := t];
    }

    /** "Save Attendance": for the first training carrying the selected name and
        a non-empty roster, stores a record for the date naming every roster
        participant, present unless the user cleared the checkbox. With an empty
        roster, an empty selection or no such training nothing is stored. */
    method RecordAttendance(selected: string, date: Date, cleared: set<string>) returns (saved: bool)
      modifies this
      ensures saved <==> selected != "" && FindTraining(trainings, selected).Some? &&
                         trainings[FindTraining(trainings, selected).value].participants != []
      ensures trainings == old(trainings) && participants == old(participants)
      ensures !saved ==> attendance == old(attendance)
      ensures saved ==> |attendance| == |old(attendance)| + 1 && attendance[..|old(attendance)|] == old(attendance)
      ensures saved ==>
        var rec := attendance[|old(attendance)|];
        && rec.training == selected && rec.date == date
        && rec.attendance.Keys == Elements(trainings[FindTraining(trainings, selected).value].participants)
        && forall p :: p in rec.attendance ==> (rec.attendance[p] <==> p !in cleared)
      ensures old(Consistent()) ==> Consistent()
    {
      saved := false;
      if selected == "" {
        return;
      }
      match FindTraining(trainings, selected)
      case None =>
      case Some(i) =>
        var roster := trainings[i].participants;
        if roster != [] {
          var status := CheckboxStatus(roster, cleared);
          var rec := AttendanceRecord(selected, date, status);
          assert RecordCovered(trainings, rec);
          attendance := attendance + [rec];
          saved := true;
        }
    }

    /** The Training Status page for the selected name: the pivot of the
        training's attendance records, in fetch order, over its roster. While
        the store is consistent the page never fails on a missing row. An empty
        selection shows nothing; with no training of that name (in particular
        with no trainings at all) there is no table. */
    method StatusPage(selected: string) returns (r: Report)
      ensures selected == "" ==> r == NotSelected
      ensures selected != "" ==> match FindTraining(trainings, selected)
        case None => r == UnknownTraining
        case Some(i) => Pivoted(trainings[i].participants, RecordsFor(attendance, selected), r)
      ensures Consistent() ==> !r.MissingRow?
    {
      if selected == "" {
        return NotSelected;
      }
      match FindTraining(trainings, selected)
      case None =>
        r := UnknownTraining;
      case Some(i) =>
        r := Pivot(trainings[i].participants, RecordsFor(attendance, selected));
        if Consistent() {
          FetchedRostered(trainings, attendance, selected, i);
        }
    }
  }
}
