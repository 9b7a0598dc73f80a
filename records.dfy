/**
 The documents of the application's three collections: trainings,
 participants and attendance records, as plain values.
 */
module Records {

  datatype Option<+T> = None | Some(value: T)

  /** A calendar day. The application stores days as "YYYY-MM-DD" text, whose
      lexicographic order is the chronological order; only that order is kept. */
  type Date = int

  /** The seven choices of the training-day multi-select. */
  datatype Weekday = Monday | Tuesday | Wednesday | Thursday | Friday | Saturday | Sunday

  /** A document of the trainings collection. `participants` is the roster. */
  datatype Training = Training(
    name: string,
    trainer: string,
    startDate: Date,
    days: seq<Weekday>,
    participants: seq<string>)

  /** A document of the participants collection. */
  datatype Participant = Participant(name: string, email: string, phone: string)

  /** A document of the attendance collection: for one training and one day,
      a present (true) / absent (false) flag per participant name. */
  datatype AttendanceRecord = AttendanceRecord(
    training: string,
    date: Date,
    attendance: map<string, bool>)

  /** The set of elements of a sequence. */
  function Elements<T>(s: seq<T>): set<T>
  {
    set x | x in s
  }

  predicate NoDuplicates<T(==)>(s: seq<T>)
  {
    forall i, j :: 0 <= i < j < |s| ==> s[i] != s[j]
  }
}
