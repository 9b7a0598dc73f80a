# Training attendance management: a Dafny model

The application is a single Streamlit page over three MongoDB collections:
`trainings` (name, trainer, start date, training days, roster of participant
names), `participants` (name, email, phone) and `attendance` (training name,
date, and a map from participant name to a present/absent flag). Admin forms
create and edit trainings, add participants, assign participants to a training,
and save one day's attendance. The "Training Status" page pivots a training's
attendance records into a participant × date table of `P`/`A` marks.

This project models:

- `records.dfy` (module `Records`): the three kinds of documents as datatypes.
  Dates are opaque integers ordered like the application's `YYYY-MM-DD` text.
- `roster.dfy` (module `Roster`): the lookup and single-document update by
  training name. Both act on the first document in collection order carrying
  the name. It also holds the `$addToSet` with `$each` update of the roster.
- `status.dfy` (module `StatusReport`): the status-page pivot.
  - The date axis is the sorted, de-duplicated set of record dates.
  - The initial table has every cell absent.
  - A `Pivot` method applies each record in fetch order, overwriting cells in
    a mutable map.
  - A specification (`Grid`, `CellOf`) says the value of each cell: the flag of
    the last record of that date that names the participant.
  - A record naming a participant who has no row makes the source's dictionary
    lookup fail. This is modelled as the `MissingRow` outcome.
- `store.dfy` (module `Store`): a `TrainingStore` class holding the collections
  as sequences. Its methods are the form actions and the status page. The
  invariant `Consistent()` (every stored record names only participants on its
  training's roster) is kept by adding a participant, assigning, recording
  attendance, and an edit that keeps the training's name. A rename onto a name
  another training carries can break it. Creating a training under a name that
  orphaned records still carry breaks it. While it holds, the status page never
  reaches the failing lookup.
- `scenarios.dfy` (module `Scenarios`): two action sequences on a fresh store.
  One shows a day marked twice, where the later record wins. The other renames
  a training and then re-creates it under its old name: the new, empty roster
  meets the old records, and the status page fails on the missing row.

The policy for a date recorded twice is the one the code has: the later record
overwrites the cells it names, and cells it does not name keep their earlier
value. A logical OR of presence across duplicate records is not what the code
does.

## Model

| member | source | states |
|---|---|---|
| Roster.FindTraining | app.py:87-88 | The selected document is the first one in collection order with the name; None exactly when no document has it |
| Roster.FindAfterAppend | app.py:56 | Inserting a training never changes an existing lookup; the new document is found only by a name no earlier document carries |
| Roster.FindAfterSameNameUpdate | app.py:104-112 | An update that keeps the document's name changes no lookup by name |
| Roster.AddToSet | app.py:220-224 | The existing roster is kept as a prefix; the elements afterwards are exactly the old roster plus the chosen names; every appended name was on neither the roster nor earlier in the appended part, so a duplicate-free roster stays duplicate-free |
| Roster.AddToSetPresent | app.py:221-223 | Adding names that are all on the roster already leaves the roster unchanged |
| Roster.AddToSetIdempotent | app.py:220-224 | Assigning the same selection twice gives the same roster as assigning it once |
| StatusReport.RecordsFor | app.py:280 | The fetched records are exactly the stored records carrying the training name, and there are no more of them than stored records |
| StatusReport.RecordsForAppend | app.py:280 | A record inserted after all others is fetched after all the earlier records of its training |
| StatusReport.InsertDate | app.py:284 | Inserting a date into a strictly ascending axis keeps it strictly ascending; a date is in the result iff it was in the axis or is the inserted one |
| StatusReport.DateAxis | app.py:284 | The axis is strictly ascending, has no duplicates, and holds exactly the dates of the fetched records |
| StatusReport.InitialTable | app.py:287 | One row per roster participant and no other, one cell per axis date in each row, every cell "A" |
| StatusReport.InitialIsEmptyGrid | app.py:287 | The initial table is the table that no records at all specify |
| StatusReport.GridStep | app.py:289-292 | Overwriting the table of a prefix of the records with the next record gives the table of the longer prefix |
| StatusReport.RowStep | app.py:291-292 | A record changes a participant's row only at its own date, and only when it names the participant |
| StatusReport.ApplyRecord | app.py:291-292 | One record's cells are overwritten with "P" for true and "A" for false; the step fails, reporting the unknown name, exactly when the record names a participant who has no row |
| StatusReport.Pivot | app.py:282-302 | With no records the outcome is "no data". If every name in every record has a row, the outcome is the table over the sorted date axis with the cells of the specification. Otherwise the outcome is the failure on a named participant who has no row, from the first record that names one |
| StatusReport.WrittenBy | app.py:289-292 | A written cell has a last writer: the last record in fetch order with that date that names the participant; the cell carries that record's flag |
| StatusReport.LastWriterDecides | app.py:289-292 | The last record in fetch order that names the participant on the date decides the cell with its flag, whatever the earlier records said |
| StatusReport.NeverWritten | app.py:287-292 | A cell that no record names on its date is never written |
| StatusReport.CellMeaning | app.py:287-292 | Cell (p, d) exists for every roster participant p and record date d; it is "P" iff the last record of date d naming p marks p present; it stays "A" when no record of date d names p |
| StatusReport.TableShape | app.py:287 | The table's rows are exactly the roster participants, and each row's columns are exactly the record dates |
| StatusReport.LatestRecordWins | app.py:289-292 | A record fetched after all others decides every cell it names on its date, whatever the earlier records said (the last-writer rule applied to the final record) |
| Store.CheckboxStatus | app.py:245-248 | The presence map has exactly the roster names as keys; a name is present unless its checkbox was cleared |
| Store.FetchedRostered | app.py:280-292 | While every stored record is covered by its training's roster, every name in the fetched records has a row |
| Store.TrainingStore.constructor | app.py:13-15 | The store starts with three empty collections, which are consistent |
| Store.TrainingStore.CreateTraining | app.py:47-59 | A training is saved with an empty roster iff name, trainer and at least one day are given; otherwise nothing changes. Consistency is kept unless the name is new while records under that name exist |
| Store.TrainingStore.EditTraining | app.py:86-112 | The first training with the selected name gets the four edited fields, and its roster is kept. Nothing else changes, and nothing at all for an empty or unknown selection. Consistency is kept when the name stays the same |
| Store.TrainingStore.AddParticipant | app.py:139-149 | A participant is saved iff all three fields are filled in; otherwise nothing changes |
| Store.TrainingStore.Assign | app.py:220-224 | The first training with the selected name gets the set-semantics union of its roster and the chosen names; nothing else changes; consistency is kept |
| Store.TrainingStore.RecordAttendance | app.py:237-259 | A record is appended iff the selection names a training with a non-empty roster. The record is keyed by exactly that roster and marks everyone present unless cleared. Nothing else changes, and consistency is kept |
| Store.TrainingStore.StatusPage | app.py:268-304 | The page pivots the training's fetched records over its roster, and shows nothing for an empty selection. On a consistent store it never fails on a missing row |
| Scenarios.RemarkedPivot | app.py:284-292 | Three records for two dates give a two-column axis in order; the second record of a date overrides the first |
| Scenarios.RemarkedDay | app.py:220-292 | Create, assign, three saves of attendance, then the status page: the page shows the table in which the later record of a date marked twice wins |
| Scenarios.RenameThenRecreate | app.py:47-112 | Renaming a training and re-creating its old name leaves old records that name a participant the new roster lacks, so the status page fails on that participant |

## Left out

- The Streamlit widgets, sidebar menu, messages and rendering are left out. The user's choices become method parameters: the selected name, the form fields and the set of cleared checkboxes.
- The MongoDB client, the connection string and the environment lookup are left out. The collections are in-memory sequences in insertion order, which is the order `find` returns them in the model.
- Deleting a training or a participant (app.py:115-125, 193-204) is left out. Each is a single `delete_one` call with no logic around it.
- The participant edit form (app.py:164-191) is not modelled. It is the same first-match `$set` as the training edit, on the participants collection.
- The "View" pages (app.py:61-77, 151-162) are left out because they only display documents.
- The pandas DataFrame conversion and display (app.py:294-300) are left out. The model's table is a map from participant to a map from date to mark.
- Date parsing and formatting are left out. A date is an integer whose order matches the order of the stored `YYYY-MM-DD` text; no calendar arithmetic is modelled.
- StatusReport.Pivot: when a record names several participants who have no row, the source fails on the first of them in the record's key order, and the model reports one of them without fixing which. Python's dictionary key order is not modelled.
- Store.TrainingStore.StatusPage: a name that no training carries gives `UnknownTraining`. The page only offers names taken from the collection, and the source would fail on such a name.
