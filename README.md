# Library loans, reservations and fines

A Dafny model of the loan, reservation and fine lifecycle of `LibraryModel`,
the data layer of a multi-branch library application. The application keeps
its tables in SQLite: copies (Αντίτυπο), reservations (Κράτηση), loans
(Δανεισμός), inter-library transfers (Διαδανεισμός) and fines (Πρόστιμο).
Each operation reads some rows, checks its guards and then commits all of its
writes.

The model has the following parts:

- `Library.LibraryModel` is a class. Its fields are those tables, held as maps
  from row id to row, plus the next AUTOINCREMENT id of each table.
- Every operation is a method. A refused operation returns `Failure` with the
  source's reason and leaves every field unchanged. A successful one states
  the new value of every table.
- Every method keeps the invariant `Valid()`:
  - every id is below its table's counter;
  - each ISBN's reservation queue is well formed (distinct priorities of at
    least 1, and one waiting reservation per member);
  - a copy is Δανεισμένο exactly when one open loan holds it;
  - every loan row is well formed, and the transfer it names exists.
- The value-level parts sit in their own modules:
  - `ReservationQueue`: the queue of one ISBN and what fulfilling its head
    does;
  - `LoanLedger`: copies against loans, and the per-row effect of the
    overdue sweep;
  - `OverdueSweep`: the loop of `calculate_overdue_fines`, proved against a
    relation `SweepsTo`;
  - `Consistency`: the table invariant, stated on values.
- `StudySpace` models the time-slot clash test of `check_space_availability`,
  including its string comparisons.

How the model stands in for the source's inputs:

- Dates are day numbers. `today` is a parameter wherever the source reads the
  clock.
- Money is in integer cents: the source's `days * 0.5` euro is
  `50 * days` cents.
- Fine statuses are `Outstanding` (Εκκρεμής), `Paid` and `Annulled`.

## Model

| member | source | states |
|---|---|---|
| Library.LibraryModel.constructor | model.py:9-12 | A model over an empty database with the given members and catalogue satisfies the table invariant. |
| Library.LibraryModel.CreateEbookLoan | model.py:155-168 | The loan is refused exactly when the member has a Ενεργός (current) loan of the e-book; an Εκπρόθεσμος (overdue) one does not block. Otherwise one new Ενεργός loan with no copy, due 21 days after today, is the only change. |
| Library.LibraryModel.CreateReservation | model.py:170-195 | The reservation is refused exactly when the member already waits for the ISBN. Otherwise one new Ενεργή (waiting) reservation is added. Its priority is one above the largest waiting priority of that ISBN, or 1 in an empty queue, and it is above every priority already waiting. The queues stay well formed. |
| Library.LibraryModel.CancelReservation | model.py:197-217 | Fails with "not found" for an unknown id. Fails with the current status when the reservation is no longer Ενεργή. Otherwise only that row becomes Ακυρωμένη (cancelled); no other priority changes. |
| Library.LibraryModel.AddCopy | model.py:489-498 | Refused exactly when the ISBN is not in the catalogue. Otherwise one new Διαθέσιμο (available) copy is added. |
| Library.LibraryModel.DeleteCopy | model.py:500-528 | Refused while an open (Ενεργός or Εκπρόθεσμος) loan holds the copy. That check comes before the "not found" check. Otherwise the copy row is removed and nothing else changes. |
| Library.LibraryModel.CreateLoan | model.py:576-662 | The guards run in the source's order: member exists, copy exists, copy Διαθέσιμο, first in the queue is the member. Each error is returned exactly when its guard is the first to fail, and nothing changes. The loan succeeds exactly when no guard fails. On success the queue is `Granted`. A transfer is recorded exactly when the copy's library differs from the member's. The new loan is Ενεργός, due in 21 days and linked to that transfer. The copy becomes Δανεισμένο (loaned). |
| Library.LibraryModel.GrantQueue | model.py:613-626 | The two UPDATEs on Κράτηση turn the reservations into `Granted(old, member, isbn)`, and the table invariant still holds. |
| Library.LibraryModel.RecordTransfer | model.py:633-639 | Inserts one 'Σε Μεταφορά' (in transit) transfer under a fresh id, which is returned. |
| Library.LibraryModel.LendCopy | model.py:641-648 | Inserts the loan under a fresh id and marks the copy Δανεισμένο. The copy/loan consistency is kept. |
| Library.LibraryModel.ReturnLoan | model.py:664-720 | Fails for an unknown loan and for a completed one. Otherwise the loan is completed today and its copy becomes Διαθέσιμο, if the copy is still in the table. A loan stored as Εκπρόθεσμος gets a new Εκκρεμής fine of 50 cents per day late. No other table changes. |
| Library.LibraryModel.CloseLoan | model.py:686-697 | The two UPDATEs of a return complete the loan with today's date and free its copy. The invariant still holds. |
| Library.LibraryModel.UpdateFineStatus | model.py:760-764 | Sets the status of the fine if it exists. Returns the number of rows changed, 1 or 0. No other table changes. |
| Library.LibraryModel.ImposeFine | model.py:766-784 | Inserts one Εκκρεμής fine of the given amount, imposed today, under a fresh id. |
| Library.LibraryModel.CalculateOverdueFines | model.py:978-1042 | The new loans and fines are exactly what `SweepsTo` relates to the old ones. The result counts the inserted fines: one per loan that was overdue and had no Εκκρεμής fine. The tables end swept. Running the sweep on a swept state changes nothing and returns 0. The invariant holds. |
| OverdueSweep.Sweep | model.py:994-1037 | The loop over the loans in id order establishes `SweepsTo` for the tables. It inserts exactly one fine per loan in `Fined`, ends in `SweptAt`, and leaves a swept state unchanged. |
| OverdueSweep.SweepBelow | model.py:997-1033 | Loop invariant of the sweep: loans below `i` are marked overdue and their Εκκρεμής fines refreshed. Each of them that needed a fine has exactly one new fine, and new fines are in loan order. The count equals the number of fines inserted. |
| OverdueSweep.SweepLoan | model.py:998-1033 | One iteration for a selected loan: it inserts a fine exactly when the loan has no Εκκρεμής fine, otherwise it updates the amount, and it marks the loan Εκπρόθεσμος. |
| OverdueSweep.BelowBound | model.py:997 | Once every loan id is below the loop bound, the loop invariant is the sweep relation `SweepsTo`. |
| OverdueSweep.FinedStep | model.py:1013-1019 | The set of loans that need a fine grows by loan `i` exactly when `i` needs one. |
| OverdueSweep.MarkStep | model.py:1028-1033 | The status UPDATE, which runs only when the loan is not yet Εκπρόθεσμος, marks loan `i` without touching later loans. |
| OverdueSweep.OutstandingUnchanged | model.py:1006-1011 | The "has a Εκκρεμής fine" query inside the loop gives the answer it would on the tables before the sweep. |
| OverdueSweep.InsertStep | model.py:1013-1019 | Inserting the fine for loan `i` moves the three fine-table parts of the loop invariant (refreshed, inserted, covered) past `i`; `MarkStep` moves the loans part. |
| OverdueSweep.UpdateStep | model.py:1020-1026 | Updating the Εκκρεμής fines of loan `i` moves the three fine-table parts of the loop invariant (refreshed, inserted, covered) past `i`; `MarkStep` moves the loans part. |
| OverdueSweep.SkipStep | model.py:986-992 | A loan that is not selected needs no fine, and the loop invariant moves past it unchanged. |
| OverdueSweep.SweepReachesSwept | model.py:978-1042 | After a sweep, every loan out past its due date is Εκπρόθεσμος and has an Εκκρεμής fine, and all its Εκκρεμής fines carry today's fee. |
| OverdueSweep.NewFinesNeeded | model.py:1013-1019 | Every fine a sweep inserts belongs to a loan that needed one; when no loan needs one, it inserts none. |
| OverdueSweep.SweepIdempotent | model.py:978-1042 | A sweep from a swept state inserts nothing and leaves loans and fines as they were. |
| LoanLedger.SweptIsFixedPoint | model.py:1002-1033 | In a swept state, marking, refreshing and inserting all do nothing. |
| LoanLedger.LendKeeps | model.py:641-648 | Lending an available copy keeps "Δανεισμένο exactly when one open loan holds it". |
| LoanLedger.LendEbookKeeps | model.py:164-166 | An e-book loan touches no copy and keeps that consistency. |
| LoanLedger.ReturnKeeps | model.py:686-697 | Completing an open loan and freeing its copy keeps that consistency. |
| LoanLedger.ReopenNothingKeeps | model.py:1028-1033 | A status change that keeps each loan open or closed keeps that consistency. |
| LoanLedger.AddCopyKeeps | model.py:495-497 | A new Διαθέσιμο copy keeps that consistency. |
| LoanLedger.RemoveCopyKeeps | model.py:506-516 | Removing a copy that no open loan holds keeps that consistency. |
| Consistency.LendConsistent | model.py:641-648 | A physical loan keeps the loan-table invariant. |
| Consistency.LendEbookConsistent | model.py:164-166 | An e-book loan keeps the loan-table invariant. |
| Consistency.ReturnConsistent | model.py:686-697 | A return keeps the loan-table invariant. |
| Consistency.CopiesConsistent | model.py:489-528 | Adding or removing copies keeps the loan-table invariant. |
| Consistency.SweepConsistent | model.py:1028-1033 | Marking loans overdue keeps the loan-table invariant. |
| Consistency.SweepValid | model.py:978-1042 | The overdue sweep keeps the whole table invariant. |
| ReservationQueue.NextPriority | model.py:182-186 | Computes COALESCE(MAX(priority), 0) + 1 over the waiting reservations of the ISBN. |
| ReservationQueue.FirstInLine | model.py:597-605 | Returns None exactly when nobody waits for the ISBN. Otherwise it returns a waiting reservation with the smallest priority. |
| ReservationQueue.EnqueueKeepsWellFormed | model.py:170-195 | A member not yet waiting who joins with max + 1 keeps the queue well formed, gets a priority of at least 1, and ends up behind everyone. |
| ReservationQueue.CancelKeepsWellFormed | model.py:212-215 | Cancelling keeps the queues well formed. |
| ReservationQueue.CancelLeavesGap | model.py:212-215 | Cancellation renumbers nothing: cancelling the second of three leaves priorities 1 and 3. |
| ReservationQueue.FirstInLineUnique | model.py:597-605 | In a well-formed queue the first in line is unique. |
| ReservationQueue.MayBorrowFirst | model.py:604-607 | The reservation guard of create_loan lets the member through exactly when the queue is empty or the member is first in line. |
| ReservationQueue.Grant | model.py:613-626 | The UPDATEs on Κράτηση compute `Granted` and keep the queues well formed. |
| ReservationQueue.GrantedEmpty | model.py:613-614 | With nobody waiting, nothing changes. |
| ReservationQueue.GrantedFirst | model.py:613-626 | Granting fulfils the first in line only, moves every other waiting reservation of the ISBN up by exactly one, and leaves the rest alone. |
| ReservationQueue.GrantedKeepsWellFormed | model.py:613-626 | Granting keeps the queues well formed: priorities stay distinct and at least 1. |
| ReservationQueue.FulfilFirst | model.py:615-626 | The two UPDATEs in order, using the first reservation's actual priority, compute `Granted`. |
| StudySpace.SlotEnd | model.py:333-336 | A booking ends two hours after it starts, on a clock that wraps past midnight. |
| StudySpace.ClockOrder | model.py:346 | Comparing two 'HH:MM' strings compares the times. |
| StudySpace.ClockSecondsOrder | model.py:348 | An 'HH:MM' string sorts below an 'HH:MM:SS' string exactly when its time is not later. |
| StudySpace.TextLessClock | model.py:346-348 | Comparing a clock string with one that has extra characters compares the digits first. |
| StudySpace.DigitsOrder | model.py:333-336 | Times compare as their four digits do. |
| StudySpace.ClashAsWrittenMinutes | model.py:340-349 | In minutes, the WHERE clause means: the existing start is before the new end, and the existing end is at or after the new start. |
| StudySpace.ClashAsWrittenNoWrap | model.py:340-349 | Away from midnight, the code refuses the overlapping bookings and also the back-to-back ones. |
| StudySpace.AvailableAsWrittenMinutes | model.py:330-357 | check_space_availability, in minutes. |
| StudySpace.BackToBackRefused | model.py:346-348 | A 12:00 booking is refused next to a 10:00 one. |
| StudySpace.LateOverlapMissed | model.py:335-346 | A 23:00 booking is accepted next to a 22:30 one. |
| StudySpace.SlotsOverlapSharesMinute | model.py:347-348 | The corrected test holds exactly when the two slots share a minute. |
| StudySpace.SlotsOverlapSymmetric | model.py:347-348 | The corrected test is symmetric. |
| StudySpace.AvailableSharesNoMinute | model.py:330-357 | With the corrected test, a booking is free exactly when it shares no minute with an existing one. |

## Behaviour the model keeps, where the code differs from what one might expect

- `create_loan` has no override. A member who is not first in line is refused
  even when the copy is on the shelf.
- The queue moves up relative to the first reservation's actual priority.
  Cancellation leaves gaps, so priorities are not kept as 1..N; the queue
  invariant asks only that they are distinct and at least 1.
- `create_loan` does not write the loan's status. The model takes the
  column's default to be Ενεργός (current). An e-book loan has no copy.
- `return_loan` adds a fine for a loan stored as Εκπρόθεσμος even when the
  sweep already gave it an Εκκρεμής one, so such a loan can end with two
  Εκκρεμής fines. `ReturnLoan` states this, and the invariant allows it.
- `return_loan` runs the copy UPDATE even for an e-book loan. The UPDATE then
  matches no row (`FreeCopy`).
- The overdue sweep reads its loans without ORDER BY. The model takes them in
  id order, which decides only which new fine gets which id.
- The sweep asks whether a fine exists on the tables as the loop has left
  them. `OverdueSweep.OutstandingUnchanged` shows that this gives the same
  answer as the tables before the loop.

## Left out

- SQLite plumbing (connections, commit and rollback, `lastrowid`). The
  exception paths are left out: for example, an INSERT that fails on a
  foreign key or a bad value. Each operation is all-or-nothing over the
  tables of the model.
- The stored database: the constructor starts from empty tables, while the
  source opens an existing Libraries.db whose schema is not part of this model.
  The model assumes the stored tables satisfy `Valid()`: per ISBN, waiting
  priorities are distinct and at least 1, with one waiting reservation per
  member; copy statuses match the open loans. It also assumes ids are never
  reused. Plain SQLite rowids can be reused after a delete, such as one by
  `delete_copy`.
- Dates are day numbers and `today` is a parameter. The 'YYYY-MM-DD'
  strings, `datetime.now()` and `strptime` are not modelled.
- Fine amounts are integer cents. The source stores float euros, so float
  rounding is not modelled.
- `check_space_availability`: the parsing of the start time with `strptime`,
  and its error path, are left out; the model takes a well-formed, zero-padded
  'HH:MM'. The query's filters on space and date become the list of existing
  start times passed in.
- The rest of `LibraryModel` is not part of this model: listing and search
  queries, member, book, e-book and library CRUD, `create_space_reservation`,
  and reports. The controller and the Tk view are not part of it either.
- The foreign keys are not checked in the model:
  - the member and the e-book of `create_ebook_loan`;
  - the loan of `impose_fine`;
  - the member and the ISBN of `create_reservation`;
  - the library of `add_copy`.
  
  The source leaves these checks to SQLite.
- The message texts of the results: each failure is an `Error` value, one per
  distinct message.
- Library.LibraryModel.CreateReservation: the result is the new priority
  (the source puts it in its message), not the new row id.

## Findings

| source | as written | input that shows it | evidently intended | confidence | as-written member | corrected member |
|---|---|---|---|---|---|---|
| model.py:346-348 | `time(start, '+2 hours') > ?` compares an 'HH:MM:SS' string with an 'HH:MM' one. At equal times the longer string is greater, so a booking that starts exactly when another ends is refused. | an existing booking at 10:00 and a new one at 12:00 (minutes 600 and 720) | two-hour slots overlap only when they share a minute; back-to-back bookings are free | high; not executed | StudySpace.BackToBackRefused | StudySpace.SlotsOverlapSharesMinute |
| model.py:335-348 | both ends are computed on a clock that wraps past midnight, so a slot crossing midnight ends "early" and its overlaps are missed | an existing booking at 22:30 and a new one at 23:00 (minutes 1350 and 1380): the new end 01:00 sorts below 22:30 | the two slots overlap and the new booking is refused | high; not executed | StudySpace.LateOverlapMissed | StudySpace.AvailableSharesNoMinute |
