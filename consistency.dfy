/** The consistency of the library tables as a whole, stated on their values:
    every id is below its table's AUTOINCREMENT counter, the reservation
    queues are well formed, and the loans agree with the copies and the
    transfers. */
module Consistency {
  import opened Records
  import opened ReservationQueue
  import opened LoanLedger
  import opened OverdueSweep

  /** Every id in the table is below the next id the table hands out. */
  ghost predicate IdsBelow<T>(table: map<nat, T>, next: nat)
  {
    forall id :: id in table ==> id < next
  }

  /** Copy statuses agree with the open loans, every loan row is well formed,
      and every transfer a loan names exists. */
  ghost predicate LoansConsistent(copies: Copies, loans: Loans, transfers: map<TransferId, Transfer>)
  {
    CopiesTrackLoans(copies, loans) &&
    (forall id :: id in loans ==> WellFormedLoan(loans[id])) &&
    (forall id :: id in loans && loans[id].transfer.Some? ==> loans[id].transfer.value in transfers)
  }

  /** The whole invariant of the tables. */
  ghost predicate ValidTables(copies: Copies, reservations: Reservations, loans: Loans,
                              transfers: map<TransferId, Transfer>, fines: Fines,
                              nextCopy: nat, nextReservation: nat, nextLoan: nat, nextTransfer: nat, nextFine: nat)
  {
    IdsBelow(copies, nextCopy) && IdsBelow(reservations, nextReservation) && IdsBelow(loans, nextLoan) &&
    IdsBelow(transfers, nextTransfer) && IdsBelow(fines, nextFine) &&
    WellFormed(reservations) &&
    LoansConsistent(copies, loans, transfers)
  }

  /** Lending an available copy, with a transfer that exists, keeps the tables consistent. */
  lemma LendConsistent(copies: Copies, loans: Loans, transfers: map<TransferId, Transfer>,
                       transfers': map<TransferId, Transfer>, c: CopyId, id: LoanId, loan: Loan)
    requires LoansConsistent(copies, loans, transfers)
    requires c in copies && copies[c].status == Available
    requires id !in loans && IsOpen(loan) && loan.copy == Some(c) && WellFormedLoan(loan)
    requires transfers.Keys <= transfers'.Keys
    requires loan.transfer.Some? ==> loan.transfer.value in transfers'
    ensures LoansConsistent(copies[c := copies[c].(status := Loaned)], loans[id := loan], transfers')
  {
    LendKeeps(copies, loans, c, id, loan);
  }

  /** Lending an e-book keeps the tables consistent. */
  lemma LendEbookConsistent(copies: Copies, loans: Loans, transfers: map<TransferId, Transfer>, id: LoanId, loan: Loan)
    requires LoansConsistent(copies, loans, transfers)
    requires id !in loans && loan.copy.None? && loan.transfer.None? && WellFormedLoan(loan)
    ensures LoansConsistent(copies, loans[id := loan], transfers)
  {
    LendEbookKeeps(copies, loans, id, loan);
  }

  /** Returning an open loan keeps the tables consistent. */
  lemma ReturnConsistent(copies: Copies, loans: Loans, transfers: map<TransferId, Transfer>, id: LoanId, day: Day)
    requires LoansConsistent(copies, loans, transfers)
    requires id in loans && IsOpen(loans[id])
    ensures LoansConsistent(FreeCopy(copies, loans[id].copy),
                            loans[id := loans[id].(status := Completed, returned := Some(day))], transfers)
  {
    ReturnKeeps(copies, loans, id, day);
  }

  /** Adding or removing a copy that no open loan holds keeps the tables consistent. */
  lemma CopiesConsistent(copies: Copies, loans: Loans, transfers: map<TransferId, Transfer>, copies': Copies)
    requires LoansConsistent(copies, loans, transfers)
    requires CopiesTrackLoans(copies', loans)
    ensures LoansConsistent(copies', loans, transfers)
  {
  }

  /** Marking loans overdue keeps the tables consistent. */
  lemma SweepConsistent(copies: Copies, loans: Loans, transfers: map<TransferId, Transfer>, loans': Loans, today: Day)
    requires LoansConsistent(copies, loans, transfers)
    requires loans'.Keys == loans.Keys
    requires forall id :: id in loans ==> loans'[id] == MarkOverdue(loans[id], today)
    ensures LoansConsistent(copies, loans', transfers)
  {
    ReopenNothingKeeps(copies, loans, loans');
  }

  /** The overdue sweep keeps the tables consistent. */
  lemma SweepValid(copies: Copies, reservations: Reservations, loans: Loans, transfers: map<TransferId, Transfer>,
                   fines: Fines, nextCopy: nat, nextReservation: nat, nextLoan: nat, nextTransfer: nat, nextFine: nat,
                   loans': Loans, fines': Fines, nextFine': nat, today: Day)
    requires ValidTables(copies, reservations, loans, transfers, fines, nextCopy, nextReservation, nextLoan, nextTransfer, nextFine)
    requires SweepsTo(loans, fines, nextFine, today, loans', fines', nextFine')
    ensures ValidTables(copies, reservations, loans', transfers, fines', nextCopy, nextReservation, nextLoan, nextTransfer, nextFine')
  {
    SweepConsistent(copies, loans, transfers, loans', today);
  }
}
