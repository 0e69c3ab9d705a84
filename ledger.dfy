/** The loan ledger (Δανεισμός), its link to the copies (Αντίτυπο) and the fine
    ledger (Πρόστιμο): the consistency that lending and returning keep, and the
    per-row effect of the overdue sweep. */
module LoanLedger {
  import opened Records

  type Copies = map<CopyId, Copy>
  type Loans = map<LoanId, Loan>
  type Fines = map<FineId, Fine>

  /** Κατάσταση IN ('Ενεργός', 'Εκπρόθεσμος'): the item is still out. */
  predicate IsOpen(l: Loan)
  {
    l.status == Current || l.status == Overdue
  }

  /** Some open loan holds copy `c`. */
  predicate OpenOn(loans: Loans, c: CopyId)
  {
    exists id :: id in loans && IsOpen(loans[id]) && loans[id].copy == Some(c)
  }

  /** The member has a Ενεργός loan of the e-book; an Εκπρόθεσμος one does not count. */
  predicate LendsEbook(loans: Loans, member: MemberId, ebook: EbookId)
  {
    exists id :: id in loans && loans[id].member == member && loans[id].ebook == Some(ebook) &&
      loans[id].status == Current
  }

  /** Loans `i` and `j` are both open and hold the same copy. */
  ghost predicate ShareCopy(loans: Loans, i: LoanId, j: LoanId)
  {
    i in loans && j in loans && IsOpen(loans[i]) && IsOpen(loans[j]) &&
    loans[i].copy.Some? && loans[i].copy == loans[j].copy
  }

  /** A copy is Δανεισμένο exactly when one open loan holds it, and never two. */
  ghost predicate CopiesTrackLoans(copies: Copies, loans: Loans)
  {
    (forall id :: id in loans && IsOpen(loans[id]) && loans[id].copy.Some? ==>
       loans[id].copy.value in copies && copies[loans[id].copy.value].status == Loaned) &&
    (forall i, j :: ShareCopy(loans, i, j) ==> i == j) &&
    (forall c :: c in copies && copies[c].status == Loaned ==> OpenOn(loans, c))
  }

  /** Every loan names either a copy or an e-book, is due three weeks after it
      starts, has a return date exactly when it is completed, and has a
      transfer only when it is physical. */
  ghost predicate WellFormedLoan(l: Loan)
  {
    l.copy.Some? != l.ebook.Some? &&
    l.due == DueDate(l.start) &&
    (l.status == Completed <==> l.returned.Some?) &&
    (l.transfer.Some? ==> l.copy.Some?)
  }

  /** Lending an available copy keeps copies and loans consistent. */
  lemma LendKeeps(copies: Copies, loans: Loans, c: CopyId, id: LoanId, loan: Loan)
    requires CopiesTrackLoans(copies, loans)
    requires c in copies && copies[c].status == Available
    requires id !in loans && IsOpen(loan) && loan.copy == Some(c)
    ensures CopiesTrackLoans(copies[c := copies[c].(status := Loaned)], loans[id := loan])
  {
    var copies', loans' := copies[c := copies[c].(status := Loaned)], loans[id := loan];
    forall i, j | ShareCopy(loans', i, j)
      ensures i == j
    {
      if i != id && j != id {
        assert ShareCopy(loans, i, j);
      }
    }
    forall d | d in copies' && copies'[d].status == Loaned
      ensures OpenOn(loans', d)
    {
      if d == c {
        assert loans'[id].copy == Some(d);
      } else {
        var w :| w in loans && IsOpen(loans[w]) && loans[w].copy == Some(d);
        assert loans'[w] == loans[w];
      }
    }
  }

  /** Lending an e-book touches no copy. */
  lemma LendEbookKeeps(copies: Copies, loans: Loans, id: LoanId, loan: Loan)
    requires CopiesTrackLoans(copies, loans)
    requires id !in loans && loan.copy.None?
    ensures CopiesTrackLoans(copies, loans[id := loan])
  {
    var loans' := loans[id := loan];
    forall i, j | ShareCopy(loans', i, j)
      ensures i == j
    {
      assert ShareCopy(loans, i, j);
    }
    forall d | d in copies && copies[d].status == Loaned
      ensures OpenOn(loans', d)
    {
      var w :| w in loans && IsOpen(loans[w]) && loans[w].copy == Some(d);
      assert loans'[w] == loans[w];
    }
  }

  /** What return_loan does to the copy: it becomes Διαθέσιμο, if it is still
      in the table (an e-book loan names no copy, and the UPDATE then matches
      no row). */
  function FreeCopy(copies: Copies, copy: Option<CopyId>): Copies
  {
    if copy.Some? && copy.value in copies then copies[copy.value := copies[copy.value].(status := Available)]
    else copies
  }

  /** Completing an open loan and freeing its copy keeps copies and loans consistent. */
  lemma ReturnKeeps(copies: Copies, loans: Loans, id: LoanId, day: Day)
    requires CopiesTrackLoans(copies, loans)
    requires id in loans && IsOpen(loans[id])
    ensures CopiesTrackLoans(
      FreeCopy(copies, loans[id].copy),
      loans[id := loans[id].(status := Completed, returned := Some(day))])
  {
    var copies' := FreeCopy(copies, loans[id].copy);
    var loans' := loans[id := loans[id].(status := Completed, returned := Some(day))];
    forall i, j | ShareCopy(loans', i, j)
      ensures i == j
    {
      assert ShareCopy(loans, i, j);
    }
    forall w | w in loans' && IsOpen(loans'[w]) && loans'[w].copy.Some?
      ensures loans'[w].copy.value in copies' && copies'[loans'[w].copy.value].status == Loaned
    {
      assert w != id;
      if loans'[w].copy == loans[id].copy {
        assert ShareCopy(loans, w, id);
      }
    }
    forall d | d in copies' && copies'[d].status == Loaned
      ensures OpenOn(loans', d)
    {
      assert loans[id].copy != Some(d);
      var w :| w in loans && IsOpen(loans[w]) && loans[w].copy == Some(d);
      assert w != id && loans'[w] == loans[w];
    }
  }

  /** Status changes that keep each loan open or closed, and its copy, keep
      copies and loans consistent. */
  lemma ReopenNothingKeeps(copies: Copies, loans: Loans, loans': Loans)
    requires CopiesTrackLoans(copies, loans)
    requires loans'.Keys == loans.Keys
    requires forall id :: id in loans ==> loans'[id].copy == loans[id].copy && IsOpen(loans'[id]) == IsOpen(loans[id])
    ensures CopiesTrackLoans(copies, loans')
  {
    forall i, j | ShareCopy(loans', i, j)
      ensures i == j
    {
      assert ShareCopy(loans, i, j);
    }
    forall d | d in copies && copies[d].status == Loaned
      ensures OpenOn(loans', d)
    {
      var w :| w in loans && IsOpen(loans[w]) && loans[w].copy == Some(d);
      assert w in loans' && IsOpen(loans'[w]) && loans'[w].copy == Some(d);
    }
  }

  /** A new copy enters as Διαθέσιμο; no loan holds a copy that was not there. */
  lemma AddCopyKeeps(copies: Copies, loans: Loans, c: CopyId, copy: Copy)
    requires CopiesTrackLoans(copies, loans)
    requires c !in copies && copy.status == Available
    ensures CopiesTrackLoans(copies[c := copy], loans)
  {
  }

  /** Removing a copy no open loan holds keeps copies and loans consistent. */
  lemma RemoveCopyKeeps(copies: Copies, loans: Loans, c: CopyId)
    requires CopiesTrackLoans(copies, loans) && !OpenOn(loans, c)
    ensures CopiesTrackLoans(copies - {c}, loans)
  {
    forall id | id in loans && IsOpen(loans[id]) && loans[id].copy.Some?
      ensures loans[id].copy.value in copies - {c}
    {
      assert loans[id].copy != Some(c);
    }
  }

  // The overdue sweep, one row at a time.

  /** The sweep selects the loan: it is out and its due date has passed. */
  predicate OverdueAt(l: Loan, today: Day)
  {
    IsOpen(l) && l.due < today
  }

  /** The loan's status after the sweep. */
  function MarkOverdue(l: Loan, today: Day): Loan
  {
    if OverdueAt(l, today) then l.(status := Overdue) else l
  }

  /** The loan has an Εκκρεμής fine. */
  predicate HasOutstanding(fines: Fines, loan: LoanId)
  {
    exists f :: f in fines && fines[f].loan == loan && fines[f].status == Outstanding
  }

  /** An existing fine after the sweep: an Εκκρεμής fine of a selected loan
      carries the fee for every day late up to today. */
  function RefreshFine(fine: Fine, loans: Loans, today: Day): Fine
  {
    if fine.status == Outstanding && fine.loan in loans && OverdueAt(loans[fine.loan], today)
    then fine.(amount := LateFee(today - loans[fine.loan].due))
    else fine
  }

  /** The fine the sweep inserts for a selected loan that has no Εκκρεμής fine. */
  function SweepFine(id: LoanId, l: Loan, today: Day): Fine
  {
    Fine(id, LateFee(today - l.due), today, Outstanding)
  }

  /** The sweep inserts a fine for the loan. */
  ghost predicate NeedsNewFine(loans: Loans, fines: Fines, id: LoanId, today: Day)
  {
    id in loans && OverdueAt(loans[id], today) && !HasOutstanding(fines, id)
  }

  /** The state the sweep leaves behind: every loan out past its due date is
      Εκπρόθεσμος and has an Εκκρεμής fine, and all its Εκκρεμής fines carry
      today's fee. */
  ghost predicate SweptAt(loans: Loans, fines: Fines, today: Day)
  {
    forall id :: id in loans && OverdueAt(loans[id], today) ==>
      loans[id].status == Overdue && HasOutstanding(fines, id) &&
      forall f :: f in fines && fines[f].loan == id && fines[f].status == Outstanding ==>
        fines[f].amount == LateFee(today - loans[id].due)
  }

  /** A swept state is a fixed point of every per-row step of the sweep. */
  lemma SweptIsFixedPoint(loans: Loans, fines: Fines, today: Day)
    requires SweptAt(loans, fines, today)
    ensures forall id :: id in loans ==> MarkOverdue(loans[id], today) == loans[id]
    ensures forall f :: f in fines ==> RefreshFine(fines[f], loans, today) == fines[f]
    ensures forall id :: !NeedsNewFine(loans, fines, id, today)
  {
  }
}
