/** The overdue sweep of calculate_overdue_fines: one pass over the loans, in
    id order, that marks every loan out past its due date Εκπρόθεσμος and
    brings its Εκκρεμής fine up to date, inserting one when there is none. */
module OverdueSweep {
  import opened Records
  import opened LoanLedger

  /** UPDATE Πρόστιμο SET Ποσό = ? WHERE ID_Δανεισμού = ? AND Κατάσταση = 'Εκκρεμής'. */
  function SetOutstandingAmount(fines: Fines, loan: LoanId, amount: Cents): Fines
  {
    map f | f in fines ::
      if fines[f].loan == loan && fines[f].status == Outstanding then fines[f].(amount := amount) else fines[f]
  }

  /** The loans the sweep inserts a fine for. */
  ghost function Fined(loans: Loans, fines: Fines, today: Day): set<LoanId>
  {
    set id | id in loans && NeedsNewFine(loans, fines, id, today)
  }

  /** Those of them with an id below `below`. */
  ghost function FinedBelow(loans: Loans, fines: Fines, today: Day, below: int): set<LoanId>
  {
    set id | id in loans && id < below && NeedsNewFine(loans, fines, id, today)
  }

  /** `fine` is one the sweep inserts: it belongs to a selected loan that had no
      Εκκρεμής fine, and carries today's fee. */
  ghost predicate IsSweepFine(loans: Loans, fines: Fines, fine: Fine, today: Day)
  {
    fine.loan in loans && OverdueAt(loans[fine.loan], today) && !HasOutstanding(fines, fine.loan) &&
    fine == SweepFine(fine.loan, loans[fine.loan], today)
  }

  /** What one run of the sweep does, from the tables `loans`, `fines` (whose
      new ids start at `nextFine`) to `loans'`, `fines'` and `nextFine'`:
      every loan is marked, every fine that was there is refreshed, and the
      fines with the ids from `nextFine` to `nextFine'` are new: fines the
      sweep inserts, one for each loan that needed one and in loan order. */
  ghost predicate SweepsTo(loans: Loans, fines: Fines, nextFine: nat, today: Day,
                           loans': Loans, fines': Fines, nextFine': nat)
  {
    loans'.Keys == loans.Keys &&
    (forall id :: id in loans ==> loans'[id] == MarkOverdue(loans[id], today)) &&
    nextFine <= nextFine' &&
    (forall f :: f in fines' <==> f in fines || nextFine <= f < nextFine') &&
    (forall f :: f in fines ==> fines'[f] == RefreshFine(fines[f], loans, today)) &&
    (forall f :: nextFine <= f < nextFine' ==> IsSweepFine(loans, fines, fines'[f], today)) &&
    (forall id :: NeedsNewFine(loans, fines, id, today) ==>
      exists f :: nextFine <= f < nextFine' && f in fines' && fines'[f].loan == id) &&
    (forall f, g :: nextFine <= f < g < nextFine' ==> fines'[f].loan < fines'[g].loan)
  }

  // What the sweep has done once the loans with ids below `i` are processed,
  // in four parts.

  /** Those loans are marked; the others are as they were. */
  ghost predicate MarkedBelow(loans: Loans, today: Day, i: int, loans': Loans)
  {
    loans'.Keys == loans.Keys &&
    forall id :: id in loans ==> loans'[id] == if id < i then MarkOverdue(loans[id], today) else loans[id]
  }

  /** The fines that were there are refreshed if they belong to those loans,
      and as they were otherwise. */
  ghost predicate RefreshedBelow(loans: Loans, fines: Fines, today: Day, i: int, fines': Fines)
  {
    forall f :: f in fines ==>
      f in fines' && fines'[f] == if fines[f].loan < i then RefreshFine(fines[f], loans, today) else fines[f]
  }

  /** The other fines have the ids from `nextFine` to `nextFine'`, belong to
      those loans, one to each and in loan order, and are fines the sweep
      inserts. */
  ghost predicate InsertedBelow(loans: Loans, fines: Fines, nextFine: nat, today: Day, i: int,
                                fines': Fines, nextFine': nat)
  {
    nextFine <= nextFine' &&
    (forall f :: f in fines' <==> f in fines || nextFine <= f < nextFine') &&
    (forall f :: nextFine <= f < nextFine' ==> fines'[f].loan < i && IsSweepFine(loans, fines, fines'[f], today)) &&
    (forall f, g :: nextFine <= f < g < nextFine' ==> fines'[f].loan < fines'[g].loan)
  }

  /** Each of those loans that needed a fine has got one. */
  ghost predicate CoveredBelow(loans: Loans, fines: Fines, nextFine: nat, today: Day, i: int,
                               fines': Fines, nextFine': nat)
  {
    forall id: LoanId :: id < i && NeedsNewFine(loans, fines, id, today) ==>
      exists f :: nextFine <= f < nextFine' && f in fines' && fines'[f].loan == id
  }

  /** The loop of calculate_overdue_fines over the loans with ids below `bound`;
      new fines take the ids from `nextFine` on. Returns the new tables, the
      next free fine id and the number of fines inserted. */
  method Sweep(loans: Loans, fines: Fines, nextFine: nat, bound: nat, today: Day)
    returns (loans': Loans, fines': Fines, nextFine': nat, count: nat)
    requires forall id :: id in loans ==> id < bound
    requires forall f :: f in fines ==> f < nextFine
    ensures SweepsTo(loans, fines, nextFine, today, loans', fines', nextFine')
    ensures count == nextFine' - nextFine == |Fined(loans, fines, today)|
    ensures SweptAt(loans', fines', today)
    ensures SweptAt(loans, fines, today) ==> count == 0 && loans' == loans && fines' == fines
  {
    loans', fines', nextFine', count := SweepBelow(loans, fines, nextFine, bound, today);
    FinedAll(loans, fines, today, bound);
    BelowBound(loans, fines, nextFine, today, bound, loans', fines', nextFine');
    SweepReachesSwept(loans, fines, loans', fines', nextFine, nextFine', today);
    if SweptAt(loans, fines, today) {
      SweepIdempotent(loans, fines, loans', fines', nextFine, nextFine', today);
    }
  }

  /** The whole effect of the sweep on the loans and fines: it goes from the
      old tables to the new ones as SweepsTo says, inserts one fine per loan
      that needed one, leaves a swept state, and changes nothing in a state
      that was already swept. */
  ghost predicate SweepOutcome(loans: Loans, fines: Fines, nextFine: nat, today: Day,
                               loans': Loans, fines': Fines, nextFine': nat, count: nat)
  {
    SweepsTo(loans, fines, nextFine, today, loans', fines', nextFine') &&
    count == nextFine' - nextFine == |Fined(loans, fines, today)| &&
    SweptAt(loans', fines', today) &&
    (SweptAt(loans, fines, today) ==> count == 0 && loans' == loans && fines' == fines)
  }

  /** The loop itself: after it, the loans with ids below `bound` are processed. */
  method SweepBelow(loans: Loans, fines: Fines, nextFine: nat, bound: nat, today: Day)
    returns (loans': Loans, fines': Fines, nextFine': nat, count: nat)
    requires forall f :: f in fines ==> f < nextFine
    ensures MarkedBelow(loans, today, bound, loans')
    ensures RefreshedBelow(loans, fines, today, bound, fines')
    ensures InsertedBelow(loans, fines, nextFine, today, bound, fines', nextFine')
    ensures CoveredBelow(loans, fines, nextFine, today, bound, fines', nextFine')
    ensures count == nextFine' - nextFine == |FinedBelow(loans, fines, today, bound)|
  {
    loans', fines', nextFine', count := loans, fines, nextFine, 0;
    var i := 0;
    while i < bound
      invariant 0 <= i <= bound
      invariant MarkedBelow(loans, today, i, loans')
      invariant RefreshedBelow(loans, fines, today, i, fines')
      invariant InsertedBelow(loans, fines, nextFine, today, i, fines', nextFine')
      invariant CoveredBelow(loans, fines, nextFine, today, i, fines', nextFine')
      invariant count == nextFine' - nextFine == |FinedBelow(loans, fines, today, i)|
    {
      FinedStep(loans, fines, today, i);
      if i in loans' && OverdueAt(loans'[i], today) {
        var inserted;
        loans', fines', nextFine', inserted := SweepLoan(loans, fines, nextFine, today, i, loans', fines', nextFine');
        if inserted {
          count := count + 1;
        }
      } else {
        SkipStep(loans, fines, nextFine, today, i, loans', fines', nextFine');
      }
      i := i + 1;
    }
  }

  /** Once every loan id is below `i`, the four parts make up a whole sweep. */
  lemma BelowBound(loans: Loans, fines: Fines, nextFine: nat, today: Day, i: int,
                   loans': Loans, fines': Fines, nextFine': nat)
    requires forall id :: id in loans ==> id < i
    requires MarkedBelow(loans, today, i, loans')
    requires RefreshedBelow(loans, fines, today, i, fines')
    requires InsertedBelow(loans, fines, nextFine, today, i, fines', nextFine')
    requires CoveredBelow(loans, fines, nextFine, today, i, fines', nextFine')
    ensures SweepsTo(loans, fines, nextFine, today, loans', fines', nextFine')
  {
  }

  /** Below a bound on the loan ids, the fined loans are all of them. */
  lemma FinedAll(loans: Loans, fines: Fines, today: Day, bound: int)
    requires forall id :: id in loans ==> id < bound
    ensures FinedBelow(loans, fines, today, bound) == Fined(loans, fines, today)
  {
  }

  /** The body of the sweep's loop for a selected loan `i`: bring its
      Εκκρεμής fines to today's fee, or insert one, and mark it Εκπρόθεσμος.
      `loans`, `fines` and `nextFine` are the tables before the sweep. */
  method SweepLoan(ghost loans: Loans, ghost fines: Fines, ghost nextFine: nat, today: Day, i: LoanId,
                   loansIn: Loans, finesIn: Fines, nextIn: nat)
    returns (loans': Loans, fines': Fines, nextFine': nat, inserted: bool)
    requires forall f :: f in fines ==> f < nextFine
    requires MarkedBelow(loans, today, i, loansIn)
    requires RefreshedBelow(loans, fines, today, i, finesIn)
    requires InsertedBelow(loans, fines, nextFine, today, i, finesIn, nextIn)
    requires CoveredBelow(loans, fines, nextFine, today, i, finesIn, nextIn)
    requires i in loansIn && OverdueAt(loansIn[i], today)
    ensures MarkedBelow(loans, today, i + 1, loans')
    ensures RefreshedBelow(loans, fines, today, i + 1, fines')
    ensures InsertedBelow(loans, fines, nextFine, today, i + 1, fines', nextFine')
    ensures CoveredBelow(loans, fines, nextFine, today, i + 1, fines', nextFine')
    ensures inserted <==> NeedsNewFine(loans, fines, i, today)
    ensures nextFine' == if inserted then nextIn + 1 else nextIn
  {
    loans', fines', nextFine', inserted := loansIn, finesIn, nextIn, false;
    var daysLate := today - loans'[i].due;
    if daysLate > 0 {
      var amount := LateFee(daysLate);
      MarkStep(loans, today, i, loans');
      OutstandingUnchanged(loans, fines, nextFine, today, i, fines', nextFine');
      if !HasOutstanding(fines', i) {
        InsertStep(loans, fines, nextFine, today, i, fines', nextFine');
        fines' := fines'[nextFine' := Fine(i, amount, today, Outstanding)];
        nextFine' := nextFine' + 1;
        inserted := true;
      } else {
        UpdateStep(loans, fines, nextFine, today, i, fines', nextFine');
        fines' := SetOutstandingAmount(fines', i, amount);
      }
      if loans'[i].status != Overdue {
        loans' := loans'[i := loans'[i].(status := Overdue)];
      }
    }
  }

  /** One more loan id adds that loan to the fined ones exactly when it needs a fine. */
  lemma FinedStep(loans: Loans, fines: Fines, today: Day, i: LoanId)
    ensures |FinedBelow(loans, fines, today, i + 1)| ==
      |FinedBelow(loans, fines, today, i)| + if NeedsNewFine(loans, fines, i, today) then 1 else 0
  {
    var below := FinedBelow(loans, fines, today, i);
    assert i !in below;
    if NeedsNewFine(loans, fines, i, today) {
      assert FinedBelow(loans, fines, today, i + 1) == below + {i};
    } else {
      assert FinedBelow(loans, fines, today, i + 1) == below;
    }
  }

  /** Marking the selected loan `i`, as the sweep's UPDATE Δανεισμός does when
      the loan is not Εκπρόθεσμος yet. */
  lemma MarkStep(loans: Loans, today: Day, i: LoanId, loans': Loans)
    requires MarkedBelow(loans, today, i, loans')
    requires i in loans' && OverdueAt(loans'[i], today)
    ensures i in loans && loans'[i] == loans[i]
    ensures MarkedBelow(loans, today, i + 1,
      if loans'[i].status != Overdue then loans'[i := loans'[i].(status := Overdue)] else loans')
  {
    assert loans'[i] == loans[i];
  }

  /** Before loan `i` is processed, it has an Εκκρεμής fine in the working
      table exactly when it had one at the start: the fines inserted so far
      belong to earlier loans, and refreshing a fine keeps its loan and status. */
  lemma OutstandingUnchanged(loans: Loans, fines: Fines, nextFine: nat, today: Day, i: LoanId,
                             fines': Fines, nextFine': nat)
    requires RefreshedBelow(loans, fines, today, i, fines')
    requires InsertedBelow(loans, fines, nextFine, today, i, fines', nextFine')
    ensures HasOutstanding(fines', i) == HasOutstanding(fines, i)
  {
    if HasOutstanding(fines, i) {
      var f :| f in fines && fines[f].loan == i && fines[f].status == Outstanding;
      assert fines'[f] == fines[f];
    }
    if HasOutstanding(fines', i) {
      var f :| f in fines' && fines'[f].loan == i && fines'[f].status == Outstanding;
      assert f in fines && fines'[f] == fines[f];
    }
  }

  /** A selected loan without an Εκκρεμής fine gets a new one. */
  lemma InsertStep(loans: Loans, fines: Fines, nextFine: nat, today: Day, i: LoanId,
                   fines': Fines, nextFine': nat)
    requires forall f :: f in fines ==> f < nextFine
    requires RefreshedBelow(loans, fines, today, i, fines')
    requires InsertedBelow(loans, fines, nextFine, today, i, fines', nextFine')
    requires CoveredBelow(loans, fines, nextFine, today, i, fines', nextFine')
    requires i in loans && OverdueAt(loans[i], today) && !HasOutstanding(fines, i)
    ensures NeedsNewFine(loans, fines, i, today)
    ensures RefreshedBelow(loans, fines, today, i + 1, fines'[nextFine' := SweepFine(i, loans[i], today)])
    ensures InsertedBelow(loans, fines, nextFine, today, i + 1,
                          fines'[nextFine' := SweepFine(i, loans[i], today)], nextFine' + 1)
    ensures CoveredBelow(loans, fines, nextFine, today, i + 1,
                         fines'[nextFine' := SweepFine(i, loans[i], today)], nextFine' + 1)
  {
    InsertRefreshes(loans, fines, nextFine, today, i, fines', nextFine');
    InsertCovers(loans, fines, nextFine, today, i, fines', nextFine');
  }

  lemma InsertRefreshes(loans: Loans, fines: Fines, nextFine: nat, today: Day, i: LoanId,
                        fines': Fines, nextFine': nat)
    requires forall f :: f in fines ==> f < nextFine
    requires RefreshedBelow(loans, fines, today, i, fines')
    requires nextFine <= nextFine'
    requires i in loans && !HasOutstanding(fines, i)
    ensures RefreshedBelow(loans, fines, today, i + 1, fines'[nextFine' := SweepFine(i, loans[i], today)])
  {
    var fs := fines'[nextFine' := SweepFine(i, loans[i], today)];
    forall f | f in fines
      ensures f in fs && fs[f] == if fines[f].loan < i + 1 then RefreshFine(fines[f], loans, today) else fines[f]
    {
      assert f != nextFine';
      if fines[f].loan == i {
        assert fines[f].status != Outstanding;
      }
    }
  }

  lemma InsertCovers(loans: Loans, fines: Fines, nextFine: nat, today: Day, i: LoanId,
                     fines': Fines, nextFine': nat)
    requires InsertedBelow(loans, fines, nextFine, today, i, fines', nextFine')
    requires CoveredBelow(loans, fines, nextFine, today, i, fines', nextFine')
    requires i in loans
    ensures CoveredBelow(loans, fines, nextFine, today, i + 1,
                         fines'[nextFine' := SweepFine(i, loans[i], today)], nextFine' + 1)
  {
    var fs := fines'[nextFine' := SweepFine(i, loans[i], today)];
    forall id: LoanId | id < i + 1 && NeedsNewFine(loans, fines, id, today)
      ensures exists f :: nextFine <= f < nextFine' + 1 && fs[f].loan == id
    {
      if id == i {
        assert fs[nextFine'].loan == id;
      } else {
        var f :| nextFine <= f < nextFine' && fines'[f].loan == id;
        assert fs[f].loan == id;
      }
    }
  }

  /** A selected loan with an Εκκρεμής fine has those fines refreshed. */
  lemma UpdateStep(loans: Loans, fines: Fines, nextFine: nat, today: Day, i: LoanId,
                   fines': Fines, nextFine': nat)
    requires RefreshedBelow(loans, fines, today, i, fines')
    requires InsertedBelow(loans, fines, nextFine, today, i, fines', nextFine')
    requires CoveredBelow(loans, fines, nextFine, today, i, fines', nextFine')
    requires i in loans && OverdueAt(loans[i], today) && HasOutstanding(fines, i)
    ensures !NeedsNewFine(loans, fines, i, today)
    ensures RefreshedBelow(loans, fines, today, i + 1,
                           SetOutstandingAmount(fines', i, LateFee(today - loans[i].due)))
    ensures InsertedBelow(loans, fines, nextFine, today, i + 1,
                          SetOutstandingAmount(fines', i, LateFee(today - loans[i].due)), nextFine')
    ensures CoveredBelow(loans, fines, nextFine, today, i + 1,
                         SetOutstandingAmount(fines', i, LateFee(today - loans[i].due)), nextFine')
  {
    UpdateRefreshes(loans, fines, nextFine, today, i, fines', nextFine');
    UpdateKeepsInserted(loans, fines, nextFine, today, i, fines', nextFine');
  }

  /** The UPDATE brings the loan's own Εκκρεμής fines to today's fee. */
  lemma UpdateRefreshes(loans: Loans, fines: Fines, nextFine: nat, today: Day, i: LoanId,
                        fines': Fines, nextFine': nat)
    requires RefreshedBelow(loans, fines, today, i, fines')
    requires InsertedBelow(loans, fines, nextFine, today, i, fines', nextFine')
    requires i in loans && OverdueAt(loans[i], today)
    ensures RefreshedBelow(loans, fines, today, i + 1,
                           SetOutstandingAmount(fines', i, LateFee(today - loans[i].due)))
  {
  }

  /** The UPDATE touches none of the fines the sweep inserted, which belong to
      earlier loans. */
  lemma UpdateKeepsInserted(loans: Loans, fines: Fines, nextFine: nat, today: Day, i: LoanId,
                            fines': Fines, nextFine': nat)
    requires InsertedBelow(loans, fines, nextFine, today, i, fines', nextFine')
    requires CoveredBelow(loans, fines, nextFine, today, i, fines', nextFine')
    requires i in loans && OverdueAt(loans[i], today) && HasOutstanding(fines, i)
    ensures InsertedBelow(loans, fines, nextFine, today, i + 1,
                          SetOutstandingAmount(fines', i, LateFee(today - loans[i].due)), nextFine')
    ensures CoveredBelow(loans, fines, nextFine, today, i + 1,
                         SetOutstandingAmount(fines', i, LateFee(today - loans[i].due)), nextFine')
  {
    var fs := SetOutstandingAmount(fines', i, LateFee(today - loans[i].due));
    forall f | nextFine <= f < nextFine'
      ensures fs[f] == fines'[f]
    {
    }
    forall id: LoanId | id < i + 1 && NeedsNewFine(loans, fines, id, today)
      ensures exists f :: nextFine <= f < nextFine' && fs[f].loan == id
    {
      var f :| nextFine <= f < nextFine' && fines'[f].loan == id;
      assert fs[f].loan == id;
    }
  }

  /** A loan the sweep does not select is left as it is. */
  lemma SkipStep(loans: Loans, fines: Fines, nextFine: nat, today: Day, i: LoanId,
                 loans': Loans, fines': Fines, nextFine': nat)
    requires MarkedBelow(loans, today, i, loans')
    requires RefreshedBelow(loans, fines, today, i, fines')
    requires InsertedBelow(loans, fines, nextFine, today, i, fines', nextFine')
    requires CoveredBelow(loans, fines, nextFine, today, i, fines', nextFine')
    requires !(i in loans' && OverdueAt(loans'[i], today))
    ensures !NeedsNewFine(loans, fines, i, today)
    ensures MarkedBelow(loans, today, i + 1, loans')
    ensures RefreshedBelow(loans, fines, today, i + 1, fines')
    ensures InsertedBelow(loans, fines, nextFine, today, i + 1, fines', nextFine')
    ensures CoveredBelow(loans, fines, nextFine, today, i + 1, fines', nextFine')
  {
    assert i in loans ==> loans'[i] == loans[i];
  }

  /** After the sweep the tables are swept at `today`: the sweep's own result
      needs nothing more. */
  lemma SweepReachesSwept(loans: Loans, fines: Fines, loans': Loans, fines': Fines, nextFine: nat, nextFine': nat, today: Day)
    requires SweepsTo(loans, fines, nextFine, today, loans', fines', nextFine')
    ensures SweptAt(loans', fines', today)
  {
    forall id | id in loans' && OverdueAt(loans'[id], today)
      ensures loans'[id].status == Overdue && HasOutstanding(fines', id)
      ensures forall f :: f in fines' && fines'[f].loan == id && fines'[f].status == Outstanding ==>
        fines'[f].amount == LateFee(today - loans'[id].due)
    {
      assert OverdueAt(loans[id], today);
      if HasOutstanding(fines, id) {
        var f :| f in fines && fines[f].loan == id && fines[f].status == Outstanding;
        assert fines'[f].loan == id && fines'[f].status == Outstanding;
      } else {
        assert NeedsNewFine(loans, fines, id, today);
      }
      forall f | f in fines' && fines'[f].loan == id && fines'[f].status == Outstanding
        ensures fines'[f].amount == LateFee(today - loans'[id].due)
      {
        if f in fines {
          assert fines[f].status == Outstanding;
        }
      }
    }
  }

  /** Every fine the sweep inserts belongs to a loan that needed one, so when
      no loan needs one the sweep inserts none. */
  lemma NewFinesNeeded(loans: Loans, fines: Fines, fines': Fines, nextFine: nat, nextFine': nat, today: Day)
    requires forall f :: f in fines' <==> f in fines || nextFine <= f < nextFine'
    requires forall f :: nextFine <= f < nextFine' ==> IsSweepFine(loans, fines, fines'[f], today)
    ensures forall f :: nextFine <= f < nextFine' ==> NeedsNewFine(loans, fines, fines'[f].loan, today)
    ensures (forall id :: !NeedsNewFine(loans, fines, id, today)) ==> nextFine' <= nextFine
  {
    if nextFine < nextFine' {
      assert IsSweepFine(loans, fines, fines'[nextFine], today);
      assert NeedsNewFine(loans, fines, fines'[nextFine].loan, today);
    }
  }

  /** Sweeping an already swept state inserts nothing and changes nothing, so a
      second run with the same `today` returns 0. */
  lemma SweepIdempotent(loans: Loans, fines: Fines, loans': Loans, fines': Fines, nextFine: nat, nextFine': nat, today: Day)
    requires SweptAt(loans, fines, today)
    requires SweepsTo(loans, fines, nextFine, today, loans', fines', nextFine')
    ensures nextFine' == nextFine && loans' == loans && fines' == fines
  {
    SweptIsFixedPoint(loans, fines, today);
    NewFinesNeeded(loans, fines, fines', nextFine, nextFine', today);
    assert nextFine' == nextFine;
    assert fines'.Keys == fines.Keys;
  }
}
