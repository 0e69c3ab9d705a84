/** LibraryModel: the tables of the library database that the loan,
    reservation and fine lifecycle changes, and the operations on them. Each
    operation runs its guards before its first write and either fails with
    every table unchanged or commits all of its writes. */
module Library {
  import opened Records
  import opened ReservationQueue
  import opened LoanLedger
  import opened OverdueSweep
  import opened Consistency

  class LibraryModel {
    /** Μέλος and Τεκμήριο: read here, written elsewhere. */
    const members: map<MemberId, Member>
    const books: set<Isbn>

    var copies: Copies
    var reservations: Reservations
    var loans: Loans
    var transfers: map<TransferId, Transfer>
    var fines: Fines

    /** The next AUTOINCREMENT value of each table. */
    var nextCopy: nat
    var nextReservation: nat
    var nextLoan: nat
    var nextTransfer: nat
    var nextFine: nat

    /** The consistency every operation keeps: ids come from the counters, the
        reservation queues are well formed, copy statuses agree with the open
        loans, every loan row is well formed and its transfer exists. */
    ghost predicate Valid()
      reads this
    {
      ValidTables(copies, reservations, loans, transfers, fines, nextCopy, nextReservation, nextLoan, nextTransfer, nextFine)
    }

    /** A database with the given members and catalogue and no copies,
        reservations, loans, transfers or fines. */
    constructor(members: map<MemberId, Member>, books: set<Isbn>)
      ensures Valid()
      ensures this.members == members && this.books == books
      ensures copies == map[] && reservations == map[] && loans == map[] && transfers == map[] && fines == map[]
    {
      this.members := members;
      this.books := books;
      copies, reservations, loans, transfers, fines := map[], map[], map[], map[], map[];
      nextCopy, nextReservation, nextLoan, nextTransfer, nextFine := 1, 1, 1, 1, 1;
    }

    /** create_ebook_loan: refused while the member has a Ενεργός loan of the
        e-book; otherwise a Ενεργός loan with no copy, due in three weeks. */
    method CreateEbookLoan(member: MemberId, ebook: EbookId, today: Day) returns (r: Outcome<LoanId>)
      requires Valid()
      modifies this
      ensures Valid()
      ensures r.Failure? <==> old(LendsEbook(loans, member, ebook))
      ensures r.Failure? ==> r.error == EbookAlreadyLent && unchanged(this)
      ensures r.Success? ==>
        r.value == old(nextLoan) && r.value !in old(loans) &&
        loans == old(loans)[r.value := Loan(member, None, Some(ebook), None, Current, today, DueDate(today), None)] &&
        nextLoan == old(nextLoan) + 1 &&
        copies == old(copies) && reservations == old(reservations) && transfers == old(transfers) &&
        fines == old(fines) && nextCopy == old(nextCopy) && nextReservation == old(nextReservation) &&
        nextTransfer == old(nextTransfer) && nextFine == old(nextFine)
    {
      if LendsEbook(loans, member, ebook) {
        return Failure(EbookAlreadyLent);
      }
      var loan := Loan(member, None, Some(ebook), None, Current, today, DueDate(today), None);
      LendEbookConsistent(copies, loans, transfers, nextLoan, loan);
      loans := loans[nextLoan := loan];
      r := Success(nextLoan);
      nextLoan := nextLoan + 1;
    }

    /** create_reservation: refused while the member already waits for the
        ISBN; otherwise the member joins the end of its queue, with priority
        one above the largest waiting priority, or 1 in an empty queue. The
        result is that priority. */
    method CreateReservation(member: MemberId, isbn: Isbn, today: Day) returns (r: Outcome<int>)
      requires Valid()
      modifies this
      ensures Valid()
      ensures r.Failure? <==> old(HasActive(reservations, member, isbn))
      ensures r.Failure? ==> r.error == DuplicateReservation && unchanged(this)
      ensures r.Success? ==>
        IsNextPriority(old(reservations), isbn, r.value) && r.value >= 1 &&
        old(nextReservation) !in old(reservations) &&
        reservations == old(reservations)[old(nextReservation) := Reservation(member, isbn, Active, r.value, today)] &&
        nextReservation == old(nextReservation) + 1 &&
        copies == old(copies) && loans == old(loans) && transfers == old(transfers) && fines == old(fines) &&
        nextCopy == old(nextCopy) && nextLoan == old(nextLoan) && nextTransfer == old(nextTransfer) &&
        nextFine == old(nextFine)
    {
      if HasActive(reservations, member, isbn) {
        return Failure(DuplicateReservation);
      }
      var priority := NextPriority(reservations, isbn);
      EnqueueKeepsWellFormed(reservations, nextReservation, member, isbn, priority, today);
      reservations := reservations[nextReservation := Reservation(member, isbn, Active, priority, today)];
      nextReservation := nextReservation + 1;
      r := Success(priority);
    }

    /** cancel_reservation: refused for an unknown reservation or one that no
        longer waits; otherwise only that reservation becomes Ακυρωμένη and
        every other priority stays as it is. */
    method CancelReservation(id: ReservationId) returns (r: Outcome<()>)
      requires Valid()
      modifies this
      ensures Valid()
      ensures id !in old(reservations) ==> r == Failure(ReservationNotFound)
      ensures id in old(reservations) && old(reservations)[id].status != Active ==>
        r == Failure(ReservationClosed(old(reservations)[id].status))
      ensures r.Failure? ==> unchanged(this)
      ensures r.Success? <==> id in old(reservations) && old(reservations)[id].status == Active
      ensures r.Success? ==>
        reservations == old(reservations)[id := old(reservations)[id].(status := Cancelled)] &&
        copies == old(copies) && loans == old(loans) && transfers == old(transfers) && fines == old(fines) &&
        nextCopy == old(nextCopy) && nextReservation == old(nextReservation) && nextLoan == old(nextLoan) &&
        nextTransfer == old(nextTransfer) && nextFine == old(nextFine)
    {
      if id !in reservations {
        return Failure(ReservationNotFound);
      }
      if reservations[id].status != Active {
        return Failure(ReservationClosed(reservations[id].status));
      }
      CancelKeepsWellFormed(reservations, id);
      reservations := reservations[id := reservations[id].(status := Cancelled)];
      r := Success(());
    }

    /** add_copy: refused for an ISBN that is not in the catalogue; otherwise
        a new Διαθέσιμο copy. */
    method AddCopy(isbn: Isbn, library: LibraryId, condition: string := "Καλή") returns (r: Outcome<CopyId>)
      requires Valid()
      modifies this
      ensures Valid()
      ensures r.Failure? <==> isbn !in books
      ensures r.Failure? ==> r.error == BookNotFound && unchanged(this)
      ensures r.Success? ==>
        r.value == old(nextCopy) && r.value !in old(copies) &&
        copies == old(copies)[r.value := Copy(isbn, library, condition, Available)] &&
        nextCopy == old(nextCopy) + 1 &&
        reservations == old(reservations) && loans == old(loans) && transfers == old(transfers) &&
        fines == old(fines) && nextReservation == old(nextReservation) && nextLoan == old(nextLoan) &&
        nextTransfer == old(nextTransfer) && nextFine == old(nextFine)
    {
      if isbn !in books {
        return Failure(BookNotFound);
      }
      var copy := Copy(isbn, library, condition, Available);
      AddCopyKeeps(copies, loans, nextCopy, copy);
      CopiesConsistent(copies, loans, transfers, copies[nextCopy := copy]);
      copies := copies[nextCopy := copy];
      r := Success(nextCopy);
      nextCopy := nextCopy + 1;
    }

    /** delete_copy: refused while a Ενεργός or Εκπρόθεσμος loan holds the
        copy, then for an unknown copy; otherwise the copy is removed. */
    method DeleteCopy(c: CopyId) returns (r: Outcome<()>)
      requires Valid()
      modifies this
      ensures Valid()
      ensures old(OpenOn(loans, c)) ==> r == Failure(CopyLent)
      ensures !old(OpenOn(loans, c)) && c !in old(copies) ==> r == Failure(CopyNotFound)
      ensures r.Failure? ==> unchanged(this)
      ensures r.Success? <==> !old(OpenOn(loans, c)) && c in old(copies)
      ensures r.Success? ==>
        copies == old(copies) - {c} &&
        reservations == old(reservations) && loans == old(loans) && transfers == old(transfers) &&
        fines == old(fines) && nextCopy == old(nextCopy) && nextReservation == old(nextReservation) &&
        nextLoan == old(nextLoan) && nextTransfer == old(nextTransfer) && nextFine == old(nextFine)
    {
      if OpenOn(loans, c) {
        return Failure(CopyLent);
      }
      if c !in copies {
        return Failure(CopyNotFound);
      }
      RemoveCopyKeeps(copies, loans, c);
      CopiesConsistent(copies, loans, transfers, copies - {c});
      copies := copies - {c};
      r := Success(());
    }

    /** create_loan. The guards run in order: the member exists, the copy
        exists, the copy is Διαθέσιμο, and the first reservation in the queue
        of its ISBN, if any, is the member's. The first that fails decides the
        error and nothing changes. Otherwise the member's reservation is
        fulfilled and every other waiting reservation of the ISBN moves up by
        one; a transfer from the copy's library to the member's is recorded
        when the two differ, and is the result; the loan is inserted, Ενεργός
        and due in three weeks; and the copy becomes Δανεισμένο. */
    method CreateLoan(member: MemberId, c: CopyId, today: Day) returns (r: Outcome<Option<TransferId>>)
      requires Valid()
      modifies this
      ensures Valid()
      ensures r == Failure(MemberNotFound) <==> member !in members
      ensures r == Failure(CopyNotFound) <==> member in members && c !in old(copies)
      ensures r.Failure? && r.error.CopyNotAvailable? <==>
        member in members && c in old(copies) && old(copies)[c].status != Available
      ensures r.Failure? && r.error.CopyNotAvailable? ==> r.error.copyStatus == old(copies)[c].status
      ensures r.Failure? && r.error.ReservedFor? <==>
        member in members && c in old(copies) && old(copies)[c].status == Available &&
        !MayBorrow(old(reservations), old(copies)[c].isbn, member)
      ensures r.Failure? && r.error.ReservedFor? ==>
        r.error.holder != member &&
        exists first :: IsFirstInLine(old(reservations), old(copies)[c].isbn, first) &&
          old(reservations)[first].member == r.error.holder
      ensures r.Failure? ==> unchanged(this)
      ensures r.Success? <==>
        member in members && c in old(copies) && old(copies)[c].status == Available &&
        MayBorrow(old(reservations), old(copies)[c].isbn, member)
      ensures r.Success? ==> LoanGranted(member, c, today, r.value)
    {
      if member !in members {
        return Failure(MemberNotFound);
      }
      var home := members[member].library;
      if c !in copies {
        return Failure(CopyNotFound);
      }
      var copy := copies[c];
      if copy.status != Available {
        return Failure(CopyNotAvailable(copy.status));
      }
      var first := FirstInLine(reservations, copy.isbn);
      if first.Some? {
        MayBorrowFirst(reservations, copy.isbn, member, first.value);
        if reservations[first.value].member != member {
          return Failure(ReservedFor(reservations[first.value].member));
        }
      }

      GrantQueue(member, copy.isbn, first);
      var transfer := None;
      if copy.library != home {
        var id := RecordTransfer(copy.library, home);
        transfer := Some(id);
      }
      var _ := LendCopy(member, c, today, transfer);
      r := Success(transfer);
    }

    /** The tables after create_loan has lent copy `c` to `member`: the queue
        of the copy's ISBN is Granted, the transfer, if any, is new and goes
        from the copy's library to the member's, and exists exactly when the
        two differ; the loan is new, Ενεργός, due in three weeks and linked to
        the transfer; the copy is Δανεισμένο; nothing else changes. */
    twostate predicate LoanGranted(member: MemberId, c: CopyId, today: Day, new transfer: Option<TransferId>)
      reads this
    {
      member in members && c in old(copies) &&
      var copy, home := old(copies)[c], members[member].library;
      reservations == Granted(old(reservations), member, copy.isbn) &&
      (transfer.Some? <==> copy.library != home) &&
      (transfer.Some? ==>
        transfer.value == old(nextTransfer) && transfer.value !in old(transfers) &&
        transfers == old(transfers)[transfer.value := Transfer(copy.library, home, InTransit)] &&
        nextTransfer == old(nextTransfer) + 1) &&
      (transfer.None? ==> transfers == old(transfers) && nextTransfer == old(nextTransfer)) &&
      old(nextLoan) !in old(loans) &&
      loans == old(loans)[old(nextLoan) := Loan(member, Some(c), None, transfer, Current, today, DueDate(today), None)] &&
      nextLoan == old(nextLoan) + 1 &&
      copies == old(copies)[c := copy.(status := Loaned)] &&
      fines == old(fines) && nextCopy == old(nextCopy) && nextReservation == old(nextReservation) &&
      nextFine == old(nextFine)
    }

    /** The two UPDATEs of create_loan on the reservations. */
    method GrantQueue(member: MemberId, isbn: Isbn, first: Option<ReservationId>)
      requires Valid()
      requires first.None? ==> QueueEmpty(reservations, isbn)
      requires first.Some? ==>
        IsFirstInLine(reservations, isbn, first.value) && reservations[first.value].member == member
      modifies this
      ensures Valid()
      ensures reservations == Granted(old(reservations), member, isbn)
      ensures copies == old(copies) && loans == old(loans) && transfers == old(transfers) && fines == old(fines) &&
        nextCopy == old(nextCopy) && nextReservation == old(nextReservation) && nextLoan == old(nextLoan) &&
        nextTransfer == old(nextTransfer) && nextFine == old(nextFine)
    {
      reservations := Grant(reservations, member, isbn, first);
    }

    /** INSERT INTO Διαδανεισμός: a transfer from one library to another. */
    method RecordTransfer(sender: LibraryId, receiver: LibraryId) returns (id: TransferId)
      requires Valid()
      modifies this
      ensures Valid()
      ensures id == old(nextTransfer) && id !in old(transfers)
      ensures transfers == old(transfers)[id := Transfer(sender, receiver, InTransit)] && nextTransfer == old(nextTransfer) + 1
      ensures copies == old(copies) && reservations == old(reservations) && loans == old(loans) && fines == old(fines) &&
        nextCopy == old(nextCopy) && nextReservation == old(nextReservation) && nextLoan == old(nextLoan) &&
        nextFine == old(nextFine)
    {
      id := nextTransfer;
      transfers, nextTransfer := transfers[id := Transfer(sender, receiver, InTransit)], nextTransfer + 1;
    }

    /** INSERT INTO Δανεισμός and the UPDATE of the copy to Δανεισμένο. */
    method LendCopy(member: MemberId, c: CopyId, today: Day, transfer: Option<TransferId>) returns (id: LoanId)
      requires Valid()
      requires c in copies && copies[c].status == Available
      requires transfer.Some? ==> transfer.value in transfers
      modifies this
      ensures Valid()
      ensures id == old(nextLoan) && id !in old(loans)
      ensures loans == old(loans)[id := Loan(member, Some(c), None, transfer, Current, today, DueDate(today), None)] &&
        nextLoan == old(nextLoan) + 1
      ensures copies == old(copies)[c := old(copies)[c].(status := Loaned)]
      ensures reservations == old(reservations) && transfers == old(transfers) && fines == old(fines) &&
        nextCopy == old(nextCopy) && nextReservation == old(nextReservation) && nextTransfer == old(nextTransfer) &&
        nextFine == old(nextFine)
    {
      var loan := Loan(member, Some(c), None, transfer, Current, today, DueDate(today), None);
      LendConsistent(copies, loans, transfers, transfers, c, nextLoan, loan);
      id := nextLoan;
      loans, nextLoan, copies := loans[id := loan], nextLoan + 1, copies[c := copies[c].(status := Loaned)];
    }

    /** return_loan: refused for an unknown loan or one already
        Ολοκληρωμένος; otherwise the loan is completed today, its copy, if it
        has one, becomes Διαθέσιμο, and a loan that was stored as Εκπρόθεσμος
        gets a new Εκκρεμής fine for its days late. The fine is added even when
        the loan already has an Εκκρεμής one. */
    method ReturnLoan(id: LoanId, today: Day) returns (r: Outcome<()>)
      requires Valid()
      modifies this
      ensures Valid()
      ensures id !in old(loans) ==> r == Failure(LoanNotFound)
      ensures id in old(loans) && old(loans)[id].status == Completed ==> r == Failure(LoanAlreadyCompleted)
      ensures r.Failure? ==> unchanged(this)
      ensures r.Success? <==> id in old(loans) && old(loans)[id].status != Completed
      ensures r.Success? ==>
        var loan := old(loans)[id];
        loans == old(loans)[id := loan.(status := Completed, returned := Some(today))] &&
        copies == FreeCopy(old(copies), loan.copy) &&
        (loan.status == Overdue ==>
          old(nextFine) !in old(fines) &&
          fines == old(fines)[old(nextFine) := Fine(id, LateFee(today - loan.due), today, Outstanding)] &&
          nextFine == old(nextFine) + 1) &&
        (loan.status != Overdue ==> fines == old(fines) && nextFine == old(nextFine)) &&
        reservations == old(reservations) && transfers == old(transfers) && nextCopy == old(nextCopy) &&
        nextReservation == old(nextReservation) && nextLoan == old(nextLoan) && nextTransfer == old(nextTransfer)
    {
      if id !in loans {
        return Failure(LoanNotFound);
      }
      var loan := loans[id];
      if loan.status == Completed {
        return Failure(LoanAlreadyCompleted);
      }
      CloseLoan(id, today);
      if loan.status == Overdue {
        var _ := ImposeFine(id, LateFee(today - loan.due), today);
      }
      r := Success(());
    }

    /** The two UPDATEs of return_loan: the open loan `id` is completed today
        and its copy, if it has one, becomes Διαθέσιμο. */
    method CloseLoan(id: LoanId, today: Day)
      requires Valid() && id in loans && IsOpen(loans[id])
      modifies this`loans, this`copies
      ensures Valid()
      ensures loans == old(loans)[id := old(loans)[id].(status := Completed, returned := Some(today))]
      ensures copies == FreeCopy(old(copies), old(loans)[id].copy)
    {
      ReturnConsistent(copies, loans, transfers, id, today);
      loans, copies := loans[id := loans[id].(status := Completed, returned := Some(today))], FreeCopy(copies, loans[id].copy);
    }

    /** update_fine_status: sets the status of the fine, if it exists. The
        result is the number of rows changed. */
    method UpdateFineStatus(id: FineId, status: FineStatus) returns (r: Outcome<nat>)
      requires Valid()
      modifies this
      ensures Valid()
      ensures r == Success(if id in old(fines) then 1 else 0)
      ensures fines == if id in old(fines) then old(fines)[id := old(fines)[id].(status := status)] else old(fines)
      ensures copies == old(copies) && reservations == old(reservations) && loans == old(loans) &&
        transfers == old(transfers) && nextCopy == old(nextCopy) && nextReservation == old(nextReservation) &&
        nextLoan == old(nextLoan) && nextTransfer == old(nextTransfer) && nextFine == old(nextFine)
    {
      if id in fines {
        fines := fines[id := fines[id].(status := status)];
        r := Success(1);
      } else {
        r := Success(0);
      }
    }

    /** impose_fine: a new Εκκρεμής fine of the given amount, imposed today. */
    method ImposeFine(loan: LoanId, amount: Cents, today: Day) returns (r: Outcome<FineId>)
      requires Valid()
      modifies this`fines, this`nextFine
      ensures Valid()
      ensures r == Success(old(nextFine)) && old(nextFine) !in old(fines)
      ensures fines == old(fines)[old(nextFine) := Fine(loan, amount, today, Outstanding)]
      ensures nextFine == old(nextFine) + 1
    {
      fines := fines[nextFine := Fine(loan, amount, today, Outstanding)];
      r := Success(nextFine);
      nextFine := nextFine + 1;
    }

    /** calculate_overdue_fines: every Ενεργός or Εκπρόθεσμος loan past its
        due date becomes Εκπρόθεσμος; its Εκκρεμής fines are brought to today's
        fee, or one is inserted when it has none. Returns the number of fines
        inserted; on a state it has already swept it changes nothing and
        returns 0. */
    method CalculateOverdueFines(today: Day) returns (count: nat)
      requires Valid()
      modifies this`loans, this`fines, this`nextFine
      ensures Valid()
      ensures SweepOutcome(old(loans), old(fines), old(nextFine), today, loans, fines, nextFine, count)
    {
      var loans', fines', nextFine';
      loans', fines', nextFine', count := Sweep(loans, fines, nextFine, nextLoan, today);
      SweepValid(copies, reservations, loans, transfers, fines, nextCopy, nextReservation, nextLoan, nextTransfer, nextFine,
                 loans', fines', nextFine', today);
      loans, fines, nextFine := loans', fines', nextFine';
    }
  }
}
