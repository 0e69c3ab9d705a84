/** The waiting list of each ISBN, kept in the table Κράτηση: which reservations
    are in the queue, who is first, what priority a newcomer gets, and what
    fulfilling the head of the queue does to the others. */
module ReservationQueue {
  import opened Records

  type Reservations = map<ReservationId, Reservation>

  /** `r` waits in the queue of `isbn`. */
  predicate InQueue(r: Reservation, isbn: Isbn)
  {
    r.status == Active && r.isbn == isbn
  }

  /** The member already waits for the ISBN. */
  predicate HasActive(rs: Reservations, member: MemberId, isbn: Isbn)
  {
    exists id :: id in rs && InQueue(rs[id], isbn) && rs[id].member == member
  }

  predicate QueueEmpty(rs: Reservations, isbn: Isbn)
  {
    forall id :: id in rs ==> !InQueue(rs[id], isbn)
  }

  /** `id` has the smallest priority in the queue of `isbn`: it is the row
      `ORDER BY Προτεραιότητα` lists first. */
  ghost predicate IsFirstInLine(rs: Reservations, isbn: Isbn, id: ReservationId)
  {
    id in rs && InQueue(rs[id], isbn) &&
    forall other :: other in rs && InQueue(rs[other], isbn) ==> rs[id].priority <= rs[other].priority
  }

  /** `p` is COALESCE(MAX(priority), 0) + 1 over the queue of `isbn`. */
  ghost predicate IsNextPriority(rs: Reservations, isbn: Isbn, p: int)
  {
    if QueueEmpty(rs, isbn) then p == 1
    else
      (forall id :: id in rs && InQueue(rs[id], isbn) ==> rs[id].priority < p) &&
      (exists id :: id in rs && InQueue(rs[id], isbn) && rs[id].priority == p - 1)
  }

  /** The loan may go to `member`: nobody waits, or the member is first in line. */
  ghost predicate MayBorrow(rs: Reservations, isbn: Isbn, member: MemberId)
  {
    QueueEmpty(rs, isbn) || exists id :: IsFirstInLine(rs, isbn, id) && rs[id].member == member
  }

  /** Reservations `i` and `j` both wait in the queue of one ISBN. */
  ghost predicate SameQueue(rs: Reservations, i: ReservationId, j: ReservationId)
  {
    i in rs && j in rs && rs[i].status == Active && rs[j].status == Active && rs[i].isbn == rs[j].isbn
  }

  /** The queue invariant: every waiting reservation has a priority of at least
      1, and within one ISBN no two waiting reservations share a priority or a
      member. The priorities need not be 1..N: cancellation leaves gaps. */
  ghost predicate WellFormed(rs: Reservations)
  {
    (forall id :: id in rs && rs[id].status == Active ==> rs[id].priority >= 1) &&
    (forall i, j :: SameQueue(rs, i, j) && i != j ==>
       rs[i].priority != rs[j].priority && rs[i].member != rs[j].member)
  }

  /** UPDATE Κράτηση SET Κατάσταση = 'Ολοκληρωμένη' for the member's waiting
      reservations of the ISBN. */
  function CompleteFor(rs: Reservations, member: MemberId, isbn: Isbn): Reservations
  {
    map id | id in rs ::
      if InQueue(rs[id], isbn) && rs[id].member == member then rs[id].(status := Fulfilled) else rs[id]
  }

  /** UPDATE Κράτηση SET Προτεραιότητα = Προτεραιότητα - 1 for the waiting
      reservations of the ISBN whose priority exceeds `p`. */
  function MoveUp(rs: Reservations, isbn: Isbn, p: int): Reservations
  {
    map id | id in rs ::
      if InQueue(rs[id], isbn) && rs[id].priority > p then rs[id].(priority := rs[id].priority - 1) else rs[id]
  }

  /** What granting a loan does to the queue, `p` being the priority of the
      first reservation in line. */
  function Fulfil(rs: Reservations, member: MemberId, isbn: Isbn, p: int): Reservations
  {
    MoveUp(CompleteFor(rs, member, isbn), isbn, p)
  }

  /** What granting a loan to `member` should do to the queue of `isbn`: the
      member's waiting reservation is fulfilled, every other waiting
      reservation moves up by one, and the other reservations stay as they
      are. */
  function Granted(rs: Reservations, member: MemberId, isbn: Isbn): Reservations
  {
    map id | id in rs ::
      if InQueue(rs[id], isbn) && rs[id].member == member then rs[id].(status := Fulfilled)
      else if InQueue(rs[id], isbn) then rs[id].(priority := rs[id].priority - 1)
      else rs[id]
  }

  /** The scan behind SELECT COALESCE(MAX(Προτεραιότητα), 0) + 1 ... WHERE ISBN = ?
      AND Κατάσταση = 'Ενεργή'. */
  method NextPriority(rs: Reservations, isbn: Isbn) returns (p: int)
    ensures IsNextPriority(rs, isbn, p)
  {
    var found, best := false, 0;
    var todo := rs.Keys;
    while todo != {}
      invariant todo <= rs.Keys
      invariant found <==> exists id :: id in rs.Keys - todo && InQueue(rs[id], isbn)
      invariant !found ==> best == 0
      invariant forall id :: id in rs.Keys - todo && InQueue(rs[id], isbn) ==> rs[id].priority <= best
      invariant found ==> exists id :: id in rs.Keys - todo && InQueue(rs[id], isbn) && rs[id].priority == best
      decreases todo
    {
      var id :| id in todo;
      if InQueue(rs[id], isbn) && (!found || rs[id].priority > best) {
        best := rs[id].priority;
        found := true;
      }
      todo := todo - {id};
    }
    p := best + 1;
  }

  /** The scan behind SELECT ... WHERE ISBN = ? AND Κατάσταση = 'Ενεργή' ORDER BY
      Προτεραιότητα, keeping the first row. */
  method FirstInLine(rs: Reservations, isbn: Isbn) returns (first: Option<ReservationId>)
    ensures first.None? <==> QueueEmpty(rs, isbn)
    ensures first.Some? ==> IsFirstInLine(rs, isbn, first.value)
  {
    first := None;
    var todo := rs.Keys;
    while todo != {}
      invariant todo <= rs.Keys
      invariant first.None? <==> forall id :: id in rs.Keys - todo ==> !InQueue(rs[id], isbn)
      invariant first.Some? ==> first.value in rs.Keys - todo && InQueue(rs[first.value], isbn)
      invariant first.Some? ==>
        forall id :: id in rs.Keys - todo && InQueue(rs[id], isbn) ==> rs[first.value].priority <= rs[id].priority
      decreases todo
    {
      var id :| id in todo;
      if InQueue(rs[id], isbn) && (first.None? || rs[id].priority < rs[first.value].priority) {
        first := Some(id);
      }
      todo := todo - {id};
    }
  }

  /** Appending with max + 1 keeps the queue well formed, and the newcomer's
      priority is above every other priority in the queue. */
  lemma EnqueueKeepsWellFormed(
    rs: Reservations, id: ReservationId, member: MemberId, isbn: Isbn, p: int, date: Day)
    requires WellFormed(rs) && id !in rs
    requires !HasActive(rs, member, isbn) && IsNextPriority(rs, isbn, p)
    ensures p >= 1
    ensures forall other :: other in rs && InQueue(rs[other], isbn) ==> rs[other].priority < p
    ensures WellFormed(rs[id := Reservation(member, isbn, Active, p, date)])
  {
    if !QueueEmpty(rs, isbn) {
      var w :| w in rs && InQueue(rs[w], isbn) && rs[w].priority == p - 1;
      assert rs[w].priority >= 1;
    }
  }

  /** Cancelling only takes a reservation out of its queue. */
  lemma CancelKeepsWellFormed(rs: Reservations, id: ReservationId)
    requires WellFormed(rs) && id in rs
    ensures WellFormed(rs[id := rs[id].(status := Cancelled)])
  {
  }

  /** Cancelling leaves the remaining priorities as they were, so the queue can
      have a gap: cancelling the second of three waiting reservations leaves
      priorities 1 and 3 and no 2. */
  lemma CancelLeavesGap(isbn: Isbn)
    ensures
      var rs := map[1 := Reservation(10, isbn, Active, 1, 0),
                    2 := Reservation(11, isbn, Active, 2, 0),
                    3 := Reservation(12, isbn, Active, 3, 0)];
      var after := rs[2 := rs[2].(status := Cancelled)];
      WellFormed(after) &&
      (exists id :: id in after && InQueue(after[id], isbn) && after[id].priority == 3) &&
      !(exists id :: id in after && InQueue(after[id], isbn) && after[id].priority == 2)
  {
    var rs := map[1 := Reservation(10, isbn, Active, 1, 0),
                  2 := Reservation(11, isbn, Active, 2, 0),
                  3 := Reservation(12, isbn, Active, 3, 0)];
    var after := rs[2 := rs[2].(status := Cancelled)];
    assert InQueue(after[3], isbn) && after[3].priority == 3;
  }

  /** In a well-formed queue the first in line is unique. */
  lemma FirstInLineUnique(rs: Reservations, isbn: Isbn, a: ReservationId, b: ReservationId)
    requires WellFormed(rs) && IsFirstInLine(rs, isbn, a) && IsFirstInLine(rs, isbn, b)
    ensures a == b
  {
  }

  /** In a well-formed queue, MayBorrow says that the (unique) first in line is
      the member. */
  lemma MayBorrowFirst(rs: Reservations, isbn: Isbn, member: MemberId, first: ReservationId)
    requires WellFormed(rs) && IsFirstInLine(rs, isbn, first)
    ensures MayBorrow(rs, isbn, member) <==> rs[first].member == member
  {
    if MayBorrow(rs, isbn, member) {
      assert !QueueEmpty(rs, isbn) by { assert InQueue(rs[first], isbn); }
      var id :| IsFirstInLine(rs, isbn, id) && rs[id].member == member;
      FirstInLineUnique(rs, isbn, id, first);
    }
  }

  /** The two UPDATEs create_loan runs on Κράτηση once the guards have
      passed, `first` being the head of the queue the guards found (None when
      nobody waits): the queue is Granted to the member and stays well formed. */
  method Grant(rs: Reservations, member: MemberId, isbn: Isbn, first: Option<ReservationId>)
    returns (rs': Reservations)
    requires WellFormed(rs)
    requires first.None? ==> QueueEmpty(rs, isbn)
    requires first.Some? ==> IsFirstInLine(rs, isbn, first.value) && rs[first.value].member == member
    ensures rs' == Granted(rs, member, isbn) && WellFormed(rs')
  {
    if first.Some? {
      FulfilFirst(rs, member, isbn, first.value);
      GrantedKeepsWellFormed(rs, member, isbn, first.value);
      rs' := Fulfil(rs, member, isbn, rs[first.value].priority);
    } else {
      GrantedEmpty(rs, member, isbn);
      rs' := rs;
    }
  }

  /** With nobody waiting, granting a loan leaves the queue as it is. */
  lemma GrantedEmpty(rs: Reservations, member: MemberId, isbn: Isbn)
    requires QueueEmpty(rs, isbn)
    ensures Granted(rs, member, isbn) == rs
  {
  }

  /** Granting a loan to the first in line marks that reservation fulfilled,
      moves every other reservation of the same queue up by exactly one and
      leaves every other reservation alone. */
  lemma GrantedFirst(rs: Reservations, member: MemberId, isbn: Isbn, first: ReservationId)
    requires WellFormed(rs) && IsFirstInLine(rs, isbn, first) && rs[first].member == member
    ensures Granted(rs, member, isbn).Keys == rs.Keys
    ensures Granted(rs, member, isbn)[first] == rs[first].(status := Fulfilled)
    ensures forall id :: id in rs && id != first ==>
      Granted(rs, member, isbn)[id] ==
        if InQueue(rs[id], isbn) then rs[id].(priority := rs[id].priority - 1) else rs[id]
  {
    forall id | id in rs && id != first && InQueue(rs[id], isbn)
      ensures rs[id].member != member
    {
      assert SameQueue(rs, id, first);
    }
  }

  /** ... and keeps the queues well formed. */
  lemma GrantedKeepsWellFormed(rs: Reservations, member: MemberId, isbn: Isbn, first: ReservationId)
    requires WellFormed(rs) && IsFirstInLine(rs, isbn, first) && rs[first].member == member
    ensures WellFormed(Granted(rs, member, isbn))
  {
    GrantedFirst(rs, member, isbn, first);
    var after := Granted(rs, member, isbn);
    forall id | id in after && after[id].status == Active
      ensures after[id].priority >= 1
    {
      if InQueue(rs[id], isbn) {
        assert SameQueue(rs, id, first);
      }
    }
    forall i, j | SameQueue(after, i, j) && i != j
      ensures after[i].priority != after[j].priority && after[i].member != after[j].member
    {
      assert SameQueue(rs, i, j);
    }
  }

  /** The two UPDATEs, run in their order with the first in line's priority,
      compute Granted. */
  lemma FulfilFirst(rs: Reservations, member: MemberId, isbn: Isbn, first: ReservationId)
    requires WellFormed(rs) && IsFirstInLine(rs, isbn, first) && rs[first].member == member
    ensures Fulfil(rs, member, isbn, rs[first].priority) == Granted(rs, member, isbn)
  {
    var p := rs[first].priority;
    var done := CompleteFor(rs, member, isbn);
    var after := Fulfil(rs, member, isbn, p);
    assert after == MoveUp(done, isbn, p);
    forall id | id in rs
      ensures after[id] == Granted(rs, member, isbn)[id]
    {
      if InQueue(rs[id], isbn) && id != first {
        assert SameQueue(rs, id, first);
      }
    }
  }
}
