/** Rows of the library database tables that the loan, reservation and fine
    lifecycle reads and writes, and the two fixed lending policies. */
module Records {

  type MemberId = nat
  type LibraryId = nat
  type CopyId = nat
  type EbookId = nat
  type ReservationId = nat
  type LoanId = nat
  type TransferId = nat
  type FineId = nat
  type Isbn = string

  /** A calendar date as a day number. The database keeps 'YYYY-MM-DD' strings,
      whose lexicographic order is the order of these numbers. */
  type Day = int

  /** Money in euro cents: the database's float euros times 100. */
  type Cents = int

  datatype Option<+T> = None | Some(value: T)

  /** A row of Μέλος; the lifecycle only reads the member's home library. */
  datatype Member = Member(library: LibraryId)

  /** Αντίτυπο.Status: Διαθέσιμο or Δανεισμένο. */
  datatype CopyStatus = Available | Loaned

  /** A row of Αντίτυπο, one physical copy of a catalogue item. */
  datatype Copy = Copy(isbn: Isbn, library: LibraryId, condition: string, status: CopyStatus)

  /** Κράτηση.Κατάσταση: Ενεργή, Ολοκληρωμένη or Ακυρωμένη. */
  datatype ReservationStatus = Active | Fulfilled | Cancelled

  /** A row of Κράτηση: a place in the waiting list of one ISBN. */
  datatype Reservation = Reservation(
    member: MemberId, isbn: Isbn, status: ReservationStatus, priority: int, date: Day)

  /** Δανεισμός.Κατάσταση: Ενεργός, Εκπρόθεσμος or Ολοκληρωμένος. */
  datatype LoanStatus = Current | Overdue | Completed

  /** A row of Δανεισμός. A physical loan names a copy, an e-book loan names an
      e-book; `transfer` links the inter-library transfer made for the loan. */
  datatype Loan = Loan(
    member: MemberId, copy: Option<CopyId>, ebook: Option<EbookId>,
    transfer: Option<TransferId>, status: LoanStatus,
    start: Day, due: Day, returned: Option<Day>)

  /** Διαδανεισμός.Κατάσταση: the only value ever written is 'Σε Μεταφορά'. */
  datatype TransferStatus = InTransit

  /** A row of Διαδανεισμός: a copy travelling from its library to the borrower's. */
  datatype Transfer = Transfer(sender: LibraryId, receiver: LibraryId, status: TransferStatus)

  /** Πρόστιμο.Κατάσταση: Εκκρεμής, Πληρωμένο, or a third, administrative value. */
  datatype FineStatus = Outstanding | Paid | Annulled

  /** A row of Πρόστιμο. */
  datatype Fine = Fine(loan: LoanId, amount: Cents, imposed: Day, status: FineStatus)

  /** Why an operation refused; each matches one failure message of the source. */
  datatype Error =
    | MemberNotFound
    | CopyNotFound
    | CopyNotAvailable(copyStatus: CopyStatus)
    | ReservedFor(holder: MemberId)
    | DuplicateReservation
    | ReservationNotFound
    | ReservationClosed(reservationStatus: ReservationStatus)
    | LoanNotFound
    | LoanAlreadyCompleted
    | EbookAlreadyLent
    | BookNotFound
    | CopyLent

  /** The (success, message) pair the operations return. */
  datatype Outcome<+T> = Success(value: T) | Failure(error: Error)

  /** Every loan runs for three weeks. */
  const LoanPeriodDays := 21

  /** A late item costs 0.50 euro per day. */
  const FeePerDayCents := 50

  function DueDate(start: Day): Day
  {
    start + LoanPeriodDays
  }

  function LateFee(daysLate: int): Cents
  {
    FeePerDayCents * daysLate
  }
}
