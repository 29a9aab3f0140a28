/**
 * The library's entities and the store the circulation resolvers read and
 * write. Primary keys are natural numbers; a row's creation order is the
 * order of its key (check-outs) or its position in the list (reserves).
 */
module Entities {
  type BookId = nat
  type UserId = nat
  type CopyId = nat
  type CheckOutId = nat

  /** The status values the resolvers compare and assign. */
  datatype CopyStatus = Available | CheckedOut | Reserved

  datatype Book = Book(id: BookId, name: string, author: string)

  datatype Copy = Copy(book: BookId, rackNo: string, status: CopyStatus)

  /** `dueAt` is a day number; time is not modelled beyond it. */
  datatype CheckOut = CheckOut(borrower: UserId, copy: CopyId, returned: bool, dueAt: int)

  datatype Reserve = Reserve(reserver: UserId, book: BookId, position: int, active: bool)

  /** Copy `c` is an AVAILABLE copy of the book. */
  predicate AvailableCopyOf(copies: map<CopyId, Copy>, book: BookId, c: CopyId) {
    c in copies && copies[c].book == book && copies[c].status == Available
  }

  /** Some copy of the book is AVAILABLE. */
  predicate HasAvailableCopy(copies: map<CopyId, Copy>, book: BookId) {
    exists c :: c in copies && AvailableCopyOf(copies, book, c)
  }

  /** A check-out that has not been returned. */
  predicate IsOpen(c: CheckOut) {
    !c.returned
  }

  /** Copy `c` has an unreturned check-out. */
  ghost predicate HasOpenCheckOut(checkOuts: map<CheckOutId, CheckOut>, c: CopyId) {
    exists id :: id in checkOuts && IsOpen(checkOuts[id]) && checkOuts[id].copy == c
  }

  /**
   * The circulation invariant: a copy is CHECKED_OUT exactly when it has an
   * unreturned check-out, and no copy has two of them.
   */
  ghost predicate Consistent(copies: map<CopyId, Copy>, checkOuts: map<CheckOutId, CheckOut>) {
    && (forall c :: c in copies ==> (copies[c].status == CheckedOut <==> HasOpenCheckOut(checkOuts, c)))
    && (forall i, j ::
          (i in checkOuts && j in checkOuts && IsOpen(checkOuts[i]) && IsOpen(checkOuts[j])
           && checkOuts[i].copy == checkOuts[j].copy) ==> i == j)
  }

  /** The tables the resolvers use; `reserves` is in creation order. */
  class Library {
    var copies: map<CopyId, Copy>
    var checkOuts: map<CheckOutId, CheckOut>
    var reserves: seq<Reserve>
    /** The key the next saved check-out receives. */
    var nextCheckOutId: CheckOutId

    /** Every check-out key was handed out before, and every check-out is of a stored copy. */
    ghost predicate Valid()
      reads this
    {
      && (forall id :: id in checkOuts ==> id < nextCheckOutId)
      && (forall id :: id in checkOuts ==> checkOuts[id].copy in copies)
    }

    constructor (copies: map<CopyId, Copy>)
      ensures Valid()
      ensures this.copies == copies && checkOuts == map[] && reserves == [] && nextCheckOutId == 0
    {
      this.copies := copies;
      checkOuts := map[];
      reserves := [];
      nextCheckOutId := 0;
    }
  }
}
