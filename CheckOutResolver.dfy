/**
 * Circulation: lending a copy of a book (`checkOutBook`), taking it back
 * (`returnBook`), and the `checkOuts` list query.
 */
module CheckOutResolver {
  import opened Wrappers
  import opened ConnectionArgs
  import opened PageWindow
  import opened Entities

  /** How long a copy is lent, in days. */
  const LoanDays := 20

  /** More open check-outs than this and a borrower gets no further copy. */
  const CheckOutLimit := 4

  // ---------------------------------------------------------------------------
  // The list query
  // ---------------------------------------------------------------------------

  /**
   * `checkOuts(args)` over `matching`, the check-outs the query's filter
   * selects, newest first: the same paging window as every list query.
   */
  function CheckOuts(args: ConnectionArguments, matching: seq<CheckOut>): (r: Result<Connection<CheckOut>, ArgsError>)
    ensures r == Paginate(args, matching)
  {
    match GetPagingParameters(args)
    case Failure(e) => Failure(e)
    case Success(p) =>
      var realOffset := OrDefault(p.offset, 0);
      var realLimit := Min(50, OrDefault(p.limit, 50));
      var realLimitPlusOne := realLimit + 1;
      var fetched := FindAndCount(matching, p.offset, realLimitPlusOne);
      var r := ConnectionFromArraySlice(JsSlice(fetched.rows, 0, realLimit), args,
                                        ArraySliceMetaInfo(realOffset, fetched.count));
      match r
      case Failure(e) => Failure(e)
      case Success(c) =>
        Success(Connection(c.edges, c.pageInfo.(
          hasNextPage := realOffset + realLimit < fetched.count,
          hasPreviousPage := realOffset >= realLimit)))
  }

  // ---------------------------------------------------------------------------
  // Lending
  // ---------------------------------------------------------------------------

  datatype CheckOutError = AlreadyBorrowed | NoCopyAvailable | LimitReached

  /** The `error` string of the response. */
  function ErrorMessage(e: CheckOutError): string {
    match e
    case AlreadyBorrowed => "You already have a copy of this book borrowed."
    case NoCopyAvailable => "No copies for that book available"
    case LimitReached => "Check out limit reached. Return a book to check out another."
  }

  /**
   * The borrower has an unreturned check-out of a copy of the book (the
   * query joins the check-out to its copy and the copy to its book).
   */
  predicate BorrowsBook(copies: map<CopyId, Copy>, checkOuts: map<CheckOutId, CheckOut>, borrower: UserId, book: BookId) {
    exists id :: id in checkOuts && IsOpen(checkOuts[id]) && checkOuts[id].borrower == borrower
      && checkOuts[id].copy in copies && copies[checkOuts[id].copy].book == book
  }

  /** The borrower's unreturned check-outs. */
  function OpenCheckOuts(checkOuts: map<CheckOutId, CheckOut>, borrower: UserId): set<CheckOutId> {
    set id | id in checkOuts && checkOuts[id].borrower == borrower && IsOpen(checkOuts[id])
  }

  /** No borrower holds two open check-outs of copies of the same book. */
  ghost predicate OneCopyOfEachBook(copies: map<CopyId, Copy>, checkOuts: map<CheckOutId, CheckOut>) {
    forall i, j ::
      (i in checkOuts && j in checkOuts && i != j && IsOpen(checkOuts[i]) && IsOpen(checkOuts[j])
       && checkOuts[i].borrower == checkOuts[j].borrower
       && checkOuts[i].copy in copies && checkOuts[j].copy in copies)
      ==> copies[checkOuts[i].copy].book != copies[checkOuts[j].copy].book
  }

  /** No borrower holds more than `CheckOutLimit + 1` open check-outs. */
  ghost predicate WithinCheckOutLimit(checkOuts: map<CheckOutId, CheckOut>) {
    forall u :: |OpenCheckOuts(checkOuts, u)| <= CheckOutLimit + 1
  }

  /** The check-out to a borrower of copy `c`, due `LoanDays` after `now`. */
  function NewCheckOut(borrower: UserId, c: CopyId, now: int): (co: CheckOut)
    ensures co.borrower == borrower && co.copy == c && IsOpen(co) && co.dueAt == now + LoanDays
  {
    CheckOut(borrower, c, false, now + LoanDays)
  }

  /**
   * `checkOutBook` at day `now`: the checks in their order (already a
   * borrower of the book, no AVAILABLE copy, more than `CheckOutLimit` open
   * check-outs), each failing without a write; otherwise some AVAILABLE copy
   * becomes CHECKED_OUT and one new check-out of it is saved.
   */
  method CheckOutBook(db: Library, bookId: BookId, borrowerId: UserId, now: int)
    returns (r: Result<CheckOutId, CheckOutError>)
    requires db.Valid()
    modifies db
    ensures db.Valid()
    ensures old(BorrowsBook(db.copies, db.checkOuts, borrowerId, bookId)) ==> r == Failure(AlreadyBorrowed)
    ensures (!old(BorrowsBook(db.copies, db.checkOuts, borrowerId, bookId))
             && !old(HasAvailableCopy(db.copies, bookId))) ==> r == Failure(NoCopyAvailable)
    ensures (!old(BorrowsBook(db.copies, db.checkOuts, borrowerId, bookId))
             && old(HasAvailableCopy(db.copies, bookId))
             && old(|OpenCheckOuts(db.checkOuts, borrowerId)|) > CheckOutLimit) ==> r == Failure(LimitReached)
    ensures (!old(BorrowsBook(db.copies, db.checkOuts, borrowerId, bookId))
             && old(HasAvailableCopy(db.copies, bookId))
             && old(|OpenCheckOuts(db.checkOuts, borrowerId)|) <= CheckOutLimit) ==> r.Success?
    ensures r.Failure? ==>
      && db.copies == old(db.copies) && db.checkOuts == old(db.checkOuts)
      && db.reserves == old(db.reserves) && db.nextCheckOutId == old(db.nextCheckOutId)
    ensures r.Success? ==>
      && !old(BorrowsBook(db.copies, db.checkOuts, borrowerId, bookId))
      && old(|OpenCheckOuts(db.checkOuts, borrowerId)|) <= CheckOutLimit
      && r.value == old(db.nextCheckOutId)
      && r.value !in old(db.checkOuts)
      && r.value in db.checkOuts
      && var c := db.checkOuts[r.value].copy;
         && old(AvailableCopyOf(db.copies, bookId, c))
         && db.copies == old(db.copies)[c := old(db.copies)[c].(status := CheckedOut)]
         && db.checkOuts == old(db.checkOuts)[r.value := NewCheckOut(borrowerId, c, now)]
         && db.reserves == old(db.reserves)
    ensures r.Success? ==> |OpenCheckOuts(db.checkOuts, borrowerId)| <= CheckOutLimit + 1
    ensures old(Consistent(db.copies, db.checkOuts)) ==> Consistent(db.copies, db.checkOuts)
    ensures old(OneCopyOfEachBook(db.copies, db.checkOuts)) ==> OneCopyOfEachBook(db.copies, db.checkOuts)
    ensures old(WithinCheckOutLimit(db.checkOuts)) ==> WithinCheckOutLimit(db.checkOuts)
  {
    if BorrowsBook(db.copies, db.checkOuts, borrowerId, bookId) {
      return Failure(AlreadyBorrowed);
    }
    if !HasAvailableCopy(db.copies, bookId) {
      return Failure(NoCopyAvailable);
    }
    var c :| c in db.copies && AvailableCopyOf(db.copies, bookId, c);
    if |OpenCheckOuts(db.checkOuts, borrowerId)| > CheckOutLimit {
      return Failure(LimitReached);
    }
    CheckOutKeepsInvariants(db.copies, db.checkOuts, db.nextCheckOutId, borrowerId, bookId, c, now);
    var id := Lend(db, c, borrowerId, now);
    r := Success(id);
  }

  /** Saving the check-out: copy `c` becomes CHECKED_OUT and the new check-out gets the next key. */
  method Lend(db: Library, c: CopyId, borrowerId: UserId, now: int) returns (id: CheckOutId)
    requires db.Valid() && c in db.copies
    modifies db
    ensures db.Valid()
    ensures id == old(db.nextCheckOutId) && id !in old(db.checkOuts)
    ensures db.copies == old(db.copies)[c := old(db.copies)[c].(status := CheckedOut)]
    ensures db.checkOuts == old(db.checkOuts)[id := NewCheckOut(borrowerId, c, now)]
    ensures db.reserves == old(db.reserves) && db.nextCheckOutId == old(db.nextCheckOutId) + 1
  {
    id := db.nextCheckOutId;
    db.copies := db.copies[c := db.copies[c].(status := CheckedOut)];
    db.checkOuts := db.checkOuts[id := NewCheckOut(borrowerId, c, now)];
    db.nextCheckOutId := db.nextCheckOutId + 1;
  }

  /** Lending an AVAILABLE copy of a book its borrower does not hold, below the limit, under a fresh key keeps all three invariants. */
  lemma CheckOutKeepsInvariants(copies: map<CopyId, Copy>, checkOuts: map<CheckOutId, CheckOut>, id: CheckOutId,
                                borrower: UserId, book: BookId, c: CopyId, now: int)
    requires id !in checkOuts && AvailableCopyOf(copies, book, c)
    requires !BorrowsBook(copies, checkOuts, borrower, book) && |OpenCheckOuts(checkOuts, borrower)| <= CheckOutLimit
    ensures |OpenCheckOuts(checkOuts[id := NewCheckOut(borrower, c, now)], borrower)| <= CheckOutLimit + 1
    ensures Consistent(copies, checkOuts) ==>
      Consistent(copies[c := copies[c].(status := CheckedOut)], checkOuts[id := NewCheckOut(borrower, c, now)])
    ensures OneCopyOfEachBook(copies, checkOuts) ==>
      OneCopyOfEachBook(copies[c := copies[c].(status := CheckedOut)], checkOuts[id := NewCheckOut(borrower, c, now)])
    ensures WithinCheckOutLimit(checkOuts) ==> WithinCheckOutLimit(checkOuts[id := NewCheckOut(borrower, c, now)])
  {
    OpenCheckOutsGrow(checkOuts, id, borrower, c, now);
    if Consistent(copies, checkOuts) {
      CheckOutKeepsConsistent(copies, checkOuts, id, borrower, c, now);
    }
    if OneCopyOfEachBook(copies, checkOuts) {
      CheckOutKeepsOneCopyOfEachBook(copies, checkOuts, id, borrower, book, c, now);
    }
    if WithinCheckOutLimit(checkOuts) {
      CheckOutKeepsWithinLimit(checkOuts, id, borrower, c, now);
    }
  }

  /** A new check-out of the borrower adds exactly one to their open check-outs. */
  lemma OpenCheckOutsGrow(checkOuts: map<CheckOutId, CheckOut>, id: CheckOutId, borrower: UserId, c: CopyId, now: int)
    requires id !in checkOuts
    ensures OpenCheckOuts(checkOuts[id := NewCheckOut(borrower, c, now)], borrower) == OpenCheckOuts(checkOuts, borrower) + {id}
    ensures |OpenCheckOuts(checkOuts[id := NewCheckOut(borrower, c, now)], borrower)| == |OpenCheckOuts(checkOuts, borrower)| + 1
  {
    var after := checkOuts[id := NewCheckOut(borrower, c, now)];
    assert OpenCheckOuts(after, borrower) == OpenCheckOuts(checkOuts, borrower) + {id};
  }

  /**
   * Lending an AVAILABLE copy under a fresh key keeps the circulation
   * invariant: the copy had no open check-out and now has exactly one.
   */
  lemma CheckOutKeepsConsistent(copies: map<CopyId, Copy>, checkOuts: map<CheckOutId, CheckOut>,
                                id: CheckOutId, borrower: UserId, c: CopyId, now: int)
    requires Consistent(copies, checkOuts)
    requires c in copies && copies[c].status == Available && id !in checkOuts
    ensures Consistent(copies[c := copies[c].(status := CheckedOut)], checkOuts[id := NewCheckOut(borrower, c, now)])
  {
    var copies' := copies[c := copies[c].(status := CheckedOut)];
    var checkOuts' := checkOuts[id := NewCheckOut(borrower, c, now)];
    assert !HasOpenCheckOut(checkOuts, c);
    forall d | d in copies'
      ensures copies'[d].status == CheckedOut <==> HasOpenCheckOut(checkOuts', d)
    {
      if d == c {
        assert IsOpen(checkOuts'[id]) && checkOuts'[id].copy == c;
      } else {
        if HasOpenCheckOut(checkOuts, d) {
          var k :| k in checkOuts && IsOpen(checkOuts[k]) && checkOuts[k].copy == d;
          assert k in checkOuts' && checkOuts'[k] == checkOuts[k];
        }
      }
    }
  }

  /** Lending a copy of a book its borrower does not hold keeps one copy of each book per borrower. */
  lemma CheckOutKeepsOneCopyOfEachBook(copies: map<CopyId, Copy>, checkOuts: map<CheckOutId, CheckOut>, id: CheckOutId,
                                       borrower: UserId, book: BookId, c: CopyId, now: int)
    requires OneCopyOfEachBook(copies, checkOuts)
    requires id !in checkOuts && c in copies && copies[c].book == book
    requires !BorrowsBook(copies, checkOuts, borrower, book)
    ensures OneCopyOfEachBook(copies[c := copies[c].(status := CheckedOut)], checkOuts[id := NewCheckOut(borrower, c, now)])
  {
    var copies' := copies[c := copies[c].(status := CheckedOut)];
    var checkOuts' := checkOuts[id := NewCheckOut(borrower, c, now)];
    forall i, j |
      && i in checkOuts' && j in checkOuts' && i != j && IsOpen(checkOuts'[i]) && IsOpen(checkOuts'[j])
      && checkOuts'[i].borrower == checkOuts'[j].borrower
      && checkOuts'[i].copy in copies' && checkOuts'[j].copy in copies'
      ensures copies'[checkOuts'[i].copy].book != copies'[checkOuts'[j].copy].book
    {
      if i == id {
        assert checkOuts'[j] == checkOuts[j];
      } else if j == id {
        assert checkOuts'[i] == checkOuts[i];
      } else {
        assert checkOuts'[i] == checkOuts[i] && checkOuts'[j] == checkOuts[j];
      }
    }
  }

  /** Lending to a borrower below the limit keeps every borrower within the bound. */
  lemma CheckOutKeepsWithinLimit(checkOuts: map<CheckOutId, CheckOut>, id: CheckOutId, borrower: UserId, c: CopyId, now: int)
    requires WithinCheckOutLimit(checkOuts)
    requires id !in checkOuts && |OpenCheckOuts(checkOuts, borrower)| <= CheckOutLimit
    ensures WithinCheckOutLimit(checkOuts[id := NewCheckOut(borrower, c, now)])
  {
    var checkOuts' := checkOuts[id := NewCheckOut(borrower, c, now)];
    forall u
      ensures |OpenCheckOuts(checkOuts', u)| <= CheckOutLimit + 1
    {
      if u == borrower {
        OpenCheckOutsGrow(checkOuts, id, borrower, c, now);
      } else {
        assert OpenCheckOuts(checkOuts', u) == OpenCheckOuts(checkOuts, u);
      }
    }
  }

  // ---------------------------------------------------------------------------
  // Returning
  // ---------------------------------------------------------------------------

  /** The copies after the copy of check-out `id` is set AVAILABLE; an update of a missing row changes nothing. */
  function ReleaseCopy(copies: map<CopyId, Copy>, c: CopyId): (r: map<CopyId, Copy>)
    ensures r.Keys == copies.Keys
    ensures forall d :: d in copies && d != c ==> r[d] == copies[d]
    ensures c in copies ==> r[c] == copies[c].(status := Available)
  {
    if c in copies then copies[c := copies[c].(status := Available)] else copies
  }

  /**
   * `returnBook(id)` as written: false for an unknown check-out; otherwise
   * its copy becomes AVAILABLE and it is marked returned, whether or not it
   * was returned already.
   */
  method ReturnBook(db: Library, id: CheckOutId) returns (ok: bool)
    requires db.Valid()
    modifies db
    ensures db.Valid()
    ensures ok == (id in old(db.checkOuts))
    ensures !ok ==> db.copies == old(db.copies) && db.checkOuts == old(db.checkOuts)
    ensures ok ==>
      && db.copies == ReleaseCopy(old(db.copies), old(db.checkOuts)[id].copy)
      && db.checkOuts == old(db.checkOuts)[id := old(db.checkOuts)[id].(returned := true)]
    ensures ok ==> old(db.checkOuts)[id].copy in db.copies && db.copies[old(db.checkOuts)[id].copy].status == Available
    ensures db.reserves == old(db.reserves) && db.nextCheckOutId == old(db.nextCheckOutId)
    ensures old(id in db.checkOuts && IsOpen(db.checkOuts[id]) && Consistent(db.copies, db.checkOuts))
        ==> Consistent(db.copies, db.checkOuts)
    ensures old(OneCopyOfEachBook(db.copies, db.checkOuts)) ==> OneCopyOfEachBook(db.copies, db.checkOuts)
    ensures old(WithinCheckOutLimit(db.checkOuts)) ==> WithinCheckOutLimit(db.checkOuts)
  {
    if id !in db.checkOuts {
      return false;
    }
    var checkOut := db.checkOuts[id];
    ReturnKeepsConsistent(db.copies, db.checkOuts, id);
    ReturnKeepsLimits(db.copies, db.checkOuts, id);
    db.copies := ReleaseCopy(db.copies, checkOut.copy);
    db.checkOuts := db.checkOuts[id := checkOut.(returned := true)];
    ok := true;
  }

  /**
   * Returning an open check-out keeps the circulation invariant: it was the
   * only open check-out of its copy.
   */
  lemma ReturnKeepsConsistent(copies: map<CopyId, Copy>, checkOuts: map<CheckOutId, CheckOut>, id: CheckOutId)
    requires id in checkOuts
    ensures IsOpen(checkOuts[id]) && Consistent(copies, checkOuts) ==>
      Consistent(ReleaseCopy(copies, checkOuts[id].copy), checkOuts[id := checkOuts[id].(returned := true)])
  {
    if IsOpen(checkOuts[id]) && Consistent(copies, checkOuts) {
      ReturnOpenKeepsConsistent(copies, checkOuts, id);
    }
  }

  lemma ReturnOpenKeepsConsistent(copies: map<CopyId, Copy>, checkOuts: map<CheckOutId, CheckOut>, id: CheckOutId)
    requires id in checkOuts && IsOpen(checkOuts[id]) && Consistent(copies, checkOuts)
    ensures Consistent(ReleaseCopy(copies, checkOuts[id].copy), checkOuts[id := checkOuts[id].(returned := true)])
  {
    var c := checkOuts[id].copy;
    var copies' := ReleaseCopy(copies, c);
    var checkOuts' := checkOuts[id := checkOuts[id].(returned := true)];
    forall d | d in copies'
      ensures copies'[d].status == CheckedOut <==> HasOpenCheckOut(checkOuts', d)
    {
      if d == c {
        forall k | k in checkOuts' && IsOpen(checkOuts'[k])
          ensures checkOuts'[k].copy != c
        {
          if k != id {
            assert checkOuts'[k] == checkOuts[k];
          }
        }
      } else {
        if HasOpenCheckOut(checkOuts, d) {
          var k :| k in checkOuts && IsOpen(checkOuts[k]) && checkOuts[k].copy == d;
          assert k != id && checkOuts'[k] == checkOuts[k];
        }
        if HasOpenCheckOut(checkOuts', d) {
          var k :| k in checkOuts' && IsOpen(checkOuts'[k]) && checkOuts'[k].copy == d;
          assert k != id && checkOuts[k] == checkOuts'[k];
        }
      }
    }
  }

  /** Marking a check-out returned takes it out of its borrower's open check-outs and no other. */
  lemma OpenCheckOutsShrink(checkOuts: map<CheckOutId, CheckOut>, id: CheckOutId, u: UserId)
    requires id in checkOuts
    ensures OpenCheckOuts(checkOuts[id := checkOuts[id].(returned := true)], u) == OpenCheckOuts(checkOuts, u) - {id}
  {
  }

  /** A return, of an open check-out or not, keeps both borrower bounds. */
  lemma ReturnKeepsLimits(copies: map<CopyId, Copy>, checkOuts: map<CheckOutId, CheckOut>, id: CheckOutId)
    requires id in checkOuts
    ensures WithinCheckOutLimit(checkOuts) ==> WithinCheckOutLimit(checkOuts[id := checkOuts[id].(returned := true)])
    ensures OneCopyOfEachBook(copies, checkOuts) ==>
      OneCopyOfEachBook(ReleaseCopy(copies, checkOuts[id].copy), checkOuts[id := checkOuts[id].(returned := true)])
  {
    var checkOuts' := checkOuts[id := checkOuts[id].(returned := true)];
    var copies' := ReleaseCopy(copies, checkOuts[id].copy);
    if WithinCheckOutLimit(checkOuts) {
      forall u
        ensures |OpenCheckOuts(checkOuts', u)| <= CheckOutLimit + 1
      {
        OpenCheckOutsShrink(checkOuts, id, u);
      }
    }
    if OneCopyOfEachBook(copies, checkOuts) {
      forall i, j |
        && i in checkOuts' && j in checkOuts' && i != j && IsOpen(checkOuts'[i]) && IsOpen(checkOuts'[j])
        && checkOuts'[i].borrower == checkOuts'[j].borrower
        && checkOuts'[i].copy in copies' && checkOuts'[j].copy in copies'
        ensures copies'[checkOuts'[i].copy].book != copies'[checkOuts'[j].copy].book
      {
        assert checkOuts'[i] == checkOuts[i] && checkOuts'[j] == checkOuts[j];
      }
    }
  }

  /**
   * Returning a check-out that was already returned, while its copy is lent
   * again: the copy is marked AVAILABLE although it has an open check-out.
   */
  lemma ReturnOfReturnedCheckOut()
    ensures var copies := map[0 := Copy(7, "A1", CheckedOut)];
      var checkOuts := map[0 := CheckOut(1, 0, true, 20), 1 := CheckOut(2, 0, false, 40)];
      && Consistent(copies, checkOuts)
      && !Consistent(ReleaseCopy(copies, checkOuts[0].copy), checkOuts[0 := checkOuts[0].(returned := true)])
  {
    var copies := map[0 := Copy(7, "A1", CheckedOut)];
    var checkOuts := map[0 := CheckOut(1, 0, true, 20), 1 := CheckOut(2, 0, false, 40)];
    assert IsOpen(checkOuts[1]) && checkOuts[1].copy == 0;
    assert HasOpenCheckOut(checkOuts, 0);
    forall i, j | i in checkOuts && j in checkOuts && IsOpen(checkOuts[i]) && IsOpen(checkOuts[j])
      ensures i == j
    {
      assert i == 1 && j == 1;
    }
    var checkOuts' := checkOuts[0 := checkOuts[0].(returned := true)];
    assert IsOpen(checkOuts'[1]) && checkOuts'[1].copy == 0;
    assert HasOpenCheckOut(checkOuts', 0);
    assert ReleaseCopy(copies, 0)[0].status == Available;
  }

  /**
   * `returnBook(id)` as evidently intended: false, and no write, for an
   * unknown check-out or one already returned.
   */
  method ReturnOpenBook(db: Library, id: CheckOutId) returns (ok: bool)
    requires db.Valid()
    modifies db
    ensures db.Valid()
    ensures ok == (id in old(db.checkOuts) && IsOpen(old(db.checkOuts)[id]))
    ensures !ok ==> db.copies == old(db.copies) && db.checkOuts == old(db.checkOuts)
    ensures ok ==>
      && db.copies == ReleaseCopy(old(db.copies), old(db.checkOuts)[id].copy)
      && db.checkOuts == old(db.checkOuts)[id := old(db.checkOuts)[id].(returned := true)]
    ensures db.reserves == old(db.reserves) && db.nextCheckOutId == old(db.nextCheckOutId)
    ensures old(Consistent(db.copies, db.checkOuts)) ==> Consistent(db.copies, db.checkOuts)
    ensures old(OneCopyOfEachBook(db.copies, db.checkOuts)) ==> OneCopyOfEachBook(db.copies, db.checkOuts)
    ensures old(WithinCheckOutLimit(db.checkOuts)) ==> WithinCheckOutLimit(db.checkOuts)
  {
    if id !in db.checkOuts || !IsOpen(db.checkOuts[id]) {
      return false;
    }
    var checkOut := db.checkOuts[id];
    ReturnKeepsConsistent(db.copies, db.checkOuts, id);
    ReturnKeepsLimits(db.copies, db.checkOuts, id);
    db.copies := ReleaseCopy(db.copies, checkOut.copy);
    db.checkOuts := db.checkOuts[id := checkOut.(returned := true)];
    ok := true;
  }
}
