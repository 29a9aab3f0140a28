/**
 * Reservations: joining the queue for a book none of whose copies is
 * AVAILABLE (`reserveBook`), and the `reserves` list query.
 */
module ReserveResolver {
  import opened Wrappers
  import opened Decimal
  import opened ConnectionArgs
  import opened PageWindow
  import opened Entities

  /** More active reserves than this and a user cannot reserve another book. */
  const ReserveLimit := 4

  // ---------------------------------------------------------------------------
  // The list query
  // ---------------------------------------------------------------------------

  /**
   * `reserves(args)` over `matching`, the reserves the query's filter
   * selects, newest first: the same paging window as every list query.
   */
  function Reserves(args: ConnectionArguments, matching: seq<Reserve>): (r: Result<Connection<Reserve>, ArgsError>)
    ensures r == Paginate(args, matching)
  {
    match GetPagingParameters(args)
    case Failure(e) => Failure(e)
    case Success(p) =>
      var realOffset := OrDefault(p.offset, 0);
      var realLimit := Min(50, OrDefault(p.limit, 50));
      var realLimitPlusOne := realLimit + 1;
      var fetched := FindAndCount(matching, p.offset, realLimitPlusOne);
      var r := ConnectionFromArraySlice(JsSlice(fetched.rows, 0, realLimit), args,
                                        ArraySliceMetaInfo(realOffset, fetched.count));
      match r
      case Failure(e) => Failure(e)
      case Success(c) =>
        Success(Connection(c.edges, c.pageInfo.(
          hasNextPage := realOffset + realLimit < fetched.count,
          hasPreviousPage := realOffset >= realLimit)))
  }

  // ---------------------------------------------------------------------------
  // Reserving
  // ---------------------------------------------------------------------------

  datatype ReserveError = AlreadyReserved(position: int) | NoCopies | CopyAvailable | LimitReached

  /** The `error` string of the response. */
  function ErrorMessage(e: ReserveError): string {
    match e
    case AlreadyReserved(position) =>
      "You already have the book reserved. Queue position " + IntToString(position) + "."
    case NoCopies => "No copies of the book exist."
    case CopyAvailable => "An available copy of the book already exists."
    case LimitReached => "You have reached your reserve limit."
  }

  /** A reserve of this user for this book. */
  predicate IsReserveOf(r: Reserve, book: BookId, reserver: UserId) {
    r.book == book && r.reserver == reserver
  }

  /** The user has a reserve for the book, active or not. */
  predicate HasReserve(reserves: seq<Reserve>, book: BookId, reserver: UserId) {
    exists i :: 0 <= i < |reserves| && IsReserveOf(reserves[i], book, reserver)
  }

  /** The library owns at least one copy of the book. */
  predicate HasCopyOf(copies: map<CopyId, Copy>, book: BookId) {
    exists c :: c in copies && copies[c].book == book
  }

  /** An active reserve in the queue of the book. */
  predicate Queued(r: Reserve, book: BookId) {
    r.active && r.book == book
  }

  /** The indices of the user's active reserves. */
  function ActiveReserves(reserves: seq<Reserve>, reserver: UserId): set<int> {
    set i | 0 <= i < |reserves| && reserves[i].reserver == reserver && reserves[i].active
  }

  /**
   * The queue position a new reserve of the book receives: one past the
   * position of the latest active reserve of the book, or 1 when there is none.
   */
  function NextPosition(reserves: seq<Reserve>, book: BookId): (r: int)
    ensures (forall i :: 0 <= i < |reserves| ==> !Queued(reserves[i], book)) ==> r == 1
    ensures (exists i :: 0 <= i < |reserves| && Queued(reserves[i], book)) ==>
      exists i :: 0 <= i < |reserves| && Queued(reserves[i], book) && r == reserves[i].position + 1
        && forall j :: i < j < |reserves| ==> !Queued(reserves[j], book)
    decreases |reserves|
  {
    if reserves == [] then 1
    else if Queued(reserves[|reserves| - 1], book) then reserves[|reserves| - 1].position + 1
    else NextPosition(reserves[..|reserves| - 1], book)
  }

  /** In the queue of every book, the positions grow strictly in creation order. */
  ghost predicate QueuesOrdered(reserves: seq<Reserve>) {
    forall i, j ::
      (0 <= i < j < |reserves| && reserves[i].active && reserves[j].active && reserves[i].book == reserves[j].book)
      ==> reserves[i].position < reserves[j].position
  }

  /** No user holds two reserves for the same book. */
  ghost predicate OneReservePerBook(reserves: seq<Reserve>) {
    forall i, j :: 0 <= i < j < |reserves| ==>
      !IsReserveOf(reserves[j], reserves[i].book, reserves[i].reserver)
  }

  /** No user holds more than `ReserveLimit + 1` active reserves. */
  ghost predicate WithinReserveLimit(reserves: seq<Reserve>) {
    forall u :: |ActiveReserves(reserves, u)| <= ReserveLimit + 1
  }

  /** The reserve `reserveBook` saves when every check passes. */
  function NewReserve(reserves: seq<Reserve>, book: BookId, reserver: UserId): (r: Reserve)
    ensures IsReserveOf(r, book, reserver) && r.active
  {
    Reserve(reserver, book, NextPosition(reserves, book), true)
  }

  /**
   * `reserveBook`: the checks in their order (any reserve of the user for
   * the book, no copy of the book, an AVAILABLE copy, more than
   * `ReserveLimit` active reserves of the user), each failing without a
   * write; otherwise one active reserve behind the book's latest is saved.
   * Copies and check-outs are never touched.
   */
  method ReserveBook(db: Library, bookId: BookId, reserverId: UserId) returns (r: Result<Reserve, ReserveError>)
    modifies db`reserves
    ensures old(HasReserve(db.reserves, bookId, reserverId)) ==>
      && r.Failure? && r.error.AlreadyReserved?
      && exists i :: 0 <= i < |old(db.reserves)| && IsReserveOf(old(db.reserves)[i], bookId, reserverId)
                     && old(db.reserves)[i].position == r.error.position
    ensures (!old(HasReserve(db.reserves, bookId, reserverId)) && !HasCopyOf(db.copies, bookId)) ==>
      r == Failure(NoCopies)
    ensures (!old(HasReserve(db.reserves, bookId, reserverId)) && HasCopyOf(db.copies, bookId)
             && HasAvailableCopy(db.copies, bookId)) ==> r == Failure(CopyAvailable)
    ensures (!old(HasReserve(db.reserves, bookId, reserverId)) && HasCopyOf(db.copies, bookId)
             && !HasAvailableCopy(db.copies, bookId)
             && old(|ActiveReserves(db.reserves, reserverId)|) > ReserveLimit) ==> r == Failure(LimitReached)
    ensures (!old(HasReserve(db.reserves, bookId, reserverId)) && HasCopyOf(db.copies, bookId)
             && !HasAvailableCopy(db.copies, bookId)
             && old(|ActiveReserves(db.reserves, reserverId)|) <= ReserveLimit) ==> r.Success?
    ensures r.Failure? ==> db.reserves == old(db.reserves)
    ensures r.Success? ==>
      && !old(HasReserve(db.reserves, bookId, reserverId))
      && HasCopyOf(db.copies, bookId) && !HasAvailableCopy(db.copies, bookId)
      && old(|ActiveReserves(db.reserves, reserverId)|) <= ReserveLimit
      && r.value == NewReserve(old(db.reserves), bookId, reserverId)
      && db.reserves == old(db.reserves) + [r.value]
    ensures db.copies == old(db.copies) && db.checkOuts == old(db.checkOuts)
    ensures old(QueuesOrdered(db.reserves)) ==> QueuesOrdered(db.reserves)
    ensures old(OneReservePerBook(db.reserves)) ==> OneReservePerBook(db.reserves)
    ensures old(WithinReserveLimit(db.reserves)) ==> WithinReserveLimit(db.reserves)
  {
    if HasReserve(db.reserves, bookId, reserverId) {
      var i :| 0 <= i < |db.reserves| && IsReserveOf(db.reserves[i], bookId, reserverId);
      return Failure(AlreadyReserved(db.reserves[i].position));
    }
    if !HasCopyOf(db.copies, bookId) {
      return Failure(NoCopies);
    }
    if HasAvailableCopy(db.copies, bookId) {
      return Failure(CopyAvailable);
    }
    if |ActiveReserves(db.reserves, reserverId)| > ReserveLimit {
      return Failure(LimitReached);
    }
    var reserve := NewReserve(db.reserves, bookId, reserverId);
    if QueuesOrdered(db.reserves) {
      AppendKeepsQueuesOrdered(db.reserves, bookId, reserverId);
    }
    AppendKeepsOneReservePerBook(db.reserves, bookId, reserverId);
    if WithinReserveLimit(db.reserves) {
      AppendKeepsWithinReserveLimit(db.reserves, bookId, reserverId);
    }
    db.reserves := db.reserves + [reserve];
    r := Success(reserve);
  }

  /** With ordered queues, the next position is past every active reserve of the book. */
  lemma {:induction false} NextPositionExceeds(reserves: seq<Reserve>, book: BookId, i: int)
    requires QueuesOrdered(reserves)
    requires 0 <= i < |reserves| && Queued(reserves[i], book)
    ensures reserves[i].position < NextPosition(reserves, book)
    decreases |reserves|
  {
    var n := |reserves| - 1;
    if Queued(reserves[n], book) {
      if i < n {
        assert reserves[i].position < reserves[n].position;
      }
    } else {
      var prefix := reserves[..n];
      assert prefix[i] == reserves[i];
      assert QueuesOrdered(prefix) by {
        forall a, b | 0 <= a < b < |prefix| && prefix[a].active && prefix[b].active && prefix[a].book == prefix[b].book
          ensures prefix[a].position < prefix[b].position
        {
          assert prefix[a] == reserves[a] && prefix[b] == reserves[b];
        }
      }
      NextPositionExceeds(prefix, book, i);
    }
  }

  /** Saving the new reserve keeps every queue ordered. */
  lemma AppendKeepsQueuesOrdered(reserves: seq<Reserve>, book: BookId, reserver: UserId)
    requires QueuesOrdered(reserves)
    ensures QueuesOrdered(reserves + [NewReserve(reserves, book, reserver)])
  {
    var after := reserves + [NewReserve(reserves, book, reserver)];
    forall i, j | 0 <= i < j < |after| && after[i].active && after[j].active && after[i].book == after[j].book
      ensures after[i].position < after[j].position
    {
      if j == |reserves| {
        assert after[i] == reserves[i];
        NextPositionExceeds(reserves, book, i);
      } else {
        assert after[i] == reserves[i] && after[j] == reserves[j];
      }
    }
  }

  /** Saving the new reserve of a user without one for the book keeps reserves unique. */
  lemma AppendKeepsOneReservePerBook(reserves: seq<Reserve>, book: BookId, reserver: UserId)
    requires !HasReserve(reserves, book, reserver)
    ensures OneReservePerBook(reserves) ==> OneReservePerBook(reserves + [NewReserve(reserves, book, reserver)])
  {
    var after := reserves + [NewReserve(reserves, book, reserver)];
    if OneReservePerBook(reserves) {
      forall i, j | 0 <= i < j < |after|
        ensures !IsReserveOf(after[j], after[i].book, after[i].reserver)
      {
        assert after[i] == reserves[i];
        if j < |reserves| {
          assert after[j] == reserves[j];
        } else {
          assert !IsReserveOf(reserves[i], book, reserver);
        }
      }
    }
  }

  /** The new reserve adds one to its user's active reserves and leaves everyone else's alone. */
  lemma ActiveReservesAfterAppend(reserves: seq<Reserve>, book: BookId, reserver: UserId, u: UserId)
    ensures ActiveReserves(reserves + [NewReserve(reserves, book, reserver)], u) ==
      if u == reserver then ActiveReserves(reserves, u) + {|reserves|} else ActiveReserves(reserves, u)
  {
    var after := reserves + [NewReserve(reserves, book, reserver)];
    forall i | 0 <= i < |reserves|
      ensures after[i] == reserves[i]
    {
    }
  }

  /** A user at most at the limit before the new reserve stays within the bound after it. */
  lemma AppendKeepsWithinReserveLimit(reserves: seq<Reserve>, book: BookId, reserver: UserId)
    requires WithinReserveLimit(reserves)
    requires |ActiveReserves(reserves, reserver)| <= ReserveLimit
    ensures WithinReserveLimit(reserves + [NewReserve(reserves, book, reserver)])
  {
    var after := reserves + [NewReserve(reserves, book, reserver)];
    forall u
      ensures |ActiveReserves(after, u)| <= ReserveLimit + 1
    {
      ActiveReservesAfterAppend(reserves, book, reserver, u);
      if u == reserver {
        assert |reserves| !in ActiveReserves(reserves, u);
      }
    }
  }
}
