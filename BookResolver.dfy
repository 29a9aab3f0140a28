/**
 * The `books` query: the shared paging window over the books that match the
 * search filter, newest first.
 */
module BookResolver {
  import opened Wrappers
  import opened ConnectionArgs
  import opened PageWindow
  import opened Entities

  /**
   * `books(args)` over `matching`, the books the query's filter selects in
   * its order: the paging parameters, an offset query for one row more than
   * the limit, the connection over at most `realLimit` of them and the two
   * recomputed flags.
   */
  function Books(args: ConnectionArguments, matching: seq<Book>): (r: Result<Connection<Book>, ArgsError>)
    ensures r == Paginate(args, matching)
  {
    match GetPagingParameters(args)
    case Failure(e) => Failure(e)
    case Success(p) =>
      var realOffset := OrDefault(p.offset, 0);
      var realLimit := Min(50, OrDefault(p.limit, 50));
      var realLimitPlusOne := realLimit + 1;
      var fetched := FindAndCount(matching, p.offset, realLimitPlusOne);
      var r := ConnectionFromArraySlice(JsSlice(fetched.rows, 0, realLimit), args,
                                        ArraySliceMetaInfo(realOffset, fetched.count));
      match r
      case Failure(e) => Failure(e)
      case Success(c) =>
        Success(Connection(c.edges, c.pageInfo.(
          hasNextPage := realOffset + realLimit < fetched.count,
          hasPreviousPage := realOffset >= realLimit)))
  }
}
