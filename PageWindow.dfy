/**
 * The paging window every list query wraps around the connection builder:
 * an offset and a limit of at most 50 derived from the paging parameters, a
 * fetch of one row more than the limit, at most `limit` rows handed to the
 * connection builder, and `hasNextPage`/`hasPreviousPage` recomputed from the
 * window and the total count.
 */
module PageWindow {
  import opened Wrappers
  import opened Decimal
  import opened ConnectionArgs

  /** The largest page any list query returns. */
  const MaxPageSize := 50

  /** JavaScript `x || d` for an optional number: absent, NaN and 0 are falsy. */
  function OrDefault(x: Option<JsNumber>, d: int): (r: int)
    ensures x.Some? && x.value.Finite? && x.value.value != 0 ==> r == x.value.value
    ensures !(x.Some? && x.value.Finite? && x.value.value != 0) ==> r == d
  {
    match x
    case Some(Finite(n)) => if n != 0 then n else d
    case _ => d
  }

  /** `offset || 0`. */
  function RealOffset(p: PagingParams): (r: int)
    ensures p.offset.Some? && p.offset.value.Finite? ==> r == p.offset.value.value
    ensures p.offset.None? || p.offset.value.NaN? ==> r == 0
  {
    OrDefault(p.offset, 0)
  }

  /** A limit that is absent or a non-negative number, as `getPagingParameters` produces. */
  predicate LimitIsNonNegative(p: PagingParams) {
    p.limit.None? || (p.limit.value.Finite? && p.limit.value.value >= 0)
  }

  /** `Math.min(50, limit || 50)`: an absent or zero limit means a full page. */
  function RealLimit(p: PagingParams): (r: int)
    ensures LimitIsNonNegative(p) ==> 1 <= r <= MaxPageSize
    ensures LimitIsNonNegative(p) ==>
      (r == MaxPageSize <==> p.limit.None? || p.limit.value.value == 0 || p.limit.value.value >= MaxPageSize)
    ensures p.limit.Some? && p.limit.value.Finite? && 0 < p.limit.value.value <= MaxPageSize ==>
      r == p.limit.value.value
  {
    Min(MaxPageSize, OrDefault(p.limit, MaxPageSize))
  }

  /** What storage returns: the rows of the requested range and the number of matching rows. */
  datatype FetchResult<T> = FetchResult(rows: seq<T>, count: nat)

  /** The `skip` storage applies: a positive number, otherwise none. */
  function SkipCount(skip: Option<JsNumber>): (r: nat)
    ensures skip.Some? && skip.value.Finite? && skip.value.value >= 0 ==> r == skip.value.value
    ensures r == 0 <==> skip.None? || skip.value.NaN? || skip.value.value <= 0
  {
    match skip
    case Some(Finite(n)) => if n > 0 then n else 0
    case _ => 0
  }

  /**
   * `findAndCount({ skip, take })` over `rows`, the rows that match the
   * query's conditions, in its order: at most `take` rows from position
   * `skip` on, and the number of all matching rows.
   */
  function FindAndCount<T>(rows: seq<T>, skip: Option<JsNumber>, take: int): (r: FetchResult<T>)
    ensures r.count == |rows|
    ensures |r.rows| == Min(Max(|rows| - SkipCount(skip), 0), Max(take, 0))
    ensures forall k :: 0 <= k < |r.rows| ==> r.rows[k] == rows[SkipCount(skip) + k]
  {
    var from := Min(SkipCount(skip), |rows|);
    FetchResult(rows[from..Min(from + Max(take, 0), |rows|)], |rows|)
  }

  /**
   * The rows `Paginate` hands to the connection builder:
   * `rows.slice(0, realLimit)`, at most `realLimit` of them.
   */
  function Handed<T>(rows: seq<T>, realLimit: int): (r: seq<T>)
    requires realLimit >= 0
    ensures |r| == Min(|rows|, realLimit) && r == rows[..|r|]
  {
    JsSlice(rows, 0, realLimit)
  }

  /**
   * Relation between the arguments, the storage and the page one list query
   * returns: storage is asked for `realLimit + 1` rows at the raw offset, the
   * first `realLimit` of them go to the connection builder at `realOffset`
   * with the storage's count as the list length, its edges and cursors are
   * kept, and its two flags are replaced.
   */
  ghost predicate IsWindowPage<T>(args: ConnectionArguments, rows: seq<T>, page: Connection<T>) {
    && GetPagingParameters(args).Success?
    && var p := GetPagingParameters(args).value;
       var realOffset := RealOffset(p);
       var realLimit := RealLimit(p);
       var fetched := FindAndCount(rows, p.offset, realLimit + 1);
       && 1 <= realLimit <= MaxPageSize
       && var conn := ConnectionFromArraySlice(Handed(fetched.rows, realLimit), args,
                                               ArraySliceMetaInfo(realOffset, fetched.count));
          && conn.Success?
          && page.edges == conn.value.edges
          && page.pageInfo.startCursor == conn.value.pageInfo.startCursor
          && page.pageInfo.endCursor == conn.value.pageInfo.endCursor
          && page.pageInfo.hasNextPage == (realOffset + realLimit < fetched.count)
          && page.pageInfo.hasPreviousPage == (realOffset >= realLimit)
  }

  /** One paginated list query over `rows`, the rows matching its conditions in its order. */
  function Paginate<T>(args: ConnectionArguments, rows: seq<T>): (r: Result<Connection<T>, ArgsError>)
    ensures r.Failure? <==> !SaneArguments(args)
    ensures r.Failure? ==> CheckPagingSanity(args) == Failure(r.error)
  {
    match GetPagingParameters(args)
    case Failure(e) => Failure(e)
    case Success(p) =>
      var realLimit := RealLimit(p);
      var page := WindowPage(args, RealOffset(p), realLimit, FindAndCount(rows, p.offset, realLimit + 1));
      Success(page)
  }

  /** A successful query's page is the window page of its arguments over `rows`. */
  lemma PaginateIsWindowPage<T>(args: ConnectionArguments, rows: seq<T>)
    requires Paginate(args, rows).Success?
    ensures IsWindowPage(args, rows, Paginate(args, rows).value)
  {
    var p := GetPagingParameters(args).value;
    assert LimitIsNonNegative(p);
  }

  /** No query returns more than `MaxPageSize` edges, nor more than storage returned. */
  lemma PageSizeBound<T>(args: ConnectionArguments, rows: seq<T>)
    requires Paginate(args, rows).Success?
    ensures |Paginate(args, rows).value.edges| <= MaxPageSize
    ensures |Paginate(args, rows).value.edges| <= |rows|
  {
    PaginateIsWindowPage(args, rows);
    var p := GetPagingParameters(args).value;
    var realLimit := RealLimit(p);
    var fetched := FindAndCount(rows, p.offset, realLimit + 1);
    var handed := Handed(fetched.rows, realLimit);
    assert |handed| <= realLimit;
    assert |handed| <= |rows|;
  }

  /** The first page of `k` rows reads from offset 0 with limit `k`. */
  lemma FirstPageIsWindowPage<T>(k: int, rows: seq<T>)
    requires 1 <= k <= MaxPageSize
    ensures Paginate(ConnectionArguments(None, None, Some(k), None), rows)
         == Success(WindowPage(ConnectionArguments(None, None, Some(k), None), 0, k, FindAndCount(rows, Some(Finite(0)), k + 1)))
  {
    var args := ConnectionArguments(None, None, Some(k), None);
    assert GetPagingParameters(args) == Success(PagingParams(Some(Finite(0)), Some(Finite(k))));
  }

  /** The first page of `k` rows holds `min(k, |rows|)` edges. */
  lemma FirstPageCount<T>(k: int, rows: seq<T>)
    requires 1 <= k <= MaxPageSize
    ensures Paginate(ConnectionArguments(None, None, Some(k), None), rows).Success?
    ensures |Paginate(ConnectionArguments(None, None, Some(k), None), rows).value.edges| == Min(k, |rows|)
  {
    var args := ConnectionArguments(None, None, Some(k), None);
    var fetched := FindAndCount(rows, Some(Finite(0)), k + 1);
    FirstPageIsWindowPage(k, rows);
    WindowPageCount(args, 0, k, fetched);
    assert SliceWindow(args, ArraySliceMetaInfo(0, fetched.count), Min(|fetched.rows|, k)) == Window(0, Min(k, |rows|));
  }

  /** The first page of `k` rows has a next page exactly when more than `k` rows match. */
  lemma FirstPageHasNext<T>(k: int, rows: seq<T>)
    requires 1 <= k <= MaxPageSize
    ensures Paginate(ConnectionArguments(None, None, Some(k), None), rows).Success?
    ensures Paginate(ConnectionArguments(None, None, Some(k), None), rows).value.pageInfo.hasNextPage == (k < |rows|)
  {
    FirstPageIsWindowPage(k, rows);
  }

  /** After the cursor of `n`, the window over `m` handed rows starts at `n + 1` and, within the list, is `m` wide. */
  lemma NextPageWindow(n: int, k: int, total: nat)
    requires 0 <= n && 1 <= k
    ensures var m := Min(k, Max(total - (n + 1), 0));
      var w := SliceWindow(ConnectionArguments(None, Some(OffsetToCursor(n)), Some(k), None), ArraySliceMetaInfo(n + 1, total), m);
      w.startOffset == n + 1 && (n + 1 <= total ==> w.endOffset == n + 1 + m)
  {
    GetOffsetWithDefaultOfCursor(n, -1);
  }

  /** Built from the rows fetched after the cursor of `n`, the connection holds the at most `k` rows that follow `n`. */
  lemma NextConnectionCount<T>(n: int, k: int, rows: seq<T>)
    requires 0 <= n && 1 <= k <= MaxPageSize
    ensures var args := ConnectionArguments(None, Some(OffsetToCursor(n)), Some(k), None);
      var fetched := FindAndCount(rows, Some(Finite(n + 1)), k + 1);
      var conn := ConnectionFromArraySlice(Handed(fetched.rows, k), args, ArraySliceMetaInfo(n + 1, fetched.count));
      conn.Success? && |conn.value.edges| == Min(k, Max(|rows| - (n + 1), 0))
  {
    var fetched := FindAndCount(rows, Some(Finite(n + 1)), k + 1);
    assert |Handed(fetched.rows, k)| == Min(k, Max(|rows| - (n + 1), 0));
    NextPageWindow(n, k, |rows|);
  }

  /** A successful query has as many edges as the connection built from the rows it handed on. */
  lemma PaginateEdgeCount<T>(args: ConnectionArguments, rows: seq<T>)
    requires Paginate(args, rows).Success?
    ensures GetPagingParameters(args).Success?
    ensures var p := GetPagingParameters(args).value;
      var fetched := FindAndCount(rows, p.offset, RealLimit(p) + 1);
      |Paginate(args, rows).value.edges|
      == |ConnectionFromArraySlice(Handed(fetched.rows, RealLimit(p)), args, ArraySliceMetaInfo(RealOffset(p), fetched.count)).value.edges|
  {
    PaginateIsWindowPage(args, rows);
  }

  /**
   * A query whose offset and limit are the numbers `offset` and `limit` in [1, 50] has the edges of the
   * connection built from the rows fetched at `offset`.
   */
  lemma PaginateAtCount<T>(args: ConnectionArguments, rows: seq<T>, offset: int, limit: int)
    requires 1 <= limit <= MaxPageSize
    requires GetPagingParameters(args) == Success(PagingParams(Some(Finite(offset)), Some(Finite(limit))))
    ensures Paginate(args, rows).Success?
    ensures var fetched := FindAndCount(rows, Some(Finite(offset)), limit + 1);
      |Paginate(args, rows).value.edges|
      == |ConnectionFromArraySlice(Handed(fetched.rows, limit), args, ArraySliceMetaInfo(offset, fetched.count)).value.edges|
  {
    var p := GetPagingParameters(args).value;
    var fetched := FindAndCount(rows, Some(Finite(offset)), limit + 1);
    assert RealOffset(p) == offset && RealLimit(p) == limit;
    assert FindAndCount(rows, p.offset, RealLimit(p) + 1) == fetched;
    assert Handed(FindAndCount(rows, p.offset, RealLimit(p) + 1).rows, RealLimit(p)) == Handed(fetched.rows, limit);
    assert ArraySliceMetaInfo(RealOffset(p), FindAndCount(rows, p.offset, RealLimit(p) + 1).count)
        == ArraySliceMetaInfo(offset, fetched.count);
    PaginateEdgeCount(args, rows);
  }

  /** A query whose offset and limit are the numbers `offset` and `limit` in [1, 50] has a next page exactly when rows remain past its end. */
  lemma PaginateAtHasNext<T>(args: ConnectionArguments, rows: seq<T>, offset: int, limit: int)
    requires 1 <= limit <= MaxPageSize
    requires GetPagingParameters(args) == Success(PagingParams(Some(Finite(offset)), Some(Finite(limit))))
    ensures Paginate(args, rows).Success?
    ensures Paginate(args, rows).value.pageInfo.hasNextPage == (offset + limit < |rows|)
  {
    var p := GetPagingParameters(args).value;
    assert RealOffset(p) == offset && RealLimit(p) == limit;
    PaginateIsWindowPage(args, rows);
  }

  /** The page of `k` rows after the cursor of offset `n` holds the at most `k` rows that follow `n`. */
  lemma NextPageCount<T>(n: int, k: int, rows: seq<T>)
    requires 0 <= n && 1 <= k <= MaxPageSize
    ensures Paginate(ConnectionArguments(None, Some(OffsetToCursor(n)), Some(k), None), rows).Success?
    ensures |Paginate(ConnectionArguments(None, Some(OffsetToCursor(n)), Some(k), None), rows).value.edges|
         == Min(k, Max(|rows| - (n + 1), 0))
  {
    ForwardParameters(n, Some(k));
    PaginateAtCount(ConnectionArguments(None, Some(OffsetToCursor(n)), Some(k), None), rows, n + 1, k);
    NextConnectionCount(n, k, rows);
  }

  /** The page of `k` rows after the cursor of offset `n` has a next page exactly when more rows follow it. */
  lemma NextPageHasNext<T>(n: int, k: int, rows: seq<T>)
    requires 0 <= n && 1 <= k <= MaxPageSize
    ensures Paginate(ConnectionArguments(None, Some(OffsetToCursor(n)), Some(k), None), rows).Success?
    ensures Paginate(ConnectionArguments(None, Some(OffsetToCursor(n)), Some(k), None), rows).value.pageInfo.hasNextPage
         == (n + 1 + k < |rows|)
  {
    ForwardParameters(n, Some(k));
    PaginateAtHasNext(ConnectionArguments(None, Some(OffsetToCursor(n)), Some(k), None), rows, n + 1, k);
  }

  /** The page built from the fetched rows at `realOffset`, with the two flags replaced. */
  function WindowPage<T>(args: ConnectionArguments, realOffset: int, realLimit: int, fetched: FetchResult<T>)
    : (page: Connection<T>)
    requires SaneArguments(args) && realLimit >= 0
    ensures ConnectionFromArraySlice(Handed(fetched.rows, realLimit), args,
                                     ArraySliceMetaInfo(realOffset, fetched.count)).Success?
    ensures page.edges == ConnectionFromArraySlice(Handed(fetched.rows, realLimit), args,
                                                   ArraySliceMetaInfo(realOffset, fetched.count)).value.edges
    ensures page.pageInfo.startCursor == ConnectionFromArraySlice(Handed(fetched.rows, realLimit), args,
                                                   ArraySliceMetaInfo(realOffset, fetched.count)).value.pageInfo.startCursor
    ensures page.pageInfo.endCursor == ConnectionFromArraySlice(Handed(fetched.rows, realLimit), args,
                                                   ArraySliceMetaInfo(realOffset, fetched.count)).value.pageInfo.endCursor
    ensures page.pageInfo.hasNextPage == (realOffset + realLimit < fetched.count)
    ensures page.pageInfo.hasPreviousPage == (realOffset >= realLimit)
  {
    var handed := Handed(fetched.rows, realLimit);
    var meta := ArraySliceMetaInfo(realOffset, fetched.count);
    SaneArgumentsBuildConnection(handed, args, meta);
    var conn := ConnectionFromArraySlice(handed, args, meta).value;
    Connection(conn.edges, conn.pageInfo.(
      hasNextPage := realOffset + realLimit < fetched.count,
      hasPreviousPage := realOffset >= realLimit))
  }

  /** Edge `i` of a connection is row `w.startOffset - sliceStart + i` of the slice. */
  lemma ConnectionEdgeAt<T>(arraySlice: seq<T>, args: ConnectionArguments, meta: ArraySliceMetaInfo, i: int)
    requires ConnectionFromArraySlice(arraySlice, args, meta).Success?
    requires 0 <= i < |ConnectionFromArraySlice(arraySlice, args, meta).value.edges|
    ensures var k := SliceWindow(args, meta, |arraySlice|).startOffset - meta.sliceStart + i;
      && 0 <= k < |arraySlice|
      && ConnectionFromArraySlice(arraySlice, args, meta).value.edges[i].node == arraySlice[k]
  {
    var edges := ConnectionFromArraySlice(arraySlice, args, meta).value.edges;
    var k := SliceWindow(args, meta, |arraySlice|).startOffset - meta.sliceStart + i;
    assert 0 <= k < |arraySlice|;
    assert edges[i].node == arraySlice[k];
  }

  /**
   * Edge `i` of a page carries handed row `k`: the rows handed to the
   * connection builder are read in order from the window start on.
   */
  lemma WindowPageEdgeAt<T>(args: ConnectionArguments, realOffset: int, realLimit: int, fetched: FetchResult<T>, i: int)
    requires SaneArguments(args) && realLimit >= 0
    requires 0 <= i < |WindowPage(args, realOffset, realLimit, fetched).edges|
    ensures
      var handed := Handed(fetched.rows, realLimit);
      var k := SliceWindow(args, ArraySliceMetaInfo(realOffset, fetched.count), |handed|).startOffset - realOffset + i;
      0 <= k < |handed|
    ensures
      var handed := Handed(fetched.rows, realLimit);
      var k := SliceWindow(args, ArraySliceMetaInfo(realOffset, fetched.count), |handed|).startOffset - realOffset + i;
      WindowPage(args, realOffset, realLimit, fetched).edges[i].node == handed[k]
  {
    var handed := Handed(fetched.rows, realLimit);
    var meta := ArraySliceMetaInfo(realOffset, fetched.count);
    ConnectionEdgeAt(handed, args, meta, i);
  }

  /** The number of edges of a page: at most the handed rows, and the window's width when it is not behind them. */
  lemma WindowPageCount<T>(args: ConnectionArguments, realOffset: int, realLimit: int, fetched: FetchResult<T>)
    requires SaneArguments(args) && realLimit >= 0
    ensures
      var page := WindowPage(args, realOffset, realLimit, fetched);
      var w := SliceWindow(args, ArraySliceMetaInfo(realOffset, fetched.count), Min(|fetched.rows|, realLimit));
      && |page.edges| <= Min(|fetched.rows|, realLimit)
      && (realOffset <= w.endOffset ==> |page.edges| == Max(w.endOffset - w.startOffset, 0))
  {
  }
}
