/**
 * The Relay-style cursor pagination engine: the opaque cursor codec, the
 * check of the raw `first/after/last/before` arguments, their translation into
 * an `(offset, limit)` pair, and the construction of a connection (edges and
 * page info) from a fetched slice of rows, in the form used by graphql-relay-js.
 */
module ConnectionArgs {
  import opened Wrappers
  import opened Decimal
  import Utf8
  import Base64

  // ---------------------------------------------------------------------------
  // Cursor codec
  // ---------------------------------------------------------------------------

  /** `Buffer.from(i, "utf8").toString("base64")`. */
  function ToBase64(i: string): (r: string)
    ensures |r| % 4 == 0
    ensures r == [] <==> i == []
  {
    Base64.Encode(Utf8.Encode(i))
  }

  /** `Buffer.from(i, "base64").toString("utf8")`; None when `i` is not Base64 of UTF-8 text. */
  function FromBase64(i: string): (r: Option<string>)
    ensures r.Some? ==> |i| % 4 == 0
    ensures r.Some? ==> |r.value| <= |i| / 4 * 3
  {
    match Base64.Decode(i)
    case None => None
    case Some(bytes) => Utf8.Decode(bytes)
  }

  lemma FromBase64OfToBase64(s: string)
    ensures FromBase64(ToBase64(s)) == Some(s)
  {
    Base64.DecodeEncode(Utf8.Encode(s));
    Utf8.DecodeEncode(s);
  }

  /** `s.indexOf(c)`: the first position of `c` in `s`, or -1. */
  function IndexOf(s: string, c: char): (k: int)
    ensures -1 <= k < |s|
    ensures k == -1 <==> forall i :: 0 <= i < |s| ==> s[i] != c
    ensures k >= 0 ==> s[k] == c && forall i :: 0 <= i < k ==> s[i] != c
  {
    if s == [] then -1
    else if s[0] == c then 0
    else
      var k := IndexOf(s[1..], c);
      if k < 0 then -1 else k + 1
  }

  datatype ResolvedGlobalId = ResolvedGlobalId(typeName: string, id: string)

  /**
   * Splits the decoded cursor at its first `:`; without a `:` the type is empty
   * and the id is the whole text.
   */
  function FromGlobalId(globalId: string): (r: Option<ResolvedGlobalId>)
    ensures r.None? <==> FromBase64(globalId).None?
    ensures r.Some? ==>
      var u := FromBase64(globalId).value;
      var noColon := forall i :: 0 <= i < |u| ==> u[i] != ':';
      (noColon ==> r.value.typeName == [] && r.value.id == u) &&
      (!noColon ==> (u == r.value.typeName + [':'] + r.value.id
                     && forall i :: 0 <= i < |r.value.typeName| ==> r.value.typeName[i] != ':'))
  {
    match FromBase64(globalId)
    case None => None
    case Some(u) =>
      var pos := IndexOf(u, ':');
      var r := ResolvedGlobalId(u[..Max(pos, 0)], u[pos + 1..]);
      assert pos >= 0 ==> u == u[..pos] + [':'] + u[pos + 1..];
      Some(r)
  }

  /** `parseInt(fromGlobalId(cursor).id, 10)`. */
  function GetId(cursor: string): (r: JsNumber)
    ensures FromBase64(cursor).None? ==> r.NaN?
    ensures FromBase64(cursor).Some? ==>
      var u := FromBase64(cursor).value;
      (forall i :: 0 <= i < |u| ==> u[i] != ':') ==> r == ParseInt(u)
    ensures forall t, d ::
      FromBase64(cursor) == Some(t + [':'] + d) && (forall i :: 0 <= i < |t| ==> t[i] != ':') ==> r == ParseInt(d)
  {
    match FromBase64(cursor)
    case None => NaN
    case Some(u) =>
      SplitAtFirstColon(u);
      ParseInt(FromGlobalId(cursor).value.id)
  }

  /** Any split of `u` around a `:` whose head holds no `:` is the split at the first `:`. */
  lemma SplitAtFirstColon(u: string)
    ensures forall t, d {:trigger t + [':'] + d} :: u == t + [':'] + d && (forall i :: 0 <= i < |t| ==> t[i] != ':') ==>
      IndexOf(u, ':') == |t| && d == u[|t| + 1..]
  {
    forall t, d | u == t + [':'] + d && (forall i :: 0 <= i < |t| ==> t[i] != ':')
      ensures IndexOf(u, ':') == |t| && d == u[|t| + 1..]
    {
      IndexOfAfter(t, [':'] + d, ':');
      assert u == t + ([':'] + d);
      assert u[|t| + 1..] == d;
    }
  }

  /** `getId(cursor) + 1`. */
  function NextId(cursor: string): (r: JsNumber)
    ensures r.NaN? <==> GetId(cursor).NaN?
    ensures r.Finite? ==> r.value == GetId(cursor).value + 1
  {
    Plus(GetId(cursor), 1)
  }

  const Prefix: string := "arrayconnection:"

  /** `s.substring(n)` for `n >= 0`: everything from position `n` on, or "" past the end. */
  function Drop(s: string, n: nat): string {
    if n <= |s| then s[n..] else []
  }

  /** `parseInt(unbase64(cursor).substring(PREFIX.length), 10)`. */
  function CursorToOffset(cursor: string): (r: JsNumber)
    ensures FromBase64(cursor).None? ==> r.NaN?
    ensures FromBase64(cursor).Some? && |FromBase64(cursor).value| <= |Prefix| ==> r.NaN?
    ensures forall d :: FromBase64(cursor) == Some(Prefix + d) ==> r == ParseInt(d)
  {
    match FromBase64(cursor)
    case None => NaN
    case Some(u) => ParseInt(Drop(u, |Prefix|))
  }

  /** `base64(PREFIX + offset)`. */
  function OffsetToCursor(offset: int): (r: string)
    ensures r != [] && |r| % 4 == 0
  {
    ToBase64(Prefix + IntToString(offset))
  }

  /** Every integer offset survives the trip through a cursor. */
  lemma CursorToOffsetOfOffsetToCursor(n: int)
    ensures CursorToOffset(OffsetToCursor(n)) == Finite(n)
  {
    var u := Prefix + IntToString(n);
    FromBase64OfToBase64(u);
    assert Drop(u, |Prefix|) == IntToString(n);
    ParseIntOfIntToString(n);
  }

  /** The first `c` of `a + b` is the head of `b` when `a` has none. */
  lemma IndexOfAfter(a: string, b: string, c: char)
    requires forall i :: 0 <= i < |a| ==> a[i] != c
    requires b != [] && b[0] == c
    ensures IndexOf(a + b, c) == |a|
  {
    var s := a + b;
    var k := IndexOf(s, c);
    assert s[|a|] == c;
  }

  /** In a prefixed text the first `:` ends the prefix, and the rest is the text. */
  lemma IdOfPrefixed(digits: string)
    ensures IndexOf(Prefix + digits, ':') == |Prefix| - 1
    ensures (Prefix + digits)[|Prefix|..] == digits
  {
    var name := "arrayconnection";
    assert Prefix + digits == name + ([':'] + digits);
    assert forall i :: 0 <= i < |name| ==> name[i] != ':';
    IndexOfAfter(name, [':'] + digits, ':');
  }

  /**
   * For a cursor the codec produced, splitting at the first `:` agrees with
   * stripping the prefix.
   */
  lemma GetIdOfOffsetToCursor(n: int)
    ensures GetId(OffsetToCursor(n)) == Finite(n)
  {
    var digits := IntToString(n);
    var u := Prefix + digits;
    FromBase64OfToBase64(u);
    IdOfPrefixed(digits);
    assert FromGlobalId(OffsetToCursor(n)).value.id == digits;
    ParseIntOfIntToString(n);
  }

  /** The id after a codec cursor is the next offset. */
  lemma NextIdOfOffsetToCursor(n: int)
    ensures NextId(OffsetToCursor(n)) == Finite(n + 1)
  {
    GetIdOfOffsetToCursor(n);
  }

  /**
   * The offset a cursor stands for, or `defaultOffset` when there is no
   * cursor or it does not decode to a number.
   */
  function GetOffsetWithDefault(cursor: Option<string>, defaultOffset: int): (r: int)
    ensures cursor.None? ==> r == defaultOffset
    ensures cursor.Some? && CursorToOffset(cursor.value).NaN? ==> r == defaultOffset
    ensures cursor.Some? && CursorToOffset(cursor.value).Finite? ==> r == CursorToOffset(cursor.value).value
  {
    match cursor
    case None => defaultOffset
    case Some(c) =>
      match CursorToOffset(c)
      case NaN => defaultOffset
      case Finite(o) => o
  }

  lemma GetOffsetWithDefaultOfCursor(n: int, defaultOffset: int)
    ensures GetOffsetWithDefault(Some(OffsetToCursor(n)), defaultOffset) == n
  {
    CursorToOffsetOfOffsetToCursor(n);
  }

  // ---------------------------------------------------------------------------
  // Paging arguments
  // ---------------------------------------------------------------------------

  /**
   * The raw connection arguments. JavaScript's `undefined` and `null` are both
   * None: no computation below tells them apart in a way that can be observed.
   */
  datatype ConnectionArguments = ConnectionArguments(
    before: Option<string>, after: Option<string>, first: Option<int>, last: Option<int>)

  /** JavaScript truthiness of an optional string: present and non-empty. */
  predicate Truthy(s: Option<string>) {
    s.Some? && s.value != []
  }

  /** `first`, with a missing value read as 0. */
  function FirstOrZero(args: ConnectionArguments): int {
    args.first.GetOr(0)
  }

  function LastOrZero(args: ConnectionArguments): int {
    args.last.GetOr(0)
  }

  /** A nonzero `first` or a non-empty `after`. */
  predicate IsForwardPaging(args: ConnectionArguments) {
    FirstOrZero(args) != 0 || Truthy(args.after)
  }

  /** A nonzero `last` or a non-empty `before`. */
  predicate IsBackwardPaging(args: ConnectionArguments) {
    LastOrZero(args) != 0 || Truthy(args.before)
  }

  datatype PagingMeta =
    | Forward(after: Option<string>, first: int)
    | Backward(before: Option<string>, last: int)
    | NoPaging

  /** The errors the pagination engine throws. */
  datatype ArgsError =
    | BothDirections
    | MixedCursors
    | NegativeLimit
    | BeforeRequired
    | NegativeFirst
    | NegativeLast

  function Message(e: ArgsError): string {
    match e
    case BothDirections => "Relay pagination cannot be forwards AND backwards!"
    case MixedCursors => "Paging must use either first/after or last/before!"
    case NegativeLimit => "Paging limit must be positive!"
    case BeforeRequired => "When paging backwards, a 'before' argument is required!"
    case NegativeFirst => "Argument \"first\" must be a non-negative integer"
    case NegativeLast => "Argument \"last\" must be a non-negative integer"
  }

  /** The arguments `checkPagingSanity` accepts. */
  predicate SaneArguments(args: ConnectionArguments) {
    && !(IsForwardPaging(args) && IsBackwardPaging(args))
    && !(IsForwardPaging(args) && FirstOrZero(args) < 0)
    && !(IsBackwardPaging(args) && LastOrZero(args) < 0)
    && !(LastOrZero(args) != 0 && !Truthy(args.before))
  }

  /** Classifies the arguments as forward, backward or no paging, or throws. */
  function CheckPagingSanity(args: ConnectionArguments): (r: Result<PagingMeta, ArgsError>)
    ensures r.Success? <==> SaneArguments(args)
    ensures IsForwardPaging(args) && IsBackwardPaging(args) ==> r == Failure(BothDirections)
    ensures r != Failure(MixedCursors)
    ensures !(IsForwardPaging(args) && IsBackwardPaging(args))
            && ((IsForwardPaging(args) && FirstOrZero(args) < 0) || (IsBackwardPaging(args) && LastOrZero(args) < 0))
            ==> r == Failure(NegativeLimit)
    ensures !(IsForwardPaging(args) && IsBackwardPaging(args))
            && !(IsForwardPaging(args) && FirstOrZero(args) < 0) && !(IsBackwardPaging(args) && LastOrZero(args) < 0)
            && LastOrZero(args) != 0 && !Truthy(args.before)
            ==> r == Failure(BeforeRequired)
    ensures r.Success? ==>
      && (r.value.Forward? <==> IsForwardPaging(args))
      && (r.value.Backward? <==> IsBackwardPaging(args))
      && (r.value.Forward? ==> r.value.first >= 0 && r.value.after == args.after)
      && (r.value.Backward? ==> r.value.last >= 0 && r.value.before == args.before && Truthy(args.before))
    ensures r == Success(NoPaging) <==> !IsForwardPaging(args) && !IsBackwardPaging(args)
  {
    var first := FirstOrZero(args);
    var last := LastOrZero(args);
    var isForwardPaging := IsForwardPaging(args);
    var isBackwardPaging := IsBackwardPaging(args);
    if isForwardPaging && isBackwardPaging then Failure(BothDirections)
    else if (isForwardPaging && Truthy(args.before)) || (isBackwardPaging && Truthy(args.after)) then
      Failure(MixedCursors)
    else if (isForwardPaging && first < 0) || (isBackwardPaging && last < 0) then Failure(NegativeLimit)
    else if last != 0 && !Truthy(args.before) then Failure(BeforeRequired)
    else if isForwardPaging then Success(Forward(args.after, first))
    else if isBackwardPaging then Success(Backward(args.before, last))
    else Success(NoPaging)
  }

  /** The storage query's `offset` and `limit`; None is an absent field. */
  datatype PagingParams = PagingParams(offset: Option<JsNumber>, limit: Option<JsNumber>)

  /** Translates the arguments into the storage query's offset and limit. */
  function GetPagingParameters(args: ConnectionArguments): (r: Result<PagingParams, ArgsError>)
    ensures r.Failure? <==> !SaneArguments(args)
    ensures r.Failure? ==> CheckPagingSanity(args) == Failure(r.error)
    ensures r.Success? ==> r.value.limit.None? || (r.value.limit.value.Finite? && r.value.limit.value.value >= 0)
    ensures r.Success? && IsForwardPaging(args) ==>
      && r.value.limit == Some(Finite(FirstOrZero(args)))
      && r.value.offset == Some(if Truthy(args.after) then NextId(args.after.value) else Finite(0))
    ensures r.Success? && IsBackwardPaging(args) ==>
      var b := GetId(args.before.value);
      var last := LastOrZero(args);
      && (b.Finite? ==>
          && r.value.offset == Some(Finite(Max(b.value - last, 0)))
          && r.value.limit == Some(Finite(Max(last + Min(b.value - last, 0), 0)))
          && r.value.offset.value.value + r.value.limit.value.value == Max(b.value, 0))
      && (b.NaN? ==> r.value == PagingParams(Some(NaN), Some(Finite(last))))
    ensures r.Success? && !IsForwardPaging(args) && !IsBackwardPaging(args) ==> r.value == PagingParams(None, None)
  {
    var meta :- CheckPagingSanity(args);
    match meta
    case Forward(after, first) =>
      Success(PagingParams(Some(if Truthy(after) then NextId(after.value) else Finite(0)), Some(Finite(first))))
    case Backward(before, last) =>
      var offset := Plus(GetId(before.value), -last);
      if offset.Finite? && offset.value < 0 then
        Success(PagingParams(Some(Finite(0)), Some(Finite(Max(last + offset.value, 0)))))
      else
        Success(PagingParams(Some(offset), Some(Finite(last))))
    case NoPaging => Success(PagingParams(None, None))
  }

  // ---------------------------------------------------------------------------
  // Connections
  // ---------------------------------------------------------------------------

  datatype Edge<T> = Edge(cursor: string, node: T)

  datatype PageInfo = PageInfo(
    startCursor: Option<string>, endCursor: Option<string>,
    hasPreviousPage: bool, hasNextPage: bool)

  datatype Connection<T> = Connection(edges: seq<Edge<T>>, pageInfo: PageInfo)

  /** Where the slice starts in the full list, and how long the full list is. */
  datatype ArraySliceMetaInfo = ArraySliceMetaInfo(sliceStart: int, arrayLength: int)

  /** The window `[startOffset, endOffset)` of absolute offsets a connection covers. */
  datatype Window = Window(startOffset: int, endOffset: int)

  function BeforeOffset(args: ConnectionArguments, meta: ArraySliceMetaInfo): int {
    GetOffsetWithDefault(args.before, meta.arrayLength)
  }

  function AfterOffset(args: ConnectionArguments): int {
    GetOffsetWithDefault(args.after, -1)
  }

  /**
   * The clamps of `connectionFromArraySlice`: the window starts after the
   * `after` cursor and not before the slice, ends at the slice end, the `before`
   * cursor or the list end, whichever comes first, and is then cut to `first`
   * rows from its start or `last` rows from its end.
   */
  function SliceWindow(args: ConnectionArguments, meta: ArraySliceMetaInfo, sliceLength: nat): (w: Window)
    ensures w.startOffset >= 0
    ensures w.startOffset >= meta.sliceStart && w.startOffset > AfterOffset(args)
    ensures w.endOffset <= meta.sliceStart + sliceLength
    ensures w.endOffset <= BeforeOffset(args, meta) && w.endOffset <= meta.arrayLength
    ensures args.first.Some? ==> w.endOffset <= w.startOffset + args.first.value
    ensures args.last.Some? && args.last.value >= 0 ==> w.startOffset >= w.endOffset - args.last.value
  {
    var sliceEnd := meta.sliceStart + sliceLength;
    var start0 := Max(Max(meta.sliceStart - 1, AfterOffset(args)), -1) + 1;
    var end0 := Min(Min(sliceEnd, BeforeOffset(args, meta)), meta.arrayLength);
    var end1 := if args.first.Some? then Min(end0, start0 + args.first.value) else end0;
    var start1 := if args.last.Some? then Max(start0, end1 - args.last.value) else start0;
    Window(start1, end1)
  }

  /** `a.slice(begin, end)`: a negative bound counts from the end of `a`. */
  function JsSlice<T>(a: seq<T>, begin: int, end: int): (r: seq<T>)
    ensures var b := if begin < 0 then Max(|a| + begin, 0) else Min(begin, |a|);
            var e := if end < 0 then Max(|a| + end, 0) else Min(end, |a|);
            |r| == Max(e - b, 0) && forall i :: 0 <= i < |r| ==> r[i] == a[b + i]
  {
    var b := if begin < 0 then Max(|a| + begin, 0) else Min(begin, |a|);
    var e := if end < 0 then Max(|a| + end, 0) else Min(end, |a|);
    if b < e then a[b..e] else []
  }

  /**
   * The rows of `arraySlice` that fall in the window `w`
   * (`arraySlice.slice(max(startOffset - sliceStart, 0), length - (sliceEnd - endOffset))`).
   */
  function TrimSlice<T>(arraySlice: seq<T>, meta: ArraySliceMetaInfo, w: Window): (slice: seq<T>)
    requires meta.sliceStart <= w.startOffset && w.endOffset <= meta.sliceStart + |arraySlice|
    ensures |slice| <= |arraySlice|
    ensures forall i :: 0 <= i < |slice| ==>
      0 <= w.startOffset - meta.sliceStart + i < |arraySlice|
      && slice[i] == arraySlice[w.startOffset - meta.sliceStart + i]
    ensures meta.sliceStart <= w.endOffset ==> |slice| == Max(w.endOffset - w.startOffset, 0)
  {
    var sliceEnd := meta.sliceStart + |arraySlice|;
    JsSlice(arraySlice, Max(w.startOffset - meta.sliceStart, 0), |arraySlice| - (sliceEnd - w.endOffset))
  }

  /** The edges of a trimmed slice: each row with the cursor of its absolute offset. */
  function MakeEdges<T>(slice: seq<T>, startOffset: int): (edges: seq<Edge<T>>)
    ensures |edges| == |slice|
    ensures forall i :: 0 <= i < |edges| ==> edges[i].node == slice[i]
    ensures forall i {:trigger edges[i].cursor} :: 0 <= i < |edges| ==> edges[i].cursor == OffsetToCursor(startOffset + i)
  {
    seq(|slice|, i requires 0 <= i < |slice| => Edge(OffsetToCursor(startOffset + i), slice[i]))
  }

  /** The page info of `connectionFromArraySlice`. */
  function MakePageInfo<T>(edges: seq<Edge<T>>, args: ConnectionArguments, meta: ArraySliceMetaInfo, w: Window)
    : PageInfo
  {
    var lowerBound := if args.after.Some? then AfterOffset(args) + 1 else 0;
    var upperBound := if args.before.Some? then BeforeOffset(args, meta) else meta.arrayLength;
    PageInfo(
      if edges == [] then None else Some(edges[0].cursor),
      if edges == [] then None else Some(edges[|edges| - 1].cursor),
      if args.last.Some? then w.startOffset > lowerBound else false,
      if args.first.Some? then w.endOffset < upperBound else false)
  }

  /**
   * Builds the connection for `arraySlice`, the rows that start at absolute
   * offset `meta.sliceStart` of a list of `meta.arrayLength` rows.
   */
  function ConnectionFromArraySlice<T>(arraySlice: seq<T>, args: ConnectionArguments, meta: ArraySliceMetaInfo)
    : (r: Result<Connection<T>, ArgsError>)
    ensures r.Failure? <==> (args.first.Some? && args.first.value < 0) || (args.last.Some? && args.last.value < 0)
    ensures r.Failure? ==> r.error == if args.first.Some? && args.first.value < 0 then NegativeFirst else NegativeLast
    ensures r.Success? ==> |r.value.edges| <= |arraySlice|
    ensures r.Success? ==>
      var w := SliceWindow(args, meta, |arraySlice|);
      meta.sliceStart <= w.endOffset ==> |r.value.edges| == Max(w.endOffset - w.startOffset, 0)
    ensures r.Success? ==>
      var w := SliceWindow(args, meta, |arraySlice|);
      forall i {:trigger r.value.edges[i].cursor} :: 0 <= i < |r.value.edges| ==>
        r.value.edges[i].cursor == OffsetToCursor(w.startOffset + i)
    ensures r.Success? ==>
      var w := SliceWindow(args, meta, |arraySlice|);
      forall i :: 0 <= i < |r.value.edges| ==>
        0 <= w.startOffset - meta.sliceStart + i < |arraySlice|
        && r.value.edges[i].node == arraySlice[w.startOffset - meta.sliceStart + i]
    ensures r.Success? ==>
      var edges := r.value.edges;
      r.value.pageInfo.startCursor == (if edges == [] then None else Some(edges[0].cursor))
    ensures r.Success? ==>
      var edges := r.value.edges;
      r.value.pageInfo.endCursor == (if edges == [] then None else Some(edges[|edges| - 1].cursor))
    ensures r.Success? ==>
      var lowerBound := if args.after.Some? then AfterOffset(args) + 1 else 0;
      r.value.pageInfo.hasPreviousPage == (args.last.Some? && SliceWindow(args, meta, |arraySlice|).startOffset > lowerBound)
    ensures r.Success? ==>
      var upperBound := if args.before.Some? then BeforeOffset(args, meta) else meta.arrayLength;
      r.value.pageInfo.hasNextPage == (args.first.Some? && SliceWindow(args, meta, |arraySlice|).endOffset < upperBound)
  {
    if args.first.Some? && args.first.value < 0 then Failure(NegativeFirst)
    else if args.last.Some? && args.last.value < 0 then Failure(NegativeLast)
    else
      var w := SliceWindow(args, meta, |arraySlice|);
      var slice := TrimSlice(arraySlice, meta, w);
      var edges := MakeEdges(slice, w.startOffset);
      assert |edges| == |slice| <= |arraySlice|;
      Success(Connection(edges, MakePageInfo(edges, args, meta, w)))
  }

  // ---------------------------------------------------------------------------
  // Properties relating the pieces
  // ---------------------------------------------------------------------------

  /** Arguments that pass `checkPagingSanity` never make `connectionFromArraySlice` throw. */
  lemma SaneArgumentsBuildConnection<T>(arraySlice: seq<T>, args: ConnectionArguments, meta: ArraySliceMetaInfo)
    requires SaneArguments(args)
    ensures ConnectionFromArraySlice(arraySlice, args, meta).Success?
  {
  }

  /** The start cursor of a non-empty page is the cursor of the window's first offset. */
  lemma StartCursorOfConnection<T>(arraySlice: seq<T>, args: ConnectionArguments, meta: ArraySliceMetaInfo)
    requires ConnectionFromArraySlice(arraySlice, args, meta).Success?
    requires ConnectionFromArraySlice(arraySlice, args, meta).value.edges != []
    ensures ConnectionFromArraySlice(arraySlice, args, meta).value.pageInfo.startCursor
         == Some(OffsetToCursor(SliceWindow(args, meta, |arraySlice|).startOffset))
  {
    ConnectionCursorAt(arraySlice, args, meta, 0);
  }

  /** The end cursor of a non-empty page is the cursor of the window's last offset. */
  lemma EndCursorOfConnection<T>(arraySlice: seq<T>, args: ConnectionArguments, meta: ArraySliceMetaInfo)
    requires ConnectionFromArraySlice(arraySlice, args, meta).Success?
    requires ConnectionFromArraySlice(arraySlice, args, meta).value.edges != []
    ensures var n := |ConnectionFromArraySlice(arraySlice, args, meta).value.edges|;
      ConnectionFromArraySlice(arraySlice, args, meta).value.pageInfo.endCursor
        == Some(OffsetToCursor(SliceWindow(args, meta, |arraySlice|).startOffset + (n - 1)))
  {
    var n := |ConnectionFromArraySlice(arraySlice, args, meta).value.edges|;
    ConnectionCursorAt(arraySlice, args, meta, n - 1);
  }

  /**
   * Both cursors of an empty page are null, and a flag can only be raised by
   * its own direction's limit.
   */
  lemma PageInfoOfConnection<T>(arraySlice: seq<T>, args: ConnectionArguments, meta: ArraySliceMetaInfo)
    requires ConnectionFromArraySlice(arraySlice, args, meta).Success?
    ensures var c := ConnectionFromArraySlice(arraySlice, args, meta).value;
      c.edges == [] ==> c.pageInfo.startCursor.None? && c.pageInfo.endCursor.None?
    ensures ConnectionFromArraySlice(arraySlice, args, meta).value.pageInfo.hasNextPage ==> args.first.Some?
    ensures ConnectionFromArraySlice(arraySlice, args, meta).value.pageInfo.hasPreviousPage ==> args.last.Some?
  {
  }

  /** Edge `i` of a connection carries the cursor of offset `startOffset + i`. */
  lemma ConnectionCursorAt<T>(arraySlice: seq<T>, args: ConnectionArguments, meta: ArraySliceMetaInfo, i: int)
    requires ConnectionFromArraySlice(arraySlice, args, meta).Success?
    requires 0 <= i < |ConnectionFromArraySlice(arraySlice, args, meta).value.edges|
    ensures ConnectionFromArraySlice(arraySlice, args, meta).value.edges[i].cursor
         == OffsetToCursor(SliceWindow(args, meta, |arraySlice|).startOffset + i)
  {
  }

  /** A cursor the codec produced is never the empty (falsy) string. */
  lemma OffsetToCursorIsTruthy(n: int)
    ensures Truthy(Some(OffsetToCursor(n)))
  {
    var u := Prefix + IntToString(n);
    assert Utf8.Encode(u) != [];
  }

  /** Forward paging after the cursor of offset `n` asks storage for the rows from `n + 1`. */
  lemma ForwardParameters(n: int, first: Option<int>)
    requires first.None? || first.value >= 0
    ensures GetPagingParameters(ConnectionArguments(None, Some(OffsetToCursor(n)), first, None))
         == Success(PagingParams(Some(Finite(n + 1)), Some(Finite(first.GetOr(0)))))
  {
    var args := ConnectionArguments(None, Some(OffsetToCursor(n)), first, None);
    OffsetToCursorIsTruthy(n);
    assert IsForwardPaging(args) && !IsBackwardPaging(args);
    assert SaneArguments(args);
    NextIdOfOffsetToCursor(n);
    var r := GetPagingParameters(args);
    assert r.value.limit == Some(Finite(first.GetOr(0)));
    assert r.value.offset == Some(Finite(n + 1));
  }

  /** Backward paging before the cursor of offset `n` asks for the `last` rows that end at `n`. */
  lemma BackwardParameters(n: int, last: nat)
    ensures GetPagingParameters(ConnectionArguments(Some(OffsetToCursor(n)), None, None, Some(last)))
         == Success(PagingParams(Some(Finite(Max(n - last, 0))), Some(Finite(Max(Min(last, n), 0)))))
  {
    var args := ConnectionArguments(Some(OffsetToCursor(n)), None, None, Some(last));
    OffsetToCursorIsTruthy(n);
    assert IsBackwardPaging(args) && !IsForwardPaging(args);
    assert SaneArguments(args);
    GetIdOfOffsetToCursor(n);
    var r := GetPagingParameters(args);
    assert r.value.offset == Some(Finite(Max(n - last, 0)));
    assert r.value.limit == Some(Finite(Max(Min(last, n), 0)));
  }

  /**
   * When the `before` window ends ahead of the slice (`endOffset < sliceStart`),
   * the negative end handed to `Array.prototype.slice` counts from the end of
   * the slice, so rows are returned although the window is empty. Here the
   * window is [10, 8) and eight edges come back.
   */
  lemma EmptyWindowStillYieldsEdges(arraySlice: seq<int>)
    requires |arraySlice| == 10
    ensures var args := ConnectionArguments(Some(OffsetToCursor(8)), None, None, None);
      var meta := ArraySliceMetaInfo(10, 100);
      var w := SliceWindow(args, meta, |arraySlice|);
      var r := ConnectionFromArraySlice(arraySlice, args, meta);
      && w == Window(10, 8)
      && r.Success? && |r.value.edges| == 8
  {
    CursorToOffsetOfOffsetToCursor(8);
  }
}
