# Library GraphQL server: pagination and circulation core

This project models two sequential parts of a small library-management GraphQL server.

1. The Relay-style cursor pagination engine. This is the graphql-relay-js form of the
   GraphQL Cursor Connections Specification (section 4.4, "Pagination algorithm", and
   section 5, "PageInfo"). It covers:
   - the opaque cursor codec, which is Base64 (section 4 of RFC 4648) over UTF-8
     (RFC 3629) of `"arrayconnection:" + offset`;
   - the sanity check of the raw `first/after/last/before` arguments;
   - their translation into a storage `(offset, limit)` pair;
   - the construction of a connection (edges and `pageInfo`) from a fetched slice of rows.
2. The paging window that every list query (`books`, `copies`, `checkOuts`, `reserves`)
   wraps around the connection builder. It is modelled once, as `PageWindow.Paginate`.
   Each resolver's own transliteration is then proved equal to it.
3. The circulation mutations:
   - `checkOutBook` and `returnBook`, which update copy statuses and check-outs in place;
   - `reserveBook`, which appends to the reservation queue.

   They run against a `Library` store class holding maps of copies and check-outs, plus
   the sequence of reserves in creation order.

JavaScript semantics are written out explicitly:
- `null` and `undefined` are one `None`.
- Numbers are `JsNumber = NaN | Finite(int)`.
- Truthiness is stated per type: `0`, `NaN`, `""` and absent values are falsy.
- `x || d` is `OrDefault`.
- `Array.prototype.slice` keeps its negative-index behaviour (`JsSlice`).
- `parseInt(s, 10)`, including leading white space, a sign and a digit prefix, is `ParseInt`.
- `String(n)` is `IntToString`.

Storage queries become functions over "the rows matching the query's conditions, in its
order". `findAndCount({skip, take})` is `FindAndCount`.

Modules, in dependency order: `Wrappers`, `Decimal`, `Utf8`, `Base64`, `ConnectionArgs`,
`PageWindow`, `Entities`, `BookResolver`, `CopyResolver`, `CheckOutResolver`,
`ReserveResolver`.

The copy entity has no `status` field in its own file. The status type
`Available | CheckedOut | Reserved` is inferred from its uses in the resolvers. No flow
assigns `Reserved`.

## Model

| member | source | states |
|---|---|---|
| Decimal.Plus | src/pagination/ConnectionArgs.ts:48 | Adding to NaN gives NaN. Adding `k` to a finite number gives that number plus `k`. |
| Decimal.IntToString | src/pagination/ConnectionArgs.ts:138-140 | `String(n)` is non-empty. It starts with `-` exactly when `n < 0`, and is otherwise made of decimal digits. |
| Decimal.NatToDigits | src/pagination/ConnectionArgs.ts:138-140 | The decimal digits of a natural number: non-empty, all digits, no leading zero. |
| Decimal.DigitsValueOfNatToDigits | src/pagination/ConnectionArgs.ts:138-140 | Reading back the digits `String` writes gives the number again. |
| Decimal.TrimStart | src/pagination/ConnectionArgs.ts:135 | The result is a suffix of the input. Everything removed is JavaScript white space. The result does not start with white space. |
| Decimal.DigitPrefixLength | src/pagination/ConnectionArgs.ts:135 | The longest run of decimal digits at the head of a string: all digits, followed by a non-digit or the end. |
| Decimal.ParseInt | src/pagination/ConnectionArgs.ts:135 | `parseInt(s, 10)` is NaN exactly when no digit follows the leading white space and an optional sign. |
| Decimal.ParseIntOfIntToString | src/pagination/ConnectionArgs.ts:134-140 | `parseInt(String(n), 10) == n` for every integer `n`. |
| Decimal.ParseIntIgnoresTail | src/pagination/ConnectionArgs.ts:46-47 | `parseInt` of `String(n)` followed by anything that does not start with a digit is still `n`. |
| Utf8.Encode | src/pagination/ConnectionArgs.ts:30 | `Buffer.from(i, "utf8")`: each character gives 1 to 4 bytes, so the bytes number between `|s|` and `4 * |s|`. |
| Utf8.EncodeChar | src/pagination/ConnectionArgs.ts:30 | A character encodes to 1 to 4 bytes. It is a single byte exactly when it is ASCII. |
| Utf8.DecodeFirst | src/pagination/ConnectionArgs.ts:34 | A successful decode of the first character consumes between 1 byte and the whole input. |
| Utf8.Decode | src/pagination/ConnectionArgs.ts:34 | `toString("utf8")`, strict: decoded text has no more characters than there were bytes, and it is empty exactly when the bytes are. `Utf8.DecodeEncode` shows that it inverts `Utf8.Encode`. |
| Utf8.DecodeFirstOfEncodeChar | src/pagination/ConnectionArgs.ts:29-35 | Decoding the encoding of a character, whatever follows it, gives that character back and consumes exactly its bytes. |
| Utf8.DecodeEncode | src/pagination/ConnectionArgs.ts:29-35 | Decoding the UTF-8 encoding of any string gives the string back. |
| Utf8.EncodeAscii | src/pagination/ConnectionArgs.ts:30 | An ASCII string encodes to one byte per character, each equal to its code. |
| Base64.Letter | src/pagination/ConnectionArgs.ts:30 | A letter of the Base64 alphabet is never the padding character. |
| Base64.LetterValue | src/pagination/ConnectionArgs.ts:34 | A character's alphabet value, when it has one, is below 64 and maps back to that character. |
| Base64.LetterValueOfLetter | src/pagination/ConnectionArgs.ts:29-35 | Every 6-bit value survives the trip through its letter. |
| Base64.Encode | src/pagination/ConnectionArgs.ts:30 | Base64 text has a length that is a multiple of 4. It is empty exactly when the input is. |
| Base64.Decode | src/pagination/ConnectionArgs.ts:34 | `Buffer.from(i, "base64")`, strict: it succeeds only on text whose length is a multiple of 4. Each group of four letters gives three bytes, less one or two for padding at the end. `Base64.DecodeEncode` shows that it inverts `Base64.Encode`. |
| Base64.DecodeEncodeGroup | src/pagination/ConnectionArgs.ts:29-35 | A full group of three bytes decodes back from its four letters. |
| Base64.DecodeEncode | src/pagination/ConnectionArgs.ts:29-35 | Decoding the Base64 encoding of any byte sequence gives the bytes back. |
| Base64.DecodeEncodeStep | src/pagination/ConnectionArgs.ts:29-35 | The round trip of the rest of the input extends to one more leading group. |
| Base64.DecodeEncodeThree | src/pagination/ConnectionArgs.ts:29-35 | Three bytes form one unpadded group, and they round-trip. |
| Base64.DecodeEncodeTwo | src/pagination/ConnectionArgs.ts:29-35 | Two bytes form one group with one `=` of padding, and they round-trip. |
| Base64.DecodeEncodeOne | src/pagination/ConnectionArgs.ts:29-35 | One byte forms one group with two `=` of padding, and it round-trips. |
| ConnectionArgs.ToBase64 | src/pagination/ConnectionArgs.ts:29-31 | `base64(i)` has a length that is a multiple of 4, and it is empty exactly when `i` is. `FromBase64OfToBase64` shows that `unbase64` inverts it. |
| ConnectionArgs.FromBase64 | src/pagination/ConnectionArgs.ts:33-35 | `unbase64(i)` succeeds only on text whose length is a multiple of 4. Its result has at most three characters per four letters. `FromBase64OfToBase64` shows that it inverts `base64`. |
| ConnectionArgs.FromBase64OfToBase64 | src/pagination/ConnectionArgs.ts:29-35 | `unbase64(base64(s)) == s` for every string. |
| ConnectionArgs.IndexOf | src/pagination/ConnectionArgs.ts:39 | `indexOf` returns -1 exactly when the character is absent. Otherwise it returns a position holding the character, before which the character does not occur. |
| ConnectionArgs.FromGlobalId | src/pagination/ConnectionArgs.ts:37-44 | The id fails to resolve exactly when the text is not Base64 of UTF-8. Without a `:` the type is empty and the id is the whole text. Otherwise the text is type, `:`, id, and the type contains no `:`. |
| ConnectionArgs.GetId | src/pagination/ConnectionArgs.ts:46-47 | `getId` is NaN when the cursor does not decode. When the decoded text has no `:`, all of it is parsed. When it is `t:d` with no `:` in `t`, `d` is parsed. `GetIdOfOffsetToCursor` shows that it reads back the offset of every codec cursor. |
| ConnectionArgs.NextId | src/pagination/ConnectionArgs.ts:48 | `nextId` is NaN exactly when `getId` is NaN. Otherwise it is `getId + 1`. |
| ConnectionArgs.CursorToOffset | src/pagination/ConnectionArgs.ts:134-136 | `cursorToOffset` is NaN when the cursor does not decode or decodes to 16 characters or fewer. When the decoded text is the prefix followed by `d`, `d` is parsed. |
| ConnectionArgs.OffsetToCursor | src/pagination/ConnectionArgs.ts:138-140 | `offsetToCursor` gives non-empty Base64 text, so the cursor is truthy. `CursorToOffsetOfOffsetToCursor` shows that `cursorToOffset` inverts it on every integer. |
| ConnectionArgs.CursorToOffsetOfOffsetToCursor | src/pagination/ConnectionArgs.ts:133-140 | `cursorToOffset(offsetToCursor(n)) == n` for every integer `n`. |
| ConnectionArgs.GetIdOfOffsetToCursor | src/pagination/ConnectionArgs.ts:37-47 | `getId(offsetToCursor(n)) == n`: splitting at the first `:` agrees with stripping the prefix. |
| ConnectionArgs.NextIdOfOffsetToCursor | src/pagination/ConnectionArgs.ts:37-48 | `nextId(offsetToCursor(n)) == n + 1`. |
| ConnectionArgs.GetOffsetWithDefault | src/pagination/ConnectionArgs.ts:142-151 | The result is the default when the cursor is absent or decodes to NaN, and the decoded offset otherwise. |
| ConnectionArgs.GetOffsetWithDefaultOfCursor | src/pagination/ConnectionArgs.ts:134-151 | For a cursor the codec produced, the default is never used: the result is the cursor's offset. |
| ConnectionArgs.CheckPagingSanity | src/pagination/ConnectionArgs.ts:55-80 | The result is a success exactly when the arguments are sane. Forward and backward together give the "forwards AND backwards" error. The mixed-cursor error can never be returned. Below that, a negative limit in the paging direction gives "Paging limit must be positive!". Next, a nonzero `last` without a truthy `before` gives "a 'before' argument is required". Forward or backward is classified exactly when the arguments page that way, with a non-negative limit; backward always has a truthy `before`. "None" is returned exactly when all four arguments are unset or zero. |
| ConnectionArgs.GetPagingParameters | src/pagination/ConnectionArgs.ts:88-113 | It fails exactly when the sanity check fails, with the same error. Otherwise the limit is absent or non-negative. Forward: limit is `first`, with an absent `first` defaulted to 0 as the source does (an explicit `null` gives `limit: null` there and 0 here; `limit || 50` reads both alike), offset is `nextId(after)` or 0. Backward with a numeric `before` id: the offset is `max(id - last, 0)` and the limit is `max(last + min(id - last, 0), 0)`, which together end at `max(id, 0)`. A NaN id passes NaN through. None: both are absent. |
| ConnectionArgs.SliceWindow | src/pagination/ConnectionArgs.ts:176-194 | The window starts at 0 or later, not before the slice, and after the `after` offset. It ends no later than the slice end, the `before` offset and the list length. With `first` it is at most `first` wide from its start. With a non-negative `last`, it starts no earlier than `last` before its end. |
| ConnectionArgs.JsSlice | src/pagination/ConnectionArgs.ts:197-200 | `Array.prototype.slice`: negative bounds count from the end. The result has the clamped width, and element `i` is the element at the clamped start plus `i`. |
| ConnectionArgs.TrimSlice | src/pagination/ConnectionArgs.ts:197-200 | The trimmed slice is no longer than the fetched slice. Row `i` is fetched row `startOffset - sliceStart + i`. When the window does not end before the slice, it has the window's width. |
| ConnectionArgs.MakeEdges | src/pagination/ConnectionArgs.ts:202-205 | One edge per row. Edge `i` carries row `i` and the cursor of offset `startOffset + i`. |
| ConnectionArgs.ConnectionFromArraySlice | src/pagination/ConnectionArgs.ts:168-221 | It throws exactly on a negative numeric `first` (checked first) or `last`. Otherwise: no more edges than fetched rows; the window's width in edges when the window does not end ahead of the slice; edge `i` has cursor `offsetToCursor(startOffset + i)` and node `arraySlice[startOffset - sliceStart + i]`; `startCursor` and `endCursor` are the first and last edges' cursors, or null on an empty page; `hasPreviousPage` holds exactly when `last` is given and the window starts after the lower bound (`after` + 1, or 0); `hasNextPage` holds exactly when `first` is given and the window ends before the upper bound (the `before` offset, or the list length). |
| ConnectionArgs.ConnectionCursorAt | src/pagination/ConnectionArgs.ts:202-205 | Edge `i` of a built connection has the cursor `offsetToCursor(startOffset + i)`. |
| ConnectionArgs.StartCursorOfConnection | src/pagination/ConnectionArgs.ts:202-215 | On a non-empty page, `startCursor` is the cursor of the window's first offset. |
| ConnectionArgs.EndCursorOfConnection | src/pagination/ConnectionArgs.ts:202-215 | On a non-empty page, `endCursor` is the cursor of the window's last offset, `startOffset + edges - 1`. |
| ConnectionArgs.PageInfoOfConnection | src/pagination/ConnectionArgs.ts:207-219 | On an empty page both cursors are null. `hasNextPage` can only hold when `first` is given, and `hasPreviousPage` only when `last` is given. |
| ConnectionArgs.SaneArgumentsBuildConnection | src/pagination/ConnectionArgs.ts:55-80 | Arguments that pass the sanity check never make the connection builder throw. |
| ConnectionArgs.OffsetToCursorIsTruthy | src/pagination/ConnectionArgs.ts:138-140 | A codec cursor is never the empty, falsy string. |
| ConnectionArgs.ForwardParameters | src/pagination/ConnectionArgs.ts:92-97 | Paging forward after the cursor of offset `n` asks storage for the rows from `n + 1`, with `first` (or 0) as the limit. |
| ConnectionArgs.BackwardParameters | src/pagination/ConnectionArgs.ts:98-109 | Paging backward before the cursor of offset `n` asks for offset `max(n - last, 0)` and limit `max(min(last, n), 0)`: the `last` rows that end at `n`, cut at 0. |
| ConnectionArgs.EmptyWindowStillYieldsEdges | src/pagination/ConnectionArgs.ts:197-200 | A window that ends ahead of the slice (here [10, 8)) still yields rows (here 8), because `slice` reads the negative end bound from the back. |
| PageWindow.OrDefault | src/resolvers/BookResolver.ts:54-55 | JavaScript's `or` with a default: the number when it is present, not NaN and nonzero, otherwise `d`. |
| PageWindow.RealOffset | src/resolvers/BookResolver.ts:54 | `offset || 0` keeps a numeric offset (0 included) and reads an absent or NaN offset as 0. |
| PageWindow.RealLimit | src/resolvers/BookResolver.ts:55 | For a limit that is absent or non-negative, `realLimit` (the smaller of 50 and the limit, with 50 for a falsy limit) lies in [1, 50]. It is 50 exactly when the limit is absent, 0 or at least 50. A limit in [1, 50] is kept. |
| PageWindow.SkipCount | src/resolvers/BookResolver.ts:76 | The `skip` storage applies: a non-negative number is kept. The skip is 0 exactly when it is absent, NaN, zero or negative. |
| PageWindow.FindAndCount | src/resolvers/BookResolver.ts:75-77 | The count is the number of matching rows. At most `take` rows are returned, in order, from position `SkipCount(skip)` on. A positive skip is kept; an absent, NaN, zero or negative skip is read as 0. |
| PageWindow.Handed | src/resolvers/BookResolver.ts:56 | `rows.slice(0, realLimit)` is the first `min(count, realLimit)` fetched rows. |
| PageWindow.Paginate | src/resolvers/BookResolver.ts:50-119 | A list query fails exactly when the paging arguments are not sane, with the sanity check's error. |
| PageWindow.PaginateIsWindowPage | src/resolvers/BookResolver.ts:54-118 | A successful query asks storage for `realLimit + 1` rows at the raw offset, with `realLimit` in [1, 50]. The first `realLimit` rows go to the connection builder with `sliceStart = realOffset` and `arrayLength = count`. Its edges and cursors are kept. `hasNextPage` becomes `realOffset + realLimit < count` and `hasPreviousPage` becomes `realOffset >= realLimit`. |
| PageWindow.PageSizeBound | src/resolvers/BookResolver.ts:54-56 | No list query returns more than 50 edges, nor more edges than there are matching rows. |
| PageWindow.WindowPage | src/resolvers/BookResolver.ts:102-118 | The page's edges and cursors are exactly the connection builder's, which cannot throw here. Its two flags are replaced as above. |
| PageWindow.WindowPageEdgeAt | src/resolvers/BookResolver.ts:102-114 | Edge `i` of a page carries handed row `startOffset - realOffset + i`, which exists. With the contract of `Handed`, that is one of the first `realLimit` fetched rows. |
| PageWindow.WindowPageCount | src/resolvers/BookResolver.ts:102-114 | A page has at most as many edges as rows were handed over. It has exactly the window's width when the window does not end ahead of them. |
| PageWindow.FirstPageIsWindowPage | src/resolvers/BookResolver.ts:54-56 | A first page of `k` rows (`first: k`, 1 to 50, no cursor) reads from offset 0 with limit `k`, fetching `k + 1` rows. |
| PageWindow.FirstPageCount | src/resolvers/BookResolver.ts:54-118 | A first page of `k` rows holds `min(k, number of matching rows)` edges. |
| PageWindow.FirstPageHasNext | src/resolvers/BookResolver.ts:115 | A first page of `k` rows has a next page exactly when more than `k` rows match. |
| PageWindow.PaginateAtCount | src/resolvers/BookResolver.ts:54-118 | For any arguments whose offset and limit are numbers, with the limit in [1, 50], the page has as many edges as the connection built from the first `limit` of the `limit + 1` rows fetched at that offset. |
| PageWindow.PaginateAtHasNext | src/resolvers/BookResolver.ts:54-115 | For any arguments whose offset and limit are numbers, with the limit in [1, 50], `hasNextPage` holds exactly when `offset + limit` is below the number of matching rows. |
| PageWindow.NextConnectionCount | src/pagination/ConnectionArgs.ts:176-205 | Built from the rows fetched after the cursor of `n` (from `n + 1`, at most `k` of them handed on), the connection succeeds and holds `min(k, max(|rows| - (n + 1), 0))` edges. |
| PageWindow.NextPageCount | src/resolvers/BookResolver.ts:50-118 | The page of `k` after the cursor of `n` holds `min(k, max(|rows| - (n + 1), 0))` edges: the at most `k` rows that follow `n`. |
| PageWindow.NextPageHasNext | src/resolvers/BookResolver.ts:115 | The page of `k` after the cursor of `n` has a next page exactly when `n + 1 + k < |rows|`: more rows follow it. |
| BookResolver.Books | src/resolvers/BookResolver.ts:50-119 | The `books` query, written as the resolver writes it, is the shared paging window over the matching books. |
| CopyResolver.Copies | src/resolvers/CopyResolver.ts:10-55 | The `copies` query, written as the resolver writes it, is the shared paging window over the matching copies. |
| CheckOutResolver.CheckOuts | src/resolvers/CheckOutResolver.ts:49-89 | The `checkOuts` query, written as the resolver writes it, is the shared paging window over the matching check-outs. |
| ReserveResolver.Reserves | src/resolvers/ReserveResolver.ts:55-95 | The `reserves` query, written as the resolver writes it, is the shared paging window over the matching reserves. |
| CheckOutResolver.NewCheckOut | src/entities/CheckOut.ts:9-26 | A new check-out belongs to the borrower and the copy, is open, and is due 20 days after `now`. |
| CheckOutResolver.CheckOutBook | src/resolvers/CheckOutResolver.ts:111-168 | The errors come in order: already borrowing the book, then no AVAILABLE copy, then more than 4 open check-outs. When all three checks pass, the call succeeds. A failure writes nothing. A success takes a copy that was an AVAILABLE copy of the book and makes it CHECKED_OUT. It saves the check-out under the next key, which it returns. It adds exactly one open check-out of that copy to the borrower, due `now + 20`, under a fresh key. Nothing else changes, and the borrower has at most 5 open check-outs after it. The circulation invariant, one-copy-per-book and the bound of 5 are preserved. |
| CheckOutResolver.Lend | src/resolvers/CheckOutResolver.ts:158-167 | Saving: the copy becomes CHECKED_OUT, the new check-out gets the next key, and nothing else changes. |
| CheckOutResolver.CheckOutKeepsInvariants | src/resolvers/CheckOutResolver.ts:119-166 | Lending an AVAILABLE copy of a book the borrower does not hold, below the limit and under a fresh key, leaves at most 5 open check-outs and keeps all three invariants. |
| CheckOutResolver.OpenCheckOutsGrow | src/resolvers/CheckOutResolver.ts:158-161 | The new check-out adds exactly its key to the borrower's open check-outs. |
| CheckOutResolver.CheckOutKeepsConsistent | src/resolvers/CheckOutResolver.ts:137-166 | Lending an AVAILABLE copy keeps "CHECKED_OUT exactly when it has an open check-out, and at most one of them". |
| CheckOutResolver.CheckOutKeepsOneCopyOfEachBook | src/resolvers/CheckOutResolver.ts:119-132 | The duplicate check keeps every borrower at one open copy per book. |
| CheckOutResolver.CheckOutKeepsWithinLimit | src/resolvers/CheckOutResolver.ts:148-156 | The limit check keeps every borrower at no more than 5 open check-outs. |
| CheckOutResolver.ReleaseCopy | src/resolvers/CheckOutResolver.ts:103 | Setting one copy AVAILABLE leaves every other copy unchanged. An update of a missing row changes nothing; the returns never reach that case, because every check-out's copy is stored. |
| CheckOutResolver.ReturnBook | src/resolvers/CheckOutResolver.ts:93-107 | `returnBook` returns true exactly for a known id. An unknown id writes nothing. A known id sets its copy, which is always a stored copy, AVAILABLE and marks it returned, whatever its previous `returned` was. The circulation invariant is kept when the check-out was open. Both borrower bounds are always kept. |
| CheckOutResolver.ReturnKeepsConsistent | src/resolvers/CheckOutResolver.ts:103-104 | Returning an open check-out keeps the circulation invariant. |
| CheckOutResolver.ReturnOpenKeepsConsistent | src/resolvers/CheckOutResolver.ts:103-104 | The open check-out was the only open one of its copy, so the copy may become AVAILABLE. |
| CheckOutResolver.OpenCheckOutsShrink | src/resolvers/CheckOutResolver.ts:104 | Marking a check-out returned removes exactly its key from open-check-out sets. |
| CheckOutResolver.ReturnKeepsLimits | src/resolvers/CheckOutResolver.ts:103-104 | Any return keeps one-copy-per-book and the bound of 5. |
| CheckOutResolver.ReturnOfReturnedCheckOut | src/resolvers/CheckOutResolver.ts:97-106 | A consistent store in which returning an already returned check-out breaks the circulation invariant. |
| CheckOutResolver.ReturnOpenBook | src/resolvers/CheckOutResolver.ts:93-107 | The corrected return: true exactly for a known, open check-out, and no write otherwise. It preserves the circulation invariant unconditionally. |
| ReserveResolver.NextPosition | src/resolvers/ReserveResolver.ts:153-167 | The new position is 1 when the book has no active reserve. Otherwise it is the position of the most recently created active reserve of the book, plus 1. |
| ReserveResolver.NewReserve | src/resolvers/ReserveResolver.ts:160-167 | The new reserve is the reserver's, for the book, and active. |
| ReserveResolver.ReserveBook | src/resolvers/ReserveResolver.ts:98-172 | The errors come in order: any reserve of the user for the book, active or not (carrying that reserve's position), then no copies, then an AVAILABLE copy, then more than 4 active reserves. When all four checks pass, the call succeeds. A failure writes nothing. A success appends exactly the new reserve. Copies and check-outs never change. Ordered queues, one reserve per book per user and the bound of 5 are preserved. |
| ReserveResolver.NextPositionExceeds | src/resolvers/ReserveResolver.ts:153-167 | With ordered queues, the next position is past every active reserve of the book. |
| ReserveResolver.AppendKeepsQueuesOrdered | src/resolvers/ReserveResolver.ts:153-171 | Appending the new reserve keeps positions strictly increasing in creation order in every book's queue. |
| ReserveResolver.AppendKeepsOneReservePerBook | src/resolvers/ReserveResolver.ts:103-114 | After the duplicate check, appending keeps every user at one reserve per book. |
| ReserveResolver.ActiveReservesAfterAppend | src/resolvers/ReserveResolver.ts:166-171 | The new reserve adds one index to its user's active reserves and none to anyone else's. |
| ReserveResolver.AppendKeepsWithinReserveLimit | src/resolvers/ReserveResolver.ts:143-151 | The limit check keeps every user at no more than 5 active reserves. |

## Left out

- Storage (the ORM and SQL): query builders, `relations`, `where`/`orWhere` combinations,
  `LIKE` and collation are not modelled. Every list query takes the sequence of rows its
  filter selects, in its order. The store is plain maps and a sequence, and the newest
  reserve is the last one in the sequence.
- Which copy `Copy.findOne` returns is unspecified. `CheckOutResolver.CheckOutBook` takes
  some AVAILABLE copy of the book.
- Transactions, the un-awaited `manager.update` calls and concurrent requests: the model is
  sequential, and every write happens before the mutation returns.
- Dates: `addDays(new Date(), 20)` is `now + 20` on integer day numbers. The helper
  module is not part of this model.
- User and book lookups (`User.findOne`, `Book.findOne`) and `console.log` are not
  modelled. Every `borrowerId`, `reserverId` and `bookId` is assumed to name an existing
  row, and the model stores the id. For an unknown user the source saves a row with no
  borrower or reserver (src/resolvers/CheckOutResolver.ts:134,159 and
  src/resolvers/ReserveResolver.ts:162-164), which later checks by
  that id never count. The model records the id and counts the row.
- Ids are natural numbers here (`Entities.dfy`). The GraphQL `Int` arguments also accept
  negative ids, which match no row. The model does not take them.
- ConnectionArgs.GetPagingParameters: the model keeps one None for both an absent and a
  `null` argument. An absent `first` takes the default 0 at
  src/pagination/ConnectionArgs.ts:56, so `limit: meta.first` (:73, :94) is 0 in both.
  The default does not apply to an explicit `first: null`, so there the source returns
  `limit: null` and the model 0. Both read as a full page of 50 through `limit || 50`
  (src/resolvers/BookResolver.ts:55), so no page differs.
- The unique index that `@OneToOne @JoinColumn` puts on a check-out's copy
  (src/entities/CheckOut.ts:14-17) is not modelled. With it, the save at
  src/resolvers/CheckOutResolver.ts:166 fails for any copy that was ever lent before,
  and the transaction rolls back. The model lets a returned copy be lent again.
- Node's `Buffer` is lenient: it ignores bad Base64 characters and replaces invalid UTF-8.
  The model's decoders are strict and return None, which then reads as NaN. Codec-produced
  cursors, the ones proved about, decode identically either way.
- JavaScript strings are UTF-16, but here a character is a Unicode scalar value. So the
  replacement of lone surrogates by `Buffer.from` is not modelled. Neither are positions
  counted in UTF-16 code units: `cursorToOffset` drops `PREFIX.length` (16) code units,
  and `CursorToOffset` drops 16 characters. They differ when the decoded text has a
  character outside the Basic Multilingual Plane among its first 16. For example, an
  `after` that decodes to one such character, 14 more characters and then `5` reads as
  offset 5 in the source and as NaN in the model. Codec cursors are ASCII, so every
  property proved about them is unaffected.
- A negative `skip` comes from an `after` cursor whose id is -2 or less. What storage
  does with it is not in the source. `FindAndCount` reads it as 0, the same as an
  absent or NaN skip.
- Floating point: numbers are integers or NaN. Fractional arguments, `Infinity`, and the
  exponent notation `String` uses from 1e21 on are not modelled.
- The `filter` field of the paging-parameter record is not modelled, because
  `getPagingParameters` never sets it.
- The `ConnectionArgs` argument class and its `pagingParams` accessor are not modelled,
  because they only forward to `getPagingParameters`. Nor are the GraphQL types and
  schema wiring.
- The duplicate check of `reserveBook` matches any reserve of the user for the book,
  active or not. The model follows the code: the `where` clause at
  src/resolvers/ReserveResolver.ts:103-108 has no `active` condition.
- Book columns other than id, name and author (`isbn`, `publishedDate`, `cover`) are not
  modelled: only storage filters read them.
- Book CRUD (`addBook`, `updateBook`, `deleteBook`), `CopyResolver.copy()` (returns
  a constant) and the user resolver are not modelled: they are thin storage calls.

## Findings

| source | as written | input that shows it | evidently intended | confidence | as-written member | corrected member |
|---|---|---|---|---|---|---|
| src/resolvers/CheckOutResolver.ts:97-106 | `returnBook` marks the copy AVAILABLE without checking that the check-out is still open | copy 0 of book 7 was lent as check-out 0, returned, then lent again as check-out 1; returning check-out 0 again makes copy 0 AVAILABLE while check-out 1 is open. The re-lend assumes the unique index on a check-out's copy (src/entities/CheckOut.ts:14-17) is absent. With it, the second lend fails at the save instead | a check-out that is already returned is refused, and nothing is written | not executed | CheckOutResolver.ReturnBook, CheckOutResolver.ReturnOfReturnedCheckOut | CheckOutResolver.ReturnOpenBook |
