# Mock REST server: the resource engine, in Dafny

This project models the core of a mock REST/CRUD server written as one
serverless JavaScript handler (`api/index.js`). The server keeps an in-memory
store, `mockDB`, that maps a collection name (`users`, `products`, …) to an
ordered list of records. The model covers:

- the generic resource engine behind `/api/:resource[/:id]`:
  - GET by id;
  - collection GET, which filters on the query, then sorts on `_sort`/`_order`,
    then windows with `_page`/`_limit`;
  - POST (append with a fresh id and timestamps);
  - PUT (replace) and PATCH (shallow merge);
  - DELETE (splice and return the removed record);
  - 404 for an unknown resource or id, 400 for a missing id, 405 for any other
    verb;
- the id allocator `generateId`;
- the `/mobile_app/login` and `/mobile_app/register` routes on `users`, with
  the `isValidEmail` check.

Modules, one per part of the handler:

- `Wrappers` (`wrappers.dfy`): `Option`. It stands for `undefined`, for `NaN`
  and for "not found".
- `JsValues` (`jsvalues.dfy`): JSON values and the JavaScript coercions the
  handler relies on. These are truthiness, `===`, `String(x)`, `toLowerCase`,
  `includes` and `parseInt`.
- `Records` (`records.dfy`): `generateId`, the `find`/`findIndex` lookups, and
  the records that POST, PUT, PATCH and register build.
- `Email` (`email.dfy`): `isValidEmail`, which tests the regular expression
  `^[^\s@]+@[^\s@]+\.[^\s@]+$`.
- `Query` (`query.dfy`): the read pipeline, as pure functions plus the
  imperative filter loop. The sort is JavaScript's `Array.prototype.sort`,
  which is stable; the model sorts by stable insertion.
- `Server` (`server.dfy`): class `Store`, whose field `db` is `mockDB`. It has
  one method per verb, the `/api/` dispatcher, and the two auth routes.
  Methods that change the store say exactly what the new `db` is.

Request plumbing is not part of the model. A request arrives already split
into its parts:

- the resource name;
- the id, as `Option<int>`: `parseInt` of the third path segment, with `None`
  for a missing segment or `NaN`;
- the verb;
- the parsed query, one string per key;
- the parsed JSON body, as a record;
- the current time, as an opaque string that stands in for
  `new Date().toISOString()`.

The id counts as given exactly when JavaScript finds it truthy: present and not
0. So `/api/users/0` lists the collection, as in the source.

Where the code is looser than a strict CRUD engine, the model follows the
code:

- Ids are "largest plus one", so deleting the newest record and creating
  another reuses its id (`Records.DeletedNewestIdIsReused`).
- A PUT or PATCH body can overwrite `id` and `createdAt`.
- Nothing enforces distinct ids. The model proves that POST, DELETE and
  register keep ids distinct, and so do PUT and PATCH when the body has no
  `id` (`Server.Store.HandleApi`, `IdsWellFormed`).
- An unknown resource is rejected with 404; it is never auto-created.

## Model

| member | source | states |
|---|---|---|
| `Records.MaxId` | api/index.js:171-172 | the result is at least every record's id and equals one of them |
| `Records.NextId` | api/index.js:170-173 | `generateId` gives 1 for an empty collection; otherwise it is one more than some record's id and strictly above every id present |
| `Records.NextIdIsFresh` | api/index.js:392 | no record of the collection already holds the id that POST allocates |
| `Records.Find` | api/index.js:405-406 | `findIndex`/`find`: the index of the first record the probe matches; no earlier record matches; `None` exactly when no record matches |
| `Records.HitsById` | api/index.js:339 | `item.id === id` holds exactly when the record's id is the integer `id` |
| `Records.Created` | api/index.js:391-394 | the POST record keeps every body field except `id`, `createdAt` and `updatedAt`; those three are the allocated id and the given time, whatever the body held |
| `Records.Stamped` | api/index.js:410-411 | the update body gets `updatedAt` set to the given time and keeps its other fields |
| `Records.Merged` | api/index.js:413-414 | PATCH: the result has the original's keys plus the body's; every original field the body does not name survives; body fields win, including `id` and `createdAt`; `updatedAt` is the given time |
| `Records.Replaced` | api/index.js:415-416 | PUT: only `id`, the original `createdAt` (if it had one) and the body's fields remain, so every other original field is dropped; body fields win; `updatedAt` is the given time |
| `Records.WithoutPassword` | api/index.js:226-227 | the response user has every field of the stored user except `password` |
| `Records.NewUser` | api/index.js:271-281 | the registered user has exactly eight fields: the given name, email and password; `phone` and `home_address` as given when truthy and `''` otherwise; the allocated id; `createdAt`; empty `business_profiles` |
| `Records.RemoveAt` | api/index.js:431 | `splice(i, 1)`: the length drops by one; records before `i` stay in place; records after it shift down one, keeping their order |
| `Records.CreatedKeepsIdsDistinct` | api/index.js:390-397 | appending the POST record to a collection with distinct integer ids keeps them distinct |
| `Records.RemoveKeepsIdsDistinct` | api/index.js:426-431 | removing any record keeps ids distinct |
| `Records.UpdateKeepsIdsDistinct` | api/index.js:405-417 | a PUT or PATCH whose body has no `id` keeps ids distinct |
| `Records.RemovedIdIsGone` | api/index.js:426-431 | with distinct ids, no record with the deleted id is left, so a later GET of that id is a 404 |
| `Records.DeletedNewestIdIsReused` | api/index.js:170-173 | creating a record and then deleting it makes the next POST hand out the same id again |
| `Records.NewUserKeepsIdsDistinct` | api/index.js:272-283 | appending a registered user keeps ids distinct |
| `Records.RegisteredUserLogsIn` | api/index.js:215 | after a successful register, login with the same (plain-valued) email and password finds the new user |
| `JsValues.ToJsString` | api/index.js:354 | `toString()` of a field: an integer prints as text that `parseInt` reads back as the same integer; a string prints as itself; an empty array prints as `''`; a one-element array prints as its element |
| `JsValues.NatToDecimal` | api/index.js:354 | a number prints as a non-empty string of digits with no leading zero |
| `JsValues.IntToDecimal` | api/index.js:354 | an integer prints with a leading `-` exactly when it is negative |
| `JsValues.LeadingDigits` | api/index.js:326 | the run of digits that `parseInt` reads is the longest all-digit prefix |
| `JsValues.ParseInt` | api/index.js:373-374 | `parseInt` gives `NaN` exactly when no digit follows the optional sign |
| `JsValues.ParseIntOfDecimal` | api/index.js:326 | `parseInt(String(i)) == i` for every integer, so an id written into a path is read back unchanged |
| `JsValues.Lower` | api/index.js:354 | `toLowerCase` keeps the length and lowers each character on its own |
| `JsValues.Includes` | api/index.js:354 | `includes` holds exactly when the needle occurs at some index of the string |
| `JsValues.IncludesItself` | api/index.js:354 | every string contains itself, so a field matches a filter on its own value |
| `Email.FirstAt` | api/index.js:177 | the index of the first `@`, with no `@` before it, or -1 when there is none |
| `Email.ValidAroundFirstAt` | api/index.js:176-179 | splitting at the first `@` finds a valid address exactly when the string has the shape the regular expression accepts |
| `Email.IsValidEmail` | api/index.js:176-179 | `isValidEmail` holds exactly when the string is a non-empty local part, a single `@`, a non-empty domain, a `.`, and a non-empty tail, with no white space and no other `@` |
| `Query.FieldMatches` | api/index.js:352-355 | the filter callback passes a record only when the field is defined (and not `null`), and always passes a record whose field holds the query value itself |
| `Query.LowerTwice` | api/index.js:354 | lower-casing twice is lower-casing once |
| `Query.FieldMatchesIgnoresCase` | api/index.js:354 | the filter ignores the case of the query value |
| `Query.Keep` | api/index.js:352-355 | a record is kept exactly when it is in the input and, for every non-reserved key, the field is defined and its lower-cased printed form contains the lower-cased query value; each record that passes comes out as many times as it occurs in the input, and one that fails not at all; the output is a subsequence of the input, in order |
| `Query.KeepTwice` | api/index.js:350-357 | filtering key after key is the same as filtering by all of them at once |
| `Query.KeepReserved` | api/index.js:351 | a filter made only of reserved keys keeps every record |
| `Query.ReservedKeysDoNotFilter` | api/index.js:351 | `_limit`, `_page`, `_sort` and `_order` never act as filters: removing them from the query leaves the filtered result unchanged |
| `Query.ApplyFilters` | api/index.js:350-357 | the `forEach` loop over the query entries ends with exactly the records that pass every filter, whatever order it visits the keys in |
| `Query.StrLessIrreflexive` | api/index.js:364-365 | no string is less than itself |
| `Query.StrLessTransitive` | api/index.js:364-365 | string `<` is transitive |
| `Query.StrLessTotal` | api/index.js:364-365 | two different strings are ordered one way or the other |
| `Query.ValueLess` | api/index.js:364-365 | `a[sortField] < b[sortField]`: on two integers it is numeric `<`; values of a lower kind come first; two values of a kind without an order (floats, `null`, arrays, objects, missing fields) tie |
| `Query.ValueLessIrreflexive` | api/index.js:364-365 | no field value is less than itself |
| `Query.ValueLessTransitive` | api/index.js:364-365 | the field order is transitive |
| `Query.ValueLessSplit` | api/index.js:364-365 | if `a < c`, then for any `b`, `a < b` or `b < c` |
| `Query.Precedes` | api/index.js:362-366 | the comparator is negative for `x, y`; with `_order=desc` exactly when the ascending comparator is negative for `y, x` |
| `Query.PrecedesIsStrictWeakOrder` | api/index.js:362-367 | the comparator, ascending or descending, is irreflexive, transitive, and splits around any third record |
| `Query.Comparator` | api/index.js:362-367 | the comparator handed to `sort` is a strict weak order, so the sort is well defined |
| `Query.Insert` | api/index.js:363 | inserting adds exactly the one record: the output is a permutation of the input plus it |
| `Query.SortRecords` | api/index.js:363 | the sort output is a permutation of its input |
| `Query.InsertFrom` | api/index.js:363 | every record of an insertion other than the inserted one comes from the list it was inserted into |
| `Query.InsertSorted` | api/index.js:363 | inserting into a sorted list keeps it sorted |
| `Query.SortRecordsSorted` | api/index.js:363 | the sort output is ordered: no record goes before an earlier one |
| `Query.InsertTies` | api/index.js:363 | the inserted record comes ahead of every record it ties with |
| `Query.SortRecordsStable` | api/index.js:363 | the sort is stable: records that tie come out in their input order |
| `Query.SortStep` | api/index.js:360-368 | the sorting step returns a permutation of its input |
| `Query.SortStepSpec` | api/index.js:360-368 | with a truthy `_sort`, the output is a permutation of the filtered list, ordered by that field and stable; it is descending exactly when `_order` is `desc`; with no `_sort` the list is unchanged |
| `Query.SliceIndex` | api/index.js:377 | how `slice` reads an index: within the length, and the clamped value for a non-negative index |
| `Query.JsSlice` | api/index.js:377 | `slice` returns at most the input's records, drawn from the input |
| `Query.PageSliceOfPage` | api/index.js:373-377 | for `p >= 1` and `l >= 0`, the `slice` of page `p` of size `l` is the range `[(p-1)*l, p*l)` clamped to the data, at most `l` records |
| `Query.JsSliceOfRange` | api/index.js:377 | on bounds `0 <= a <= b`, `slice` is the range clamped to the length, with at most `b - a` records |
| `Query.PageSlice` | api/index.js:373-377 | the page is drawn from the data |
| `Query.Window` | api/index.js:371-385 | the windowed output is drawn from the sorted data |
| `Query.PagedHeaders` | api/index.js:379-381 | with `_page` and `_limit`, the reported total is the pre-pagination length, along with the parsed page and limit |
| `Query.PagedWindow` | api/index.js:372-377 | for `p >= 1` and `l >= 0`, page `p` of size `l` is the slice `[(p-1)*l, p*l)` clamped to the data, so it has at most `l` records |
| `Query.JsSliceCountsFromEnd` | api/index.js:377 | a negative bound of `slice` counts back from the end, clamped at the start: `slice(a, b)` is the slice between the bounds read that way |
| `Query.PageZeroIsEmpty` | api/index.js:372-377 | `_page=0` with a non-negative `_limit` selects nothing, because the page ends where the data starts |
| `Query.NegativePageFromEnd` | api/index.js:372-377 | `_page=-1` with `_limit=l > 0` selects the slice from `2l` before the end to `l` before the end, clamped at the start |
| `Query.LimitWindow` | api/index.js:382-385 | with `_limit` alone, the first `min(limit, n)` records and no headers |
| `Query.NaNLimitWindow` | api/index.js:374-384 | a `_limit` that is not a number selects nothing |
| `Query.UnlimitedWindow` | api/index.js:371-387 | without `_limit`, the whole list and no headers, even when `_page` is given |
| `Query.Listing` | api/index.js:347-387 | a collection GET returns records of the collection, each at most as often as it occurs there |
| `Query.ListingSound` | api/index.js:347-387 | every record a collection GET returns is in the collection and passes every filter; the reported total is the number of records that passed |
| `Server.CreatedIsFoundByEmail` | api/index.js:390-397 | a POSTed record is returned by a collection GET that filters on its own email |
| `Server.Store.constructor` | api/index.js:5 | the store starts as the given seed, which holds `users` |
| `Server.Store.Read` | api/index.js:336-388 | GET with a truthy id: 200 with the first record holding that id, or 404. Otherwise: 200 with the filtered, sorted and windowed collection and its headers. The store is never changed |
| `Server.Store.Create` | api/index.js:390-397 | POST appends exactly one record at the end, with the allocated id and the given time; answers 201 with it; keeps ids distinct |
| `Server.Store.Update` | api/index.js:399-419 | PUT/PATCH: 400 without an id and 404 for an unknown id, with no change; otherwise only the first matching record changes, to the replaced or merged record, and the length stays the same |
| `Server.Store.Remove` | api/index.js:421-432 | DELETE: 400 or 404 with no change; otherwise exactly the first matching record is spliced out and returned |
| `Server.Store.HandleApi` | api/index.js:323-437 | an unknown resource gives 404 with the known names and no change; any other verb gives 405 with no change. On a known resource each verb has the outcome of its own method: GET answers the first record with the id or 404, or the listing with its headers, and changes nothing; POST appends the created record and answers 201 with it; PUT/PATCH answer 400 without an id and 404 for an unknown one, otherwise write the replaced or merged record at the first matching index and answer 200 with it; DELETE answers 400 or 404 likewise, otherwise splices out the first matching record and answers 200 with it. Only the named collection can change, no collection is added or removed, and every 404 leaves the store unchanged |
| `Server.Store.Login` | api/index.js:203-235 | 400 when email or password is falsy; 401 when no user has both; otherwise 200 with the first such user; the returned user never carries `password` |
| `Server.Store.Register` | api/index.js:238-294 | 400 with no change when a required field is missing, when the email fails `isValidEmail`, or when the email is taken; otherwise one new user is appended and returned with 201, without `password`; ids stay distinct |

## Left out

- HTTP plumbing is not modelled: CORS headers, the OPTIONS preflight, URL
  parsing, and `res.status`/`json`/`setHeader`. A response is a status, a
  payload and the optional pagination headers. The preflight returns before
  the engine runs, so `HandleApi` would answer 405 for a verb that never
  reaches it.
- Reading the request stream and `JSON.parse` are not modelled; the body
  arrives already parsed as an object. Two failures lead to the catch-all 500,
  which is not modelled either:
  - a parse failure;
  - a `null` body. For POST the write of `id` throws. For login and register
    the destructuring of the body throws.
- A body that is not an object is not modelled.
  - A primitive body: the module is not in strict mode, so the property writes
    of POST are silently ignored. POST still stores the primitive and answers
    201 with it. Because its `id` is `undefined`, `generateId` then gives
    `NaN`, and so does every later POST to that collection. Login and register
    answer 400.
  - An array body: POST attaches `id`, `createdAt` and `updatedAt` to the
    array as properties and stores it. `res.json` drops those properties, but
    `generateId` and GET by id still see them.
- Requests are modelled one at a time. In the source they can interleave at
  each `await`. DELETE has no `await`. POST, login and register do all their
  store work after their only one.
- `Server.Store.Update` is atomic, but PUT and PATCH in the source are not.
  They look up the index with `findIndex`, then `await` the body, then write at
  the saved index. A request handled during that `await`, such as a DELETE,
  shifts the indices, so the write lands on another record. At the old end of
  the array, PATCH appends and PUT throws on `.createdAt`.
- `Records.Created` uses one time for both `createdAt` and `updatedAt`. The
  source reads the clock twice, so the two can differ.
- The order of keys in a record is lost, because a record is a map. In the
  source, PUT emits `id` and `createdAt` first, and PATCH keeps the original
  order.
- The clock is not modelled: the current time is an opaque string parameter.
- The static routes (`/echo`, `/health`, `/`) and the unmatched-route 404 are
  not modelled. The seed data is replaced by whatever store the constructor is
  given.
- Numbers with a fractional part are opaque (`Float`). They are kept as their
  printed form and never compared numerically.
- Integers print in plain decimal. JavaScript's exponent form for very large
  numbers and its precision loss are not modelled.
- `Records.NextId`: an id that is not an integer counts as 0. JavaScript's
  `Math.max` coerces each id to a number instead:
  - a numeric string such as `"7"` counts as 7, so the next id is 8, where the
    model gives 1;
  - `null` counts as 0 and `true` as 1;
  - a fraction such as 2.5 gives 3.5;
  - `""` and an empty array count as 0, and an array holding one number counts
    as that number;
  - only `undefined`, a non-numeric string, or an object other than an array
    of at most one number makes the result `NaN`.
- `Query.FieldMatches`: a field that holds `null` is treated as not matching.
  In the source, `null.toString()` throws and the request ends in a 500.
- `Query.ValueLess`: only matches JavaScript's `<` when both values are
  integers, both strings, or both booleans. Every other pair is ordered by
  kind, which JavaScript does not do:
  - JavaScript compares an integer and a fraction numerically (`4 < 4.5`); the
    model puts every integer before every fraction.
  - JavaScript compares booleans and `null` with numbers numerically.
  - JavaScript compares arrays by their joined text.
  - Fractions tie with each other, so sorting on a field of fractions leaves
    the records in input order. On the seed products, `_sort=price` with
    prices 18.99, 21.99 and 12.99 comes back unsorted.
  - A missing field sorts first. JavaScript's `undefined` compares false both
    ways.
- `JsValues.Lower`: lower-cases ASCII letters only. String order compares code
  points; JavaScript compares UTF-16 code units, which differs only above
  U+FFFF.
- `JsValues.ParseInt`: does not skip leading white space and does not read the
  `0x` hexadecimal prefix.
- A repeated query key arrives as an array in the source. The model keeps one
  string per key.
- Property names inherited from `Object.prototype` (such as `constructor`) are
  not modelled, either as resource names or as field names.
- The unknown-resource 404 lists the known names as a set. The order of
  `Object.keys` is lost.
- Error messages that interpolate a value (`… with id 3 not found`) are kept
  as their parts (`NotFoundId(resource, id)`), not formatted.
