# Transaction ledger — Dafny model

This project models the transactions controller of a small wallet backend: the
four HTTP handlers that create, list, delete and summarize a user's monetary
transactions, over one shared `transactions` table. The table is modelled in
memory as a class holding the rows in insertion order and the next id its
serial column hands out. Each handler is a method that returns the status code
and JSON body it sends (201 created, 200 ok, 400 invalid input, 404 not found,
500 store failure).

- `wrappers.dfy`, module `Wrappers`: `Option`. It stands for JavaScript's
  NaN/undefined and for SQL's NULL.
- `js_parse_int.dfy`, module `JsParseInt`: ECMAScript's `parseInt(string)`
  with the radix left undefined (ECMA-262, section 19.2.5). The delete handler
  uses it to check ids. The function trims leading white space, reads one
  optional sign and an optional `0x`/`0X` prefix, then takes the longest run of
  digits. Lemmas relate it to a grammar-style description of the strings it
  accepts, and to `String(n)`.
- `ledger.dfy`, module `Ledger`: the row type and the SQL the handlers send.
  It has the `WHERE` filters on `user_id` and on the sign of `amount`,
  `ORDER BY created_at DESC`, `COALESCE(SUM(amount), 0)`, and
  `DELETE … WHERE id = … RETURNING *`. Lemmas prove what each query returns.
- `transactions_controller.dfy`, module `TransactionsController`: the request
  and response types, the class `Table` with the four handlers, and three
  client scenarios proved from the handlers' contracts alone.

Amounts are integer cents: the model takes `amount` to be a fixed-point
value with two decimals, which integer cents represent exactly. `created_at`
is an abstract ordered date. Two things become parameters of a handler:

- the date the store stamps on a new row (`today`);
- whether a store call throws (`fault`); a throwing call is caught and answered
  with 500 "Internal server error", with no effect on the table.

There is no other I/O.

Behaviour of the handlers worth knowing:

- delete answers 200 with a message, not with the deleted row;
- create refuses only an undefined `amount`, not a malformed one;
- an id such as `"12abc"` passes the id check, because `parseInt` stops at the
  first non-digit;
- rows of the same date come back in no order the SQL promises.

## Model

| member | source | states |
|---|---|---|
| `JsParseInt.TrimStart` | backend/src/controllers/transactionsController.js:50 | the result is a suffix of the input; everything removed is white space; the result does not start with white space |
| `JsParseInt.DigitSpan` | backend/src/controllers/transactionsController.js:50 | the length of the longest prefix made of digits of the radix: all those are digits and the next character is not |
| `JsParseInt.ScanNumber` | backend/src/controllers/transactionsController.js:50 | the sign is ±1, the radix is 10 or 16, the digits read are all digits of that radix and the character after them is not; how the parts come from the input is stated by ScanDecomposes |
| `JsParseInt.ScanDecomposes` | backend/src/controllers/transactionsController.js:50 | the input is white space, an optional sign, an optional `0x`/`0X` prefix, the digits and the rest, in that order; the sign is -1 iff the sign read is `-`, the radix is 16 iff a prefix was read; each part is maximal: no white space, sign or prefix is left unread |
| `JsParseInt.ParseInt` | backend/src/controllers/transactionsController.js:50 | `parseInt(id)` with the radix undefined, None standing for NaN; its contract is stated by ScanDecomposes, ParseIntDefinedIff and ParseIntOfIntToString |
| `JsParseInt.ParseIntSomeIff` | backend/src/controllers/transactionsController.js:50-52 | parseInt is not NaN exactly when, after leading white space, the string starts with an optionally signed numeral |
| `JsParseInt.ParseIntDefinedIff` | backend/src/controllers/transactionsController.js:50-52 | both directions: parseInt is not NaN iff the string is some white space, then an optional sign, then a decimal digit or `0x`/`0X` and a hex digit, then anything |
| `JsParseInt.ParseIntOfIntToString` | backend/src/controllers/transactionsController.js:50-52 | parseInt reads back the integer n that `String(n)` writes for n of magnitude below 10^21 (plain decimal digits), after any white space and before any text that does not extend the numeral |
| `JsParseInt.LettersAreNaN` | backend/src/controllers/transactionsController.js:50-52 | `"abc"` is NaN, so its delete is a 400 |
| `JsParseInt.HexPrefixAloneIsNaN` | backend/src/controllers/transactionsController.js:50-52 | `"0x"` is NaN: the prefix selects radix 16 and no hex digit follows |
| `JsParseInt.TwoSignsAreNaN` | backend/src/controllers/transactionsController.js:50-52 | `"+-1"` is NaN: only one sign is read |
| `JsParseInt.TrailingTextIgnored` | backend/src/controllers/transactionsController.js:50-52 | `"12abc"` parses as 12 and passes the id check |
| `JsParseInt.SignedHex` | backend/src/controllers/transactionsController.js:50-52 | `" -0x1F"` parses as -31 |
| `Ledger.Where` | backend/src/controllers/transactionsController.js:9 | the filtered rows are no more than the table's and each matches the owner and the sign condition |
| `Ledger.WhereCounts` | backend/src/controllers/transactionsController.js:9 | a WHERE keeps every matching row as many times as the table holds it, and no other row |
| `Ledger.WhereMembers` | backend/src/controllers/transactionsController.js:9 | a row is selected iff it is in the table and matches |
| `Ledger.InsertByDate` | backend/src/controllers/transactionsController.js:9 | inserting into a newest-first sequence keeps it newest first and adds exactly that row |
| `Ledger.SortNewestFirst` | backend/src/controllers/transactionsController.js:9 | `ORDER BY created_at DESC`: the result is in non-increasing date order and is a permutation of the input |
| `Ledger.ListByOwner` | backend/src/controllers/transactionsController.js:8-10 | the listing query; its contract is stated by ListByOwnerSpec |
| `Ledger.ListByOwnerSpec` | backend/src/controllers/transactionsController.js:8-12 | the listing is newest first; it holds the owner's rows, each as often as the table does, and no other; an owner without rows gets the empty sequence |
| `Ledger.SqlSum` | backend/src/controllers/transactionsController.js:78 | SQL `SUM` is NULL exactly over no rows |
| `Ledger.Coalesce` | backend/src/controllers/transactionsController.js:78 | `COALESCE(x, 0)`: x unless it is NULL, then the default; its use is stated by SumWhereIsTotal |
| `Ledger.SumWhere` | backend/src/controllers/transactionsController.js:77-95 | each of the three `COALESCE(SUM(amount), 0)` queries; its contract is stated by SumWhereIsTotal |
| `Ledger.SumWhereIsTotal` | backend/src/controllers/transactionsController.js:77-95 | `COALESCE(SUM(amount), 0)` is the sum of the selected amounts, and 0 when no row is selected |
| `Ledger.BalanceSplits` | backend/src/controllers/transactionsController.js:77-95 | the sum of all the owner's amounts is the income sum plus the expenses sum (amounts of 0 fall in neither) |
| `Ledger.IncomeNonNegative` | backend/src/controllers/transactionsController.js:84-88 | the income sum is at least 0 |
| `Ledger.ExpensesNonPositive` | backend/src/controllers/transactionsController.js:91-95 | the expenses sum is at most 0 |
| `Ledger.Summarize` | backend/src/controllers/transactionsController.js:77-102 | the three totals of the response; its contract is stated by SummarizeSpec |
| `Ledger.SummarizeSpec` | backend/src/controllers/transactionsController.js:77-102 | balance = income + expenses, income ≥ 0 ≥ expenses, and an owner without rows gets 0, 0, 0 |
| `Ledger.NoOwnerRows` | backend/src/controllers/transactionsController.js:75-81 | an owner with no rows has nothing selected by any of the summary's filters |
| `Ledger.WithId` | backend/src/controllers/transactionsController.js:56 | `RETURNING *` reports only rows with the requested id |
| `Ledger.WithoutId` | backend/src/controllers/transactionsController.js:56 | no row with the requested id remains |
| `Ledger.DeleteMissing` | backend/src/controllers/transactionsController.js:55-62 | when no row has the id, nothing is reported and the table is unchanged |
| `Ledger.DeleteExisting` | backend/src/controllers/transactionsController.js:55-64 | with unique ids, deleting the id of row k reports exactly that row and leaves every other row, in order |
| `Ledger.DeleteTwice` | backend/src/controllers/transactionsController.js:55-62 | after a delete, no row has the id, so deleting it again reports nothing |
| `Ledger.WithoutIdKeepsOrder` | backend/src/controllers/transactionsController.js:55-57 | a delete keeps ids increasing and adds no row |
| `TransactionsController.StoreIdCast` | backend/src/controllers/transactionsController.js:55-57 | whenever the store can read the raw id, it reads the value parseInt gives |
| `TransactionsController.StoreIdCastOfIntToString` | backend/src/controllers/transactionsController.js:50-57 | an id written as `String(n)`, for n of magnitude below 10^21, passes the id check and matches row id n |
| `TransactionsController.MissingField` | backend/src/controllers/transactionsController.js:25 | a field is missing when title, user_id or category is absent or empty, or amount is undefined; the outcomes of the test are stated by Table.CreateTransaction |
| `TransactionsController.Table.GetTransactionsByUserId` | backend/src/controllers/transactionsController.js:3-17 | 500 on a store failure; otherwise 200 with exactly the owner's rows, newest first, each as often as stored; an empty list, not an error, for an owner without rows; the table is read only |
| `TransactionsController.Table.CreateTransaction` | backend/src/controllers/transactionsController.js:19-42 | 400 with the table unchanged iff title, user_id or category is absent or empty, or amount is undefined; 500 with the table unchanged on a store failure; otherwise 201 with the inserted row, which is appended with a fresh larger id, old rows untouched |
| `TransactionsController.Table.DeleteTransaction` | backend/src/controllers/transactionsController.js:44-69 | 400 with nothing touched iff parseInt(id) is NaN; 500 on a store failure or an id the store cannot read; 404 with the table unchanged when no row has the id; otherwise 200 and exactly that one row removed, all others kept in order |
| `TransactionsController.Table.GetSummaryByUserId` | backend/src/controllers/transactionsController.js:71-108 | 500 on a store failure; otherwise 200 with the three COALESCE-SUM totals, balance = income + expenses, income ≥ 0 ≥ expenses, all 0 for an owner without rows; read only |
| `TransactionsController.CoffeeScenario` | backend/src/controllers/transactionsController.js:30-37 | on an empty table, creating a -4.50 "Coffee" expense for "u1" returns row id 1, and the summary is balance -4.50, income 0, expenses -4.50 |
| `TransactionsController.ZeroAmountScenario` | backend/src/controllers/transactionsController.js:25-27 | an amount of 0 is accepted |
| `TransactionsController.DeleteTwiceScenario` | backend/src/controllers/transactionsController.js:55-64 | deleting an existing id twice answers 200 and then 404 |

## Left out

- The rate limiter (backend/src/middleware/rateLimiter.js, backend/config/upstash.js) is not part of this model. Its sliding-window algorithm lives in an external library and a shared Redis counter.
- The mobile client hook (mobile/hooks/useTransactions.js) is not part of this model. It is React state, `fetch` I/O and alerts.
- The server bootstrap files (backend/src/server.js, backend/server.js) are not part of this model: Express wiring, environment, cron and the health route.
- config/db.js is not part of this model. So the schema is not claimed:
  - the serial id is an abstract counter starting at 1;
  - the default `created_at` is the `today` parameter;
  - the `DECIMAL(10,2)` range of `amount` and the NOT NULL constraints are not modelled.
- TransactionsController.StoreIdCast: the DELETE compares the `id` column with the raw path text. The store's cast of that text is not visible. The model takes it to read only an optionally signed decimal numeral with nothing after it (after leading white space). Every other id that passes the parseInt check becomes a 500. A store that reads more forms (trailing blanks, hex), or that bounds ids to 32 bits, would answer differently on those ids. In the other direction, the model skips all the white space parseInt skips, such as a no-break space (U+00A0), before the id; a store that skips only ASCII white space would answer 500 there, where the model answers 200 or 404.
- JsParseInt.IntToString: it always writes plain decimal digits. JavaScript's `String(n)` does so only for integers of magnitude below 10^21 (larger integers are written with an exponent, as in `"1e+21"`, and integers above 2^53 are not exact Numbers). So the round-trip lemmas about it stand for `String(n)` only in that range. Serial ids stay far below it.
- JsParseInt.ParseInt: the conversion of the digits to a JavaScript Number is not modelled. There is no rounding above 2^53, and -0 is 0. None of this changes whether the result is NaN.
- JsParseInt: characters are Unicode code points, not UTF-16 code units. Every white-space character parseInt skips is a single code unit, so the two agree.
- Request bodies: a string field is either absent or a string, and `amount` is either undefined or an integer number of cents. Other JSON values are not modelled: `null`, numbers or booleans in string fields, non-numeric amounts, and an absent `req.body`. The store's treatment of those is not visible.
- JSON serialisation is not modelled, including the driver returning decimals as strings.
- Console logging is not modelled.
- Ledger.SortNewestFirst: rows of the same date keep their table order in the model. The contract promises only what `ORDER BY created_at DESC` promises: non-increasing dates and a permutation.
- Concurrency between requests is not modelled. Each handler runs alone on the table. The three summary queries read the same state.
