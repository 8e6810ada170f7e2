# Crypto exchange-rate endpoints, modelled in Dafny

The repository serves cryptocurrency-to-fiat exchange rates from three
MySQL tables, `Cryptocurrencies`, `FiatCurrencies` and `ExchangeRates`.
It also keeps the rate table fresh from the CryptoCompare price API.

**Read side.** Two services answer rate requests:

- a local HTTP server (`cryptolocal/main.go`), which checks that both symbols exist before it queries;
- a Netlify/Lambda function (`netlify/functions/rate/main.go`), which does not.

Both offer the same four queries:

- the latest rate of one pair;
- the rates of one crypto;
- all rates;
- the last 24 hours of one pair.

**Write side.** Two refresh jobs fill `ExchangeRates`:

- a Lambda updater (`netlify/functions/updatetable/main.go`);
- a Python script (`cryptolocal/filldata.py`).

Each maps API symbols to table ids and appends new rows.

**Two more functions:**

- `netlify/functions/balance/main.go` validates an Ethereum address and reports its balance;
- `netlify/functions/singlerate/main.go` relays one price from the upstream API.

## How the model is built

The model has one Dafny module per source file, plus shared modules:

- `Common`: options, results, Go slices and replies;
- `Strings`: Go's `strings.Split`, Python's `str.join` and Go's `strings.TrimPrefix`;
- `Tables`: the relational model;
- `PyDict`: Python's insertion-ordered `dict`.

**Tables and queries.**

- A table is a sequence of rows.
- An SQL join is `Tables.Join`: every rate row whose two ids resolve to currency symbols.
- Each SQL query is a function giving its result set.
- The order in which a driver returns rows is not fixed. So every scan loop receives its rows as a parameter `scanned`, required to be a permutation of the result set.
- Each scan loop is then a `method` with a `while` loop, proved equal to a fold over `scanned`.
- Each fold's keys, values and last-write-wins behaviour are proved as lemmas.

**Failures and external calls.**

- A driver or network failure is a parameter: an `Option<string>` error.
- HTTP calls, the Ethereum client, the environment and the clock are parameters too.

**Go and Python semantics.**

- Go's map iteration order is not fixed. The Lambda updater's nested `range` loops therefore pick keys with `:|`, and a ghost `origin` sequence records the order that was taken.
- Python dicts keep insertion order, so the script's URL and its `values` list are exact sequences.
- A Go index past the end of a slice is a `Panic` reply.

## Model

Paths are relative to the repository root.

| member | source | states |
|---|---|---|
| Common.IntToString | netlify/functions/updatetable/main.go:104 | `%d` formatting: a non-empty string, starting with '-' exactly for a negative number |
| Common.NatToStringValue | netlify/functions/updatetable/main.go:104 | the digits written for a natural number read back, in decimal, as that number |
| Common.IntToStringValue | netlify/functions/updatetable/main.go:104 | `%d` output, a leading '-' negating the digits, reads back as the number formatted |
| Common.Append | netlify/functions/rate/main.go:151-164 | `append` onto a nil slice gives a non-nil slice; the elements are the old ones followed by the new one |
| Strings.Split | cryptolocal/main.go:419 | splitting gives at least one segment, and no segment contains the separator |
| Strings.SplitLength | cryptolocal/main.go:419-420 | the number of segments is the number of separators plus one |
| Strings.JoinSplit | cryptolocal/filldata.py:74-75 | joining the segments of a string with its separator gives the string back |
| Strings.SplitJoin | cryptolocal/filldata.py:74-75 | splitting a join of separator-free pieces gives the pieces back |
| Strings.TrimPrefix | netlify/functions/balance/main.go:38 | a leading prefix is removed once; a string without it is unchanged |
| Strings.TrimPrefixConcat | netlify/functions/balance/main.go:38 | trimming the prefix from prefix+x gives x |
| Tables.SymbolOf | cryptolocal/main.go:82-83 | no symbol exactly when no currency row has the id; otherwise the symbol of a row with that id |
| Tables.InJoin | cryptolocal/main.go:81-84 | a joined row is in the join exactly when its rate row is stored and both ids resolve to its two symbols |
| Tables.Filter | cryptolocal/main.go:84 | a row is kept exactly when it is in the input and satisfies the WHERE condition |
| Tables.MaxTimestamp | cryptolocal/main.go:85-89 | `MAX(timestamp)` is absent only for no rows; otherwise it is some row's timestamp and bounds every row |
| Tables.PairMaxBounds | cryptolocal/main.go:85-89 | every stored row's pair has a maximum, and the row's timestamp does not exceed it |
| Tables.AtPairMaxIsLatest | cryptolocal/main.go:85-89 | a row at its pair's maximum is at least as recent as every row of the pair |
| Tables.LatestOfPairExists | cryptolocal/main.go:140-146 | every joined pair has a joined row at its pair's maximum timestamp |
| Tables.ScanMembers | cryptolocal/main.go:124-131 | a scan visits exactly the rows of the result set, each as often |
| Tables.FiatFoldKeys | cryptolocal/main.go:123-131 | the filled map has a fiat key exactly when some scanned row has that fiat |
| Tables.FiatFoldLastWins | cryptolocal/main.go:130 | the last scanned row for a fiat sets its value |
| Tables.FiatFoldFrom | cryptolocal/main.go:130 | every value is the rate of a scanned row for that fiat |
| Tables.CollectFiatRates | cryptolocal/main.go:123-133 | the scan loop builds the flat fold of the scanned rows |
| Tables.RowsOfCrypto | cryptolocal/main.go:165-168 | the rows of one crypto are exactly the input rows with that crypto |
| Tables.NestedFoldCryptoKeys | cryptolocal/main.go:157-169 | the outer map has a crypto key exactly when some scanned row has that crypto |
| Tables.NestedFoldPerCrypto | cryptolocal/main.go:165-168 | one crypto's inner map is the flat fold of that crypto's rows |
| Tables.NestedFoldInnerNonEmpty | cryptolocal/main.go:165-168 | an inner map is created only when a rate goes into it, so none is empty |
| Tables.NestedFoldKeys | cryptolocal/main.go:157-169 | (crypto, fiat) is present exactly when some scanned row has both |
| Tables.NestedFoldFrom | cryptolocal/main.go:168 | every nested value is the rate of a scanned row for that pair |
| Tables.NestedFoldLastWins | cryptolocal/main.go:168 | the last scanned row for a pair sets its value |
| Tables.CollectAllRates | cryptolocal/main.go:157-171 | the scan loop builds the nested fold of the scanned rows |
| LocalServer.SymbolExists | cryptolocal/main.go:37 | `SELECT EXISTS` is true exactly when some row has the symbol |
| LocalServer.CheckCurrency | cryptolocal/main.go:35-51 | a driver error is returned as the error; otherwise the result is whether the symbol exists |
| LocalServer.CheckCurrencyFixture | cryptolocal/main.go:35-42 | over a BTC/ETH/USDT/BNB table: BTC and ETH exist and LTC does not |
| LocalServer.LatestPairRows | cryptolocal/main.go:79-90 | the latest-rate query's result set: the pair's joined rows at the pair's `MAX(timestamp)`; a definition, characterised by LatestPairRowsEmpty and AtPairMax |
| LocalServer.LatestOfCryptoRows | cryptolocal/main.go:104-115 | the per-crypto query's result set: the crypto's joined rows at the crypto-wide `MAX(timestamp)`; a definition, characterised by CryptoMaxIsLatest and GetExchangeRatesForCrypto |
| LocalServer.LatestRows | cryptolocal/main.go:137-149 | the all-rates query's result set: every joined row at its pair's maximum; a definition, characterised by LatestOfPairExists and GetAllExchangeRates |
| LocalServer.HistoryRows | cryptolocal/main.go:175-181 | the history query's result set: the pair's joined rows at or after now minus 24 h; a definition, characterised by HistoryWindowFixture and GetHistoricalExchangeRates |
| LocalServer.AtPairMax | cryptolocal/main.go:85-89 | a row at its pair's maximum timestamp is the latest of its pair |
| LocalServer.LatestPairRowsEmpty | cryptolocal/main.go:78-90 | the latest-rate query returns nothing exactly when the pair has no joined rows |
| LocalServer.GetExchangeRate | cryptolocal/main.go:78-101 | a driver error is returned; `ErrNoRows` exactly when the pair has no rows; otherwise the rate of a joined row that is the latest of its pair |
| LocalServer.CryptoMaxIsLatest | cryptolocal/main.go:110-114 | a row at the crypto-wide maximum is at least as recent as every row of that crypto |
| LocalServer.GetExchangeRatesForCrypto | cryptolocal/main.go:103-134 | a driver error is returned; otherwise the fold of the scan, with fiat keys exactly those of rows at the crypto-wide maximum, each value from such a row |
| LocalServer.CryptoRatesOmitStaleFiat | cryptolocal/main.go:110-114 | a fiat whose rows are all older than the crypto's newest row is missing from the answer, although it has rows |
| LocalServer.GetAllExchangeRates | cryptolocal/main.go:136-172 | keys are exactly the pairs with rows; each value comes from a joined row that is latest of its pair; no inner map is empty |
| LocalServer.GetHistoricalExchangeRates | cryptolocal/main.go:174-204 | the slice is non-nil, one entry per scanned row; its entries are exactly the (rate, timestamp) of the pair's rows at or after now minus 24 h |
| LocalServer.HistoryWindowFixture | cryptolocal/main.go:180 | rows 2 h and 1 h old are in the history, and a row 26 h old is not |
| LocalServer.Validate | cryptolocal/main.go:249-275 | checks happen in order: connect error 500, crypto-check error 500, unknown crypto 404, fiat-check error 500, unknown fiat 404; the request proceeds exactly when all pass |
| LocalServer.UnknownCryptoIsNotFound | cryptolocal/main.go:262-265 | an unregistered crypto gets the 404 crypto message whatever the fiat |
| LocalServer.QueryErrorReply | cryptolocal/main.go:277-286 | `ErrNoRows` is the 404 "Exchange rates not found."; any other error is a bare 500 |
| LocalServer.HandleGetExchangeRate | cryptolocal/main.go:245-294 | validation replies first; a query fault is 500; 404 not-found exactly when the pair has no rows; once validation passes without a fault, a pair with rows gets 200, and a 200 carries the rate of a latest row of the pair |
| LocalServer.CopyRates | cryptolocal/main.go:328-331 | the copy loop yields a map equal to the queried one |
| LocalServer.HandleGetExchangeRatesForCrypto | cryptolocal/main.go:296-338 | validation replies first; a query fault is 500; otherwise 200 with the fold of the scan; the not-found reply never occurs |
| LocalServer.HandleGetHistoricalExchangeRates | cryptolocal/main.go:340-389 | validation replies first; a query fault is 500; otherwise 200 with a non-nil slice holding one (rate, timestamp) entry per scanned row, in scan order, whose entries are exactly those of the pair's rows in the window |
| LocalServer.HandleGetAllExchangeRates | cryptolocal/main.go:391-416 | a connect or query fault is 500; otherwise 200 with the nested fold of the scan |
| LocalServer.RouteOf | cryptolocal/main.go:418-435 | the if/else chain over the split segments, in source order; a definition, characterised by the Classify lemmas |
| LocalServer.Classify | cryptolocal/main.go:419-435 | the route of a URL path, the chain applied to `strings.Split(path, "/")`; characterised by the Classify lemmas |
| LocalServer.ClassifyTooMany | cryptolocal/main.go:422-423 | a path with five or more '/' is "too many parameters" |
| LocalServer.ClassifyAllRates | cryptolocal/main.go:430-431 | "/rates" goes to all rates |
| LocalServer.ClassifyCryptoRates | cryptolocal/main.go:426-427 | "/rates/c" goes to the crypto's rates when c is non-empty, and is invalid otherwise |
| LocalServer.ClassifySingleRate | cryptolocal/main.go:424-425 | "/rates/c/f" goes to the single rate for any c and f, "history" included |
| LocalServer.ClassifyHistory | cryptolocal/main.go:428-429 | "/rates/history/c/f" with non-empty c and f goes to the history |
| LocalServer.SplitRatesPathOf | cryptolocal/main.go:419 | a path built from separator-free segments lead, "rates", params splits back into exactly those segments |
| LocalServer.RatesPathOfSegments | cryptolocal/main.go:419 | a path whose second segment is "rates" is rebuilt from its segments |
| LocalServer.ClassifyConverse | cryptolocal/main.go:422-431 | every route but the fallback comes only from its own path shape: too many parameters only with at least five '/'; all rates only from lead + "/rates"; a crypto's rates only from lead + "/rates/c" with c non-empty; a single rate only from lead + "/rates/c/f"; a history only from lead + "/rates/history/c/f" with c and f non-empty |
| LocalServer.ClassifyInvalid | cryptolocal/main.go:432-433 | the fallback, both directions: "invalid parameters" exactly when the path has at most four '/' and none of the four accepted shapes |
| LocalServer.ClassifyInvalidRoot | cryptolocal/main.go:432-433 | "/" and "/foo" get "invalid parameters" |
| LocalServer.ClassifyInvalidLongPaths | cryptolocal/main.go:428-433 | "/rates/history/BTC/" (empty fiat) and "/rates/spot/BTC/USD" (not "history") get "invalid parameters" |
| LambdaRates.PairRows | netlify/functions/rate/main.go:53-61 | the single-rate query's rows: the pair's joined rows, delivered newest first (NewestFirst); a definition, used by GetExchangeRate |
| LambdaRates.CryptoRows | netlify/functions/rate/main.go:76-82 | the per-crypto query's rows: every joined row of the crypto, no timestamp filter; a definition, used by GetExchangeRatesForCrypto |
| LambdaRates.RecentPairRows | netlify/functions/rate/main.go:135-145 | the history query's rows: the pair's joined rows strictly after now minus 24 h; a definition, characterised by WindowExcludesBoundary and GetHistoricalExchangeRates |
| LambdaRates.GetExchangeRate | netlify/functions/rate/main.go:52-73 | a driver error is returned; the pair message exactly when the pair has no rows; otherwise the rate of the first row in descending order, the newest of its pair |
| LambdaRates.GetExchangeRatesForCrypto | netlify/functions/rate/main.go:75-101 | a driver error is returned; otherwise fiat keys exactly the fiats with rows for the crypto, each value from such a row |
| LambdaRates.GetAllExchangeRates | netlify/functions/rate/main.go:103-132 | keys are exactly the pairs with rows; each value is from a row of its pair; no inner map is empty |
| LambdaRates.GetHistoricalExchangeRates | netlify/functions/rate/main.go:134-168 | a nil slice exactly when no row is in the window; entries are one per scanned row and exactly the pair's rows strictly after now minus 24 h |
| LambdaRates.WindowExcludesBoundary | netlify/functions/rate/main.go:141-144 | a row exactly 24 h old is not in the history |
| LambdaRates.BranchReply | netlify/functions/rate/main.go:182-209 | open error 500 with the error; query error 400 with the message as JSON; otherwise 200 with the body |
| LambdaRates.At | netlify/functions/rate/main.go:180-181 | indexing succeeds exactly within bounds, and gives that segment |
| LambdaRates.HandleRequest | netlify/functions/rate/main.go:174-293 | the router as written, indexing the split path; its behaviour is stated by HandleRequestNeverAnswers |
| LambdaRates.HandleRequestNeverAnswers | netlify/functions/rate/main.go:174-293 | a path with at most two '/' panics on an index past the end; any other path is 404 |
| UpdateTable.MappingOf | netlify/functions/updatetable/main.go:140-148 | the map has a symbol key exactly when some scanned row has the symbol |
| UpdateTable.MappingOfLastWins | netlify/functions/updatetable/main.go:147 | the last scanned row for a symbol sets its id |
| UpdateTable.MappingOfScanOrder | netlify/functions/updatetable/main.go:132-151 | with unique symbols, scan order does not matter: every table row's symbol maps to its id and nothing else is a key |
| UpdateTable.GetMappings | netlify/functions/updatetable/main.go:132-173 | a driver error is returned; otherwise the map built from the scan |
| UpdateTable.GoGet | netlify/functions/updatetable/main.go:79-82 | a missing key reads as 0, a present one as its value |
| UpdateTable.BuildExchangeRates | netlify/functions/updatetable/main.go:78-92 | rows are exactly one per API entry whose two symbols map to non-zero ids, in the iteration order taken; nil exactly when there are none |
| UpdateTable.ZeroIdIsSkipped | netlify/functions/updatetable/main.go:79-83 | a crypto mapped to id 0 contributes no row, and no row has crypto id 0 |
| UpdateTable.StampedRows | netlify/functions/updatetable/main.go:181 | each inserted row keeps its ids and rate and gets the insert time |
| UpdateTable.FirstFault | netlify/functions/updatetable/main.go:188-193 | the first failing `Exec` index, or none when all succeed |
| UpdateTable.InsertExchangeRates | netlify/functions/updatetable/main.go:176-196 | an empty batch is a no-op; a prepare error changes nothing; otherwise the rows before the first failing `Exec` are appended and its error returned |
| UpdateTable.StampedPrefixExtends | netlify/functions/updatetable/main.go:188-193 | any prefix of the built batch, stamped, extends the table with rows built from eligible API entries |
| UpdateTable.InsertedCount | netlify/functions/updatetable/main.go:176-196 | how many rows the insert leaves: at most the batch, and the whole batch exactly when it is empty or neither Prepare nor any Exec fails |
| UpdateTable.Refresh | netlify/functions/updatetable/main.go:41-105 | connect, request, status, decode and mapping failures are 500 with the table unchanged; once the insert is reached, the table grows by stamped eligible rows, InsertedCount of them; the reply is 200 exactly when the batch is empty or neither Prepare nor any Exec fails, and otherwise a 500 carrying the Prepare error or the first failing Exec's error |
| PyDict.Empty | cryptolocal/filldata.py:84 | `{}` has distinct keys |
| PyDict.Find | cryptolocal/filldata.py:87 | the position of the first entry with the key, or none exactly when no entry has it |
| PyDict.Get | cryptolocal/filldata.py:87-90 | `.get` is None exactly when the key is absent, otherwise a stored value for it |
| PyDict.Set | cryptolocal/filldata.py:93 | assignment keeps keys distinct and other keys' values; a present key keeps its place and a new key goes last |
| PyDict.GetSet | cryptolocal/filldata.py:93 | after `d[k] = v`, `d.get(k)` is v |
| FillData.SymbolIdMapping | cryptolocal/filldata.py:28 | the comprehension has distinct keys, exactly the fetched symbols |
| FillData.SymbolIdMappingLastWins | cryptolocal/filldata.py:28 | the last row for a symbol sets its id |
| FillData.ApiUrl | cryptolocal/filldata.py:74-76 | the request URL from the comma-joined keys of both mappings; a definition, characterised by ApiUrlCarriesKeys |
| FillData.ApiUrlCarriesKeys | cryptolocal/filldata.py:74-76 | in the URL, `fsyms` splits on ',' into the crypto keys and `tsyms` into the fiat keys, in dict order |
| FillData.Apply | cryptolocal/filldata.py:93 | assignments keep a dict's keys distinct |
| FillData.SetFiatRates | cryptolocal/filldata.py:89-93 | the inner loop performs that crypto's assignments in order |
| FillData.BuildExchangeRates | cryptolocal/filldata.py:84-93 | the nested loops perform all assignments of the payload, in order, starting from `{}` |
| FillData.ApplyKeys | cryptolocal/filldata.py:92-93 | an id pair is a key exactly when some assignment names it |
| FillData.ApplyLastWins | cryptolocal/filldata.py:92-93 | entries mapping to the same id pair collapse, and the later rate wins |
| FillData.ApplyFrom | cryptolocal/filldata.py:93 | every stored value was assigned to its key |
| FillData.InFiatAssignments | cryptolocal/filldata.py:89-93 | one crypto's assignments are exactly its fiats that have ids, with their rates |
| FillData.AssignmentsSound | cryptolocal/filldata.py:86-93 | every assignment comes from a payload entry whose two symbols have ids |
| FillData.AssignmentsComplete | cryptolocal/filldata.py:86-93 | every payload entry whose two symbols have ids yields an assignment |
| FillData.ExchangeRatesKey | cryptolocal/filldata.py:86-93 | (cid, fid) is a key exactly when some payload entry's symbols map to cid and fid |
| FillData.ExchangeRatesValue | cryptolocal/filldata.py:86-93 | every stored rate is the rate of a payload entry naming that id pair |
| FillData.ExchangeRatesExact | cryptolocal/filldata.py:84-93 | the built dict has distinct keys, exactly the named id pairs, each holding a quoted rate |
| FillData.ZeroIdIsKept | cryptolocal/filldata.py:88-91 | an id of 0 counts as present (`is not None`), so the pair (0, 0) is stored |
| FillData.Values | cryptolocal/filldata.py:47-50 | the list comprehension over `exchange_rates.items()`; a definition, characterised by ValuesExact |
| FillData.ValuesExact | cryptolocal/filldata.py:47-50 | `values` has one tuple per dict entry; a tuple is present exactly when the dict maps its pair to its rate; no pair repeats |
| FillData.Cycle | cryptolocal/filldata.py:64-100 | a mapping fault, request fault, non-200 status, decode error or insert error commits nothing; otherwise the whole batch is appended, stamped |
| Balance.IsValidAddress | netlify/functions/balance/main.go:20-25 | the regular expression matched left to right; a definition, characterised by ValidAddressExact |
| Balance.HexRunExact | netlify/functions/balance/main.go:23 | `[0-9a-fA-F]{n}$` holds exactly for n hex digits and nothing more |
| Balance.ValidAddressExact | netlify/functions/balance/main.go:20-25 | an address is valid exactly when it is 42 characters, starts "0x" and the other 40 are hex digits |
| Balance.UpperCasePrefixRejected | netlify/functions/balance/main.go:23 | "0X" never starts a valid address |
| Balance.DigitCaseIgnored | netlify/functions/balance/main.go:23 | replacing any hex digit of a valid address by any other, of either case, keeps it valid: no checksum is checked |
| Balance.GetBalance | netlify/functions/balance/main.go:36-98 | invalid address 400 "Address not valid"; unset `INFURA_URL` exits; a dial or balance error 500; 200 only with every step passing, for the trimmed address and its balance |
| Balance.InvalidAddressIgnoresChain | netlify/functions/balance/main.go:40-53 | an invalid address is answered the same whatever the environment and client |
| Balance.BalanceOfPrefixedPath | netlify/functions/balance/main.go:38-97 | the route prefix plus a valid address, with a working client, answers 200 for that address |
| SingleRate.PairOf | netlify/functions/singlerate/main.go:17-19 | the last two segments are taken, and the index panics exactly when the path has no '/' |
| SingleRate.PairOfTail | netlify/functions/singlerate/main.go:17-19 | any path ending "/c/f" gives crypto c and fiat f, whatever precedes |
| SingleRate.PairOfOneSlash | netlify/functions/singlerate/main.go:17-19 | a path with one '/' takes the text before it as the crypto, so "/USD" asks for crypto "" in USD |
| SingleRate.GetSingleRate | netlify/functions/singlerate/main.go:16-61 | panics exactly when the path has no '/'; otherwise requests the price URL for the two segments |
| SingleRate.Answer | netlify/functions/singlerate/main.go:26-60 | a request error is 500; a non-200 status is 502 naming the status; a missing fiat is 404 naming the fiat |
| SingleRate.SuccessIsSingleKey | netlify/functions/singlerate/main.go:42-60 | a 200 answer happens exactly when the upstream succeeded with the fiat present; it then has that one key, with the upstream value |
| SingleRate.FailureCarriesError | netlify/functions/singlerate/main.go:26-60 | every answer other than 200 carries an error |
| SingleRate.RouteFixture | netlify/functions/singlerate/main.go:17-24 | "/.netlify/functions/singlerate/BTC/USD" requests BTC in USD |

## Left out

**I/O and external services.** These calls are foreign code, so the model takes what they yield as parameters:

- database connections, SQL execution, connection pooling and closing;
- HTTP serving, Lambda wiring, `http.Get`, `ethclient.Dial`, `BalanceAt` and environment variables;
- the clock.

**Representation.**

- JSON encoding and decoding: decoding is a `Result` parameter, encoding is a `Body` constructor. The ignored or error-returning `json.Marshal` calls are left out; their input is always encodable.
- Floating point: rates are an opaque type that is only copied. `weiToEther` and the ether balance as a float are not part of this model; a `Wei` value stands in for the balance.
- Timestamps are integers in seconds. Text formatting of timestamps and logging are left out.

**Driver behaviour.** `rows.Err()` is never checked in the source. An error that ends a scan early is therefore indistinguishable from the scan's end, and every scan in the model visits its whole result set.

**Scheduling, seed data and trivial handlers.**

- The scheduling loop and `sleep(600)` in `filldata.py`: `Cycle` models one pass.
- The seed-data scripts `cryptolist.py` and `fiatlist.py`.
- The constant or single-query handlers in `main.go`, `functions/basic.go` and `netlify/functions/hello/main.go`.

**Route prefix.** The local server's routing is modelled on the URL path. The Lambda rate router is modelled as written: every branch that answers indexes past the end of the split path, so it panics or returns 404.

**Behaviour a reader might not expect, modelled as the code does it:**

- the per-crypto local query compares against the crypto-wide maximum timestamp, not the per-pair one, so stale fiats drop out;
- the Lambda updater inserts row by row without a transaction, so an `Exec` failure leaves a prefix of the batch in the table;
- the Lambda rate endpoint performs no symbol validation;
- no history query has an `ORDER BY`, so history order is the scan order.

**Weaker contracts and narrower claims.**

- LocalServer.SymbolExists: symbols are compared character for character, here and in every `WHERE c.symbol = ?`. A case-insensitive MySQL collation, under which "btc" would also match "BTC", is not modelled.
- LocalServer.GetExchangeRate: when two rows of a pair share the maximum timestamp, which one the driver returns is not claimed; the result is only shown to come from one of them.
- LambdaRates.GetExchangeRate: which of several rows sharing the newest timestamp is first is not claimed either.
- LambdaRates.GetExchangeRatesForCrypto: the value for a fiat is shown to be the rate of some row of that fiat; which one depends on scan order, not timestamps, and is not named beyond the fold.
- LambdaRates.GetAllExchangeRates: values are shown to come from some row of the pair, for the same reason.
- UpdateTable.BuildExchangeRates: Go's map iteration order is not modelled; the claims hold for every order.
- UpdateTable.Refresh: every inserted row carries one stamp, standing for the database's per-statement `NOW()`.
- FillData.Cycle: an insert is all-or-nothing because `executemany` runs before `commit` and nothing is committed on an exception. This relies on the connector's default of autocommit off, which the model takes as given.
- Balance.GetBalance: `log.Fatal` is modelled as an `Exited` outcome. The JSON-encoding failure branch is left out.
- LocalServer.GetAllExchangeRates: whole-table scenarios over concrete multi-row databases are not proved; the contract is proved for all databases instead.
