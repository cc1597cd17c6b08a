# price-logger, modelled in Dafny

price-logger scrapes wishlist pages of an online shop every hour and keeps a price history
per product in a PocketBase store. When a product shows a price it has not had before, a
push notification goes out. This project models the core of that system and proves what it
promises:

- **Row and page extraction** (`internal/parser/parse.go`). A parsed HTML tree
  (`Html.Node`) becomes a sequence of observations {name, stock, price}. `Parse` keeps the
  last `tbody` of the document and hands each `tr` child to `ParseRow`. `ParseRow` takes
  the second and third `td` cells, reads the name and stock text from the name cell, and
  reads the price from the text under `ins` elements of the price cell. Go's panics (an
  index out of range, a nil table body) are `Failure` results. Nothing in the source recovers
  from them, so in the program a `Failure` is a crash of the whole process, not one skipped
  page. `strings.TrimSpace`,
  `strings.Replace`, `strings.Contains`, `strconv.Atoi`, `strconv.ParseFloat` and
  `int32()` are written out in `Strings` and `Numbers`.
- **Reconciliation engine** (`internal/db/server.go`, `internal/db/pocketbase.go`,
  `app/settings.go`). The PocketBase store is a value `Store.Db`: products, price records,
  urls, accounts, collection schemas, one logical clock and a log of pushed notifications.
  The class `ServerClass.Server` holds the same state in fields. Each of its methods is
  proved to have the effect of the `Store` function of the same step, so the lemmas about
  those functions hold of the methods. `AddToCollection` matches each observation
  (`PriceMatch`) and then takes one of two paths:
  - it saves the matched price record again, or
  - it creates a product and/or a price record.

  Every price-record create passes through the before-create hook of `PriceUpdateHook`.
  Only a real create reaches the after-create `AddMonitor` gate. `Settings` models
  `AddURL` and `AddUser`.
- **Last-price monitor** (`internal/monitor/watch.go`). The class `Monitor.Watcher` holds
  the map from product name to the last price seen and a ghost log of notifications.
- **Legacy ClickHouse table** (`internal/db/connection.go`). The class `Legacy.Table`
  holds the rows of the price table and the ids of the autoIncrement table. Rows are
  coalesced on the key (Name, Stock, Price) or inserted under the id one past the largest
  recorded id.
- **Legacy handlers** (`app/handlers.go`). `Handlers` models the order-preserving distinct
  names behind /products and the name filter behind /prices.

Modelling decisions:

- **Prices** are exact `real` numbers. `strconv.ParseFloat` is modelled on decimal numerals:
  an optional sign, digits, and at most one `.`. Any other text yields 0, which is the
  value the source keeps when it ignores the error.
- **Stock** goes through `strconv.Atoi`, modelled as the digit loop of `strconv.ParseUint`
  read left to right after an optional sign. A non-digit reached first is a syntax error
  and yields 0. Once the digits pass 2^64-1 the loop stops with a range error, whatever
  text follows, and the value is clamped to the int64 range. So "99999999999999999999 x"
  yields 2^63-1 (`Numbers.AtoiOverflow`). The value then goes through `int32()`, a
  two's-complement wrap-around, so that text gives stock -1
  (`Numbers.AtoiOverflowSample`).
- **The price marker** skipped at `internal/parser/parse.go:88` is the three code points
  U+00E2 U+201A U+00B9, as written in the source. Those are the UTF-8 bytes of the rupee
  sign read as Windows-1252; the marker is not the rupee sign U+20B9 itself. So a text made
  of a real rupee sign is a price text that does not parse and sets the price to 0
  (`Parser.RupeeSignResetsPrice`).
- **The store's clock and faults.** Every store call that can fail (a Save, CountRecords)
  happens at the instant `clock` and then advances it. The set `faults` lists the instants
  at which the store reports an error.
- **Save validation.** A Save also fails when the record breaks its collection's schema
  (`internal/db/pocketbase.go:34-71`):
  - a required text is empty;
  - a required number is zero;
  - a relation points at no record;
  - a url is already stored.
- **Timestamps.** Creating a record sets created = updated = that instant. Saving an existing
  record sets only updated (`internal/db/pocketbase.go:73-81`).
- **Record ids** are positive; 0 stands for Go's empty Id.
- **Notifications** are the ghost field `sent` of the class and a plain field of `Db`.
- **Environment values** are parameters: the admin's name, email and password, the
  optional flag of `AddURL`, and whether `FindAllRecords` fails in `GetURLs`.

Where the code and the system's documented behaviour differ, the model follows the code:

- On a match, the new stock is set only on the in-memory product record. Only the price
  record is saved, so the stored stock never changes (`Store.MatchedStep`).
- The notify gate counts the price records after the create, so the new record is
  included. It therefore notifies from a product's second price record on
  (`Store.NewPriceStep`).
- A name cell with a single text has no stock text, and `nslist[1]` panics. This is the
  `MissingStock` failure, not a default stock.
- A Save of a product with stock 0, or of a price record with price 0, fails. That is the
  required-number rule, and it ends `AddToCollection` (`Store.NewProductStep`,
  `Store.NewPriceStep`).
- A price that already has a record, even an old one, is saved into that record again
  rather than appended (`Store.HookCoalesces`).
- `PriceMatch` has already looked up (product, price) before any create. So from
  `AddToCollection`, the coalescing branch of the before-create hook is taken only for
  creates that `PriceMatch` did not see; `Store.HookCoalesces` states what it does.
- `GetProduct` puts the price record's id in `Product.Id`.
- The price is not taken from the first price text under `ins`. Each such text
  overwrites `price` (`internal/parser/parse.go:88-89`), so the last one decides
  (`Parser.ScanPrice`, `Parser.RowFields`).

## Model

| member | source | states |
|---|---|---|
| Store.FindProduct | internal/db/server.go:115-118 | the first product record whose name is exactly the observation's name; none exactly when no product has that name |
| Store.LatestPrice | internal/db/server.go:119-127 | a price record of that product at exactly that price with the greatest `updated`; none exactly when no record has that product and price |
| Store.PriceMatch | internal/db/server.go:114-132 | NoProduct exactly when no product has the name; NoPrice with the named product and no record of it at that price; Matched with the named product and its record at that price having the greatest `updated` |
| Store.FindById | internal/db/server.go:205-209 | the expansion of the product relation finds the product with that id, or reports that none has it |
| Store.StoredRecordExpands | internal/db/server.go:199-213 | in a valid store GetProduct of a stored record carries that record's non-empty id and its product's name |
| Store.NoExpansionNoPush | internal/db/server.go:205-209 | a record whose product cannot be expanded yields the zero Product, so the gate pushes nothing |
| Store.NotifyGate | app/settings.go:70-80 | the callback pushes exactly when CountRecords succeeds and counts more than one record, and it pushes GetProduct of the new record; a count error gives 0 and no push |
| Store.MatchedStep | internal/db/server.go:141-146 | a match creates no record, writes no product and sends nothing; only the matched record's `updated` moves, to the instant of its Save |
| Store.NewProductStep | internal/db/server.go:147-160 | an unknown name creates exactly one product {name, stock} and one price record linked to it, with created = updated; the first price never notifies; a failed Save creates no price record |
| Store.NewPriceStep | internal/db/server.go:157-165 | a known name at a new price creates exactly one price record and writes no product; a push follows exactly when the count after the create succeeds and finds an older record |
| Store.HookCoalesces | internal/db/server.go:170-194 | a create for a (product, price) already on record creates nothing and pushes nothing; the latest such record is saved again, so only its `updated` moves |
| Store.NotifyOnlyOnCreate | internal/db/server.go:195 | any push comes from an iteration that appended exactly one price record, whose product then has more than one record, and it carries that record |
| Store.StepRecordsObservation | internal/db/server.go:139-166 | after a completed iteration the observation's product and price match a stored record |
| Store.RepeatCreatesNothing | internal/db/server.go:139-166 | the same observation seen again creates no product, no price record and no notification |
| Store.ReconcileAppend | internal/db/server.go:161-165 | a failed Save ends the batch: the rest of the observations is processed only when the first part completed |
| Store.StepValid | internal/db/server.go:139-166 | one iteration keeps the store invariant: unique product names, valid ids, existing products, non-zero prices, past timestamps, no two records of a product at one price |
| Store.ReconcileValid | internal/db/server.go:135-167 | AddToCollection keeps the store invariant whether or not the batch completes |
| Store.TouchValid | internal/db/pocketbase.go:77-81 | saving a record again at the same price keeps the invariant |
| Store.CreateProductValid | internal/db/pocketbase.go:35-44 | creating a product for an unknown name keeps names unique and ids increasing |
| Store.AppendPriceValid | internal/db/pocketbase.go:45-56 | a new price record for an existing product at a new price, stamped now, keeps the invariant |
| Store.CreatePriceValid | internal/db/server.go:170-196 | a price-record create through the hook keeps the invariant, and in particular no product gains two records at one price |
| ServerClass.Server.constructor | internal/db/pocketbase.go:29-83 | a new store with the given collections is empty with its clock at 0 and satisfies the invariant |
| ServerClass.Server.SaveExisting | internal/db/server.go:186-190 | saving an existing price record has the effect of Store.Touch: on success only `price` and `updated` change |
| ServerClass.Server.SaveProduct | internal/db/server.go:147-155 | saving a new product has the effect of Store.CreateProduct and returns its id |
| ServerClass.Server.CountPriceRecords | internal/db/server.go:216-223 | the count of price records of the product, or 0 when the store reports an error |
| ServerClass.Server.AfterCreate | app/settings.go:70-80 | the after-create callback has the effect of Store.Notify |
| ServerClass.Server.SavePrice | internal/db/server.go:170-196 | a price-record create through the hook has the effect of Store.CreatePrice |
| ServerClass.Server.ObserveOne | internal/db/server.go:139-166 | one iteration of the loop has the effect of Store.Step and reports whether its Saves succeeded |
| ServerClass.Server.AddToCollection | internal/db/server.go:135-167 | the loop leaves the store as Store.Reconcile of the batch describes, stopping at the first failed Save |
| ServerClass.Server.GetURLs | internal/db/server.go:100-111 | the "url" field of every urls record, in order; nothing when FindAllRecords fails |
| Settings.UrlKind | app/settings.go:88-93 | the stored type is one of the select's values, and it is "product" exactly when the first optional flag is present and true |
| Settings.NewAccount | app/settings.go:109-116 | the account is marked verified and given the name exactly when the collection has a "name" field; email and password are always set |
| Settings.AddURL | app/settings.go:82-101 | AddURL has the effect of Settings.AddUrl on the store |
| Settings.AddUser | app/settings.go:103-121 | AddUser has the effect of Settings.AddAccount on the store |
| Settings.AddedUrlListed | app/settings.go:94-97 | a url that AddURL stored comes after the urls already stored, with its url and type |
| Settings.AddUrlRefused | app/settings.go:83-87 | AddURL stores nothing exactly when the urls collection is missing, the store fails, the url is empty or already stored; without the collection the store is untouched |
| Settings.UrlsStayUnique | internal/db/pocketbase.go:71 | the unique index on url keeps every url stored at most once |
| Settings.AddedAccount | app/settings.go:110-114 | a saved account is appended, verified and named exactly when the collection has a "name" field |
| Parser.ParseRow | internal/parser/parse.go:65-103 | the row's observation, or the panic, as Parser.RowSpec describes |
| Parser.CollectCells | internal/parser/parse.go:69-74 | `tds` is the children whose Data is "td", in order |
| Parser.CollectNameTexts | internal/parser/parse.go:78-83 | `nslist` is the trimmed non-empty texts of the text nodes of the name cell, in pre-order |
| Parser.ScanPrice | internal/parser/parse.go:84-93 | `price` ends as the value of the last price text under an `ins` element, 0 when there is none |
| Parser.ScanIns | internal/parser/parse.go:86-91 | every price text under one `ins` element overwrites `price` |
| Parser.FindTableBody | internal/parser/parse.go:51-56 | `tbody` ends as the last tbody element of the pre-order walk |
| Parser.ParseTableRows | internal/parser/parse.go:57-61 | every "tr" child of the table body goes to ParseRow in order, and the first panic ends the page |
| Parser.Parse | internal/parser/parse.go:51-61 | what Parse emits for a document, or why it fails, as Parser.PageSpec describes |
| Parser.RowFailureEndsPage | internal/parser/parse.go:57-61 | once a row panics, the later children of the table body are not read |
| Parser.RowFields | internal/parser/parse.go:75-96 | a parsed row has at least three cells; its name and stock are the first two name texts; its price is that of the last price text under `ins`, or 0 without one |
| Parser.StockPhrase | internal/parser/parse.go:96 | the stock text "N in stock" reads back as N for every N that fits an int32 |
| Parser.NoInsNoPrice | internal/parser/parse.go:84-86 | a price cell without an `ins` element has price 0, whatever other text it holds |
| Parser.MarkerTextSkipped | internal/parser/parse.go:88 | a text containing the marker leaves the price as it was |
| Parser.RupeeSignResetsPrice | internal/parser/parse.go:88-89 | a text that is only the rupee sign U+20B9 is not skipped and sets the price to 0 |
| Parser.NoTableBodyIff | internal/parser/parse.go:51-57 | Parse fails with NoTableBody exactly when the document has no tbody element |
| Parser.PageRows | internal/parser/parse.go:51-61 | the table body is the last tbody of the document; Parse succeeds exactly when every "tr" row parses, with one observation per row in order, and otherwise reports the first failing row |
| ParserSamples.SampleRow | internal/parser/parse.go:65-103 | a row whose name cell holds " Widget " and "12 in stock" and whose price cell holds "1,499" under `del` and "1,299.50" under `ins` gives {"Widget", 12, 1299.5} |
| Strings.TrimSpaceSpec | internal/parser/parse.go:80-81 | TrimSpace removes leading and trailing white space only: the result is a contiguous slice of the text with only white space before and after it; it is empty exactly when the text is all white space, and otherwise starts and ends with a non-space |
| Strings.IndexOf | internal/parser/parse.go:96 | the first position at which the pattern occurs, or none when it occurs nowhere |
| Strings.RemoveFirst | internal/parser/parse.go:96 | a text without the pattern is unchanged; otherwise the result is the text with its first occurrence of the pattern cut out, shorter by the pattern's length |
| Strings.RemoveAll | internal/parser/parse.go:89 | removing every comma leaves no comma, keeps only characters of the text, and leaves a text without commas unchanged |
| Strings.RemoveAllCounts | internal/parser/parse.go:89 | every character other than the comma is kept as often as the text holds it, and no comma is kept |
| Strings.RemoveAllAppend | internal/parser/parse.go:89 | removal distributes over concatenation, so the kept characters stay in their order |
| Strings.TrimSpaceKeeps | internal/parser/parse.go:87-88 | trimming keeps a pattern whose first and last characters are not spaces, so the marker check sees it |
| Numbers.ClampInt64 | internal/parser/parse.go:96 | an out-of-range value is clamped into the int64 range; a value in range is kept |
| Numbers.Atoi | internal/parser/parse.go:96 | the result is within int64 |
| Numbers.AtoiSpec | internal/parser/parse.go:96 | after the sign, Atoi is the value of the leading digit run clamped to int64; it is 0 when no digit follows the sign, or when a non-digit follows the run before the digits pass 2^64-1 |
| Numbers.AtoiOverflow | internal/parser/parse.go:96 | digits worth more than 2^64-1 read as 2^63-1, or as -2^63 after a '-', whatever text follows them |
| Numbers.AtoiOverflowSample | internal/parser/parse.go:96-100 | the stock text "99999999999999999999 x" reads as 2^63-1, and int32() turns that into -1 |
| Numbers.AtoiShowNat | internal/parser/parse.go:96 | Atoi reads back the decimal rendering of every value within int64 |
| Numbers.Int32 | internal/parser/parse.go:100 | int32() keeps the value modulo 2^32 within the int32 range, and keeps a value already in range |
| Numbers.ParseFloat | internal/parser/parse.go:89 | the result is 0 when the text is not a decimal numeral |
| Numbers.ParseFloatShowNat | internal/parser/parse.go:89 | ParseFloat reads back a whole number |
| Numbers.ParseFloatFraction | internal/parser/parse.go:89 | ParseFloat of "W.F" is W + F / 10^(digits of F) |
| Html.ChildrenAreDescendants | internal/parser/parse.go:52 | the pre-order walk visits every child of an element |
| Html.DescendantsOfAppend | internal/parser/parse.go:79 | the walk of two sibling forests is the walk of the first, then of the second |
| Scans.KeepSpec | internal/parser/parse.go:70-74 | the kept elements are exactly the qualifying ones, never more than the input |
| Scans.KeepMapSpec | internal/parser/parse.go:79-83 | the collected texts are empty exactly when no element qualifies |
| Scans.LastValueSpec | internal/parser/parse.go:86-90 | the last qualifying element decides the value; with none it stays 0 |
| Scans.LastOfSpec | internal/parser/parse.go:52-56 | the kept element is empty exactly when none qualifies, and otherwise is the last qualifying one |
| Scans.CollectSpec | internal/parser/parse.go:57-61 | the results succeed exactly when every element does, one per element in order, and otherwise carry the first failure |
| Monitor.Watcher.constructor | internal/monitor/watch.go:13 | the monitor starts with no names and no notifications |
| Monitor.Watcher.Check | internal/monitor/watch.go:23-32 | the map and the notification log end as Monitor.LastPrices and Monitor.Alerts of the batch describe |
| Monitor.FirstSighting | internal/monitor/watch.go:24-30 | the first sighting of a name records its price and sends nothing |
| Monitor.SamePrice | internal/monitor/watch.go:26 | an unchanged price sends nothing and leaves the map unchanged |
| Monitor.ChangedPrice | internal/monitor/watch.go:26-30 | a changed price for a known name sends exactly that row and records the new price |
| Monitor.RowRecorded | internal/monitor/watch.go:30 | after a row, its name maps to its price |
| Monitor.UntouchedNames | internal/monitor/watch.go:23-32 | the map's names after a batch are the old names and the batch's names; names the batch does not mention keep their price |
| Monitor.LastRowWins | internal/monitor/watch.go:23-31 | after a batch, each name it mentions maps to the price of its last row |
| Monitor.AlertsFromBatch | internal/monitor/watch.go:27-29 | every notification is a row of the batch, and there are at most as many as rows |
| Monitor.NewNamesSilent | internal/monitor/watch.go:24-30 | a batch of distinct names the monitor has never seen sends nothing |
| Monitor.SameBatchRepeat | internal/monitor/watch.go:23-31 | a second row of a name in the same batch is compared with the price the first row recorded |
| Legacy.FindKey | internal/db/connection.go:255-259 | the first row with the observation's (Name, Stock, Price), none exactly when no row has it |
| Legacy.NextId | internal/db/connection.go:73-79 | one more than the largest recorded id, 1 when none: above every recorded id |
| Legacy.Rewrite | internal/db/connection.go:263-274 | the number of rows is kept; rows with another id are unchanged; each row with the id keeps its id, name and CreatedAt and takes the new stock, price and UpdatedAt |
| Legacy.KeyIgnoresIdAndTimes | internal/db/connection.go:28-30 | CheckIfEquals ignores the id and both timestamps and is symmetric |
| Legacy.Table.constructor | internal/db/connection.go:91-108 | a new table holds no rows and no ids and satisfies the table invariant |
| Legacy.Table.GetID | internal/db/connection.go:70-80 | the id returned is above every recorded id, and one past the largest, or 1 when none |
| Legacy.Table.SetID | internal/db/connection.go:82-88 | the id is appended to the autoIncrement table and nothing else changes |
| Legacy.Table.UpdateRecord | internal/db/connection.go:254-280 | UpdateRecord has the effect of Legacy.Update |
| Legacy.Table.InsertOneRow | internal/db/connection.go:227-250 | one observation is coalesced or inserted, as Legacy.InsertOne describes |
| Legacy.Table.InsertMultiple | internal/db/connection.go:226-252 | the table ends as Legacy.InsertAll of the batch describes |
| Legacy.Table.ResetDB | internal/db/connection.go:199-208 | the price table is left empty, and autoIncrement and the clock are unchanged |
| Legacy.UpdateSpec | internal/db/connection.go:254-280 | UpdateRecord coalesces exactly when some row has the key; otherwise nothing changes; in a valid table only the matched row's UpdatedAt changes, to the incoming CreatedAt |
| Legacy.InsertFresh | internal/db/connection.go:231-249 | an unmatched observation adds exactly one row stamped now, with CreatedAt = UpdatedAt, under an id above every recorded id, and records that id |
| Legacy.CoalescedInsertsNothing | internal/db/connection.go:228-229 | a coalesced observation inserts no row and records no id |
| Legacy.StockChangeAddsRow | internal/db/connection.go:255 | the same name and price at a new stock level gives a new row and leaves the old one as it was |
| Legacy.InsertOneValid | internal/db/connection.go:226-251 | each step keeps one row per key and one row per id, with every row id recorded |
| Legacy.InsertAllValid | internal/db/connection.go:226-252 | InsertMultiple keeps one row per key and one row per id |
| Legacy.InsertAllGrows | internal/db/connection.go:226-252 | InsertMultiple removes no row, forgets no id and never moves the clock back |
| Handlers.UniqueProducts | app/handlers.go:23-33 | the result is the distinct names of the table in order of first occurrence (Handlers.Distinct) |
| Handlers.PricesFor | app/handlers.go:55-65 | the result is the table's rows with that name, in table order (Handlers.RowsNamed) |
| Handlers.Names | app/handlers.go:26 | the names of the rows, one per row, in order |
| Handlers.DistinctSpec | app/handlers.go:24-32 | the distinct names contain every name of the table and nothing else, with no duplicates |
| Handlers.DistinctOrder | app/handlers.go:26-31 | the distinct names are listed in the order in which each first occurs |
| Handlers.RowsNamedSpec | app/handlers.go:58-63 | the filtered rows are exactly the rows of the table with that name |
| Handlers.RowsNamedAppend | app/handlers.go:59-63 | filtering keeps the rows' table order |
| Handlers.ListedIffPriced | app/handlers.go:50-65 | a product listed by /products has rows at /prices, and an unlisted one has none |

## Left out

- The goroutine and channel fan-out of `GetProducts` and `data.go`, the `lastPrices` mutex and the `GetID` lock: the model is sequential, and a fetched batch is any sequence of observations.
- `GetHTML`, `html.Parse` and the network: the model starts from a parsed tree with element and text nodes only (no attributes, comments or doctype).
- The OneSignal push (`internal/push`): it is the ghost log of sent products.
- The `log.Fatal` exits and the logging of errors.
- Commands, routes, the PID file, cron in `AddHourlyJob`, `InitSettings`, the install, uninstall and reset programs, and the environment helpers.
- Both `main.js` files, including the chart's floating-point arithmetic.
- Floating point: prices are exact reals, and the model assumes a price has at most two decimals. Only then do the `%0.2f` key query of UpdateRecord and the exact comparison of CheckIfEquals agree. A price such as 10.125 is stored as 10.12 and then never matches again, so the source would insert a second row under the same key. The one-row-per-key invariant (Legacy.InsertOneValid, Legacy.InsertAllValid) relies on this assumption.
- The `%0.2f` rounding of the stored price in the INSERT of InsertMultiple (`internal/db/connection.go:236`) and the `%f` rendering of the price in the ALTER of UpdateRecord (`internal/db/connection.go:264`) are not modelled; the stored price is the exact price.
- Numbers.ParseFloat: exponents, `inf`, `nan`, hexadecimal forms and underscores are not modelled; they parse as 0 here.
- The ClickHouse query strings, `GetRecentList`, `GetRangeList`, `DeleteFromLast`, `GetListByName`, `CompactList` and the table's storage order.
- Legacy.FindKey: ClickHouse returns the rows of the key query in no fixed order; the model takes the first in table order, and in a valid table there is at most one.
- Legacy.Table.UpdateRecord: errors of the ALTER statement, which make it return false after logging, are not modelled. The ALTER sets Stock and Price, which are primary-key columns (`internal/db/connection.go:102`), and UpdatedAt, which the sorting key uses (`internal/db/connection.go:103`); ClickHouse refuses updates of key columns, so this error may be the usual outcome. Legacy.CoalescedInsertsNothing, Legacy.InsertOneValid and Legacy.InsertAllValid describe the update path as if the ALTER succeeds.
- Legacy.NextId: the uint64 wrap-around of `maxID + 1` is not modelled.
- The bootstrap of the collections (`NewCollection`, `NewPriceCollection` at `internal/db/server.go:136-138`): the store starts with the schemas it is given. Cascade deletion of prices with their product is not modelled, since nothing in the core deletes.
- Read lookups (`FindFirstRecordByData`, `FindRecordsByFilter`, `ExpandRecord`) cannot fail in the model beyond finding nothing.
- Store.LatestPrice: among records with the same `updated`, the order "-updated" leaves the winner to the store; the model takes the earliest.
- Settings.AddUrl: the URL field's syntax check is reduced to non-empty, and the access rules of the urls collection are not modelled.
- Settings.AddAccount: PocketBase's validation of the email and password of an auth record is not modelled.
- `Product.CreatedAt` and `UpdatedAt` of product records, and the `Timestamp` set in `ParseRow`, are not modelled.
