# Forex data collector — a Dafny model

This project models the core of `code/data_collectors/ib_collector.py`, the
collector that requests one year of daily OHLCV bars for four currency pairs
(EUR/USD, GBP/USD, AUD/USD, USD/JPY) from the Interactive Brokers TWS API and
stores them in the SQLite table `forex_ohlcv`.

Three parts are modelled:

- **Request bookkeeping** (`IbCollector.ForexDataCollector`). The collector
  is a class. Its fields are the request table `data: map<int, Request>`,
  the counter `requestId` and the flag `isConnected`. A fourth field, `order`,
  is the insertion order of `data`'s keys: a Python dictionary iterates in
  that order, and the save step depends on it. `Valid()` keeps `order`
  strictly increasing, holding exactly the keys of `data`, each above 10000
  and at most `requestId`. So ids are handed out in increasing order and never
  reused. The service's callbacks (`HistoricalData`, `HistoricalDataEnd`,
  `ConnectionStatus`, `Error`) are methods that a caller may invoke in any
  order, one at a time.
- **The save step** (`SaveToSqlite`). The table is `map<(pair, date), Row>`,
  keyed by its `UNIQUE(pair, date)` constraint (`ForexOhlcv`). Each
  `INSERT OR REPLACE` is `Upsert`. It raises `IntegrityError` when pair, date,
  open, high, low or close is NULL. Under `OR REPLACE` SQLite would put the
  column's default into a NULL NOT NULL column, but these columns have none,
  so the statement aborts. Otherwise it overwrites the row with the same key.
  The whole save is specified as the sequence of row writes it performs
  (`Writes`), applied in order (`ApplyWrites`). The lemmas about that
  sequence give last-writer-wins, untouched keys, counting and idempotence.
- **Pure helpers.** `CreateForexContract`, the pair name `"BASE/QUOTE"` built
  in `main`, and the per-pair row count of `verify_sqlite_data`
  (`PairCount`, `PairReport`). Pairs are ordered by SQLite's default BINARY
  collation, modelled as lexicographic order on code points. That is the
  order of the UTF-8 bytes SQLite compares.

OHLC values are copied and never computed with; they are `real` values and no
arithmetic is done on them. Python's `None` and SQL `NULL` are `Option.None`.
A NaN price is `Option.None` too: SQLite binds a float NaN as NULL, so a bar
with a NaN open, high, low or close fails the NOT NULL constraints, raises
`IntegrityError` and is skipped without being counted. Every other price is
`Some` of its value.

Files: `nullable.dfy` (the `Option` type), `forex_ohlcv.dfy` (the table, the
statement, the verification query), `ib_collector.dfy` (the collector).

The code has no request states (pending, complete, failed, timed out), no
completion wait with a timeout, no timeframe column in the key and no OHLC
sanity checks, so none of these is modelled. The code submits a request
(`reqHistoricalData`, lines 123-134) before it registers it (line 137). In
the model a bar delivered for an id that is not registered yet is dropped
like any unknown id; `RequestScenario` shows this.

## Model

| member | source | states |
|---|---|---|
| `ForexOhlcv.Upsert` | code/data_collectors/ib_collector.py:198-213 | INSERT OR REPLACE fails (IntegrityError) exactly when a NOT NULL column (pair, date, open, high, low, close) is NULL; otherwise the key set gains (pair, date), that key holds the new values (volume may be NULL) and every other row is unchanged |
| `ForexOhlcv.OhlcvTable.InsertOrReplace` | code/data_collectors/ib_collector.py:197-213 | one execution of the statement on the table: success iff the NOT NULL constraints hold, then the table is `Upsert`'s result; after IntegrityError the table is unchanged |
| `ForexOhlcv.OhlcvTable.constructor` | code/data_collectors/ib_collector.py:175-188 | a newly created table holds no rows |
| `ForexOhlcv.OhlcvTable.Existing` | code/data_collectors/ib_collector.py:175-188 | CREATE TABLE IF NOT EXISTS keeps the rows an existing table holds |
| `ForexOhlcv.LastWriteIsLatest` | code/data_collectors/ib_collector.py:192-211 | the row a key ends with comes from the write to that key with the highest position in the sequence |
| `ForexOhlcv.LastWriteAbsent` | code/data_collectors/ib_collector.py:192-211 | a key has no last write exactly when no write touches it |
| `ForexOhlcv.ApplyWritesAt` | code/data_collectors/ib_collector.py:192-211 | last writer wins: after the writes a key is present iff it was written or was present before, and holds the last write's row, or its old row if it was never written |
| `ForexOhlcv.ApplyWritesKeys` | code/data_collectors/ib_collector.py:186-211 | the keys after the writes are the old keys plus the written keys: no duplicates and no lost rows |
| `ForexOhlcv.ApplyWritesIdempotent` | code/data_collectors/ib_collector.py:192-211 | replaying the same writes leaves the table unchanged |
| `ForexOhlcv.RowsAtMostWrites` | code/data_collectors/ib_collector.py:191-211 | writes into an empty table leave at most one row per write |
| `ForexOhlcv.SortedText` | code/data_collectors/ib_collector.py:232-237 | lists a set of pair names once each, in strictly ascending BINARY order, with nothing added or lost |
| `ForexOhlcv.PairCount` | code/data_collectors/ib_collector.py:232-237 | COUNT(*) of a pair equals the number of distinct dates stored for it, and is non-zero exactly for the pairs the table holds |
| `ForexOhlcv.PairReport` | code/data_collectors/ib_collector.py:232-241 | the verification listing names every stored pair exactly once, in ascending pair order, each with its positive number of distinct dates |
| `IbCollector.CreateForexContract` | code/data_collectors/ib_collector.py:98-105 | the contract has symbol = base code, currency = quote code, secType "CASH" and exchange "IDEALPRO" |
| `IbCollector.PairName` | code/data_collectors/ib_collector.py:277 | the name of a pair is its base code, then a slash, then its quote code, and nothing else |
| `IbCollector.PairNameSplits` | code/data_collectors/ib_collector.py:277 | the name "BASE/QUOTE" of a slash-free base code gives back the base before the first slash and the quote after it |
| `IbCollector.PairNameInjective` | code/data_collectors/ib_collector.py:275-278 | two pairs with slash-free base codes get the same name only if they are the same pair |
| `IbCollector.ForexPairNamesDistinct` | code/data_collectors/ib_collector.py:36-41 | the four configured pairs get four distinct names, so their rows never share a key |
| `IbCollector.AppendBar` | code/data_collectors/ib_collector.py:141-151 | for a registered id the bar is appended at the end of that id's list, the pair and earlier bars are kept, and other entries are untouched; an unknown id changes nothing; the set of ids never changes |
| `IbCollector.BarWritesCount` | code/data_collectors/ib_collector.py:196-213 | the rows counted for a request's bars are exactly the bars whose values meet the NOT NULL constraints (`NotNullBars`), so at most its bars, and all of them exactly when no bar has a NULL in a NOT NULL column |
| `IbCollector.BarWritesKeys` | code/data_collectors/ib_collector.py:196-210 | the keys written for a request's bars are (pair, date) of each bar that meets the NOT NULL constraints, and no other |
| `IbCollector.BarWritesCopyBars` | code/data_collectors/ib_collector.py:196-210 | when no bar has a NULL in a NOT NULL column, the i-th write stores the i-th bar under (pair, date) with open, high, low, close and volume copied unchanged |
| `IbCollector.SavedAt` | code/data_collectors/ib_collector.py:190-213 | after the save a written key holds the last write to it (requests in id order, bars in arrival order); a key that is never written keeps its row, or stays absent |
| `IbCollector.SaveTwiceIsSaveOnce` | code/data_collectors/ib_collector.py:190-213 | saving the same request table twice leaves the table as one save does; the reported count is a function of the request table alone, so both runs report the same total |
| `IbCollector.FreshSavePairCount` | code/data_collectors/ib_collector.py:190-237 | after a save into an empty table, the count of a pair is the number of distinct dates written for it |
| `IbCollector.ReplacedBarIsCounted` | code/data_collectors/ib_collector.py:196-211 | two bars of a pair with the same date count as two rows written but leave one stored row, holding the later bar's values |
| `IbCollector.ForexDataCollector.constructor` | code/data_collectors/ib_collector.py:49-54 | an empty request table, not connected, counter at 10000 |
| `IbCollector.ForexDataCollector.RequestHistoricalData` | code/data_collectors/ib_collector.py:107-138 | the returned id is the previous one plus one (10001 first) and is larger than every id already registered; it is registered with the pair name and no bars, and appended to the iteration order; nothing else changes |
| `IbCollector.ForexDataCollector.HistoricalData` | code/data_collectors/ib_collector.py:140-151 | the request table becomes `AppendBar` of the old one; the invariant is kept |
| `IbCollector.ForexDataCollector.HistoricalDataEnd` | code/data_collectors/ib_collector.py:153-159 | for a registered id, the pair, the number of bars received and the start and end the service sent are reported; for an unknown id nothing is reported |
| `IbCollector.ForexDataCollector.ConnectionStatus` | code/data_collectors/ib_collector.py:72-80 | the connection flag becomes the reported state; nothing else changes, so the invariant is kept |
| `IbCollector.ForexDataCollector.Error` | code/data_collectors/ib_collector.py:82-90 | codes 2104, 2106 and 2158 set the connection flag and are not reported; every other code is reported and leaves the flag as it was; the invariant is kept |
| `IbCollector.ForexDataCollector.SaveToSqlite` | code/data_collectors/ib_collector.py:190-213 | the table becomes `Saved` of the old table over the requests in insertion (= increasing id) order, and total_rows is the number of successful statements, replacements included |
| `IbCollector.RequestPairs` | code/data_collectors/ib_collector.py:273-279 | one request per configured pair, with consecutive ids in pair order, each registered under "BASE/QUOTE" with no bars; existing entries are kept, no other id is added, and the ids are appended to the iteration order |

## Left out

- Connection handling: `connect_to_tws`, the dispatch thread it starts, `disconnect_from_tws` and every `time.sleep`. The callbacks are modelled as calls made one at a time, not as a concurrent thread.
- The call `reqHistoricalData` to the IB API is a foreign call; the model treats it as doing nothing, and its bars arrive later as `HistoricalData` calls. The `contract` argument of `RequestHistoricalData` is passed to that call only.
- The end date from `datetime.now()` and the request constants (duration, bar size, what to show); they go to the foreign call only.
- The database path, the connection, `commit` and `close`; the autoincrement `id` and the `timestamp` column; SQLite type affinity of the stored values.
- The service's bar record: only the six fields the collector copies (date, open, high, low, close, volume) are modelled.
- All printed output. `HistoricalDataEnd` returns the values its message is made of (pair, bar count, start, end); `Error` returns whether it prints, not the text.
- Floating point: prices are `real` values. A NaN price is represented by `None`, as SQLite stores it as NULL; infinities and rounding are not modelled, as the collector does no arithmetic on prices.
- `SaveToSqlite`: exceptions other than `IntegrityError` (for example a failing connection), which the outer handler re-raises, are not modelled.
- `main`'s exception handler, its traceback output and `sys.exit(1)`.
