# stock-universe: a Dafny model of the pipeline's deterministic core

The stock-universe repository turns the daily NASDAQ listing files
(`nasdaqlisted.txt`, `otherlisted.txt`) into per-exchange quote and
fundamentals uploads in S3, and a backfill script pulls historical prices and
computes market capitalisation. Nearly all of it is S3, FTP, HTTP and asyncio
plumbing. This project models the deterministic logic inside that plumbing
and proves what it promises:

- **Listing-row filters** (`StockUniverse.FilterNasdaqFile`, `StockUniverse.FilterNyseFile`).
  They keep exactly the real, non-ETF issues (and, for the other-listed file,
  the NYSE ones), in their original order. A missing column raises `KeyError`.
  Both filters are idempotent.
- **Symbol chunker** (`StockUniverse.SplitTickers` over `ArraySplit.Split`, numpy's
  `array_split`). It makes `ceil(n / CHUNK_SIZE)` chunks that concatenate back
  to the symbol column. The chunks are non-empty, at most `CHUNK_SIZE` long,
  differ in length by at most one, and the longer ones come first. An empty
  column, or a `CHUNK_SIZE` of zero or below, is an error.
- **Key dispatch** (`StockUniverse.Dispatch`). A substring test on the S3 key picks
  the exchange code and the symbol column, or raises. The incoming keys that
  `fetch_latest_universe_of_stocks` writes dispatch back to the listing they
  were stored for.
- **Batch-result merge** (`StockUniverse.MergeResponses`). This is the `dict.update`
  loop over the gathered responses, in request order. Every key of every
  response ends up in the result, with its value from the last response that
  has it.
- **Object keys** (`Dates`, `StockUniverse.UploadKey`, `Backfill.PricesKey`). Each is a
  zero-padded `YYYY/MM/DD` or `YYYY-MM-DD` rendering of the date, and each can
  be read back. The price file `save_to_s3` writes for a day is exactly the one
  `get_eod_prices` reads for that day.
- **As-of share lookup and market cap** (`Backfill.AsOf`, `Backfill.MarketCap`). The
  lookup picks the latest share record dated on or before the trading day. It
  fails when there is no such record.
- **Memoised, retried fundamentals fetch** (`Backfill.SharesCache`). This is
  `functools.cache` over tenacity's `stop_after_attempt(3)`. A cached ticker
  never causes a request. An uncached one causes one to three, stopping at the
  first success. A lookup that gives up caches nothing. No ticker is ever
  fetched successfully twice. `Backfill.GetPrices` has the same bound.

The network is an `Upstream` object. It answers requests from a script of
replies and keeps a ghost log of the requests it was sent. Request counts are
stated against that log.

Behaviour of the code that the contracts pin down:
- The as-of lookup has no fallback. When no record is dated on or before the
  trading day, `iloc[0]` on the empty selection raises `IndexError`.
- Both retried fetches use `stop_after_attempt(3)`: at most three attempts.
- Every exception an attempt raises is retried: a connection error, an error
  status from `raise_for_status`, or a body pandas cannot convert.
- The memo is `functools.cache`, which lives in the process. Only a lookup
  that returned is cached.
- The merge is `dict.update` in response order, so on a shared key the later
  response wins. `StockUniverse.MergeOfDisjoint` shows that with disjoint keys
  no value is lost.
- A chunk size of zero raises `ZeroDivisionError` in `len(df) / CHUNK_SIZE`.
  A negative one makes the section count non-positive, and numpy's
  `array_split` raises `ValueError`.

## Layout

| file | module | models |
|---|---|---|
| wrappers.dfy | `Wrappers` | `Option` and `Result` (a Python exception becomes an `Err`) |
| text.dfy | `Text` | Python's `p in s` on strings |
| dates.dfy | `Dates` | dates, zero-padded formatting and its inverse |
| arraysplit.dfy | `ArraySplit` | `math.ceil(n / d)` and `np.array_split` |
| stock_universe.dfy | `StockUniverse` | `src/stock_universe.py` |
| backfill.dfy | `Backfill` | `historical_backfill/main.py` |

## Model

| member | source | states |
|---|---|---|
| `Text.ContainsIff` | src/stock_universe.py:61-66 | the substring test holds exactly when the pattern occurs at some position of the key |
| `Text.ContainsInfix` | src/stock_universe.py:61-66 | a key built around a file name contains that name |
| `Text.ContainsChar` | src/stock_universe.py:61-66 | every character of a contained pattern occurs in the key (used to rule "otherlisted" out of NASDAQ keys) |
| `Text.Contains` | src/stock_universe.py:61 | Python's `p in key`: a key that starts with the pattern contains it, and a key shorter than the pattern never does |
| `Dates.Pad` | src/stock_universe.py:82 | an `{n:0{width}d}` rendering is exactly `width` characters, all digits |
| `Dates.ParsePad` | src/stock_universe.py:82 | reading a zero-padded field back gives the number that was rendered |
| `Dates.Format` | src/stock_universe.py:82 | `YYYY<sep>MM<sep>DD` is ten characters with the separator at positions 4 and 7 and digits elsewhere |
| `Dates.ParseFormat` | src/stock_universe.py:82 | parsing a formatted date gives the date back |
| `Dates.FormatInjective` | src/stock_universe.py:82 | two dates render to the same string exactly when they are equal |
| `Dates.SlashDate` | src/stock_universe.py:82 | arrow's `YYYY/MM/DD` rendering can be parsed back to the date it came from |
| `Dates.DashDate` | src/stock_universe.py:33 | arrow's `YYYY-MM-DD` rendering can be parsed back to the date it came from |
| `ArraySplit.CeilDiv` | src/stock_universe.py:143 | for a positive divisor the result is the ceiling, `(q-1)*d < n <= q*d`; for a negative divisor it is not positive |
| `ArraySplit.DivPointClosedForm` | src/stock_universe.py:144 | the running sum of section sizes equals numpy's closed form `i*(n/k) + min(i, n%k)` |
| `ArraySplit.ConcatSections` | src/stock_universe.py:144 | the first `j` sections laid end to end are the input up to the `j`-th division point |
| `ArraySplit.Sections` | src/stock_universe.py:144 | the slices between consecutive division points are `k` pieces that concatenate back to the input, the `i`-th of numpy's size for `i` |
| `ArraySplit.Split` | src/stock_universe.py:144 | `array_split` fails exactly when sections <= 0; otherwise it gives that many pieces whose concatenation is the input, the first `n % k` of size `n/k + 1` and the rest of size `n/k` |
| `ArraySplit.SectionSizesBalanced` | src/stock_universe.py:144 | section sizes never grow along the split and differ by at most one |
| `ArraySplit.CeilSectionsFit` | src/stock_universe.py:141-145 | with `ceil(n / c)` sections of a non-empty input there are at most `n` sections, each of length between 1 and `c` |
| `StockUniverse.SubsequenceTransitive` | src/stock_universe.py:133-137 | an order-preserving selection of an order-preserving selection is one of the original |
| `StockUniverse.SubsequenceCounts` | src/stock_universe.py:122 | a selection never holds a row more often than its source |
| `StockUniverse.FilterRows` | src/stock_universe.py:122 | boolean indexing keeps only matching rows and never lengthens the frame |
| `StockUniverse.FilterRowsExact` | src/stock_universe.py:122 | boolean indexing keeps the matching rows in original order, each as often as in the input, and no other row |
| `StockUniverse.FilterRowsUnique` | src/stock_universe.py:122 | that contract determines the result: any selection meeting it is the filter |
| `StockUniverse.FilterRowsIdempotent` | src/stock_universe.py:122 | filtering twice on the same condition is filtering once |
| `StockUniverse.FilterRowsCommute` | src/stock_universe.py:122-124 | the order of two row conditions does not matter |
| `StockUniverse.ListedRowsExact` | src/stock_universe.py:122-124 | the Test Issue and ETF filters together keep exactly the rows with both equal to "N", in order |
| `StockUniverse.FilterNasdaqFile` | src/stock_universe.py:119-125 | fails with `KeyError` exactly when "Test Issue" or "ETF" is missing (naming the first missing); otherwise keeps the columns and exactly the rows with both equal to "N", in order |
| `StockUniverse.FilterNyseFile` | src/stock_universe.py:128-138 | fails with `KeyError` on the first missing of "ACT Symbol", "Test Issue", "ETF", "Exchange"; otherwise keeps exactly the rows with Test Issue, ETF and Exchange equal to "N", in order |
| `StockUniverse.NyseWithinListed` | src/stock_universe.py:128-138 | whenever the NYSE filter succeeds, so does the two-condition filter, and the NYSE rows are a subsequence of its rows |
| `StockUniverse.NasdaqFilterIdempotent` | src/stock_universe.py:119-125 | filtering a filtered NASDAQ file again changes nothing |
| `StockUniverse.NyseFilterIdempotent` | src/stock_universe.py:128-138 | filtering a filtered other-listed file again changes nothing |
| `StockUniverse.SatisfiedFilterKeepsAll` | src/stock_universe.py:133-137 | a filter keeps every row of a frame whose rows all match |
| `StockUniverse.SymbolColumn` | src/stock_universe.py:144 | `df[column]` fails with `KeyError` exactly when the column is missing; otherwise it gives each row's cell, missing cells as `None` |
| `StockUniverse.SplitTickers` | src/stock_universe.py:141-145 | succeeds exactly for a positive chunk size, an existing column and a non-empty frame; a zero chunk size raises `ZeroDivisionError` before the column lookup's `KeyError`, and `ValueError` otherwise; the `ceil(n / CHUNK_SIZE)` chunks concatenate back to the symbol column |
| `StockUniverse.SplitTickersBalanced` | src/stock_universe.py:141-145 | every chunk is non-empty and at most `CHUNK_SIZE` long; lengths differ by at most one, never grow, and a chunk is a longer one exactly when its index is below `n % k` |
| `StockUniverse.Dispatch` | src/stock_universe.py:61-72 | a key containing "otherlisted" gives NYSE, even if it also contains "nasdaqlisted"; otherwise "nasdaqlisted" gives NASDAQ; any other key is `UnsupportedFileType`; the quote and fundamentals paths use this one dispatch |
| `StockUniverse.FilterListing` | src/stock_universe.py:61-67 | the filter the dispatched listing selects: it raises only `KeyError`, keeps the columns, keeps an order-preserving selection of the rows, every kept row a real non-ETF issue and, for the other-listed file, an NYSE one |
| `StockUniverse.Prepare` | src/stock_universe.py:61-74 | an undispatchable key fails with `UnsupportedFileType` before the filter and the split; otherwise a filter error or a split error comes back unchanged, and when both succeed the result is the dispatched listing with the chunks of its filtered file's symbol column |
| `StockUniverse.UploadKey` | src/stock_universe.py:82 | the upload key (line 111 for fundamentals) is `YYYY/MM/DD/<dataset>/<exchange>.csv`: the processing day (which reads back as that day), `/quotes/` or `/fundamentals/`, the exchange code, `.csv` |
| `StockUniverse.UploadKeyInjective` | src/stock_universe.py:111 | two uploads share a key exactly when day, dataset and exchange all agree |
| `StockUniverse.IncomingKey` | src/stock_universe.py:33-53 | an incoming key is `incoming/<dataset>/`, then the day as `YYYY-MM-DD` (which reads back as that day), then `-` and the listing file name |
| `StockUniverse.UniverseKeys` | src/stock_universe.py:27-53 | the four incoming keys, in upload order, dispatch to NASDAQ, NASDAQ, NYSE, NYSE |
| `StockUniverse.IncomingKeyDispatch` | src/stock_universe.py:33-53 | `incoming/<dataset>/YYYY-MM-DD-nasdaqlisted.txt` dispatches to xnas, and the `otherlisted.txt` key to xnys, on every date |
| `StockUniverse.NasdaqKeyLacksOther` | src/stock_universe.py:33-42 | no NASDAQ incoming key contains "otherlisted" |
| `StockUniverse.LastWith` | src/stock_universe.py:159-162 | the index found is that of a response with the key and no later response has it; -1 means no response has it |
| `StockUniverse.Responses` | src/stock_universe.py:170-174 | the gathered responses: one upstream answer per chunk, in chunk order |
| `StockUniverse.MergeResponses` | src/stock_universe.py:175-178 | the merged map has exactly the keys of all responses, each mapped to its value in the last response that has it |
| `StockUniverse.MergeUnique` | src/stock_universe.py:159-162 | the responses determine the merged map |
| `StockUniverse.MergeOfDisjoint` | src/stock_universe.py:159-162 | with pairwise disjoint response keys, every value of every response is in the merged map |
| `StockUniverse.ProcessEod` | src/stock_universe.py:56-116 | succeeds exactly when preparation does and fails with its error otherwise; on success the key is `YYYY/MM/DD/<dataset>/<exchange>.csv` for the processing day and the records are the merge of the chunk responses |
| `Backfill.AsOf` | historical_backfill/main.py:84-85 | the selected record is among the records, dated on or before the trading day (that day included), and no candidate is later; there is none exactly when no record is dated on or before the day |
| `Backfill.MarketCap` | historical_backfill/main.py:81-87 | fails with `IndexError` exactly when no record is dated on or before the trading day; otherwise it is a latest candidate's share count times the price |
| `Backfill.AsOfExamples` | historical_backfill/main.py:84-85 | with records for 2021-01-01 and 2021-04-01: 2021-02-15 selects January, 2021-04-01 selects April (same day included), 2020-12-01 fails with no fallback |
| `Backfill.Upstream.constructor` | historical_backfill/main.py:110 | a fresh upstream has the given replies and has received no request |
| `Backfill.Upstream.Get` | historical_backfill/main.py:110 | one request consumes one reply (a connection error once none are left) and is logged |
| `Backfill.StopAfterAttempt` | historical_backfill/main.py:106 | between 1 and 3 attempts; every attempt before the last failed; the result is the last attempt's outcome; a failure means all 3 attempts failed |
| `Backfill.Retry` | historical_backfill/main.py:106 | the decorated call sends the request once per attempt, as many times as the attempt count of `StopAfterAttempt` over the scripted replies, consumes that many replies and returns that outcome |
| `Backfill.RetryFailsOnlyIfAllFail` | historical_backfill/main.py:129 | a retried call gives up exactly when each of its allowed attempts fails |
| `Backfill.FetchShares` | historical_backfill/main.py:106-115 | one uncached lookup: 1 to 3 requests for the ticker, each checked by `raise_for_status` and the frame conversion, stopping at the first that yields a frame |
| `Backfill.SharesOutcome` | historical_backfill/main.py:110-114 | one attempt yields a frame exactly when a reply arrived, `raise_for_status` passed and the body converts, and the frame is that conversion |
| `Backfill.SharesCache.constructor` | historical_backfill/main.py:105 | the cache starts empty with nothing fetched |
| `Backfill.SharesCache.GetQuarterlyOutstandingShares` | historical_backfill/main.py:105-115 | a cached ticker returns its cached frame with no request; an uncached one makes 1 to 3 requests for that ticker, stops at the first success and caches it; after exhausted retries it raises and caches nothing; at most one successful fetch per ticker is kept invariant |
| `Backfill.SharesCache.GetMarketCap` | historical_backfill/main.py:81-87 | market cap of the cached or freshly fetched frame with the lookup's full new state: a cached ticker causes no request and changes nothing; an uncached one makes 1 to 3 requests, caches the frame on success, and caches nothing once the retries are exhausted |
| `Backfill.GetPrices` | historical_backfill/main.py:129-133 | makes 1 to 3 requests for the session, stops at the first success and returns that response, else raises |
| `Backfill.PricesOutcome` | historical_backfill/main.py:131-132 | one attempt succeeds exactly when a reply arrived with a status below 400 or above 599, and returns that reply |
| `Backfill.PricesKey` | historical_backfill/main.py:120 | `YYYY/MM/DD/prices/<exchange>.csv`: the session day (read back as that day), `/prices/`, the exchange, `.csv` |
| `Backfill.EodPricesKey` | historical_backfill/main.py:97-98 | `YYYY/MM/DD/prices/us.csv` for the trading day, whose date part reads back as that day |
| `Backfill.WrittenKeyIsReadKey` | historical_backfill/main.py:97-98 | `save_to_s3(date, data, "us")` writes `YYYY/MM/DD/prices/us.csv`, which is the key `get_eod_prices` reads for a day exactly when the days are equal |
| `Backfill.SaveToS3` | historical_backfill/main.py:118-126 | empty data raises `IndexError` at `data[0]`; a row with a field outside the first row's fields raises `ValueError`; otherwise every row is written under the price key, with the first row's fields as the header, which covers every row's fields |

## Left out

- I/O: S3 `get_object`, `put_object` and `upload_fileobj`; the FTP download; `requests.get`; the secrets-manager access. Only the keys they use are modelled. The network is a scripted `Upstream`.
- asyncio: the semaphore, `ensure_future` and `gather`. Only their ordered result list is modelled, so the concurrency ceiling is not.
- tenacity timing: the random exponential and fixed 65-second waits.
- `_get_quotes`/`_get_fundies` retry forever, because they have no stop condition. The model stands for their eventual answer with the function `api` of the ticker list. If the upstream never succeeds, the source never returns.
- Floating point: `math.ceil(len(df) / CHUNK_SIZE)` is computed over exact numbers. The product of shares and price is over reals. The `isinstance(..., float)` assert is not modelled.
- Library parsing: `read_csv`, `read_json`, `drop` and `set_index`. A listing file is a `Table`. The JSON-to-frame conversion of the shares response is the parameter `parse`.
- Output formatting: `DataFrame.from_dict`/`to_csv` and `csv.DictWriter` output. The header is the set of fields of the first row. Its column order is not modelled.
- `Backfill.AsOf`: `sort_index` uses an unstable sort, so the source may pick any of several records dated on the same latest day. The contract states only that a latest candidate is picked. The model picks the first in input order.
- The processing day of the uploads (`arrow.utcnow()`) is the parameter `today`.
- The `exchange_calendars` session logic, the click CLI (`save_eod_data`, `update_market_cap` and its "AAPL" row filter), the `TdClient` singleton and authentication, the Lambda handlers, and the stub and pseudo-code files.
- Logging, including the "ACT Symbol" tail read by the NYSE filter. Its only modelled effect is the `KeyError` when that column is missing.
