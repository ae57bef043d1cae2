/**
 * The deterministic logic of the end-of-day pipeline that turns an exchange
 * listing file into quote and fundamentals uploads: the listing-row filters,
 * the split of the symbol column into request-sized chunks, the dispatch on
 * the object key, the merge of the per-chunk responses and the object keys.
 */
module StockUniverse {
  import opened Wrappers
  import opened Text
  import opened Dates
  import ArraySplit

  /** One line of a listing file; a column absent from the map is a missing (NaN) cell. */
  type Row = map<string, string>

  /** A pipe-delimited listing file as pandas reads it: its header and its rows. */
  datatype Table = Table(columns: set<string>, rows: seq<Row>)

  /** A value of the symbol column: a ticker, or a missing cell. */
  type Cell = Option<string>

  datatype Error =
    | KeyError(column: string)   // a column the frame does not have
    | ZeroDivisionError          // CHUNK_SIZE is 0
    | ValueError                 // array_split asked for fewer than one section
    | UnsupportedFileType        // RuntimeError: the key names neither listing file

  // ---------------------------------------------------------------------------
  // Listing-row filters

  /** `df[column] == value` on one row; a missing cell never equals a string. */
  predicate HasValue(row: Row, column: string, value: string) {
    column in row && row[column] == value
  }

  /** `s` is `t` with some elements left out, the rest in their original order. */
  predicate IsSubsequence<T(==)>(s: seq<T>, t: seq<T>) {
    if |s| == 0 then true
    else if |t| == 0 then false
    else (s[0] == t[0] && IsSubsequence(s[1..], t[1..])) || IsSubsequence(s, t[1..])
  }

  lemma {:induction false} SubsequenceTransitive<T>(a: seq<T>, b: seq<T>, c: seq<T>)
    requires IsSubsequence(a, b) && IsSubsequence(b, c)
    ensures IsSubsequence(a, c)
    decreases |c|
  {
    if |a| > 0 {
      if IsSubsequence(b, c[1..]) {
        SubsequenceTransitive(a, b, c[1..]);
      } else if a[0] == b[0] && IsSubsequence(a[1..], b[1..]) {
        SubsequenceTransitive(a[1..], b[1..], c[1..]);
      } else {
        SubsequenceTransitive(a, b[1..], c[1..]);
      }
    }
  }

  /**
   * Boolean indexing `df[df[column] == value]` on the rows: the matching rows,
   * each as often as in the input, in their original order.
   */
  function FilterRows(rows: seq<Row>, column: string, value: string): (r: seq<Row>)
    ensures |r| <= |rows|
    ensures forall i :: 0 <= i < |r| ==> HasValue(r[i], column, value)
  {
    if |rows| == 0 then []
    else
      var rest := FilterRows(rows[1..], column, value);
      if HasValue(rows[0], column, value) then [rows[0]] + rest else rest
  }

  /** The matching rows, each as often as in the input, in their original order, and no other row. */
  lemma {:induction false} FilterRowsExact(rows: seq<Row>, column: string, value: string)
    ensures IsSubsequence(FilterRows(rows, column, value), rows)
    ensures forall row :: multiset(FilterRows(rows, column, value))[row] ==
                          (if HasValue(row, column, value) then multiset(rows)[row] else 0)
  {
    if |rows| > 0 {
      FilterRowsExact(rows[1..], column, value);
      var rest := FilterRows(rows[1..], column, value);
      assert rows == [rows[0]] + rows[1..];
      if HasValue(rows[0], column, value) {
        assert ([rows[0]] + rest)[1..] == rest;
      }
    }
  }

  lemma {:induction false} SubsequenceCounts<T>(s: seq<T>, t: seq<T>, x: T)
    requires IsSubsequence(s, t)
    ensures multiset(s)[x] <= multiset(t)[x]
    decreases |t|
  {
    if |s| > 0 {
      assert t == [t[0]] + t[1..];
      if s[0] == t[0] && IsSubsequence(s[1..], t[1..]) {
        assert s == [s[0]] + s[1..];
        SubsequenceCounts(s[1..], t[1..], x);
      } else {
        SubsequenceCounts(s, t[1..], x);
      }
    }
  }

  /**
   * The contract of `FilterRows` leaves no freedom: any order-preserving
   * selection that keeps every matching row as often as the input has it, and
   * no other row, is `FilterRows` itself.
   */
  lemma {:induction false} FilterRowsUnique(rows: seq<Row>, column: string, value: string, s: seq<Row>)
    requires IsSubsequence(s, rows)
    requires forall row :: multiset(s)[row] == if HasValue(row, column, value) then multiset(rows)[row] else 0
    ensures s == FilterRows(rows, column, value)
  {
    if |rows| == 0 {
      assert |s| == 0;
    } else {
      var x := rows[0];
      if HasValue(x, column, value) {
        if s != [] && s[0] == x && IsSubsequence(s[1..], rows[1..]) {
          CountsAfterCommonHead(rows, column, value, s);
          FilterRowsUnique(rows[1..], column, value, s[1..]);
          assert s == [x] + s[1..];
        } else {
          assert rows == [x] + rows[1..];
          SubsequenceCounts(s, rows[1..], x);
          assert false;
        }
      } else {
        CountsAfterSkippedHead(rows, column, value, s);
        FilterRowsUnique(rows[1..], column, value, s);
      }
    }
  }

  /** Dropping a shared first row keeps the counting condition of `FilterRowsUnique`. */
  lemma CountsAfterCommonHead(rows: seq<Row>, column: string, value: string, s: seq<Row>)
    requires |rows| > 0 && |s| > 0 && s[0] == rows[0]
    requires forall row :: multiset(s)[row] == if HasValue(row, column, value) then multiset(rows)[row] else 0
    ensures forall row :: multiset(s[1..])[row] == if HasValue(row, column, value) then multiset(rows[1..])[row] else 0
  {
    assert rows == [rows[0]] + rows[1..];
    assert s == [s[0]] + s[1..];
  }

  /** Dropping a first row that does not match keeps the condition, and the row is not in `s`. */
  lemma CountsAfterSkippedHead(rows: seq<Row>, column: string, value: string, s: seq<Row>)
    requires |rows| > 0 && !HasValue(rows[0], column, value)
    requires IsSubsequence(s, rows)
    requires forall row :: multiset(s)[row] == if HasValue(row, column, value) then multiset(rows)[row] else 0
    ensures IsSubsequence(s, rows[1..])
    ensures forall row :: multiset(s)[row] == if HasValue(row, column, value) then multiset(rows[1..])[row] else 0
  {
    var x := rows[0];
    assert rows == [x] + rows[1..];
    assert multiset(s)[x] == 0;
    if s != [] {
      assert s == [s[0]] + s[1..];
      assert s[0] != x;
    }
  }

  lemma {:induction false} FilterRowsIdempotent(rows: seq<Row>, column: string, value: string)
    ensures FilterRows(FilterRows(rows, column, value), column, value) == FilterRows(rows, column, value)
  {
    if |rows| > 0 {
      FilterRowsIdempotent(rows[1..], column, value);
      var rest := FilterRows(rows[1..], column, value);
      if HasValue(rows[0], column, value) {
        assert ([rows[0]] + rest)[1..] == rest;
      }
    }
  }

  lemma {:induction false} FilterRowsCommute(rows: seq<Row>, c1: string, v1: string, c2: string, v2: string)
    ensures FilterRows(FilterRows(rows, c1, v1), c2, v2) == FilterRows(FilterRows(rows, c2, v2), c1, v1)
  {
    if |rows| > 0 {
      FilterRowsCommute(rows[1..], c1, v1, c2, v2);
      var x := rows[0];
      var r1 := FilterRows(rows[1..], c1, v1);
      var r2 := FilterRows(rows[1..], c2, v2);
      if HasValue(x, c1, v1) { assert ([x] + r1)[1..] == r1; }
      if HasValue(x, c2, v2) { assert ([x] + r2)[1..] == r2; }
    }
  }

  /** A row of a listing file that is a real (non-test) issue and not an ETF. */
  predicate IsListedStock(row: Row) {
    HasValue(row, "Test Issue", "N") && HasValue(row, "ETF", "N")
  }

  /** A listed stock of the other-listed file that trades on the NYSE. */
  predicate IsNyseStock(row: Row) {
    IsListedStock(row) && HasValue(row, "Exchange", "N")
  }

  /** The two conditions both files are filtered by, in the order the source applies them. */
  function ListedRows(rows: seq<Row>): seq<Row> {
    FilterRows(FilterRows(rows, "Test Issue", "N"), "ETF", "N")
  }

  lemma ListedRowsExact(rows: seq<Row>)
    ensures IsSubsequence(ListedRows(rows), rows)
    ensures forall row :: multiset(ListedRows(rows))[row] == if IsListedStock(row) then multiset(rows)[row] else 0
  {
    var f := FilterRows(rows, "Test Issue", "N");
    FilterRowsExact(rows, "Test Issue", "N");
    FilterRowsExact(f, "ETF", "N");
    SubsequenceTransitive(ListedRows(rows), f, rows);
  }

  /**
   * `_filter_nasdaq_file`: keeps the rows with Test Issue "N" and ETF "N", in
   * order; a missing column raises `KeyError`.
   */
  function FilterNasdaqFile(t: Table): (r: Result<Table, Error>)
    ensures r.Ok? <==> "Test Issue" in t.columns && "ETF" in t.columns
    ensures r.Err? ==> r.error == KeyError(if "Test Issue" !in t.columns then "Test Issue" else "ETF")
    ensures r.Ok? ==> r.value.columns == t.columns && IsSubsequence(r.value.rows, t.rows)
    ensures r.Ok? ==> forall row :: multiset(r.value.rows)[row] == if IsListedStock(row) then multiset(t.rows)[row] else 0
  {
    if "Test Issue" !in t.columns then Err(KeyError("Test Issue"))
    else if "ETF" !in t.columns then Err(KeyError("ETF"))
    else
      ListedRowsExact(t.rows);
      Ok(Table(t.columns, ListedRows(t.rows)))
  }

  /**
   * `_filter_nyse_file`: reads the last row's "ACT Symbol" (so that column must
   * exist), then keeps the listed stocks whose Exchange is "N", in order.
   */
  function FilterNyseFile(t: Table): (r: Result<Table, Error>)
    ensures r.Ok? <==> "ACT Symbol" in t.columns && "Test Issue" in t.columns && "ETF" in t.columns && "Exchange" in t.columns
    ensures r.Err? ==> r.error == KeyError(
      if "ACT Symbol" !in t.columns then "ACT Symbol"
      else if "Test Issue" !in t.columns then "Test Issue"
      else if "ETF" !in t.columns then "ETF"
      else "Exchange")
    ensures r.Ok? ==> r.value.columns == t.columns && IsSubsequence(r.value.rows, t.rows)
    ensures r.Ok? ==> forall row :: multiset(r.value.rows)[row] == if IsNyseStock(row) then multiset(t.rows)[row] else 0
  {
    if "ACT Symbol" !in t.columns then Err(KeyError("ACT Symbol"))
    else if "Test Issue" !in t.columns then Err(KeyError("Test Issue"))
    else if "ETF" !in t.columns then Err(KeyError("ETF"))
    else if "Exchange" !in t.columns then Err(KeyError("Exchange"))
    else
      ListedRowsExact(t.rows);
      var kept := FilterRows(ListedRows(t.rows), "Exchange", "N");
      FilterRowsExact(ListedRows(t.rows), "Exchange", "N");
      SubsequenceTransitive(kept, ListedRows(t.rows), t.rows);
      Ok(Table(t.columns, kept))
  }

  /** The NYSE filter keeps a subsequence of what the two listing conditions keep. */
  lemma NyseWithinListed(t: Table)
    requires FilterNyseFile(t).Ok?
    ensures FilterNasdaqFile(t).Ok?
    ensures IsSubsequence(FilterNyseFile(t).value.rows, FilterNasdaqFile(t).value.rows)
  {
    FilterRowsExact(ListedRows(t.rows), "Exchange", "N");
  }

  lemma NasdaqFilterIdempotent(t: Table)
    requires FilterNasdaqFile(t).Ok?
    ensures FilterNasdaqFile(FilterNasdaqFile(t).value) == FilterNasdaqFile(t)
  {
    var a := FilterRows(t.rows, "Test Issue", "N");
    // ETF(TI(ETF(TI rows))) = ETF(ETF(TI(TI rows))) = ETF(TI rows)
    FilterRowsCommute(FilterRows(a, "ETF", "N"), "Test Issue", "N", "ETF", "N");
    FilterRowsCommute(a, "Test Issue", "N", "ETF", "N");
    FilterRowsIdempotent(t.rows, "Test Issue", "N");
    FilterRowsIdempotent(a, "ETF", "N");
  }

  lemma NyseFilterIdempotent(t: Table)
    requires FilterNyseFile(t).Ok?
    ensures FilterNyseFile(FilterNyseFile(t).value) == FilterNyseFile(t)
  {
    var x := FilterRows(ListedRows(t.rows), "Exchange", "N");
    // Every row of x meets all three conditions, so filtering x again keeps it whole.
    ListedRowsExact(t.rows);
    FilterRowsExact(ListedRows(t.rows), "Exchange", "N");
    forall i | 0 <= i < |x| ensures IsNyseStock(x[i]) {
      assert multiset(x)[x[i]] > 0;
    }
    SatisfiedFilterKeepsAll(x, "Test Issue", "N");
    SatisfiedFilterKeepsAll(x, "ETF", "N");
    SatisfiedFilterKeepsAll(x, "Exchange", "N");
  }

  lemma {:induction false} SatisfiedFilterKeepsAll(rows: seq<Row>, column: string, value: string)
    requires forall i :: 0 <= i < |rows| ==> HasValue(rows[i], column, value)
    ensures FilterRows(rows, column, value) == rows
  {
    if |rows| > 0 {
      assert HasValue(rows[0], column, value);
      assert forall i :: 0 <= i < |rows[1..]| ==> rows[1..][i] == rows[i + 1];
      SatisfiedFilterKeepsAll(rows[1..], column, value);
      assert rows == [rows[0]] + rows[1..];
    }
  }

  // ---------------------------------------------------------------------------
  // Splitting the symbol column into request-sized chunks

  /** `df[column]`: the column's cells in row order, or `KeyError`. */
  function SymbolColumn(t: Table, column: string): (r: Result<seq<Cell>, Error>)
    ensures r.Ok? <==> column in t.columns
    ensures r.Err? ==> r.error == KeyError(column)
    ensures r.Ok? ==> |r.value| == |t.rows|
    ensures r.Ok? ==> forall i :: 0 <= i < |t.rows| ==>
      r.value[i] == if column in t.rows[i] then Some(t.rows[i][column]) else None
  {
    if column !in t.columns then Err(KeyError(column))
    else Ok(seq(|t.rows|, i requires 0 <= i < |t.rows| =>
      if column in t.rows[i] then Some(t.rows[i][column]) else None))
  }

  /**
   * `_split_tickers`: `ceil(len(df) / chunkSize)` consecutive chunks of the
   * symbol column. Division by a zero `chunkSize` raises first, then the column
   * lookup, then `array_split`'s refusal of fewer than one section (an empty
   * frame, or a negative `chunkSize`).
   */
  function SplitTickers(t: Table, column: string, chunkSize: int): (r: Result<seq<seq<Cell>>, Error>)
    ensures r.Ok? <==> chunkSize > 0 && column in t.columns && |t.rows| > 0
    ensures r.Err? && chunkSize == 0 ==> r.error == ZeroDivisionError
    ensures r.Err? && chunkSize != 0 && column !in t.columns ==> r.error == KeyError(column)
    ensures r.Err? && chunkSize != 0 && column in t.columns ==> r.error == ValueError
    ensures r.Ok? ==> |r.value| == ArraySplit.CeilDiv(|t.rows|, chunkSize)
    ensures r.Ok? ==> ArraySplit.Concat(r.value) == SymbolColumn(t, column).value
    ensures r.Ok? ==> forall i :: 0 <= i < |r.value| ==>
      |r.value[i]| == ArraySplit.SectionSize(|t.rows|, |r.value|, i)
  {
    if chunkSize == 0 then Err(ZeroDivisionError)
    else if column !in t.columns then Err(KeyError(column))
    else
      var symbols := SymbolColumn(t, column).value;
      var split := ArraySplit.Split(symbols, ArraySplit.CeilDiv(|t.rows|, chunkSize));
      if split.Err? then Err(ValueError) else Ok(split.value)
  }

  /**
   * The chunks are as even as possible: every chunk is non-empty and at most
   * `chunkSize` long, lengths differ by at most one, and exactly the first
   * `n % k` chunks are the longer ones.
   */
  lemma SplitTickersBalanced(t: Table, column: string, chunkSize: int)
    requires SplitTickers(t, column, chunkSize).Ok?
    ensures var chunks := SplitTickers(t, column, chunkSize).value;
      && (forall i :: 0 <= i < |chunks| ==> 1 <= |chunks[i]| <= chunkSize)
      && (forall i, j :: 0 <= i < j < |chunks| ==> |chunks[j]| <= |chunks[i]| <= |chunks[j]| + 1)
      && (forall i :: 0 <= i < |chunks| ==>
            (|chunks[i]| == |chunks[|chunks| - 1]| + 1 <==> i < |t.rows| % |chunks|))
  {
    var chunks := SplitTickers(t, column, chunkSize).value;
    var n, k := |t.rows|, |chunks|;
    forall i | 0 <= i < k
      ensures 1 <= |chunks[i]| <= chunkSize
    {
      ArraySplit.CeilSectionsFit(n, chunkSize, i);
    }
    forall i, j | 0 <= i < j < k
      ensures |chunks[j]| <= |chunks[i]| <= |chunks[j]| + 1
    {
      ArraySplit.SectionSizesBalanced(n, k, i, j);
    }
  }

  // ---------------------------------------------------------------------------
  // Dispatch on the object key

  /** The two listing files the pipeline knows. */
  datatype Listing = Nasdaq | Nyse {
    /** The exchange code the upload is named after. */
    function Exchange(): string {
      match this
      case Nasdaq => "xnas"
      case Nyse => "xnys"
    }
    /** The column of the file that holds the ticker. */
    function SymbolColumnName(): string {
      match this
      case Nasdaq => "Symbol"
      case Nyse => "ACT Symbol"
    }
    /** The name the file is downloaded under. */
    function FileName(): string {
      match this
      case Nasdaq => "nasdaqlisted.txt"
      case Nyse => "otherlisted.txt"
    }
  }

  /**
   * The `if "otherlisted" in key ... elif "nasdaqlisted" in key ... else raise`
   * that `process_eod_quotes` and `process_eod_fundies` both open with.
   */
  function Dispatch(key: string): (r: Result<Listing, Error>)
    ensures r == Ok(Nyse) <==> Contains(key, "otherlisted")
    ensures r == Ok(Nasdaq) <==> !Contains(key, "otherlisted") && Contains(key, "nasdaqlisted")
    ensures r.Err? <==> !Contains(key, "otherlisted") && !Contains(key, "nasdaqlisted")
    ensures r.Err? ==> r.error == UnsupportedFileType
  {
    if Contains(key, "otherlisted") then Ok(Nyse)
    else if Contains(key, "nasdaqlisted") then Ok(Nasdaq)
    else Err(UnsupportedFileType)
  }

  /** The filter the dispatched listing file goes through. */
  function FilterListing(listing: Listing, t: Table): (r: Result<Table, Error>)
    ensures r.Err? ==> r.error.KeyError?
    ensures r.Ok? ==> r.value.columns == t.columns && IsSubsequence(r.value.rows, t.rows)
    ensures r.Ok? ==> forall i :: 0 <= i < |r.value.rows| ==> IsListedStock(r.value.rows[i])
    ensures r.Ok? && listing == Nyse ==> forall i :: 0 <= i < |r.value.rows| ==> IsNyseStock(r.value.rows[i])
  {
    var r := if listing == Nasdaq then FilterNasdaqFile(t) else FilterNyseFile(t);
    if r.Ok? then KeptRowsMatch(r.value.rows, t.rows, listing == Nyse); r else r
  }

  /** A row kept with a positive count satisfies the filter's condition. */
  lemma KeptRowsMatch(kept: seq<Row>, rows: seq<Row>, nyse: bool)
    requires forall row :: multiset(kept)[row] ==
                             (if (if nyse then IsNyseStock(row) else IsListedStock(row)) then multiset(rows)[row] else 0)
    ensures forall i :: 0 <= i < |kept| ==> IsListedStock(kept[i]) && (nyse ==> IsNyseStock(kept[i]))
  {
    forall i | 0 <= i < |kept|
      ensures IsListedStock(kept[i]) && (nyse ==> IsNyseStock(kept[i]))
    {
      assert multiset(kept)[kept[i]] > 0;
    }
  }

  /** What both processing paths compute before they call the upstream API. */
  datatype Prepared = Prepared(listing: Listing, chunks: seq<seq<Cell>>)

  /** Dispatch on the key, filter the file, split its symbol column. */
  function Prepare(key: string, t: Table, chunkSize: int): (r: Result<Prepared, Error>)
    ensures r.Ok? ==> Dispatch(key) == Ok(r.value.listing)
    ensures r.Ok? ==> FilterListing(r.value.listing, t).Ok?
    ensures r.Ok? ==> SplitTickers(FilterListing(r.value.listing, t).value, r.value.listing.SymbolColumnName(), chunkSize) == Ok(r.value.chunks)
    ensures Dispatch(key).Err? ==> r == Err(UnsupportedFileType)
    ensures Dispatch(key).Ok? ==>
      var listing := Dispatch(key).value;
      var filtered := FilterListing(listing, t);
      && (filtered.Err? ==> r == Err(filtered.error))
      && (filtered.Ok? ==>
            var split := SplitTickers(filtered.value, listing.SymbolColumnName(), chunkSize);
            && (split.Err? ==> r == Err(split.error))
            && (split.Ok? ==> r == Ok(Prepared(listing, split.value))))
  {
    match Dispatch(key)
    case Err(e) => Err(e)
    case Ok(listing) =>
      match FilterListing(listing, t)
      case Err(e) => Err(e)
      case Ok(filtered) =>
        match SplitTickers(filtered, listing.SymbolColumnName(), chunkSize)
        case Err(e) => Err(e)
        case Ok(chunks) => Ok(Prepared(listing, chunks))
  }

  // ---------------------------------------------------------------------------
  // Object keys

  /** The two daily datasets. */
  datatype Dataset = Quotes | Fundamentals {
    function Folder(): string {
      match this
      case Quotes => "quotes"
      case Fundamentals => "fundamentals"
    }
  }

  /** The key a processed dataset is uploaded under: `YYYY/MM/DD/<dataset>/<exchange>.csv`. */
  function UploadKey(today: Date, dataset: Dataset, listing: Listing): (k: string)
    requires today.Valid()
    ensures |k| > 11 && k[10] == '/' && Parse(k[..10], '/') == Some(today)
    ensures k[|k| - 4..] == ".csv"
    ensures k[10..] == "/" + dataset.Folder() + "/" + listing.Exchange() + ".csv"
  {
    var d := SlashDate(today);
    var head := d + "/" + dataset.Folder() + "/" + listing.Exchange();
    var k := head + ".csv";
    assert k[..10] == d;
    assert k[|head|..] == ".csv";
    k
  }

  /** Distinct days, datasets or exchanges never share an upload key. */
  lemma UploadKeyInjective(d1: Date, s1: Dataset, l1: Listing, d2: Date, s2: Dataset, l2: Listing)
    requires d1.Valid() && d2.Valid()
    ensures UploadKey(d1, s1, l1) == UploadKey(d2, s2, l2) <==> d1 == d2 && s1 == s2 && l1 == l2
  {
    var k1, k2 := UploadKey(d1, s1, l1), UploadKey(d2, s2, l2);
    if k1 == k2 {
      assert k1[..10] == SlashDate(d1) && k2[..10] == SlashDate(d2);
      FormatInjective(d1, d2, '/');
      assert k1[11] == s1.Folder()[0] && k2[11] == s2.Folder()[0];
      assert s1 == s2;
      var o := 11 + |s1.Folder()| + 1;
      assert k1[o + 2] == l1.Exchange()[2] && k2[o + 2] == l2.Exchange()[2];
    }
  }

  /** The key a listing file is stored under on arrival: `incoming/<dataset>/YYYY-MM-DD-<file>`. */
  function IncomingKey(dataset: Dataset, date: Date, listing: Listing): (k: string)
    requires date.Valid()
    ensures var n := |"incoming/" + dataset.Folder() + "/"|;
      && |k| > n + 11 && k[..n] == "incoming/" + dataset.Folder() + "/"
      && Parse(k[n..n + 10], '-') == Some(date) && k[n + 10] == '-'
      && k[n + 11..] == listing.FileName()
  {
    var prefix := "incoming/" + dataset.Folder() + "/";
    var d := DashDate(date);
    var k := prefix + d + "-" + listing.FileName();
    assert k[..|prefix|] == prefix;
    assert k[|prefix|..|prefix| + 10] == d;
    assert k[|prefix| + 11..] == listing.FileName();
    k
  }

  /** The four uploads of `fetch_latest_universe_of_stocks`, in the order it makes them. */
  function UniverseKeys(date: Date): (keys: seq<string>)
    requires date.Valid()
    ensures |keys| == 4
    ensures forall i :: 0 <= i < 4 ==> Dispatch(keys[i]) == Ok(if i < 2 then Nasdaq else Nyse)
  {
    IncomingKeyDispatch(Fundamentals, date, Nasdaq);
    IncomingKeyDispatch(Quotes, date, Nasdaq);
    IncomingKeyDispatch(Fundamentals, date, Nyse);
    IncomingKeyDispatch(Quotes, date, Nyse);
    [ IncomingKey(Fundamentals, date, Nasdaq), IncomingKey(Quotes, date, Nasdaq),
      IncomingKey(Fundamentals, date, Nyse), IncomingKey(Quotes, date, Nyse) ]
  }

  /** An incoming listing key dispatches back to the listing it was stored for. */
  lemma IncomingKeyDispatch(dataset: Dataset, date: Date, listing: Listing)
    requires date.Valid()
    ensures Dispatch(IncomingKey(dataset, date, listing)) == Ok(listing)
  {
    var prefix := "incoming/" + dataset.Folder() + "/" + DashDate(date) + "-";
    var key := IncomingKey(dataset, date, listing);
    match listing
    case Nyse =>
      assert key == prefix + "otherlisted" + ".txt";
      ContainsInfix(prefix, "otherlisted", ".txt");
    case Nasdaq =>
      assert key == prefix + "nasdaqlisted" + ".txt";
      ContainsInfix(prefix, "nasdaqlisted", ".txt");
      NasdaqKeyLacksOther(dataset, date);
  }

  /** A key for `nasdaqlisted.txt` never contains "otherlisted": it has no 'h'. */
  lemma NasdaqKeyLacksOther(dataset: Dataset, date: Date)
    requires date.Valid()
    ensures !Contains(IncomingKey(dataset, date, Nasdaq), "otherlisted")
  {
    FolderLacks(dataset, 'h');
    DashDateLacks(date, 'h');
    assert 'h' !in "-" && 'h' !in Nasdaq.FileName();
    assert 'h' in "otherlisted";
    LacksChar(IncomingKey(dataset, date, Nasdaq), "otherlisted", 'h');
  }

  lemma FolderLacks(dataset: Dataset, c: char)
    requires c !in "incomingquotesfundamentals/"
    ensures c !in "incoming/" + dataset.Folder() + "/"
  {
  }

  lemma DashDateLacks(date: Date, c: char)
    requires date.Valid() && !IsDigit(c) && c != '-'
    ensures c !in DashDate(date)
  {
  }

  // ---------------------------------------------------------------------------
  // Merging the per-chunk responses

  /** The index of the last response that has `k`, or -1 if none has. */
  function LastWith<V>(responses: seq<map<string, V>>, k: string): (i: int)
    ensures -1 <= i < |responses|
    ensures i >= 0 ==> k in responses[i] && forall j :: i < j < |responses| ==> k !in responses[j]
    ensures i < 0 ==> forall j :: 0 <= j < |responses| ==> k !in responses[j]
  {
    if |responses| == 0 then -1
    else if k in responses[|responses| - 1] then |responses| - 1
    else LastWith(responses[..|responses| - 1], k)
  }

  /**
   * `m` is what successive `dict.update` calls over `responses` leave: the keys
   * of all responses, each with its value in the last response that has it.
   */
  ghost predicate IsMergeOf<V>(responses: seq<map<string, V>>, m: map<string, V>) {
    && (forall k :: k in m <==> LastWith(responses, k) >= 0)
    && (forall k :: k in m ==> m[k] == responses[LastWith(responses, k)][k])
  }

  /** The merge loop of `get_quotes` and `get_fundies` over the gathered responses, in request order. */
  method MergeResponses<V>(responses: seq<map<string, V>>) returns (merged: map<string, V>)
    ensures IsMergeOf(responses, merged)
    ensures forall k :: k in merged <==> exists j :: 0 <= j < |responses| && k in responses[j]
  {
    merged := map[];
    var i := 0;
    while i < |responses|
      invariant 0 <= i <= |responses|
      invariant IsMergeOf(responses[..i], merged)
    {
      assert responses[..i + 1][..i] == responses[..i];
      merged := merged + responses[i];
      i := i + 1;
    }
    assert responses[..i] == responses;
  }

  /** Merging is determined by the responses. */
  lemma MergeUnique<V>(responses: seq<map<string, V>>, m1: map<string, V>, m2: map<string, V>)
    requires IsMergeOf(responses, m1) && IsMergeOf(responses, m2)
    ensures m1 == m2
  {
  }

  /**
   * When the responses have pairwise disjoint keys (as the chunks of a
   * duplicate-free symbol column would give), every value of every response
   * survives the merge, whatever the request order.
   */
  lemma MergeOfDisjoint<V>(responses: seq<map<string, V>>, m: map<string, V>)
    requires IsMergeOf(responses, m)
    requires forall i, j :: 0 <= i < j < |responses| ==> responses[i].Keys !! responses[j].Keys
    ensures forall j, k :: 0 <= j < |responses| && k in responses[j] ==> k in m && m[k] == responses[j][k]
  {
  }

  // ---------------------------------------------------------------------------
  // The two processing paths

  /** What a processing path uploads: the key and the merged per-symbol records. */
  datatype Upload<V> = Upload(key: string, records: map<string, V>)

  /** The requests `gather` returns, in chunk order; `api` stands for the upstream's eventual answers. */
  function Responses<V>(api: seq<Cell> -> map<string, V>, chunks: seq<seq<Cell>>): (r: seq<map<string, V>>)
    ensures |r| == |chunks| && forall i :: 0 <= i < |chunks| ==> r[i] == api(chunks[i])
  {
    seq(|chunks|, i requires 0 <= i < |chunks| => api(chunks[i]))
  }

  /**
   * `process_eod_quotes` (dataset `Quotes`) and `process_eod_fundies`
   * (dataset `Fundamentals`): dispatch and filter the listing file, split its
   * symbols, ask the upstream once per chunk, merge, and name the upload after
   * the processing day and the exchange.
   */
  method ProcessEod<V>(dataset: Dataset, key: string, t: Table, chunkSize: int, today: Date,
                       api: seq<Cell> -> map<string, V>) returns (r: Result<Upload<V>, Error>)
    requires today.Valid()
    ensures r.Ok? <==> Prepare(key, t, chunkSize).Ok?
    ensures r.Err? ==> r.error == Prepare(key, t, chunkSize).error
    ensures r.Ok? ==> var p := Prepare(key, t, chunkSize).value;
      && r.value.key == UploadKey(today, dataset, p.listing)
      && IsMergeOf(Responses(api, p.chunks), r.value.records)
  {
    var prepared := Prepare(key, t, chunkSize);
    if prepared.Err? {
      return Err(prepared.error);
    }
    var p := prepared.value;
    var responses := Responses(api, p.chunks);
    var merged := MergeResponses(responses);
    r := Ok(Upload(UploadKey(today, dataset, p.listing), merged));
  }
}
