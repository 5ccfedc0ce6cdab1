/**
  * The per-ticker retrieval loop of fetch_data.py. The remote finance
  * service is an oracle: for each symbol it answers with the info
  * dictionary (or an exception) and the recommendations table (or an
  * exception). Throttling and console output are not modelled.
  */
module Fetch {
  import opened Options
  import opened Strings
  import opened Quotes
  import Symbols

  /** One key of a Python dictionary or pandas row: missing, present with None/NaN, or present with a value. */
  datatype Field<T> = Absent | Null | Val(v: T)

  /** `d.get(key, default)`: the default only replaces a missing key, not a None value. */
  function DictGetOr<T>(f: Field<T>, default: T): (r: Option<T>)
    ensures r.None? <==> f.Null?
    ensures f.Absent? ==> r == Some(default)
    ensures f.Val? ==> r == Some(f.v)
  {
    match f
    case Absent => Some(default)
    case Null => None
    case Val(v) => Some(v)
  }

  /** `d.get(key)`. */
  function DictGet<T>(f: Field<T>): (r: Option<T>)
    ensures r.Some? <==> f.Val?
    ensures f.Val? ==> r.value == f.v
  {
    match f
    case Val(v) => Some(v)
    case _ => None
  }

  /** Python truthiness of a numeric dictionary value: present, not None and non-zero. */
  predicate Truthy(f: Field<real>)
  {
    f.Val? && f.v != 0.0
  }

  /** The info dictionary, reduced to the keys the program reads. */
  datatype Info = Info(
    currentPrice: Field<real>,
    targetMeanPrice: Field<real>,
    dividendYield: Field<real>,
    currency: Field<string>,
    numberOfAnalystOpinions: Field<int>,
    recommendationKey: Field<string>,
    sector: Field<string>,
    trailingPE: Field<real>,
    forwardPE: Field<real>)

  /** One row of the recommendations table. */
  datatype RecRow = RecRow(strongBuy: Field<int>, buy: Field<int>, hold: Field<int>, sell: Field<int>, strongSell: Field<int>)

  /** The recommendations attribute: raises, is None, or is a table (latest row first). */
  datatype Recommendations = Raises | NoTable | Table(rows: seq<RecRow>)

  /** Everything the service answers for one symbol; `info` is None when reading it raises. */
  datatype Quote = Quote(info: Option<Info>, recs: Recommendations)

  type Source = string -> Quote

  /** `int(latest.get(column, 0))`: a missing column counts 0, a NaN cell makes `int` raise. */
  function CountOf(f: Field<int>): (r: Option<int>)
    ensures r.None? <==> f.Null?
    ensures f.Absent? ==> r == Some(0)
    ensures f.Val? ==> r == Some(f.v)
  {
    match f
    case Absent => Some(0)
    case Null => None
    case Val(n) => Some(n)
  }

  /**
    * The five counts stored in a row, or None when converting one of them
    * to int raises. A raising, missing or empty table leaves all five at 0.
    */
  function RecCounts(recs: Recommendations): (r: Option<Counts>)
    ensures (recs.Raises? || recs.NoTable? || (recs.Table? && |recs.rows| == 0)) ==> r == Some(NoCounts())
    ensures recs.Table? && |recs.rows| > 0 ==>
      var latest := recs.rows[0];
      (r.Some? <==> !latest.strongBuy.Null? && !latest.buy.Null? && !latest.hold.Null?
                    && !latest.sell.Null? && !latest.strongSell.Null?)
    ensures recs.Table? && |recs.rows| > 0 && r.Some? ==>
      var latest := recs.rows[0];
      && r.value.strongBuy == (if latest.strongBuy.Val? then latest.strongBuy.v else 0)
      && r.value.buy == (if latest.buy.Val? then latest.buy.v else 0)
      && r.value.hold == (if latest.hold.Val? then latest.hold.v else 0)
      && r.value.sell == (if latest.sell.Val? then latest.sell.v else 0)
      && r.value.strongSell == (if latest.strongSell.Val? then latest.strongSell.v else 0)
  {
    if recs.Table? && |recs.rows| > 0 then
      var latest := recs.rows[0];
      match (CountOf(latest.strongBuy), CountOf(latest.buy), CountOf(latest.hold),
             CountOf(latest.sell), CountOf(latest.strongSell))
      case (Some(sb), Some(b), Some(h), Some(s), Some(ss)) => Some(Counts(sb, b, h, s, ss))
      case _ => None
    else Some(NoCounts())
  }

  /**
    * One attempt with one symbol (the body of the inner loop). It yields a
    * row only when the info dictionary could be read, both prices are
    * truthy and the counts convert; any exception ends the attempt without
    * a row.
    */
  function Attempt(symbol: string, q: Quote): (r: Option<Row>)
    ensures r.Some? <==>
      q.info.Some? && Truthy(q.info.value.currentPrice) && Truthy(q.info.value.targetMeanPrice)
      && RecCounts(q.recs).Some?
    ensures r.Some? ==> r.value.ticker == symbol && ValidRow(r.value)
  {
    match q.info
    case None => None
    case Some(info) =>
      if Truthy(info.currentPrice) && Truthy(info.targetMeanPrice) then
        var price := info.currentPrice.v;
        var target := info.targetMeanPrice.v;
        match RecCounts(q.recs)
        case None => None
        case Some(counts) =>
          Some(Row(
            ticker := symbol,
            price := price,
            currency := DictGetOr(info.currency, "USD"),
            targetPrice := target,
            upside := Upside(price, target),
            numAnalysts := DictGetOr(info.numberOfAnalystOpinions, 0),
            counts := counts,
            rating := DictGetOr(info.recommendationKey, "N/A"),
            sector := DictGetOr(info.sector, "Unknown"),
            trailingPE := DictGet(info.trailingPE),
            forwardPE := DictGet(info.forwardPE),
            dividendYield := match DictGetOr(info.dividendYield, 0.0) {
              case Some(y) => y
              case None => 0.0
            }))
      else None
  }

  /**
    * How every cell of a stored row comes from the answer it was built
    * from: present values are copied, a missing key takes the default of
    * `get`, and a key holding None stays missing, except the dividend
    * yield, where None also becomes 0.
    */
  lemma MissingFieldDefaults(symbol: string, q: Quote)
    requires Attempt(symbol, q).Some?
    ensures var row := Attempt(symbol, q).value; var info := q.info.value;
      && row.price == info.currentPrice.v
      && row.targetPrice == info.targetMeanPrice.v
      && row.dividendYield == (if info.dividendYield.Val? then info.dividendYield.v else 0.0)
      && row.counts == RecCounts(q.recs).value
      && (q.recs.Raises? || q.recs.NoTable? || q.recs == Table([]) ==> row.counts == NoCounts())
      && row.currency == (match info.currency case Absent => Some("USD") case Null => None case Val(v) => Some(v))
      && row.numAnalysts == (match info.numberOfAnalystOpinions case Absent => Some(0) case Null => None case Val(v) => Some(v))
      && row.rating == (match info.recommendationKey case Absent => Some("N/A") case Null => None case Val(v) => Some(v))
      && row.sector == (match info.sector case Absent => Some("Unknown") case Null => None case Val(v) => Some(v))
      && row.trailingPE == (if info.trailingPE.Val? then Some(info.trailingPE.v) else None)
      && row.forwardPE == (if info.forwardPE.Val? then Some(info.forwardPE.v) else None)
  {
  }

  /** The symbols tried for a ticker, in order: itself, then for ".TO" the ".NE" listing. */
  function Attempts(ticker: string): (a: seq<string>)
    ensures 1 <= |a| <= 2 && a[0] == ticker
    ensures |a| == 2 <==> EndsWith(ticker, ".TO")
    ensures |a| == 2 ==> a[1] == Replace(ticker, ".TO", ".NE")
  {
    if EndsWith(ticker, ".TO") then [ticker, Replace(ticker, ".TO", ".NE")] else [ticker]
  }

  /** The alternate symbol keeps the length and swaps the exchange suffix. */
  lemma AlternateSymbol(ticker: string)
    requires EndsWith(ticker, ".TO")
    ensures var alt := Attempts(ticker)[1];
      |alt| == |ticker| && EndsWith(alt, ".NE") && alt != ticker
  {
    ReplaceSuffixTO(ticker);
    var alt := Attempts(ticker)[1];
    assert alt[|alt| - 1] == 'E' && ticker[|ticker| - 1] == 'O';
  }

  /** Every TSX symbol gets exactly two attempts: "<stem>.TO" then "<stem>.NE". */
  lemma TsxAttempts(raw: string)
    ensures var stem := Symbols.IndexSymbol(Strip(raw));
      Attempts(Symbols.TsxSymbol(raw)) == [stem + ".TO", stem + ".NE"]
  {
    var stem := Symbols.IndexSymbol(Strip(raw));
    Symbols.TsxSymbolAlwaysAppends(raw);
    Symbols.IndexSymbolShape(Strip(raw));
    ReplaceSuffixOfDotless(stem);
  }

  /** The inner loop as a search: the result of the first attempt that yields a row. */
  function FirstSuccess(attempts: seq<string>, src: Source): (r: Option<Row>)
    ensures r.Some? ==> r.value.ticker in attempts && ValidRow(r.value)
    decreases |attempts|
  {
    if |attempts| == 0 then None
    else
      var first := Attempt(attempts[0], src(attempts[0]));
      if first.Some? then first else FirstSuccess(attempts[1..], src)
  }

  /**
    * First success wins: the search yields a row iff some attempt does,
    * and then it is the row of an attempt all of whose predecessors
    * failed; later attempts are never looked at.
    */
  lemma {:induction false} FirstSuccessIsFirst(attempts: seq<string>, src: Source)
    ensures var r := FirstSuccess(attempts, src);
      r.Some? <==> exists k :: 0 <= k < |attempts| && Attempt(attempts[k], src(attempts[k])).Some?
    ensures var r := FirstSuccess(attempts, src);
      r.Some? ==>
        exists k :: 0 <= k < |attempts| && r == Attempt(attempts[k], src(attempts[k])) &&
          (forall j :: 0 <= j < k ==> Attempt(attempts[j], src(attempts[j])).None?)
    decreases |attempts|
  {
    if |attempts| > 0 && Attempt(attempts[0], src(attempts[0])).None? {
      FirstSuccessIsFirst(attempts[1..], src);
      assert forall k :: 1 <= k < |attempts| ==> attempts[k] == attempts[1..][k - 1];
      var r := FirstSuccess(attempts, src);
      if r.Some? {
        var k :| 0 <= k < |attempts[1..]| && r == Attempt(attempts[1..][k], src(attempts[1..][k])) &&
          (forall j :: 0 <= j < k ==> Attempt(attempts[1..][j], src(attempts[1..][j])).None?);
        assert r == Attempt(attempts[k + 1], src(attempts[k + 1]));
        assert forall j :: 0 <= j < k + 1 ==> Attempt(attempts[j], src(attempts[j])).None? by {
          forall j | 0 <= j < k + 1 ensures Attempt(attempts[j], src(attempts[j])).None? {
            if j > 0 { assert attempts[j] == attempts[1..][j - 1]; }
          }
        }
      }
    }
  }

  /** The row (if any) produced for one ticker of the input list. */
  function FetchTicker(ticker: string, src: Source): (r: Option<Row>)
    ensures r.Some? ==> r.value.ticker in Attempts(ticker) && ValidRow(r.value)
  {
    FirstSuccess(Attempts(ticker), src)
  }

  /**
    * The result depends only on what the service says about the ticker
    * itself unless that attempt failed and the ticker is a ".TO" one: the
    * alternate is consulted only after the first attempt failed.
    */
  lemma AlternateOnlyAfterFailure(ticker: string, src1: Source, src2: Source)
    requires src1(ticker) == src2(ticker)
    requires !EndsWith(ticker, ".TO") || Attempt(ticker, src1(ticker)).Some?
    ensures FetchTicker(ticker, src1) == FetchTicker(ticker, src2)
  {
    var a := Attempts(ticker);
    if |a| == 2 {
      assert FirstSuccess(a, src1) == Attempt(ticker, src1(ticker));
    } else {
      assert a[1..] == [];
    }
  }

  /** The rows of a whole scan, one optional row per ticker, in input order. */
  function Scan(tickers: seq<string>, src: Source): (rows: seq<Row>)
    ensures |rows| <= |tickers|
    decreases |tickers|
  {
    if |tickers| == 0 then []
    else Scan(tickers[..|tickers| - 1], src) + FetchTicker(tickers[|tickers| - 1], src).ToSeq()
  }

  /** The positions of the tickers that produced a row, ascending. */
  function Successes(tickers: seq<string>, src: Source): seq<nat>
    decreases |tickers|
  {
    if |tickers| == 0 then []
    else
      var n := |tickers| - 1;
      Successes(tickers[..n], src) + (if FetchTicker(tickers[n], src).Some? then [n] else [])
  }

  lemma {:induction false} SuccessesMatchRows(tickers: seq<string>, src: Source)
    ensures |Successes(tickers, src)| == |Scan(tickers, src)| <= |tickers|
    ensures forall k :: 0 <= k < |Successes(tickers, src)| ==>
      Successes(tickers, src)[k] < |tickers| &&
      FetchTicker(tickers[Successes(tickers, src)[k]], src) == Some(Scan(tickers, src)[k])
    decreases |tickers|
  {
    if |tickers| > 0 {
      var n := |tickers| - 1;
      var init := tickers[..n];
      SuccessesMatchRows(init, src);
      var idx0, rows0 := Successes(init, src), Scan(init, src);
      var idx, rows := Successes(tickers, src), Scan(tickers, src);
      var o := FetchTicker(tickers[n], src);
      assert rows == rows0 + o.ToSeq();
      assert idx == idx0 + (if o.Some? then [n] else []);
      forall k | 0 <= k < |idx|
        ensures idx[k] < |tickers| && FetchTicker(tickers[idx[k]], src) == Some(rows[k])
      {
        if k < |idx0| {
          assert idx[k] == idx0[k] && rows[k] == rows0[k];
          assert init[idx0[k]] == tickers[idx0[k]];
        }
      }
    }
  }

  lemma {:induction false} SuccessesAscend(tickers: seq<string>, src: Source)
    ensures forall k :: 0 <= k < |Successes(tickers, src)| ==> Successes(tickers, src)[k] < |tickers|
    ensures forall k, l :: 0 <= k < l < |Successes(tickers, src)| ==>
      Successes(tickers, src)[k] < Successes(tickers, src)[l]
    decreases |tickers|
  {
    if |tickers| > 0 {
      var n := |tickers| - 1;
      SuccessesAscend(tickers[..n], src);
    }
  }

  lemma {:induction false} SuccessesComplete(tickers: seq<string>, src: Source)
    ensures forall i :: 0 <= i < |tickers| ==> (FetchTicker(tickers[i], src).Some? <==> i in Successes(tickers, src))
    decreases |tickers|
  {
    if |tickers| > 0 {
      var n := |tickers| - 1;
      var init := tickers[..n];
      SuccessesComplete(init, src);
      SuccessesAscend(init, src);
      var idx0 := Successes(init, src);
      assert n !in idx0;
      forall i | 0 <= i < |tickers|
        ensures FetchTicker(tickers[i], src).Some? <==> i in Successes(tickers, src)
      {
        if i < n {
          assert init[i] == tickers[i];
        }
      }
    }
  }

  /**
    * At most one row per ticker, in input order: the k-th row comes from
    * the ticker at position Successes[k], these positions strictly
    * increase, and a ticker has a row exactly when its attempts succeed.
    */
  lemma ScanInInputOrder(tickers: seq<string>, src: Source)
    ensures var rows := Scan(tickers, src); var idx := Successes(tickers, src);
      && |idx| == |rows| <= |tickers|
      && (forall k :: 0 <= k < |idx| ==> idx[k] < |tickers| && FetchTicker(tickers[idx[k]], src) == Some(rows[k]))
      && (forall k, l :: 0 <= k < l < |idx| ==> idx[k] < idx[l])
      && (forall i :: 0 <= i < |tickers| ==> (FetchTicker(tickers[i], src).Some? <==> i in idx))
  {
    SuccessesMatchRows(tickers, src);
    SuccessesAscend(tickers, src);
    SuccessesComplete(tickers, src);
  }

  /** Every stored row has both prices non-zero, so the upside division is always defined. */
  lemma ScanRowsValid(tickers: seq<string>, src: Source)
    ensures forall r :: r in Scan(tickers, src) ==> ValidRow(r)
  {
    ScanInInputOrder(tickers, src);
    var rows := Scan(tickers, src);
    var idx := Successes(tickers, src);
    forall r | r in rows ensures ValidRow(r) {
      var k :| 0 <= k < |rows| && rows[k] == r;
      assert FetchTicker(tickers[idx[k]], src) == Some(r);
    }
  }

  /** The inner loop of `fetch_analyst_data`: try the attempts in order until one yields a row. */
  method TryAttempts(attempts: seq<string>, src: Source) returns (found: Option<Row>)
    ensures found == FirstSuccess(attempts, src)
  {
    found := None;
    var j := 0;
    while j < |attempts| && found.None?
      invariant 0 <= j <= |attempts|
      invariant FirstSuccess(attempts, src) == (if found.Some? then found else FirstSuccess(attempts[j..], src))
    {
      assert attempts[j..][1..] == attempts[j + 1..];
      found := Attempt(attempts[j], src(attempts[j]));
      j := j + 1;
    }
  }

  /** `fetch_analyst_data`: the outer loop over the ticker list. */
  method FetchAnalystData(tickers: seq<string>, src: Source) returns (rows: seq<Row>)
    ensures rows == Scan(tickers, src)
  {
    rows := [];
    var i := 0;
    while i < |tickers|
      invariant 0 <= i <= |tickers|
      invariant rows == Scan(tickers[..i], src)
    {
      var found := TryAttempts(Attempts(tickers[i]), src);
      assert tickers[..i + 1][..i] == tickers[..i];
      rows := rows + found.ToSeq();
      i := i + 1;
    }
    assert tickers[..i] == tickers;
  }
}
