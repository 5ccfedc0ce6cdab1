/**
  * The stock quote snapshot: one row of the table the fetch step writes and
  * the dashboard reads. Cells that can be None in the program (and so NaN
  * after the file round trip) are Options.
  */
module Quotes {
  import opened Options

  /** The five analyst recommendation buckets. */
  datatype Counts = Counts(strongBuy: int, buy: int, hold: int, sell: int, strongSell: int)

  function NoCounts(): Counts
  {
    Counts(0, 0, 0, 0, 0)
  }

  datatype Row = Row(
    ticker: string,
    price: real,
    currency: Option<string>,
    targetPrice: real,
    upside: real,
    numAnalysts: Option<int>,
    counts: Counts,
    rating: Option<string>,
    sector: Option<string>,
    trailingPE: Option<real>,
    forwardPE: Option<real>,
    dividendYield: real)

  /** Upside potential in percent, before the two-decimal rounding of the program. */
  function Upside(price: real, target: real): real
    requires price != 0.0
  {
    (target - price) / price * 100.0
  }

  /** What every fetched row satisfies: both prices are non-zero and the upside is derived from them. */
  predicate ValidRow(r: Row)
  {
    && r.price != 0.0
    && r.targetPrice != 0.0
    && r.upside == Upside(r.price, r.targetPrice)
  }
}
