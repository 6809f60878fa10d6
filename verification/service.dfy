/**
  The stock service: a validating facade over the repository's catalogue.
  Each operation is a sequence of guards followed by one lookup; money is an
  exact integer in the same minor unit as the record's prices.
*/
module Service {
  import opened Wrappers
  import opened Exceptions
  import opened Stocks
  import opened Repository

  /** int.MaxValue, the bound of the checked (int) cast on the share count. */
  const Int32Max: int := 0x7FFF_FFFF

  /** The affordability answer; `ticker` is copied from the stored record. */
  datatype BuyingOption = BuyingOption(ticker: Option<string>, budget: int, shares: int)

  /** GetAllTickersAsync: the repository's key listing, unchanged. */
  function GetAllTickers(c: Catalogue): (names: set<string>)
    ensures names == Tickers(c)
    ensures WellFormed(c) ==> |names| == |c|
  {
    ListingCount(c);
    Tickers(c)
  }

  /** The count of the listing, for a well-formed catalogue only. */
  lemma ListingCount(c: Catalogue)
    ensures WellFormed(c) ==> |Tickers(c)| == |c|
  {
    if WellFormed(c) {
      TickersOnePerKey(c);
    }
  }

  /** GetStockByTickerAsync: a blank ticker throws before the repository is
      consulted; otherwise the repository's answer, null included. */
  function GetStockByTicker(c: Catalogue, ticker: Option<string>): (r: Result<Option<Stock>, Exception>)
    ensures IsBlank(ticker) ==> r == Failure(ArgumentNull)
    ensures !IsBlank(ticker) ==> r == Lookup(c, ticker) && r.Success?
  {
    if IsBlank(ticker) then Failure(ArgumentNull)
    else Lookup(c, ticker)
  }

  /** (int)Math.Floor(budget / close) when close > 0, else 0. */
  function Shares(budget: int, close: int): (r: Result<int, Exception>)
    requires budget > 0
    ensures close <= 0 ==> r == Success(0)
    ensures close > 0 ==> (r.Failure? <==> budget / close > Int32Max)
    ensures r.Failure? ==> r.error == Overflow
    ensures r.Success? ==> 0 <= r.value <= Int32Max
    ensures r.Success? && close > 0 ==> r.value * close <= budget < (r.value + 1) * close
  {
    if close > 0 then
      var q := budget / close;
      if q > Int32Max then Failure(Overflow) else Success(q)
    else Success(0)
  }

  /** GetBuyingOptionAsync: ticker guard, then budget guard, then lookup. */
  function GetBuyingOption(c: Catalogue, ticker: Option<string>, budget: int): (r: Result<Option<BuyingOption>, Exception>)
    ensures IsBlank(ticker) ==> r == Failure(ArgumentNull)
    ensures !IsBlank(ticker) && budget <= 0 ==> r == Failure(ArgumentOutOfRange)
    ensures !IsBlank(ticker) && budget > 0 ==>
      (r == Success(None) <==> Lookup(c, ticker) == Success(None))
    ensures r.Success? && r.value.Some? ==>
      budget > 0 && Lookup(c, ticker).Success? && Lookup(c, ticker).value.Some? &&
      var stock := Lookup(c, ticker).value.value;
      var option := r.value.value;
      && option.ticker == stock.ticker
      && option.budget == budget
      && 0 <= option.shares
      && (stock.close <= 0 ==> option.shares == 0)
      && (stock.close > 0 ==> option.shares * stock.close <= budget < (option.shares + 1) * stock.close)
    ensures r.Success? && r.value.Some? ==> r.value.value.shares <= Int32Max
    ensures !IsBlank(ticker) && budget > 0 && Lookup(c, ticker).Success? && Lookup(c, ticker).value.Some? ==>
      var stock := Lookup(c, ticker).value.value;
      (r.Failure? <==> stock.close > 0 && budget / stock.close > Int32Max)
      && (r.Failure? ==> r.error == Overflow)
    ensures r.Failure? ==> r.error in {ArgumentNull, ArgumentOutOfRange, Overflow}
  {
    if IsBlank(ticker) then Failure(ArgumentNull)
    else if budget <= 0 then Failure(ArgumentOutOfRange)
    else
      match Lookup(c, ticker)
      case Failure(e) => Failure(e)
      case Success(None) => Success(None)
      case Success(Some(stock)) =>
        match Shares(budget, stock.close)
        case Failure(e) => Failure(e)
        case Success(n) => Success(Some(BuyingOption(stock.ticker, budget, n)))
  }

  /** With prices at a scale of 1/100: a budget of 1000.00 buys 4 shares at
      a close of 202.30, and any budget buys 0 shares at a close of 0. */
  lemma AffordabilityExamples(budget: int)
    requires budget > 0
    ensures Shares(100000, 20230) == Success(4)
    ensures Shares(budget, 0) == Success(0)
  {
  }

  /** An unknown ticker gives null, not an error, once the guards pass. */
  lemma UnknownTickerIsAbsent(c: Catalogue, ticker: string, budget: int)
    requires !IsBlank(Some(ticker)) && budget > 0
    requires Fold(ticker) !in c
    ensures GetStockByTicker(c, Some(ticker)) == Success(None)
    ensures GetBuyingOption(c, Some(ticker), budget) == Success(None)
  {
  }

  /** A stored record under a positive close and a budget whose quotient
      fits an int always yields an option, never an error. */
  lemma KnownTickerYieldsOption(c: Catalogue, ticker: string, budget: int)
    requires !IsBlank(Some(ticker)) && budget > 0
    requires Fold(ticker) in c
    requires c[Fold(ticker)].close > 0 ==> budget / c[Fold(ticker)].close <= Int32Max
    ensures GetBuyingOption(c, Some(ticker), budget).Success?
    ensures GetBuyingOption(c, Some(ticker), budget).value.Some?
  {
  }
}
