/** The currency side of the tracker: the exchange-rate table (units of EGP per
    unit of each currency), conversion of an amount to EGP, validation of a
    stored table, derivation of the table from a US-dollar rate feed, and the
    conversion of a per-ounce gold quote in US dollars to a per-gram EGP price.

    A rate table holds finite numbers only. A code whose rate the program would
    hold as NaN or an infinity is modelled as absent: every reader of the table
    (`toEGP`, the gold conversion's `exchange.USD || 47.9`, and the load
    validation after a JSON round trip) treats the two alike. */
module Currency {
  import opened JsNumber

  type RateTable = map<string, real>

  const BaseCode: string := "EGP"

  /** The rates in force before any update (INITIAL_EXCHANGE). */
  const InitialExchange: RateTable := map[
    "EGP" := 1.0, "USD" := 47.9, "AED" := 13.0, "SAR" := 12.75, "EUR" := 52.0,
    "GBP" := 60.0, "KWD" := 155.0, "QAR" := 13.0, "JOD" := 67.0]

  /** The codes the rate feed refreshes (FX_CODES), in the source's order. */
  const FxCodes: seq<string> := ["USD", "AED", "SAR", "EUR", "GBP", "KWD", "QAR", "JOD"]

  /** The keys of INITIAL_EXCHANGE, in insertion order. */
  const KnownCodes: seq<string> := [BaseCode] + FxCodes

  lemma KnownCodesAreInitialKeys()
    ensures forall c :: c in KnownCodes <==> c in InitialExchange
    ensures forall c :: c in InitialExchange ==> InitialExchange[c] > 0.0
  {
  }

  /** `toEGP`: the amount in EGP. An EGP amount is returned as it is; otherwise
      the amount is multiplied by the table's rate when that rate is a positive
      number, and returned unchanged when the rate is missing or not positive. */
  function ToEGP(val: real, curr: string, exchange: RateTable): (r: real)
    ensures curr == BaseCode ==> r == val
    ensures curr != BaseCode && curr in exchange && exchange[curr] > 0.0 ==> r == val * exchange[curr]
    ensures curr != BaseCode && (curr !in exchange || exchange[curr] <= 0.0) ==> r == val
  {
    if curr == BaseCode then val
    else if curr in exchange && exchange[curr] > 0.0 then val * exchange[curr]
    else val
  }

  /** The rate actually applied to an amount in `curr` (1 when it falls back). */
  function AppliedRate(curr: string, exchange: RateTable): (r: real)
    ensures r > 0.0
  {
    if curr != BaseCode && curr in exchange && exchange[curr] > 0.0 then exchange[curr] else 1.0
  }

  /** Conversion multiplies by a positive rate, so it is linear and keeps the
      sign of the amount: a non-negative amount is never turned negative. */
  lemma ToEGPIsScaling(val: real, curr: string, exchange: RateTable)
    ensures ToEGP(val, curr, exchange) == val * AppliedRate(curr, exchange)
    ensures val >= 0.0 <==> ToEGP(val, curr, exchange) >= 0.0
    ensures val == 0.0 <==> ToEGP(val, curr, exchange) == 0.0
  {
    var k := AppliedRate(curr, exchange);
    if val < 0.0 {
      assert val * k < 0.0;
    } else if val > 0.0 {
      assert val * k > 0.0;
    }
  }

  /** A one-entry table converts by its rate when positive and not at all otherwise. */
  lemma ToEGPSingleRate(val: real, code: string, rate: real)
    requires code != BaseCode
    ensures ToEGP(val, code, map[code := rate]) == if rate > 0.0 then val * rate else val
    ensures ToEGP(val, code, map[]) == val
  {
  }

  /** Whether a stored rate is accepted on load: a finite number greater than 0. */
  predicate AcceptedRate(stored: map<string, Num>, code: string) {
    code in stored && stored[code].Finite? && stored[code].v > 0.0
  }

  /** `next` is the table rebuilt from a stored one: exactly the initial
      codes, each with its stored rate when accepted and its initial rate
      otherwise. */
  ghost predicate MergedFrom(next: RateTable, stored: map<string, Num>) {
    && next.Keys == InitialExchange.Keys
    && forall c :: c in next ==> next[c] == (if AcceptedRate(stored, c) then stored[c].v else InitialExchange[c])
  }

  /** The table rebuilt from a stored one on load: start from the initial
      rates and, for each known code, take the stored rate when accepted. */
  method MergeStoredRates(stored: map<string, Num>) returns (next: RateTable)
    ensures MergedFrom(next, stored)
    ensures forall c :: c in next ==> next[c] > 0.0
  {
    next := InitialExchange;
    for i := 0 to |KnownCodes|
      invariant next.Keys == InitialExchange.Keys
      invariant forall c :: c in next && c in KnownCodes[..i] ==> next[c] == (if AcceptedRate(stored, c) then stored[c].v else InitialExchange[c])
      invariant forall c :: c in next && c !in KnownCodes[..i] ==> next[c] == InitialExchange[c]
    {
      var code := KnownCodes[i];
      var value := if code in stored then stored[code] else NotFinite;
      if value.Finite? && value.v > 0.0 {
        next := next[code := value.v];
      }
      assert KnownCodes[..i + 1] == KnownCodes[..i] + [code];
    }
    assert KnownCodes[..|KnownCodes|] == KnownCodes;
    KnownCodesAreInitialKeys();
  }

  /** A feed answer is used only when it carries a non-zero EGP rate. */
  predicate UsableFeed(rates: map<string, real>) {
    BaseCode in rates && rates[BaseCode] != 0.0
  }

  /** A code the feed quotes with a non-zero rate, other than USD (whose rate
      is set from the EGP quote instead). */
  predicate Quoted(rates: map<string, real>, c: string) {
    c != "USD" && c in rates && rates[c] != 0.0
  }

  /** A code that the refresh recomputes: one of FX_CODES that the feed quotes. */
  predicate Refreshed(rates: map<string, real>, c: string) {
    c in FxCodes && Quoted(rates, c)
  }

  /** What the table becomes after a usable feed answer, whose rates are units
      of each currency per US dollar: EGP is 1, USD is the feed's EGP rate,
      each refreshed code is that EGP rate divided by its own, and every other
      entry is kept; no other key appears. */
  ghost predicate DerivedFrom(next: RateTable, current: RateTable, rates: map<string, real>)
    requires UsableFeed(rates)
  {
    && (forall c :: c in next <==> c in current || c == BaseCode || c == "USD" || Refreshed(rates, c))
    && (forall c :: c in next ==> next[c] == RateAfterFeed(current, rates, c))
  }

  /** The entry for `c` once a usable feed answer is applied. */
  function RateAfterFeed(current: RateTable, rates: map<string, real>, c: string): real
    requires UsableFeed(rates)
    requires c in current || c == BaseCode || c == "USD" || Refreshed(rates, c)
  {
    if c == BaseCode then 1.0
    else if c == "USD" then rates[BaseCode]
    else if Refreshed(rates, c) then rates[BaseCode] / rates[c]
    else current[c]
  }

  /** One turn of the refresh loop over FX_CODES. */
  function RefreshCode(n: RateTable, code: string, rates: map<string, real>): RateTable
    requires UsableFeed(rates)
  {
    if Quoted(rates, code) then n[code := rates[BaseCode] / rates[code]] else n
  }

  /** The refresh loop over `codes`, from the left. */
  function RefreshAll(n: RateTable, codes: seq<string>, rates: map<string, real>): RateTable
    requires UsableFeed(rates)
    decreases |codes|
  {
    if codes == [] then n else RefreshAll(RefreshCode(n, codes[0], rates), codes[1..], rates)
  }

  /** The table `fetchRates` builds: the current one with EGP and USD set, then refreshed code by code. */
  function Derived(current: RateTable, rates: map<string, real>): RateTable
    requires UsableFeed(rates)
  {
    RefreshAll(current[BaseCode := 1.0]["USD" := rates[BaseCode]], FxCodes, rates)
  }

  /** The refresh loop touches exactly the quoted codes among those it visits. */
  lemma {:induction false} RefreshAllEffect(n: RateTable, codes: seq<string>, rates: map<string, real>, c: string)
    requires UsableFeed(rates)
    ensures c in RefreshAll(n, codes, rates) <==> c in n || (c in codes && Quoted(rates, c))
    ensures c in RefreshAll(n, codes, rates) ==>
      RefreshAll(n, codes, rates)[c] == if c in codes && Quoted(rates, c) then rates[BaseCode] / rates[c] else n[c]
    decreases |codes|
  {
    if codes != [] {
      RefreshAllEffect(RefreshCode(n, codes[0], rates), codes[1..], rates, c);
      assert c in codes <==> c == codes[0] || c in codes[1..];
    }
  }

  /** The derived table, one code at a time. */
  lemma DerivedAt(current: RateTable, rates: map<string, real>, c: string)
    requires UsableFeed(rates)
    ensures c in Derived(current, rates) <==> c in current || c == BaseCode || c == "USD" || Refreshed(rates, c)
    ensures c in Derived(current, rates) ==> Derived(current, rates)[c] == RateAfterFeed(current, rates, c)
  {
    var start := current[BaseCode := 1.0]["USD" := rates[BaseCode]];
    RefreshAllEffect(start, FxCodes, rates, c);
    if c == BaseCode {
      assert !Refreshed(rates, c);
    }
  }

  /** The derived table is the one the feed answer describes. */
  lemma DerivedIsFrom(current: RateTable, rates: map<string, real>)
    requires UsableFeed(rates)
    ensures DerivedFrom(Derived(current, rates), current, rates)
  {
    forall c ensures c in Derived(current, rates) <==> c in current || c == BaseCode || c == "USD" || Refreshed(rates, c) {
      DerivedAt(current, rates, c);
    }
    forall c | c in Derived(current, rates) ensures Derived(current, rates)[c] == RateAfterFeed(current, rates, c) {
      DerivedAt(current, rates, c);
    }
  }

  /** The derivation in `fetchRates`, with the network call removed: None when
      the answer lacks a usable EGP rate (the table is then left as it was). */
  method DeriveExchange(current: RateTable, rates: map<string, real>) returns (next: Option<RateTable>)
    ensures next.Some? <==> UsableFeed(rates)
    ensures next.Some? ==> next.value == Derived(current, rates) && DerivedFrom(next.value, current, rates)
  {
    if !(BaseCode in rates && rates[BaseCode] != 0.0) {
      return None;
    }
    var egpPerUsd := rates[BaseCode];
    var n := current[BaseCode := 1.0]["USD" := egpPerUsd];
    for i := 0 to |FxCodes|
      invariant RefreshAll(n, FxCodes[i..], rates) == Derived(current, rates)
    {
      var code := FxCodes[i];
      assert FxCodes[i..][1..] == FxCodes[i + 1..];
      if code != "USD" && code in rates && rates[code] != 0.0 {
        n := n[code := egpPerUsd / rates[code]];
      }
    }
    DerivedIsFrom(current, rates);
    next := Some(n);
  }

  /** With a usable answer, an amount in a refreshed currency converts to EGP
      by way of US dollars: amount / (units per dollar) × (EGP per dollar). */
  lemma DerivedConvertsThroughDollars(next: RateTable, current: RateTable, rates: map<string, real>, c: string, amount: real)
    requires UsableFeed(rates) && DerivedFrom(next, current, rates)
    requires Refreshed(rates, c) && rates[BaseCode] > 0.0 && rates[c] > 0.0
    ensures ToEGP(amount, c, next) == amount * (rates[BaseCode] / rates[c])
  {
    assert c != BaseCode && c in next;
    assert next[c] == rates[BaseCode] / rates[c];
    ConvertAtQuotient(amount, c, next, rates[BaseCode], rates[c]);
  }

  lemma ConvertAtQuotient(amount: real, c: string, exchange: RateTable, e: real, r: real)
    requires c != BaseCode && c in exchange && e > 0.0 && r > 0.0 && exchange[c] == e / r
    ensures ToEGP(amount, c, exchange) == amount * (e / r)
  {
    assert exchange[c] > 0.0;
  }

  /** A feed whose rates are all positive, applied to a table whose rates are
      all positive, leaves every rate positive. */
  lemma DerivedKeepsRatesPositive(next: RateTable, current: RateTable, rates: map<string, real>)
    requires UsableFeed(rates) && DerivedFrom(next, current, rates)
    requires forall c :: c in rates ==> rates[c] > 0.0
    requires forall c :: c in current ==> current[c] > 0.0
    ensures forall c :: c in next ==> next[c] > 0.0
  {
    forall c | c in next ensures next[c] > 0.0 {
      if Refreshed(rates, c) {
        assert next[c] == rates[BaseCode] / rates[c];
      }
    }
  }

  /** The fields of the gold feed's answer that may carry the US-dollar price of a troy ounce. */
  datatype GoldQuote = GoldQuote(price: Option<real>, priceUsd: Option<real>, xau: Option<real>)

  const GramsPerTroyOunce: real := 31.1034768

  /** A field that `||` passes on: present and non-zero. */
  predicate Truthy(f: Option<real>) {
    f.Some? && f.value != 0.0
  }

  /** `data.price || data.price_usd || data.xau || 0`: the first field that is present and non-zero. */
  function UsdPerOunce(q: GoldQuote): (r: real)
    ensures r != 0.0 ==> Some(r) in {q.price, q.priceUsd, q.xau}
    ensures Truthy(q.price) ==> r == q.price.value
    ensures !Truthy(q.price) && Truthy(q.priceUsd) ==> r == q.priceUsd.value
    ensures !Truthy(q.price) && !Truthy(q.priceUsd) && Truthy(q.xau) ==> r == q.xau.value
    ensures r == 0.0 <==> !Truthy(q.price) && !Truthy(q.priceUsd) && !Truthy(q.xau)
  {
    if q.price.Some? && q.price.value != 0.0 then q.price.value
    else if q.priceUsd.Some? && q.priceUsd.value != 0.0 then q.priceUsd.value
    else if q.xau.Some? && q.xau.value != 0.0 then q.xau.value
    else 0.0
  }

  /** `exchange.USD || INITIAL_EXCHANGE.USD`: the table's dollar rate, or the initial 47.9 when it is missing or 0. */
  function EgpPerUsd(exchange: RateTable): (r: real)
    ensures r != 0.0
    ensures "USD" in exchange && exchange["USD"] != 0.0 ==> r == exchange["USD"]
    ensures !("USD" in exchange && exchange["USD"] != 0.0) ==> r == InitialExchange["USD"] == 47.9
  {
    if "USD" in exchange && exchange["USD"] != 0.0 then exchange["USD"] else InitialExchange["USD"]
  }

  /** The unrounded EGP price of one gram of 24K gold, 0 when the quote is not positive. */
  function ExactGramPrice(q: GoldQuote, exchange: RateTable): real {
    var usdPerOunce := UsdPerOunce(q);
    if usdPerOunce > 0.0 then usdPerOunce / GramsPerTroyOunce * EgpPerUsd(exchange) else 0.0
  }

  /** The new gold gram price from a quote, rounded to 2 decimals, or None when
      the quote yields no positive price (the price then stays as it was). */
  function GramPriceFromQuote(q: GoldQuote, exchange: RateTable): (r: Option<real>)
    ensures r.Some? <==> UsdPerOunce(q) > 0.0 && EgpPerUsd(exchange) > 0.0
    ensures r.Some? ==> r.value >= 0.0 && Abs(r.value - ExactGramPrice(q, exchange)) * 200.0 <= 1.0
  {
    var usdPerOunce := UsdPerOunce(q);
    var next := ExactGramPrice(q, exchange);
    assert usdPerOunce > 0.0 && EgpPerUsd(exchange) > 0.0 ==> next > 0.0;
    assert usdPerOunce > 0.0 && EgpPerUsd(exchange) < 0.0 ==> next < 0.0;
    assert Pow10(2) == 100;
    if next > 0.0 then Some(ToFixed(next, 2)) else None
  }
}
