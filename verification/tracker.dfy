/** The tracker's state and the operations that change it: the asset list,
    the debt list, the rate table, the yearly snapshots and the year counter,
    the 24K gold gram price, and the status of the two feeds.

    Fetching, storage and the clock are outside the model: a feed's answer
    (or its failure, as None) and the timestamp text are parameters, and the
    saved bundle is given already decoded. */
module Tracker {
  import opened JsNumber
  import opened Filtering
  import opened LocalizedNumber
  import opened Currency
  import opened Assets
  import opened ZakatEngine
  import opened Snapshots

  /** What the rate status line reports. */
  datatype RateStatus = NotYetUpdated | UpdatedAt(stamp: string) | FetchFailed

  /** `goldStatus`: "idle", "ok", "fail" or "saved". */
  datatype GoldStatus = Idle | Ok | Fail | Saved

  /** The saved bundle after `JSON.parse`. A field that is not an array (or not
      an object, for the rate table) is None; numbers are as `Number()` reads
      them; `year` is None unless it reads as a finite number. */
  datatype Bundle = Bundle(
    assets: Option<seq<Asset>>,
    debts: Option<seq<Num>>,
    snapshots: Option<seq<Snapshot>>,
    year: Option<int>,
    exchange: Option<map<string, Num>>,
    ratesLastUpdated: Option<string>,
    goldPrice24k: Num,
    goldLastUpdated: Option<string>)

  /** `map(Number).filter(Number.isFinite)`: the finite debts, in order. */
  function FiniteValues(ds: seq<Num>): (r: seq<real>)
    ensures |r| <= |ds|
  {
    if ds == [] then []
    else if ds[0].Finite? then [ds[0].v] + FiniteValues(ds[1..])
    else FiniteValues(ds[1..])
  }

  /** Each finite debt is kept as many times as it is stored. */
  lemma {:induction false} FiniteValuesCounts(ds: seq<Num>, x: real)
    ensures multiset(FiniteValues(ds))[x] == multiset(ds)[Finite(x)]
  {
    if ds != [] {
      FiniteValuesCounts(ds[1..], x);
      assert ds == [ds[0]] + ds[1..];
    }
  }

  /** Loading a list is loading its parts in turn, so the kept debts keep their stored order. */
  lemma {:induction false} FiniteValuesAppend(a: seq<Num>, b: seq<Num>)
    ensures FiniteValues(a + b) == FiniteValues(a) + FiniteValues(b)
  {
    if a != [] {
      FiniteValuesAppend(a[1..], b);
      assert (a + b)[1..] == a[1..] + b;
    } else {
      assert a + b == b;
    }
  }

  /** Loading keeps exactly the finite debts, negative ones included. */
  lemma {:induction false} FiniteValuesKeeps(ds: seq<Num>, x: real)
    ensures x in FiniteValues(ds) <==> Finite(x) in ds
  {
    if ds != [] {
      FiniteValuesKeeps(ds[1..], x);
      assert ds == [ds[0]] + ds[1..];
    }
  }

  lemma {:induction false} FiniteValuesOfFinite(xs: seq<real>)
    ensures FiniteValues(seq(|xs|, i requires 0 <= i < |xs| => Finite(xs[i]))) == xs
  {
    if xs != [] {
      var ds := seq(|xs|, i requires 0 <= i < |xs| => Finite(xs[i]));
      FiniteValuesOfFinite(xs[1..]);
      assert ds[1..] == seq(|xs[1..]|, i requires 0 <= i < |xs[1..]| => Finite(xs[1..][i]));
      assert xs == [xs[0]] + xs[1..];
    }
  }

  /** The debt list without the entry at `idx` (`filter((_, i) => i !== idx)`). */
  function RemoveAt<T>(s: seq<T>, idx: int): (r: seq<T>)
    ensures 0 <= idx < |s| ==> |r| == |s| - 1
    ensures 0 <= idx < |s| ==> forall k :: 0 <= k < idx ==> r[k] == s[k]
    ensures 0 <= idx < |s| ==> forall k :: idx <= k < |r| ==> r[k] == s[k + 1]
    ensures !(0 <= idx < |s|) ==> r == s
  {
    if 0 <= idx < |s| then s[..idx] + s[idx + 1..] else s
  }

  lemma {:induction false} TotalDebtsAppend(a: seq<real>, b: seq<real>)
    ensures TotalDebts(a + b) == TotalDebts(a) + TotalDebts(b)
  {
    if b == [] {
      assert a + b == a;
    } else {
      TotalDebtsAppend(a, b[..|b| - 1]);
      assert (a + b)[..|a + b| - 1] == a + b[..|b| - 1];
    }
  }

  /** Deleting a debt lowers the debt total by exactly that debt. */
  lemma {:induction false} DeleteDebtLowersTotal(debts: seq<real>, idx: int)
    requires 0 <= idx < |debts|
    ensures TotalDebts(RemoveAt(debts, idx)) == TotalDebts(debts) - debts[idx]
  {
    var init, last := debts[..|debts| - 1], debts[|debts| - 1];
    if idx < |debts| - 1 {
      DeleteDebtLowersTotal(init, idx);
      var r := RemoveAt(debts, idx);
      assert r[..|r| - 1] == RemoveAt(init, idx);
    } else {
      assert RemoveAt(debts, idx) == init;
    }
  }

  /** An added debt lowers the net worth by its amount and leaves the assets alone. */
  lemma AddedDebtLowersNetWorth(assets: seq<Asset>, debts: seq<real>, exchange: RateTable, v: real)
    ensures Evaluate(assets, debts + [v], exchange).netWorth == Evaluate(assets, debts, exchange).netWorth - v
    ensures Evaluate(assets, debts + [v], exchange).totalAssets == Evaluate(assets, debts, exchange).totalAssets
  {
    EvaluateTotals(assets, debts, exchange);
    EvaluateTotals(assets, debts + [v], exchange);
    assert (debts + [v])[..|debts|] == debts;
  }

  /** `map((a) => a.id === updated.id ? updated : a)`. */
  function ReplaceById(assets: seq<Asset>, updated: Asset): (r: seq<Asset>)
    ensures |r| == |assets|
    ensures forall k :: 0 <= k < |r| ==> r[k] == if assets[k].id == updated.id then updated else assets[k]
  {
    seq(|assets|, k requires 0 <= k < |assets| => if assets[k].id == updated.id then updated else assets[k])
  }

  /** `filter((x) => x.id !== id)`. */
  function RemoveById(assets: seq<Asset>, id: int): (r: seq<Asset>)
    ensures forall a :: a in r <==> a in assets && a.id != id
    ensures forall a :: multiset(r)[a] == if a.id != id then multiset(assets)[a] else 0
    ensures Subsequence(r, assets)
  {
    var keep := (a: Asset) => a.id != id;
    FilterIsSubsequence(assets, keep);
    forall a ensures a in Filter(assets, keep) <==> a in assets && a.id != id {
      FilterMembers(assets, keep, a);
    }
    forall a ensures multiset(Filter(assets, keep))[a] == if a.id != id then multiset(assets)[a] else 0 {
      FilterCounts(assets, keep, a);
    }
    Filter(assets, keep)
  }

  class Tracker {
    var assets: seq<Asset>
    var debts: seq<real>
    var exchange: RateTable
    var snapshots: seq<Snapshot>
    var year: int
    var goldPrice24k: real
    var goldStatus: GoldStatus
    var goldLastUpdated: Option<string>
    var ratesLastUpdated: Option<string>
    var rateStatus: RateStatus
    var newDebtAmount: string

    /** The rate table only ever holds the known codes: EGP and the refreshed ones. */
    predicate Valid()
      reads this
    {
      forall c :: c in exchange ==> c in KnownCodes
    }

    /** The state before anything is loaded, fetched or entered. */
    constructor()
      ensures Valid()
      ensures assets == [] && debts == [] && exchange == InitialExchange && snapshots == []
      ensures year == 2026 && goldPrice24k == 0.0 && goldStatus == Idle
      ensures goldLastUpdated == None && ratesLastUpdated == None && rateStatus == NotYetUpdated
      ensures newDebtAmount == []
    {
      assets := [];
      debts := [];
      exchange := InitialExchange;
      snapshots := [];
      year := 2026;
      goldPrice24k := 0.0;
      goldStatus := Idle;
      goldLastUpdated := None;
      ratesLastUpdated := None;
      rateStatus := NotYetUpdated;
      newDebtAmount := [];
    }

    /** Typing into the debt amount field. */
    method SetNewDebtAmount(text: string)
      modifies this
      ensures newDebtAmount == text
      ensures assets == old(assets) && debts == old(debts) && exchange == old(exchange) && snapshots == old(snapshots)
      ensures year == old(year) && goldPrice24k == old(goldPrice24k) && goldStatus == old(goldStatus)
      ensures goldLastUpdated == old(goldLastUpdated) && ratesLastUpdated == old(ratesLastUpdated) && rateStatus == old(rateStatus)
    {
      newDebtAmount := text;
    }

    /** `addDebt`: the typed amount is appended when it reads as a finite
        number greater than 0, and the field is then cleared; otherwise
        nothing changes. */
    method AddDebt()
      modifies this
      ensures var v := ParseLocalizedNumber(Some(old(newDebtAmount)));
        if v.Some? && v.value > 0.0 then debts == old(debts) + [v.value] && newDebtAmount == []
        else debts == old(debts) && newDebtAmount == old(newDebtAmount)
      ensures assets == old(assets) && exchange == old(exchange) && snapshots == old(snapshots)
      ensures year == old(year) && goldPrice24k == old(goldPrice24k) && goldStatus == old(goldStatus)
      ensures goldLastUpdated == old(goldLastUpdated) && ratesLastUpdated == old(ratesLastUpdated) && rateStatus == old(rateStatus)
    {
      var value := ParseLocalizedNumber(Some(newDebtAmount));
      if value.None? || value.value <= 0.0 {
        return;
      }
      debts := debts + [value.value];
      newDebtAmount := [];
    }

    /** Deleting the debt at position `idx`. */
    method DeleteDebt(idx: int)
      modifies this
      ensures debts == RemoveAt(old(debts), idx)
      ensures assets == old(assets) && exchange == old(exchange) && snapshots == old(snapshots)
      ensures year == old(year) && goldPrice24k == old(goldPrice24k) && goldStatus == old(goldStatus)
      ensures goldLastUpdated == old(goldLastUpdated) && ratesLastUpdated == old(ratesLastUpdated) && rateStatus == old(rateStatus)
      ensures newDebtAmount == old(newDebtAmount)
    {
      debts := RemoveAt(debts, idx);
    }

    /** Saving the "add asset" form: the record goes at the end of the list. */
    method AddAsset(a: Asset)
      modifies this
      ensures assets == old(assets) + [a]
      ensures debts == old(debts) && exchange == old(exchange) && snapshots == old(snapshots)
      ensures year == old(year) && goldPrice24k == old(goldPrice24k) && goldStatus == old(goldStatus)
      ensures goldLastUpdated == old(goldLastUpdated) && ratesLastUpdated == old(ratesLastUpdated) && rateStatus == old(rateStatus)
      ensures newDebtAmount == old(newDebtAmount)
    {
      assets := assets + [a];
    }

    /** Saving the "edit asset" form: every record with the edited id is replaced by it. */
    method UpdateAsset(updated: Asset)
      modifies this
      ensures assets == ReplaceById(old(assets), updated)
      ensures debts == old(debts) && exchange == old(exchange) && snapshots == old(snapshots)
      ensures year == old(year) && goldPrice24k == old(goldPrice24k) && goldStatus == old(goldStatus)
      ensures goldLastUpdated == old(goldLastUpdated) && ratesLastUpdated == old(ratesLastUpdated) && rateStatus == old(rateStatus)
      ensures newDebtAmount == old(newDebtAmount)
    {
      assets := ReplaceById(assets, updated);
    }

    /** Deleting an asset: every record with that id goes, the rest keep their order. */
    method DeleteAsset(id: int)
      modifies this
      ensures assets == RemoveById(old(assets), id)
      ensures debts == old(debts) && exchange == old(exchange) && snapshots == old(snapshots)
      ensures year == old(year) && goldPrice24k == old(goldPrice24k) && goldStatus == old(goldStatus)
      ensures goldLastUpdated == old(goldLastUpdated) && ratesLastUpdated == old(ratesLastUpdated) && rateStatus == old(rateStatus)
      ensures newDebtAmount == old(newDebtAmount)
    {
      assets := RemoveById(assets, id);
    }

    /** `saveSnapshot`: the current figures are stored under the current year
        (replacing that year's entry where it stands, or appended and the list
        re-sorted by year), and the year counter moves on by one. */
    method SaveSnapshot()
      modifies this
      ensures var snap := SnapshotOf(old(year), Evaluate(old(assets), old(debts), old(exchange)));
        snapshots == Upsert(old(snapshots), snap)
      ensures year == old(year) + 1
      ensures UniqueYears(old(snapshots)) ==> UniqueYears(snapshots)
      ensures SortedByYear(old(snapshots)) ==> SortedByYear(snapshots)
      ensures assets == old(assets) && debts == old(debts) && exchange == old(exchange)
      ensures goldPrice24k == old(goldPrice24k) && goldStatus == old(goldStatus)
      ensures goldLastUpdated == old(goldLastUpdated) && ratesLastUpdated == old(ratesLastUpdated) && rateStatus == old(rateStatus)
      ensures newDebtAmount == old(newDebtAmount)
    {
      var f := Compute(assets, debts, exchange);
      var snap := SnapshotOf(year, f);
      UpsertKeepsOrder(snapshots, snap);
      var idx := FindYear(snapshots, year);
      if idx >= 0 {
        snapshots := snapshots[idx := snap];
      } else {
        snapshots := SortByYear(snapshots + [snap]);
      }
      year := year + 1;
    }

    /** Editing the year field. */
    method SetYear(y: int)
      modifies this
      ensures year == y
      ensures assets == old(assets) && debts == old(debts) && exchange == old(exchange) && snapshots == old(snapshots)
      ensures goldPrice24k == old(goldPrice24k) && goldStatus == old(goldStatus)
      ensures goldLastUpdated == old(goldLastUpdated) && ratesLastUpdated == old(ratesLastUpdated) && rateStatus == old(rateStatus)
      ensures newDebtAmount == old(newDebtAmount)
    {
      year := y;
    }

    /** Editing the rate of one of the refreshed codes by hand: the typed
        number becomes the rate (an empty field reads as 0); text that is not
        a finite number leaves the code without a usable rate. */
    method EditRate(code: string, text: string)
      requires code in FxCodes
      requires Valid()
      modifies this
      ensures Valid()
      ensures StringToNumber(text).Some? ==> exchange == old(exchange)[code := StringToNumber(text).value]
      ensures StringToNumber(text).None? ==> exchange == old(exchange) - {code}
      ensures assets == old(assets) && debts == old(debts) && snapshots == old(snapshots) && year == old(year)
      ensures goldPrice24k == old(goldPrice24k) && goldStatus == old(goldStatus)
      ensures goldLastUpdated == old(goldLastUpdated) && ratesLastUpdated == old(ratesLastUpdated) && rateStatus == old(rateStatus)
      ensures newDebtAmount == old(newDebtAmount)
    {
      KnownCodesAreInitialKeys();
      var rate := StringToNumber(text);
      if rate.Some? {
        exchange := exchange[code := rate.value];
      } else {
        exchange := exchange - {code};
      }
    }

    /** `fetchRates` once the feed has answered (`feed` is None when the request
        or its decoding failed): a usable answer replaces the table as
        `DeriveExchange` describes and stamps it; anything else only reports
        the failure, leaving the table as it was. */
    method RefreshRates(feed: Option<map<string, real>>, stamp: string)
      requires Valid()
      modifies this
      ensures Valid()
      ensures feed.Some? && UsableFeed(feed.value) ==>
        exchange == Derived(old(exchange), feed.value) && ratesLastUpdated == Some(stamp) && rateStatus == UpdatedAt(stamp)
      ensures !(feed.Some? && UsableFeed(feed.value)) ==>
        exchange == old(exchange) && ratesLastUpdated == old(ratesLastUpdated) && rateStatus == FetchFailed
      ensures assets == old(assets) && debts == old(debts) && snapshots == old(snapshots) && year == old(year)
      ensures goldPrice24k == old(goldPrice24k) && goldStatus == old(goldStatus) && goldLastUpdated == old(goldLastUpdated)
      ensures newDebtAmount == old(newDebtAmount)
    {
      var next: Option<RateTable> := None;
      if feed.Some? {
        next := DeriveExchange(exchange, feed.value);
      }
      if next.None? {
        rateStatus := FetchFailed;
        return;
      }
      DerivedKeepsKnownCodes(exchange, feed.value);
      exchange := next.value;
      ratesLastUpdated := Some(stamp);
      rateStatus := UpdatedAt(stamp);
    }

    /** `fetchGoldPrice` once the feed has answered: a quote that yields a
        positive price sets the gram price (rounded to the cent) and stamps
        it; anything else only reports the failure. */
    method RefreshGoldPrice(quote: Option<GoldQuote>, stamp: string)
      modifies this
      ensures quote.Some? && GramPriceFromQuote(quote.value, old(exchange)).Some? ==>
        goldPrice24k == GramPriceFromQuote(quote.value, old(exchange)).value && goldLastUpdated == Some(stamp) && goldStatus == Ok
      ensures !(quote.Some? && GramPriceFromQuote(quote.value, old(exchange)).Some?) ==>
        goldPrice24k == old(goldPrice24k) && goldLastUpdated == old(goldLastUpdated) && goldStatus == Fail
      ensures assets == old(assets) && debts == old(debts) && exchange == old(exchange) && snapshots == old(snapshots)
      ensures year == old(year) && ratesLastUpdated == old(ratesLastUpdated) && rateStatus == old(rateStatus)
      ensures newDebtAmount == old(newDebtAmount)
    {
      if quote.None? {
        goldStatus := Fail;
        return;
      }
      var price := GramPriceFromQuote(quote.value, exchange);
      if price.None? {
        goldStatus := Fail;
        return;
      }
      goldPrice24k := price.value;
      goldLastUpdated := Some(stamp);
      goldStatus := Ok;
    }

    /** Editing the gram price by hand: the typed number (0 for text that is not a finite number). */
    method SetGoldPrice(text: string)
      modifies this
      ensures goldPrice24k == (if StringToNumber(text).Some? then StringToNumber(text).value else 0.0)
      ensures assets == old(assets) && debts == old(debts) && exchange == old(exchange) && snapshots == old(snapshots)
      ensures year == old(year) && goldStatus == old(goldStatus) && goldLastUpdated == old(goldLastUpdated)
      ensures ratesLastUpdated == old(ratesLastUpdated) && rateStatus == old(rateStatus)
      ensures newDebtAmount == old(newDebtAmount)
    {
      var price := StringToNumber(text);
      goldPrice24k := if price.Some? then price.value else 0.0;
    }

    /** `saveGoldPrice`: a positive price is stamped and marked saved; otherwise nothing happens. */
    method SaveGoldPrice(stamp: string)
      modifies this
      ensures old(goldPrice24k) > 0.0 ==> goldLastUpdated == Some(stamp) && goldStatus == Saved
      ensures old(goldPrice24k) <= 0.0 ==> goldLastUpdated == old(goldLastUpdated) && goldStatus == old(goldStatus)
      ensures goldPrice24k == old(goldPrice24k)
      ensures assets == old(assets) && debts == old(debts) && exchange == old(exchange) && snapshots == old(snapshots)
      ensures year == old(year) && ratesLastUpdated == old(ratesLastUpdated) && rateStatus == old(rateStatus)
      ensures newDebtAmount == old(newDebtAmount)
    {
      if goldPrice24k <= 0.0 {
        return;
      }
      goldLastUpdated := Some(stamp);
      goldStatus := Saved;
    }

    /** The load effect, when a saved bundle exists and parses (otherwise
        nothing happens): each field is taken when it passes its check and
        kept otherwise. Debts keep only their finite entries; the rate table
        starts from the initial rates and takes each stored rate that is
        finite and positive; the gold price is taken when finite and positive. */
    method Load(b: Bundle)
      requires Valid()
      modifies this
      ensures Valid()
      ensures assets == if b.assets.Some? then b.assets.value else old(assets)
      ensures debts == if b.debts.Some? then FiniteValues(b.debts.value) else old(debts)
      ensures snapshots == if b.snapshots.Some? then b.snapshots.value else old(snapshots)
      ensures year == if b.year.Some? then b.year.value else old(year)
      ensures b.exchange.None? ==> exchange == old(exchange)
      ensures b.exchange.Some? ==> MergedFrom(exchange, b.exchange.value)
      ensures ratesLastUpdated == if b.ratesLastUpdated.Some? then b.ratesLastUpdated else old(ratesLastUpdated)
      ensures goldLastUpdated == if b.goldLastUpdated.Some? then b.goldLastUpdated else old(goldLastUpdated)
      ensures goldPrice24k == if b.goldPrice24k.Finite? && b.goldPrice24k.v > 0.0 then b.goldPrice24k.v else old(goldPrice24k)
      ensures goldStatus == old(goldStatus) && rateStatus == old(rateStatus) && newDebtAmount == old(newDebtAmount)
    {
      LoadPrices(b);
      assets := if b.assets.Some? then b.assets.value else assets;
      debts := if b.debts.Some? then FiniteValues(b.debts.value) else debts;
      snapshots := if b.snapshots.Some? then b.snapshots.value else snapshots;
      year := if b.year.Some? then b.year.value else year;
    }

    /** The part of the load effect that restores the rate table, the gold price and their stamps. */
    method LoadPrices(b: Bundle)
      requires Valid()
      modifies this
      ensures Valid()
      ensures b.exchange.None? ==> exchange == old(exchange)
      ensures b.exchange.Some? ==> MergedFrom(exchange, b.exchange.value)
      ensures ratesLastUpdated == if b.ratesLastUpdated.Some? then b.ratesLastUpdated else old(ratesLastUpdated)
      ensures goldPrice24k == if b.goldPrice24k.Finite? && b.goldPrice24k.v > 0.0 then b.goldPrice24k.v else old(goldPrice24k)
      ensures goldLastUpdated == if b.goldLastUpdated.Some? then b.goldLastUpdated else old(goldLastUpdated)
      ensures assets == old(assets) && debts == old(debts) && snapshots == old(snapshots) && year == old(year)
      ensures goldStatus == old(goldStatus) && rateStatus == old(rateStatus) && newDebtAmount == old(newDebtAmount)
    {
      if b.exchange.Some? {
        exchange := MergeStoredRates(b.exchange.value);
      }
      ratesLastUpdated := if b.ratesLastUpdated.Some? then b.ratesLastUpdated else ratesLastUpdated;
      goldPrice24k := if b.goldPrice24k.Finite? && b.goldPrice24k.v > 0.0 then b.goldPrice24k.v else goldPrice24k;
      goldLastUpdated := if b.goldLastUpdated.Some? then b.goldLastUpdated else goldLastUpdated;
    }
  }

  /** Saving a year twice in a row without changing anything in between is
      the same as saving it once, apart from the year counter. */
  lemma SaveIsIdempotentOnSameYear(prev: seq<Snapshot>, snap: Snapshot)
    ensures Upsert(Upsert(prev, snap), snap) == Upsert(prev, snap)
  {
    LaterSaveWins(prev, snap, snap);
  }

  /** After saving, the year's snapshot is in the list. */
  lemma SnapshotPresent(prev: seq<Snapshot>, snap: Snapshot)
    ensures snap in Upsert(prev, snap)
    ensures FindYear(Upsert(prev, snap), snap.year) >= 0
  {
    var r := Upsert(prev, snap);
    var idx := FindYear(prev, snap.year);
    if idx >= 0 {
      assert r[idx] == snap;
    } else {
      assert snap in multiset(prev + [snap]);
      assert snap in multiset(r);
      var k :| 0 <= k < |r| && r[k] == snap;
      assert r[k].year == snap.year;
    }
  }

  /** A feed never brings a code the initial table does not have. */
  lemma DerivedKeepsKnownCodes(current: RateTable, rates: map<string, real>)
    requires UsableFeed(rates)
    requires forall c :: c in current ==> c in KnownCodes
    ensures forall c :: c in Derived(current, rates) ==> c in KnownCodes
  {
    KnownCodesAreInitialKeys();
    forall c | c in Derived(current, rates) ensures c in InitialExchange {
      DerivedAt(current, rates, c);
    }
  }

  /** What the class invariant buys: under a table that holds only known
      codes, an asset in any other currency is counted at its face value. */
  lemma UnknownCurrencyAtFaceValue(exchange: RateTable, val: real, curr: string)
    requires forall c :: c in exchange ==> c in KnownCodes
    requires curr !in KnownCodes
    ensures ToEGP(val, curr, exchange) == val
  {
    assert BaseCode in KnownCodes;
  }
}
