/** The valuation and zakat engine (the `computed` memo): every asset is
    valued in EGP, its zakatable share and the zakat due on it are derived,
    the portfolio totals are summed, debts are netted off the zakatable total
    (never below 0), 2.5% of the rest is the zakat, and the EGP values are
    grouped by category for the breakdown. */
module ZakatEngine {
  import opened JsNumber
  import opened Assets
  import opened Currency

  /** 2.5%: one fortieth. */
  const ZakatRate: real := 0.025

  /** `a.zakatBasis || 1`: a missing basis and a basis of 0 both count as 1. */
  function ZakatBasisFactor(b: Option<real>): (r: real)
    ensures b.Some? && b.value != 0.0 ==> r == b.value
    ensures b.None? || b.value == 0.0 ==> r == 1.0
  {
    if b.Some? && b.value != 0.0 then b.value else 1.0
  }

  /** An asset with its derived EGP figures (an entry of `assetsWithEGP`). */
  datatype Valued = Valued(asset: Asset, valueEGP: real, zakatableValueEGP: real, zakatDueEGP: real)

  /** The derived figures of one asset. */
  function Valuate(a: Asset, exchange: RateTable): (v: Valued)
    ensures v.asset == a && v.valueEGP == ToEGP(a.value, a.currency, exchange)
    ensures !a.zakatable ==> v.zakatableValueEGP == 0.0 && v.zakatDueEGP == 0.0
    ensures a.zakatable ==> v.zakatableValueEGP == v.valueEGP * ZakatBasisFactor(a.zakatBasis)
    ensures v.zakatDueEGP == v.zakatableValueEGP * ZakatRate
  {
    var valueEGP := ToEGP(a.value, a.currency, exchange);
    var base := if a.zakatable then valueEGP * ZakatBasisFactor(a.zakatBasis) else 0.0;
    Valued(a, valueEGP, base, if a.zakatable then valueEGP * ZakatBasisFactor(a.zakatBasis) * ZakatRate else 0.0)
  }

  /** For an asset of non-negative value with a basis between 0 and 1, the
      zakatable share lies between 0 and the EGP value, and the zakat due on
      it is a fortieth of that share. */
  lemma ValuateBounds(a: Asset, exchange: RateTable)
    requires a.value >= 0.0
    requires a.zakatBasis.Some? ==> 0.0 <= a.zakatBasis.value <= 1.0
    ensures var v := Valuate(a, exchange);
      0.0 <= v.zakatableValueEGP <= v.valueEGP && v.zakatDueEGP * 40.0 == v.zakatableValueEGP
  {
    ToEGPNonNegative(a.value, a.currency, exchange);
    var v := Valuate(a, exchange);
    if a.zakatable {
      ShareBounds(v.valueEGP, ZakatBasisFactor(a.zakatBasis), v.zakatableValueEGP, v.zakatDueEGP);
    }
  }

  lemma ShareBounds(value: real, k: real, share: real, due: real)
    requires value >= 0.0 && 0.0 <= k <= 1.0 && share == value * k && due == share * ZakatRate
    ensures 0.0 <= share <= value && due * 40.0 == share
  {
    ScaleDown(value, k, share);
  }

  lemma ToEGPNonNegative(val: real, curr: string, exchange: RateTable)
    requires val >= 0.0
    ensures ToEGP(val, curr, exchange) >= 0.0
  {
    ToEGPIsScaling(val, curr, exchange);
  }

  lemma ScaleDown(x: real, k: real, y: real)
    requires x >= 0.0 && 0.0 <= k <= 1.0 && y == x * k
    ensures 0.0 <= y <= x
  {
    assert x - y == x * (1.0 - k) >= 0.0;
  }

  function ValueAll(assets: seq<Asset>, exchange: RateTable): (vs: seq<Valued>)
    ensures |vs| == |assets|
    ensures forall i :: 0 <= i < |vs| ==> vs[i] == Valuate(assets[i], exchange)
  {
    seq(|assets|, i requires 0 <= i < |assets| => Valuate(assets[i], exchange))
  }

  /** `totalAssets`: the sum of the EGP values, left to right. */
  function TotalValue(vs: seq<Valued>): real {
    if vs == [] then 0.0 else TotalValue(vs[..|vs| - 1]) + vs[|vs| - 1].valueEGP
  }

  /** `totalZakatable`: the sum of the zakatable shares. */
  function TotalZakatable(vs: seq<Valued>): real {
    if vs == [] then 0.0 else TotalZakatable(vs[..|vs| - 1]) + vs[|vs| - 1].zakatableValueEGP
  }

  /** The sum of the per-asset zakat due, before debts. */
  function TotalDue(vs: seq<Valued>): real {
    if vs == [] then 0.0 else TotalDue(vs[..|vs| - 1]) + vs[|vs| - 1].zakatDueEGP
  }

  /** `totalDebts`: the sum of the debts (all finite, so `d || 0` is `d`). */
  function TotalDebts(debts: seq<real>): real {
    if debts == [] then 0.0 else TotalDebts(debts[..|debts| - 1]) + debts[|debts| - 1]
  }

  /** The per-asset zakat due adds up to 2.5% of the zakatable total. */
  lemma {:induction false} TotalDueIsRateOfZakatable(vs: seq<Valued>)
    requires forall i :: 0 <= i < |vs| ==> vs[i].zakatDueEGP == vs[i].zakatableValueEGP * ZakatRate
    ensures TotalDue(vs) == TotalZakatable(vs) * ZakatRate
  {
    if vs != [] {
      TotalDueIsRateOfZakatable(vs[..|vs| - 1]);
    }
  }

  lemma {:induction false} TotalDebtsNonNegative(debts: seq<real>)
    requires forall i :: 0 <= i < |debts| ==> debts[i] >= 0.0
    ensures TotalDebts(debts) >= 0.0
  {
    if debts != [] {
      TotalDebtsNonNegative(debts[..|debts| - 1]);
    }
  }

  lemma {:induction false} TotalValueNonNegative(vs: seq<Valued>)
    requires forall i :: 0 <= i < |vs| ==> vs[i].valueEGP >= 0.0 && vs[i].zakatableValueEGP >= 0.0
    ensures TotalValue(vs) >= 0.0 && TotalZakatable(vs) >= 0.0
  {
    if vs != [] {
      TotalValueNonNegative(vs[..|vs| - 1]);
    }
  }

  /** The EGP values of the assets in category `c`, summed. */
  function CategoryTotal(vs: seq<Valued>, c: string): real {
    if vs == [] then 0.0
    else CategoryTotal(vs[..|vs| - 1], c) + (if vs[|vs| - 1].asset.category == c then vs[|vs| - 1].valueEGP else 0.0)
  }

  /** Some asset has category `c`. */
  predicate HasCategory(vs: seq<Valued>, c: string) {
    exists i :: 0 <= i < |vs| && vs[i].asset.category == c
  }

  lemma HasCategoryStep(vs: seq<Valued>)
    requires vs != []
    ensures forall c :: HasCategory(vs, c) <==> HasCategory(vs[..|vs| - 1], c) || vs[|vs| - 1].asset.category == c
  {
    forall c | HasCategory(vs[..|vs| - 1], c) ensures HasCategory(vs, c) {
      var i :| 0 <= i < |vs| - 1 && vs[..|vs| - 1][i].asset.category == c;
      assert vs[i].asset.category == c;
    }
    forall c | HasCategory(vs, c) && vs[|vs| - 1].asset.category != c ensures HasCategory(vs[..|vs| - 1], c) {
      var i :| 0 <= i < |vs| && vs[i].asset.category == c;
      assert vs[..|vs| - 1][i].asset.category == c;
    }
  }

  /** The categories of the assets, each once, in the order they first occur
      (the key order of the `byCategory` object). */
  function CategoryOrder(vs: seq<Valued>): (ks: seq<string>)
    ensures forall i, j :: 0 <= i < j < |ks| ==> ks[i] != ks[j]
    ensures forall c :: c in ks <==> HasCategory(vs, c)
  {
    if vs == [] then []
    else
      var ks := CategoryOrder(vs[..|vs| - 1]);
      var c := vs[|vs| - 1].asset.category;
      HasCategoryStep(vs);
      if c in ks then ks else ks + [c]
  }

  /** The `byCategory` object as a map. */
  function ByCategory(vs: seq<Valued>): (m: map<string, real>)
    ensures forall c :: c in m <==> c in CategoryOrder(vs)
  {
    map c | c in CategoryOrder(vs) :: CategoryTotal(vs, c)
  }

  /** A category no asset has adds nothing. */
  lemma {:induction false} AbsentCategoryIsZero(vs: seq<Valued>, c: string)
    requires !HasCategory(vs, c)
    ensures CategoryTotal(vs, c) == 0.0
  {
    if vs != [] {
      HasCategoryStep(vs);
      AbsentCategoryIsZero(vs[..|vs| - 1], c);
    }
  }

  /** `byCategory[c] || 0`: the total of a category, 0 when it is absent. */
  function Lookup(m: map<string, real>, c: string): (r: real)
    ensures c in m ==> r == m[c]
    ensures c !in m ==> r == 0.0
  {
    if c in m then m[c] else 0.0
  }

  /** The `forEach` that fills `byCategory`: one pass over the assets, adding
      each EGP value to its category's entry, creating the entry on first use. */
  method GroupByCategory(vs: seq<Valued>) returns (byCategory: map<string, real>, keys: seq<string>)
    ensures keys == CategoryOrder(vs)
    ensures forall c :: c in byCategory <==> HasCategory(vs, c)
    ensures forall c :: c in byCategory ==> byCategory[c] == CategoryTotal(vs, c)
    ensures byCategory == ByCategory(vs)
  {
    byCategory := map[];
    keys := [];
    for i := 0 to |vs|
      invariant keys == CategoryOrder(vs[..i])
      invariant forall c :: c in byCategory <==> c in keys
      invariant forall c :: c in byCategory ==> byCategory[c] == CategoryTotal(vs[..i], c)
    {
      var c := vs[i].asset.category;
      CategoryStep(vs, i);
      if c in byCategory {
        byCategory := byCategory[c := byCategory[c] + vs[i].valueEGP];
      } else {
        AbsentCategoryIsZero(vs[..i], c);
        byCategory := byCategory[c := 0.0 + vs[i].valueEGP];
        keys := keys + [c];
      }
    }
    assert vs[..|vs|] == vs;
    ByCategoryFromTotals(byCategory, vs);
  }

  /** Taking asset `i` into account: its category joins the key order if new,
      and only that category's total grows, by its value. */
  lemma CategoryStep(vs: seq<Valued>, i: nat)
    requires i < |vs|
    ensures CategoryOrder(vs[..i + 1]) == if vs[i].asset.category in CategoryOrder(vs[..i]) then CategoryOrder(vs[..i]) else CategoryOrder(vs[..i]) + [vs[i].asset.category]
    ensures forall c :: CategoryTotal(vs[..i + 1], c) == CategoryTotal(vs[..i], c) + (if vs[i].asset.category == c then vs[i].valueEGP else 0.0)
  {
    assert vs[..i + 1][..i] == vs[..i];
  }

  /** A map with the categories as keys and their totals as values is `byCategory`. */
  lemma ByCategoryFromTotals(m: map<string, real>, vs: seq<Valued>)
    requires forall c :: c in m <==> HasCategory(vs, c)
    requires forall c :: c in m ==> m[c] == CategoryTotal(vs, c)
    ensures m == ByCategory(vs)
  {
  }

  /** The category totals of `keys`, summed in order. */
  function SumOverKeys(keys: seq<string>, vs: seq<Valued>): real {
    if keys == [] then 0.0 else SumOverKeys(keys[..|keys| - 1], vs) + CategoryTotal(vs, keys[|keys| - 1])
  }

  lemma {:induction false} SumOverKeysOfNone(keys: seq<string>)
    ensures SumOverKeys(keys, []) == 0.0
  {
    if keys != [] {
      SumOverKeysOfNone(keys[..|keys| - 1]);
    }
  }

  /** One more asset adds its value to the sum once when its category is among
      the (distinct) keys, and not at all otherwise. */
  lemma {:induction false} SumOverKeysStep(keys: seq<string>, vs: seq<Valued>)
    requires vs != []
    requires forall i, j :: 0 <= i < j < |keys| ==> keys[i] != keys[j]
    ensures SumOverKeys(keys, vs) == SumOverKeys(keys, vs[..|vs| - 1])
      + (if vs[|vs| - 1].asset.category in keys then vs[|vs| - 1].valueEGP else 0.0)
  {
    if keys != [] {
      var init := keys[..|keys| - 1];
      SumOverKeysStep(init, vs);
      assert keys == init + [keys[|keys| - 1]];
      assert vs[|vs| - 1].asset.category in keys <==> vs[|vs| - 1].asset.category in init || vs[|vs| - 1].asset.category == keys[|keys| - 1];
    }
  }

  /** The category totals over any list of distinct keys that covers every
      asset's category add up to the total value. */
  lemma {:induction false} CategoriesPartitionTotal(keys: seq<string>, vs: seq<Valued>)
    requires forall i, j :: 0 <= i < j < |keys| ==> keys[i] != keys[j]
    requires forall i :: 0 <= i < |vs| ==> vs[i].asset.category in keys
    ensures SumOverKeys(keys, vs) == TotalValue(vs)
  {
    if vs == [] {
      SumOverKeysOfNone(keys);
    } else {
      CategoriesPartitionTotal(keys, vs[..|vs| - 1]);
      SumOverKeysStep(keys, vs);
    }
  }

  /** The `byCategory` entries, in key order, add up to `totalAssets`. */
  lemma ByCategorySumsToTotal(vs: seq<Valued>)
    ensures SumOverKeys(CategoryOrder(vs), vs) == TotalValue(vs)
  {
    CategoriesPartitionTotal(CategoryOrder(vs), vs);
  }

  /** The portfolio figures the engine exposes. */
  datatype Figures = Figures(
    valued: seq<Valued>,
    totalAssets: real,
    totalDebts: real,
    totalLiabilities: real,
    netWorth: real,
    totalZakatable: real,
    netZakatableAfterDebts: real,
    totalZakat: real,
    byCategory: map<string, real>,
    categoryOrder: seq<string>,
    totalCash: real,
    totalGold: real,
    totalInvestments: real,
    totalRealEstate: real)

  function Max(x: real, y: real): real {
    if x >= y then x else y
  }

  /** The body of `computed`. */
  function Evaluate(assets: seq<Asset>, debts: seq<real>, exchange: RateTable): (f: Figures)
    ensures f.valued == ValueAll(assets, exchange) && f.byCategory == ByCategory(f.valued)
  {
    var vs := ValueAll(assets, exchange);
    var totalAssets := TotalValue(vs);
    var totalDebts := TotalDebts(debts);
    var totalZakatable := TotalZakatable(vs);
    var net := Max(totalZakatable - totalDebts, 0.0);
    var byCategory := ByCategory(vs);
    Figures(vs, totalAssets, totalDebts, totalDebts, totalAssets - totalDebts, totalZakatable, net, net * ZakatRate,
      byCategory, CategoryOrder(vs),
      Lookup(byCategory, Cash), Lookup(byCategory, PreciousMetals),
      Lookup(byCategory, Investments) + Lookup(byCategory, Funds) + Lookup(byCategory, Business),
      Lookup(byCategory, RealEstate))
  }

  /** `computed` with its one loop: the figures of `Evaluate`, with the
      category grouping done by the `forEach`. */
  method Compute(assets: seq<Asset>, debts: seq<real>, exchange: RateTable) returns (f: Figures)
    ensures f == Evaluate(assets, debts, exchange)
  {
    var vs := ValueAll(assets, exchange);
    var byCategory, keys := GroupByCategory(vs);
    var totalAssets := TotalValue(vs);
    var totalDebts := TotalDebts(debts);
    var totalZakatable := TotalZakatable(vs);
    var net := if totalZakatable - totalDebts >= 0.0 then totalZakatable - totalDebts else 0.0;
    var totalCash := Lookup(byCategory, Cash);
    var totalGold := Lookup(byCategory, PreciousMetals);
    var totalInvestments := Lookup(byCategory, Investments) + Lookup(byCategory, Funds) + Lookup(byCategory, Business);
    var totalRealEstate := Lookup(byCategory, RealEstate);
    f := Figures(vs, totalAssets, totalDebts, totalDebts, totalAssets - totalDebts, totalZakatable, net, net * ZakatRate,
      byCategory, keys, totalCash, totalGold, totalInvestments, totalRealEstate);
  }

  /** The totals: assets are the sum of EGP values, liabilities are the debts,
      net worth is their difference, and the zakat is 2.5% of the zakatable
      total less the debts, never below 0. Each breakdown figure is the sum
      of the EGP values of its categories (investments: the investment, fund
      and business keys together). */
  lemma EvaluateTotals(assets: seq<Asset>, debts: seq<real>, exchange: RateTable)
    ensures var f := Evaluate(assets, debts, exchange);
      && f.totalAssets == TotalValue(f.valued)
      && f.totalLiabilities == f.totalDebts == TotalDebts(debts)
      && f.netWorth == f.totalAssets - f.totalLiabilities
      && f.netZakatableAfterDebts >= 0.0
      && f.netZakatableAfterDebts >= f.totalZakatable - f.totalDebts
      && (f.netZakatableAfterDebts == 0.0 || f.netZakatableAfterDebts == f.totalZakatable - f.totalDebts)
      && f.totalZakat * 40.0 == f.netZakatableAfterDebts
    ensures var f := Evaluate(assets, debts, exchange);
      && f.totalCash == CategoryTotal(f.valued, Cash)
      && f.totalGold == CategoryTotal(f.valued, PreciousMetals)
      && f.totalInvestments == CategoryTotal(f.valued, Investments) + CategoryTotal(f.valued, Funds) + CategoryTotal(f.valued, Business)
      && f.totalRealEstate == CategoryTotal(f.valued, RealEstate)
  {
    var vs := ValueAll(assets, exchange);
    LookupIsCategoryTotal(vs, Cash);
    LookupIsCategoryTotal(vs, PreciousMetals);
    LookupIsCategoryTotal(vs, Investments);
    LookupIsCategoryTotal(vs, Funds);
    LookupIsCategoryTotal(vs, Business);
    LookupIsCategoryTotal(vs, RealEstate);
  }

  /** With no negative debt, the net base never exceeds the zakatable total
      when that is positive, and the zakat never exceeds the sum of the
      per-asset zakat due; the two agree when there is no debt. */
  lemma NetZakatAtMostPerAssetSum(assets: seq<Asset>, debts: seq<real>, exchange: RateTable)
    requires forall i :: 0 <= i < |debts| ==> debts[i] >= 0.0
    requires TotalZakatable(ValueAll(assets, exchange)) >= 0.0
    ensures var f := Evaluate(assets, debts, exchange);
      && f.netZakatableAfterDebts <= f.totalZakatable
      && f.totalZakat <= TotalDue(f.valued)
      && (TotalDebts(debts) == 0.0 ==> f.totalZakat == TotalDue(f.valued))
  {
    var vs := ValueAll(assets, exchange);
    TotalDebtsNonNegative(debts);
    TotalDueIsRateOfZakatable(vs);
  }

  /** With debts the two figures differ: a zakatable 100000 and a debt of
      20000 give 2000 of zakat against 2500 due asset by asset. */
  lemma NetZakatDiffersFromPerAssetSum(a: Asset, exchange: RateTable)
    requires a.value == 100000.0 && a.currency == BaseCode && a.zakatable && a.zakatBasis == Some(1.0)
    ensures var f := Evaluate([a], [20000.0], exchange);
      && f.totalAssets == 100000.0 && f.totalZakatable == 100000.0
      && f.netZakatableAfterDebts == 80000.0 && f.totalZakat == 2000.0
      && f.netWorth == 80000.0
      && TotalDue(f.valued) == 2500.0
  {
    var vs := ValueAll([a], exchange);
    assert |vs| == 1 && vs[..|vs| - 1] == [];
    assert vs[0].valueEGP == 100000.0 && vs[0].zakatableValueEGP == 100000.0;
    assert TotalValue(vs) == 100000.0;
    assert TotalZakatable(vs) == 100000.0;
    var ds := [20000.0];
    assert ds[..|ds| - 1] == [];
  }

  /** The six category keys the program knows. */
  predicate KnownCategory(c: string) {
    c == Cash || c == PreciousMetals || c == Investments || c == Funds || c == Business || c == RealEstate
  }

  /** The totals of the six known categories. */
  function KnownCategoryTotals(vs: seq<Valued>): real {
    CategoryTotal(vs, Cash) + CategoryTotal(vs, PreciousMetals)
      + (CategoryTotal(vs, Investments) + CategoryTotal(vs, Funds) + CategoryTotal(vs, Business))
      + CategoryTotal(vs, RealEstate)
  }

  lemma {:induction false} KnownCategoriesPartitionTotal(vs: seq<Valued>)
    requires forall i :: 0 <= i < |vs| ==> KnownCategory(vs[i].asset.category)
    ensures KnownCategoryTotals(vs) == TotalValue(vs)
  {
    if vs != [] {
      KnownCategoriesPartitionTotal(vs[..|vs| - 1]);
    }
  }

  lemma LookupIsCategoryTotal(vs: seq<Valued>, c: string)
    ensures Lookup(ByCategory(vs), c) == CategoryTotal(vs, c)
  {
    if !HasCategory(vs, c) {
      AbsentCategoryIsZero(vs, c);
    }
  }

  /** The breakdown: when every asset has one of the six known categories,
      cash, gold, investments (the investment, fund and business keys
      together) and real estate add up to the total. */
  lemma BreakdownCoversTotal(assets: seq<Asset>, debts: seq<real>, exchange: RateTable)
    requires forall i :: 0 <= i < |assets| ==> KnownCategory(assets[i].category)
    ensures var f := Evaluate(assets, debts, exchange);
      f.totalCash + f.totalGold + f.totalInvestments + f.totalRealEstate == f.totalAssets
  {
    var vs := ValueAll(assets, exchange);
    forall i | 0 <= i < |vs| ensures KnownCategory(vs[i].asset.category) {
      assert vs[i].asset == assets[i];
    }
    KnownCategoriesPartitionTotal(vs);
    LookupIsCategoryTotal(vs, Cash);
    LookupIsCategoryTotal(vs, PreciousMetals);
    LookupIsCategoryTotal(vs, Investments);
    LookupIsCategoryTotal(vs, Funds);
    LookupIsCategoryTotal(vs, Business);
    LookupIsCategoryTotal(vs, RealEstate);
  }

  /** A portfolio of non-negative values with bases between 0 and 1 has a
      non-negative total and zakatable total, the latter at most the former. */
  lemma {:induction false} NonNegativePortfolio(assets: seq<Asset>, exchange: RateTable)
    requires forall i :: 0 <= i < |assets| ==> assets[i].value >= 0.0
    requires forall i :: 0 <= i < |assets| ==> assets[i].zakatBasis.Some? ==> 0.0 <= assets[i].zakatBasis.value <= 1.0
    ensures 0.0 <= TotalZakatable(ValueAll(assets, exchange)) <= TotalValue(ValueAll(assets, exchange))
  {
    if assets != [] {
      var init := assets[..|assets| - 1];
      NonNegativePortfolio(init, exchange);
      ValuateBounds(assets[|assets| - 1], exchange);
      assert ValueAll(assets, exchange)[..|assets| - 1] == ValueAll(init, exchange);
    }
  }
}
