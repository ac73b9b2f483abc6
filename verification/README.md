# Wealth and zakat tracker: a Dafny model of the valuation engine

This project models, in Dafny, the engine of `financial-tracker.jsx`. That
file is a single-page tracker of personal wealth in Egyptian pounds (EGP).
The model covers these parts:

- the asset list, the debt list and the yearly snapshot history, and the
  handlers that change them;
- the table of exchange rates to EGP: conversion, the rebuild from stored
  data and the refresh from a rate feed;
- the 24K gold gram price: a feed quote, manual entry and saving it;
- the `computed` figures: per-asset EGP value, zakatable share and zakat
  due, the portfolio totals, debts netted off the zakatable total (never
  below 0), zakat at 2.5%, and the per-category breakdown;
- the asset form's gold rules: karat weights, the pure 24K weight, the 85 g
  nisab test, the value derived from the weights, the 24K weight inferred
  from a stored value, and the category and karat-weight updates;
- `parseLocalizedNumber`, which reads Arabic-Indic digits and separators;
- the slices of JavaScript's `Number()`, `trim` and `toFixed` that those
  rules depend on.

Amounts are exact reals. Every `Number()` coercion is written out: a
NaN or infinite result is `None` or `NotFinite`. Every `||` fallback is
written out too. `toFixed` rounds half away from zero.

The modules follow the structure of the source file:

| module | file | what it holds |
|---|---|---|
| `JsNumber` | js_number.dfy | `Number(string)`, `trim`, `toFixed` |
| `LocalizedNumber` | localized.dfy | `parseLocalizedNumber` |
| `Filtering` | filtering.dfy | `Array.prototype.filter` and its properties |
| `Assets` | assets.dfy | the asset record and category keys |
| `Currency` | currency.dfy | the rate table, `toEGP`, the rate and gold feeds |
| `GoldValuation` | gold.dfy | the gold rules of `AssetForm` |
| `ZakatEngine` | zakat.dfy | the `computed` memo |
| `Snapshots` | snapshots.dfy | `saveSnapshot`'s upsert and `snapData` |
| `Tracker` | tracker.dfy | the component's state as a class, and its handlers |

The component's state is the class `Tracker.Tracker`. Each state-changing
handler is a method. Each method states the whole new state, naming what
changes and what stays. Its class invariant `Valid` says that every key
of the rate table is a known currency code. Only the known codes can be
edited, refreshed or loaded. The invariant is what makes
`Tracker.UnknownCurrencyAtFaceValue` apply to the live table: an asset whose
currency is not a known code is always counted at its face value.

Where the code's behaviour is easy to misread, the model follows the code:

- loading keeps negative debts and drops only non-finite ones;
- a zakat basis of 0 counts as 1, because the code uses `||`;
- the nisab test compares the pure weight after rounding to 4 decimals, so
  it is met exactly when the unrounded weight is at least 84.99995 g;
- the history chart labels the live figures with the literal year 2026,
  whatever the current year is.

## Model

| member | source | states |
|---|---|---|
| JsNumber.Trim | financial-tracker.jsx:137 | the trimmed text neither starts nor ends with JavaScript white space |
| JsNumber.TrimIsInfix | financial-tracker.jsx:137 | the trimmed text is the piece of the input after its white-space prefix, and only white space follows it; with the contract of `Trim` this fixes the result |
| JsNumber.TrimKeepsUnpadded | financial-tracker.jsx:137 | trimming text that has no padding returns it unchanged |
| JsNumber.StringToNumberOfDecimal | financial-tracker.jsx:141 | `Number` of the decimal numeral of n is n |
| JsNumber.StringToNumberOfNegativeDecimal | financial-tracker.jsx:141 | `Number` of `-` followed by the numeral of n is -n |
| JsNumber.UnsignedDecimalOfDigits | financial-tracker.jsx:141 | a non-empty string of ASCII digits reads as the value of those digits |
| JsNumber.ToFixed | financial-tracker.jsx:1066 | `Number(x.toFixed(d))` is within half a unit in the d-th decimal of x and keeps the sign of x |
| LocalizedNumber.AsciiDigit | financial-tracker.jsx:138 | an Arabic-Indic digit becomes the ASCII digit at the same index; any other character is kept |
| LocalizedNumber.NormalizedIsPlain | financial-tracker.jsx:136-140 | the text handed to `Number` holds no Arabic-Indic digit, no ٫, no ٬ or comma, and no white space |
| LocalizedNumber.NormalizeIsRewriteEach | financial-tracker.jsx:136-140 | trim followed by the three replacements equals rewriting each character on its own, so the trim changes nothing |
| LocalizedNumber.ArabicIndicNumeral | financial-tracker.jsx:134-143 | n written in Arabic-Indic digits parses to n |
| LocalizedNumber.SeparatorIgnored | financial-tracker.jsx:140 | inserting ٬, a comma or white space anywhere does not change the parsed number |
| LocalizedNumber.LocalizedCharacterRead | financial-tracker.jsx:138-139 | each character reads like its replacement: an Arabic-Indic digit like its ASCII digit, ٫ like a decimal point |
| Filtering.FilterMembers | financial-tracker.jsx:355 | an element is kept exactly when it occurs in the input and passes the test |
| Filtering.FilterIsSubsequence | financial-tracker.jsx:355 | filtering keeps the input's order |
| Filtering.FilterCounts | financial-tracker.jsx:926 | a passing element is kept as many times as it occurs, a failing one not at all |
| Filtering.FilterAppend | financial-tracker.jsx:355 | filtering a concatenation is concatenating the filtered parts |
| Filtering.FilterKeepsNone | financial-tracker.jsx:355 | when no element passes, the result is empty |
| Filtering.FilterKeepsAll | financial-tracker.jsx:355 | when every element passes, the filter returns the input |
| Assets.NewAsset | financial-tracker.jsx:1044 | the record the add form starts from: cash, value 0, EGP, zakatable, not cash flow, basis 1, no weights |
| Assets.WithWeight | financial-tracker.jsx:1121 | one karat field is replaced, the other two and every other field are kept |
| Currency.KnownCodesAreInitialKeys | financial-tracker.jsx:7-19 | the known codes (EGP and the FX codes) are exactly the initial table's keys, and every initial rate is positive |
| Currency.ToEGP | financial-tracker.jsx:306-311 | EGP is returned as is; another currency with a positive rate is multiplied by it; a missing or non-positive rate leaves the value unconverted |
| Currency.ToEGPIsScaling | financial-tracker.jsx:306-311 | conversion multiplies by a positive rate, so it keeps the sign and maps 0 and only 0 to 0 |
| Currency.ToEGPSingleRate | financial-tracker.jsx:308-310 | with a one-entry table the rate is applied only when positive; with an empty table the value is unchanged |
| Currency.MergeStoredRates | financial-tracker.jsx:181-188 | the rebuilt table has exactly the initial codes; each has its stored rate when finite and positive and its initial rate otherwise; all rates are positive |
| Currency.RefreshAllEffect | financial-tracker.jsx:281-283 | the loop over FX codes sets exactly the codes the feed quotes with a non-zero rate to EGP-per-dollar divided by that rate; every other entry is kept |
| Currency.DerivedAt | financial-tracker.jsx:279-283 | the refreshed table holds the current codes plus EGP, USD and every quoted FX code, each at its derived rate |
| Currency.DerivedIsFrom | financial-tracker.jsx:279-283 | the refreshed table meets the full description: EGP 1, USD the feed's EGP rate, quoted codes by quotient, others kept, no other key |
| Currency.DeriveExchange | financial-tracker.jsx:276-283 | a new table is produced exactly when the feed has a non-zero EGP rate, and it is the refreshed table described above |
| Currency.DerivedConvertsThroughDollars | financial-tracker.jsx:279-283 | after a refresh, an amount in a quoted currency converts to amount × EGP-per-dollar ÷ units-per-dollar |
| Currency.DerivedKeepsRatesPositive | financial-tracker.jsx:279-283 | a refresh with positive feed rates from a table of positive rates yields only positive rates |
| Currency.UsdPerOunce | financial-tracker.jsx:246 | the first of `price`, `price_usd`, `xau` that is present and non-zero wins, in that order; the result is 0 exactly when none is |
| Currency.EgpPerUsd | financial-tracker.jsx:251 | the dollar rate used is never 0; it is the table's USD rate when that is present and non-zero, and the initial 47.9 otherwise |
| Currency.GramPriceFromQuote | financial-tracker.jsx:246-259 | a price results exactly when the ounce price and the dollar rate are positive; it is within half a piastre of ounce price ÷ 31.1034768 × dollar rate |
| GoldValuation.ToPositiveNumber | financial-tracker.jsx:1059-1062 | a weight field counts as its number when that is finite and positive, and as 0 otherwise |
| GoldValuation.BadWeightsCountZero | financial-tracker.jsx:1059-1065 | a missing, blank, non-positive or non-numeric weight counts as 0 |
| GoldValuation.PureWeight24 | financial-tracker.jsx:1066 | for non-negative weights the pure weight is at least the 24K weight and at most the sum of the weights |
| GoldValuation.FormPureWeight | financial-tracker.jsx:1063-1066 | the form's unrounded pure weight is never negative |
| GoldValuation.DisplayedPureWeight | financial-tracker.jsx:1066 | the shown pure weight is within half a unit in the 4th decimal of the exact weight |
| GoldValuation.NisabThreshold | financial-tracker.jsx:1066-1067 | the nisab is met exactly when the unrounded pure weight is at least 84.99995 g |
| GoldValuation.NisabAtThreshold | financial-tracker.jsx:1067 | 85 g of pure gold or more meets the nisab; less than 84.99995 g does not |
| GoldValuation.PureWeightExamples | financial-tracker.jsx:1066-1067 | 100 g of 21K is 87.5 g pure and meets the nisab; 85 g of 18K is 63.75 g pure |
| GoldValuation.NisabRoundingEdge | financial-tracker.jsx:1066-1067 | 84.99995 g of 24K meets the nisab although it is below 85 g; 84.999 g does not |
| GoldValuation.GoldValue | financial-tracker.jsx:1073-1076 | with a positive price and weight the value is within half a piastre of weight × price; otherwise it is 0 |
| GoldValuation.RecomputeGoldValue | financial-tracker.jsx:1070-1081 | a gold record gets the value of its pure weight at the gram price and currency EGP; nothing else changes; other records are untouched |
| GoldValuation.RecomputeIdempotent | financial-tracker.jsx:1070-1081 | recomputing a second time changes nothing |
| GoldValuation.GoldValueExample | financial-tracker.jsx:1070-1081 | 100 g of 21K at 4000 per gram is valued at 350000 EGP |
| GoldValuation.ToFixedOfCents | financial-tracker.jsx:1075 | rounding to 2 decimals keeps an amount already in whole piastres |
| GoldValuation.InferGoldWeights | financial-tracker.jsx:1083-1094 | a gold record with no weight field gets blank 18K and 21K weights, currency EGP and a 24K weight of value ÷ price to 2 decimals (blank without a positive value and price); any other record is untouched |
| GoldValuation.InferIdempotent | financial-tracker.jsx:1083-1094 | after inference a gold record has weight fields, so inferring again changes nothing |
| GoldValuation.InferredWeightMatchesValue | financial-tracker.jsx:1089-1092 | the inferred pure weight is within half a unit in the 2nd decimal of value ÷ price |
| GoldValuation.OpenForm | financial-tracker.jsx:1070-1094 | the form opened on a record keeps its identity, category and zakat fields; a gold record ends with weight fields and currency EGP |
| GoldValuation.OpenFormValuesInferredWeight | financial-tracker.jsx:1070-1094 | the opened gold form is valued at its inferred pure weight |
| GoldValuation.OpenFormKeepsLegacyValue | financial-tracker.jsx:1070-1094 | a gold record with a value and no weights reopens at nearly the same value: off by at most (price + 1)/200 |
| GoldValuation.OpenFormAsWritten | financial-tracker.jsx:1070-1094 | as the mount order has it, non-gold records are untouched |
| GoldValuation.OpenFormAsWrittenDropsLegacyValue | financial-tracker.jsx:1070-1094 | as written, a gold record without weights reopens with value 0 and a blank 24K weight |
| GoldValuation.LegacyGoldRecordExample | financial-tracker.jsx:1070-1094 | 100000 EGP at 4000 per gram: as written the value becomes 0; the corrected order infers 25 g and keeps 100000 |
| GoldValuation.Defaulted | financial-tracker.jsx:1111-1113 | a missing weight becomes blank and a present one is kept, so the weight that counts is the same |
| GoldValuation.UpdateCategory | financial-tracker.jsx:1096-1116 | the category is set; the basis becomes 0.25 for funds and 1 otherwise; a switch to gold sets EGP and gives each missing weight a blank value (so the pure weight is kept) and changes nothing else; other switches change nothing else |
| GoldValuation.SwitchToGoldSkipsInference | financial-tracker.jsx:1083-1116 | after a switch to gold the record has weight fields, so the inference leaves it alone |
| GoldValuation.WeightFromInput | financial-tracker.jsx:1118-1129 | empty input gives blank; a finite number of at least 0 is stored as that number; anything else is stored as the raw text |
| GoldValuation.WeightInputReadsBack | financial-tracker.jsx:1118-1129 | the stored field counts as the same weight as the raw text would |
| GoldValuation.UpdateGoldWeightByKarat | financial-tracker.jsx:1118-1129 | only the chosen karat field changes, to the stored form of the input |
| GoldValuation.KaratEntryChangesPureWeight | financial-tracker.jsx:1063-1066 | a new k-karat entry changes the pure weight by the change in that weight × k/24 |
| ZakatEngine.ZakatBasisFactor | financial-tracker.jsx:317 | a non-zero basis is used as is; a missing basis or 0 counts as 1 |
| ZakatEngine.Valuate | financial-tracker.jsx:314-319 | the EGP value is the converted value; the zakatable share is value × basis factor when zakatable and 0 otherwise; zakat due is 2.5% of the share |
| ZakatEngine.ValuateBounds | financial-tracker.jsx:314-319 | for a non-negative value and a basis in [0, 1], 0 ≤ share ≤ value and due × 40 = share |
| ZakatEngine.ValueAll | financial-tracker.jsx:314-319 | one valued entry per asset, in order |
| ZakatEngine.TotalDueIsRateOfZakatable | financial-tracker.jsx:318-325 | the per-asset dues add up to 2.5% of the zakatable total |
| ZakatEngine.TotalDebtsNonNegative | financial-tracker.jsx:322 | non-negative debts have a non-negative total |
| ZakatEngine.TotalValueNonNegative | financial-tracker.jsx:321-325 | non-negative values and shares have non-negative totals |
| ZakatEngine.CategoryOrder | financial-tracker.jsx:329-333 | the breakdown's keys have no repeats, and they are exactly the categories that occur |
| ZakatEngine.ByCategory | financial-tracker.jsx:329-332 | the breakdown has a key exactly for each category that occurs |
| ZakatEngine.AbsentCategoryIsZero | financial-tracker.jsx:335-338 | a category no asset has totals 0 |
| ZakatEngine.Lookup | financial-tracker.jsx:335-338 | a category's breakdown entry when present, otherwise 0 |
| ZakatEngine.LookupIsCategoryTotal | financial-tracker.jsx:335-338 | looking up any category gives the sum of that category's EGP values |
| ZakatEngine.GroupByCategory | financial-tracker.jsx:329-332 | the loop builds the map with keys in first-seen order, one key per occurring category, each holding its category total |
| ZakatEngine.CategoryStep | financial-tracker.jsx:330-331 | one step of the loop appends a new category to the key order and adds the value to its category's total only |
| ZakatEngine.ByCategoryFromTotals | financial-tracker.jsx:329-332 | a map with the occurring categories as keys and their totals as values is the breakdown |
| ZakatEngine.CategoriesPartitionTotal | financial-tracker.jsx:329-332 | summing the totals of distinct keys that cover every asset's category gives the total value |
| ZakatEngine.ByCategorySumsToTotal | financial-tracker.jsx:321-332 | the breakdown's totals add up to the total assets |
| ZakatEngine.Evaluate | financial-tracker.jsx:313-341 | the figures hold one valued entry per asset and the per-category breakdown of them (the totals and the four breakdown figures are stated in `EvaluateTotals`) |
| ZakatEngine.Compute | financial-tracker.jsx:313-341 | the memo's loops produce exactly the figures `Evaluate` describes |
| ZakatEngine.EvaluateTotals | financial-tracker.jsx:321-327 | total assets is the sum of EGP values; liabilities equal total debts; net worth is assets minus liabilities; the net zakatable base is at least 0 and at least zakatable minus debts, and it equals one of them; zakat × 40 = that base; cash, gold and real estate are their categories' EGP totals, and investments is the investment, fund and business totals together |
| ZakatEngine.NetZakatAtMostPerAssetSum | financial-tracker.jsx:325-327 | with non-negative debts the net base is at most the zakatable total and the zakat at most the sum of per-asset dues, with equality when there are no debts |
| ZakatEngine.NetZakatDiffersFromPerAssetSum | financial-tracker.jsx:325-327 | 100000 EGP of cash and 20000 of debt: zakat 2000, net worth 80000, while the per-asset dues show 2500 |
| ZakatEngine.KnownCategoriesPartitionTotal | financial-tracker.jsx:335-338 | when every asset has one of the six known categories, their totals add up to the total value |
| ZakatEngine.BreakdownCoversTotal | financial-tracker.jsx:335-338 | then cash + gold + investments + real estate equals the total assets |
| ZakatEngine.NonNegativePortfolio | financial-tracker.jsx:314-325 | non-negative values and bases in [0, 1] give 0 ≤ zakatable total ≤ total value |
| Snapshots.SnapshotOf | financial-tracker.jsx:344 | the snapshot carries the year and the current assets, liabilities, net worth and zakat |
| Snapshots.FindYear | financial-tracker.jsx:346 | the index of the first snapshot of that year, or -1 exactly when there is none |
| Snapshots.InsertByYear | financial-tracker.jsx:348 | the result is the input with one more element |
| Snapshots.SortByYear | financial-tracker.jsx:348 | the sort returns a permutation of its input |
| Snapshots.InsertKeepsSorted | financial-tracker.jsx:348 | inserting into a year-sorted list keeps it sorted |
| Snapshots.SortIsSorted | financial-tracker.jsx:348 | the sort's result is sorted by year |
| Snapshots.InsertLatest | financial-tracker.jsx:348 | an element no earlier than every entry goes at the end |
| Snapshots.SortOfSorted | financial-tracker.jsx:348 | sorting a sorted list returns it unchanged |
| Snapshots.InsertKeepsYearOrder | financial-tracker.jsx:348 | inserting into a sorted list places the new entry after every entry of its own year |
| Snapshots.SortKeepsYearOrder | financial-tracker.jsx:348 | the sort is stable: the entries of any one year come out in their input order |
| Snapshots.UniqueYearsNoRepeats | financial-tracker.jsx:345-349 | a list with one snapshot per year holds no element twice |
| Snapshots.PermutationKeepsUniqueYears | financial-tracker.jsx:348 | a permutation of a list with one snapshot per year has one snapshot per year |
| Snapshots.Upsert | financial-tracker.jsx:345-349 | a snapshot of a stored year replaces the first one of that year; otherwise it is appended and the list sorted by year |
| Snapshots.UpsertExistingYear | financial-tracker.jsx:347 | replacing keeps the length and changes only that year's position |
| Snapshots.UpsertNewYear | financial-tracker.jsx:348 | a new year adds exactly that snapshot and leaves the list sorted |
| Snapshots.UpsertLatestYear | financial-tracker.jsx:348 | on a sorted list, a snapshot of a later year is appended at the end |
| Snapshots.UpsertKeepsInvariant | financial-tracker.jsx:345-349 | one snapshot per year is kept, and so is sortedness |
| Snapshots.InsertSamePlace | financial-tracker.jsx:348 | two snapshots of the same year are inserted at the same position, with the rest of the list around them unchanged |
| Snapshots.LaterSaveWins | financial-tracker.jsx:345-349 | on any stored list, even one with a repeated year, two saves of the same year give what saving only the later one gives |
| Snapshots.UpsertKeepsSorted | financial-tracker.jsx:345-349 | saving keeps a list sorted by year, whether or not it has a repeated year |
| Snapshots.SaveSameYearTwice | financial-tracker.jsx:343-351 | two saves of the same year leave one snapshot, the latter |
| Snapshots.StoredPoints | financial-tracker.jsx:355 | one chart point per stored snapshot, in order |
| Snapshots.HistorySeries | financial-tracker.jsx:353-356 | the first point is the live figures labelled 2026 without liabilities; the rest are the stored snapshots of every other year |
| Snapshots.HistorySeriesContents | financial-tracker.jsx:353-356 | only the first point is labelled 2026 or lacks liabilities; every stored snapshot of another year appears, in stored order |
| Snapshots.HistoryWithoutLiveYear | financial-tracker.jsx:353-356 | with no 2026 snapshot stored, the chart shows all snapshots after the live point |
| Tracker.FiniteValues | financial-tracker.jsx:176 | the loaded debt list is no longer than the stored one (its contents and order are stated in the next three rows) |
| Tracker.FiniteValuesCounts | financial-tracker.jsx:176 | each finite debt is loaded as many times as it is stored |
| Tracker.FiniteValuesAppend | financial-tracker.jsx:176 | loading a list is loading its parts in turn, so the kept debts keep their stored order |
| Tracker.FiniteValuesKeeps | financial-tracker.jsx:176 | a number is a loaded debt exactly when it is a finite stored debt |
| Tracker.FiniteValuesOfFinite | financial-tracker.jsx:176 | a stored list of finite debts loads unchanged |
| Tracker.RemoveAt | financial-tracker.jsx:878 | deleting at a valid index removes that element and shifts the rest; another index changes nothing |
| Tracker.ReplaceById | financial-tracker.jsx:1035 | each asset with the edited id is replaced by the edited record; the others stay in place |
| Tracker.RemoveById | financial-tracker.jsx:926 | exactly the assets with another id remain, each as many times as before, in order |
| Tracker.TotalDebtsAppend | financial-tracker.jsx:322 | the debt total of two lists joined is the sum of their totals |
| Tracker.DeleteDebtLowersTotal | financial-tracker.jsx:878 | deleting a debt lowers the debt total by that debt |
| Tracker.AddedDebtLowersNetWorth | financial-tracker.jsx:479-484 | adding a debt of v lowers net worth by v and leaves total assets unchanged |
| Tracker.SaveIsIdempotentOnSameYear | financial-tracker.jsx:343-351 | on any stored list, including one loaded with a repeated year, saving the same snapshot twice gives the same list as saving it once |
| Tracker.SnapshotPresent | financial-tracker.jsx:343-351 | after saving, the snapshot is in the list and its year is found |
| Tracker.UnknownCurrencyAtFaceValue | financial-tracker.jsx:306-311 | under a table holding only known codes, an asset in any other currency counts at its face value |
| Tracker.DerivedKeepsKnownCodes | financial-tracker.jsx:279-283 | a refresh adds no key outside EGP and the FX codes |
| Tracker.Tracker.constructor | financial-tracker.jsx:112-128 | the initial state: no assets, debts or snapshots; the initial rates; year 2026; gold price 0 and idle; no stamps; empty debt input |
| Tracker.Tracker.SetNewDebtAmount | financial-tracker.jsx:852 | the debt input becomes the typed text; nothing else changes |
| Tracker.Tracker.AddDebt | financial-tracker.jsx:479-484 | a finite positive parsed amount is appended and the input cleared; otherwise nothing changes |
| Tracker.Tracker.DeleteDebt | financial-tracker.jsx:878 | the debt at that index is removed; nothing else changes |
| Tracker.Tracker.AddAsset | financial-tracker.jsx:1044 | the record is appended; nothing else changes |
| Tracker.Tracker.UpdateAsset | financial-tracker.jsx:1035 | the assets with the record's id are replaced; nothing else changes |
| Tracker.Tracker.DeleteAsset | financial-tracker.jsx:926 | the assets with that id are removed; nothing else changes |
| Tracker.Tracker.SaveSnapshot | financial-tracker.jsx:343-351 | the current year's snapshot of the current figures is upserted; the year advances by 1; one snapshot per year is kept, and a sorted list stays sorted even with a repeated year |
| Tracker.Tracker.SetYear | financial-tracker.jsx:840 | the year becomes the entered one; nothing else changes |
| Tracker.Tracker.EditRate | financial-tracker.jsx:728 | a finite entry sets that code's rate; a NaN entry leaves it without a usable rate; the table keeps only known codes |
| Tracker.Tracker.RefreshRates | financial-tracker.jsx:271-293 | a feed with a non-zero EGP rate replaces the table by the refreshed one and stamps it; anything else keeps the table and reports failure |
| Tracker.Tracker.RefreshGoldPrice | financial-tracker.jsx:240-269 | a quote that yields a price sets the rounded price, the stamp and status ok; anything else keeps price and stamp and reports failure |
| Tracker.Tracker.SetGoldPrice | financial-tracker.jsx:752 | the price becomes the entered number, or 0 when it is not a finite number |
| Tracker.Tracker.SaveGoldPrice | financial-tracker.jsx:232-238 | a positive price gets the stamp and status saved; otherwise nothing changes |
| Tracker.Tracker.Load | financial-tracker.jsx:169-197 | each stored field replaces the state only when present and well formed: assets, finite debts, snapshots, finite year, the merged rate table, string stamps, and a finite positive gold price |
| Tracker.Tracker.LoadPrices | financial-tracker.jsx:181-194 | the price part of loading: the merged rate table, the rates stamp, a finite positive gold price and the gold stamp |

## Left out

- Rendering is not modelled. This covers tabs, language switching,
  notices, charts and the pie chart's `Math.round`, `Intl` formatting,
  the Excel/CSV export, and the edit and add dialogs' open and closed
  flags.
- Session storage and JSON are not modelled. `Load` receives the stored
  bundle already decoded. A missing entry or a JSON parse error means no
  `Load` call at all. The effect that writes the state back is not
  modelled.
- The network is not modelled. A rate-feed or gold-feed answer is a
  parameter. A failed fetch is `None`. Feed rates and ounce prices are
  given as numbers; string-valued feed fields are not modelled.
- The clock is not modelled. The timestamp text is a parameter. The
  15-minute gold refresh timer and the busy flags of the two fetches are
  left out.
- Floating point is not modelled. Arithmetic is exact, so IEEE rounding,
  overflow to Infinity and `toFixed` on binary doubles at exact half-way
  cases are not captured.
- Tracker.Tracker.EditRate: a NaN rate is modelled as the code's key being
  absent. `toEGP` treats both alike. An infinite rate is not modelled.
- Tracker.Tracker.SetYear: takes an integer. A fractional year typed into
  the field is not modelled.
- Tracker.Tracker.Load: a stored year is modelled as an integer. Stored
  assets and snapshots are taken as they come, as the code does, but they
  must fit the model's record types. Records with missing or string-typed
  fields are not modelled.
- Tracker.Tracker.RefreshRates: the status is kept as a datatype, not as
  the localized message text. The effect that rewrites the status when a
  loaded stamp arrives is not modelled.
- Tracker.Tracker.SetGoldPrice: a price field that holds NaN is modelled
  as 0. Every rule that reads the price treats the two alike.
- Free-text fields are not modelled: the English name, the description and
  the notes. No rule depends on them.
- `d || 0` in the debt total is the identity in the model. Every debt in
  the state is finite, because `AddDebt` checks it and `Load` filters it.
- JavaScript object key order is modelled by `ZakatEngine.CategoryOrder`
  as first-seen order. This holds because no category key is an integer
  index.

## Findings

| source | as written | input that shows it | evidently intended | confidence | as-written member | corrected member |
|---|---|---|---|---|---|---|
| financial-tracker.jsx:1070-1094 | The recompute effect is declared before the inference effect, so on mount it runs first. It sets the value of a gold record that has no weight fields to 0. The inference then sees value 0 and leaves the 24K weight blank. | A precious-metals asset worth 100000 EGP with no weight fields, opened at 4000 EGP per gram: the form shows value 0 and saving it stores 0. | Infer the 24K weight from the stored value first (25 g), then value it (100000 EGP). | not executed | GoldValuation.OpenFormAsWritten, GoldValuation.LegacyGoldRecordExample | GoldValuation.OpenForm, GoldValuation.OpenFormKeepsLegacyValue |
