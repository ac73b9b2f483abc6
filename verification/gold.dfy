/** Gold valuation in the asset form: karat weights read as grams, the pure
    24K equivalent, the 85 g nisab test, the value derived from the weights
    and the 24K gram price, the inference of a 24K weight from a stored value,
    and the two record updates the form offers (category and karat weight).

    The gram price is a finite number; a price the program would hold as NaN
    behaves as 0 in every rule here, and is modelled as 0. */
module GoldValuation {
  import opened JsNumber
  import opened Assets

  /** The nisab: 85 grams of pure gold. */
  const NisabGrams: real := 85.0

  /** `Number(field)` of a weight field, None when that is NaN or infinite. */
  function FieldNumber(f: WeightField): Option<real> {
    match f
    case Unset => None
    case Blank => Some(0.0)
    case Weight(w) => Some(w)
    case Raw(s) => StringToNumber(s)
  }

  /** `toPositiveNumber`: the field's number when finite and positive, otherwise 0. */
  function ToPositiveNumber(f: WeightField): (r: real)
    ensures r >= 0.0
    ensures r > 0.0 <==> FieldNumber(f).Some? && FieldNumber(f).value > 0.0
    ensures r > 0.0 ==> r == FieldNumber(f).value
  {
    var n := FieldNumber(f);
    if n.Some? && n.value > 0.0 then n.value else 0.0
  }

  /** A missing, blank, unreadable or non-positive weight counts as no gold. */
  lemma BadWeightsCountZero(w: real, s: string)
    requires w <= 0.0
    requires StringToNumber(s).None? || StringToNumber(s).value <= 0.0
    ensures ToPositiveNumber(Unset) == 0.0 && ToPositiveNumber(Blank) == 0.0
    ensures ToPositiveNumber(Weight(w)) == 0.0 && ToPositiveNumber(Raw(s)) == 0.0
  {
  }

  /** Grams of 24K gold in w18 g of 18K, w21 g of 21K and w24 g of 24K gold. */
  function PureWeight24(w18: real, w21: real, w24: real): (r: real)
    ensures w18 >= 0.0 && w21 >= 0.0 && w24 >= 0.0 ==> r >= 0.0 && r >= w24 && r <= w18 + w21 + w24
  {
    (w18 * 18.0 + w21 * 21.0 + w24 * 24.0) / 24.0
  }

  /** The unrounded pure weight of a form's gold. */
  function FormPureWeight(a: Asset): (r: real)
    ensures r >= 0.0
  {
    PureWeight24(ToPositiveNumber(a.goldWeight18), ToPositiveNumber(a.goldWeight21), ToPositiveNumber(a.goldWeight24))
  }

  /** The pure weight the form shows and tests, rounded to 4 decimals. */
  function DisplayedPureWeight(a: Asset): (r: real)
    ensures r >= 0.0 && Abs(r - FormPureWeight(a)) * 20000.0 <= 1.0
  {
    assert Pow10(4) == 10000;
    ToFixed(FormPureWeight(a), 4)
  }

  /** `meetsNisab`: the rounded pure weight is at least 85 g. */
  predicate MeetsNisab(a: Asset) {
    DisplayedPureWeight(a) >= NisabGrams
  }

  /** Because the test is applied after rounding to 4 decimals, the nisab is
      met exactly when the unrounded pure weight is at least 84.99995 g. */
  lemma NisabThreshold(a: Asset)
    ensures MeetsNisab(a) <==> FormPureWeight(a) >= 84.99995
  {
    RoundedAtLeast85(FormPureWeight(a));
  }

  lemma RoundedAtLeast85(x: real)
    requires x >= 0.0
    ensures ToFixed(x, 4) >= 85.0 <==> x >= 84.99995
  {
    if x < FixedLimit {
      assert Pow10(4) == 10000;
      var n := (x * 10000.0 + 0.5).Floor;
      assert ToFixed(x, 4) == n as real / 10000.0;
      assert n as real / 10000.0 >= 85.0 <==> n >= 850000;
      assert n >= 850000 <==> x * 10000.0 + 0.5 >= 850000.0;
    }
  }

  /** Every form with 85 g of pure gold or more meets the nisab, and one with
      84.99995 g (short of 85 g) does too, by rounding. */
  lemma NisabAtThreshold(a: Asset)
    ensures FormPureWeight(a) >= NisabGrams ==> MeetsNisab(a)
    ensures FormPureWeight(a) < 84.99995 ==> !MeetsNisab(a)
  {
    NisabThreshold(a);
  }

  /** The karat weights 0, 100, 0 make 87.5 g of pure gold and meet the nisab;
      85 g of 18K gold make 63.75 g; 24 g of 24K gold are 24 g. */
  lemma PureWeightExamples(a: Asset)
    requires a.goldWeight18 == Blank && a.goldWeight21 == Weight(100.0) && a.goldWeight24 == Unset
    ensures FormPureWeight(a) == 87.5 && MeetsNisab(a)
    ensures PureWeight24(85.0, 0.0, 0.0) == 63.75 && PureWeight24(0.0, 0.0, 24.0) == 24.0
  {
    NisabThreshold(a);
  }

  /** A form with 84.99995 g of 24K gold meets the nisab; one with 84.999 g does not. */
  lemma NisabRoundingEdge(a: Asset, b: Asset)
    requires a.goldWeight18 == Unset && a.goldWeight21 == Unset && a.goldWeight24 == Weight(84.99995)
    requires b.goldWeight18 == Unset && b.goldWeight21 == Unset && b.goldWeight24 == Weight(84.999)
    ensures FormPureWeight(a) < NisabGrams && MeetsNisab(a)
    ensures !MeetsNisab(b)
  {
    NisabThreshold(a);
    NisabThreshold(b);
  }

  /** The value of `pure` grams at `gramPrice` per gram, rounded to 2
      decimals, or 0 unless both are positive. */
  function GoldValue(pure: real, gramPrice: real): (r: real)
    ensures gramPrice > 0.0 && pure > 0.0 ==> r >= 0.0 && Abs(r - pure * gramPrice) * 200.0 <= 1.0
    ensures !(gramPrice > 0.0 && pure > 0.0) ==> r == 0.0
  {
    assert Pow10(2) == 100;
    if gramPrice > 0.0 && pure > 0.0 then ToFixed(pure * gramPrice, 2) else 0.0
  }

  /** The recompute effect: a precious-metals asset gets the value of its
      gold at the gram price, in EGP; any other asset is left as it is. */
  function RecomputeGoldValue(a: Asset, gramPrice: real): (r: Asset)
    ensures a.category != PreciousMetals ==> r == a
    ensures a.category == PreciousMetals ==>
      r == a.(value := r.value, currency := "EGP") && r.value == GoldValue(FormPureWeight(a), gramPrice)
  {
    if a.category != PreciousMetals then a
    else a.(value := GoldValue(FormPureWeight(a), gramPrice), currency := "EGP")
  }

  /** Recomputing twice gives what recomputing once gives: the value depends
      only on the weights and the price, which the recompute leaves alone. */
  lemma RecomputeIdempotent(a: Asset, gramPrice: real)
    ensures RecomputeGoldValue(RecomputeGoldValue(a, gramPrice), gramPrice) == RecomputeGoldValue(a, gramPrice)
  {
    var r := RecomputeGoldValue(a, gramPrice);
    assert FormPureWeight(r) == FormPureWeight(a);
  }

  /** 100 g of 21K gold at 4000 per gram are worth 350000 EGP. */
  lemma GoldValueExample(a: Asset)
    requires a.category == PreciousMetals
    requires a.goldWeight18 == Weight(0.0) && a.goldWeight21 == Weight(100.0) && a.goldWeight24 == Weight(0.0)
    ensures RecomputeGoldValue(a, 4000.0).value == 350000.0
    ensures RecomputeGoldValue(a, 4000.0).currency == "EGP"
  {
    assert FormPureWeight(a) == 87.5;
    ToFixedOfCents(35000000);
  }

  /** A number with at most two decimals is its own rounding to two decimals. */
  lemma ToFixedOfCents(cents: nat)
    ensures ToFixed(cents as real / 100.0, 2) == cents as real / 100.0
  {
    var x := cents as real / 100.0;
    assert Pow10(2) == 100;
    if x < FixedLimit {
      assert x * 100.0 == cents as real;
      assert (x * 100.0 + 0.5).Floor == cents;
    }
  }

  /** Whether none of the three karat weights is present on the record. */
  predicate NoWeights(a: Asset) {
    a.goldWeight18 == Unset && a.goldWeight21 == Unset && a.goldWeight24 == Unset
  }

  /** The inference effect: a precious-metals record with no weight field at
      all gets blank 18K and 21K weights and, when its value and the gram
      price are both positive, a 24K weight of value / price rounded to 2
      decimals (blank otherwise); its currency becomes EGP. */
  function InferGoldWeights(a: Asset, gramPrice: real): (r: Asset)
    ensures a.category != PreciousMetals || !NoWeights(a) ==> r == a
    ensures a.category == PreciousMetals && NoWeights(a) ==>
      && r == a.(goldWeight18 := Blank, goldWeight21 := Blank, goldWeight24 := r.goldWeight24, currency := "EGP")
      && (gramPrice > 0.0 && a.value > 0.0 ==> r.goldWeight24 == Weight(ToFixed(a.value / gramPrice, 2)))
      && (!(gramPrice > 0.0 && a.value > 0.0) ==> r.goldWeight24 == Blank)
  {
    if a.category != PreciousMetals || !NoWeights(a) then a
    else if !(gramPrice > 0.0) || !(a.value > 0.0) then
      a.(goldWeight18 := Blank, goldWeight21 := Blank, goldWeight24 := Blank, currency := "EGP")
    else
      a.(goldWeight18 := Blank, goldWeight21 := Blank, goldWeight24 := Weight(ToFixed(a.value / gramPrice, 2)), currency := "EGP")
  }

  /** Inference fires at most once: afterwards the record has weight fields. */
  lemma InferIdempotent(a: Asset, gramPrice: real)
    ensures !NoWeights(InferGoldWeights(a, gramPrice)) || a.category != PreciousMetals
    ensures InferGoldWeights(InferGoldWeights(a, gramPrice), gramPrice) == InferGoldWeights(a, gramPrice)
  {
  }

  /** The inferred 24K weight is the value's weight at the gram price, to within half a centigram. */
  lemma InferredWeightMatchesValue(a: Asset, gramPrice: real)
    requires a.category == PreciousMetals && NoWeights(a) && gramPrice > 0.0 && a.value > 0.0
    ensures FormPureWeight(InferGoldWeights(a, gramPrice)) >= 0.0
    ensures Abs(FormPureWeight(InferGoldWeights(a, gramPrice)) - a.value / gramPrice) * 200.0 <= 1.0
  {
    var w := ToFixed(a.value / gramPrice, 2);
    assert Pow10(2) == 100;
    assert a.value / gramPrice > 0.0;
    assert FormPureWeight(InferGoldWeights(a, gramPrice)) == w;
  }

  /** The form opened on an asset, as the mount effects evidently intend:
      infer the weights from a stored value first, then value the weights. */
  function OpenForm(a: Asset, gramPrice: real): (r: Asset)
    ensures r.category == a.category && r.id == a.id && r.zakatable == a.zakatable && r.zakatBasis == a.zakatBasis
    ensures a.category != PreciousMetals ==> r == a
    ensures a.category == PreciousMetals ==> r.currency == "EGP" && !NoWeights(r)
  {
    RecomputeGoldValue(InferGoldWeights(a, gramPrice), gramPrice)
  }

  /** Opening a legacy gold record (a value but no weights) keeps its value,
      up to the two roundings: within half a cent of the price per gram plus half a cent. */
  lemma OpenFormKeepsLegacyValue(a: Asset, gramPrice: real)
    requires a.category == PreciousMetals && NoWeights(a) && gramPrice > 0.0 && a.value > 0.0
    ensures Abs(OpenForm(a, gramPrice).value - a.value) * 200.0 <= gramPrice + 1.0
  {
    var w := FormPureWeight(InferGoldWeights(a, gramPrice));
    InferredWeightMatchesValue(a, gramPrice);
    OpenFormValuesInferredWeight(a, gramPrice);
    RoundTripBound(OpenForm(a, gramPrice).value, w, a.value / gramPrice, gramPrice, a.value);
  }

  lemma OpenFormValuesInferredWeight(a: Asset, gramPrice: real)
    requires a.category == PreciousMetals
    ensures OpenForm(a, gramPrice).value == GoldValue(FormPureWeight(InferGoldWeights(a, gramPrice)), gramPrice)
  {
    assert InferGoldWeights(a, gramPrice).category == PreciousMetals;
  }

  /** Arithmetic of the round trip value -> weight -> value: two roundings to
      the cent, the first one scaled by the price. */
  lemma RoundTripBound(v: real, w: real, x: real, p: real, value: real)
    requires p > 0.0 && x == value / p && w >= 0.0 && Abs(w - x) * 200.0 <= 1.0
    requires v == GoldValue(w, p)
    ensures Abs(v - value) * 200.0 <= p + 1.0
  {
    GoldValueNear(w, p, v);
    assert x * p == value;
    ScaledError(w, x, p);
    if w > 0.0 {
      TriangleBound(v, w * p, value, 1.0, p);
    } else {
      assert w * p == 0.0;
      TriangleBound(v, w * p, value, 0.0, p);
    }
  }

  lemma GoldValueNear(w: real, p: real, v: real)
    requires p > 0.0 && w >= 0.0 && v == GoldValue(w, p)
    ensures w > 0.0 ==> Abs(v - w * p) * 200.0 <= 1.0
    ensures w <= 0.0 ==> v == 0.0
  {
  }

  lemma ScaledError(w: real, x: real, p: real)
    requires p > 0.0 && Abs(w - x) * 200.0 <= 1.0
    ensures Abs(w * p - x * p) * 200.0 <= p
  {
    var d := Abs(w - x);
    assert (1.0 - d * 200.0) * p >= 0.0;
    assert w * p - x * p == (w - x) * p;
    if w - x < 0.0 {
      assert Abs(w * p - x * p) == d * p;
    } else {
      assert Abs(w * p - x * p) == d * p;
    }
  }

  lemma TriangleBound(a: real, b: real, c: real, e1: real, e2: real)
    requires Abs(a - b) * 200.0 <= e1 && Abs(b - c) * 200.0 <= e2
    ensures Abs(a - c) * 200.0 <= e1 + e2
  {
  }

  /** The form opened on an asset as the source orders its mount effects:
      the value is recomputed from the weights first, then the weights are
      inferred from the (recomputed) value. */
  function OpenFormAsWritten(a: Asset, gramPrice: real): (r: Asset)
    ensures a.category != PreciousMetals ==> r == a
  {
    InferGoldWeights(RecomputeGoldValue(a, gramPrice), gramPrice)
  }

  /** As written, a legacy gold record loses its value when opened: the
      recompute sees no weights and sets the value to 0, so the inference
      that follows has nothing to infer from and leaves every weight blank. */
  lemma OpenFormAsWrittenDropsLegacyValue(a: Asset, gramPrice: real)
    requires a.category == PreciousMetals && NoWeights(a)
    ensures OpenFormAsWritten(a, gramPrice).value == 0.0
    ensures OpenFormAsWritten(a, gramPrice).goldWeight24 == Blank
  {
    assert FormPureWeight(a) == 0.0;
  }

  /** A gold record worth 100000 EGP opened at 4000 per gram: as written it
      is worth 0 and has no weight; opened as intended it weighs 25 g of 24K
      gold and keeps its 100000. */
  lemma LegacyGoldRecordExample(a: Asset)
    requires a.category == PreciousMetals && NoWeights(a) && a.value == 100000.0
    ensures OpenFormAsWritten(a, 4000.0).value == 0.0
    ensures OpenForm(a, 4000.0).goldWeight24 == Weight(25.0)
    ensures OpenForm(a, 4000.0).value == 100000.0
  {
    OpenFormAsWrittenDropsLegacyValue(a, 4000.0);
    ToFixedOfCents(2500);
    ToFixedOfCents(10000000);
    var f := InferGoldWeights(a, 4000.0);
    assert f.goldWeight24 == Weight(25.0);
    assert FormPureWeight(f) == 25.0;
  }

  /** `?? ""`: a missing weight becomes blank, a present one is kept. */
  function Defaulted(f: WeightField): (r: WeightField)
    ensures f == Unset ==> r == Blank
    ensures f != Unset ==> r == f
    ensures r != Unset && ToPositiveNumber(r) == ToPositiveNumber(f)
  {
    if f == Unset then Blank else f
  }

  /** `updateCategory`: the funds category gets a zakat basis of 0.25 and
      every other category 1; switching to precious metals also forces EGP
      and gives each missing weight field a blank value. */
  function UpdateCategory(a: Asset, next: string): (r: Asset)
    ensures r.category == next && r.value == a.value && r.id == a.id && r.zakatable == a.zakatable
    ensures r.zakatBasis == Some(if next == Funds then 0.25 else 1.0)
    ensures next != PreciousMetals ==> r == a.(category := next, zakatBasis := r.zakatBasis)
    ensures next == PreciousMetals ==> r.currency == "EGP" && !NoWeights(r) && FormPureWeight(r) == FormPureWeight(a)
    ensures next == PreciousMetals ==>
      r == a.(category := next, currency := "EGP", zakatBasis := Some(1.0),
               goldWeight18 := Defaulted(a.goldWeight18),
               goldWeight21 := Defaulted(a.goldWeight21),
               goldWeight24 := Defaulted(a.goldWeight24))
  {
    if next == Funds then a.(category := next, zakatBasis := Some(0.25))
    else if next != PreciousMetals then a.(category := next, zakatBasis := Some(1.0))
    else a.(category := next, currency := "EGP", zakatBasis := Some(1.0),
            goldWeight18 := Defaulted(a.goldWeight18),
            goldWeight21 := Defaulted(a.goldWeight21),
            goldWeight24 := Defaulted(a.goldWeight24))
  }

  /** After switching to precious metals in the form, the inference effect
      leaves the record alone: every weight field is then present. */
  lemma SwitchToGoldSkipsInference(a: Asset, gramPrice: real)
    ensures InferGoldWeights(UpdateCategory(a, PreciousMetals), gramPrice) == UpdateCategory(a, PreciousMetals)
  {
  }

  /** What a karat weight input stores: blank for the empty text, the number
      when the text reads as a finite number of at least 0, the text itself otherwise. */
  function WeightFromInput(raw: string): (r: WeightField)
    ensures r == Blank <==> raw == []
    ensures r.Weight? <==> raw != [] && StringToNumber(raw).Some? && StringToNumber(raw).value >= 0.0
    ensures r.Weight? ==> StringToNumber(raw) == Some(r.grams)
    ensures r.Raw? ==> r.text == raw
  {
    if raw == [] then Blank
    else
      var weight := StringToNumber(raw);
      if weight.None? || weight.value < 0.0 then Raw(raw) else Weight(weight.value)
  }

  /** Storing the parsed number instead of the typed text does not change how
      much gold the field counts for. */
  lemma WeightInputReadsBack(raw: string)
    ensures ToPositiveNumber(WeightFromInput(raw)) == ToPositiveNumber(Raw(raw))
  {
    if raw == [] {
      assert Trim(raw) == [];
    }
  }

  /** `updateGoldWeightByKarat`: the one karat field takes the input's value. */
  function UpdateGoldWeightByKarat(a: Asset, k: Karat, raw: string): (r: Asset)
    ensures WeightOf(r, k) == WeightFromInput(raw)
    ensures forall j :: j != k ==> WeightOf(r, j) == WeightOf(a, j)
    ensures r.(goldWeight18 := a.goldWeight18, goldWeight21 := a.goldWeight21, goldWeight24 := a.goldWeight24) == a
  {
    WithWeight(a, k, WeightFromInput(raw))
  }

  /** Typing a weight into one karat field changes the pure weight by that
      karat's share of the grams typed, and by nothing else. */
  lemma KaratEntryChangesPureWeight(a: Asset, k: Karat, raw: string)
    ensures var r := UpdateGoldWeightByKarat(a, k, raw);
      FormPureWeight(r) - FormPureWeight(a)
      == (ToPositiveNumber(Raw(raw)) - ToPositiveNumber(WeightOf(a, k))) * KaratFraction(k)
  {
    WeightInputReadsBack(raw);
  }

  /** Grams of pure gold per gram of each karat. */
  function KaratFraction(k: Karat): real {
    match k
    case K18 => 0.75
    case K21 => 0.875
    case K24 => 1.0
  }
}
