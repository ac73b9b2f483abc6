/** The asset record the tracker keeps, with the category keys it is grouped by. */
module Assets {
  import opened JsNumber

  /** Category keys, as the Arabic strings the program stores. */
  const Cash: string := "نقد وسيولة"
  const PreciousMetals: string := "معادن ثمينة"
  const Investments: string := "استثمارات"
  const Funds: string := "صناديق واستثمارات"
  const Business: string := "مصالح تجارية"
  const RealEstate: string := "عقارات"

  /** The categories the asset form offers (the business key has no entry there). */
  const FormCategories: seq<string> := [Cash, PreciousMetals, Investments, Funds, RealEstate]

  /** A karat weight field of the asset form: missing, the empty string, a
      number, or the text typed when it is not a number of at least 0. */
  datatype WeightField = Unset | Blank | Weight(grams: real) | Raw(text: string)

  /** The three karat weight fields. */
  datatype Karat = K18 | K21 | K24

  /** An asset. `zakatBasis` is None when the record has no such field; the
      gold weight fields are used only in the precious-metals category. The
      free-text fields (English name, description, notes) carry no rule and
      are not part of this model. */
  datatype Asset = Asset(
    id: int,
    name: string,
    category: string,
    value: real,
    currency: string,
    cashFlow: bool,
    zakatable: bool,
    zakatBasis: Option<real>,
    goldWeight18: WeightField,
    goldWeight21: WeightField,
    goldWeight24: WeightField)

  /** The record the "add asset" form starts from. */
  function NewAsset(id: int): (a: Asset)
    ensures a.id == id && a.category == Cash && a.value == 0.0 && a.currency == "EGP"
    ensures a.zakatable && !a.cashFlow && a.zakatBasis == Some(1.0)
    ensures a.goldWeight18 == Unset && a.goldWeight21 == Unset && a.goldWeight24 == Unset
  {
    Asset(id, "", Cash, 0.0, "EGP", false, true, Some(1.0), Unset, Unset, Unset)
  }

  function WeightOf(a: Asset, k: Karat): WeightField {
    match k
    case K18 => a.goldWeight18
    case K21 => a.goldWeight21
    case K24 => a.goldWeight24
  }

  /** The record with one karat weight field replaced. */
  function WithWeight(a: Asset, k: Karat, w: WeightField): (r: Asset)
    ensures WeightOf(r, k) == w
    ensures forall j :: j != k ==> WeightOf(r, j) == WeightOf(a, j)
    ensures r.(goldWeight18 := a.goldWeight18, goldWeight21 := a.goldWeight21, goldWeight24 := a.goldWeight24) == a
  {
    match k
    case K18 => a.(goldWeight18 := w)
    case K21 => a.(goldWeight21 := w)
    case K24 => a.(goldWeight24 := w)
  }
}
