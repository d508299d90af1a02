/** The budget of an application: sums, total, and who pays what. */
module Budget {
  import opened Options
  import opened Texts
  import opened Decimal
  import opened Doubles
  import opened Shares

  type Answers = TextMap

  /** A row of the budget: a description, which may be required, and an amount. */
  datatype Item = Item(incrementsTotal: bool, descriptionId: string, required: bool, amountId: string)

  datatype Summing = Summing(items: seq<Item>, sum: Option<int>)

  datatype TotalNeeded = TotalNeeded(value: int, isBudgetPositive: bool, isValid: bool)

  /** Who pays: selfValue and ophValue are None where the source has null. */
  datatype Financing = Financing(minSelfValue: real, selfValue: Option<real>, ophValue: Option<real>, isValid: bool)

  datatype Summary = Summary(selfFinancingId: Option<string>, totalNeeded: Option<TotalNeeded>, financing: Option<Financing>)

  datatype BudgetElement = BudgetElement(id: string, elements: seq<Summing>, summary: Option<Summary>)

  datatype Ratio = Ratio(nominator: int, denominator: int)

  /** The shares that MathUtil computes. */
  datatype ShareFunctions = ShareFunctions(percentage: (int, int) -> real, ratio: (Ratio, int) -> real)

  ghost predicate AsInMathUtil(shares: ShareFunctions) {
    && (forall p, t :: shares.percentage(p, t) == PercentageShareRoundedUpOf(p, t))
    && forall r: Ratio, t | r.denominator != 0 :: shares.ratio(r, t) == RatioShareRoundedUpOf(r.nominator, r.denominator, t)
  }

  /** Self-financing percentage, and what an evaluation has granted instead of the first
      subtotal, when it does not use detailed costs; the shares, and the text of 21.5 times
      what a text stands for, rounded down. */
  datatype Settings = Settings(
    percentage: int, useDetailedCosts: bool, costsGranted: int, ratio: Option<Ratio>, shares: ShareFunctions, multiplied: string -> string)

  /** On digits the multiplication is exact, as 21.5 is 43 / 2. */
  ghost predicate MultipliesDigits(multiplied: string -> string) {
    forall s | AllDigits(s) && 43 * DigitsValue(s) <= TWO_52 :: multiplied(s) == Numeral(43 * DigitsValue(s) / 2)
  }

  // ---------------------------------------------------------------------- amounts

  /** Digits, for a number of at most seven of them. */
  predicate IsValidMoney(s: string) {
    s != "" && AllDigits(s) && DigitsValue(s) <= 9999999
  }

  function Amount(answers: Answers, id: string): nat {
    var s := TextAt(answers, id);
    if IsValidMoney(s) then DigitsValue(s) else 0
  }

  function ItemValue(item: Item, answers: Answers): int {
    (if item.incrementsTotal then 1 else -1) * Amount(answers, item.amountId)
  }

  function SumOf(items: seq<Item>, answers: Answers): int {
    if items == [] then 0 else ItemValue(items[0], answers) + SumOf(items[1..], answers)
  }

  predicate ContainsErrors(items: seq<Item>, answers: Answers) {
    exists i :: 0 <= i < |items| && !IsValidMoney(TextAt(answers, items[i].amountId))
  }

  function Marked(item: Item, answers: Answers): Item {
    item.(required := Amount(answers, item.amountId) > 0)
  }

  function MarkedItems(items: seq<Item>, answers: Answers): seq<Item> {
    if items == [] then [] else [Marked(items[0], answers)] + MarkedItems(items[1..], answers)
  }

  function SummedElements(elements: seq<Summing>, answers: Answers): (r: seq<Summing>)
    ensures |r| == |elements|
  {
    if elements == [] then []
    else
      [Summing(MarkedItems(elements[0].items, answers), Some(SumOf(elements[0].items, answers)))]
      + SummedElements(elements[1..], answers)
  }

  // -------------------------------------------------------------- total and shares

  function SumOfSums(elements: seq<Summing>, answers: Answers): int {
    if elements == [] then 0 else SumOf(elements[0].items, answers) + SumOfSums(elements[1..], answers)
  }

  function Total(elements: seq<Summing>, answers: Answers, settings: Settings): int {
    if settings.useDetailedCosts then SumOfSums(elements, answers)
    else SumOfSums(if elements == [] then [] else elements[1..], answers) + settings.costsGranted
  }

  predicate SomeErrors(elements: seq<Summing>, answers: Answers) {
    exists i :: 0 <= i < |elements| && ContainsErrors(elements[i].items, answers)
  }

  function ValidateTotalNeeded(elements: seq<Summing>, answers: Answers, settings: Settings): TotalNeeded {
    var value := Total(elements, answers, settings);
    TotalNeeded(value, value > 0, !(settings.useDetailedCosts && SomeErrors(elements, answers)) && value > 0)
  }

  function ValidateFinancing(selfFinancingId: Option<string>, answers: Answers, settings: Settings, total: int): Financing {
    var min := settings.shares.percentage(settings.percentage, total);
    if selfFinancingId.None? then Financing(min, Some(min), Some(total as real - min), true)
    else if settings.ratio.Some? then
      var self := settings.shares.ratio(settings.ratio.value, total);
      Financing(min, Some(self), Some(total as real - self), true)
    else
      var answer := TextAt(answers, selfFinancingId.value);
      if !IsValidMoney(answer) then Financing(min, None, None, false)
      else
        var self := DigitsValue(answer) as real;
        Financing(min, Some(self), Some(total as real - self), min <= self <= total as real)
  }

  function SummaryOf(summary: Summary, elements: seq<Summing>, answers: Answers, settings: Settings): Summary {
    var total := ValidateTotalNeeded(elements, answers, settings);
    summary.(totalNeeded := Some(total), financing := Some(ValidateFinancing(summary.selfFinancingId, answers, settings, total.value)))
  }

  /** A fresh computation of everything that a budget caches. */
  function Derived(b: BudgetElement, answers: Answers, settings: Settings): BudgetElement {
    b.(elements := SummedElements(b.elements, answers),
       summary := if b.summary.None? then None else Some(SummaryOf(b.summary.value, b.elements, answers, settings)))
  }

  function ValidationErrors(isBudgetPositive: bool, isSelfFinancingValid: bool): seq<string> {
    if !isBudgetPositive then ["negative-budget"]
    else if !isSelfFinancingValid then ["insufficient-self-financing"]
    else []
  }

  // ------------------------------------------------------------------ what it means

  function AmountsOf(items: seq<Item>, answers: Answers, incrementing: bool): nat {
    if items == [] then 0
    else (if items[0].incrementsTotal == incrementing then Amount(answers, items[0].amountId) else 0)
         + AmountsOf(items[1..], answers, incrementing)
  }

  /** A sum is what the valid amounts add, less what they take. */
  lemma {:induction false} SumIsSigned(items: seq<Item>, answers: Answers)
    ensures SumOf(items, answers) == AmountsOf(items, answers, true) - AmountsOf(items, answers, false)
  {
    if items != [] { SumIsSigned(items[1..], answers); }
  }

  lemma {:induction false} MarkedAt(items: seq<Item>, answers: Answers, i: nat)
    requires i < |items|
    ensures |MarkedItems(items, answers)| == |items| && MarkedItems(items, answers)[i] == Marked(items[i], answers)
  {
    if i > 0 { MarkedAt(items[1..], answers, i - 1); } else if |items| > 1 { MarkedAt(items[1..], answers, 0); }
  }

  lemma {:induction false} ElementAt(elements: seq<Summing>, answers: Answers, k: nat)
    requires k < |elements|
    ensures SummedElements(elements, answers)[k] ==
      Summing(MarkedItems(elements[k].items, answers), Some(SumOf(elements[k].items, answers)))
  {
    if k > 0 { ElementAt(elements[1..], answers, k - 1); }
  }

  /** The cached sum of an element and the required flag of a description. */
  lemma DerivedElement(b: BudgetElement, answers: Answers, settings: Settings, k: nat, i: nat)
    requires k < |b.elements| && i < |b.elements[k].items|
    ensures var items, e := b.elements[k].items, Derived(b, answers, settings).elements[k];
      && e.sum == Some(AmountsOf(items, answers, true) - AmountsOf(items, answers, false))
      && |e.items| == |items|
      && (e.items[i].required <==> Amount(answers, items[i].amountId) > 0)
      && e.items[i] == items[i].(required := e.items[i].required)
  {
    ElementAt(b.elements, answers, k);
    SumIsSigned(b.elements[k].items, answers);
    MarkedAt(b.elements[k].items, answers, i);
  }

  /** The least own share is the exact share of the total, rounded up. */
  lemma LeastOwnShare(settings: Settings, total: nat)
    requires AsInMathUtil(settings.shares) && 0 <= settings.percentage <= 100 && total * 100 <= TWO_52
    ensures settings.shares.percentage(settings.percentage, total) == Ceiling(settings.percentage * total, 100) as real
  {
    var part := ProductAtMost(settings.percentage, 100, total);
    ExactShare(settings.shares, settings.percentage, total, part);
  }

  lemma ExactShare(shares: ShareFunctions, percentage: nat, total: nat, part: nat)
    requires AsInMathUtil(shares) && percentage <= 100 && total * 100 <= TWO_52 && part == percentage * total
    ensures shares.percentage(percentage, total) == Ceiling(part, 100) as real
  {
    SharesOfMathUtil(shares, percentage, total);
    PercentageShareIsExact(percentage, total);
  }

  lemma SharesOfMathUtil(shares: ShareFunctions, percentage: int, total: int)
    requires AsInMathUtil(shares)
    ensures shares.percentage(percentage, total) == PercentageShareRoundedUpOf(percentage, total)
  {
  }

  /** An entered share is valid if and only if it is a number that covers its percentage of
      the total and does not exceed the total. */
  lemma EnteredShareIsValid(selfId: string, answers: Answers, settings: Settings, total: int)
    requires AsInMathUtil(settings.shares) && 0 <= settings.percentage <= 100 && total * 100 <= TWO_52 && settings.ratio.None?
    ensures var share := TextAt(answers, selfId);
      ValidateFinancing(Some(selfId), answers, settings, total).isValid <==>
        IsValidMoney(share) && settings.percentage * total <= 100 * DigitsValue(share) && DigitsValue(share) <= total
  {
    if total < 0 {
      NothingCoversLess(selfId, answers, settings, total);
    } else {
      var part := PartOf(settings, total);
      ShareAtLeast(selfId, answers, settings, total, part);
    }
  }

  lemma NothingCoversLess(selfId: string, answers: Answers, settings: Settings, total: int)
    requires settings.ratio.None? && total < 0
    ensures !ValidateFinancing(Some(selfId), answers, settings, total).isValid
    ensures var share := TextAt(answers, selfId); IsValidMoney(share) ==> DigitsValue(share) > total
  {
  }

  lemma PartOf(settings: Settings, total: nat) returns (part: nat)
    requires AsInMathUtil(settings.shares) && 0 <= settings.percentage <= 100 && total * 100 <= TWO_52
    ensures part == settings.percentage * total && part <= 100 * total
    ensures settings.shares.percentage(settings.percentage, total) == Ceiling(part, 100) as real
  {
    part := ProductAtMost(settings.percentage, 100, total);
    LeastOwnShare(settings, total);
  }

  lemma ProductAtMost(p: nat, q: nat, total: nat) returns (part: nat)
    requires p <= q
    ensures part == p * total && part <= q * total
  {
    part := p * total;
  }

  lemma ShareAtLeast(selfId: string, answers: Answers, settings: Settings, total: nat, part: nat)
    requires settings.ratio.None? && settings.shares.percentage(settings.percentage, total) == Ceiling(part, 100) as real
    ensures var share := TextAt(answers, selfId);
      ValidateFinancing(Some(selfId), answers, settings, total).isValid <==>
        IsValidMoney(share) && part <= 100 * DigitsValue(share) && DigitsValue(share) <= total
  {
    var share := TextAt(answers, selfId);
    if IsValidMoney(share) { AtLeastCeiling(part, 100, DigitsValue(share)); }
  }

  lemma AtLeastCeiling(n: nat, d: nat, x: nat)
    requires d > 0
    ensures Ceiling(n, d) <= x <==> n <= d * x
  {
    var q, r := n / d, n % d;
    assert n == d * q + r;
    if q < x { Ordered(d, q + 1, x); OneMore(d, q); } else { Ordered(d, x, q); }
  }

  lemma Ordered(d: nat, a: int, b: int)
    requires a <= b
    ensures d * a <= d * b
  {
  }

  lemma OneMore(d: int, q: int)
    ensures d * (q + 1) == d * q + d
  {
  }

  /** A valid financing pays the whole total, and the granted part is neither negative nor
      more than what the percentage leaves. */
  lemma GrantIsWithinItsPart(selfId: Option<string>, answers: Answers, settings: Settings, total: nat)
    requires AsInMathUtil(settings.shares) && 0 <= settings.percentage <= 100 && total * 100 <= TWO_52 && settings.ratio.None?
    ensures var f := ValidateFinancing(selfId, answers, settings, total);
      f.isValid ==> WithinItsPart(f, settings.percentage, total)
  {
    var part := PartOf(settings, total);
    PartOfTotal(selfId, answers, settings, total, part);
  }

  ghost predicate WithinItsPart(f: Financing, percentage: int, total: int) {
    && f.selfValue.Some? && f.ophValue.Some? && f.selfValue.value + f.ophValue.value == total as real
    && 0.0 <= f.ophValue.value && 100.0 * f.ophValue.value <= (100 * total - percentage * total) as real
  }

  lemma PartOfTotal(selfId: Option<string>, answers: Answers, settings: Settings, total: nat, part: nat)
    requires settings.ratio.None? && settings.shares.percentage(settings.percentage, total) == Ceiling(part, 100) as real
    requires part == settings.percentage * total && part <= 100 * total
    ensures var f := ValidateFinancing(selfId, answers, settings, total);
      f.isValid ==> WithinItsPart(f, settings.percentage, total)
  {
    AtLeastCeiling(part, 100, Ceiling(part, 100));
    AtLeastCeiling(part, 100, total);
    if selfId.Some? { ShareAtLeast(selfId.value, answers, settings, total, part); }
  }

  /** Who pays what. The least own share is the exact share of the total, rounded up. */
  ghost predicate FinancingMeans(f: Financing, selfId: Option<string>, answers: Answers, settings: Settings, total: int) {
    && (f.selfValue.Some? <==> f.ophValue.Some?)
    && (f.selfValue.Some? ==> f.selfValue.value + f.ophValue.value == total as real)
    && (0 <= total && total * 100 <= TWO_52 ==> f.minSelfValue == Ceiling(settings.percentage * total, 100) as real)
    && (selfId.None? ==> f.isValid && f.selfValue == Some(f.minSelfValue))
    && (selfId.Some? && settings.ratio.None? ==> PaysWhatIsEntered(f, TextAt(answers, selfId.value)))
    && (selfId.Some? && settings.ratio.Some? ==> f.isValid && PaysRatio(f, settings.ratio.value, total))
  }

  /** The entered share is what the applicant pays. */
  predicate PaysWhatIsEntered(f: Financing, share: string) {
    if IsValidMoney(share) then f.selfValue == Some(DigitsValue(share) as real) else f.selfValue.None? && !f.isValid
  }

  /** With a fixed ratio the applicant pays that ratio of the total, rounded up. */
  ghost predicate PaysRatio(f: Financing, ratio: Ratio, total: int) {
    f.selfValue.Some? &&
    (0 <= ratio.nominator <= ratio.denominator && 0 < ratio.denominator && 0 <= total && total * ratio.denominator <= TWO_52 ==>
      var exact := Ceiling(ratio.nominator * total, ratio.denominator);
      && (f.selfValue.value == exact as real || f.selfValue.value == exact as real + 1.0)
      && (ratio.nominator == 0 || ratio.nominator * 10000 >= ratio.denominator ==> f.selfValue.value == exact as real))
  }

  lemma WhoPays(selfId: Option<string>, answers: Answers, settings: Settings, total: int)
    requires AsInMathUtil(settings.shares) && 0 <= settings.percentage <= 100
    ensures FinancingMeans(ValidateFinancing(selfId, answers, settings, total), selfId, answers, settings, total)
  {
    if 0 <= total && total * 100 <= TWO_52 { LeastOwnShare(settings, total); }
    if settings.ratio.Some? { RatioIsPaid(settings.shares, settings.ratio.value, total); }
  }

  /** The fixed ratio's share. */
  lemma RatioIsPaid(shares: ShareFunctions, ratio: Ratio, total: int)
    requires AsInMathUtil(shares)
    ensures forall f: Financing | f.selfValue == Some(shares.ratio(ratio, total)) :: PaysRatio(f, ratio, total)
  {
    if 0 <= ratio.nominator <= ratio.denominator && 0 < ratio.denominator && 0 <= total && total * ratio.denominator <= TWO_52 {
      RatioShareBound(ratio.nominator, ratio.denominator, total);
    }
  }

  function AmountsIn(elements: seq<Summing>, answers: Answers, incrementing: bool): nat {
    if elements == [] then 0 else AmountsOf(elements[0].items, answers, incrementing) + AmountsIn(elements[1..], answers, incrementing)
  }

  lemma {:induction false} SumsAreSigned(elements: seq<Summing>, answers: Answers)
    ensures SumOfSums(elements, answers) == AmountsIn(elements, answers, true) - AmountsIn(elements, answers, false)
  {
    if elements != [] {
      SumIsSigned(elements[0].items, answers);
      SumsAreSigned(elements[1..], answers);
    }
  }

  /** The total is what the amounts add less what they take; without detailed costs the
      granted costs stand for the first subtotal, and its errors do not count. */
  ghost predicate TotalMeans(t: TotalNeeded, elements: seq<Summing>, answers: Answers, settings: Settings) {
    && t.value == (if settings.useDetailedCosts || elements == []
                   then AmountsIn(elements, answers, true) - AmountsIn(elements, answers, false)
                   else AmountsIn(elements[1..], answers, true) - AmountsIn(elements[1..], answers, false))
                  + (if settings.useDetailedCosts then 0 else settings.costsGranted)
    && (t.isBudgetPositive <==> t.value > 0)
    && (t.isValid <==> t.value > 0 && (settings.useDetailedCosts ==> AllAmountsValid(elements, answers)))
  }

  predicate AllAmountsValid(elements: seq<Summing>, answers: Answers) {
    forall k, i | 0 <= k < |elements| && 0 <= i < |elements[k].items| :: IsValidMoney(TextAt(answers, elements[k].items[i].amountId))
  }

  lemma TotalNeededMeans(elements: seq<Summing>, answers: Answers, settings: Settings)
    ensures TotalMeans(ValidateTotalNeeded(elements, answers, settings), elements, answers, settings)
  {
    SumsAreSigned(elements, answers);
    if elements != [] { SumsAreSigned(elements[1..], answers); }
    ErrorsAreInvalidAmounts(elements, answers);
  }

  lemma ErrorsAreInvalidAmounts(elements: seq<Summing>, answers: Answers)
    ensures SomeErrors(elements, answers) <==> !AllAmountsValid(elements, answers)
  {
    if !AllAmountsValid(elements, answers) {
      var k, i :| 0 <= k < |elements| && 0 <= i < |elements[k].items| && !IsValidMoney(TextAt(answers, elements[k].items[i].amountId));
      assert ContainsErrors(elements[k].items, answers);
    }
  }

  /** A budget is reported in order exactly when its total is positive and its financing
      valid; a total that is not positive is reported first. */
  lemma ErrorsMean(b: BudgetElement, answers: Answers, settings: Settings)
    requires b.summary.Some?
    ensures var s := Derived(b, answers, settings).summary.value;
      && s.totalNeeded.Some? && s.financing.Some?
      && var errors := ValidationErrors(s.totalNeeded.value.isBudgetPositive, s.financing.value.isValid);
      && (errors == [] <==> s.totalNeeded.value.value > 0 && s.financing.value.isValid)
      && (errors == ["negative-budget"] <==> s.totalNeeded.value.value <= 0)
      && (errors == ["insufficient-self-financing"] <==> s.totalNeeded.value.value > 0 && !s.financing.value.isValid)
  {
  }

  /** A number is valid money exactly up to seven digits. */
  lemma NumeralIsMoney(n: nat)
    ensures IsValidMoney(Numeral(n)) <==> n <= 9999999
    ensures n <= 9999999 ==> forall answers: Answers, id | TextAt(answers, id) == Numeral(n) :: Amount(answers, id) == n
  {
    NumeralValue(n);
  }

  // ---------------------------------------------------------------- what is cached

  predicate SameReads(items: seq<Item>, a1: Answers, a2: Answers) {
    forall i | 0 <= i < |items| :: TextAt(a1, items[i].amountId) == TextAt(a2, items[i].amountId)
  }

  predicate SameAmounts(elements: seq<Summing>, a1: Answers, a2: Answers) {
    forall k | 0 <= k < |elements| :: SameReads(elements[k].items, a1, a2)
  }

  lemma {:induction false} SameItems(items: seq<Item>, a1: Answers, a2: Answers)
    requires SameReads(items, a1, a2)
    ensures SumOf(items, a1) == SumOf(items, a2) && MarkedItems(items, a1) == MarkedItems(items, a2)
    ensures ContainsErrors(items, a1) == ContainsErrors(items, a2)
  {
    if items != [] { SameItems(items[1..], a1, a2); }
  }

  lemma {:induction false} SameElements(elements: seq<Summing>, a1: Answers, a2: Answers)
    requires SameAmounts(elements, a1, a2)
    ensures SummedElements(elements, a1) == SummedElements(elements, a2) && SumOfSums(elements, a1) == SumOfSums(elements, a2)
  {
    if elements != [] {
      SameItems(elements[0].items, a1, a2);
      SameTail(elements, a1, a2);
      SameElements(elements[1..], a1, a2);
    }
  }

  lemma SameTail(elements: seq<Summing>, a1: Answers, a2: Answers)
    requires elements != [] && SameAmounts(elements, a1, a2)
    ensures SameAmounts(elements[1..], a1, a2)
  {
    assert forall k | 0 <= k < |elements[1..]| :: elements[1..][k] == elements[k + 1];
  }

  lemma SameErrors(elements: seq<Summing>, a1: Answers, a2: Answers)
    requires SameAmounts(elements, a1, a2)
    ensures SomeErrors(elements, a1) == SomeErrors(elements, a2)
  {
    forall k | 0 <= k < |elements| ensures ContainsErrors(elements[k].items, a1) == ContainsErrors(elements[k].items, a2) {
      SameItems(elements[k].items, a1, a2);
    }
  }

  lemma SameTotals(elements: seq<Summing>, a1: Answers, a2: Answers, settings: Settings)
    requires SameAmounts(elements, a1, a2)
    ensures ValidateTotalNeeded(elements, a1, settings) == ValidateTotalNeeded(elements, a2, settings)
  {
    SameErrors(elements, a1, a2);
    SameElements(elements, a1, a2);
    if elements != [] {
      SameTail(elements, a1, a2);
      SameElements(elements[1..], a1, a2);
    } else {
      SameElements([], a1, a2);
    }
  }

  predicate SameSelfFinancing(summary: Option<Summary>, a1: Answers, a2: Answers) {
    summary.Some? && summary.value.selfFinancingId.Some? ==>
      TextAt(a1, summary.value.selfFinancingId.value) == TextAt(a2, summary.value.selfFinancingId.value)
  }

  /** A budget depends on its own amounts and its self-financing answer only. */
  lemma DependsOnAmounts(b: BudgetElement, a1: Answers, a2: Answers, settings: Settings)
    requires SameAmounts(b.elements, a1, a2) && SameSelfFinancing(b.summary, a1, a2)
    ensures Derived(b, a1, settings) == Derived(b, a2, settings)
  {
    SameElements(b.elements, a1, a2);
    SameTotals(b.elements, a1, a2, settings);
  }

  // ------------------------------------------------------------- keeping it fresh

  /** Amounts, descriptions and the self-financing field of a budget. */
  predicate HoldsId(b: BudgetElement, id: string) {
    || IsAmount(b, id)
    || exists k, i :: 0 <= k < |b.elements| && 0 <= i < |b.elements[k].items| && b.elements[k].items[i].descriptionId == id
  }

  predicate IsAmountIn(items: seq<Item>, id: string) {
    exists i :: 0 <= i < |items| && items[i].amountId == id
  }

  /** A field that the budget's cached values depend on. */
  predicate IsAmount(b: BudgetElement, id: string) {
    || (exists k :: 0 <= k < |b.elements| && IsAmountIn(b.elements[k].items, id))
    || (b.summary.Some? && b.summary.value.selfFinancingId == Some(id))
  }

  predicate TriggersBudget(fieldType: string) {
    fieldType == "moneyField" || fieldType == "vaSelfFinancingField"
  }

  type FieldTypes = map<string, string>

  predicate HasType(types: FieldTypes, id: string, fieldType: string) {
    id in types && types[id] == fieldType
  }

  /** The fields that budgets depend on are money and self-financing fields, or amounts that
      follow from a multiplier. */
  ghost predicate Typed(budgets: seq<BudgetElement>, types: FieldTypes) {
    forall k, id | 0 <= k < |budgets| && IsAmount(budgets[k], id) :: AmountType(types, id)
  }

  predicate AmountType(types: FieldTypes, id: string) {
    || HasType(types, id, "moneyField") || HasType(types, id, "vaSelfFinancingField")
    || HasType(types, id, "fixedMultiplierMoneyField")
  }

  datatype Change = Change(id: string, value: string)

  /** An amount that follows from a multiplier is shown as a value, not as a field to fill. */
  predicate Editable(types: FieldTypes, id: string) {
    !HasType(types, id, "fixedMultiplierMoneyField")
  }

  predicate IsMultiplier(types: FieldTypes, id: string) {
    HasType(types, id, "fixedMultiplierField")
  }

  /** The part of an id before its first dot. */
  function BaseId(id: string): string {
    if id == "" || id[0] == '.' then "" else [id[0]] + BaseId(id[1..])
  }

  /** The amount that a multiplier is for. */
  function AmountOf(id: string): string {
    BaseId(id) + ".amount"
  }

  /** The amount has an answer that a multiplier may write. */
  predicate TakesMultiple(answers: Answers, types: FieldTypes, amountId: string) {
    amountId in answers && (HasType(types, amountId, "moneyField") || HasType(types, amountId, "fixedMultiplierMoneyField"))
  }

  /** A multiplier is for the amount in the same row of the budget. */
  lemma {:induction false} MultiplierIsForItsRow(row: string, name: string)
    requires forall i | 0 <= i < |row| :: row[i] != '.'
    ensures BaseId(row + "." + name) == row && AmountOf(row + "." + name) == row + ".amount"
  {
    if row != "" {
      assert (row + "." + name)[0] == row[0] && (row + "." + name)[1..] == row[1..] + "." + name;
      MultiplierIsForItsRow(row[1..], name);
    }
  }

  /** The answers after a field was updated; a multiplier brings its amount along. */
  function Written(answers: Answers, settings: Settings, types: FieldTypes, change: Change): Answers {
    var after := answers[change.id := change.value];
    if IsMultiplier(types, change.id) && TakesMultiple(after, types, AmountOf(change.id))
    then after[AmountOf(change.id) := settings.multiplied(change.value)]
    else after
  }

  /** The amount that a multiplier of digits gives: 21.5 times as much, rounded down, or
      nothing when that has more than seven digits. */
  lemma MultipliedAmount(answers: Answers, settings: Settings, types: FieldTypes, change: Change)
    requires MultipliesDigits(settings.multiplied) && IsMultiplier(types, change.id)
    requires TakesMultiple(answers, types, AmountOf(change.id))
    requires AllDigits(change.value) && 43 * DigitsValue(change.value) <= TWO_52
    ensures var product := 43 * DigitsValue(change.value) / 2;
      Amount(Written(answers, settings, types, change), AmountOf(change.id)) == if product <= 9999999 then product else 0
  {
    NumeralValue(43 * DigitsValue(change.value) / 2);
  }

  /** An update answers no field but its own, and changes no other answer but, for a
      multiplier, the amount of its row, if that is a money field with an answer. */
  lemma UpdateWrites(answers: Answers, settings: Settings, types: FieldTypes, change: Change)
    ensures var after, amountId := Written(answers, settings, types, change), AmountOf(change.id);
      && after.Keys == answers.Keys + {change.id} && after[change.id] == change.value
      && (forall id | id in answers && id != change.id && id != amountId :: after[id] == answers[id])
      && (amountId in answers && amountId != change.id ==>
            after[amountId] == if HasType(types, change.id, "fixedMultiplierField")
                                  && (HasType(types, amountId, "moneyField") || HasType(types, amountId, "fixedMultiplierMoneyField"))
                               then settings.multiplied(change.value) else answers[amountId])
  {
  }

  ghost predicate SameAnswers(a1: Answers, a2: Answers) {
    forall id :: TextAt(a1, id) == TextAt(a2, id)
  }

  /** The budgets that hold a field are derived again. */
  function Updated(budgets: seq<BudgetElement>, answers: Answers, settings: Settings, id: string): seq<BudgetElement>
  {
    seq(|budgets|, k requires 0 <= k < |budgets| =>
      if HoldsId(budgets[k], id) then Derived(budgets[k], answers, settings) else budgets[k])
  }

  lemma OneHolder(budgets: seq<BudgetElement>, answers: Answers, settings: Settings, id: string, k: nat)
    requires k < |budgets| && HoldsId(budgets[k], id) && forall j: nat | j < |budgets| && HoldsId(budgets[j], id) :: j == k
    ensures Updated(budgets, answers, settings, id) == budgets[k := Derived(budgets[k], answers, settings)]
  {
  }

  lemma NoHolder(budgets: seq<BudgetElement>, answers: Answers, settings: Settings, id: string)
    requires forall j | 0 <= j < |budgets| :: !HoldsId(budgets[j], id)
    ensures Updated(budgets, answers, settings, id) == budgets
  {
  }

  /** What every budget caches is what a fresh computation gives. */
  ghost predicate AllFresh(budgets: seq<BudgetElement>, answers: Answers, settings: Settings) {
    forall k | 0 <= k < |budgets| :: Derived(budgets[k], answers, settings) == budgets[k]
  }

  lemma {:induction false} MarkedAgain(items: seq<Item>, answers: Answers)
    ensures var marked := MarkedItems(items, answers);
      MarkedItems(marked, answers) == marked && SumOf(marked, answers) == SumOf(items, answers)
    ensures ContainsErrors(MarkedItems(items, answers), answers) == ContainsErrors(items, answers)
    ensures |MarkedItems(items, answers)| == |items|
    ensures forall i | 0 <= i < |items| :: MarkedItems(items, answers)[i].amountId == items[i].amountId
  {
    MarkedLikeItems(items, answers);
    if items != [] {
      MarkedAgain(items[1..], answers);
      assert MarkedItems(items, answers)[1..] == MarkedItems(items[1..], answers);
    }
  }

  lemma MarkedLikeItems(items: seq<Item>, answers: Answers)
    ensures |MarkedItems(items, answers)| == |items|
    ensures forall i | 0 <= i < |items| :: MarkedItems(items, answers)[i].amountId == items[i].amountId
    ensures ContainsErrors(MarkedItems(items, answers), answers) == ContainsErrors(items, answers)
  {
    forall i | 0 <= i < |items| ensures |MarkedItems(items, answers)| == |items| && MarkedItems(items, answers)[i] == Marked(items[i], answers) {
      MarkedAt(items, answers, i);
    }
  }

  lemma {:induction false} SummedAgain(elements: seq<Summing>, answers: Answers)
    ensures var summed := SummedElements(elements, answers);
      SummedElements(summed, answers) == summed && SumOfSums(summed, answers) == SumOfSums(elements, answers)
  {
    if elements != [] {
      SummedAgain(elements[1..], answers);
      MarkedAgain(elements[0].items, answers);
      assert SummedElements(elements, answers)[1..] == SummedElements(elements[1..], answers);
    }
  }

  lemma ErrorsAgain(elements: seq<Summing>, answers: Answers)
    ensures SomeErrors(SummedElements(elements, answers), answers) == SomeErrors(elements, answers)
  {
    forall k | 0 <= k < |elements|
      ensures ContainsErrors(SummedElements(elements, answers)[k].items, answers) == ContainsErrors(elements[k].items, answers)
    {
      ElementAt(elements, answers, k);
      MarkedAgain(elements[k].items, answers);
    }
  }

  lemma TotalsAgain(elements: seq<Summing>, answers: Answers, settings: Settings)
    ensures ValidateTotalNeeded(SummedElements(elements, answers), answers, settings) ==
      ValidateTotalNeeded(elements, answers, settings)
  {
    ErrorsAgain(elements, answers);
    SummedAgain(elements, answers);
    if elements != [] {
      SummedAgain(elements[1..], answers);
      assert SummedElements(elements, answers)[1..] == SummedElements(elements[1..], answers);
    }
  }

  /** Deriving twice is deriving once. */
  lemma DerivedAgain(b: BudgetElement, answers: Answers, settings: Settings)
    ensures Derived(Derived(b, answers, settings), answers, settings) == Derived(b, answers, settings)
  {
    SummedAgain(b.elements, answers);
    TotalsAgain(b.elements, answers, settings);
  }

  /** The budgets after a field was updated. */
  function UpdateBudgets(budgets: seq<BudgetElement>, after: Answers, settings: Settings, types: FieldTypes, id: string): seq<BudgetElement> {
    if id in types && TriggersBudget(types[id]) then Updated(budgets, after, settings, id)
    else if IsMultiplier(types, id) then Updated(budgets, after, settings, AmountOf(id))
    else budgets
  }

  lemma OthersUpdated(b: BudgetElement, before: Answers, after: Answers)
    requires forall id | IsAmount(b, id) :: TextAt(before, id) == TextAt(after, id)
    ensures SameAmounts(b.elements, before, after) && SameSelfFinancing(b.summary, before, after)
  {
    forall k | 0 <= k < |b.elements| ensures SameReads(b.elements[k].items, before, after) {
      forall i | 0 <= i < |b.elements[k].items|
        ensures TextAt(before, b.elements[k].items[i].amountId) == TextAt(after, b.elements[k].items[i].amountId)
      {
        assert IsAmountIn(b.elements[k].items, b.elements[k].items[i].amountId);
        assert IsAmount(b, b.elements[k].items[i].amountId);
      }
    }
    if b.summary.Some? && b.summary.value.selfFinancingId.Some? { assert IsAmount(b, b.summary.value.selfFinancingId.value); }
  }

  /** A budget that is not derived again has none of the answers that were written. */
  lemma NothingWritten(b: BudgetElement, before: Answers, after: Answers, settings: Settings, types: FieldTypes, change: Change)
    requires Typed([b], types) && Editable(types, change.id) && SameAnswers(after, Written(before, settings, types, change))
    requires UpdateBudgets([b], after, settings, types, change.id) == [b] && Derived(b, after, settings) != b
    ensures forall id | IsAmount(b, id) :: TextAt(before, id) == TextAt(after, id)
  {
    forall id | IsAmount(b, id) ensures TextAt(before, id) == TextAt(after, id) {
      assert IsAmount([b][0], id) && AmountType(types, id) && HoldsId(b, id);
      assert TextAt(after, id) == TextAt(Written(before, settings, types, change), id);
      var r := UpdateBudgets([b], after, settings, types, change.id);
      assert r[0] == b && [b][0] == b;
      assert id != change.id;
      assert IsMultiplier(types, change.id) ==> id != AmountOf(change.id);
    }
  }

  /** An update of any field keeps every cached value equal to a fresh computation. */
  lemma UpdateKeepsFresh(budgets: seq<BudgetElement>, answers: Answers, after: Answers, settings: Settings, types: FieldTypes, change: Change)
    requires AllFresh(budgets, answers, settings) && Typed(budgets, types) && Editable(types, change.id)
    requires SameAnswers(after, Written(answers, settings, types, change))
    ensures AllFresh(UpdateBudgets(budgets, after, settings, types, change.id), after, settings)
  {
    var r := UpdateBudgets(budgets, after, settings, types, change.id);
    forall k | 0 <= k < |r| ensures Derived(r[k], after, settings) == r[k] {
      var b := budgets[k];
      assert Derived(b, answers, settings) == b;
      assert Typed([b], types) by { forall id | IsAmount([b][0], id) ensures AmountType(types, id) { assert IsAmount(budgets[k], id); } }
      assert UpdateBudgets([b], after, settings, types, change.id)[0] == r[k];
      if r[k] == b && Derived(b, after, settings) != b {
        NothingWritten(b, answers, after, settings, types, change);
        OthersUpdated(b, answers, after);
        DependsOnAmounts(b, answers, after, settings);
      } else {
        DerivedAgain(b, after, settings);
      }
    }
  }

  lemma DerivedKeepsAmounts(b: BudgetElement, answers: Answers, settings: Settings, id: string)
    ensures IsAmount(Derived(b, answers, settings), id) ==> IsAmount(b, id)
  {
    var d := Derived(b, answers, settings);
    forall k | 0 <= k < |d.elements| && IsAmountIn(d.elements[k].items, id) ensures IsAmount(b, id) {
      ElementAt(b.elements, answers, k);
      MarkedAgain(b.elements[k].items, answers);
      var i :| 0 <= i < |d.elements[k].items| && d.elements[k].items[i].amountId == id;
      assert b.elements[k].items[i].amountId == id;
      assert IsAmountIn(b.elements[k].items, id);
    }
  }

  lemma UpdateKeepsTyped(budgets: seq<BudgetElement>, after: Answers, settings: Settings, types: FieldTypes, id: string)
    requires Typed(budgets, types)
    ensures Typed(UpdateBudgets(budgets, after, settings, types, id), types)
  {
    var r := UpdateBudgets(budgets, after, settings, types, id);
    forall k, other | 0 <= k < |r| && IsAmount(r[k], other) ensures AmountType(types, other) {
      DerivedKeepsAmounts(budgets[k], after, settings, other);
      assert r[k] == budgets[k] || r[k] == Derived(budgets[k], after, settings);
      assert IsAmount(budgets[k], other);
    }
  }

  /** The budgets of a page and its answers. */
  datatype Page = Page(budgets: seq<BudgetElement>, answers: Answers)

  /** One field update that throws nothing. */
  ghost predicate Stepped(before: Page, change: Change, after: Page, settings: Settings, types: FieldTypes) {
    && SameAnswers(after.answers, Written(before.answers, settings, types, change))
    && after.budgets == UpdateBudgets(before.budgets, after.answers, settings, types, change.id)
  }

  ghost predicate IsRun(pages: seq<Page>, changes: seq<Change>, settings: Settings, types: FieldTypes) {
    && |pages| == |changes| + 1
    && forall i | 0 <= i < |changes| :: StepAt(pages, changes, settings, types, i)
  }

  ghost predicate StepAt(pages: seq<Page>, changes: seq<Change>, settings: Settings, types: FieldTypes, i: nat)
    requires i < |changes| && |pages| == |changes| + 1
  {
    Editable(types, changes[i].id) && Stepped(pages[i], changes[i], pages[i + 1], settings, types)
  }

  /** Everything that the page caches is fresh, and is kept so by the fields' types. */
  ghost predicate PageFresh(page: Page, settings: Settings, types: FieldTypes) {
    AllFresh(page.budgets, page.answers, settings) && Typed(page.budgets, types)
  }

  /** Over any run of field updates, the cached sums, required flags, totals and shares
      equal a fresh computation from the answers. */
  lemma {:induction false} RunsKeepBudgetsFresh(pages: seq<Page>, changes: seq<Change>, settings: Settings, types: FieldTypes, i: nat)
    requires IsRun(pages, changes, settings, types) && i < |pages|
    requires PageFresh(pages[0], settings, types)
    ensures PageFresh(pages[i], settings, types)
  {
    if i > 0 {
      RunsKeepBudgetsFresh(pages, changes, settings, types, i - 1);
      StepOfRun(pages, changes, settings, types, i - 1);
      StepKeepsFresh(pages[i - 1], changes[i - 1], pages[i], settings, types);
    }
  }

  lemma StepOfRun(pages: seq<Page>, changes: seq<Change>, settings: Settings, types: FieldTypes, i: nat)
    requires IsRun(pages, changes, settings, types) && i < |changes|
    ensures i + 1 < |pages| && Editable(types, changes[i].id) && Stepped(pages[i], changes[i], pages[i + 1], settings, types)
  {
    assert StepAt(pages, changes, settings, types, i);
  }

  lemma StepKeepsFresh(before: Page, change: Change, after: Page, settings: Settings, types: FieldTypes)
    requires Editable(types, change.id) && Stepped(before, change, after, settings, types)
    requires PageFresh(before, settings, types)
    ensures PageFresh(after, settings, types)
  {
    UpdateKeepsFresh(before.budgets, before.answers, after.answers, settings, types, change);
    UpdateKeepsTyped(before.budgets, after.answers, settings, types, change.id);
  }

  /** After any such run the page shows, of every budget, what its amounts add less what
      they take, or the granted costs in place of the first subtotal; it counts as positive
      and as valid as it should. */
  lemma RunsKeepTotalsRight(pages: seq<Page>, changes: seq<Change>, settings: Settings, types: FieldTypes, i: nat, k: nat)
    requires IsRun(pages, changes, settings, types) && i < |pages|
    requires PageFresh(pages[0], settings, types)
    requires k < |pages[i].budgets| && pages[i].budgets[k].summary.Some?
    ensures var answers, b := pages[i].answers, pages[i].budgets[k];
      && b.summary.value.totalNeeded.Some?
      && TotalMeans(b.summary.value.totalNeeded.value, b.elements, answers, settings)
  {
    RunsKeepBudgetsFresh(pages, changes, settings, types, i);
    var answers, b := pages[i].answers, pages[i].budgets[k];
    assert Derived(b, answers, settings) == b;
    TotalNeededMeans(b.elements, answers, settings);
  }

  /** After any such run the page shows, of every budget, the entered share and the rest of
      the total, or nothing where no number is entered; the share counts as valid if and only
      if it covers its percentage of the total and does not exceed it; and a valid budget
      grants at most what the percentage leaves. */
  lemma RunsKeepFinancingRight(pages: seq<Page>, changes: seq<Change>, settings: Settings, types: FieldTypes, i: nat, k: nat)
    requires IsRun(pages, changes, settings, types) && i < |pages|
    requires PageFresh(pages[0], settings, types)
    requires AsInMathUtil(settings.shares) && 0 <= settings.percentage <= 100
    requires k < |pages[i].budgets| && pages[i].budgets[k].summary.Some?
    ensures var answers, b := pages[i].answers, pages[i].budgets[k];
      var summary := b.summary.value;
      && summary.totalNeeded.Some? && summary.financing.Some?
      && var total, financing := summary.totalNeeded.value.value, summary.financing.value;
      && FinancingMeans(financing, summary.selfFinancingId, answers, settings, total)
      && (total * 100 <= TWO_52 && summary.selfFinancingId.Some? && settings.ratio.None? ==>
           var share := TextAt(answers, summary.selfFinancingId.value);
           financing.isValid <==>
             IsValidMoney(share) && settings.percentage * total <= 100 * DigitsValue(share) && DigitsValue(share) <= total)
      && (0 <= total && total * 100 <= TWO_52 && settings.ratio.None? && financing.isValid ==>
           WithinItsPart(financing, settings.percentage, total))
  {
    RunsKeepBudgetsFresh(pages, changes, settings, types, i);
    var answers, b := pages[i].answers, pages[i].budgets[k];
    assert Derived(b, answers, settings) == b;
    var id, total := b.summary.value.selfFinancingId, b.summary.value.totalNeeded.value.value;
    WhoPays(id, answers, settings, total);
    if total * 100 <= TWO_52 && settings.ratio.None? {
      if id.Some? { EnteredShareIsValid(id.value, answers, settings, total); }
      if 0 <= total { GrantIsWithinItsPart(id, answers, settings, total); }
    }
  }

  // ------------------------------------------------------------------ in the page

  /** The budgets of a form that is being filled in, with the answers and the errors. */
  class BudgetForm {
    var budgets: seq<BudgetElement>
    var answers: Answers
    var errors: map<string, seq<string>>
    const settings: Settings
    const types: FieldTypes

    /** The state when the form has been loaded: every budget is derived once. */
    constructor (bs: seq<BudgetElement>, saved: Answers, s: Settings, types: FieldTypes, reportErrors: bool)
      ensures |budgets| == |bs| && settings == s && this.types == types && SameAnswers(answers, saved)
      ensures forall k | 0 <= k < |bs| :: budgets[k] == Derived(bs[k], saved, s)
      ensures AllFresh(budgets, answers, s)
    {
      budgets := bs;
      answers := saved;
      errors := map[];
      settings := s;
      this.types := types;
      new;
      for k := 0 to |bs|
        invariant |budgets| == |bs| && SameAnswers(answers, saved)
        invariant forall j | 0 <= j < k :: budgets[j] == Derived(bs[j], saved, s)
        invariant forall j | k <= j < |bs| :: budgets[j] == bs[j]
      {
        SameDerivation(bs[k], answers, saved, s);
        DeriveValuesForBudgetFields(k, reportErrors);
      }
      forall k | 0 <= k < |bs| ensures Derived(budgets[k], answers, s) == budgets[k] {
        SameDerivation(budgets[k], answers, saved, s);
        DerivedAgain(bs[k], saved, s);
      }
    }

    /** Sums the amounts and says which descriptions are required; validating those
        writes back what is there. */
    method GetAmountValuesAndSetRequiredFields(items: seq<Item>) returns (marked: seq<Item>, sum: int, containsErrors: bool)
      modifies this`answers
      ensures marked == MarkedItems(items, old(answers)) && sum == SumOf(items, old(answers))
      ensures containsErrors == ContainsErrors(items, old(answers))
      ensures SameAnswers(answers, old(answers))
    {
      marked, sum, containsErrors := [], 0, false;
      ghost var before := answers;
      for i := 0 to |items|
        invariant SameAnswers(answers, before)
        invariant marked == MarkedItems(items[..i], before) && sum == SumOf(items[..i], before)
        invariant containsErrors == ContainsErrors(items[..i], before)
      {
        var item := items[i];
        ItemsStep(items, i, before);
        var amountValue := TextAt(answers, item.amountId);
        assert amountValue == TextAt(before, item.amountId);
        TouchedAnswer(answers, before, item.descriptionId);
        var isAmountValid := IsValidMoney(amountValue);
        var valueToUse := if isAmountValid then DigitsValue(amountValue) else 0;
        marked := marked + [item.(required := isAmountValid && valueToUse > 0)];
        answers := answers[item.descriptionId := TextAt(answers, item.descriptionId)];
        sum := sum + (if item.incrementsTotal then 1 else -1) * valueToUse;
        containsErrors := containsErrors || !isAmountValid;
      }
      assert items[..|items|] == items;
    }

    method DeriveSubtotals(elements: seq<Summing>) returns (summed: seq<Summing>, sums: seq<int>, someErrors: bool)
      modifies this`answers
      ensures summed == SummedElements(elements, old(answers))
      ensures |sums| == |elements| && forall k | 0 <= k < |elements| :: sums[k] == SumOf(elements[k].items, old(answers))
      ensures someErrors == SomeErrors(elements, old(answers))
      ensures SameAnswers(answers, old(answers))
    {
      summed, sums, someErrors := [], [], false;
      ghost var before := answers;
      for k := 0 to |elements|
        invariant SameAnswers(answers, before) && |sums| == k
        invariant summed == SummedElements(elements, before)[..k]
        invariant forall j | 0 <= j < k :: sums[j] == SumOf(elements[j].items, before)
        invariant someErrors == SomeErrors(elements[..k], before)
      {
        SubtotalStep(elements, k, answers, before);
        var marked, sum, containsErrors := GetAmountValuesAndSetRequiredFields(elements[k].items);
        summed := summed + [Summing(marked, Some(sum))];
        sums := sums + [sum];
        someErrors := someErrors || containsErrors;
      }
      assert elements[..|elements|] == elements;
    }

    method DeriveValuesForBudgetFields(k: nat, reportErrors: bool)
      requires k < |budgets|
      modifies this`budgets, this`answers, this`errors
      ensures budgets == old(budgets)[k := Derived(old(budgets)[k], old(answers), settings)]
      ensures SameAnswers(answers, old(answers))
      ensures errors == match budgets[k].summary
        case None => old(errors)
        case Some(s) =>
          old(errors)[budgets[k].id :=
            if reportErrors then ValidationErrors(s.totalNeeded.value.isBudgetPositive, s.financing.value.isValid) else []]
    {
      var b := budgets[k];
      var summed, sums, someErrors := DeriveSubtotals(b.elements);
      b := b.(elements := summed);
      if b.summary.Some? {
        var total := SumUp(if settings.useDetailedCosts || sums == [] then sums else sums[1..]);
        SumsAreSums(old(budgets)[k].elements, old(answers), sums);
        if !settings.useDetailedCosts { total := total + settings.costsGranted; }
        var totalNeeded := TotalNeeded(total, total > 0, !(settings.useDetailedCosts && someErrors) && total > 0);
        SameFinancing(b.summary.value.selfFinancingId, answers, old(answers), settings, total);
        var financing := ValidateFinancing(b.summary.value.selfFinancingId, answers, settings, total);
        errors := errors[b.id :=
          if reportErrors then ValidationErrors(totalNeeded.isBudgetPositive, financing.isValid) else []];
        b := b.(summary := Some(b.summary.value.(totalNeeded := Some(totalNeeded), financing := Some(financing))));
      }
      budgets := budgets[k := b];
    }

    /** An update of a money field derives the one budget that holds the field; more than
        one is an error. */
    method HandleBudgetAmountUpdate(id: string) returns (thrown: bool)
      modifies this`budgets, this`answers, this`errors
      ensures thrown <==> exists j, k :: 0 <= j < k < |old(budgets)| && HoldsId(old(budgets)[j], id) && HoldsId(old(budgets)[k], id)
      ensures budgets == if thrown then old(budgets) else Updated(old(budgets), old(answers), settings, id)
      ensures SameAnswers(answers, old(answers))
    {
      var holding := Holding(id);
      if holding == [] {
        NoHolder(budgets, answers, settings, id);
        return false;
      }
      if |holding| > 1 {
        assert holding[0] < holding[1];
        return true;
      }
      assert forall j: nat | j < |budgets| && HoldsId(budgets[j], id) :: j in holding;
      OneHolder(budgets, answers, settings, id, holding[0]);
      DeriveValuesForBudgetFields(holding[0], true);
      return false;
    }

    /** The budgets that hold a field, in order. */
    method Holding(id: string) returns (holding: seq<nat>)
      ensures forall p | 0 <= p < |holding| :: holding[p] < |budgets| && HoldsId(budgets[holding[p]], id)
      ensures forall p, q | 0 <= p < q < |holding| :: holding[p] < holding[q]
      ensures forall j: nat | j < |budgets| && HoldsId(budgets[j], id) :: j in holding
    {
      holding := [];
      for k := 0 to |budgets|
        invariant forall p | 0 <= p < |holding| :: holding[p] < k && HoldsId(budgets[holding[p]], id)
        invariant forall p, q | 0 <= p < q < |holding| :: holding[p] < holding[q]
        invariant forall j: nat | j < k && HoldsId(budgets[j], id) :: j in holding
      {
        if HoldsId(budgets[k], id) { holding := holding + [k]; }
      }
    }

    /** An update of a multiplier writes the amount it is for, and derives that budget. */
    method HandleFixedMultiplierUpdate(id: string) returns (thrown: bool)
      requires IsMultiplier(types, id) && id in answers
      modifies this`budgets, this`answers, this`errors
      ensures SameAnswers(answers, Written(old(answers), settings, types, Change(id, old(answers)[id])))
      ensures !thrown ==>
        budgets == Updated(old(budgets), Written(old(answers), settings, types, Change(id, old(answers)[id])), settings, AmountOf(id))
      ensures thrown ==> budgets == old(budgets)
    {
      var amountId := AmountOf(id);
      var value := settings.multiplied(TextAt(answers, id));
      assert answers == answers[id := answers[id]];
      if TakesMultiple(answers, types, amountId) { answers := answers[amountId := value]; }
      thrown := HandleBudgetAmountUpdate(amountId);
    }

    /** A field update as the page handles it. */
    method OnUpdateField(id: string, value: string) returns (thrown: bool)
      modifies this`budgets, this`answers, this`errors
      ensures SameAnswers(answers, Written(old(answers), settings, types, Change(id, value)))
      ensures !thrown ==> Stepped(old(Page(budgets, answers)), Change(id, value), Page(budgets, answers), settings, types)
      ensures thrown ==> budgets == old(budgets)
    {
      ghost var written := Written(answers, settings, types, Change(id, value));
      thrown := WriteAndDerive(id, value);
      SameUpdates(old(budgets), written, answers, settings, types, id);
    }

    method WriteAndDerive(id: string, value: string) returns (thrown: bool)
      modifies this`budgets, this`answers, this`errors
      ensures SameAnswers(answers, Written(old(answers), settings, types, Change(id, value)))
      ensures !thrown ==>
        budgets == UpdateBudgets(old(budgets), Written(old(answers), settings, types, Change(id, value)), settings, types, id)
      ensures thrown ==> budgets == old(budgets)
    {
      answers := answers[id := value];
      thrown := false;
      if id in types && TriggersBudget(types[id]) {
        thrown := HandleBudgetAmountUpdate(id);
      } else if IsMultiplier(types, id) {
        assert Written(answers, settings, types, Change(id, value)) == Written(old(answers), settings, types, Change(id, value)) by {
          assert answers[id := value] == old(answers)[id := value];
        }
        thrown := HandleFixedMultiplierUpdate(id);
      }
    }
  }

  lemma SameUpdates(budgets: seq<BudgetElement>, a1: Answers, a2: Answers, settings: Settings, types: FieldTypes, id: string)
    requires SameAnswers(a1, a2)
    ensures UpdateBudgets(budgets, a1, settings, types, id) == UpdateBudgets(budgets, a2, settings, types, id)
  {
    forall k | 0 <= k < |budgets| ensures Derived(budgets[k], a1, settings) == Derived(budgets[k], a2, settings) {
      SameDerivation(budgets[k], a1, a2, settings);
    }
  }

  lemma {:induction false} ItemsAppend(xs: seq<Item>, ys: seq<Item>, answers: Answers)
    ensures MarkedItems(xs + ys, answers) == MarkedItems(xs, answers) + MarkedItems(ys, answers)
    ensures SumOf(xs + ys, answers) == SumOf(xs, answers) + SumOf(ys, answers)
  {
    if xs == [] { assert xs + ys == ys; } else {
      assert (xs + ys)[1..] == xs[1..] + ys;
      ItemsAppend(xs[1..], ys, answers);
    }
  }

  lemma ItemsStep(items: seq<Item>, i: nat, answers: Answers)
    requires i < |items|
    ensures MarkedItems(items[..i + 1], answers) == MarkedItems(items[..i], answers) + [Marked(items[i], answers)]
    ensures SumOf(items[..i + 1], answers) == SumOf(items[..i], answers) + ItemValue(items[i], answers)
    ensures ContainsErrors(items[..i + 1], answers) <==>
      ContainsErrors(items[..i], answers) || !IsValidMoney(TextAt(answers, items[i].amountId))
  {
    assert items[..i + 1] == items[..i] + [items[i]];
    ItemsAppend(items[..i], [items[i]], answers);
    OneItem(items[i], answers);
    ErrorsStep(items, i, answers);
  }

  lemma OneItem(item: Item, answers: Answers)
    ensures MarkedItems([item], answers) == [Marked(item, answers)] && SumOf([item], answers) == ItemValue(item, answers)
  {
    assert [item][1..] == [];
  }

  lemma ErrorsStep(items: seq<Item>, i: nat, answers: Answers)
    requires i < |items|
    ensures ContainsErrors(items[..i + 1], answers) <==>
      ContainsErrors(items[..i], answers) || !IsValidMoney(TextAt(answers, items[i].amountId))
  {
    if !IsValidMoney(TextAt(answers, items[i].amountId)) { assert items[..i + 1][i] == items[i]; }
    if ContainsErrors(items[..i], answers) {
      var j :| 0 <= j < i && !IsValidMoney(TextAt(answers, items[..i][j].amountId));
      assert items[..i + 1][j] == items[j];
    }
    if ContainsErrors(items[..i + 1], answers) {
      var j :| 0 <= j < i + 1 && !IsValidMoney(TextAt(answers, items[..i + 1][j].amountId));
      if j < i { assert items[..i][j] == items[j]; }
    }
  }

  /** One element, read from answers that read the same. */
  lemma SubtotalStep(elements: seq<Summing>, k: nat, answers: Answers, before: Answers)
    requires k < |elements| && SameAnswers(answers, before)
    ensures var items := elements[k].items;
      && SummedElements(elements, before)[k] == Summing(MarkedItems(items, answers), Some(SumOf(items, answers)))
      && SumOf(items, answers) == SumOf(items, before)
      && (SomeErrors(elements[..k + 1], before) <==> SomeErrors(elements[..k], before) || ContainsErrors(items, answers))
  {
    ElementAt(elements, before, k);
    SomeErrorsStep(elements, k, before);
    AgreedItems(elements[k].items, answers, before);
  }

  lemma SomeErrorsStep(elements: seq<Summing>, k: nat, answers: Answers)
    requires k < |elements|
    ensures SomeErrors(elements[..k + 1], answers) <==> SomeErrors(elements[..k], answers) || ContainsErrors(elements[k].items, answers)
  {
    var before, after := elements[..k], elements[..k + 1];
    assert after == before + [elements[k]];
    if SomeErrors(before, answers) {
      var j :| 0 <= j < k && ContainsErrors(before[j].items, answers);
      assert after[j] == before[j];
    }
    if ContainsErrors(elements[k].items, answers) { assert after[k] == elements[k]; }
  }

  lemma TouchedAnswer(answers: Answers, before: Answers, id: string)
    requires SameAnswers(answers, before)
    ensures SameAnswers(answers[id := TextAt(answers, id)], before)
  {
    var touched := answers[id := TextAt(answers, id)];
    forall other ensures TextAt(touched, other) == TextAt(before, other) {
      assert TextAt(answers, other) == TextAt(before, other);
    }
  }

  method SumUp(sums: seq<int>) returns (total: int)
    ensures total == SumInts(sums)
  {
    total := 0;
    for i := 0 to |sums|
      invariant SumInts(sums) == total + SumInts(sums[i..])
    {
      assert sums[i..][1..] == sums[i + 1..];
      total := total + sums[i];
    }
  }

  function SumInts(xs: seq<int>): int {
    if xs == [] then 0 else xs[0] + SumInts(xs[1..])
  }

  lemma {:induction false} SumsAreSums(elements: seq<Summing>, answers: Answers, sums: seq<int>)
    requires |sums| == |elements| && forall k | 0 <= k < |elements| :: sums[k] == SumOf(elements[k].items, answers)
    ensures SumInts(sums) == SumOfSums(elements, answers)
    ensures elements != [] ==> SumInts(sums[1..]) == SumOfSums(elements[1..], answers)
  {
    if elements != [] {
      assert forall k | 0 <= k < |elements[1..]| :: sums[1..][k] == SumOf(elements[1..][k].items, answers);
      SumsAreSums(elements[1..], answers, sums[1..]);
    }
  }

  lemma AgreedItems(items: seq<Item>, a1: Answers, a2: Answers)
    requires SameAnswers(a1, a2)
    ensures SumOf(items, a1) == SumOf(items, a2) && MarkedItems(items, a1) == MarkedItems(items, a2)
    ensures ContainsErrors(items, a1) == ContainsErrors(items, a2)
  {
    SameItems(items, a1, a2);
  }

  lemma SameFinancing(selfId: Option<string>, a1: Answers, a2: Answers, settings: Settings, total: int)
    requires SameAnswers(a1, a2)
    ensures ValidateFinancing(selfId, a1, settings, total) == ValidateFinancing(selfId, a2, settings, total)
  {
    if selfId.Some? { assert TextAt(a1, selfId.value) == TextAt(a2, selfId.value); }
  }

  lemma SameDerivation(b: BudgetElement, a1: Answers, a2: Answers, settings: Settings)
    requires SameAnswers(a1, a2)
    ensures Derived(b, a1, settings) == Derived(b, a2, settings)
  {
    DependsOnAmounts(b, a1, a2, settings);
  }
}
