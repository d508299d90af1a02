/** The comparison that puts base-2 before base-10. */
module NaturalOrder {
  import opened Decimal
  import opened FieldIds

  /** A run of digits, by its value, or a run of other characters. */
  datatype Token = Num(n: nat) | Text(s: string)

  /** The length of the run of digits, or of non-digits, that s starts with. */
  function RunLength(s: string, digits: bool): (k: nat)
    ensures k <= |s| && (forall i | 0 <= i < k :: IsDigit(s[i]) == digits)
    ensures k < |s| ==> IsDigit(s[k]) != digits
  {
    if s == "" || IsDigit(s[0]) != digits then 0 else 1 + RunLength(s[1..], digits)
  }

  function TokenOf(run: string): Token {
    if AllDigits(run) then Num(DigitsValue(run)) else Text(run)
  }

  /** The alternating runs of digits and other characters. */
  function Tokenize(s: string): seq<Token>
    decreases |s|
  {
    if s == "" then []
    else
      var k := RunLength(s, IsDigit(s[0]));
      [TokenOf(s[..k])] + Tokenize(s[k..])
  }

  /** The collation of texts, of which only its order laws are used. */
  type Collation = (string, string) -> int

  function Sign(n: int): int {
    if n < 0 then -1 else if n > 0 then 1 else 0
  }

  ghost predicate TotalPreorder(collate: Collation) {
    && (forall s, t :: Sign(collate(s, t)) == -Sign(collate(t, s)))
    && (forall s, t, u :: collate(s, t) <= 0 && collate(t, u) <= 0 ==> collate(s, u) <= 0)
  }

  /** Numbers by value, texts by collation, numbers before texts. */
  function CompareTokens(collate: Collation, a: Token, b: Token): int {
    match (a, b)
    case (Num(m), Num(n)) => m - n
    case (Text(s), Text(t)) => collate(s, t)
    case (Num(_), Text(_)) => -1
    case (Text(_), Num(_)) => 1
  }

  function CompareAll(collate: Collation, ax: seq<Token>, bx: seq<Token>): int {
    if ax == [] || bx == [] then |ax| - |bx|
    else
      var first := CompareTokens(collate, ax[0], bx[0]);
      if first != 0 then first else CompareAll(collate, ax[1..], bx[1..])
  }

  function Compare(collate: Collation, a: string, b: string): int {
    CompareAll(collate, Tokenize(a), Tokenize(b))
  }

  /** Compares two strings by taking tokens off both lists while they are equal. */
  method NaturalCompare(collate: Collation, a: string, b: string) returns (r: int)
    ensures r == Compare(collate, a, b)
  {
    var ax, bx := Tokenize(a), Tokenize(b);
    while ax != [] && bx != []
      invariant CompareAll(collate, ax, bx) == Compare(collate, a, b)
      decreases |ax|
    {
      var an, bn := ax[0], bx[0];
      ax, bx := ax[1..], bx[1..];
      var nn := CompareTokens(collate, an, bn);
      if nn != 0 { return nn; }
    }
    return |ax| - |bx|;
  }

  // ------------------------------------------------------------- a total preorder

  lemma TokensPreorder(collate: Collation, a: Token, b: Token, c: Token)
    requires TotalPreorder(collate)
    ensures Sign(CompareTokens(collate, a, b)) == -Sign(CompareTokens(collate, b, a))
    ensures CompareTokens(collate, a, b) <= 0 && CompareTokens(collate, b, c) <= 0 ==> CompareTokens(collate, a, c) <= 0
    ensures CompareTokens(collate, a, b) <= 0 && CompareTokens(collate, b, c) <= 0 && CompareTokens(collate, a, c) == 0 ==>
      CompareTokens(collate, a, b) == 0 && CompareTokens(collate, b, c) == 0
  {
    match (a, b, c)
    case (Text(s), Text(t), Text(u)) =>
      assert Sign(collate(s, t)) == -Sign(collate(t, s));
      assert Sign(collate(t, u)) == -Sign(collate(u, t));
      assert Sign(collate(s, u)) == -Sign(collate(u, s));
      assert collate(t, u) <= 0 && collate(u, s) <= 0 ==> collate(t, s) <= 0;
      assert collate(u, s) <= 0 && collate(s, t) <= 0 ==> collate(u, t) <= 0;
    case (Text(s), Text(t), Num(_)) =>
      assert Sign(collate(s, t)) == -Sign(collate(t, s));
    case _ =>
  }

  lemma {:induction false} ListsAntisymmetric(collate: Collation, ax: seq<Token>, bx: seq<Token>)
    requires TotalPreorder(collate)
    ensures Sign(CompareAll(collate, ax, bx)) == -Sign(CompareAll(collate, bx, ax))
  {
    if ax != [] && bx != [] {
      TokensPreorder(collate, ax[0], bx[0], bx[0]);
      ListsAntisymmetric(collate, ax[1..], bx[1..]);
    }
  }

  lemma {:induction false} ListsTransitive(collate: Collation, ax: seq<Token>, bx: seq<Token>, cx: seq<Token>)
    requires TotalPreorder(collate)
    requires CompareAll(collate, ax, bx) <= 0 && CompareAll(collate, bx, cx) <= 0
    ensures CompareAll(collate, ax, cx) <= 0
  {
    if ax != [] && bx != [] && cx != [] {
      TokensPreorder(collate, ax[0], bx[0], cx[0]);
      if CompareTokens(collate, ax[0], cx[0]) == 0 {
        ListsTransitive(collate, ax[1..], bx[1..], cx[1..]);
      }
    }
  }

  /** On all strings, for any collation that is a total preorder, so is the comparison. */
  lemma NaturalOrderIsTotalPreorder(collate: Collation, a: string, b: string, c: string)
    requires TotalPreorder(collate)
    ensures Sign(Compare(collate, a, b)) == -Sign(Compare(collate, b, a))
    ensures Compare(collate, a, b) <= 0 && Compare(collate, b, c) <= 0 ==> Compare(collate, a, c) <= 0
  {
    ListsAntisymmetric(collate, Tokenize(a), Tokenize(b));
    if Compare(collate, a, b) <= 0 && Compare(collate, b, c) <= 0 {
      ListsTransitive(collate, Tokenize(a), Tokenize(b), Tokenize(c));
    }
  }

  /** Of two lists the one is less that has the lesser token where they first differ, or
      that ends there. */
  ghost predicate LessAt(collate: Collation, ax: seq<Token>, bx: seq<Token>, k: nat) {
    && k <= |ax| && k <= |bx| && (forall i | 0 <= i < k :: CompareTokens(collate, ax[i], bx[i]) == 0)
    && k < |bx| && (k < |ax| ==> CompareTokens(collate, ax[k], bx[k]) < 0)
  }

  lemma {:induction false} ListsCompare(collate: Collation, ax: seq<Token>, bx: seq<Token>)
    ensures CompareAll(collate, ax, bx) < 0 <==> exists k: nat :: LessAt(collate, ax, bx, k)
  {
    if ax != [] && bx != [] {
      ListsCompare(collate, ax[1..], bx[1..]);
      LessInRest(collate, ax, bx);
    } else if bx != [] {
      assert LessAt(collate, ax, bx, 0);
    }
  }

  lemma LessInRest(collate: Collation, ax: seq<Token>, bx: seq<Token>)
    requires ax != [] && bx != []
    ensures (exists k: nat :: LessAt(collate, ax, bx, k)) <==>
      CompareTokens(collate, ax[0], bx[0]) < 0 ||
      (CompareTokens(collate, ax[0], bx[0]) == 0 && exists k: nat :: LessAt(collate, ax[1..], bx[1..], k))
  {
    if k: nat :| LessAt(collate, ax, bx, k) {
      if k > 0 { assert LessAt(collate, ax[1..], bx[1..], k - 1); }
    }
    if CompareTokens(collate, ax[0], bx[0]) < 0 { assert LessAt(collate, ax, bx, 0); }
    if CompareTokens(collate, ax[0], bx[0]) == 0 && exists k: nat :: LessAt(collate, ax[1..], bx[1..], k) {
      var k: nat :| LessAt(collate, ax[1..], bx[1..], k);
      assert forall i | 0 < i < k + 1 :: ax[i] == ax[1..][i - 1] && bx[i] == bx[1..][i - 1];
      assert LessAt(collate, ax, bx, k + 1);
    }
  }

  /** Numbers compare by their values, texts as they are collated, and a number comes
      before a text. */
  lemma WholeTokens(collate: Collation, s: string, t: string)
    requires s != "" && t != ""
    ensures AllDigits(s) && AllDigits(t) ==> Compare(collate, s, t) == DigitsValue(s) - DigitsValue(t)
    ensures NoDigits(s) && NoDigits(t) ==> Compare(collate, s, t) == collate(s, t)
    ensures AllDigits(s) && NoDigits(t) ==> Compare(collate, s, t) < 0 < Compare(collate, t, s)
  {
    WholeToken(s);
    WholeToken(t);
    if AllDigits(s) && AllDigits(t) { OneToken(collate, Num(DigitsValue(s)), Num(DigitsValue(t))); }
    if NoDigits(s) && NoDigits(t) { OneToken(collate, Text(s), Text(t)); }
    if AllDigits(s) && NoDigits(t) {
      OneToken(collate, Num(DigitsValue(s)), Text(t));
      OneToken(collate, Text(t), Num(DigitsValue(s)));
    }
  }

  lemma OneToken(collate: Collation, a: Token, b: Token)
    ensures CompareAll(collate, [a], [b]) == CompareTokens(collate, a, b)
  {
    assert [a][1..] == [] && [b][1..] == [];
  }

  predicate NoDigits(s: string) {
    forall i | 0 <= i < |s| :: !IsDigit(s[i])
  }

  lemma WholeToken(s: string)
    requires s != ""
    ensures AllDigits(s) ==> Tokenize(s) == [Num(DigitsValue(s))]
    ensures NoDigits(s) ==> Tokenize(s) == [Text(s)]
  {
    if AllDigits(s) || NoDigits(s) {
      RunLengthIs(s, IsDigit(s[0]), |s|);
      assert s[..|s|] == s && s[|s|..] == "";
    }
  }

  // ------------------------------------------------------------------ index order

  lemma {:induction false} RunLengthIs(s: string, digits: bool, k: nat)
    requires k <= |s| && (forall i | 0 <= i < k :: IsDigit(s[i]) == digits) && (k < |s| ==> IsDigit(s[k]) != digits)
    ensures RunLength(s, digits) == k
  {
    if k > 0 { RunLengthIs(s[1..], digits, k - 1); }
  }

  lemma TokenizeDigits(digits: string)
    requires digits != "" && AllDigits(digits)
    ensures Tokenize(digits) == [Num(DigitsValue(digits))]
  {
    RunLengthIs(digits, true, |digits|);
    assert digits[..|digits|] == digits && digits[|digits|..] == "";
  }

  lemma RunLengthExtended(s: string, digits: string)
    requires s != "" && digits != ""
    requires RunLength(s, IsDigit(s[0])) == |s| ==> !IsDigit(s[0]) && IsDigit(digits[0])
    ensures RunLength(s + digits, IsDigit(s[0])) == RunLength(s, IsDigit(s[0]))
  {
    RunLengthIs(s + digits, IsDigit(s[0]), RunLength(s, IsDigit(s[0])));
  }

  lemma TokenizeExtended(s: string, digits: string, k: nat)
    requires s != "" && k == RunLength(s, IsDigit(s[0]))
    requires digits != "" && (k == |s| ==> !IsDigit(s[0]) && IsDigit(digits[0]))
    ensures 0 < k
    ensures Tokenize(s) == [TokenOf(s[..k])] + Tokenize(s[k..])
    ensures Tokenize(s + digits) == [TokenOf(s[..k])] + Tokenize(s[k..] + digits)
  {
    RunLengthExtended(s, digits);
    RunIsNotEmpty(s);
    PartsOfSum(s, digits, k);
    TokenizeOnce(s, k);
    TokenizeOnce(s + digits, k);
  }

  lemma PartsOfSum(s: string, t: string, k: nat)
    requires 0 < k <= |s|
    ensures (s + t)[0] == s[0] && (s + t)[..k] == s[..k] && (s + t)[k..] == s[k..] + t
  {
  }

  lemma RunIsNotEmpty(s: string)
    requires s != ""
    ensures 0 < RunLength(s, IsDigit(s[0])) <= |s|
  {
  }

  lemma TokenizeOnce(s: string, k: nat)
    requires s != "" && k == RunLength(s, IsDigit(s[0])) && k <= |s|
    ensures Tokenize(s) == [TokenOf(s[..k])] + Tokenize(s[k..])
  {
  }

  /** Digits after something that does not end in a digit are a token of their own. */
  lemma {:induction false} TokenizeNumberedId(s: string, digits: string)
    requires s != "" && !IsDigit(s[|s| - 1]) && digits != "" && AllDigits(digits)
    ensures Tokenize(s + digits) == Tokenize(s) + [Num(DigitsValue(digits))]
    decreases |s|
  {
    var k := RunLength(s, IsDigit(s[0]));
    TokenizeExtended(s, digits, k);
    if k == |s| {
      assert s[k..] + digits == digits;
      TokenizeDigits(digits);
    } else {
      TokenizeNumberedId(s[k..], digits);
    }
  }

  lemma {:induction false} SamePrefix(collate: Collation, common: seq<Token>, a: Token, b: Token)
    requires TotalPreorder(collate)
    ensures CompareAll(collate, common + [a], common + [b]) == CompareTokens(collate, a, b)
  {
    if common == [] {
      assert ([] + [a])[1..] == [] && ([] + [b])[1..] == [];
    } else {
      TokensPreorder(collate, common[0], common[0], common[0]);
      assert (common + [a])[1..] == common[1..] + [a] && (common + [b])[1..] == common[1..] + [b];
      SamePrefix(collate, common[1..], a, b);
    }
  }

  /** Rows compare as their indices do, whatever the base; so sorting rows by their ids
      puts them in index order. */
  lemma RowsCompareByIndex(collate: Collation, base: string, i: nat, j: nat)
    requires TotalPreorder(collate)
    ensures Compare(collate, RowName(base, i), RowName(base, j)) == i - j
  {
    var front := base + "-";
    TokenizeNumberedId(front, Numeral(i));
    TokenizeNumberedId(front, Numeral(j));
    assert RowName(base, i) == front + Numeral(i) && RowName(base, j) == front + Numeral(j);
    NumeralValue(i);
    NumeralValue(j);
    SamePrefix(collate, Tokenize(front), Num(i), Num(j));
  }
}
