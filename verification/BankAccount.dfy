/** IBAN check digits: the MOD 97-10 system of ISO/IEC 7064, computed in blocks of nine
    digits, and the errors that it detects. */
module BankAccount {
  import opened Decimal
  import opened Texts

  ghost predicate Congruent(x: int, y: int) {
    (x - y) % 97 == 0
  }

  lemma TenTimes(x: int, y: int, c: int)
    ensures Congruent(10 * x + c, 10 * y + c) <==> Congruent(x, y)
  {
    var d := x - y;
    assert 10 * x + c - (10 * y + c) == 10 * d;
    TenTimesMultiple(d);
  }

  /** 68 is the inverse of 10. */
  lemma TenTimesMultiple(d: int)
    ensures (10 * d) % 97 == 0 <==> d % 97 == 0
  {
    Invertible(10, 68, 7, d);
  }

  lemma MultipleOf97(n: int, k: int)
    requires n == 97 * k
    ensures n % 97 == 0
  {
  }

  /** A factor that has an inverse hides no multiple of 97. */
  lemma Invertible(k: int, inverse: int, t: int, z: int)
    requires k * inverse == 97 * t + 1
    ensures (k * z) % 97 == 0 <==> z % 97 == 0
  {
    if (k * z) % 97 == 0 {
      var q := k * z / 97;
      assert k * z == 97 * q;
      Regrouped(k, inverse, t, z, q);
      MultipleOf97(z, inverse * q - t * z);
    }
    if z % 97 == 0 {
      var q := z / 97;
      assert z == 97 * q;
      Scaled(k, z, q);
      MultipleOf97(k * z, k * q);
    }
  }

  lemma Regrouped(k: int, inverse: int, t: int, z: int, q: int)
    requires k * inverse == 97 * t + 1 && k * z == 97 * q
    ensures z == 97 * (inverse * q - t * z)
  {
    calc {
      z;
      == (97 * t + 1) * z - 97 * t * z;
      == (k * inverse) * z - 97 * t * z;
      == inverse * (k * z) - 97 * t * z;
      == inverse * (97 * q) - 97 * t * z;
      == 97 * (inverse * q - t * z);
    }
  }

  lemma Scaled(k: int, z: int, q: int)
    requires z == 97 * q
    ensures k * z == 97 * (k * q)
  {
  }

  /** 97 is prime to ten: digits after them hide no difference between two numbers. */
  lemma {:induction false} CommonTail(p: string, q: string, t: string)
    requires AllDigits(p) && AllDigits(q) && AllDigits(t)
    ensures AllDigits(p + t) && AllDigits(q + t)
    ensures Congruent(DigitsValue(p + t), DigitsValue(q + t)) <==> Congruent(DigitsValue(p), DigitsValue(q))
  {
    if t == "" {
      assert p + t == p && q + t == q;
    } else {
      var front := t[..|t| - 1];
      assert (p + t)[..|p + t| - 1] == p + front && (q + t)[..|q + t| - 1] == q + front;
      CommonTail(p, q, front);
      TenTimes(DigitsValue(p + front), DigitsValue(q + front), DigitValue(t[|t| - 1]));
    }
  }

  /** Behind the same digits, two numbers of the same length differ as they do alone. */
  lemma {:induction false} CommonFront(p: string, m: string, n: string)
    requires AllDigits(p) && AllDigits(m) && AllDigits(n) && |m| == |n|
    ensures AllDigits(p + m) && AllDigits(p + n)
    ensures DigitsValue(p + m) - DigitsValue(p + n) == DigitsValue(m) - DigitsValue(n)
  {
    if m == "" {
      assert p + m == p && p + n == p;
    } else {
      assert (p + m)[..|p + m| - 1] == p + m[..|m| - 1] && (p + n)[..|p + n| - 1] == p + n[..|n| - 1];
      CommonFront(p, m[..|m| - 1], n[..|n| - 1]);
    }
  }

  lemma CongruentResidues(x: int, y: int)
    ensures Congruent(x, y) <==> x % 97 == y % 97
  {
  }

  lemma ShortNumeral(n: nat)
    requires n < 97
    ensures |Numeral(n)| <= 2 && AllDigits(Numeral(n)) && DigitsValue(Numeral(n)) == n
  {
    NumeralValue(n);
    if n >= 10 { assert n / 10 < 10; assert |Numeral(n / 10)| == 1; }
  }

  /** Replacing a block by its remainder keeps the residue. */
  lemma ReducedBlock(block: string, rest: string)
    requires AllDigits(block) && AllDigits(rest)
    ensures var reduced := Numeral(DigitsValue(block) % 97);
      && |reduced| <= 2 && AllDigits(reduced + rest) && AllDigits(block + rest)
      && DigitsValue(reduced + rest) % 97 == DigitsValue(block + rest) % 97
  {
    var v := DigitsValue(block);
    ResidueIsCongruent(v);
    ShortNumeral(v % 97);
    SameValueBlock(Numeral(v % 97), block, rest);
  }

  lemma ResidueIsCongruent(v: int)
    ensures 0 <= v % 97 < 97 && Congruent(v % 97, v)
  {
    var k := v / 97;
    assert v % 97 - v == 97 * -k;
  }

  lemma SameValueBlock(p: string, q: string, rest: string)
    requires AllDigits(p) && AllDigits(q) && AllDigits(rest) && Congruent(DigitsValue(p), DigitsValue(q))
    ensures AllDigits(p + rest) && AllDigits(q + rest) && DigitsValue(p + rest) % 97 == DigitsValue(q + rest) % 97
  {
    CommonTail(p, q, rest);
    CongruentResidues(DigitsValue(p + rest), DigitsValue(q + rest));
  }

  /** The number that a string of digits stands for, modulo 97, found nine digits at a
      time; every round makes the string shorter. */
  method Iso7064Mod97_10(iban: string) returns (r: int)
    requires AllDigits(iban) && iban != ""
    ensures r == DigitsValue(iban) % 97
  {
    var remainder := iban;
    while |remainder| > 2
      invariant AllDigits(remainder) && remainder != ""
      invariant DigitsValue(remainder) % 97 == DigitsValue(iban) % 97
      decreases |remainder|
    {
      var block := remainder[..if |remainder| < 9 then |remainder| else 9];
      var rest := remainder[|block|..];
      assert remainder == block + rest;
      var reduced := DigitsValue(block) % 97;
      ReducedBlock(block, rest);
      remainder := Numeral(reduced) + rest;
    }
    r := DigitsValue(remainder) % 97;
  }

  // --------------------------------------------------------------------- the IBAN

  predicate IsLetter(c: char) { 'A' <= c <= 'Z' }

  predicate IsAlphanumeric(s: string) {
    forall i | 0 <= i < |s| :: IsLetter(s[i]) || IsDigit(s[i])
  }

  predicate SameClass(c: char, d: char) {
    (IsLetter(c) && IsLetter(d)) || (IsDigit(c) && IsDigit(d))
  }

  /** A digit stands for itself, a letter for two digits. */
  function CharDigits(c: char): (s: string)
    requires IsLetter(c) || IsDigit(c)
    ensures AllDigits(s) && s != ""
  {
    if IsDigit(c) then [c] else Numeral(c as int - 55)
  }

  function Expand(s: string): (r: string)
    requires IsAlphanumeric(s)
    ensures AllDigits(r) && (s != "" ==> r != "")
  {
    if s == "" then "" else CharDigits(s[0]) + Expand(s[1..])
  }

  function Upper(c: char): char {
    if 'a' <= c <= 'z' then (c as int - 32) as char else c
  }

  /** Upper case, and without white space. */
  function Normalize(input: string): string {
    if input == "" then ""
    else if IsSpace(input[0]) then Normalize(input[1..])
    else [Upper(input[0])] + Normalize(input[1..])
  }

  /** ISO 13616 allows 34 characters. */
  type IbanLength = n: nat | n <= 34

  const CODE_LENGTHS: map<string, IbanLength> := map[
    "AL" := 28, "AD" := 24, "AE" := 23, "AT" := 20, "AZ" := 28, "AX" := 21, "BA" := 20, "BE" := 16, "BG" := 22,
    "BH" := 22, "BR" := 29, "CH" := 21, "CR" := 21, "CY" := 28, "CZ" := 24, "DE" := 22, "DK" := 18, "DO" := 28,
    "EE" := 20, "ES" := 24, "FI" := 18, "FO" := 18, "FR" := 27, "GB" := 22, "GE" := 22, "GI" := 23, "GL" := 18,
    "GR" := 27, "GT" := 28, "HR" := 21, "HU" := 28, "IE" := 22, "IL" := 23, "IS" := 26, "IT" := 27, "JO" := 30,
    "KW" := 30, "KZ" := 20, "LB" := 28, "LI" := 21, "LT" := 20, "LU" := 20, "LV" := 21, "MC" := 27, "MD" := 24,
    "ME" := 22, "MK" := 19, "MR" := 27, "MT" := 31, "MU" := 30, "NL" := 18, "NO" := 15, "PK" := 24, "PL" := 28,
    "PS" := 29, "PT" := 25, "QA" := 29, "RO" := 24, "RS" := 22, "SA" := 24, "SE" := 24, "SI" := 19, "SK" := 24,
    "SM" := 27, "TL" := 23, "TN" := 24, "TR" := 26, "VG" := 24, "XK" := 20]

  /** Country code, two check digits, and the account number. */
  predicate WellFormed(iban: string) {
    && |iban| >= 5 && IsAlphanumeric(iban)
    && IsLetter(iban[0]) && IsLetter(iban[1]) && IsDigit(iban[2]) && IsDigit(iban[3])
    && iban[..2] in CODE_LENGTHS && |iban| == CODE_LENGTHS[iban[..2]]
  }

  /** Country code and check digits come last. */
  function Rearranged(iban: string): (r: string)
    requires |iban| >= 4
    ensures |r| == |iban|
    ensures IsAlphanumeric(iban) ==> IsAlphanumeric(r)
  {
    iban[4..] + iban[..2] + iban[2..4]
  }

  function Residue(s: string): int
    requires IsAlphanumeric(s)
  {
    DigitsValue(Expand(s)) % 97
  }

  predicate ValidIban(iban: string) {
    WellFormed(iban) && Residue(Rearranged(iban)) == 1
  }

  method IsValidIban(input: string) returns (valid: bool)
    ensures valid == ValidIban(Normalize(input))
  {
    var iban := Normalize(input);
    if !WellFormed(iban) { return false; }
    var digits := Expand(Rearranged(iban));
    var residue := Iso7064Mod97_10(digits);
    return residue == 1;
  }

  // -------------------------------------------------------------- error detection

  function CharValue(c: char): (v: nat)
    requires IsLetter(c) || IsDigit(c)
    ensures v == DigitsValue(CharDigits(c))
    ensures v == if IsDigit(c) then c as int - '0' as int else c as int - 55
  {
    if IsDigit(c) then
      assert DigitsValue([c][..0]) == 0;
      DigitValue(c)
    else
      NumeralValue(c as int - 55);
      c as int - 55
  }

  function Width(c: char): nat {
    if IsDigit(c) then 1 else 2
  }

  lemma WidthOfChar(c: char)
    requires IsLetter(c) || IsDigit(c)
    ensures |CharDigits(c)| == Width(c)
  {
    if IsLetter(c) {
      var n := c as int - 55;
      assert 10 <= n < 36;
      assert |Numeral(n / 10)| == 1;
    }
  }

  lemma Regroup(a: string, b: string, c: string)
    ensures a + (b + c) == a + b + c
  {
  }

  lemma {:induction false} ExpandAppend(a: string, b: string)
    requires IsAlphanumeric(a) && IsAlphanumeric(b) && IsAlphanumeric(a + b)
    ensures Expand(a + b) == Expand(a) + Expand(b)
  {
    if a == "" {
      assert a + b == b;
    } else {
      var s := a + b;
      assert s[0] == a[0] && s[1..] == a[1..] + b;
      assert IsAlphanumeric(a[1..]) && IsAlphanumeric(s[1..]);
      ExpandAppend(a[1..], b);
      Regroup(CharDigits(a[0]), Expand(a[1..]), Expand(b));
    }
  }

  lemma ExpandThree(a: string, m: string, b: string)
    requires IsAlphanumeric(a) && IsAlphanumeric(m) && IsAlphanumeric(b)
    ensures IsAlphanumeric(a + m + b) && Expand(a + m + b) == Expand(a) + Expand(m) + Expand(b)
  {
    ExpandAppend(a, m);
    ExpandAppend(a + m, b);
  }

  lemma DigitPartsCompared(a: string, m: string, n: string, b: string)
    requires AllDigits(a) && AllDigits(m) && AllDigits(n) && AllDigits(b) && |m| == |n|
    ensures AllDigits(a + m + b) && AllDigits(a + n + b)
    ensures DigitsValue(a + m + b) % 97 == DigitsValue(a + n + b) % 97 <==> Congruent(DigitsValue(m), DigitsValue(n))
  {
    CommonFront(a, m, n);
    CommonTail(a + m, a + n, b);
    CongruentResidues(DigitsValue(a + m + b), DigitsValue(a + n + b));
  }

  /** Two middle parts of the same width give the same residue if and only if their values
      are the same modulo 97, whatever is around them. */
  lemma PartsCompared(a: string, m: string, n: string, b: string)
    requires IsAlphanumeric(a) && IsAlphanumeric(m) && IsAlphanumeric(n) && IsAlphanumeric(b)
    requires |Expand(m)| == |Expand(n)|
    ensures IsAlphanumeric(a + m + b) && IsAlphanumeric(a + n + b)
    ensures Residue(a + m + b) == Residue(a + n + b) <==> Congruent(DigitsValue(Expand(m)), DigitsValue(Expand(n)))
  {
    ExpandThree(a, m, b);
    ExpandThree(a, n, b);
    DigitPartsCompared(Expand(a), Expand(m), Expand(n), Expand(b));
  }

  lemma ExpandOne(c: char)
    requires IsLetter(c) || IsDigit(c)
    ensures Expand([c]) == CharDigits(c) && DigitsValue(Expand([c])) == CharValue(c)
    ensures |Expand([c])| == Width(c)
  {
    assert [c][1..] == "";
    assert Expand("") == "";
    WidthOfChar(c);
  }

  lemma AppendDigit(s: string, c: char)
    requires AllDigits(s) && IsDigit(c)
    ensures AllDigits(s + [c]) && DigitsValue(s + [c]) == 10 * DigitsValue(s) + DigitValue(c)
  {
    assert (s + [c])[..|s + [c]| - 1] == s;
  }

  lemma TwoDigitsBehind(s: string, t: string)
    requires AllDigits(s) && AllDigits(t) && 1 <= |t| <= 2
    ensures AllDigits(s + t)
    ensures DigitsValue(s + t) == Followed(DigitsValue(s), DigitsValue(t), |t| == 1)
  {
    AppendDigit(s, t[0]);
    AppendDigit("", t[0]);
    assert "" + [t[0]] == [t[0]];
    if |t| == 1 {
      assert t == [t[0]];
    } else {
      AppendDigit(s + [t[0]], t[1]);
      AppendDigit([t[0]], t[1]);
      OneByOne(s, t);
    }
  }

  lemma OneByOne(s: string, t: string)
    requires |t| == 2
    ensures t == [t[0]] + [t[1]] && s + t == s + [t[0]] + [t[1]]
  {
  }

  lemma ExpandTwo(c: char, d: char)
    requires (IsLetter(c) || IsDigit(c)) && (IsLetter(d) || IsDigit(d))
    ensures |Expand([c, d])| == Width(c) + Width(d)
    ensures DigitsValue(Expand([c, d])) == Followed(CharValue(c), CharValue(d), IsDigit(d))
  {
    assert [c, d][1..] == [d];
    ExpandOne(d);
    WidthOfChar(c);
    WidthOfChar(d);
    TwoDigitsBehind(CharDigits(c), CharDigits(d));
  }

  lemma ValuesCompared(x: int, y: int)
    requires -97 < x - y < 97
    ensures Congruent(x, y) <==> x == y
  {
  }

  /** Changing one digit into another, or one letter into another, changes the residue,
      wherever it is and however long the string. */
  lemma SubstitutionDetected(a: string, c: char, d: char, b: string)
    requires IsAlphanumeric(a) && IsAlphanumeric(b) && SameClass(c, d) && c != d
    ensures IsAlphanumeric(a + [c] + b) && IsAlphanumeric(a + [d] + b)
    ensures Residue(a + [c] + b) != Residue(a + [d] + b)
  {
    OneCharCompared(c, d);
    PartsCompared(a, [c], [d], b);
  }

  lemma OneCharCompared(c: char, d: char)
    requires SameClass(c, d) && c != d
    ensures |Expand([c])| == |Expand([d])| && !Congruent(DigitsValue(Expand([c])), DigitsValue(Expand([d])))
  {
    ExpandOne(c);
    ExpandOne(d);
    ValuesCompared(CharValue(c), CharValue(d));
  }

  /** A digit before a letter, or behind one, that can change places with it unnoticed. */
  predicate UnnoticedPair(digit: char, letter: char) {
    IsDigit(digit) && IsLetter(letter) && CharValue(letter) == 11 * CharValue(digit)
  }

  lemma UnnoticedPairs(digit: char, letter: char)
    ensures UnnoticedPair(digit, letter) <==> [digit, letter] in ["1B", "2M", "3X"]
  {
  }

  /** The value of x followed by y, which is one digit or two. */
  function Followed(x: int, y: int, digit: bool): int {
    if digit then 10 * x + y else 100 * x + y
  }

  predicate InClass(x: int, digit: bool) {
    if digit then 0 <= x < 10 else 10 <= x < 36
  }

  lemma SwappedValues(x: int, xDigit: bool, y: int, yDigit: bool)
    requires InClass(x, xDigit) && InClass(y, yDigit)
    ensures Congruent(Followed(x, y, yDigit), Followed(y, x, xDigit)) <==>
      x == y || (xDigit && !yDigit && y == 11 * x) || (!xDigit && yDigit && x == 11 * y)
  {
    if xDigit == yDigit { SameClassDifference(x, y, xDigit); }
    else if xDigit { MixedDifference(x, y); }
    else { MixedDifference(y, x); }
  }

  lemma SameClassDifference(x: int, y: int, digits: bool)
    requires InClass(x, digits) && InClass(y, digits)
    ensures Congruent(Followed(x, y, digits), Followed(y, x, digits)) <==> x == y
  {
    var z := x - y;
    if digits {
      assert Followed(x, y, digits) - Followed(y, x, digits) == 9 * z;
      Invertible(9, 54, 5, z);
    } else {
      assert Followed(x, y, digits) - Followed(y, x, digits) == 99 * z;
      Invertible(99, 49, 50, z);
    }
    ValuesCompared(x, y);
  }

  lemma SwapDifference(c: char, d: char)
    requires (IsLetter(c) || IsDigit(c)) && (IsLetter(d) || IsDigit(d))
    ensures Congruent(Followed(CharValue(c), CharValue(d), IsDigit(d)), Followed(CharValue(d), CharValue(c), IsDigit(c))) <==>
      c == d || UnnoticedPair(c, d) || UnnoticedPair(d, c)
  {
    SwappedValues(CharValue(c), IsDigit(c), CharValue(d), IsDigit(d));
  }

  lemma MixedDifference(x: int, y: int)
    requires 0 <= x < 10 && 10 <= y < 36
    ensures Congruent(x * 100 + y, y * 10 + x) <==> y == 11 * x
    ensures Congruent(y * 10 + x, x * 100 + y) <==> y == 11 * x
  {
    NineTimes(11 * x - y);
    NineTimes(y - 11 * x);
    assert x * 100 + y - (y * 10 + x) == 9 * (11 * x - y);
    assert y * 10 + x - (x * 100 + y) == 9 * (y - 11 * x);
  }

  /** Modulo 97, nine times a number vanishes only with the number. */
  lemma NineTimes(d: int)
    requires -97 < d < 97
    ensures (9 * d) % 97 == 0 <==> d == 0
  {
    Invertible(9, 54, 5, d);
  }

  /** Swapping two neighbours goes unnoticed if and only if they are the same, or a digit
      and the letter that stands for eleven times it. */
  lemma SwapUnnoticedIff(a: string, c: char, d: char, b: string)
    requires IsAlphanumeric(a) && IsAlphanumeric(b) && (IsLetter(c) || IsDigit(c)) && (IsLetter(d) || IsDigit(d))
    ensures IsAlphanumeric(a + [c, d] + b) && IsAlphanumeric(a + [d, c] + b)
    ensures Residue(a + [c, d] + b) == Residue(a + [d, c] + b) <==> c == d || UnnoticedPair(c, d) || UnnoticedPair(d, c)
  {
    SwapParts(c, d);
    PartsCompared(a, [c, d], [d, c], b);
  }

  lemma SwapParts(c: char, d: char)
    requires (IsLetter(c) || IsDigit(c)) && (IsLetter(d) || IsDigit(d))
    ensures |Expand([c, d])| == |Expand([d, c])|
    ensures Congruent(DigitsValue(Expand([c, d])), DigitsValue(Expand([d, c]))) <==>
      c == d || UnnoticedPair(c, d) || UnnoticedPair(d, c)
  {
    SwapWidths(c, d);
    ExpandTwo(c, d);
    ExpandTwo(d, c);
    SwapDifference(c, d);
  }

  lemma SwapWidths(c: char, d: char)
    requires (IsLetter(c) || IsDigit(c)) && (IsLetter(d) || IsDigit(d))
    ensures |Expand([c, d])| == |Expand([d, c])|
  {
    ExpandTwo(c, d);
    ExpandTwo(d, c);
  }

  /** Swapping two different neighbours of the same class changes the residue. */
  lemma SwapDetected(a: string, c: char, d: char, b: string)
    requires IsAlphanumeric(a) && IsAlphanumeric(b) && SameClass(c, d) && c != d
    ensures IsAlphanumeric(a + [c, d] + b) && IsAlphanumeric(a + [d, c] + b)
    ensures Residue(a + [c, d] + b) != Residue(a + [d, c] + b)
  {
    SwapUnnoticedIff(a, c, d, b);
  }

  /** A digit and a letter change places unnoticed exactly in 1B, 2M and 3X, or B1, M2
      and X3. */
  lemma MixedSwapUndetected(a: string, digit: char, letter: char, b: string)
    requires IsAlphanumeric(a) && IsAlphanumeric(b) && IsDigit(digit) && IsLetter(letter)
    ensures IsAlphanumeric(a + [digit, letter] + b) && IsAlphanumeric(a + [letter, digit] + b)
    ensures Residue(a + [digit, letter] + b) == Residue(a + [letter, digit] + b) <==>
      [digit, letter] in ["1B", "2M", "3X"]
  {
    SwapUnnoticedIff(a, digit, letter, b);
    UnnoticedPairs(digit, letter);
  }

  lemma AlphanumericParts(s: string, i: nat, j: nat)
    requires IsAlphanumeric(s) && i <= j <= |s|
    ensures IsAlphanumeric(s[i..j])
  {
  }

  lemma SplitAt(r: string, i: nat, c: char)
    requires i < |r| && IsAlphanumeric(r) && (IsLetter(c) || IsDigit(c))
    ensures r == r[..i] + [r[i]] + r[i + 1..] && r[i := c] == r[..i] + [c] + r[i + 1..]
    ensures IsAlphanumeric(r[..i]) && IsAlphanumeric(r[i + 1..]) && IsAlphanumeric(r[i := c])
  {
  }

  /** Where a position of an IBAN comes to stand when it is rearranged. */
  function RearrangedPosition(iban: string, i: nat): nat
    requires |iban| >= 4
  {
    if i >= 4 then i - 4 else |iban| - 4 + i
  }

  lemma RearrangeUpdated(iban: string, i: nat, c: char)
    requires 4 <= |iban| && i < |iban|
    ensures var k := RearrangedPosition(iban, i);
      && k < |iban| && Rearranged(iban)[k] == iban[i]
      && Rearranged(iban[i := c]) == Rearranged(iban)[k := c]
  {
  }

  /** No IBAN stays valid when one digit is mistaken for another, or one letter for
      another. */
  lemma SubstitutionRejected(iban: string, i: nat, c: char)
    requires ValidIban(iban) && i < |iban| && SameClass(iban[i], c) && c != iban[i]
    ensures !ValidIban(iban[i := c])
  {
    if WellFormed(iban[i := c]) {
      var r, k := Rearranged(iban), RearrangedPosition(iban, i);
      RearrangeUpdated(iban, i, c);
      SplitAt(r, k, c);
      SubstitutionDetected(r[..k], r[k], c, r[k + 1..]);
    }
  }

  // --------------------------------------------------- the check digit and the account

  function Tens(m: nat): nat {
    if m == 0 then 1 else 10 * Tens(m - 1)
  }

  lemma {:induction false} TensTimes(a: nat, b: nat)
    ensures Tens(a + b) == Tens(a) * Tens(b)
  {
    if a > 0 {
      TensTimes(a - 1, b);
      assert Tens(a + b) == 10 * Tens(a - 1 + b);
      TenFold(Tens(a - 1), Tens(b));
    }
  }

  lemma TenFold(x: int, y: int)
    ensures 10 * (x * y) == (10 * x) * y
  {
  }

  /** The remainder of ten to the power b. */
  function Small(b: nat): nat {
    if b == 0 then 1 else if b == 1 then 10 else if b == 2 then 3 else if b == 3 then 30
    else if b == 4 then 9 else if b == 5 then 90 else if b == 6 then 27 else 76
  }

  lemma {:induction false} SmallPowers(b: nat)
    requires b < 8
    ensures Congruent(Tens(b), Small(b))
  {
    if b > 0 {
      SmallPowers(b - 1);
      TenTimes(Tens(b - 1), Small(b - 1), 0);
      Transitive(Tens(b), 10 * Small(b - 1), Small(b));
    }
  }

  lemma Transitive(x: int, y: int, z: int)
    requires Congruent(x, y) && Congruent(y, z)
    ensures Congruent(x, z)
  {
  }

  /** The remainder of ten to the power 8 * a. */
  function Large(a: nat): nat {
    if a == 0 then 1 else if a == 1 then 81 else if a == 2 then 62 else if a == 3 then 75
    else if a == 4 then 61 else if a == 5 then 91 else if a == 6 then 96 else if a == 7 then 16
    else if a == 8 then 35 else if a == 9 then 22 else if a == 10 then 36 else 6
  }

  lemma SameFactor(k: int, x: int, y: int)
    requires Congruent(x, y)
    ensures Congruent(k * x, k * y)
  {
    var q := (x - y) / 97;
    assert x - y == 97 * q;
    Scaled(k, x - y, q);
    assert k * x - k * y == k * (x - y);
    MultipleOf97(k * x - k * y, k * q);
  }

  lemma {:induction false} LargePowers(a: nat)
    requires a < 12
    ensures Congruent(Tens(8 * a), Large(a))
  {
    if a > 0 {
      LargePowers(a - 1);
      EightMore(8 * (a - 1), Large(a - 1));
      LargeStep(a);
      Transitive(Tens(8 * a), 81 * Large(a - 1), Large(a));
    }
  }

  lemma LargeStep(a: nat)
    requires 0 < a < 12
    ensures Congruent(81 * Large(a - 1), Large(a))
  {
  }

  lemma EightMore(m: nat, x: int)
    requires Congruent(Tens(m), x)
    ensures Congruent(Tens(m + 8), 81 * x)
  {
    TensTimes(m, 8);
    assert Tens(8) == 100000000;
    SameFactor(100000000, Tens(m), x);
    assert 100000000 * x - 81 * x == 97 * (1030927 * x);
    MultipleOf97(100000000 * x - 81 * x, 1030927 * x);
    Transitive(Tens(m + 8), 100000000 * x, 81 * x);
  }

  lemma ProductIsNotOne(a: nat, b: nat)
    requires a < 12 && b < 8 && (a > 0 || b > 0)
    ensures !Congruent(Small(b) * Large(a), 1)
  {
    if b == 0 {
    } else if b == 1 {
    } else if b == 2 {
    } else if b == 3 {
    } else if b == 4 {
    } else if b == 5 {
    } else if b == 6 {
    } else {
    }
  }

  /** Ten is a primitive root: no smaller power than the 96th is one. */
  lemma TensAreNotOne(m: nat)
    requires 0 < m < 96
    ensures (Tens(m) - 1) % 97 != 0
  {
    var a, b := m / 8, m % 8;
    TensTimes(8 * a, b);
    SmallPowers(b);
    LargePowers(a);
    SameFactor(Tens(8 * a), Tens(b), Small(b));
    SameFactor(Small(b), Tens(8 * a), Large(a));
    assert Tens(8 * a) * Small(b) == Small(b) * Tens(8 * a);
    Transitive(Tens(m), Small(b) * Tens(8 * a), Small(b) * Large(a));
    ProductIsNotOne(a, b);
    if (Tens(m) - 1) % 97 == 0 {
      Symmetric(Tens(m), Small(b) * Large(a));
      Transitive(Small(b) * Large(a), Tens(m), 1);
    }
  }

  lemma Symmetric(x: int, y: int)
    requires Congruent(x, y)
    ensures Congruent(y, x)
  {
  }

  lemma DigitFactor(k: int, z: int)
    requires -10 < k < 10 && k != 0 && z % 97 != 0
    ensures (k * z) % 97 != 0
  {
    var positive := if k < 0 then -k else k;
    var inverse, t := InverseOf(positive);
    Invertible(positive, inverse, t, z);
    if k < 0 { Opposite(k * z, positive * z); }
  }

  lemma Opposite(n: int, m: int)
    requires n == -m && m % 97 != 0
    ensures n % 97 != 0
  {
  }

  lemma InverseOf(k: int) returns (inverse: int, t: int)
    requires 0 < k < 10
    ensures k * inverse == 97 * t + 1
  {
    if k == 1 { inverse, t := 1, 0; }
    else if k == 2 { inverse, t := 49, 1; }
    else if k == 3 { inverse, t := 65, 2; }
    else if k == 4 { inverse, t := 73, 3; }
    else if k == 5 { inverse, t := 39, 2; }
    else if k == 6 { inverse, t := 81, 5; }
    else if k == 7 { inverse, t := 14, 1; }
    else if k == 8 { inverse, t := 85, 7; }
    else { inverse, t := 54, 5; }
  }

  /** A digit with m digits behind it. */
  function Place(x: int, m: nat): int {
    if m == 0 then x else 10 * Place(x, m - 1)
  }

  lemma {:induction false} PlaceIsProduct(x: int, m: nat)
    ensures Place(x, m) == x * Tens(m)
  {
    if m > 0 { PlaceIsProduct(x, m - 1); }
  }

  lemma {:induction false} LeadingDigit(c: char, s: string)
    requires IsDigit(c) && AllDigits(s)
    ensures AllDigits([c] + s) && DigitsValue([c] + s) == Place(DigitValue(c), |s|) + DigitsValue(s)
  {
    if s == "" {
      assert [c] + s == [c] && [c][..0] == "";
    } else {
      var front, last := s[..|s| - 1], s[|s| - 1];
      LeadingDigit(c, front);
      assert s == front + [last] && [c] + s == ([c] + front) + [last];
      AppendDigit(front, last);
      AppendDigit([c] + front, last);
    }
  }

  lemma BothEnds(c: char, mid: string, d: char)
    requires IsDigit(c) && IsDigit(d) && AllDigits(mid)
    ensures AllDigits([c] + mid + [d])
    ensures DigitsValue([c] + mid + [d]) == 10 * Place(DigitValue(c), |mid|) + 10 * DigitsValue(mid) + DigitValue(d)
  {
    LeadingDigit(c, mid);
    AppendDigit([c] + mid, d);
  }

  /** Two different digits at the ends of a number, with m digits between them. */
  lemma EndsDiffer(x: int, y: int, m: nat, v: int, p: int, q: int)
    requires 0 <= x < 10 && 0 <= y < 10 && x != y && m < 95
    requires p == 10 * Place(y, m) + 10 * v + x && q == 10 * Place(x, m) + 10 * v + y
    ensures !Congruent(p, q)
  {
    var t := Tens(m + 1) - 1;
    TensAreNotOne(m + 1);
    DigitFactor(y - x, t);
    PlaceIsProduct(x, m);
    PlaceIsProduct(y, m);
    Difference(x, y, Tens(m));
    assert p - q == (y - x) * t;
  }

  lemma Difference(x: int, y: int, t: int)
    ensures 10 * (y * t) + x - 10 * (x * t) - y == (y - x) * (10 * t - 1)
  {
  }

  lemma EndsSwapped(c: char, mid: string, d: char)
    requires IsDigit(c) && IsDigit(d) && c != d && AllDigits(mid) && |mid| < 95
    ensures AllDigits([c] + mid + [d]) && AllDigits([d] + mid + [c])
    ensures !Congruent(DigitsValue([d] + mid + [c]), DigitsValue([c] + mid + [d]))
  {
    BothEnds(c, mid, d);
    BothEnds(d, mid, c);
    OtherDigit(c, d);
    EndsDiffer(DigitValue(c), DigitValue(d), |mid|, DigitsValue(mid), DigitsValue([d] + mid + [c]), DigitsValue([c] + mid + [d]));
  }

  lemma OtherDigit(c: char, d: char)
    requires IsDigit(c) && IsDigit(d) && c != d
    ensures DigitValue(c) != DigitValue(d)
  {
  }

  lemma {:induction false} ExpandedWidth(s: string)
    requires IsAlphanumeric(s)
    ensures |Expand(s)| <= 2 * |s|
  {
    if s != "" {
      WidthOfChar(s[0]);
      ExpandedWidth(s[1..]);
    }
  }

  lemma ExpandEnds(c: char, mid: string, d: char)
    requires IsDigit(c) && IsDigit(d) && IsAlphanumeric(mid)
    ensures IsAlphanumeric([c] + mid + [d]) && Expand([c] + mid + [d]) == [c] + Expand(mid) + [d]
  {
    ExpandOne(c);
    ExpandOne(d);
    ExpandThree([c], mid, [d]);
  }

  /** Swapping two different digits at the ends is detected up to 47 characters between. */
  lemma EndsDetected(c: char, mid: string, d: char)
    requires IsDigit(c) && IsDigit(d) && c != d && IsAlphanumeric(mid) && |mid| <= 47
    ensures IsAlphanumeric([c] + mid + [d]) && IsAlphanumeric([d] + mid + [c])
    ensures Residue([c] + mid + [d]) != Residue([d] + mid + [c])
  {
    ExpandEnds(c, mid, d);
    ExpandEnds(d, mid, c);
    ExpandedWidth(mid);
    EndsSwapped(c, Expand(mid), d);
    CongruentResidues(DigitsValue(Expand([d] + mid + [c])), DigitsValue(Expand([c] + mid + [d])));
  }

  /** The IBAN with the characters at positions i and i + 1 swapped. */
  function Swapped(iban: string, i: nat): string
    requires i + 1 < |iban|
  {
    iban[i := iban[i + 1]][i + 1 := iban[i]]
  }

  /** Neighbours that stay neighbours when the IBAN is rearranged: the country code, the
      check digits, and those inside the account number. */
  predicate StayNeighbours(iban: string, i: nat) {
    i + 1 < |iban| && i != 1 && i != 3
  }

  lemma RearrangeSwapped(iban: string, i: nat)
    requires 4 <= |iban| && StayNeighbours(iban, i)
    ensures var r, k := Rearranged(iban), RearrangedPosition(iban, i);
      && k + 2 <= |r| && r == r[..k] + [iban[i], iban[i + 1]] + r[k + 2..]
      && Rearranged(Swapped(iban, i)) == r[..k] + [iban[i + 1], iban[i]] + r[k + 2..]
  {
    RearrangeUpdated(iban, i, iban[i + 1]);
    RearrangeUpdated(iban, i + 1, iban[i + 1]);
    RearrangeUpdated(iban[i := iban[i + 1]], i + 1, iban[i]);
    TwoUpdated(Rearranged(iban), RearrangedPosition(iban, i), iban[i + 1], iban[i]);
  }

  lemma TwoUpdated(r: string, k: nat, c: char, d: char)
    requires k + 1 < |r|
    ensures r == r[..k] + [r[k], r[k + 1]] + r[k + 2..] && r[k := c][k + 1 := d] == r[..k] + [c, d] + r[k + 2..]
  {
  }

  /** The last check digit and the first character of the account come to stand at the two
      ends when the IBAN is rearranged. */
  lemma RearrangedEnds(iban: string)
    requires WellFormed(iban)
    ensures var mid := iban[5..] + iban[..3];
      && IsAlphanumeric(mid) && |mid| <= 47 && Rearranged(iban) == [iban[4]] + mid + [iban[3]]
      && Rearranged(Swapped(iban, 3)) == [iban[3]] + mid + [iban[4]]
  {
    var swapped := Swapped(iban, 3);
    EndsOf(iban);
    EndsOf(swapped);
    assert swapped[5..] == iban[5..] && swapped[..3] == iban[..3];
  }

  lemma EndsOf(s: string)
    requires |s| >= 5
    ensures Rearranged(s) == [s[4]] + (s[5..] + s[..3]) + [s[3]]
  {
    assert s[4..] == [s[4]] + s[5..] && s[..2] + s[2..4] == s[..3] + [s[3]];
  }

  lemma CheckDigitSwapped(iban: string)
    requires ValidIban(iban) && WellFormed(Swapped(iban, 3)) && iban[3] != iban[4]
    ensures !ValidIban(Swapped(iban, 3))
  {
    var mid := iban[5..] + iban[..3];
    RearrangedEnds(iban);
    assert Swapped(iban, 3)[3] == iban[4];
    EndsDetected(iban[4], mid, iban[3]);
  }

  /** When an IBAN stays valid although two neighbours have changed places. */
  lemma SwapAcceptedIff(iban: string, i: nat)
    requires ValidIban(iban) && i + 1 < |iban|
    ensures ValidIban(Swapped(iban, i)) <==>
      WellFormed(Swapped(iban, i)) &&
      (iban[i] == iban[i + 1] || UnnoticedPair(iban[i], iban[i + 1]) || UnnoticedPair(iban[i + 1], iban[i]))
  {
    if iban[i] == iban[i + 1] {
      assert Swapped(iban, i) == iban;
    } else if i == 1 {
      assert Swapped(iban, i)[1] == iban[2];
    } else if i == 3 {
      assert Swapped(iban, 3)[3] == iban[4];
      if WellFormed(Swapped(iban, 3)) { CheckDigitSwapped(iban); }
    } else {
      NeighboursAccepted(iban, i);
    }
  }

  lemma NeighboursAccepted(iban: string, i: nat)
    requires ValidIban(iban) && StayNeighbours(iban, i)
    ensures ValidIban(Swapped(iban, i)) <==>
      WellFormed(Swapped(iban, i)) &&
      (iban[i] == iban[i + 1] || UnnoticedPair(iban[i], iban[i + 1]) || UnnoticedPair(iban[i + 1], iban[i]))
  {
    if WellFormed(Swapped(iban, i)) {
      var r, k := Rearranged(iban), RearrangedPosition(iban, i);
      RearrangeSwapped(iban, i);
      AlphanumericParts(r, 0, k);
      AlphanumericParts(r, k + 2, |r|);
      SwapUnnoticedIff(r[..k], iban[i], iban[i + 1], r[k + 2..]);
    }
  }

  /** No IBAN stays valid when two different neighbours of the same class change places. */
  lemma SwapRejected(iban: string, i: nat)
    requires ValidIban(iban) && i + 1 < |iban| && SameClass(iban[i], iban[i + 1]) && iban[i] != iban[i + 1]
    ensures !ValidIban(Swapped(iban, i))
  {
    SwapAcceptedIff(iban, i);
  }

  /** Inside the account number, a digit and a letter can change places in a valid IBAN
      exactly in 1B, 2M and 3X, or B1, M2 and X3. */
  lemma MixedSwapAcceptedIff(iban: string, i: nat)
    requires ValidIban(iban) && 4 <= i < |iban| - 1 && !SameClass(iban[i], iban[i + 1])
    ensures ValidIban(Swapped(iban, i)) <==>
      [iban[i], iban[i + 1]] in ["1B", "2M", "3X"] || [iban[i + 1], iban[i]] in ["1B", "2M", "3X"]
  {
    SwapAcceptedIff(iban, i);
    SwapStaysWellFormed(iban, i);
    UnnoticedPairs(iban[i], iban[i + 1]);
    UnnoticedPairs(iban[i + 1], iban[i]);
  }

  lemma SwapStaysWellFormed(iban: string, i: nat)
    requires WellFormed(iban) && 4 <= i < |iban| - 1
    ensures WellFormed(Swapped(iban, i))
  {
    assert Swapped(iban, i)[..2] == iban[..2];
  }

  // ----------------------------------------------------------------- the check digits

  lemma {:induction false} DigitsStay(s: string)
    requires AllDigits(s)
    ensures IsAlphanumeric(s) && Expand(s) == s
  {
    if s != "" {
      DigitsStay(s[1..]);
      assert s == [s[0]] + s[1..];
    }
  }

  /** What makes a well-formed IBAN valid: the account number and the country, as a number
      with the check digits behind it, leave 1 when divided by 97. */
  lemma ValidIbanIff(iban: string)
    requires WellFormed(iban)
    ensures IsAlphanumeric(iban[4..] + iban[..2]) && AllDigits(iban[2..4])
    ensures ValidIban(iban) <==> (100 * DigitsValue(Expand(iban[4..] + iban[..2])) + DigitsValue(iban[2..4])) % 97 == 1
  {
    var front, check := iban[4..] + iban[..2], iban[2..4];
    assert check[0] == iban[2] && check[1] == iban[3];
    DigitsStay(check);
    ExpandAppend(front, check);
    TwoDigitsBehind(Expand(front), check);
  }

  function TwoDigits(n: nat): (s: string)
    requires n < 100
    ensures |s| == 2 && AllDigits(s)
  {
    [('0' as int + n / 10) as char, ('0' as int + n % 10) as char]
  }

  lemma TwoDigitsValue(n: nat)
    requires n < 100
    ensures DigitsValue(TwoDigits(n)) == n
  {
    var s := TwoDigits(n);
    AppendDigit("", s[0]);
    AppendDigit([s[0]], s[1]);
    assert "" + [s[0]] == [s[0]] && s == [s[0]] + [s[1]];
  }

  /** A country with IBANs, and an account number of the length that it has. */
  predicate AccountOf(country: string, account: string) {
    && |country| == 2 && IsLetter(country[0]) && IsLetter(country[1]) && country in CODE_LENGTHS
    && IsAlphanumeric(account) && account != "" && |account| + 4 == CODE_LENGTHS[country]
  }

  lemma IbanOfParts(country: string, check: string, account: string)
    requires AccountOf(country, account) && |check| == 2 && AllDigits(check)
    ensures var iban := country + check + account;
      WellFormed(iban) && iban[..2] == country && iban[2..4] == check && iban[4..] == account
  {
    var iban := country + check + account;
    assert iban[0] == country[0] && iban[1] == country[1] && iban[2] == check[0] && iban[3] == check[1];
    assert iban[..2] == country && iban[2..4] == check && iban[4..] == account;
  }

  /** The check digits of an account number: 98 less the residue that it leaves with the
      country and 00 behind it. */
  function CheckNumber(country: string, account: string): (n: nat)
    requires IsAlphanumeric(account + country)
    ensures 2 <= n <= 98
  {
    98 - 100 * DigitsValue(Expand(account + country)) % 97
  }

  /** Among 02 to 98, exactly those check digits make a valid IBAN of an account number. */
  lemma CheckDigits(country: string, account: string, m: nat)
    requires AccountOf(country, account) && 2 <= m <= 98
    ensures IsAlphanumeric(account + country)
    ensures ValidIban(country + TwoDigits(m) + account) <==> m == CheckNumber(country, account)
  {
    var iban := country + TwoDigits(m) + account;
    IbanOfParts(country, TwoDigits(m), account);
    ValidIbanIff(iban);
    TwoDigitsValue(m);
    CheckEquation(DigitsValue(Expand(account + country)), m);
  }

  lemma CheckEquation(v: nat, m: int)
    requires 2 <= m <= 98
    ensures (100 * v + m) % 97 == 1 <==> m == 98 - 100 * v % 97
  {
    var x := 100 * v;
    var q, r := x / 97, x % 97;
    assert x == 97 * q + r;
    SameRemainder(x + m, q, r + m);
  }

  lemma SameRemainder(n: int, q: int, k: int)
    requires n == 97 * q + k && 2 <= k <= 194
    ensures n % 97 == 1 <==> k == 98
  {
    if n % 97 == 1 {
      assert n == 97 * (n / 97) + 1;
      assert k - 1 == 97 * (n / 97 - q);
    }
  }

  // ------------------------------------------------------------------ what is typed in

  lemma {:induction false} NormalizeParts(a: string, b: string)
    ensures Normalize(a + b) == Normalize(a) + Normalize(b)
  {
    if a == "" { assert a + b == b; } else {
      assert (a + b)[0] == a[0] && (a + b)[1..] == a[1..] + b;
      NormalizeParts(a[1..], b);
    }
  }

  /** White space and case do not matter, wherever they are; and a normalized text has
      neither. */
  lemma TypedInAnyWay(a: string, c: char, b: string)
    ensures IsSpace(c) ==> Normalize(a + [c] + b) == Normalize(a + b)
    ensures 'a' <= c <= 'z' ==> Normalize(a + [c] + b) == Normalize(a + [(c as int - 32) as char] + b)
    ensures IsLetter(c) || IsDigit(c) ==> Normalize(a + [c] + b) == Normalize(a) + [c] + Normalize(b)
  {
    NormalizeParts(a, b);
    OneNormalized(a, c, b);
    if 'a' <= c <= 'z' { OneNormalized(a, (c as int - 32) as char, b); }
  }

  lemma OneNormalized(a: string, c: char, b: string)
    ensures Normalize(a + [c] + b) == Normalize(a) + (if IsSpace(c) then "" else [Upper(c)]) + Normalize(b)
  {
    NormalizeParts(a + [c], b);
    NormalizeParts(a, [c]);
    assert [c][1..] == "";
    assert Normalize([c][1..]) == "";
  }
}
