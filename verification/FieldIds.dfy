/** Decimal numerals, as numbers are written into ids. */
module Decimal {
  predicate IsDigit(c: char) { '0' <= c <= '9' }

  predicate AllDigits(s: string) {
    forall i | 0 <= i < |s| :: IsDigit(s[i])
  }

  function DigitValue(c: char): (d: int)
    requires IsDigit(c)
    ensures 0 <= d < 10
  {
    c as int - '0' as int
  }

  /** A number as a string. */
  function Numeral(n: nat): (s: string)
    ensures s != "" && AllDigits(s)
  {
    var digit := [('0' as int + n % 10) as char];
    if n < 10 then digit else Numeral(n / 10) + digit
  }

  /** The number that a string of digits stands for. */
  function DigitsValue(s: string): nat
    requires AllDigits(s)
  {
    if s == "" then 0 else 10 * DigitsValue(s[..|s| - 1]) + DigitValue(s[|s| - 1])
  }

  lemma {:induction false} NumeralValue(n: nat)
    ensures DigitsValue(Numeral(n)) == n
  {
    var s := Numeral(n);
    if n < 10 {
      assert s[..0] == "";
    } else {
      NumeralValue(n / 10);
      assert s[..|s| - 1] == Numeral(n / 10);
    }
  }

  lemma NumeralInjective(m: nat, n: nat)
    requires Numeral(m) == Numeral(n)
    ensures m == n
  {
    NumeralValue(m);
    NumeralValue(n);
  }
}

/** The strings behind field identifiers, and the functions that take them apart. */
module FieldIds {
  import opened Decimal
  import opened Options
  import opened Texts

  datatype Parsed =
    | Throws          // the id was empty
    | NoIndex
    | Index(n: int)

  predicate IsHexDigit(c: char) {
    IsDigit(c) || 'a' <= c <= 'f' || 'A' <= c <= 'F'
  }

  function HexDigitValue(c: char): (d: nat)
    requires IsHexDigit(c)
  {
    if IsDigit(c) then DigitValue(c)
    else if 'a' <= c <= 'f' then c as int - 'a' as int + 10
    else c as int - 'A' as int + 10
  }

  /** The digits (or hexadecimal digits) that s starts with. */
  function Leading(s: string, hex: bool): (k: nat)
    ensures k <= |s|
    ensures forall i | 0 <= i < k :: if hex then IsHexDigit(s[i]) else IsDigit(s[i])
    ensures k < |s| ==> !(if hex then IsHexDigit(s[k]) else IsDigit(s[k]))
  {
    if s == "" || !(if hex then IsHexDigit(s[0]) else IsDigit(s[0])) then 0
    else 1 + Leading(s[1..], hex)
  }

  function HexValue(s: string): nat
    requires forall i | 0 <= i < |s| :: IsHexDigit(s[i])
  {
    if s == "" then 0 else 16 * HexValue(s[..|s| - 1]) + HexDigitValue(s[|s| - 1])
  }

  function ParseUnsigned(s: string): Option<int> {
    if |s| >= 2 && s[0] == '0' && (s[1] == 'x' || s[1] == 'X') then
      var k := Leading(s[2..], true);
      if k == 0 then None else Some(HexValue(s[2..][..k]))
    else
      var k := Leading(s, false);
      if k == 0 then None else Some(DigitsValue(s[..k]))
  }

  /** parseInt without a radix: spaces, a sign, then as many digits as there are;
      None stands for NaN. */
  function ParseInt(s: string): Option<int> {
    if s != "" && IsSpace(s[0]) then ParseInt(s[1..])
    else if s != "" && s[0] == '+' then ParseUnsigned(s[1..])
    else if s != "" && s[0] == '-' then
      (match ParseUnsigned(s[1..]) case Some(n) => Some(-n) case None => None)
    else ParseUnsigned(s)
  }

  /** The position of the last occurrence of a character, or -1. */
  function LastIndexOf(s: string, c: char): (i: int)
    ensures -1 <= i < |s|
    ensures i >= 0 ==> s[i] == c
    ensures forall k | i < k < |s| :: s[k] != c
  {
    if s == "" then -1 else if s[|s| - 1] == c then |s| - 1 else LastIndexOf(s[..|s| - 1], c)
  }

  /** The number after the last hyphen. */
  function ParseIndexFrom(id: string): Parsed {
    if id == "" then Throws
    else
      match ParseInt(id[LastIndexOf(id, '-') + 1..])
      case None => NoIndex
      case Some(n) => Index(n)
  }

  function PartWithoutIndex(part: string): Option<string> {
    match ParseIndexFrom(part)
    case Throws => None
    case NoIndex => Some(part)
    case Index(_) =>
      var hyphen := LastIndexOf(part, '-');
      Some(if hyphen < 0 then "" else part[..hyphen])
  }

  function Joined(front: Option<string>, last: Option<string>): Option<string> {
    if front.Some? && last.Some? then Some(front.value + "." + last.value) else None
  }

  /** Every dot-separated part without its index; None stands for an exception. */
  function WithoutIndex(id: string): Option<string> {
    var dot := LastIndexOf(id, '.');
    if dot < 0 then PartWithoutIndex(id)
    else
      Joined(WithoutIndex(id[..dot]), PartWithoutIndex(id[dot + 1..]))
  }

  predicate Dotless(s: string) {
    '.' !in s
  }

  // ------------------------------------------------------------------- row ids

  function RowName(base: string, index: nat): string {
    base + "-" + Numeral(index)
  }

  function LeafName(prefix: string, base: string, index: nat, name: string): string {
    prefix + RowName(base, index) + "." + name
  }

  lemma {:induction false} LeadingAll(s: string)
    requires AllDigits(s)
    ensures Leading(s, false) == |s|
  {
    if s != "" { LeadingAll(s[1..]); }
  }

  lemma NumeralParses(n: nat)
    ensures ParseInt(Numeral(n)) == Some(n)
  {
    var s := Numeral(n);
    LeadingAll(s);
    NumeralValue(n);
    assert IsDigit(s[0]) && s[..|s|] == s;
    assert |s| >= 2 ==> IsDigit(s[1]);
  }

  lemma {:induction false} LeadingPart(digits: string, rest: string, hex: bool)
    requires forall i | 0 <= i < |digits| :: if hex then IsHexDigit(digits[i]) else IsDigit(digits[i])
    requires rest != "" ==> !(if hex then IsHexDigit(rest[0]) else IsDigit(rest[0]))
    ensures Leading(digits + rest, hex) == |digits|
  {
    if digits == "" {
      assert digits + rest == rest;
    } else {
      assert (digits + rest)[1..] == digits[1..] + rest;
      LeadingPart(digits[1..], rest, hex);
    }
  }

  lemma UnsignedIsRead(s: string, digits: string, rest: string)
    requires digits != "" && AllDigits(digits) && s == digits + rest
    requires rest != "" ==> !IsDigit(rest[0]) && (digits == "0" ==> rest[0] != 'x' && rest[0] != 'X')
    ensures ParseUnsigned(s) == Some(DigitsValue(digits))
  {
    LeadingPart(digits, rest, false);
    assert s[..|digits|] == digits && s[0] == digits[0];
    if |digits| >= 2 {
      assert s[1] == digits[1] && IsDigit(digits[1]);
    } else {
      assert rest != "" ==> s[1] == rest[0];
      assert digits[0] == '0' ==> digits == "0";
    }
  }

  lemma SignIsRead(sign: char, s: string)
    requires s != "" && IsDigit(s[0])
    ensures ParseInt(s) == ParseUnsigned(s)
    ensures sign == '+' ==> ParseInt([sign] + s) == ParseUnsigned(s)
    ensures sign == '-' ==> ParseInt([sign] + s) == match ParseUnsigned(s) case Some(n) => Some(-n) case None => None
  {
    assert ([sign] + s)[1..] == s && ([sign] + s)[0] == sign;
  }

  /** How a number is read from a string: its sign and its digits, up to the first other
      character. */
  lemma NumberIsRead(digits: string, rest: string)
    requires digits != "" && AllDigits(digits)
    requires rest != "" ==> !IsDigit(rest[0]) && (digits == "0" ==> rest[0] != 'x' && rest[0] != 'X')
    ensures var n: int := DigitsValue(digits);
      ParseInt(digits + rest) == ParseInt("+" + (digits + rest)) == Some(n) && ParseInt("-" + (digits + rest)) == Some(-n)
  {
    var s := digits + rest;
    UnsignedIsRead(s, digits, rest);
    assert s[0] == digits[0];
    SignIsRead('+', s);
    SignIsRead('-', s);
  }

  lemma HexIsRead(s: string, x: char, digits: string, rest: string)
    requires x == 'x' || x == 'X'
    requires digits != "" && forall i | 0 <= i < |digits| :: IsHexDigit(digits[i])
    requires rest != "" ==> !IsHexDigit(rest[0])
    requires |s| >= 2 && s[0] == '0' && s[1] == x && s[2..] == digits + rest
    ensures ParseInt(s) == Some(HexValue(digits))
  {
    LeadingPart(digits, rest, true);
    SignIsRead('+', s);
    assert (digits + rest)[..|digits|] == digits;
    assert s[2..][..Leading(s[2..], true)] == digits;
  }

  /** Spaces before a number do not count, and without digits there is no number. */
  lemma NothingElseIsRead(c: char, s: string)
    ensures IsSpace(c) ==> ParseInt([c] + s) == ParseInt(s)
    ensures !IsSpace(c) && c != '+' && c != '-' && !IsDigit(c) ==> ParseInt([c] + s) == None
  {
    assert ([c] + s)[1..] == s;
  }

  lemma {:induction false} LastIndexOfAppended(s: string, c: char, t: string)
    requires forall i | 0 <= i < |t| :: t[i] != c
    ensures LastIndexOf(s + [c] + t, c) == |s|
  {
    if t == "" {
      assert s + [c] + t == s + [c];
    } else {
      assert (s + [c] + t)[..|s + [c] + t| - 1] == s + [c] + t[..|t| - 1];
      LastIndexOfAppended(s, c, t[..|t| - 1]);
    }
  }

  /** The index is read back from the id of a row, whatever its base. */
  lemma RowIndexParses(base: string, index: nat)
    ensures ParseIndexFrom(RowName(base, index)) == Index(index)
  {
    var digits := Numeral(index);
    assert forall i | 0 <= i < |digits| :: digits[i] != '-' by { assert AllDigits(digits); }
    LastIndexOfAppended(base, '-', digits);
    assert RowName(base, index)[|base| + 1..] == digits;
    NumeralParses(index);
  }

  lemma RowNameDotless(base: string, index: nat)
    requires Dotless(base)
    ensures Dotless(RowName(base, index)) && LastIndexOf(RowName(base, index), '.') < 0
  {
    assert AllDigits(Numeral(index));
  }

  lemma RowPartWithoutIndex(base: string, index: nat)
    ensures PartWithoutIndex(RowName(base, index)) == Some(base)
  {
    RowIndexParses(base, index);
    var digits := Numeral(index);
    assert forall i | 0 <= i < |digits| :: digits[i] != '-' by { assert AllDigits(digits); }
    LastIndexOfAppended(base, '-', digits);
    assert RowName(base, index)[..|base|] == base;
  }

  /** Leaving the index out of a row id gives the base back. */
  lemma RowWithoutIndex(base: string, index: nat)
    requires Dotless(base)
    ensures WithoutIndex(RowName(base, index)) == Some(base)
  {
    RowNameDotless(base, index);
    RowPartWithoutIndex(base, index);
  }

  lemma WithoutIndexOfLastPart(front: string, part: string)
    requires Dotless(part)
    ensures WithoutIndex(front + "." + part) == Joined(WithoutIndex(front), PartWithoutIndex(part))
  {
    LastIndexOfAppended(front, '.', part);
    var id := front + "." + part;
    assert id[..|front|] == front && id[|front| + 1..] == part;
  }

  lemma FrontOfDotted(f: string, front: string, last: string)
    requires f + "." + last == front + "." + last
    ensures f == front
  {
    assert |f| == |front|;
    assert (f + "." + last)[..|f|] == f && (front + "." + last)[..|front|] == front;
  }

  /** A base with dots is given back exactly when its earlier parts carry no index. */
  lemma RowWithoutIndexIff(front: string, last: string, index: nat)
    requires Dotless(last)
    ensures WithoutIndex(RowName(front + "." + last, index)) == Some(front + "." + last) <==>
      WithoutIndex(front) == Some(front)
  {
    assert RowName(front + "." + last, index) == front + "." + RowName(last, index);
    RowNameDotless(last, index);
    WithoutIndexOfLastPart(front, RowName(last, index));
    RowPartWithoutIndex(last, index);
    var f := WithoutIndex(front);
    if f.Some? && f.value + "." + last == front + "." + last {
      FrontOfDotted(f.value, front, last);
    }
  }

  /** Rows of one fieldset have different ids when they have different indices. */
  lemma RowNameInjective(base: string, i: nat, j: nat)
    ensures RowName(base, i) == RowName(base, j) <==> i == j
  {
    if RowName(base, i) == RowName(base, j) {
      assert RowName(base, i)[|base| + 1..] == Numeral(i) && RowName(base, j)[|base| + 1..] == Numeral(j);
      NumeralInjective(i, j);
    }
  }

  /** Fields of rows have the same id only in the same row and with the same name. */
  lemma LeafNameInjective(prefix: string, base: string, i: nat, n: string, j: nat, m: string)
    requires Dotless(n) && Dotless(m)
    ensures LeafName(prefix, base, i, n) == LeafName(prefix, base, j, m) <==> i == j && n == m
  {
    var s, t := LeafName(prefix, base, i, n), LeafName(prefix, base, j, m);
    if s == t {
      LastIndexOfAppended(prefix + RowName(base, i), '.', n);
      LastIndexOfAppended(prefix + RowName(base, j), '.', m);
      var k := LastIndexOf(s, '.');
      assert s[k + 1..] == n && t[k + 1..] == m;
      assert s[..k] == prefix + RowName(base, i) && t[..k] == prefix + RowName(base, j);
      assert (prefix + RowName(base, i))[|prefix|..] == RowName(base, i);
      assert (prefix + RowName(base, j))[|prefix|..] == RowName(base, j);
      RowNameInjective(base, i, j);
    }
  }

  lemma PrefixedRowWithoutIndex(front: string, base: string, index: nat)
    requires Dotless(base)
    ensures WithoutIndex(front + "." + RowName(base, index)) == Joined(WithoutIndex(front), Some(base))
  {
    RowNameDotless(base, index);
    RowPartWithoutIndex(base, index);
    WithoutIndexOfLastPart(front, RowName(base, index));
  }

  /** What the id of a field in a row is without indices: the row does not matter. */
  lemma LeafWithoutIndex(front: string, base: string, index: nat, name: string)
    requires Dotless(base) && Dotless(name)
    ensures WithoutIndex(LeafName(front + ".", base, index, name)) ==
      Joined(Joined(WithoutIndex(front), Some(base)), PartWithoutIndex(name))
  {
    var rowId := front + "." + RowName(base, index);
    PrefixedRowWithoutIndex(front, base, index);
    assert LeafName(front + ".", base, index, name) == rowId + "." + name;
    WithoutIndexOfLastPart(rowId, name);
  }

  // ------------------------------------------------------- the ids of a new row

  /** s starts with t at position k. */
  predicate OccursAt(s: string, t: string, k: nat) {
    k + |t| <= |s| && s[k..k + |t|] == t
  }

  /** Replaces the first occurrence. */
  function ReplaceFirst(s: string, t: string, other: string): string {
    if OccursAt(s, t, 0) then other + s[|t|..]
    else if s == "" then s
    else [s[0]] + ReplaceFirst(s[1..], t, other)
  }

  /** The id of a new row: the prototype's without index, and the last index plus one. */
  function NewRowId(prototypeId: string, lastId: string): Option<string> {
    NextId(WithoutIndex(prototypeId), ParseIndexFrom(lastId))
  }

  function NextId(base: Option<string>, last: Parsed): Option<string> {
    if base.Some? && last.Index? && last.n + 1 >= 0 then Some(base.value + "-" + Numeral(last.n + 1)) else None
  }

  lemma {:induction false} ReplaceFirstAt(front: string, t: string, back: string, other: string)
    requires t != ""
    requires forall k | 0 <= k < |front| :: !OccursAt(front + t + back, t, k)
    ensures ReplaceFirst(front + t + back, t, other) == front + other + back
  {
    var s := front + t + back;
    if front == "" {
      assert s == t + back && s[0..|t|] == t && s[|t|..] == back;
    } else {
      assert s[1..] == front[1..] + t + back;
      forall k | 0 <= k < |front[1..]| ensures !OccursAt(s[1..], t, k) {
        if OccursAt(s[1..], t, k) { assert OccursAt(s, t, k + 1) by { assert s[k + 1..k + 1 + |t|] == s[1..][k..k + |t|]; } }
      }
      ReplaceFirstAt(front[1..], t, back, other);
      assert !OccursAt(s, t, 0);
    }
  }

  /** The row after the row with index `last` gets index last + 1, and its fields get
      their prototypes' ids with that index. */
  lemma NewRowIds(prefix: string, base: string, p: nat, last: nat, name: string)
    requires Dotless(base)
    requires forall k | 0 <= k < |prefix| :: !OccursAt(LeafName(prefix, base, p, name), RowName(base, p), k)
    ensures NewRowId(RowName(base, p), RowName(base, last)) == Some(RowName(base, last + 1))
    ensures ReplaceFirst(LeafName(prefix, base, p, name), RowName(base, p), RowName(base, last + 1)) ==
      LeafName(prefix, base, last + 1, name)
  {
    NewRowOwnId(base, p, last);
    NewFieldId(prefix, base, p, last + 1, name);
  }

  lemma NewRowOwnId(base: string, p: nat, last: nat)
    requires Dotless(base)
    ensures NewRowId(RowName(base, p), RowName(base, last)) == Some(RowName(base, last + 1))
  {
    RowWithoutIndex(base, p);
    RowIndexParses(base, last);
    NextRow(base, last);
  }

  lemma NextRow(base: string, last: nat)
    ensures NextId(Some(base), Index(last)) == Some(RowName(base, last + 1))
  {
  }

  lemma NewFieldId(prefix: string, base: string, p: nat, index: nat, name: string)
    requires forall k | 0 <= k < |prefix| :: !OccursAt(LeafName(prefix, base, p, name), RowName(base, p), k)
    ensures ReplaceFirst(LeafName(prefix, base, p, name), RowName(base, p), RowName(base, index)) == LeafName(prefix, base, index, name)
  {
    var row, other, back := RowName(base, p), RowName(base, index), "." + name;
    LeafNameParts(prefix, base, p, name);
    LeafNameParts(prefix, base, index, name);
    ReplaceFirstAt(prefix, row, back, other);
  }

  lemma LeafNameParts(prefix: string, base: string, index: nat, name: string)
    ensures LeafName(prefix, base, index, name) == prefix + RowName(base, index) + ("." + name)
  {
  }

  /** An answer key ends with a dot and a field's name exactly when it is that field's. */
  lemma EndsWithName(prefix: string, base: string, index: nat, name: string, other: string)
    requires Dotless(name) && Dotless(other)
    ensures var key := LeafName(prefix, base, index, name);
      (|other| + 1 <= |key| && key[|key| - |other| - 1..] == "." + other) <==> name == other
  {
    var key := LeafName(prefix, base, index, name);
    LastIndexOfAppended(prefix + RowName(base, index), '.', name);
    assert key[|key| - |name| - 1..] == "." + name;
    if |other| + 1 <= |key| && key[|key| - |other| - 1..] == "." + other {
      var front := key[..|key| - |other| - 1];
      assert key == front + "." + other;
      LastIndexOfAppended(front, '.', other);
      assert key[|front| + 1..] == other && key[|prefix + RowName(base, index)| + 1..] == name;
    }
  }
}
