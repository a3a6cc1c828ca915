/**
 * The slice of PHP's value semantics the plugin relies on: loosely typed
 * values read from post meta, their truthiness, `intval`, `explode` on a
 * comma (with `implode` as its inverse) and the ASCII case-insensitive
 * comparison `strcasecmp`.
 */
module Php {

  datatype Option<T> = None | Some(value: T)

  const MAX_INT: int := 0x7FFF_FFFF_FFFF_FFFF
  const MIN_INT: int := -0x8000_0000_0000_0000

  /** A PHP integer on a 64-bit build. */
  type PhpInt = i: int | -0x8000_0000_0000_0000 <= i <= 0x7FFF_FFFF_FFFF_FFFF

  /** A value as `get_post_meta` may hand it back (floats and objects are not modelled). */
  datatype Value =
    | Null
    | Bool(b: bool)
    | Int(i: PhpInt)
    | Str(s: string)
    | Arr(entries: map<string, Value>)

  /** PHP's conversion to boolean, as used by `if ( $x )`. */
  predicate Truthy(v: Value) {
    match v
    case Null => false
    case Bool(b) => b
    case Int(i) => i != 0
    case Str(s) => s != "" && s != "0"
    case Arr(m) => |m| != 0
  }

  /** `isset( $m[$key] )`: the key is present and its value is not null. */
  predicate Isset(m: map<string, Value>, key: string) {
    key in m && m[key] != Null
  }

  /** `empty( $s )` for a string: the string is falsy. */
  predicate EmptyString(s: string) {
    !Truthy(Str(s))
  }

  /**
   * Spells out the definition of `Truthy` for the two scalar kinds the
   * plugin tests: exactly two strings are `empty()` (falsy), '' and '0';
   * and an integer is truthy exactly when it is not 0.
   */
  lemma TruthyScalars(s: string, i: PhpInt)
    ensures EmptyString(s) <==> s == "" || s == "0"
    ensures Truthy(Int(i)) <==> i != 0
  {
  }

  // ---------------------------------------------------------------------
  // intval

  predicate IsWhitespace(c: char) {
    c == ' ' || c == '\t' || c == '\n' || c == '\r' || c as int == 11 || c as int == 12
  }

  predicate IsDigit(c: char) {
    '0' <= c <= '9'
  }

  /** `s` without its leading whitespace. */
  function TrimLeadingWhitespace(s: string): string {
    if s != [] && IsWhitespace(s[0]) then TrimLeadingWhitespace(s[1..]) else s
  }

  /** The longest prefix of `s` made of decimal digits. */
  function LeadingDigits(s: string): (r: string)
    ensures |r| <= |s| && r == s[..|r|]
    ensures forall i | 0 <= i < |r| :: IsDigit(r[i])
    ensures |r| < |s| ==> !IsDigit(s[|r|])
  {
    if s != [] && IsDigit(s[0]) then [s[0]] + LeadingDigits(s[1..]) else []
  }

  /** The number a string of decimal digits denotes (most significant first). */
  function DigitsValue(ds: string): nat
    requires forall i | 0 <= i < |ds| :: IsDigit(ds[i])
  {
    if ds == [] then 0
    else
      var last := ds[|ds| - 1];
      assert IsDigit(last);
      DigitsValue(ds[..|ds| - 1]) * 10 + (last as int - '0' as int)
  }

  /** Saturation of an out-of-range integer string to the 64-bit bounds. */
  function Saturate(n: int): PhpInt {
    if n > MAX_INT then MAX_INT else if n < MIN_INT then MIN_INT else n
  }

  /**
   * `intval` of a string: leading whitespace is skipped, an optional sign
   * and the digits that follow are read, anything after them is ignored,
   * and a string with no leading number gives 0.
   */
  function StringToInt(s: string): PhpInt {
    SignedNumber(TrimLeadingWhitespace(s))
  }

  /** An optional sign and the digits after it; 0 when there are none. */
  function SignedNumber(t: string): PhpInt {
    if t != [] && t[0] == '-' then Saturate(-(DigitsValue(LeadingDigits(t[1..])) as int))
    else if t != [] && t[0] == '+' then Saturate(DigitsValue(LeadingDigits(t[1..])))
    else Saturate(DigitsValue(LeadingDigits(t)))
  }

  /** `intval( $v )`. */
  function IntVal(v: Value): PhpInt {
    match v
    case Null => 0
    case Bool(b) => if b then 1 else 0
    case Int(i) => i
    case Str(s) => StringToInt(s)
    case Arr(m) => if |m| == 0 then 0 else 1
  }

  /** A non-zero `intval` only comes from a truthy value (the converse fails for "abc"). */
  lemma IntValNonZeroIsTruthy(v: Value)
    ensures IntVal(v) != 0 ==> Truthy(v)
  {
    if v.Str? {
      FalsyStringsToZero();
    }
  }

  lemma FalsyStringsToZero()
    ensures StringToInt("") == 0 && StringToInt("0") == 0
  {
    var z: string := "0";
    assert z[0] == '0' && !IsWhitespace(z[0]);
    assert TrimLeadingWhitespace(z) == z;
    assert z[1..] == [];
    assert LeadingDigits(z) == z;
    assert z[..0] == [];
    assert DigitsValue(z) == 0;
    assert StringToInt(z) == Saturate(0);
  }

  /** The decimal digits of a natural number, most significant first. */
  function Digits(n: nat): (r: string)
    ensures r != [] && forall i | 0 <= i < |r| :: IsDigit(r[i])
  {
    if n < 10 then [('0' as int + n) as char]
    else Digits(n / 10) + [('0' as int + n % 10) as char]
  }

  /** How PHP prints an integer in decimal. */
  function Decimal(n: int): string {
    if n < 0 then "-" + Digits(-n) else Digits(n)
  }

  lemma {:induction false} DigitsRoundTrip(n: nat)
    ensures DigitsValue(Digits(n)) == n
  {
    if n >= 10 {
      var d := Digits(n);
      assert d[..|d| - 1] == Digits(n / 10);
      DigitsRoundTrip(n / 10);
    }
  }

  lemma {:induction false} LeadingDigitsOfDigits(ds: string)
    requires forall i | 0 <= i < |ds| :: IsDigit(ds[i])
    ensures LeadingDigits(ds) == ds
  {
    if ds != [] {
      LeadingDigitsOfDigits(ds[1..]);
    }
  }

  /** A non-empty run of digits reads as its value. */
  lemma StringToIntOfDigitString(ds: string)
    requires ds != [] && forall i | 0 <= i < |ds| :: IsDigit(ds[i])
    requires DigitsValue(ds) <= MAX_INT
    ensures StringToInt(ds) == DigitsValue(ds)
  {
    TrimDigits(ds);
    LeadingDigitsOfDigits(ds);
    SignedNumberOfDigits(ds);
  }

  lemma TrimDigits(ds: string)
    requires ds != [] && forall i | 0 <= i < |ds| :: IsDigit(ds[i])
    ensures TrimLeadingWhitespace(ds) == ds && IsDigit(ds[0])
  {
    assert IsDigit(ds[0]) && !IsWhitespace(ds[0]);
  }

  lemma SignedNumberOfDigits(ds: string)
    requires ds != [] && IsDigit(ds[0])
    ensures SignedNumber(ds) == Saturate(DigitsValue(LeadingDigits(ds)))
  {
  }

  /** A minus sign followed by a non-empty run of digits reads as minus its value. */
  lemma StringToIntOfNegativeDigitString(ds: string)
    requires ds != [] && forall i | 0 <= i < |ds| :: IsDigit(ds[i])
    requires DigitsValue(ds) <= -MIN_INT
    ensures StringToInt("-" + ds) == -(DigitsValue(ds) as int)
  {
    var s := "-" + ds;
    assert s[0] == '-' && TrimLeadingWhitespace(s) == s;
    assert s[1..] == ds;
    LeadingDigitsOfDigits(ds);
  }

  /** `intval` reads back every integer that PHP prints in decimal. */
  lemma DecimalRoundTrip(n: PhpInt)
    ensures StringToInt(Decimal(n)) == n
  {
    if n < 0 {
      var m: nat := -(n as int);
      DigitsRoundTrip(m);
      StringToIntOfNegativeDigitString(Digits(m));
    } else {
      DigitsRoundTrip(n as int);
      StringToIntOfDigitString(Digits(n as int));
    }
  }

  /** A run of digits beyond the 64-bit range reads as the largest integer. */
  lemma StringToIntSaturates(n: nat)
    requires n > MAX_INT
    ensures StringToInt(Digits(n)) == MAX_INT
  {
    var ds := Digits(n);
    DigitsRoundTrip(n);
    TrimDigits(ds);
    LeadingDigitsOfDigits(ds);
    SignedNumberOfDigits(ds);
  }

  /** A minus sign and a run of digits beyond the 64-bit range read as the smallest integer. */
  lemma StringToIntSaturatesNegative(n: nat)
    requires n > -MIN_INT
    ensures StringToInt("-" + Digits(n)) == MIN_INT
  {
    var ds := Digits(n);
    var s := "-" + ds;
    DigitsRoundTrip(n);
    assert s[0] == '-' && TrimLeadingWhitespace(s) == s;
    assert s[1..] == ds;
    LeadingDigitsOfDigits(ds);
  }

  /**
   * Post meta is stored as text: `intval` of a stored id, possibly preceded
   * by whitespace and followed by text that does not continue the number
   * (a digit, '.', 'e' or 'E' would), gives the id back.
   */
  lemma IntValOfStoredId(ws: string, n: PhpInt, rest: string)
    requires forall i | 0 <= i < |ws| :: IsWhitespace(ws[i])
    requires rest == [] || (!IsDigit(rest[0]) && rest[0] != '.' && rest[0] != 'e' && rest[0] != 'E')
    ensures IntVal(Str(ws + Decimal(n) + rest)) == n
  {
    var t := Decimal(n) + rest;
    assert ws + Decimal(n) + rest == ws + t;
    if n < 0 {
      var ds := Digits(-(n as int));
      assert Decimal(n) == "-" + ds;
      assert t == "-" + ds + rest;
      SignedNumberOfNegative(-(n as int), rest);
      assert t[0] == '-';
    } else {
      var ds := Digits(n as int);
      assert Decimal(n) == ds;
      SignedNumberOfNatural(n as int, rest);
    }
    assert !IsWhitespace(t[0]) && SignedNumber(t) == n;
    TrimWhitespacePrefix(ws, t);
    assert StringToInt(ws + t) == SignedNumber(t);
  }

  lemma SignedNumberOfNegative(m: nat, rest: string)
    requires m <= -MIN_INT
    requires rest == [] || !IsDigit(rest[0])
    ensures SignedNumber("-" + Digits(m) + rest) == -(m as int)
  {
    var ds := Digits(m);
    var t := "-" + ds + rest;
    assert t[0] == '-';
    assert t[1..] == ds + rest;
    LeadingDigitsOfDigitsThen(ds, rest);
    DigitsRoundTrip(m);
    assert SignedNumber(t) == Saturate(-(DigitsValue(ds) as int));
  }

  lemma SignedNumberOfNatural(m: nat, rest: string)
    requires m <= MAX_INT
    requires rest == [] || !IsDigit(rest[0])
    ensures IsDigit((Digits(m) + rest)[0])
    ensures SignedNumber(Digits(m) + rest) == m
  {
    var ds := Digits(m);
    var t := ds + rest;
    assert t[0] == ds[0] && IsDigit(t[0]);
    LeadingDigitsOfDigitsThen(ds, rest);
    DigitsRoundTrip(m);
    assert SignedNumber(t) == Saturate(DigitsValue(ds));
  }

  lemma {:induction false} TrimWhitespacePrefix(ws: string, t: string)
    requires forall i | 0 <= i < |ws| :: IsWhitespace(ws[i])
    requires t != [] && !IsWhitespace(t[0])
    ensures TrimLeadingWhitespace(ws + t) == t
  {
    if ws == [] {
      assert ws + t == t;
    } else {
      assert (ws + t)[0] == ws[0] && (ws + t)[1..] == ws[1..] + t;
      TrimWhitespacePrefix(ws[1..], t);
    }
  }

  lemma {:induction false} LeadingDigitsOfDigitsThen(ds: string, rest: string)
    requires forall i | 0 <= i < |ds| :: IsDigit(ds[i])
    requires rest == [] || !IsDigit(rest[0])
    ensures LeadingDigits(ds + rest) == ds
  {
    if ds == [] {
      assert ds + rest == rest;
    } else {
      assert (ds + rest)[0] == ds[0] && (ds + rest)[1..] == ds[1..] + rest;
      LeadingDigitsOfDigitsThen(ds[1..], rest);
      assert [ds[0]] + ds[1..] == ds;
    }
  }

  // ---------------------------------------------------------------------
  // explode( ',', $s ) and implode( ',', $parts )

  /** `explode( ',', s )`: the pieces between commas, always at least one. */
  function Explode(s: string): (parts: seq<string>)
    ensures |parts| >= 1
    ensures forall i | 0 <= i < |parts| :: ',' !in parts[i]
  {
    if s == [] then [""]
    else
      var rest := Explode(s[1..]);
      if s[0] == ',' then [""] + rest
      else [[s[0]] + rest[0]] + rest[1..]
  }

  /** `implode( ',', parts )`. */
  function Implode(parts: seq<string>): string
    requires |parts| >= 1
  {
    if |parts| == 1 then parts[0] else parts[0] + "," + Implode(parts[1..])
  }

  /** `explode` gives one piece more than there are commas. */
  lemma {:induction false} ExplodeLength(s: string)
    ensures |Explode(s)| == multiset(s)[','] + 1
  {
    if s != [] {
      ExplodeLength(s[1..]);
      assert s == [s[0]] + s[1..];
    }
  }

  /** Joining the pieces of `explode` with commas gives back the string. */
  lemma {:induction false} ImplodeExplode(s: string)
    ensures Implode(Explode(s)) == s
  {
    if s != [] {
      var rest := Explode(s[1..]);
      ImplodeExplode(s[1..]);
      if s[0] == ',' {
        assert ([""] + rest)[1..] == rest;
      } else {
        var parts := [[s[0]] + rest[0]] + rest[1..];
        if |rest| > 1 {
          assert parts[1..] == rest[1..];
          assert Implode(rest) == rest[0] + "," + Implode(rest[1..]);
        }
      }
    }
  }

  lemma {:induction false} ExplodeComma(p: string, t: string)
    requires ',' !in p
    ensures Explode(p + "," + t) == [p] + Explode(t)
  {
    if p == [] {
      assert p + "," + t == [','] + t;
      assert ([','] + t)[1..] == t;
    } else {
      assert (p + "," + t)[1..] == p[1..] + "," + t;
      ExplodeComma(p[1..], t);
      assert [p[0]] + p[1..] == p;
    }
  }

  lemma {:induction false} ExplodeNoComma(p: string)
    requires ',' !in p
    ensures Explode(p) == [p]
  {
    if p != [] {
      ExplodeNoComma(p[1..]);
      assert [p[0]] + p[1..] == p;
    }
  }

  /** Splitting a comma-joined list of comma-free pieces gives back the pieces. */
  lemma {:induction false} ExplodeImplode(parts: seq<string>)
    requires |parts| >= 1
    requires forall i | 0 <= i < |parts| :: ',' !in parts[i]
    ensures Explode(Implode(parts)) == parts
  {
    if |parts| == 1 {
      ExplodeNoComma(parts[0]);
    } else {
      ExplodeImplode(parts[1..]);
      ExplodeComma(parts[0], Implode(parts[1..]));
      assert [parts[0]] + parts[1..] == parts;
    }
  }

  // ---------------------------------------------------------------------
  // strcasecmp

  /** ASCII lower-casing, byte by byte (letters outside A-Z are left alone). */
  function LowerAscii(c: char): char {
    if 'A' <= c <= 'Z' then (c as int + 32) as char else c
  }

  function LowerAll(s: string): (r: string)
    ensures |r| == |s|
  {
    if s == [] then [] else [LowerAscii(s[0])] + LowerAll(s[1..])
  }

  /**
   * `strcasecmp( a, b )`: the difference of the first pair of lower-cased
   * characters that differ, or else the difference of the lengths.
   */
  function StrCaseCmp(a: string, b: string): int {
    if a == [] || b == [] then |a| - |b|
    else if LowerAscii(a[0]) != LowerAscii(b[0]) then LowerAscii(a[0]) as int - LowerAscii(b[0]) as int
    else StrCaseCmp(a[1..], b[1..])
  }

  /** A title sorts before every longer title it begins, by the difference in length. */
  lemma {:induction false} StrCaseCmpPrefix(a: string, b: string)
    ensures StrCaseCmp(a, a + b) == -|b|
  {
    if a != [] {
      assert (a + b)[0] == a[0] && (a + b)[1..] == a[1..] + b;
      StrCaseCmpPrefix(a[1..], b);
    }
  }

  /** Two titles compare equal exactly when they agree after ASCII lower-casing. */
  lemma {:induction false} StrCaseCmpZero(a: string, b: string)
    ensures StrCaseCmp(a, b) == 0 <==> LowerAll(a) == LowerAll(b)
  {
    if a != [] && b != [] {
      StrCaseCmpZero(a[1..], b[1..]);
      assert LowerAll(a) == [LowerAscii(a[0])] + LowerAll(a[1..]);
      assert LowerAll(b) == [LowerAscii(b[0])] + LowerAll(b[1..]);
      if LowerAll(a) == LowerAll(b) {
        assert LowerAll(a)[0] == LowerAll(b)[0];
        assert LowerAll(a)[1..] == LowerAll(b)[1..];
      }
    } else if a != [] {
      assert |LowerAll(a)| != |LowerAll(b)|;
    } else if b != [] {
      assert |LowerAll(a)| != |LowerAll(b)|;
    }
  }

  /** Swapping the arguments negates the comparison. */
  lemma {:induction false} StrCaseCmpAntisymmetric(a: string, b: string)
    ensures StrCaseCmp(a, b) == -StrCaseCmp(b, a)
  {
    if a != [] && b != [] && LowerAscii(a[0]) == LowerAscii(b[0]) {
      StrCaseCmpAntisymmetric(a[1..], b[1..]);
    }
  }

  /** "Sorts no later than" is transitive, so it orders titles. */
  lemma {:induction false} StrCaseCmpTransitive(a: string, b: string, c: string)
    requires StrCaseCmp(a, b) <= 0 && StrCaseCmp(b, c) <= 0
    ensures StrCaseCmp(a, c) <= 0
  {
    if a != [] && b != [] && c != [] {
      if LowerAscii(a[0]) == LowerAscii(b[0]) && LowerAscii(b[0]) == LowerAscii(c[0]) {
        StrCaseCmpTransitive(a[1..], b[1..], c[1..]);
      }
    }
  }
}
