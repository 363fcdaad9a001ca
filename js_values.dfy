/**
 * The JavaScript values a request body or query string carries into the service, and the
 * language operations the service applies to them: truthiness (`!v`, `v || d`), `typeof`,
 * `String.prototype.trim`, `parseInt(v, 10)`, the `Number(v)` conversion and `String(n)`.
 */
module JsValues {

  /** A JavaScript value. Numbers are integral (`Num`) or `NaN`; `Date(t)` is a Date object
      holding the abstract clock reading `t`. */
  datatype JsValue =
    | Undefined
    | Null
    | Bool(b: bool)
    | Num(n: int)
    | NaN
    | Str(s: string)
    | Obj
    | Date(t: nat)

  /** `typeof v === 'number'` */
  predicate IsNumber(v: JsValue) {
    v.Num? || v.NaN?
  }

  /** `!!v` */
  predicate Truthy(v: JsValue) {
    match v
    case Undefined => false
    case Null => false
    case Bool(b) => b
    case Num(n) => n != 0
    case NaN => false
    case Str(s) => s != ""
    case Obj => true
    case Date(_) => true
  }

  /** `v || d` */
  function Or(v: JsValue, d: JsValue): JsValue {
    if Truthy(v) then v else d
  }

  /** The characters `trim` and `parseInt` strip: WhiteSpace and LineTerminator of ECMA-262. */
  const WhiteSpace: set<char> := {
    '\t', '\n', '\U{000B}', '\U{000C}', '\r', ' ', '\U{00A0}', '\U{1680}',
    '\U{2000}', '\U{2001}', '\U{2002}', '\U{2003}', '\U{2004}', '\U{2005}', '\U{2006}',
    '\U{2007}', '\U{2008}', '\U{2009}', '\U{200A}',
    '\U{2028}', '\U{2029}', '\U{202F}', '\U{205F}', '\U{3000}', '\U{FEFF}' }

  predicate IsWhiteSpace(c: char) {
    c in WhiteSpace
  }

  /** The string without its leading white space. */
  function TrimStart(s: string): string {
    if s != [] && IsWhiteSpace(s[0]) then TrimStart(s[1..]) else s
  }

  /** Trimming at the start drops a run of white space and stops at the first other character. */
  lemma {:induction false} TrimStartSpec(s: string)
    ensures |TrimStart(s)| <= |s|
    ensures TrimStart(s) == s[|s| - |TrimStart(s)|..]
    ensures forall i :: 0 <= i < |s| - |TrimStart(s)| ==> IsWhiteSpace(s[i])
    ensures TrimStart(s) == [] || !IsWhiteSpace(TrimStart(s)[0])
  {
    if s != [] && IsWhiteSpace(s[0]) {
      var t := s[1..];
      TrimStartSpec(t);
      assert forall i :: 1 <= i < |s| ==> s[i] == t[i - 1];
    }
  }

  /** The string without its trailing white space. */
  function TrimEnd(s: string): string {
    if s != [] && IsWhiteSpace(s[|s| - 1]) then TrimEnd(s[..|s| - 1]) else s
  }

  /** Trimming at the end drops a run of white space and stops at the last other character. */
  lemma {:induction false} TrimEndSpec(s: string)
    ensures |TrimEnd(s)| <= |s|
    ensures TrimEnd(s) == s[..|TrimEnd(s)|]
    ensures forall i :: |TrimEnd(s)| <= i < |s| ==> IsWhiteSpace(s[i])
    ensures TrimEnd(s) == [] || !IsWhiteSpace(TrimEnd(s)[|TrimEnd(s)| - 1])
  {
    if s != [] && IsWhiteSpace(s[|s| - 1]) {
      var t := s[..|s| - 1];
      TrimEndSpec(t);
      assert forall i :: 0 <= i < |t| ==> s[i] == t[i];
    }
  }

  /** `s.trim()` */
  function Trim(s: string): string {
    TrimEnd(TrimStart(s))
  }

  /** `s.trim() === ''` */
  predicate IsBlank(s: string) {
    Trim(s) == ""
  }

  /** A string is blank exactly when every one of its characters is white space. */
  lemma BlankIffAllWhiteSpace(s: string)
    ensures IsBlank(s) <==> forall i :: 0 <= i < |s| ==> IsWhiteSpace(s[i])
  {
    var u := TrimStart(s);
    TrimStartSpec(s);
    TrimEndSpec(u);
    if IsBlank(s) {
      assert u == [];
    } else {
      assert u != [] && !IsWhiteSpace(u[0]);
      assert s[|s| - |u|] == u[0];
    }
  }

  // ---------------------------------------------------------------- decimal digits

  predicate IsDigit(c: char) {
    '0' <= c <= '9'
  }

  lemma WhiteSpaceIsNotDigit(c: char)
    requires IsWhiteSpace(c)
    ensures !IsDigit(c)
  {
  }

  predicate AllDigits(d: string) {
    forall i :: 0 <= i < |d| ==> IsDigit(d[i])
  }

  function DigitValue(c: char): nat
    requires IsDigit(c)
  {
    c as int - '0' as int
  }

  function DigitChar(n: nat): (c: char)
    requires n < 10
    ensures IsDigit(c) && DigitValue(c) == n
  {
    ('0' as int + n) as char
  }

  /** The number a run of decimal digits denotes, most significant digit first. */
  function DigitsValue(d: string): nat
    requires AllDigits(d)
  {
    if d == [] then 0 else 10 * DigitsValue(d[..|d| - 1]) + DigitValue(d[|d| - 1])
  }

  /** The longest prefix of decimal digits. */
  function LeadingDigits(s: string): (d: string)
    ensures |d| <= |s| && d == s[..|d|] && AllDigits(d)
    ensures |d| < |s| ==> !IsDigit(s[|d|])
  {
    if s != [] && IsDigit(s[0]) then [s[0]] + LeadingDigits(s[1..]) else []
  }

  /** An optional leading '-' or '+' and what follows it. */
  function SplitSign(t: string): (int, string) {
    if t != [] && t[0] == '-' then (-1, t[1..])
    else if t != [] && t[0] == '+' then (1, t[1..])
    else (1, t)
  }

  /** `parseInt(s, 10)`: skip leading white space, read an optional sign and the longest run of
      digits after it; without a digit the result is NaN. */
  function ParseInt(s: string): (v: JsValue)
    ensures IsNumber(v)
    ensures v.NaN? <==> LeadingDigits(SplitSign(TrimStart(s)).1) == []
  {
    var (sign, rest) := SplitSign(TrimStart(s));
    var d := LeadingDigits(rest);
    if d == [] then NaN else Num(sign * DigitsValue(d))
  }

  /** `Number(s)` for the strings modelled here: blank gives 0, an optionally signed run of
      decimal digits surrounded by white space gives its value, anything else NaN. */
  function StringToNumber(s: string): (v: JsValue)
    ensures IsNumber(v)
  {
    var t := Trim(s);
    if t == [] then Num(0)
    else
      var (sign, rest) := SplitSign(t);
      if rest != [] && AllDigits(rest) then Num(sign * DigitsValue(rest)) else NaN
  }

  /** The ToNumber conversion that `Number(v)` and arithmetic (`a - v`) apply. */
  function ToNumber(v: JsValue): (r: JsValue)
    ensures IsNumber(r)
    ensures IsNumber(v) ==> r == v
  {
    match v
    case Undefined => NaN
    case Null => Num(0)
    case Bool(b) => Num(if b then 1 else 0)
    case Num(_) => v
    case NaN => NaN
    case Str(s) => StringToNumber(s)
    case Obj => NaN
    case Date(t) => Num(t)
  }

  /** `a - v` for a number `a` */
  function Minus(a: int, v: JsValue): JsValue {
    match ToNumber(v)
    case Num(n) => Num(a - n)
    case _ => NaN
  }

  // ---------------------------------------------------------------- String(n)

  function NatToString(n: nat): (s: string)
    ensures s != [] && AllDigits(s)
  {
    if n < 10 then [DigitChar(n)] else NatToString(n / 10) + [DigitChar(n % 10)]
  }

  /** `String(n)` for an integral number. */
  function IntToString(n: int): string {
    if n < 0 then "-" + NatToString(-n) else NatToString(n)
  }

  lemma {:induction false} DigitsValueOfNatToString(n: nat)
    ensures DigitsValue(NatToString(n)) == n
  {
    var s := NatToString(n);
    if n >= 10 {
      DigitsValueOfNatToString(n / 10);
      assert s[..|s| - 1] == NatToString(n / 10);
    }
  }

  lemma {:induction false} LeadingDigitsOfDigitsThen(d: string, w: string)
    requires AllDigits(d)
    requires w == [] || !IsDigit(w[0])
    ensures LeadingDigits(d + w) == d
  {
    if d != [] {
      assert (d + w)[1..] == d[1..] + w;
      LeadingDigitsOfDigitsThen(d[1..], w);
    } else {
      assert d + w == w;
    }
  }

  /** `String(n)` starts with '-' or a digit and ends with a digit, so trimming leaves it whole. */
  lemma IntToStringIsTrimmed(n: int)
    ensures TrimStart(IntToString(n)) == IntToString(n)
    ensures Trim(IntToString(n)) == IntToString(n)
  {
    var s := IntToString(n);
    assert !IsWhiteSpace(s[0]) && !IsWhiteSpace(s[|s| - 1]);
  }

  /** The sign and digits `String(n)` splits into. */
  lemma SplitSignOfIntToString(n: int)
    ensures SplitSign(IntToString(n)) == (if n < 0 then -1 else 1, NatToString(if n < 0 then -n else n))
  {
    var m: nat := if n < 0 then -n else n;
    if n < 0 {
      assert ("-" + NatToString(m))[1..] == NatToString(m);
    } else {
      assert IsDigit(NatToString(m)[0]);
    }
  }

  /** `parseInt(String(n), 10) === n`: the parser reads back every integer it is given in
      decimal. */
  lemma ParseIntOfIntToString(n: int)
    ensures ParseInt(IntToString(n)) == Num(n)
  {
    var m: nat := if n < 0 then -n else n;
    IntToStringIsTrimmed(n);
    SplitSignOfIntToString(n);
    LeadingDigitsOfDigitsThen(NatToString(m), []);
    assert NatToString(m) + [] == NatToString(m);
    DigitsValueOfNatToString(m);
  }

  /** `Number(String(n)) === n` */
  lemma StringToNumberOfIntToString(n: int)
    ensures StringToNumber(IntToString(n)) == Num(n)
  {
    var m: nat := if n < 0 then -n else n;
    IntToStringIsTrimmed(n);
    SplitSignOfIntToString(n);
    DigitsValueOfNatToString(m);
  }

  /** Trimming at the start and then at the end leaves some white space after the result. */
  lemma TrimStartIsTrimThenSpace(s: string) returns (w: string)
    ensures TrimStart(s) == Trim(s) + w
    ensures w == [] || IsWhiteSpace(w[0])
    ensures Trim(s) == [] ==> TrimStart(s) == []
  {
    var u := TrimStart(s);
    TrimStartSpec(s);
    TrimEndSpec(u);
    w := u[|Trim(s)|..];
    assert u == Trim(s) + w;
  }

  lemma SplitSignOfAppend(t: string, w: string)
    requires t != []
    ensures SplitSign(t + w) == (SplitSign(t).0, SplitSign(t).1 + w)
  {
    assert (t + w)[0] == t[0];
    assert (t + w)[1..] == t[1..] + w;
  }

  /** Whenever both `Number(s)` and `parseInt(s, 10)` give a number, it is the same number:
      the string is an optionally signed run of digits between white space, and `parseInt`
      stops exactly where the trailing white space starts. */
  lemma ParseIntAgreesWithNumber(s: string)
    requires StringToNumber(s).Num? && ParseInt(s).Num?
    ensures ParseInt(s) == StringToNumber(s)
  {
    var w := TrimStartIsTrimThenSpace(s);
    var t := Trim(s);
    if t == [] {
      assert false;
    } else {
      SplitSignOfAppend(t, w);
      var (sign, rest) := SplitSign(t);
      assert rest != [] && AllDigits(rest);
      if w != [] {
        WhiteSpaceIsNotDigit(w[0]);
      }
      LeadingDigitsOfDigitsThen(rest, w);
    }
  }

  // ---------------------------------------------------------------- strings

  /** `xs.join(sep)` */
  function Join(xs: seq<string>, sep: string): string {
    if |xs| == 0 then ""
    else if |xs| == 1 then xs[0]
    else xs[0] + sep + Join(xs[1..], sep)
  }

  /** `s` contains `p` as a contiguous substring: SQL `s LIKE '%' + p + '%'` without
      wildcards in `p`. */
  predicate Contains(s: string, p: string) {
    p <= s || (s != [] && Contains(s[1..], p))
  }
}
