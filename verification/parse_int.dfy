/** `parseInt(string, 10)` of ECMA-262 (section 19.2.5, "parseInt ( string, radix )"),
    over mathematical integers: NaN is `Absent`. */
module Ecma262 {
  import opened JsValues

  /** The WhiteSpace (section 12.2) and LineTerminator (section 12.3) code
      points that the algorithm trims from the start of its input. */
  predicate IsWhiteSpace(c: char) {
    || c == '\U{9}' || c == '\U{B}' || c == '\U{C}' || c == '\U{20}' || c == '\U{A0}'
    || c == '\U{FEFF}' || c == '\U{1680}' || ('\U{2000}' <= c <= '\U{200A}')
    || c == '\U{202F}' || c == '\U{205F}' || c == '\U{3000}'
    || c == '\U{A}' || c == '\U{D}' || c == '\U{2028}' || c == '\U{2029}'
  }

  predicate IsDigit(c: char) {
    '0' <= c <= '9'
  }

  predicate AllDigits(s: string) {
    forall i :: 0 <= i < |s| ==> IsDigit(s[i])
  }

  function DigitValue(c: char): (d: nat)
    requires IsDigit(c)
    ensures d < 10
  {
    c as int - '0' as int
  }

  function DigitChar(d: nat): (c: char)
    requires d < 10
    ensures IsDigit(c) && DigitValue(c) == d
  {
    (d + '0' as int) as char
  }

  /** Drops the leading white space. */
  function TrimStart(s: string): (t: string)
    ensures |t| <= |s| && t == s[|s| - |t|..]
    ensures |t| == 0 || !IsWhiteSpace(t[0])
  {
    if |s| > 0 && IsWhiteSpace(s[0]) then TrimStart(s[1..]) else s
  }

  /** Everything `TrimStart` drops is white space. */
  lemma {:induction false} TrimStartDropsWhiteSpace(s: string)
    ensures forall i :: 0 <= i < |s| - |TrimStart(s)| ==> IsWhiteSpace(s[i])
    decreases |s|
  {
    if |s| > 0 && IsWhiteSpace(s[0]) {
      TrimStartDropsWhiteSpace(s[1..]);
      assert forall i :: 1 <= i < |s| ==> s[i] == s[1..][i - 1];
    }
  }

  /** Text that does not start with white space is already trimmed. */
  lemma TrimStartNoWhiteSpace(s: string)
    requires |s| > 0 && !IsWhiteSpace(s[0])
    ensures TrimStart(s) == s
  {
  }

  /** Length of the longest prefix of decimal digits. */
  function LeadingDigits(s: string): (n: nat)
    ensures n <= |s|
    ensures AllDigits(s[..n])
    ensures n == |s| || !IsDigit(s[n])
  {
    if |s| > 0 && IsDigit(s[0]) then
      var n := 1 + LeadingDigits(s[1..]);
      assert s[..n] == [s[0]] + s[1..][..n - 1];
      n
    else 0
  }

  /** The mathematical value of a string of decimal digits, most significant first. */
  function DigitsValue(ds: string): nat
    requires AllDigits(ds)
  {
    if |ds| == 0 then 0 else DigitsValue(ds[..|ds| - 1]) * 10 + DigitValue(ds[|ds| - 1])
  }

  /** The value of the longest digit prefix of `u`; NaN when there is none. */
  function ParseDigits(u: string): (r: Nullable<int>)
    ensures r.Absent? <==> |u| == 0 || !IsDigit(u[0])
    ensures r.Present? ==> r.value >= 0
  {
    var n := LeadingDigits(u);
    if n == 0 then Absent else Present(DigitsValue(u[..n]))
  }

  /** Applies a minus sign; NaN stays NaN. */
  function Negate(r: Nullable<int>): Nullable<int> {
    match r
    case Absent => Absent
    case Present(v) => Present(-v)
  }

  /** Drops one leading '+' or '-', if there is one. */
  function StripSign(t: string): string {
    if |t| > 0 && (t[0] == '+' || t[0] == '-') then t[1..] else t
  }

  /** Reads the optional sign of already trimmed text, then its digits. */
  function ParseSigned(t: string): Nullable<int> {
    if |t| > 0 && t[0] == '-' then Negate(ParseDigits(StripSign(t)))
    else ParseDigits(StripSign(t))
  }

  /** parseInt(s, 10). The radix is fixed at 10, so no "0x" prefix is stripped. */
  function ParseInt(s: string): (r: Nullable<int>)
    ensures |s| == 0 ==> r.Absent?
  {
    ParseSigned(TrimStart(s))
  }

  /** The decimal digits of a natural number, without leading zeros. */
  function NatDigits(n: nat): (ds: string)
    ensures |ds| > 0 && AllDigits(ds)
    ensures DigitsValue(ds) == n
    ensures |ds| > 1 ==> ds[0] != '0'
  {
    if n < 10 then [DigitChar(n)]
    else
      var ds := NatDigits(n / 10) + [DigitChar(n % 10)];
      assert ds[..|ds| - 1] == NatDigits(n / 10);
      ds
  }

  /** The plain decimal rendering of an integer `n`: an optional minus sign,
      then its digits. */
  function ToDecimal(n: int): (s: string)
    ensures |s| > 0 && (s[0] == '-' || IsDigit(s[0]))
  {
    if n < 0 then "-" + NatDigits(-n) else NatDigits(n)
  }

  /** The digit prefix ends where the first non-digit begins. */
  lemma {:induction false} LeadingDigitsOfDigits(ds: string, rest: string)
    requires AllDigits(ds)
    requires |rest| == 0 || !IsDigit(rest[0])
    ensures LeadingDigits(ds + rest) == |ds|
    decreases |ds|
  {
    if |ds| > 0 {
      assert (ds + rest)[1..] == ds[1..] + rest;
      LeadingDigitsOfDigits(ds[1..], rest);
    } else {
      assert ds + rest == rest;
    }
  }

  /** A run of digits followed by a non-digit parses to the run's value. */
  lemma ParseDigitsOfDigits(ds: string, rest: string)
    requires |ds| > 0 && AllDigits(ds)
    requires |rest| == 0 || !IsDigit(rest[0])
    ensures ParseDigits(ds + rest) == Present(DigitsValue(ds))
  {
    LeadingDigitsOfDigits(ds, rest);
    assert (ds + rest)[..|ds|] == ds;
  }

  lemma ParseIntOfDigits(ds: string, rest: string)
    requires |ds| > 0 && AllDigits(ds)
    requires |rest| == 0 || !IsDigit(rest[0])
    ensures ParseInt(ds + rest) == Present(DigitsValue(ds))
  {
    var s := ds + rest;
    assert s[0] == ds[0];
    TrimStartNoWhiteSpace(s);
    ParseDigitsOfDigits(ds, rest);
  }

  /** A leading minus sign negates whatever the digits after it give. */
  lemma ParseIntOfMinus(u: string)
    ensures ParseInt("-" + u) == Negate(ParseDigits(u))
  {
    var s := "-" + u;
    assert s[0] == '-' && s[1..] == u;
    TrimStartNoWhiteSpace(s);
  }

  /** A leading plus sign is dropped. */
  lemma ParseIntOfPlus(u: string)
    ensures ParseInt("+" + u) == ParseDigits(u)
  {
    var s := "+" + u;
    assert s[0] == '+' && s[1..] == u;
    TrimStartNoWhiteSpace(s);
  }

  /** Digits after a minus sign, then a non-digit or nothing, give the
      negated value of the digits. */
  lemma ParseIntOfNegatedDigits(ds: string, rest: string)
    requires |ds| > 0 && AllDigits(ds)
    requires |rest| == 0 || !IsDigit(rest[0])
    ensures ParseInt("-" + (ds + rest)) == Negate(Present(DigitsValue(ds)))
  {
    ParseDigitsOfDigits(ds, rest);
    ParseIntOfMinus(ds + rest);
  }

  lemma ConcatAssoc(a: string, b: string, c: string, d: string)
    ensures a + b + c + d == a + (b + (c + d))
  {
  }

  /** parseInt on its whole input space of successes: white space, at most
      one sign, a non-empty run of digits (leading zeros allowed), then a
      tail that does not start with a digit. */
  lemma ParseIntOfParts(ws: string, sign: string, ds: string, rest: string)
    requires forall i :: 0 <= i < |ws| ==> IsWhiteSpace(ws[i])
    requires sign in {"", "+", "-"}
    requires |ds| > 0 && AllDigits(ds)
    requires |rest| == 0 || !IsDigit(rest[0])
    ensures ParseInt(ws + sign + ds + rest)
            == if sign == "-" then Negate(Present(DigitsValue(ds))) else Present(DigitsValue(ds))
  {
    ConcatAssoc(ws, sign, ds, rest);
    ParseIntSkipsWhiteSpace(ws, sign + (ds + rest));
    if sign == "-" {
      ParseIntOfNegatedDigits(ds, rest);
    } else if sign == "+" {
      ParseIntOfPlus(ds + rest);
      ParseDigitsOfDigits(ds, rest);
    } else {
      assert sign + (ds + rest) == ds + rest;
      ParseIntOfDigits(ds, rest);
    }
  }

  /** Exactly when parseInt is NaN: once the white space and at most one sign
      are dropped, nothing is left or a non-digit comes first. */
  lemma ParseIntNaNIff(s: string)
    ensures ParseInt(s).Absent? <==>
              var u := StripSign(TrimStart(s)); |u| == 0 || !IsDigit(u[0])
  {
    var t := TrimStart(s);
    var r := ParseDigits(StripSign(t));
    assert Negate(r).Absent? <==> r.Absent?;
  }

  /** A plus sign is accepted: "+12" is 12. */
  lemma ParseIntPlusExample()
    ensures ParseInt("+12") == Present(12)
  {
    assert "12"[..1] == "1";
    assert DigitsValue("12") == 12;
    ParseIntOfPlus("12");
    ParseDigitsOfDigits("12", "");
    assert "12" + "" == "12";
  }

  /** Leading zeros are ordinary digits: "007" is 7. */
  lemma ParseIntLeadingZerosExample()
    ensures ParseInt("007") == Present(7)
  {
    assert "007"[..2] == "00" && "00"[..1] == "0";
    assert DigitsValue("007") == 7;
    ParseIntOfDigits("007", "");
    assert "007" + "" == "007";
  }

  /** "-0" is zero (JavaScript's -0, which compares equal to 0). */
  lemma ParseIntMinusZeroExample()
    ensures ParseInt("-0") == Present(0)
  {
    assert "0"[..0] == "" && DigitsValue("0") == 0;
    ParseDigitsOfDigits("0", "");
    assert "0" + "" == "0";
    ParseIntOfMinus("0");
    assert Negate(Present(0)) == Present(0);
  }

  /** A non-digit right after the optional sign is NaN, even if digits follow:
      "x5", "-x5", "+-5" and "- 5". */
  lemma ParseIntNaNExamples(s: string)
    requires s in {"x5", "-x5", "+-5", "- 5"}
    ensures ParseInt(s).Absent?
  {
    assert !IsWhiteSpace(s[0]) && |s| > 1;
    TrimStartNoWhiteSpace(s);
    ParseIntNaNIff(s);
    if s[0] == '-' || s[0] == '+' {
      assert StripSign(s)[0] == s[1] && !IsDigit(s[1]);
    }
  }

  /** Only the leading digits count: the rendering of `n` followed by anything
      that does not start with a digit parses back to `n` ("12abc" gives 12). */
  lemma ParseIntIgnoresSuffix(n: int, rest: string)
    requires |rest| == 0 || !IsDigit(rest[0])
    ensures ParseInt(ToDecimal(n) + rest) == Present(n)
  {
    if n < 0 {
      assert ToDecimal(n) + rest == "-" + (NatDigits(-n) + rest);
      ParseIntOfNegatedDigits(NatDigits(-n), rest);
    } else {
      ParseIntOfDigits(NatDigits(n), rest);
    }
  }

  /** Round trip: parseInt recovers every integer from its decimal rendering. */
  lemma ParseIntRoundTrip(n: int)
    ensures ParseInt(ToDecimal(n)) == Present(n)
  {
    ParseIntIgnoresSuffix(n, "");
    assert ToDecimal(n) + "" == ToDecimal(n);
  }

  /** Leading white space is skipped. */
  lemma {:induction false} ParseIntSkipsWhiteSpace(ws: string, s: string)
    requires forall i :: 0 <= i < |ws| ==> IsWhiteSpace(ws[i])
    ensures ParseInt(ws + s) == ParseInt(s)
    decreases |ws|
  {
    if |ws| > 0 {
      assert (ws + s)[1..] == ws[1..] + s;
      ParseIntSkipsWhiteSpace(ws[1..], s);
      assert TrimStart(ws + s) == TrimStart(ws[1..] + s);
    } else {
      assert ws + s == s;
    }
  }

  /** A string without any decimal digit is NaN. */
  lemma NoDigitIsNaN(s: string)
    requires forall i :: 0 <= i < |s| ==> !IsDigit(s[i])
    ensures ParseInt(s).Absent?
  {
    var t := TrimStart(s);
    if |t| > 1 {
      assert t[1] == s[|s| - |t| + 1];
    }
    if |t| > 0 {
      assert t[0] == s[|s| - |t|];
    }
  }
}
