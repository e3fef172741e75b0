/** The ECMAScript string-to-number conversions the request handling relies on:
    the global parseInt(string, 10) of section 19.2.5 of ECMA-262, applied to the path
    identifier, and Number(string) (StringToNumber, section 7.1.4.1.1), applied to the
    pagination query parameters. Results are unbounded integers; None stands for NaN.
    Number is modelled on its decimal-integer subset only. */
module JsConversions {
  import opened Wrappers

  /** The WhiteSpace (section 12.2) and LineTerminator (section 12.3) code points, which
      both conversions strip. */
  predicate IsWhiteSpace(c: char) {
    || c == '\U{0009}' || c == '\U{000B}' || c == '\U{000C}' || c == '\U{FEFF}'
    || c == '\U{0020}' || c == '\U{00A0}' || c == '\U{1680}' || ('\U{2000}' <= c <= '\U{200A}')
    || c == '\U{202F}' || c == '\U{205F}' || c == '\U{3000}'
    || c == '\U{000A}' || c == '\U{000D}' || c == '\U{2028}' || c == '\U{2029}'
  }

  predicate IsDigit(c: char) {
    '0' <= c <= '9'
  }

  predicate AllDigits(s: string) {
    forall i :: 0 <= i < |s| ==> IsDigit(s[i])
  }

  function DigitValue(c: char): (d: nat)
    requires IsDigit(c)
    ensures d < 10
  {
    c as int - '0' as int
  }

  function DigitChar(d: nat): (c: char)
    requires d < 10
    ensures IsDigit(c) && DigitValue(c) == d
  {
    ('0' as int + d) as char
  }

  /** The value of a string of decimal digits, most significant first. */
  function DigitsValue(ds: string): nat
    requires AllDigits(ds)
  {
    if ds == [] then 0 else 10 * DigitsValue(ds[..|ds| - 1]) + DigitValue(ds[|ds| - 1])
  }

  /** The canonical decimal spelling of a natural number (no sign, no leading zero),
      as JavaScript's String(n) writes an integer. */
  function DecimalString(n: nat): (r: string)
    ensures r != [] && AllDigits(r)
    ensures r[0] != '0' || n == 0
    ensures DigitsValue(r) == n
  {
    if n < 10 then [DigitChar(n)]
    else
      var r := DecimalString(n / 10) + [DigitChar(n % 10)];
      assert r[..|r| - 1] == DecimalString(n / 10);
      r
  }

  /** Removes the longest prefix of white space. */
  function TrimStart(s: string): (r: string)
    ensures |r| <= |s| && r == s[|s| - |r|..]
    ensures forall i :: 0 <= i < |s| - |r| ==> IsWhiteSpace(s[i])
    ensures r == [] || !IsWhiteSpace(r[0])
  {
    if s != [] && IsWhiteSpace(s[0]) then TrimStart(s[1..]) else s
  }

  /** Removes the longest suffix of white space. */
  function TrimEnd(s: string): (r: string)
    ensures |r| <= |s| && r == s[..|r|]
    ensures forall i :: |r| <= i < |s| ==> IsWhiteSpace(s[i])
    ensures r == [] || !IsWhiteSpace(r[|r| - 1])
  {
    if s != [] && IsWhiteSpace(s[|s| - 1]) then TrimEnd(s[..|s| - 1]) else s
  }

  /** Splits off one leading '+' or '-'; the flag is true for '-'. */
  function SplitSign(s: string): (r: (bool, string))
    ensures 0 <= |s| - |r.1| <= 1 && r.1 == s[|s| - |r.1|..]
    ensures |r.1| < |s| ==> s[0] == '-' || s[0] == '+'
    ensures r.0 <==> s != [] && s[0] == '-'
  {
    if s != [] && s[0] == '-' then (true, s[1..])
    else if s != [] && s[0] == '+' then (false, s[1..])
    else (false, s)
  }

  /** The longest prefix of s made of decimal digits. */
  function LeadingDigits(s: string): (r: string)
    ensures |r| <= |s| && r == s[..|r|] && AllDigits(r)
    ensures |r| == |s| || !IsDigit(s[|r|])
  {
    if s != [] && IsDigit(s[0]) then [s[0]] + LeadingDigits(s[1..]) else []
  }

  function Signed(negative: bool, n: nat): int {
    var v: int := n;
    if negative then -v else v
  }

  /** parseInt(s, 10): skip leading white space, take an optional sign, then the
      longest run of decimal digits; without a digit the result is NaN (None).
      Whatever follows the digits is ignored. */
  function ParseInt(s: string): Option<int>
  {
    var (negative, u) := SplitSign(TrimStart(s));
    var digits := LeadingDigits(u);
    if digits == [] then None
    else Some(Signed(negative, DigitsValue(digits)))
  }

  /** Number(s) on strings of the form [white space][sign][digits][white space]: an empty
      or all-blank string is 0, an optional sign and a non-empty digit run give that
      integer, and every other string of that alphabet is NaN (None). */
  function ToNumber(s: string): Option<int>
  {
    var t := TrimEnd(TrimStart(s));
    if t == [] then Some(0)
    else
      var (negative, u) := SplitSign(t);
      if u != [] && AllDigits(u) then Some(Signed(negative, DigitsValue(u)))
      else None
  }

  predicate AllBlank(s: string) {
    forall i :: 0 <= i < |s| ==> IsWhiteSpace(s[i])
  }

  /** s[..a] is white space, s[a..b] an optional sign and s[b..c] a non-empty run of
      decimal digits that nothing but a non-digit (or the end) follows: the part of s
      that parseInt reads. */
  predicate DecimalPrefix(s: string, a: int, b: int, c: int) {
    && 0 <= a <= b < c <= |s|
    && AllBlank(s[..a])
    && (s[a..b] == "" || s[a..b] == "+" || s[a..b] == "-")
    && AllDigits(s[b..c])
    && (c == |s| || !IsDigit(s[c]))
  }

  /** s is white space, an optional sign, a non-empty run of digits and white space again,
      split at a, b and c: the integer numerals Number accepts. */
  predicate DecimalNumeral(s: string, a: int, b: int, c: int) {
    && 0 <= a <= b < c <= |s|
    && AllBlank(s[..a])
    && (s[a..b] == "" || s[a..b] == "+" || s[a..b] == "-")
    && AllDigits(s[b..c])
    && AllBlank(s[c..])
  }

  lemma {:induction false} LeadingDigitsOfDigits(d: string, rest: string)
    requires AllDigits(d)
    requires rest == [] || !IsDigit(rest[0])
    ensures LeadingDigits(d + rest) == d
  {
    if d != [] {
      assert (d + rest)[1..] == d[1..] + rest;
      LeadingDigitsOfDigits(d[1..], rest);
    } else {
      assert d + rest == rest;
    }
  }

  /** parseInt reads back the decimal spelling of any integer, after any white space
      and with any sign, and ignores whatever non-digit text follows it: "12abc" is 12. */
  lemma ParseIntReadsDecimal(ws: string, sign: string, n: nat, rest: string)
    requires AllBlank(ws)
    requires sign == "" || sign == "+" || sign == "-"
    requires rest == [] || !IsDigit(rest[0])
    ensures ParseInt(ws + sign + DecimalString(n) + rest) == Some(Signed(sign == "-", n))
  {
    ParseIntOfParts(ws, sign, DecimalString(n), rest);
  }

  lemma Regroup(a: string, b: string, c: string, d: string)
    ensures a + b + c + d == a + b + (c + d)
    ensures b + c + d == b + (c + d)
  {
  }

  lemma TrimStartBeforeSign(ws: string, sign: string, rest: string)
    requires AllBlank(ws) && (sign == "" || sign == "+" || sign == "-")
    requires rest != [] && !IsWhiteSpace(rest[0])
    ensures TrimStart(ws + sign + rest) == sign + rest
  {
    var t := sign + rest;
    assert ws + sign + rest == ws + t;
    assert t[0] == if sign == "" then rest[0] else sign[0];
    TrimStartSkipsBlank(ws, t);
  }

  lemma SplitSignOf(sign: string, rest: string)
    requires sign == "" || sign == "+" || sign == "-"
    requires rest != [] && rest[0] != '+' && rest[0] != '-'
    ensures SplitSign(sign + rest) == (sign == "-", rest)
  {
    if sign != "" {
      assert (sign + rest)[1..] == rest;
    }
  }

  /** Past the white space, the sign is split off what follows it. */
  lemma SignAfterBlank(ws: string, sign: string, rest: string)
    requires AllBlank(ws) && (sign == "" || sign == "+" || sign == "-")
    requires rest != [] && !IsWhiteSpace(rest[0]) && rest[0] != '+' && rest[0] != '-'
    ensures SplitSign(TrimStart(ws + sign + rest)) == (sign == "-", rest)
  {
    TrimStartBeforeSign(ws, sign, rest);
    SplitSignOf(sign, rest);
  }

  /** parseInt skips the white space and reads the sign and digits that follow it. */
  lemma ParseIntOfParts(ws: string, sign: string, d: string, rest: string)
    requires AllBlank(ws) && (sign == "" || sign == "+" || sign == "-")
    requires d != [] && AllDigits(d) && (rest == [] || !IsDigit(rest[0]))
    ensures ParseInt(ws + sign + d + rest) == Some(Signed(sign == "-", DigitsValue(d)))
  {
    Regroup(ws, sign, d, rest);
    assert (d + rest)[0] == d[0];
    SignAfterBlank(ws, sign, d + rest);
    LeadingDigitsOfDigits(d, rest);
  }

  /** parseInt yields the signed value of the digits of a decimal prefix. */
  lemma ParseIntReadsPrefix(s: string, a: int, b: int, c: int)
    requires DecimalPrefix(s, a, b, c)
    ensures ParseInt(s) == Some(Signed(s[a..b] == "-", DigitsValue(s[b..c])))
  {
    assert s == s[..a] + s[a..b] + s[b..c] + s[c..];
    assert s[c..] == [] || s[c..][0] == s[c];
    ParseIntOfParts(s[..a], s[a..b], s[b..c], s[c..]);
  }

  lemma TrimStartDropsBlank(s: string)
    ensures AllBlank(s[..|s| - |TrimStart(s)|])
  {
    var a := |s| - |TrimStart(s)|;
    forall i | 0 <= i < a ensures IsWhiteSpace(s[..a][i]) {
      assert s[..a][i] == s[i];
    }
  }

  lemma SplitSignDropsSign(t: string)
    ensures var sp := SplitSign(t); var sign := t[..|t| - |sp.1|];
      (sign == "" || sign == "+" || sign == "-") && (sp.0 <==> sign == "-")
  {
    if t != [] && (t[0] == '-' || t[0] == '+') {
      assert t[..1] == [t[0]];
    }
  }

  /** A suffix of a suffix of s is a suffix of s, and what lies between the two is the
      part of the longer suffix before the shorter. */
  lemma SuffixOfSuffix(s: string, t: string, u: string)
    requires |t| <= |s| && t == s[|s| - |t|..]
    requires |u| <= |t| && u == t[|t| - |u|..]
    ensures u == s[|s| - |u|..]
    ensures s[|s| - |t|..|s| - |u|] == t[..|t| - |u|]
  {
  }

  lemma PrefixOfSuffix(s: string, b: int, d: string)
    requires 0 <= b <= |s| && |d| <= |s| - b && d == s[b..][..|d|]
    ensures s[b..b + |d|] == d
    ensures b + |d| < |s| ==> s[b + |d|] == s[b..][|d|]
  {
  }

  /** Whenever parseInt yields a number, the string has a decimal prefix and the number
      is its signed value; with ParseIntReadsPrefix, parseInt yields a number exactly
      for the strings that have one. */
  lemma ParseIntFindsPrefix(s: string)
    ensures ParseInt(s).Some? ==>
      exists a, b, c :: DecimalPrefix(s, a, b, c) && ParseInt(s).value == Signed(s[a..b] == "-", DigitsValue(s[b..c]))
  {
    var t := TrimStart(s);
    var u := SplitSign(t).1;
    var digits := LeadingDigits(u);
    if digits != [] {
      var a, b := |s| - |t|, |s| - |u|;
      TrimStartDropsBlank(s);
      SplitSignDropsSign(t);
      SuffixOfSuffix(s, t, u);
      PrefixOfSuffix(s, b, digits);
      assert AllBlank(s[..a]);
      assert s[a..b] == "" || s[a..b] == "+" || s[a..b] == "-";
      assert AllDigits(s[b..b + |digits|]);
      assert b + |digits| == |s| || !IsDigit(s[b + |digits|]);
      assert DecimalPrefix(s, a, b, b + |digits|);
      ParseIntReadsPrefix(s, a, b, b + |digits|);
    }
  }

  /** parseInt("12abc", 10) is 12. */
  lemma ParseIntOfTwelveAbc()
    ensures ParseInt("12abc") == Some(12)
  {
    var s, d := "12abc", "12";
    assert !IsWhiteSpace(s[0]);
    assert TrimStart(s) == s;
    assert SplitSign(s) == (false, s);
    assert s == d + "abc";
    LeadingDigitsOfDigits(d, "abc");
    assert d[..1] == "1" && "1"[..0] == [];
    assert DigitsValue(d) == 12;
  }

  /** parseInt("abc", 10) is NaN. */
  lemma ParseIntOfLetters()
    ensures ParseInt("abc") == None
  {
    var s := "abc";
    assert !IsWhiteSpace(s[0]);
    assert TrimStart(s) == s;
    assert SplitSign(s) == (false, s);
    assert !IsDigit(s[0]);
    assert LeadingDigits(s) == [];
  }

  /** parseInt("", 10) is NaN. */
  lemma ParseIntOfEmpty()
    ensures ParseInt("") == None
  {
    ParseIntNeedsDigit("");
  }

  lemma {:induction false} TrimStartSkipsBlank(ws: string, t: string)
    requires forall i :: 0 <= i < |ws| ==> IsWhiteSpace(ws[i])
    requires t == [] || !IsWhiteSpace(t[0])
    ensures TrimStart(ws + t) == t
  {
    if ws != [] {
      assert (ws + t)[1..] == ws[1..] + t;
      TrimStartSkipsBlank(ws[1..], t);
    } else {
      assert ws + t == t;
    }
  }

  /** Without a single decimal digit in the string, parseInt gives NaN ("abc", ""). */
  lemma ParseIntNeedsDigit(s: string)
    ensures ParseInt(s).Some? ==> exists i :: 0 <= i < |s| && IsDigit(s[i])
  {
    var t := TrimStart(s);
    var u := SplitSign(t).1;
    if u != [] && IsDigit(u[0]) {
      var k := |s| - |u|;
      assert u == s[k..];
      assert IsDigit(s[k]);
    }
  }

  lemma TrimStartBeforeDigits(ws: string, sign: string, d: string, tail: string)
    requires AllBlank(ws) && (sign == "" || sign == "+" || sign == "-")
    requires d != [] && AllDigits(d)
    ensures TrimStart(ws + sign + d + tail) == sign + d + tail
  {
    Regroup(ws, sign, d, tail);
    assert (d + tail)[0] == d[0];
    TrimStartBeforeSign(ws, sign, d + tail);
  }

  lemma TrimEndAfterDigits(sign: string, d: string, tail: string)
    requires d != [] && AllDigits(d) && AllBlank(tail)
    ensures TrimEnd(sign + d + tail) == sign + d
  {
    assert (sign + d)[|sign + d| - 1] == d[|d| - 1];
    TrimEndSkipsBlank(sign + d, tail);
  }

  /** Number skips the white space on both sides and reads the sign and digits between. */
  lemma ToNumberOfParts(ws: string, sign: string, d: string, tail: string)
    requires AllBlank(ws) && (sign == "" || sign == "+" || sign == "-")
    requires d != [] && AllDigits(d) && AllBlank(tail)
    ensures ToNumber(ws + sign + d + tail) == Some(Signed(sign == "-", DigitsValue(d)))
  {
    TrimStartBeforeDigits(ws, sign, d, tail);
    TrimEndAfterDigits(sign, d, tail);
    SplitSignOf(sign, d);
  }

  /** Number yields the signed value of the digits of an integer numeral. */
  lemma ToNumberReadsNumeral(s: string, a: int, b: int, c: int)
    requires DecimalNumeral(s, a, b, c)
    ensures ToNumber(s) == Some(Signed(s[a..b] == "-", DigitsValue(s[b..c])))
  {
    assert s == s[..a] + s[a..b] + s[b..c] + s[c..];
    ToNumberOfParts(s[..a], s[a..b], s[b..c], s[c..]);
  }

  lemma TrimEndDropsBlank(s: string)
    ensures AllBlank(s[|TrimEnd(s)|..])
  {
    var c := |TrimEnd(s)|;
    forall i | 0 <= i < |s| - c ensures IsWhiteSpace(s[c..][i]) {
      assert s[c..][i] == s[c + i];
    }
  }

  /** Where the pieces of a suffix r of s, cut by a prefix t of r and a suffix u of t,
      lie in s. */
  lemma PiecesOfSuffix(s: string, r: string, t: string, u: string)
    requires |r| <= |s| && r == s[|s| - |r|..]
    requires |t| <= |r| && t == r[..|t|]
    requires |u| <= |t| && u == t[|t| - |u|..]
    ensures var a := |s| - |r|; var c := a + |t|; var b := c - |u|;
      s[a..b] == t[..|t| - |u|] && s[b..c] == u && s[c..] == r[|t|..]
  {
  }

  /** A string that trims to nothing is all white space. */
  lemma BlankAfterTrimming(s: string)
    ensures TrimEnd(TrimStart(s)) == [] ==> AllBlank(s)
  {
    var r := TrimStart(s);
    TrimStartDropsBlank(s);
    assert s[..|s|] == s;
  }

  /** Whenever Number yields a number, the string is blank (and the number 0) or an
      integer numeral and the number is its signed value. */
  lemma ToNumberFindsNumeral(s: string)
    ensures ToNumber(s).Some? ==>
      (AllBlank(s) && ToNumber(s) == Some(0))
      || exists a, b, c :: DecimalNumeral(s, a, b, c) && ToNumber(s).value == Signed(s[a..b] == "-", DigitsValue(s[b..c]))
  {
    var r := TrimStart(s);
    var t := TrimEnd(r);
    var u := SplitSign(t).1;
    if t == [] {
      BlankAfterTrimming(s);
    } else if u != [] && AllDigits(u) {
      TrimStartDropsBlank(s);
      TrimEndDropsBlank(r);
      SplitSignDropsSign(t);
      NumeralPieces(s, r, t, u);
    }
  }

  /** A suffix r of s after white space, a prefix t of r before white space, and a
      suffix u of t after a sign, made of digits: s is an integer numeral whose sign is
      the part of t before u and whose digits are u. */
  lemma NumeralPieces(s: string, r: string, t: string, u: string)
    requires |r| <= |s| && r == s[|s| - |r|..] && AllBlank(s[..|s| - |r|])
    requires |t| <= |r| && t == r[..|t|] && AllBlank(r[|t|..])
    requires |u| <= |t| && u == t[|t| - |u|..]
    requires t[..|t| - |u|] == "" || t[..|t| - |u|] == "+" || t[..|t| - |u|] == "-"
    requires u != [] && AllDigits(u)
    ensures exists a, b, c ::
      (DecimalNumeral(s, a, b, c)
       && Signed(s[a..b] == "-", DigitsValue(s[b..c])) == Signed(t[..|t| - |u|] == "-", DigitsValue(u)))
  {
    var a := |s| - |r|;
    var c := a + |t|;
    var b := c - |u|;
    assert s[a..b] == t[..|t| - |u|] && s[b..c] == u && AllBlank(s[c..]) by {
      PiecesOfSuffix(s, r, t, u);
    }
    NumeralWitness(s, a, b, c, t[..|t| - |u|], u);
  }

  lemma NumeralWitness(s: string, a: int, b: int, c: int, sign: string, digits: string)
    requires 0 <= a <= b < c <= |s| && AllBlank(s[..a]) && AllBlank(s[c..])
    requires s[a..b] == sign && s[b..c] == digits
    requires (sign == "" || sign == "+" || sign == "-") && AllDigits(digits)
    ensures exists a, b, c ::
      (DecimalNumeral(s, a, b, c)
       && Signed(s[a..b] == "-", DigitsValue(s[b..c])) == Signed(sign == "-", DigitsValue(digits)))
  {
    assert DecimalNumeral(s, a, b, c);
  }

  lemma {:induction false} TrimEndSkipsBlank(t: string, ws: string)
    requires AllBlank(ws)
    requires t == [] || !IsWhiteSpace(t[|t| - 1])
    ensures TrimEnd(t + ws) == t
  {
    if ws != [] {
      assert (t + ws)[..|t + ws| - 1] == t + ws[..|ws| - 1];
      TrimEndSkipsBlank(t, ws[..|ws| - 1]);
    } else {
      assert t + ws == t;
    }
  }

  /** Number reads back the decimal spelling of every natural number. */
  lemma ToNumberReadsDecimal(n: nat)
    ensures ToNumber(DecimalString(n)) == Some(n)
  {
    var d := DecimalString(n);
    assert "" + "" + d + "" == d;
    ToNumberOfParts("", "", d, "");
  }

  /** The characters a string Number accepts can hold besides white space: digits and
      signs, the decimal point and exponent, the 0x, 0o and 0b prefixes with their hex
      digits, and the letters of "Infinity". */
  predicate IsNumericLiteralChar(c: char) {
    || IsDigit(c) || c == '+' || c == '-' || c == '.'
    || ('a' <= c <= 'f') || ('A' <= c <= 'F')
    || c == 'x' || c == 'X' || c == 'o' || c == 'O'
    || c == 'I' || c == 'n' || c == 'i' || c == 't' || c == 'y'
  }

  /** Number gives NaN as soon as the string holds a character that is neither white
      space nor one that can occur in a numeric literal ("hello", "1x?"). */
  lemma ToNumberRejectsForeignCharacter(s: string, i: int)
    requires 0 <= i < |s|
    requires !IsWhiteSpace(s[i]) && !IsNumericLiteralChar(s[i])
    ensures ToNumber(s) == None
  {
    assert !IsDigit(s[i]) && s[i] != '+' && s[i] != '-';
    NonDigitRejected(s, i);
  }

  /** A character that is neither white space, a digit nor a sign lands in the part
      of the trimmed string that must be all digits. */
  lemma NonDigitRejected(s: string, i: int)
    requires 0 <= i < |s|
    requires !IsWhiteSpace(s[i]) && !IsDigit(s[i]) && s[i] != '+' && s[i] != '-'
    ensures ToNumber(s) == None
  {
    var a := TrimStart(s);
    var t := TrimEnd(a);
    var k := |s| - |a|;
    assert k <= i;
    assert a[i - k] == s[i];
    assert i - k < |t|;
    assert t[i - k] == s[i];
    var u := SplitSign(t).1;
    var j := i - k - (|t| - |u|);
    assert u[j] == s[i];
  }
}
