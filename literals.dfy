/**
 * The literal conversion of the compiler's main pass: the token text is trimmed
 * of '$', '#' and '%', and read with `Convert.ToInt32(text, radix)` in base 16
 * after '$', base 2 after '%' and base 10 otherwise.
 */
module Literals {
  import opened Wrappers
  import opened Bits
  import opened Tokens
  import opened Records

  /** The value of c as a digit of the radix (letters in either case), or -1. */
  function DigitOf(c: char, radix: int): (d: int)
    ensures -1 <= d < 36
    ensures d >= 0 ==> d < radix
  {
    var v := if '0' <= c <= '9' then c as int - '0' as int
             else if 'A' <= c <= 'Z' then c as int - 'A' as int + 10
             else if 'a' <= c <= 'z' then c as int - 'a' as int + 10
             else -1;
    if v < radix then v else -1
  }

  /** A digit of a radix up to 16 is no sign, no 'x' and no trimmed character. */
  lemma DigitChar(c: char, radix: int)
    requires radix <= 16 && DigitOf(c, radix) >= 0
    ensures c != '-' && c != '+' && c != 'x' && c != 'X' && c != '$' && c != '#' && c != '%'
  {
  }

  predicate AllDigitsOf(s: string, radix: int) {
    forall i :: 0 <= i < |s| ==> DigitOf(s[i], radix) >= 0
  }

  /** The value of a digit string, most significant digit first (a non-digit counts as 0). */
  function Magnitude(s: string, radix: nat): nat
    decreases |s|
  {
    if s == [] then 0
    else
      var d := DigitOf(s[|s| - 1], radix);
      radix * Magnitude(s[..|s| - 1], radix) + (if d < 0 then 0 else d)
  }


  /** Where the digits start: after an optional sign and, in base 16, an optional "0x". */
  function DigitsStart(s: string, radix: int): (j: nat)
    ensures j <= |s|
  {
    var i := if |s| > 0 && (s[0] == '-' || s[0] == '+') then 1 else 0;
    if radix == 16 && i + 1 < |s| && s[i] == '0' && (s[i + 1] == 'x' || s[i + 1] == 'X') then i + 2 else i
  }

  /** How many digits of the radix the text starts with. */
  function LeadingDigits(s: string, radix: int): (k: nat)
    ensures k <= |s| && AllDigitsOf(s[..k], radix)
    ensures k < |s| ==> DigitOf(s[k], radix) < 0
    decreases |s|
  {
    if s == [] || DigitOf(s[0], radix) < 0 then 0
    else
      var k := 1 + LeadingDigits(s[1..], radix);
      assert s[..k] == [s[0]] + s[1..][..k - 1];
      k
  }

  /**
   * The digit part. The digits are read while they last, and their value is range
   * checked as they are read: more than 2^31 in base 10, more than 32 bits in bases
   * 2 and 16. Only then is the rest of the text tested for junk, and only after that
   * is 2^31 rejected for a positive base-10 value.
   */
  function ConvertDigits(ds: string, radix: nat, negative: bool): (r: Result<int>)
    ensures r.Ok? ==> IsInt32(r.value) && AllDigitsOf(ds, radix) && ds != []
    ensures r.Ok? ==> r == InRange(Magnitude(ds, radix), radix, negative)
  {
    var k := LeadingDigits(ds, radix);
    var m := Magnitude(ds[..k], radix);
    if k == 0 then Err(NoDigits)
    else if radix == 10 && m > Two31 then Err(Int32Overflow)
    else if radix != 10 && m >= Two32 then Err(UInt32Overflow)
    else if k < |ds| then Err(TrailingJunk)
    else
      assert ds[..k] == ds;
      InRange(m, radix, negative)
  }

  /** The overflow checks on the magnitude m of the digits. */
  function InRange(m: nat, radix: nat, negative: bool): (r: Result<int>)
    ensures r.Ok? ==> IsInt32(r.value)
    ensures radix == 10 && r.Ok? ==> r.value == (if negative then -(m as int) else m)
    ensures radix != 10 && r.Ok? ==> U32(r.value) == m
    ensures r.Err? <==> (if radix == 10 then m > Two31 || (m == Two31 && !negative) else m >= Two32)
  {
    var minus := -(m as int);
    if radix == 10 then
      if negative then (if m > Two31 then Err(Int32Overflow) else Ok(minus))
      else if m >= Two31 then Err(Int32Overflow) else Ok(m)
    else if m >= Two32 then Err(UInt32Overflow) else (UnsignedWrap(m); Ok(Wrap32(m)))
  }

  /**
   * `Convert.ToInt32(s, radix)` for radix 2, 10 or 16: an optional sign (a minus
   * only in base 10), an optional "0x" in base 16, then nothing but digits.
   */
  function ConvertToInt32(s: string, radix: nat): (r: Result<int>)
    requires radix == 2 || radix == 10 || radix == 16
    ensures r.Ok? ==> IsInt32(r.value)
    ensures r == Err(ArgumentOutOfRange) <==> s == []
    ensures |s| > 0 && s[0] == '-' && radix != 10 ==> r == Err(MinusNotDecimal)
    ensures r.Ok? ==> r == InRange(Magnitude(s[DigitsStart(s, radix)..], radix), radix, s[0] == '-')
  {
    if s == [] then Err(ArgumentOutOfRange)
    else if s[0] == '-' && radix != 10 then Err(MinusNotDecimal)
    else ConvertDigits(s[DigitsStart(s, radix)..], radix, s[0] == '-')
  }

  predicate IsTrimmed(c: char) {
    c == '$' || c == '#' || c == '%'
  }

  function TrimStart(s: string): (r: string)
    ensures |r| <= |s|
    decreases |s|
  {
    if s != [] && IsTrimmed(s[0]) then TrimStart(s[1..]) else s
  }

  function TrimEnd(s: string): (r: string)
    ensures |r| <= |s|
    decreases |s|
  {
    if s != [] && IsTrimmed(s[|s| - 1]) then TrimEnd(s[..|s| - 1]) else s
  }

  /** `text.Trim('$', '#', '%')`. */
  function Trim(s: string): string {
    TrimEnd(TrimStart(s))
  }

  function Radix(text: string): (r: nat)
    ensures r == 2 || r == 10 || r == 16
  {
    if |text| > 0 && text[0] == '$' then 16
    else if |text| > 0 && text[0] == '%' then 2
    else 10
  }

  /** The value a literal token compiles to. */
  function LiteralValue(text: string): (r: Result<int>)
    ensures r.Ok? ==> IsInt32(r.value)
    ensures text == "" ==> r == Err(ArgumentOutOfRange)
  {
    ConvertToInt32(Trim(text), Radix(text))
  }

  /** The digits of n in the radix, upper-case, most significant first, at least one. */
  function Render(n: nat, radix: nat): (r: string)
    requires 2 <= radix <= 16
    ensures |r| > 0
    decreases n
  {
    if n < radix then [HexDigit(n)]
    else
      DivShrinks(n, radix);
      Render(n / radix, radix) + [HexDigit(n % radix)]
  }

  lemma DigitOfRendered(d: nat, radix: nat)
    requires d < radix <= 16
    ensures DigitOf(HexDigit(d), radix) == d
  {
  }

  lemma {:induction false} RenderDigits(n: nat, radix: nat)
    requires 2 <= radix <= 16
    ensures AllDigitsOf(Render(n, radix), radix)
    decreases n
  {
    var s := Render(n, radix);
    var front := if n < radix then "" else Render(n / radix, radix);
    assert s == front + [HexDigit(n % radix)];
    DigitOfRendered(n % radix, radix);
    if n >= radix {
      DivShrinks(n, radix);
      RenderDigits(n / radix, radix);
    }
    forall i | 0 <= i < |s|
      ensures DigitOf(s[i], radix) >= 0
    {
      if i < |front| {
        assert s[i] == front[i];
      }
    }
  }

  /** Appending a digit multiplies by the radix and adds the digit. */
  lemma MagnitudeSnoc(front: string, c: char, radix: nat)
    requires DigitOf(c, radix) >= 0
    ensures Magnitude(front + [c], radix) == radix * Magnitude(front, radix) + DigitOf(c, radix)
  {
    var s := front + [c];
    assert s[..|s| - 1] == front && s[|s| - 1] == c;
  }

  /** Dropping the last digit of a number with two or more digits leaves a smaller one. */
  lemma DivShrinks(n: nat, radix: nat)
    requires 2 <= radix <= n
    ensures 0 < n / radix < n
  {
  }

  /** Reading back rendered digits gives the number. */
  lemma {:induction false} RenderMagnitude(n: nat, radix: nat)
    requires 2 <= radix <= 16
    ensures Magnitude(Render(n, radix), radix) == n
    decreases n
  {
    var q, d := n / radix, n % radix;
    DivMod(n, radix);
    var front := if n < radix then "" else Render(q, radix);
    assert Render(n, radix) == front + [HexDigit(d)];
    DigitOfRendered(d, radix);
    MagnitudeSnoc(front, HexDigit(d), radix);
    if n >= radix {
      DivShrinks(n, radix);
      RenderMagnitude(q, radix);
    }
    assert Magnitude(front, radix) == q;
  }

  /** A non-empty run of digits converts to its magnitude, checked for range. */
  lemma ConvertAllDigits(ds: string, radix: nat, negative: bool)
    requires |ds| > 0 && AllDigitsOf(ds, radix)
    ensures ConvertDigits(ds, radix, negative) == InRange(Magnitude(ds, radix), radix, negative)
  {
    var k := LeadingDigits(ds, radix);
    if k < |ds| {
      assert false;
    }
    assert ds[..k] == ds;
  }

  /** The hex format of the tokens' labels is the base-16 rendering. */
  lemma {:induction false} HexIsRender(n: nat)
    ensures Hex(n) == Render(n, 16)
    decreases n
  {
    if n >= 16 {
      HexIsRender(n / 16);
    }
  }

  /** `v.ToString()` for an int. */
  function DecimalText(v: int): string {
    Sign(v < 0) + Render(if v < 0 then -v else v, 10)
  }

  lemma PrefixTail(c: char, ds: string)
    ensures ([c] + ds)[0] == c && ([c] + ds)[1..] == ds && |[c] + ds| == |ds| + 1
    ensures |ds| > 0 ==> ([c] + ds)[|ds|] == ds[|ds| - 1]
  {
  }

  /** Digits from the first character on: no sign and no "0x" to skip. */
  lemma StartsWithDigit(s: string, radix: int)
    requires 2 <= radix <= 16 && |s| > 0 && DigitOf(s[0], radix) >= 0
    requires radix == 16 && |s| > 1 ==> DigitOf(s[1], radix) >= 0
    ensures DigitsStart(s, radix) == 0
  {
    DigitChar(s[0], radix);
    if radix == 16 && |s| > 1 {
      DigitChar(s[1], radix);
    }
  }

  /** Plain digits convert to their magnitude, range checked. */
  lemma ConvertDigitsOnly(ds: string, radix: nat)
    requires radix == 2 || radix == 10 || radix == 16
    requires |ds| > 0 && AllDigitsOf(ds, radix)
    requires radix == 16 && |ds| > 1 ==> DigitOf(ds[1], radix) >= 0
    ensures ConvertToInt32(ds, radix) == InRange(Magnitude(ds, radix), radix, false)
  {
    DigitChar(ds[0], radix);
    StartsWithDigit(ds, radix);
    assert ds[0..] == ds;
    ConvertAllDigits(ds, radix, false);
  }

  /** A minus and decimal digits convert to the negated magnitude, range checked. */
  lemma ConvertNegative(ds: string)
    requires |ds| > 0 && AllDigitsOf(ds, 10)
    ensures ConvertToInt32(Sign(true) + ds, 10) == InRange(Magnitude(ds, 10), 10, true)
  {
    var s := Sign(true) + ds;
    PrefixTail('-', ds);
    assert DigitsStart(s, 10) == 1;
    ConvertAllDigits(ds, 10, true);
  }

  lemma NoSign(ds: string)
    ensures Sign(false) + ds == ds
  {
  }

  /** Decimal digits alone convert to the magnitude, range checked. */
  lemma ConvertNonNegative(ds: string)
    requires |ds| > 0 && AllDigitsOf(ds, 10)
    ensures ConvertToInt32(Sign(false) + ds, 10) == InRange(Magnitude(ds, 10), 10, false)
  {
    NoSign(ds);
    ConvertDigitsOnly(ds, 10);
  }

  /** A sign and a run of decimal digits convert to the signed magnitude, range checked. */
  lemma ConvertSigned(negative: bool, ds: string)
    requires |ds| > 0 && AllDigitsOf(ds, 10)
    ensures ConvertToInt32(Sign(negative) + ds, 10) == InRange(Magnitude(ds, 10), 10, negative)
  {
    if negative {
      ConvertNegative(ds);
    } else {
      ConvertNonNegative(ds);
    }
  }

  /** Every int's decimal text converts back to the int. */
  lemma DecimalRoundTrip(v: int)
    requires IsInt32(v)
    ensures ConvertToInt32(DecimalText(v), 10) == Ok(v)
  {
    var n := if v < 0 then -v else v;
    RenderDigits(n, 10);
    RenderMagnitude(n, 10);
    ConvertSigned(v < 0, Render(n, 10));
  }

  lemma TrimLeavesDigits(s: string)
    requires |s| > 0 && !IsTrimmed(s[0]) && !IsTrimmed(s[|s| - 1])
    ensures Trim(s) == s
  {
  }

  lemma TrimDollar(ds: string)
    requires |ds| > 0 && AllDigitsOf(ds, 16)
    ensures Trim("$" + ds) == ds
  {
    var t := "$" + ds;
    PrefixTail('$', ds);
    DigitChar(ds[0], 16);
    DigitChar(ds[|ds| - 1], 16);
    assert TrimStart(t) == TrimStart(ds) == ds;
  }

  /** A '$' literal written with the 32-bit hex of any int reads back as that int. */
  lemma HexLiteralRoundTrip(v: int)
    requires IsInt32(v)
    ensures LiteralValue("$" + Hex(U32(v))) == Ok(v)
  {
    var ds := Hex(U32(v));
    HexIsRender(U32(v));
    RenderDigits(U32(v), 16);
    RenderMagnitude(U32(v), 16);
    TrimDollar(ds);
    assert Radix("$" + ds) == 16;
    ConvertDigitsOnly(ds, 16);
    WrapUnsigned(v);
  }

  lemma SignedEnds(negative: bool, ds: string)
    requires |ds| > 0
    ensures var t := Sign(negative) + ds;
      |t| > 0 && (t[0] == '-' || t[0] == ds[0]) && t[|t| - 1] == ds[|ds| - 1]
  {
  }

  /**
   * Decimal digits with an optional minus, as the constructor classifies them, compile
   * in base 10 to their signed value, or fail when that is not an int.
   */
  lemma DecimalTokenValue(negative: bool, ds: string)
    requires |ds| > 0 && AllDigitsOf(ds, 10)
    ensures var m: int := Magnitude(ds, 10);
      var v := if negative then -m else m;
      LiteralValue(Sign(negative) + ds) == (if IsInt32(v) then Ok(v) else Err(Int32Overflow))
  {
    var t := Sign(negative) + ds;
    DigitChar(ds[0], 10);
    DigitChar(ds[|ds| - 1], 10);
    SignedEnds(negative, ds);
    TrimLeavesDigits(t);
    assert Radix(t) == 10;
    ConvertSigned(negative, ds);
  }

  /** A character `\d` matches is no sign and no trimmed character. */
  lemma NdNotSpecial(c: char)
    requires IsDigit(c)
    ensures c != '-' && c != '+' && c != '\n' && !IsTrimmed(c)
  {
  }

  /** A literal token text is a sign and a digit text that neither starts nor ends with a character trimmed. */
  lemma LiteralTokenText(t: string)
    requires Classify(t) == Some(Literal)
    ensures var neg := t[0] == '-';
      var ds := DigitRun(t, if neg then 1 else 0);
      var w := ds + FinalNewline(t[|t| - 1] == '\n');
      && t == Sign(neg) + w && |w| > 0
      && !IsTrimmed(t[0]) && !IsTrimmed(t[|t| - 1]) && t[0] != '$' && t[0] != '%'
      && (neg || t[0] != '+')
  {
    var neg := t[0] == '-';
    var ds := DigitRun(t, if neg then 1 else 0);
    var nl := t[|t| - 1] == '\n';
    LiteralTextShape(t);
    NdNotSpecial(ds[0]);
    NdNotSpecial(ds[|ds| - 1]);
    assert t[0] == '-' || t[0] == ds[0];
    assert t[|t| - 1] == '\n' || t[|t| - 1] == ds[|ds| - 1];
  }

  /** A literal token text reaches the base-10 digit scan whole, after an optional minus. */
  lemma LiteralTokenConverts(t: string)
    requires Classify(t) == Some(Literal)
    ensures var neg := t[0] == '-';
      var ds := DigitRun(t, if neg then 1 else 0);
      LiteralValue(t) == ConvertDigits(ds + FinalNewline(t[|t| - 1] == '\n'), 10, neg)
  {
    var neg := t[0] == '-';
    var i := if neg then 1 else 0;
    var ds := DigitRun(t, i);
    var w := ds + FinalNewline(t[|t| - 1] == '\n');
    LiteralTokenText(t);
    TrimLeavesDigits(t);
    assert Radix(t) == 10;
    assert DigitsStart(t, 10) == i;
    assert t[i..] == w;
    assert LiteralValue(t) == ConvertToInt32(t, 10);
  }

  /** A text that is not all digits fails the scan: no digits, an overflow in front, or junk. */
  lemma NotAllDigitsThrows(w: string, radix: nat, negative: bool)
    requires !AllDigitsOf(w, radix)
    ensures ConvertDigits(w, radix, negative).Err?
    ensures ConvertDigits(w, radix, negative).error
      in (if radix == 10 then {NoDigits, TrailingJunk, Int32Overflow} else {NoDigits, TrailingJunk, UInt32Overflow})
  {
    var k := LeadingDigits(w, radix);
    if k == |w| {
      assert false;
    }
  }

  /** The final newline is no digit. */
  lemma NewlineNoDigit(ds: string)
    ensures !AllDigitsOf(ds + FinalNewline(true), 10)
  {
    var w := ds + FinalNewline(true);
    assert w[|w| - 1] == '\n';
  }

  /**
   * Every token the constructor classifies as a literal (an optional minus, a run of
   * `\d` digits and an optional final newline) is converted in base 10 with nothing
   * trimmed and nothing skipped. Made of ASCII digits alone it compiles to its signed
   * value, or overflows when that is not an int; any other digit, or the final
   * newline, makes the conversion throw: no digits, trailing junk, or an overflow
   * found among the ASCII digits in front.
   */
  lemma LiteralTokenValue(t: string)
    requires Classify(t) == Some(Literal)
    ensures var neg := t[0] == '-';
      var ds := DigitRun(t, if neg then 1 else 0);
      var nl := t[|t| - 1] == '\n';
      var m: int := Magnitude(ds, 10);
      var v := if neg then -m else m;
      && LiteralValue(t) == ConvertDigits(ds + FinalNewline(nl), 10, neg)
      && (AllDigitsOf(ds, 10) && !nl ==> LiteralValue(t) == (if IsInt32(v) then Ok(v) else Err(Int32Overflow)))
      && (!(AllDigitsOf(ds, 10) && !nl) ==>
            LiteralValue(t).Err? && LiteralValue(t).error in {NoDigits, TrailingJunk, Int32Overflow})
  {
    var neg := t[0] == '-';
    var ds := DigitRun(t, if neg then 1 else 0);
    var nl := t[|t| - 1] == '\n';
    LiteralTokenConverts(t);
    if AllDigitsOf(ds, 10) && !nl {
      DecimalDigitsValue(ds, neg);
    } else {
      OtherDigitsThrow(ds, nl, neg);
    }
  }

  /** ASCII decimal digits convert to the signed value, or overflow. */
  lemma DecimalDigitsValue(ds: string, negative: bool)
    requires |ds| > 0 && AllDigitsOf(ds, 10)
    ensures var m: int := Magnitude(ds, 10);
      var v := if negative then -m else m;
      ConvertDigits(ds + FinalNewline(false), 10, negative) == (if IsInt32(v) then Ok(v) else Err(Int32Overflow))
  {
    assert ds + FinalNewline(false) == ds;
    ConvertAllDigits(ds, 10, negative);
  }

  /** A digit run that is not all ASCII, or a final newline, makes the base-10 scan throw. */
  lemma OtherDigitsThrow(ds: string, nl: bool, negative: bool)
    requires !(AllDigitsOf(ds, 10) && !nl)
    ensures var r := ConvertDigits(ds + FinalNewline(nl), 10, negative);
      r.Err? && r.error in {NoDigits, TrailingJunk, Int32Overflow}
  {
    var w := ds + FinalNewline(nl);
    assert !AllDigitsOf(w, 10) by {
      if nl {
        NewlineNoDigit(ds);
      } else {
        assert w == ds;
      }
    }
    NotAllDigitsThrows(w, 10, negative);
  }

  /** A radix prefix and a run of digits of that radix: the prefix is trimmed and the digits read. */
  lemma PrefixedLiteral(p: char, ds: string)
    requires IsTrimmed(p) && |ds| > 0
    requires AllDigitsOf(ds, Radix([p] + ds))
    requires Radix([p] + ds) == 16 && |ds| > 1 ==> DigitOf(ds[1], 16) >= 0
    ensures LiteralValue([p] + ds) == InRange(Magnitude(ds, Radix([p] + ds)), Radix([p] + ds), false)
  {
    var radix := Radix([p] + ds);
    PrefixTail(p, ds);
    DigitChar(ds[0], radix);
    DigitChar(ds[|ds| - 1], radix);
    assert TrimStart([p] + ds) == TrimStart(ds) == ds;
    assert Trim([p] + ds) == ds;
    ConvertDigitsOnly(ds, radix);
  }

  /** '$' selects base 16, whose digits may be lower case. */
  lemma LowerHexExample()
    ensures LiteralValue("$b") == Ok(11)
  {
    var ds := "b";
    assert "$b" == ['$'] + ds;
    assert Radix(['$'] + ds) == 16;
    assert DigitOf(ds[0], 16) == 11;
    assert Magnitude(ds, 16) == 11 by { assert ds[..0] == []; }
    PrefixedLiteral('$', ds);
  }

  /** All 32 bits set read back as -1. */
  lemma AllOnesExample()
    ensures LiteralValue("$FFFFFFFF") == Ok(-1)
  {
    var h := [HexDigit(15)];
    assert Hex(15) == h && Hex(255) == h + h && Hex(4095) == h + h + h;
    assert Hex(65535) == h + h + h + h && Hex(1048575) == h + h + h + h + h;
    assert Hex(16777215) == h + h + h + h + h + h && Hex(268435455) == h + h + h + h + h + h + h;
    assert Hex(U32(-1)) == "FFFFFFFF";
    HexLiteralRoundTrip(-1);
  }

  /** In base 16 a "0x" after the prefix is skipped. */
  lemma ZeroXExample()
    ensures LiteralValue("$0x1F") == Ok(31)
  {
    var s := "$0x1F";
    assert Trim(s) == "0x1F" by { assert TrimStart(s) == TrimStart("0x1F"); }
    assert Radix(s) == 16;
    assert DigitsStart("0x1F", 16) == 2;
    assert "0x1F"[2..] == "1F";
    ConvertAllDigits("1F", 16, false);
    assert Magnitude("1F", 16) == 31 by { assert "1F"[..1] == "1"; }
  }

  /** '%' selects base 2. */
  lemma BinaryExample()
    ensures LiteralValue("%101") == Ok(5)
  {
    assert "%101" == ['%'] + "101" && Radix("%101") == 2;
    FiveInBinary();
    PrefixedLiteral('%', "101");
  }

  lemma FiveInBinary()
    ensures AllDigitsOf("101", 2) && Magnitude("101", 2) == 5
  {
    assert "101"[..2] == "10" && "10"[..1] == "1";
  }

  /** '#' is trimmed and leaves base 10. */
  lemma HashExample()
    ensures LiteralValue("#6") == Ok(6)
  {
    assert "#6" == ['#'] + "6";
    PrefixedLiteral('#', "6");
  }

  /** Appending one decimal digit: ten times the value plus the digit. */
  lemma DecimalPrefix(s: string, c: char)
    requires '0' <= c <= '9'
    ensures Magnitude(s + [c], 10) == 10 * Magnitude(s, 10) + (c as int - '0' as int)
    ensures AllDigitsOf(s, 10) ==> AllDigitsOf(s + [c], 10)
  {
    MagnitudeSnoc(s, c, 10);
    assert (s + [c])[..|s|] == s;
  }

  lemma MinInt32Magnitude()
    ensures AllDigitsOf("2147483648", 10) && Magnitude("2147483648", 10) == Two31
  {
    var ds: string := [];
    assert AllDigitsOf(ds, 10);
    DecimalPrefix(ds, '2');
    ds := ds + ['2'];
    DecimalPrefix(ds, '1');
    ds := ds + ['1'];
    DecimalPrefix(ds, '4');
    ds := ds + ['4'];
    DecimalPrefix(ds, '7');
    ds := ds + ['7'];
    DecimalPrefix(ds, '4');
    ds := ds + ['4'];
    DecimalPrefix(ds, '8');
    ds := ds + ['8'];
    DecimalPrefix(ds, '3');
    ds := ds + ['3'];
    DecimalPrefix(ds, '6');
    ds := ds + ['6'];
    DecimalPrefix(ds, '4');
    ds := ds + ['4'];
    DecimalPrefix(ds, '8');
    ds := ds + ['8'];
    assert ds == "2147483648";
  }

  /** Base 10 reaches down to -2^31. */
  lemma MinInt32Example()
    ensures LiteralValue("-2147483648") == Ok(-Two31)
  {
    MinInt32Magnitude();
    DecimalTokenValue(true, "2147483648");
    MinInt32Text();
  }

  lemma MinInt32Text()
    ensures Sign(true) + "2147483648" == "-2147483648"
  {
  }

  /** Base 10 stops short of 2^31. */
  lemma OverflowExample()
    ensures LiteralValue("2147483648") == Err(Int32Overflow)
  {
    MinInt32Magnitude();
    DecimalTokenValue(false, "2147483648");
    NoSign("2147483648");
  }

  /** A minus outside base 10 throws. */
  lemma MinusExample()
    ensures LiteralValue("$-1") == Err(MinusNotDecimal)
  {
    assert Trim("$-1") == "-1" by { assert TrimStart("$-1") == TrimStart("-1"); }
  }

  /** Junk after the digits throws. */
  lemma JunkExample()
    ensures LiteralValue("12x") == Err(TrailingJunk)
  {
    var s := "12x";
    assert Trim(s) == s && Radix(s) == 10 && s[0..] == s;
    assert LeadingDigits(s[2..], 10) == 0;
    assert LeadingDigits(s, 10) == 2;
    assert s[..2] == "12" && "12"[..1] == "1";
    assert Magnitude(s[..2], 10) == 12;
  }

  /** The scan stops at the first character after a run of digits. */
  lemma {:induction false} LeadingDigitsAppend(ds: string, rest: string, radix: int)
    requires AllDigitsOf(ds, radix)
    requires rest == [] || DigitOf(rest[0], radix) < 0
    ensures LeadingDigits(ds + rest, radix) == |ds|
    decreases |ds|
  {
    if ds != [] {
      assert (ds + rest)[0] == ds[0];
      assert (ds + rest)[1..] == ds[1..] + rest;
      LeadingDigitsAppend(ds[1..], rest, radix);
    }
  }

  lemma TenNinesMagnitude()
    ensures AllDigitsOf("9999999999", 10) && Magnitude("9999999999", 10) == 9999999999
  {
    var ds: string := [];
    assert AllDigitsOf(ds, 10);
    DecimalPrefix(ds, '9');
    ds := ds + ['9'];
    DecimalPrefix(ds, '9');
    ds := ds + ['9'];
    DecimalPrefix(ds, '9');
    ds := ds + ['9'];
    DecimalPrefix(ds, '9');
    ds := ds + ['9'];
    DecimalPrefix(ds, '9');
    ds := ds + ['9'];
    DecimalPrefix(ds, '9');
    ds := ds + ['9'];
    DecimalPrefix(ds, '9');
    ds := ds + ['9'];
    DecimalPrefix(ds, '9');
    ds := ds + ['9'];
    DecimalPrefix(ds, '9');
    ds := ds + ['9'];
    DecimalPrefix(ds, '9');
    ds := ds + ['9'];
    assert ds == "9999999999";
  }

  /** Digits worth more than 2^31 overflow while they are read, before what follows them is looked at. */
  lemma ScanOverflows(ds: string, rest: string)
    requires |ds| > 0 && AllDigitsOf(ds, 10) && Magnitude(ds, 10) > Two31
    requires |rest| > 0 && DigitOf(rest[0], 10) < 0 && rest[0] != '-' && rest[0] != '+'
    requires !IsTrimmed(ds[0]) && !IsTrimmed(rest[|rest| - 1])
    ensures LiteralValue(ds + rest) == Err(Int32Overflow)
  {
    var s := ds + rest;
    LeadingDigitsAppend(ds, rest, 10);
    assert s[..|ds|] == ds;
    assert s[0] == ds[0] && s[|s| - 1] == rest[|rest| - 1];
    TrimLeavesDigits(s);
    DigitChar(ds[0], 10);
    assert Radix(s) == 10 && DigitsStart(s, 10) == 0 && s[0..] == s;
  }

  /** Too many digits overflow while they are read, before the junk or newline after them is seen. */
  lemma OverflowBeforeJunkExample()
    ensures LiteralValue("9999999999x") == Err(Int32Overflow)
    ensures LiteralValue("9999999999\n") == Err(Int32Overflow)
  {
    TenNinesMagnitude();
    var ds := "9999999999";
    ScanOverflows(ds, "x");
    ScanOverflows(ds, "\n");
    assert ds + "x" == "9999999999x" && ds + "\n" == "9999999999\n";
  }

  /** 2^31 itself passes the scan, so junk after it is reported before the overflow. */
  lemma JunkBeforeOverflowExample()
    ensures LiteralValue("2147483648x") == Err(TrailingJunk)
  {
    MinInt32Magnitude();
    var ds := "2147483648";
    LeadingDigitsAppend(ds, "x", 10);
    assert ds + "x" == "2147483648x";
    assert ("2147483648x")[..10] == ds;
    assert Trim("2147483648x") == "2147483648x";
    assert "2147483648x"[0..] == "2147483648x";
  }

  /** A literal token of non-ASCII digits has no digit the conversion recognises. */
  lemma NonAsciiDigitExample()
    ensures Classify("\U{0663}") == Some(Literal)
    ensures LiteralValue("\U{0663}") == Err(NoDigits)
  {
    ClassifyExamples();
    var s := "\U{0663}";
    assert Trim(s) == s && Radix(s) == 10 && s[0..] == s;
    assert DigitOf(s[0], 10) < 0;
  }

  /** A bare prefix leaves an empty text, whose first character does not exist. */
  lemma EmptyExample()
    ensures LiteralValue("$") == Err(ArgumentOutOfRange)
  {
    assert Trim("$") == "" by { assert TrimStart("$") == TrimStart(""); }
  }
}
