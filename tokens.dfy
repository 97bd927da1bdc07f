/**
 * Token.cs: one lexical token of the Forth source. The constructor fixes a
 * classification from the text (whitespace, integer literal, or none); the
 * compiler later attaches a dictionary entry, a code slot and a code count.
 */
module Tokens {
  import opened Wrappers
  import opened Bits
  import opened Records

  /** The characters .NET's `\s` matches: the ASCII controls \t..\r, U+0085 and the Unicode separators. */
  predicate IsSpace(c: char) {
    var n := c as int;
    n == 0x20 || 0x09 <= n <= 0x0D || n == 0x85 || n == 0xA0 || n == 0x1680
    || 0x2000 <= n <= 0x200A || n == 0x2028 || n == 0x2029 || n == 0x202F
    || n == 0x205F || n == 0x3000
  }

  /** n is one of the ten code points from zero on. */
  predicate Ten(n: int, zero: int) {
    zero <= n < zero + 10
  }

  /**
   * .NET's `\d` without RegexOptions.ECMAScript: a character of Unicode category Nd.
   * Every such character of the Basic Multilingual Plane lies in a run of ten digits,
   * one per script, listed here by the run's zero. .NET strings are UTF-16, and a
   * digit outside that plane is a surrogate pair, which `\d` does not match.
   */
  predicate IsDigit(c: char) {
    var n := c as int;
    Ten(n, 0x0030) || Ten(n, 0x0660) || Ten(n, 0x06F0) || Ten(n, 0x07C0) || Ten(n, 0x0966)
    || Ten(n, 0x09E6) || Ten(n, 0x0A66) || Ten(n, 0x0AE6) || Ten(n, 0x0B66) || Ten(n, 0x0BE6)
    || Ten(n, 0x0C66) || Ten(n, 0x0CE6) || Ten(n, 0x0D66) || Ten(n, 0x0DE6) || Ten(n, 0x0E50)
    || Ten(n, 0x0ED0) || Ten(n, 0x0F20) || Ten(n, 0x1040) || Ten(n, 0x1090) || Ten(n, 0x17E0)
    || Ten(n, 0x1810) || Ten(n, 0x1946) || Ten(n, 0x19D0) || Ten(n, 0x1A80) || Ten(n, 0x1A90)
    || Ten(n, 0x1B50) || Ten(n, 0x1BB0) || Ten(n, 0x1C40) || Ten(n, 0x1C50) || Ten(n, 0xA620)
    || Ten(n, 0xA8D0) || Ten(n, 0xA900) || Ten(n, 0xA9D0) || Ten(n, 0xA9F0) || Ten(n, 0xAA50)
    || Ten(n, 0xABF0) || Ten(n, 0xFF10)
  }

  predicate AllDigits(s: string) {
    forall i :: 0 <= i < |s| ==> IsDigit(s[i])
  }

  /** Matches `\d+$` from position i: one or more digits, then the end or a final newline. */
  predicate DigitsToEnd(t: string, i: nat)
    decreases |t| - i
  {
    i < |t| && IsDigit(t[i])
    && (i + 1 == |t| || (i + 2 == |t| && t[i + 1] == '\n') || DigitsToEnd(t, i + 1))
  }

  /** `Regex.IsMatch(t, @"^-?\d+$")`: an optional minus, digits, and `$` (end, or before a final newline). */
  predicate IsIntegerText(t: string) {
    if |t| > 0 && t[0] == '-' then DigitsToEnd(t, 1) else DigitsToEnd(t, 0)
  }

  /** The classification the constructor fixes, None when the text gets none. */
  function Classify(t: string): (r: Option<TokenType>)
    ensures r.Some? ==> |t| > 0 && (r.value == Excluded || r.value == Literal)
  {
    if |t| > 0 && IsSpace(t[0]) then Some(Excluded)
    else if IsIntegerText(t) then Some(Literal)
    else None
  }

  /** The sign part of a literal. */
  function Sign(negative: bool): string {
    if negative then "-" else ""
  }

  /** The optional final newline that `$` lets through. */
  function FinalNewline(present: bool): string {
    if present then "\n" else ""
  }

  lemma {:induction false} DigitsToEndOf(p: string, ds: string, nl: bool)
    requires |ds| > 0 && AllDigits(ds)
    ensures DigitsToEnd(p + ds + FinalNewline(nl), |p|)
    decreases |ds|
  {
    var t := p + ds + FinalNewline(nl);
    assert t[|p|] == ds[0];
    if |ds| > 1 {
      assert p + ds + FinalNewline(nl) == (p + [ds[0]]) + ds[1..] + FinalNewline(nl);
      DigitsToEndOf(p + [ds[0]], ds[1..], nl);
    } else if nl {
      assert t[|p| + 1] == '\n';
    }
  }

  /** Every optional minus, non-empty digit run and optional final newline is an integer literal. */
  lemma LiteralTextsClassify(negative: bool, ds: string, nl: bool)
    requires |ds| > 0 && AllDigits(ds)
    ensures Classify(Sign(negative) + ds + FinalNewline(nl)) == Some(Literal)
  {
    var t := Sign(negative) + ds + FinalNewline(nl);
    DigitsToEndOf(Sign(negative), ds, nl);
    assert !IsSpace(t[0]) by {
      if negative {
        assert t[0] == '-';
      } else {
        assert t[0] == ds[0];
      }
    }
    if !negative {
      assert t[0] == ds[0];
    }
  }

  /** The digits a text matched by `\d+$` from i consists of, without the final newline. */
  function DigitRun(t: string, i: nat): (r: string)
    requires DigitsToEnd(t, i)
    ensures |r| > 0 && AllDigits(r)
    ensures t[i..] == r || t[i..] == r + "\n"
    decreases |t| - i
  {
    if i + 1 == |t| then [t[i]]
    else if i + 2 == |t| && t[i + 1] == '\n' then [t[i]]
    else
      var rest := DigitRun(t, i + 1);
      assert t[i..] == [t[i]] + t[i + 1..];
      [t[i]] + rest
  }

  /** A text matched by `\d+$` from i is its prefix, its digit run and an optional final newline. */
  lemma DigitRunShape(t: string, i: nat)
    requires DigitsToEnd(t, i)
    ensures t == t[..i] + DigitRun(t, i) + FinalNewline(t[|t| - 1] == '\n')
  {
    var ds := DigitRun(t, i);
    assert t == t[..i] + t[i..];
    if t[i..] == ds + "\n" {
      assert t[|t| - 1] == '\n';
    } else {
      assert t[i..] == ds;
      assert t[|t| - 1] == ds[|ds| - 1];
      assert t[|t| - 1] != '\n';
    }
  }

  /** Conversely every literal text has that shape: sign, digits, optional newline. */
  lemma LiteralTextShape(t: string)
    requires Classify(t) == Some(Literal)
    ensures var neg := t[0] == '-';
      var ds := DigitRun(t, if neg then 1 else 0);
      t == Sign(neg) + ds + FinalNewline(t[|t| - 1] == '\n')
  {
    assert IsIntegerText(t);
    var neg := t[0] == '-';
    var i := if neg then 1 else 0;
    DigitRunShape(t, i);
    assert t[..i] == Sign(neg);
  }

  /** Upper-case hexadecimal digits of a non-negative number, at least one digit (format `X`). */
  function Hex(n: nat): (r: string)
    ensures |r| > 0
    decreases n
  {
    (if n < 16 then "" else Hex(n / 16)) + [HexDigit(n % 16)]
  }

  /** The upper-case digit character of d (table `0123456789ABCDEF`). */
  function HexDigit(d: nat): (c: char)
    requires d < 16
  {
    if d < 10 then ('0' as int + d) as char else ('A' as int + d - 10) as char
  }

  function HexValue(c: char): (r: int)
  {
    if '0' <= c <= '9' then c as int - '0' as int
    else if 'A' <= c <= 'F' then c as int - 'A' as int + 10
    else -1
  }

  /** Reads back an upper-case hex string. */
  function ParseHex(s: string): int
    decreases |s|
  {
    if s == [] then 0 else 16 * ParseHex(s[..|s| - 1]) + HexValue(s[|s| - 1])
  }

  lemma HexDigitValue(d: nat)
    requires d < 16
    ensures HexValue(HexDigit(d)) == d
  {
  }

  /** Reading back the formatted number gives the number. */
  lemma {:induction false} HexRoundTrip(n: nat)
    ensures ParseHex(Hex(n)) == n
    decreases n
  {
    var s := Hex(n);
    HexDigitValue(n % 16);
    assert s[|s| - 1] == HexDigit(n % 16);
    assert s[..|s| - 1] == (if n < 16 then "" else Hex(n / 16));
    if n >= 16 {
      HexRoundTrip(n / 16);
    }
  }

  /** `{v:X}` for a C# int: negative values print their 32-bit two's complement. */
  function HexInt32(v: int): (r: string)
    ensures ParseHex(r) == U32(v)
  {
    HexRoundTrip(U32(v));
    Hex(U32(v))
  }

  /** The name of the definition-start method, which ToString prints without a code slot. */
  const DefinitionStartName: string := "DefinitionStart"

  class Token {
    var text: string
    const file: string
    const y: int
    const x: int
    var isMacro: bool
    /** The macro nesting depth the compiler and SourceItem.cs read (not declared in Token.cs). */
    var macroLevel: int
    /** `_tokenType`: the classification fixed at construction or by SetError. */
    var fixedType: Option<TokenType>
    var dictEntry: Option<DictEntry>
    var codeSlot: int
    var codeCount: int
    /** The code index SourceItem.cs reads (not declared in Token.cs). */
    var codeIndex: int
    var value: int

    constructor(text: string, file: string, y: int, x: int, isMacro: bool)
      ensures this.text == text && this.file == file && this.y == y && this.x == x
      ensures this.isMacro == isMacro && macroLevel == 0
      ensures fixedType == Classify(text) && dictEntry == None
      ensures codeSlot == -1 && codeCount == 0 && codeIndex == 0 && value == 0
    {
      this.text := text;
      this.file := file;
      this.y := y;
      this.x := x;
      this.isMacro := isMacro;
      macroLevel := 0;
      fixedType := Classify(text);
      dictEntry := None;
      codeSlot := -1;
      codeCount := 0;
      codeIndex := 0;
      value := 0;
    }

    /** The fixed classification, else the entry's type, else Undetermined. */
    function Type(): (r: TokenType)
      reads this`fixedType, this`dictEntry
      ensures fixedType.Some? ==> r == fixedType.value
      ensures fixedType.None? && dictEntry.Some? ==> r == EntryTokenType(dictEntry.value)
      ensures fixedType.None? && dictEntry.None? ==> r == Undetermined
    {
      if fixedType.Some? then fixedType.value
      else if dictEntry.Some? then EntryTokenType(dictEntry.value)
      else Undetermined
    }

    /** `DictEntry.Method.Name`; None where the source dereferences null. */
    function MethodName(): (r: Option<string>)
      reads this`dictEntry
      ensures r.Some? <==> dictEntry.Some? && dictEntry.value.MethodEntry?
    {
      if dictEntry.Some? then Records.MethodName(dictEntry.value) else None
    }

    method SetError()
      modifies this`fixedType
      ensures fixedType == Some(Error) && Type() == Error
    {
      fixedType := Some(Error);
    }

    /** `_Text` for a definition start, `_Text_<code slot in hex>` otherwise; None where MethodName throws. */
    function ToString(): (r: Option<string>)
      reads this`dictEntry, this`text, this`codeSlot
      ensures r.Some? <==> MethodName().Some?
      ensures r.Some? && MethodName() == Some(DefinitionStartName) ==> r.value == "_" + text
      ensures r.Some? && MethodName() != Some(DefinitionStartName) ==>
        |r.value| > |text| + 2 && r.value[..|text| + 2] == "_" + text + "_"
        && ParseHex(r.value[|text| + 2..]) == U32(codeSlot)
    {
      match MethodName()
      case None => None
      case Some(name) =>
        if name == DefinitionStartName then Some("_" + text)
        else
          var s := "_" + text + "_" + HexInt32(codeSlot);
          assert s[..|text| + 2] == "_" + text + "_";
          assert s[|text| + 2..] == HexInt32(codeSlot);
          Some(s)
    }
  }

  /** A text starting with a radix prefix '$' or '%' is never classified Literal. */
  lemma PrefixedNotLiteral(t: string)
    requires |t| > 0 && (t[0] == '$' || t[0] == '%')
    ensures Classify(t) != Some(Literal)
  {
  }

  /** Some examples of the classification. */
  lemma ClassifyExamples()
    ensures Classify("-42") == Some(Literal) && Classify("7\n") == Some(Literal)
    ensures Classify("-") == None && Classify("4a") == None && Classify(" 1") == Some(Excluded)
    ensures Classify("") == None && Classify("12\n\n") == None
    ensures Classify("\U{0663}") == Some(Literal) && Classify("-1\U{FF12}") == Some(Literal)
  {
    LiteralTextsClassify(false, "\U{0663}", false);
    assert "" + "\U{0663}" + "" == "\U{0663}";
    LiteralTextsClassify(true, "1\U{FF12}", false);
    assert "-" + "1\U{FF12}" + "" == "-1\U{FF12}";
    LiteralTextsClassify(true, "42", false);
    assert "-" + "42" + "" == "-42";
    LiteralTextsClassify(false, "7", true);
    assert "" + "7" + "\n" == "7\n";
    assert !DigitsToEnd("-", 1);
    assert !DigitsToEnd("4a", 1);
    assert !DigitsToEnd("12\n\n", 2);
  }
}
