/**
 * ExtensionMethods.cs: splitting a 32-bit value into eight 4-bit codes and
 * summing them back, slot-range membership, the structure-stack pop check, and
 * the dictionary registration overloads.
 */
module Extensions {
  import opened Wrappers
  import opened Bits
  import opened Records
  import opened Tokens

  // ---------------------------------------------------------------------------
  // ToCodes / FromCodes

  /** Bits 4i..4i+3 of the unsigned value u. */
  function Digit(u: nat, i: nat): (d: nat)
    ensures d < 16
  {
    (u / Pow2(4 * i)) % 16
  }

  /** The eight codes of v, least significant nibble first. */
  function CodesOf(v: int): (r: seq<Code>)
    ensures |r| == 8
    ensures forall i :: 0 <= i < 8 ==> ToNibble(r[i]) == Digit(U32(v), i)
  {
    seq(8, i requires 0 <= i < 8 => FromNibble(Digit(U32(v), i)))
  }

  /** `value.ToCodes()`: the loop yields `(uvalue >> (i*4)) & 0xF` for i = 0..7. */
  method ToCodes(value: int) returns (codes: seq<Code>)
    requires IsInt32(value)
    ensures codes == CodesOf(value)
  {
    var uvalue := U32(value);
    codes := [];
    for i := 0 to 8
      invariant codes == CodesOf(value)[..i]
    {
      var shifted := uvalue / Pow2((i * 4) % 32);
      codes := codes + [FromNibble(shifted % 16)];
    }
  }

  /** `((int)c) << (i*4)` for the code at position i: the count is masked to 5 bits, the result wraps. */
  function Term(c: Code, i: nat): int {
    Wrap32(ToNibble(c) * Pow2((4 * i) % 32))
  }

  function Terms(codes: seq<Code>): (r: seq<int>)
    ensures |r| == |codes|
  {
    seq(|codes|, i requires 0 <= i < |codes| => Term(codes[i], i))
  }

  /** LINQ's `Sum()` over ints, which adds left to right in a checked context. */
  function CheckedSum(terms: seq<int>, acc: int): (r: Result<int>)
    ensures IsInt32(acc) && r.Ok? ==> IsInt32(r.value)
    decreases |terms|
  {
    if terms == [] then Ok(acc)
    else if !IsInt32(acc + terms[0]) then Err(ArithmeticOverflow)
    else CheckedSum(terms[1..], acc + terms[0])
  }

  /** `codes.FromCodes()`. */
  function FromCodes(codes: seq<Code>): (r: Result<int>)
    ensures r.Ok? ==> IsInt32(r.value)
    ensures codes == [] ==> r == Ok(0)
  {
    CheckedSum(Terms(codes), 0)
  }

  /** Summing a concatenation sums the first part, then the second from there. */
  lemma {:induction false} CheckedSumAppend(a: seq<int>, b: seq<int>, acc: int)
    ensures CheckedSum(a + b, acc) ==
      (match CheckedSum(a, acc) case Ok(s) => CheckedSum(b, s) case Err(m) => Err(m))
    decreases |a|
  {
    if a != [] {
      assert (a + b)[0] == a[0] && (a + b)[1..] == a[1..] + b;
      CheckedSumAppend(a[1..], b, acc + a[0]);
    } else {
      assert a + b == b;
    }
  }

  lemma NibbleBound(m: int, d: int, r: int)
    requires 0 <= d < 16 && 0 <= r < m
    ensures r + m * d < 16 * m
  {
    assert m * 15 - m * d == m * (15 - d);
  }

  lemma Recombine(u: int, m: int, q: int, r: int, h: int, d: int)
    requires u == m * q + r && q == 16 * h + d
    ensures u == (r + m * d) + (16 * m) * h
  {
    assert m * (16 * h + d) == (16 * m) * h + m * d;
  }

  /** Splitting the quotient by m into a low nibble and the rest. */
  lemma ModStep(u: nat, m: int)
    requires m >= 1
    ensures u % (16 * m) == u % m + ((u / m) % 16) * m
  {
    var q, r := u / m, u % m;
    var d, h := q % 16, q / 16;
    NibbleBound(m, d, r);
    Recombine(u, m, q, r, h, d);
    DivModSplit(r + m * d, 16 * m, h);
  }

  /** The next nibble extends the low bits by one more field. */
  lemma DigitStep(u: nat, k: nat)
    ensures u % Pow2(4 * k + 4) == u % Pow2(4 * k) + Digit(u, k) * Pow2(4 * k)
  {
    Pow2Nibble(k);
    ModStep(u, Pow2(4 * k));
  }

  lemma Pow2Nibble(k: nat)
    ensures Pow2(4 * k + 4) == 16 * Pow2(4 * k)
  {
    Pow2Add(4 * k, 4);
    assert Pow2(4) == 16;
  }

  /** The value of the first k terms' sum before position k. */
  function Partial(v: int, k: nat): int {
    if k < 8 then U32(v) % Pow2(4 * k) else v
  }

  lemma NibbleTimes(d: int, a: int, b: int)
    requires 0 <= d < 16 && 0 <= a <= b
    ensures d * a <= 15 * b
  {
    assert 15 * b - d * a == (15 - d) * b + d * (b - a);
  }

  /** Below the top nibble a term needs no wrapping and the running sum stays under 2^28. */
  lemma LowStep(u: nat, k: nat)
    requires k < 7
    ensures u % Pow2(4 * k) + Wrap32(Digit(u, k) * Pow2((4 * k) % 32)) == u % Pow2(4 * k + 4)
    ensures u % Pow2(4 * k + 4) < 0x1000_0000
  {
    var d := Digit(u, k);
    var p := Pow2(4 * k);
    assert (4 * k) % 32 == 4 * k;
    Pow2Nibbles();
    Pow2Monotone(4 * k, 24);
    NibbleTimes(d, p, Pow2(24));
    assert Wrap32(d * p) == d * p;
    DigitStep(u, k);
    Pow2Monotone(4 * k + 4, 28);
  }

  /** The top nibble's term wraps exactly when the int is negative, which restores its sign. */
  lemma TopStep(v: int)
    requires IsInt32(v)
    ensures U32(v) % Pow2(28) + Wrap32(Digit(U32(v), 7) * Pow2((4 * 7) % 32)) == v
  {
    var u := U32(v);
    var d := Digit(u, 7);
    DigitStep(u, 7);
    Pow2Nibbles();
    Pow2Word();
    assert u % Two32 == u;
    var t := d * 0x1000_0000;
    assert u % 0x1000_0000 + t == u;
    if d < 8 {
      assert Wrap32(t) == t;
      assert u < Two31;
    } else {
      WrapHigh(t);
      assert u >= Two31;
    }
  }

  lemma TermOfCodes(v: int, k: nat)
    requires k < 8
    ensures Terms(CodesOf(v))[k] == Wrap32(Digit(U32(v), k) * Pow2((4 * k) % 32))
  {
    assert ToNibble(CodesOf(v)[k]) == Digit(U32(v), k);
  }

  lemma TermsSnoc(cs: seq<Code>, c: Code)
    ensures Terms(cs + [c]) == Terms(cs) + [Term(c, |cs|)]
  {
    assert forall i :: 0 <= i < |cs| ==> (cs + [c])[i] == cs[i];
  }

  /** Adding term k to the partial sum before it gives the partial sum after it. */
  lemma PartialStep(v: int, k: nat)
    requires IsInt32(v) && k < 8
    ensures Partial(v, k) + Terms(CodesOf(v))[k] == Partial(v, k + 1)
    ensures IsInt32(Partial(v, k + 1))
  {
    TermOfCodes(v, k);
    if k < 7 {
      LowStep(U32(v), k);
    } else {
      TopStep(v);
    }
  }

  lemma {:induction false} SumFrom(v: int, k: nat)
    requires IsInt32(v) && k <= 8
    ensures CheckedSum(Terms(CodesOf(v))[k..], Partial(v, k)) == Ok(v)
    decreases 8 - k
  {
    var ts := Terms(CodesOf(v));
    if k == 8 {
      assert ts[k..] == [];
    } else {
      assert ts[k..][0] == ts[k] && ts[k..][1..] == ts[k + 1..];
      PartialStep(v, k);
      SumFrom(v, k + 1);
    }
  }

  /** Summing the eight codes of any int gives the int back, without overflowing on the way. */
  lemma CodesRoundTrip(v: int)
    requires IsInt32(v)
    ensures FromCodes(CodesOf(v)) == Ok(v)
  {
    SumFrom(v, 0);
    assert Terms(CodesOf(v))[0..] == Terms(CodesOf(v));
    assert Pow2(0) == 1;
  }

  /** Term 8 has shift (4 * 8) % 32 == 0, so it is the bare nibble. */
  lemma NinthTerm(c: Code)
    ensures Term(c, 8) == ToNibble(c)
  {
    var n := ToNibble(c);
    assert (4 * 8) % 32 == 0;
    assert Pow2(0) == 1;
    assert n * Pow2(0) == n;
  }

  lemma CheckedSumOne(t: int, acc: int)
    ensures CheckedSum([t], acc) == if IsInt32(acc + t) then Ok(acc + t) else Err(ArithmeticOverflow)
  {
    assert [t][0] == t && [t][1..] == [];
  }

  /** One more code adds its term to the sum so far, or overflows. */
  lemma FromCodesSnoc(cs: seq<Code>, c: Code, s: int)
    requires FromCodes(cs) == Ok(s)
    ensures FromCodes(cs + [c]) ==
      if IsInt32(s + Term(c, |cs|)) then Ok(s + Term(c, |cs|)) else Err(ArithmeticOverflow)
  {
    var ts, t := Terms(cs), Term(c, |cs|);
    TermsSnoc(cs, c);
    CheckedSumAppend(ts, [t], 0);
    assert CheckedSum(ts + [t], 0) == CheckedSum([t], s);
    CheckedSumOne(t, s);
  }

  /** A ninth code lands on shift 0 again (the count wraps at 32): it adds its nibble to the int and can overflow. */
  lemma NinthCode(v: int, c: Code)
    requires IsInt32(v)
    ensures FromCodes(CodesOf(v) + [c]) ==
      if IsInt32(v + ToNibble(c)) then Ok(v + ToNibble(c)) else Err(ArithmeticOverflow)
  {
    var cs := CodesOf(v);
    CodesRoundTrip(v);
    FromCodesSnoc(cs, c, v);
    assert |cs| == 8;
    NinthTerm(c);
  }

  /** So the codes of int.MaxValue followed by one more `Ldw` overflow. */
  lemma NinthCodeOverflows()
    ensures FromCodes(CodesOf(Two31 - 1) + [Ldw]) == Err(ArithmeticOverflow)
  {
    NinthCode(Two31 - 1, Ldw);
  }

  // ---------------------------------------------------------------------------
  // Slot ranges

  /** `slot >= CodeSlot && slot < CodeSlot + CodeCount`, with the int addition wrapping. */
  predicate Contains(codeSlot: int, codeCount: int, slot: int) {
    slot >= codeSlot && slot < Wrap32(codeSlot + codeCount)
  }

  /** Without overflow the range is exactly [CodeSlot, CodeSlot + CodeCount); it is empty when CodeCount <= 0. */
  lemma ContainsRange(codeSlot: int, codeCount: int, slot: int)
    requires IsInt32(codeSlot + codeCount)
    ensures Contains(codeSlot, codeCount, slot) <==> codeSlot <= slot < codeSlot + codeCount
    ensures codeCount <= 0 ==> !Contains(codeSlot, codeCount, slot)
  {
  }

  // ---------------------------------------------------------------------------
  // The structure stack

  /** What `"Missing " + methods` prints: a string array formats as its type name. */
  const Missing: Exception := Failure("Missing System.String[]")

  /** `Stack<Token>`; the top is the last element. */
  class TokenStack {
    var items: seq<Token>

    constructor()
      ensures items == []
    {
      items := [];
    }

    method Push(t: Token)
      modifies this
      ensures items == old(items) + [t]
    {
      items := items + [t];
    }

    /** The top token's method is one of `methods` (false when it has none). */
    predicate TopMatches(methods: seq<string>)
      reads this, items
    {
      |items| > 0 && items[|items| - 1].MethodName().Some?
      && items[|items| - 1].MethodName().value in methods
    }

    /**
     * `stack.Pop(methods)`: fails when the stack is empty or the top's method is not
     * listed; otherwise removes and returns the top. The test `methods.All(...)` holds
     * at once for no methods, and otherwise reads the top's method name, which throws
     * when the top has none.
     */
    method Pop(methods: seq<string>) returns (r: Result<Token>)
      modifies this
      ensures !old(TopMatches(methods)) ==> r.Err? && items == old(items)
      ensures old(|items| > 0) && |methods| > 0 && old(items[|items| - 1].MethodName()).None? ==>
        r == Err(NullReference)
      ensures old(|items| == 0) || methods == [] ==> r == Err(Missing)
      ensures old(TopMatches(methods)) ==>
        r == Ok(old(items[|items| - 1])) && items == old(items[..|items| - 1])
    {
      if |items| == 0 || methods == [] {
        return Err(Missing);
      }
      var top := items[|items| - 1];
      var name := top.MethodName();
      if name.None? {
        return Err(NullReference);
      }
      if name.value !in methods {
        return Err(Missing);
      }
      items := items[..|items| - 1];
      return Ok(top);
    }
  }

  // ---------------------------------------------------------------------------
  // Dictionary registration

  /** `Dictionary<DictType, Dictionary<string, IDictEntry>>`: the three case-insensitive tables. */
  class DictionarySet {
    var preComp: Table<DictEntry>
    var dict: Table<DictEntry>
    var testCase: Table<DictEntry>

    ghost predicate Valid()
      reads this
    {
      preComp.Valid() && dict.Valid() && testCase.Valid()
    }

    constructor()
      ensures Valid() && preComp.entries == [] && dict.entries == [] && testCase.entries == []
    {
      preComp := Table([]);
      dict := Table([]);
      testCase := Table([]);
    }

    /** Inserts e under name in Dict; a duplicate name throws and nothing changes. */
    method AddEntry(name: string, e: DictEntry) returns (r: Result<()>)
      requires Valid()
      modifies this`dict
      ensures Valid()
      ensures r.Err? <==> old(dict.ContainsKey(name))
      ensures r.Ok? ==> dict.entries == old(dict.entries) + [(name, e)]
      ensures r.Err? ==> dict == old(dict)
    {
      match dict.Add(name, e)
      case Err(m) => r := Err(m);
      case Ok(t) => dict := t; r := Ok(());
    }

    /** `Add(tokenType, name, params Code[] codes)`. */
    method AddCodes(tokenType: TokenType, name: string, codes: seq<Code>) returns (r: Result<()>)
      requires Valid()
      modifies this`dict
      ensures Valid()
      ensures r.Err? <==> old(dict.ContainsKey(name))
      ensures r.Ok? ==> dict.entries == old(dict.entries) + [(name, MacroCode(tokenType, codes))]
      ensures r.Err? ==> dict == old(dict)
    {
      r := AddEntry(name, MacroCode(tokenType, codes));
    }

    /** `Add(tokenType, name, macrotext)`. */
    method AddText(tokenType: TokenType, name: string, text: string) returns (r: Result<()>)
      requires Valid()
      modifies this`dict
      ensures Valid()
      ensures r.Err? <==> old(dict.ContainsKey(name))
      ensures r.Ok? ==> dict.entries == old(dict.entries) + [(name, MacroText(tokenType, text))]
      ensures r.Err? ==> dict == old(dict)
    {
      r := AddEntry(name, MacroText(tokenType, text));
    }

    /** `Add(testcase)`: keyed "TestCase <last Dict key> <text>" in the TestCase table. */
    method AddTestCase(text: string) returns (r: Result<()>)
      requires Valid()
      modifies this`testCase
      ensures Valid()
      ensures old(dict.entries) == [] ==> r.Err? && testCase == old(testCase)
      ensures old(dict.entries) != [] ==>
        var key := "TestCase " + dict.entries[|dict.entries| - 1].0 + " " + text;
        (r.Err? <==> old(testCase.ContainsKey(key)))
        && (r.Ok? ==> testCase.entries == old(testCase.entries) + [(key, TestCaseEntry(text))])
        && (r.Err? ==> testCase == old(testCase))
    {
      match dict.Last()
      case None =>
        r := Err(NoElements);
      case Some((func, _)) =>
        var key := "TestCase " + func + " " + text;
        match testCase.Add(key, TestCaseEntry(text))
        case Err(m) => r := Err(m);
        case Ok(t) => testCase := t; r := Ok(());
    }

    /** `Add(prerequisite)`: keyed by the last Dict key in the PreComp table. */
    method AddPrerequisite(references: seq<string>) returns (r: Result<()>)
      requires Valid()
      modifies this`preComp
      ensures Valid()
      ensures old(dict.entries) == [] ==> r.Err? && preComp == old(preComp)
      ensures old(dict.entries) != [] ==>
        var key := dict.entries[|dict.entries| - 1].0;
        (r.Err? <==> old(preComp.ContainsKey(key)))
        && (r.Ok? ==> preComp.entries == old(preComp.entries) + [(key, PrerequisiteEntry(references))])
        && (r.Err? ==> preComp == old(preComp))
    {
      match dict.Last()
      case None =>
        r := Err(NoElements);
      case Some((func, _)) =>
        match preComp.Add(func, PrerequisiteEntry(references))
        case Err(m) => r := Err(m);
        case Ok(t) => preComp := t; r := Ok(());
    }
  }
}
