/**
 * The plain records shared by the compiler, the simulator and the debugger: the
 * sixteen machine codes, code slots, token types, dictionary entries, and the
 * case-insensitive dictionary they live in.
 */
module Records {
  import opened Wrappers

  /**
   * The machine codes the simulator executes. Their 4-bit values follow the opcode
   * numbering of the assembler back end (nano.h): `Nop` is the source's `Code._`.
   */
  datatype Code = Nop | Ldw | Stw | Psh | Pop | Swp | Jnz | Jsr | Adc | Add | Sub | And | Xor | Lsr | Zeq | Lit

  /** `(int)code`. */
  function ToNibble(c: Code): (n: int)
    ensures 0 <= n < 16
  {
    match c
    case Nop => 0  case Ldw => 1  case Stw => 2  case Psh => 3
    case Pop => 4  case Swp => 5  case Jnz => 6  case Jsr => 7
    case Adc => 8  case Add => 9  case Sub => 10 case And => 11
    case Xor => 12 case Lsr => 13 case Zeq => 14 case Lit => 15
  }

  /** `(Code)n` for a 4-bit value. */
  function FromNibble(n: int): (c: Code)
    requires 0 <= n < 16
    ensures ToNibble(c) == n
  {
    [Nop, Ldw, Stw, Psh, Pop, Swp, Jnz, Jsr, Adc, Add, Sub, And, Xor, Lsr, Zeq, Lit][n]
  }

  /** The two conversions are inverse: every code has exactly one nibble. */
  lemma NibbleRoundTrip(c: Code)
    ensures FromNibble(ToNibble(c)) == c
  {
  }

  /** One non-null entry of the compiler's code-slot list. */
  datatype CodeSlot = CodeSlot(code: Code, value: int)

  /** The token classifications used across the compiler and its debugger. */
  datatype TokenType =
    | Undetermined | Organisation | Excluded | Literal | Math | Stack | Structure
    | Variable | Constant | Definition | Label | Error | TestCase

  /**
   * The dictionary entries of the compiler. A LabelEntry's Patches list is null
   * (None) once the label is bound.
   */
  datatype DictEntry =
    | LabelEntry(codeSlot: int, patches: Option<seq<int>>)
    | VariableEntry(heapAddress: int)
    | ConstantEntry(value: int)
    | DefinitionEntry
    | MethodEntry(methodName: string, methodType: TokenType, hasArgument: bool)
    | MacroCode(macroType: TokenType, codes: seq<Code>)
    | MacroText(macroType: TokenType, text: string)
    | TestCaseEntry(caseText: string)
    | PrerequisiteEntry(references: seq<string>)

  /** `entry is T` where T is the class of `created`. */
  predicate SameClass(entry: DictEntry, created: DictEntry) {
    match created
    case LabelEntry(_, _) => entry.LabelEntry?
    case VariableEntry(_) => entry.VariableEntry?
    case ConstantEntry(_) => entry.ConstantEntry?
    case DefinitionEntry => entry.DefinitionEntry?
    case MethodEntry(_, _, _) => entry.MethodEntry?
    case MacroCode(_, _) => entry.MacroCode?
    case MacroText(_, _) => entry.MacroText?
    case TestCaseEntry(_) => entry.TestCaseEntry?
    case PrerequisiteEntry(_) => entry.PrerequisiteEntry?
  }

  /** `entry.GetType().Name`. */
  function ClassName(e: DictEntry): string {
    match e
    case LabelEntry(_, _) => "LabelEntry"
    case VariableEntry(_) => "VariableEntry"
    case ConstantEntry(_) => "ConstantEntry"
    case DefinitionEntry => "DefinitionEntry"
    case MethodEntry(_, _, _) => "MethodAttribute"
    case MacroCode(_, _) => "MacroCode"
    case MacroText(_, _) => "MacroText"
    case TestCaseEntry(_) => "TestCase"
    case PrerequisiteEntry(_) => "Prerequisite"
  }

  /** The TokenType property of each entry class. */
  function EntryTokenType(e: DictEntry): TokenType {
    match e
    case LabelEntry(_, _) => Label
    case VariableEntry(_) => Variable
    case ConstantEntry(_) => Constant
    case DefinitionEntry => Definition
    case MethodEntry(_, t, _) => t
    case MacroCode(t, _) => t
    case MacroText(t, _) => t
    case TestCaseEntry(_) => Undetermined
    case PrerequisiteEntry(_) => Undetermined
  }

  /** `DictEntry.Method.Name`: only method entries carry one. */
  function MethodName(e: DictEntry): Option<string> {
    if e.MethodEntry? then Some(e.methodName) else None
  }

  /** ASCII upper-casing, the model of `StringComparer.OrdinalIgnoreCase`. */
  function Fold(s: string): (r: string)
    ensures |r| == |s|
  {
    if s == [] then []
    else
      var c := s[0];
      [if 'a' <= c <= 'z' then (c as int - 32) as char else c] + Fold(s[1..])
  }

  /**
   * A .NET `Dictionary<string, V>` with the OrdinalIgnoreCase comparer, as its
   * entries in insertion order (the order in which it enumerates them while
   * nothing is removed).
   */
  datatype Table<V> = Table(entries: seq<(string, V)>) {

    /** No two keys are equal ignoring case. */
    ghost predicate Valid() {
      forall i, j :: 0 <= i < j < |entries| ==> Fold(entries[i].0) != Fold(entries[j].0)
    }

    /** The position of `key`, or -1. */
    function Find(key: string): (r: int)
      ensures -1 <= r < |entries|
      ensures r >= 0 ==> Fold(entries[r].0) == Fold(key)
      ensures r >= 0 ==> forall i :: 0 <= i < r ==> Fold(entries[i].0) != Fold(key)
      ensures r < 0 ==> forall i :: 0 <= i < |entries| ==> Fold(entries[i].0) != Fold(key)
    {
      FindIn(entries, key)
    }

    predicate ContainsKey(key: string) {
      Find(key) >= 0
    }

    /** `TryGetValue`. */
    function Get(key: string): (r: Option<V>)
      ensures r.Some? <==> ContainsKey(key)
    {
      var i := Find(key);
      if i >= 0 then Some(entries[i].1) else None
    }

    /** `Add`, which throws when the key is already present. */
    function Add(key: string, v: V): (r: Result<Table<V>>)
      ensures r.Err? <==> ContainsKey(key)
      ensures r.Ok? ==> r.value.entries == entries + [(key, v)]
      ensures Valid() && r.Ok? ==> r.value.Valid()
    {
      if ContainsKey(key) then Err(DuplicateKey)
      else Ok(Table(entries + [(key, v)]))
    }

    /** The indexer's setter: replaces the value of a present key, else appends. */
    function Set(key: string, v: V): (r: Table<V>)
      ensures r.Get(key) == Some(v) || !Valid()
      ensures Valid() ==> r.Valid()
      ensures ContainsKey(key) ==> |r.entries| == |entries|
      ensures ContainsKey(key) ==> r.entries == entries[Find(key) := (entries[Find(key)].0, v)]
      ensures !ContainsKey(key) ==> r.entries == entries + [(key, v)]
      ensures forall k :: Fold(k) != Fold(key) ==> r.Get(k) == Get(k)
    {
      var i := Find(key);
      if i >= 0 then
        SetPresent(this, key, v);
        Table(entries[i := (entries[i].0, v)])
      else
        SetAbsent(this, key, v);
        Table(entries + [(key, v)])
    }

    /** `Last()`, which throws on an empty dictionary. */
    function Last(): (r: Option<(string, V)>)
      ensures r.Some? <==> |entries| > 0
    {
      if entries == [] then None else Some(entries[|entries| - 1])
    }
  }

  function FindIn<V>(es: seq<(string, V)>, key: string): (r: int)
    ensures -1 <= r < |es|
    ensures r >= 0 ==> Fold(es[r].0) == Fold(key)
    ensures r >= 0 ==> forall i :: 0 <= i < r ==> Fold(es[i].0) != Fold(key)
    ensures r < 0 ==> forall i :: 0 <= i < |es| ==> Fold(es[i].0) != Fold(key)
  {
    if es == [] then -1
    else if Fold(es[0].0) == Fold(key) then 0
    else
      var r := FindIn(es[1..], key);
      if r < 0 then -1 else r + 1
  }

  /** Replacing the value of a present key keeps every key, and so every lookup but its own. */
  lemma SetPresent<V>(t: Table<V>, key: string, v: V)
    requires t.Find(key) >= 0
    ensures var i := t.Find(key);
      var r := Table(t.entries[i := (t.entries[i].0, v)]);
      && r.Get(key) == Some(v) && |r.entries| == |t.entries| && (t.Valid() ==> r.Valid())
      && forall k :: Fold(k) != Fold(key) ==> r.Get(k) == t.Get(k)
  {
    var i := t.Find(key);
    var r := Table(t.entries[i := (t.entries[i].0, v)]);
    FindSameKeys(t.entries, r.entries);
    forall k | Fold(k) != Fold(key)
      ensures r.Get(k) == t.Get(k)
    {
      var j := t.Find(k);
      if j >= 0 {
        assert j != i;
      }
    }
  }

  /** Appending an absent key finds it at the end and leaves every other lookup alone. */
  lemma SetAbsent<V>(t: Table<V>, key: string, v: V)
    requires t.Find(key) < 0
    ensures var r := Table(t.entries + [(key, v)]);
      && r.Get(key) == Some(v) && (t.Valid() ==> r.Valid())
      && forall k :: Fold(k) != Fold(key) ==> r.Get(k) == t.Get(k)
  {
    var r := Table(t.entries + [(key, v)]);
    FindAppend(t.entries, (key, v));
    assert r.entries[|t.entries|] == (key, v);
    forall k | Fold(k) != Fold(key)
      ensures r.Get(k) == t.Get(k)
    {
      var j := t.Find(k);
      if j >= 0 {
        assert r.entries[j] == t.entries[j];
      }
    }
    if t.Valid() {
      forall i, j | 0 <= i < j < |r.entries|
        ensures Fold(r.entries[i].0) != Fold(r.entries[j].0)
      {
        if j == |t.entries| {
          assert r.entries[i] == t.entries[i];
        } else {
          assert r.entries[i] == t.entries[i] && r.entries[j] == t.entries[j];
        }
      }
    }
  }

  /** Lookup depends only on the keys, not on the values. */
  lemma FindSameKeys<V>(a: seq<(string, V)>, b: seq<(string, V)>)
    requires |a| == |b|
    requires forall i :: 0 <= i < |a| ==> a[i].0 == b[i].0
    ensures forall key :: FindIn(a, key) == FindIn(b, key)
  {
    forall key ensures FindIn(a, key) == FindIn(b, key) {
      var ra, rb := FindIn(a, key), FindIn(b, key);
      if ra >= 0 && rb >= 0 {
        assert !(ra < rb) && !(rb < ra);
      }
    }
  }

  /** Appending an entry finds it only for keys not already present. */
  lemma FindAppend<V>(a: seq<(string, V)>, x: (string, V))
    ensures forall key ::
              FindIn(a + [x], key) ==
              (if FindIn(a, key) >= 0 then FindIn(a, key) else if Fold(x.0) == Fold(key) then |a| else -1)
  {
    forall key ensures FindIn(a + [x], key) ==
      (if FindIn(a, key) >= 0 then FindIn(a, key) else if Fold(x.0) == Fold(key) then |a| else -1)
    {
      FindAppendKey(a, x, key);
    }
  }

  lemma {:induction false} FindAppendKey<V>(a: seq<(string, V)>, x: (string, V), key: string)
    ensures FindIn(a + [x], key) ==
      (if FindIn(a, key) >= 0 then FindIn(a, key) else if Fold(x.0) == Fold(key) then |a| else -1)
    decreases |a|
  {
    if a == [] {
      assert a + [x] == [x] && [x][1..] == [];
    } else {
      assert (a + [x])[0] == a[0] && (a + [x])[1..] == a[1..] + [x];
      if Fold(a[0].0) != Fold(key) {
        FindAppendKey(a[1..], x, key);
      }
    }
  }
}
