/**
 * Compiler.cs: the code-emission and back-patching core of the Forth compiler.
 * `Encode` appends code slots, `MakeDictEntry` applies the redefinition rules of
 * the dictionary, `Addr` emits a reference to a label and records it for
 * patching while the label is unbound, `Label` pads to a word boundary, binds the
 * label there and patches every recorded reference, `Variable`/`Allot` run the
 * heap bump allocator, literals are converted and encoded, `Parse` rejects a
 * label still waiting for its patches, and the fix-up loops at the end of
 * `Parse` make the tokens' code slots monotone and their code counts telescope.
 */
module Compiling {
  import opened Wrappers
  import opened Bits
  import opened Records
  import opened Tokens
  import opened Literals
  import opened Slots

  // ---------------------------------------------------------------------------
  // Dictionary entries

  /**
   * `MakeDictEntry<T>(key, createFunc, exclusive)` where `made` is what
   * `createFunc` makes (its class is T): an existing entry of another class, or
   * any existing entry when exclusive, throws; an existing entry of class T is
   * returned; otherwise the made entry is.
   */
  function EntryFor(t: Table<DictEntry>, key: string, made: DictEntry, exclusive: bool): (r: Result<DictEntry>)
    ensures r.Err? <==> t.Get(key).Some? && (exclusive || !SameClass(t.Get(key).value, made))
    ensures r.Err? ==> r.error == Failure(key + " already defined as " + ClassName(t.Get(key).value))
    ensures r.Ok? ==> SameClass(r.value, made)
    ensures r.Ok? && t.Get(key).Some? ==> r.value == t.Get(key).value
    ensures r.Ok? && t.Get(key).None? ==> r.value == made
  {
    match t.Get(key)
    case Some(e) =>
      if exclusive || !SameClass(e, made) then Err(Failure(key + " already defined as " + ClassName(e)))
      else Ok(e)
    case None => Ok(made)
  }

  /** The dictionary after `MakeDictEntry`: the made entry is stored only when the key was absent. */
  function DictAfter(t: Table<DictEntry>, key: string, made: DictEntry, exclusive: bool): Table<DictEntry> {
    if EntryFor(t, key, made, exclusive).Ok? && t.Get(key).None? then t.Set(key, made) else t
  }

  /**
   * Asking for the same key again without `exclusive` returns the entry the first
   * request stored and changes nothing; asking with `exclusive` fails.
   */
  lemma MakeDictEntryTwice(t: Table<DictEntry>, key: string, made: DictEntry, other: DictEntry, exclusive: bool)
    requires t.Valid() && EntryFor(t, key, made, exclusive).Ok? && SameClass(other, made)
    ensures var t1 := DictAfter(t, key, made, exclusive);
      EntryFor(t1, key, other, false) == EntryFor(t, key, made, exclusive)
      && DictAfter(t1, key, other, false) == t1
      && EntryFor(t1, key, other, true).Err?
  {
    var e := EntryFor(t, key, made, exclusive).value;
    var t1 := DictAfter(t, key, made, exclusive);
    assert t1.Get(key) == Some(e);
    SameClassOf(e, made, other);
  }

  lemma SameClassOf(e: DictEntry, made: DictEntry, other: DictEntry)
    requires SameClass(e, made) && SameClass(other, made)
    ensures SameClass(e, other)
  {
  }

  /** A label still waiting for its patches. */
  predicate Pending(e: DictEntry) {
    e.LabelEntry? && e.patches.Some?
  }

  /** The key of the first pending label in enumeration order. */
  function FirstPending(es: seq<(string, DictEntry)>): (r: Option<string>)
    ensures r.None? <==> forall i :: 0 <= i < |es| ==> !Pending(es[i].1)
    ensures r.Some? ==> exists i :: (0 <= i < |es| && es[i].0 == r.value && Pending(es[i].1)
      && forall j :: 0 <= j < i ==> !Pending(es[j].1))
    decreases |es|
  {
    if es == [] then None
    else if Pending(es[0].1) then Some(es[0].0)
    else
      var r := FirstPending(es[1..]);
      assert forall i :: 1 <= i < |es| ==> es[i] == es[1..][i - 1];
      r
  }

  /** The check after the main pass of `Parse`: "Unpatched label <key>" for the first pending label. */
  function UnpatchedLabelError(t: Table<DictEntry>): (r: Option<Exception>)
    ensures r.None? <==> forall i :: 0 <= i < |t.entries| ==> !Pending(t.entries[i].1)
    ensures r.Some? ==> exists i :: (0 <= i < |t.entries| && Pending(t.entries[i].1)
      && r.value == Failure("Unpatched label " + t.entries[i].0))
  {
    match FirstPending(t.entries)
    case None => None
    case Some(k) => Some(Failure("Unpatched label " + k))
  }

  /** Binding the only pending label clears the check. */
  lemma BindingClearsCheck(t: Table<DictEntry>, key: string, codeSlot: int)
    requires t.Valid()
    requires forall i :: 0 <= i < |t.entries| && Pending(t.entries[i].1) ==> Fold(t.entries[i].0) == Fold(key)
    ensures UnpatchedLabelError(t.Set(key, LabelEntry(codeSlot, None))).None?
  {
    var t1 := t.Set(key, LabelEntry(codeSlot, None));
    var i := t.Find(key);
    if i >= 0 {
      forall j | 0 <= j < |t1.entries|
        ensures !Pending(t1.entries[j].1)
      {
        if j != i {
          assert t1.entries[j] == t.entries[j];
          assert Fold(t.entries[j].0) != Fold(t.entries[i].0);
        }
      }
    } else {
      assert forall j :: 0 <= j < |t.entries| ==> t1.entries[j] == t.entries[j];
    }
  }

  // ---------------------------------------------------------------------------
  // The compiler state

  /** A label entry is bound at a word boundary, and its pending patches are literal slots. */
  predicate EntryOk(e: DictEntry, cs: Slots) {
    e.LabelEntry? ==> e.codeSlot % 8 == 0 && (e.patches.Some? ==> PatchTargets(e.patches.value, cs))
  }

  predicate EntriesOk(t: Table<DictEntry>, cs: Slots) {
    forall i :: 0 <= i < |t.entries| ==> EntryOk(t.entries[i].1, cs)
  }

  lemma SetOk(t: Table<DictEntry>, key: string, e: DictEntry, cs: Slots)
    requires EntriesOk(t, cs) && EntryOk(e, cs)
    ensures EntriesOk(t.Set(key, e), cs)
  {
  }

  lemma GrowOk(t: Table<DictEntry>, cs: Slots, ds: Slots)
    requires EntriesOk(t, cs) && |cs| <= |ds| && ds[..|cs|] == cs
    ensures EntriesOk(t, ds)
  {
    forall i | 0 <= i < |t.entries| && Pending(t.entries[i].1)
      ensures PatchTargets(t.entries[i].1.patches.value, ds)
    {
      PatchTargetsGrow(t.entries[i].1.patches.value, cs, ds);
    }
  }

  lemma SameCodesOk(t: Table<DictEntry>, cs: Slots, ds: Slots)
    requires EntriesOk(t, cs) && SameCodes(cs, ds)
    ensures EntriesOk(t, ds)
  {
    forall i | 0 <= i < |t.entries| && Pending(t.entries[i].1)
      ensures PatchTargets(t.entries[i].1.patches.value, ds)
    {
      PatchTargetsSameCodes(t.entries[i].1.patches.value, cs, ds);
    }
  }

  /** An entry found in the table satisfies what every entry does. */
  lemma GetOk(t: Table<DictEntry>, key: string, cs: Slots)
    requires EntriesOk(t, cs) && t.Get(key).Some?
    ensures EntryOk(t.Get(key).value, cs)
  {
    assert t.Get(key).value == t.entries[t.Find(key)].1;
  }

  class Compiler {
    /** `CodeSlots`. */
    var codeSlots: Slots
    /** `Entries[DictType.Dict]`, the table every modelled operation works on. */
    var dict: Table<DictEntry>
    /** `HeapSize`. */
    var heapSize: int
    /** `Tokens`. */
    var tokens: seq<Token>

    /**
     * The invariant: the slot list keeps its layout, the dictionary has no two keys
     * equal ignoring case, every label sits at a word boundary and every pending
     * patch is a literal slot.
     */
    ghost predicate Valid()
      reads this
    {
      WellLaid(codeSlots) && dict.Valid() && EntriesOk(dict, codeSlots)
    }

    /** Each token appears once in the list (each is made by its own `new Token`). */
    ghost predicate TokensDistinct()
      reads this
    {
      forall i, j :: 0 <= i < j < |tokens| ==> tokens[i] != tokens[j]
    }

    constructor(tokens: seq<Token>)
      ensures Valid() && codeSlots == [] && dict == Table([]) && heapSize == 0 && this.tokens == tokens
    {
      codeSlots := [];
      dict := Table([]);
      heapSize := 0;
      this.tokens := tokens;
    }

    /** `Encode(code, value)`. */
    method Encode(code: Code, value: int)
      modifies this`codeSlots
      ensures codeSlots == Encoded(old(codeSlots), CodeSlot(code, value))
      ensures WellLaid(old(codeSlots)) ==> WellLaid(codeSlots)
      ensures old(Valid()) ==> Valid()
    {
      var before := codeSlots;
      var added := codeSlots + [Some(CodeSlot(code, value))];
      if |added| % 8 == 0 {
        added := added + Blanks(8 * LitCount(added[|added| - 8..]));
      }
      codeSlots := added;
      EncodedOk(dict, before, CodeSlot(code, value));
    }

    /** `Encode(params Code[] codes)`: each code with value 0, in order. */
    method EncodeCodes(codes: seq<Code>)
      modifies this`codeSlots
      ensures codeSlots == EncodedAll(old(codeSlots), codes)
      ensures old(Valid()) ==> Valid()
    {
      var i := 0;
      while i < |codes|
        invariant 0 <= i <= |codes|
        invariant EncodedAll(old(codeSlots), codes) == EncodedAll(codeSlots, codes[i..])
        invariant old(Valid()) ==> Valid()
      {
        assert codes[i..] == [codes[i]] + codes[i + 1..];
        Encode(codes[i], 0);
        i := i + 1;
      }
    }

    /** `MakeDictEntry`, with the entry `createFunc` would make. */
    method MakeDictEntry(key: string, made: DictEntry, exclusive: bool) returns (r: Result<DictEntry>, created: bool)
      modifies this`dict
      ensures r == EntryFor(old(dict), key, made, exclusive)
      ensures created <==> r.Ok? && old(dict).Get(key).None?
      ensures dict == DictAfter(old(dict), key, made, exclusive)
    {
      r := EntryFor(dict, key, made, exclusive);
      created := r.Ok? && dict.Get(key).None?;
      if created {
        dict := dict.Set(key, made);
      }
    }

    /** `VariableEntry.Process` / `ConstantEntry.Process`: push the value as a literal. */
    method PushValue(v: int)
      modifies this`codeSlots
      ensures codeSlots == Encoded(Encoded(old(codeSlots), CodeSlot(Psh, 0)), CodeSlot(Lit, v))
      ensures old(Valid()) ==> Valid()
    {
      Encode(Psh, 0);
      Encode(Lit, v);
    }

    /**
     * A literal token in the main pass of `Parse`: `Psh`, then `Lit` with the
     * converted value. A conversion error is thrown after the `Psh` is encoded.
     */
    method EncodeLiteral(text: string) returns (r: Result<()>)
      modifies this`codeSlots
      ensures var mid := Encoded(old(codeSlots), CodeSlot(Psh, 0));
        match LiteralValue(text)
        case Ok(v) => r == Ok(()) && codeSlots == Encoded(mid, CodeSlot(Lit, v))
        case Err(e) => r == Err(e) && codeSlots == mid
      ensures old(Valid()) ==> Valid()
    {
      Encode(Psh, 0);
      var v := LiteralValue(text);
      if v.Err? {
        return Err(v.error);
      }
      Encode(Lit, v.value);
      return Ok(());
    }

    /**
     * `Addr`: a reference to the label `key` (made unbound, with an empty patch
     * list, when absent) as `Psh`, `Lit(CodeSlot / 8)`; while the label is unbound
     * the index of that `Lit` joins its patch list.
     */
    method Addr(key: string) returns (r: Result<()>)
      modifies this`codeSlots, this`dict
      ensures var made := LabelEntry(0, Some([]));
        var e := EntryFor(old(dict), key, made, false);
        var d0 := DictAfter(old(dict), key, made, false);
        var mid := Encoded(old(codeSlots), CodeSlot(Psh, 0));
        match e
        case Err(x) => r == Err(x) && codeSlots == old(codeSlots) && dict == old(dict)
        case Ok(entry) =>
          r == Ok(()) && entry.LabelEntry?
          && codeSlots == Encoded(mid, CodeSlot(Lit, TDiv(entry.codeSlot, 8)))
          && IsLit(codeSlots[|mid|])
          && dict == (if entry.patches.Some?
                      then d0.Set(key, LabelEntry(entry.codeSlot, Some(entry.patches.value + [|mid|])))
                      else d0)
      ensures old(Valid()) ==> Valid()
    {
      ghost var valid := Valid();
      ghost var cs0 := codeSlots;
      var e, created := MakeDictEntry(key, LabelEntry(0, Some([])), false);
      if e.Err? {
        return Err(e.error);
      }
      var entry := e.value;
      if valid {
        MadeOk(old(dict), key, LabelEntry(0, Some([])), false, cs0);
        assert Valid();
      }
      ghost var d0 := dict;
      Encode(Psh, 0);
      ghost var mid := codeSlots;
      if valid && entry.patches.Some? {
        PatchTargetsGrow(entry.patches.value, cs0, mid);
      }
      if entry.patches.Some? {
        dict := dict.Set(key, LabelEntry(entry.codeSlot, Some(entry.patches.value + [|codeSlots|])));
      }
      Encode(Lit, TDiv(entry.codeSlot, 8));
      if valid {
        AddrOk(d0, dict, key, entry, mid, codeSlots);
      }
      r := Ok(());
    }

    /**
     * `Label`: the label `key` (made unbound, without patches, when absent) is
     * bound at the slot count after padding to a multiple of 8, every recorded
     * patch gets the word address `CodeSlot / 8`, and the patch list becomes null.
     */
    method Label(key: string) returns (r: Result<()>)
      modifies this`codeSlots, this`dict
      ensures var made := LabelEntry(0, None);
        var e := EntryFor(old(dict), key, made, false);
        var d0 := DictAfter(old(dict), key, made, false);
        var padded := Padded(old(codeSlots));
        match e
        case Err(x) => r == Err(x) && codeSlots == old(codeSlots) && dict == old(dict)
        case Ok(entry) =>
          entry.LabelEntry?
          && var ps := if entry.patches.Some? then entry.patches.value else [];
          var (patched, failure) := Patched(padded, ps, |padded| / 8);
          codeSlots == patched
          && (failure.None? ==> r == Ok(()) && dict == d0.Set(key, LabelEntry(|padded|, None)))
          && (failure.Some? ==> r == Err(failure.value) && dict == d0.Set(key, LabelEntry(|padded|, entry.patches)))
      ensures old(Valid()) ==> Valid() && (r.Ok? <==> EntryFor(old(dict), key, LabelEntry(0, None), false).Ok?)
    {
      ghost var valid := Valid();
      ghost var cs0 := codeSlots;
      var e, created := MakeDictEntry(key, LabelEntry(0, None), false);
      if e.Err? {
        return Err(e.error);
      }
      var entry := e.value;
      if valid {
        MadeOk(old(dict), key, LabelEntry(0, None), false, cs0);
      }
      ghost var d0 := dict;
      var ps := if entry.patches.Some? then entry.patches.value else [];
      Pad();
      if valid {
        PatchTargetsGrow(ps, cs0, codeSlots);
      }
      var codeSlot := |codeSlots|;
      ghost var padded := codeSlots;
      var failure := PatchSlots(ps, codeSlot / 8);
      if valid {
        PatchedValues(padded, ps, codeSlot / 8);
      }
      if failure.Some? {
        dict := dict.Set(key, LabelEntry(codeSlot, entry.patches));
        return Err(failure.value);
      }
      dict := dict.Set(key, LabelEntry(codeSlot, None));
      if valid {
        LabelOk(d0, dict, key, padded, codeSlots);
      }
      r := Ok(());
    }

    /** `while (CodeSlots.Count % 8 > 0) Encode(Code._)`. */
    method Pad()
      modifies this`codeSlots
      ensures codeSlots == Padded(old(codeSlots))
      ensures old(Valid()) ==> Valid()
    {
      while |codeSlots| % 8 > 0
        invariant Padded(codeSlots) == Padded(old(codeSlots))
        invariant old(Valid()) ==> Valid()
        decreases PadsLeft(|codeSlots|)
      {
        ghost var before := codeSlots;
        Encode(Nop, 0);
        PadMeasure(|before|, |codeSlots|);
      }
    }

    /** `foreach (var patch in patches) CodeSlots[patch].Value = v`, stopping at the first exception. */
    method PatchSlots(ps: seq<int>, v: int) returns (failure: Option<Exception>)
      modifies this`codeSlots
      ensures (codeSlots, failure) == Patched(old(codeSlots), ps, v)
    {
      var i := 0;
      while i < |ps|
        invariant 0 <= i <= |ps|
        invariant Patched(old(codeSlots), ps, v) == Patched(codeSlots, ps[i..], v)
      {
        var p := ps[i];
        assert ps[i..][0] == p && ps[i..][1..] == ps[i + 1..];
        if !(0 <= p < |codeSlots|) {
          return Some(ArgumentOutOfRange);
        }
        if codeSlots[p].None? {
          return Some(NullReference);
        }
        codeSlots := codeSlots[p := Some(CodeSlot(codeSlots[p].value.code, v))];
        i := i + 1;
      }
      assert ps[i..] == [];
      failure := None;
    }

    /**
     * `Variable`: the entry for the token's text is made with heap address
     * `HeapSize`, which then increments (only when the entry is new); redefinition
     * is an error outside macros. The token records the entry.
     */
    method Variable(token: Token) returns (r: Result<()>)
      modifies this`dict, this`heapSize, token`dictEntry
      ensures var e := EntryFor(old(dict), token.text, VariableEntry(old(heapSize)), token.macroLevel == 0);
        && (e.Ok? ==> r == Ok(()) && token.dictEntry == Some(e.value))
        && (e.Err? ==> r == Err(e.error) && token.dictEntry == old(token.dictEntry))
      ensures dict == DictAfter(old(dict), token.text, VariableEntry(old(heapSize)), token.macroLevel == 0)
      ensures dict != old(dict) ==> heapSize == Wrap32(old(heapSize) + 1)
      ensures dict == old(dict) ==> heapSize == old(heapSize)
      ensures old(Valid()) ==> Valid()
    {
      ghost var valid := Valid();
      var text, level := token.text, token.macroLevel;
      var next := Wrap32(heapSize + 1);
      var e, created := MakeDictEntry(text, VariableEntry(heapSize), level == 0);
      if created {
        heapSize := next;
        assert |dict.entries| == |old(dict).entries| + 1;
      }
      if e.Ok? {
        if valid {
          MadeOk(old(dict), text, VariableEntry(old(heapSize)), level == 0, codeSlots);
        }
        token.dictEntry := Some(e.value);
        r := Ok(());
      } else {
        r := Err(e.error);
      }
    }

    /** `Allot`: `HeapSize += ForthStack.First()`, with the evaluated stack as a parameter. */
    method Allot(stack: seq<int>) returns (r: Result<()>)
      modifies this`heapSize
      ensures stack == [] ==> r == Err(NoElements) && heapSize == old(heapSize)
      ensures stack != [] ==> r == Ok(()) && heapSize == Wrap32(old(heapSize) + stack[0])
    {
      if stack == [] {
        return Err(NoElements);
      }
      heapSize := Wrap32(heapSize + stack[0]);
      r := Ok(());
    }

    /**
     * `Constant`: an exclusive entry with value `ForthStack.First()`. The
     * redefinition check comes first; `First()` runs only inside `createFunc`.
     */
    method Constant(key: string, stack: seq<int>) returns (r: Result<()>)
      modifies this`dict
      ensures old(dict).Get(key).Some? ==>
        r == Err(Failure(key + " already defined as " + ClassName(old(dict).Get(key).value))) && dict == old(dict)
      ensures old(dict).Get(key).None? && stack == [] ==> r == Err(NoElements) && dict == old(dict)
      ensures old(dict).Get(key).None? && stack != [] ==>
        r == Ok(()) && dict == old(dict).Set(key, ConstantEntry(stack[0]))
      ensures old(Valid()) ==> Valid()
    {
      var check := EntryFor(dict, key, ConstantEntry(0), true);
      if check.Err? {
        return Err(check.error);
      }
      if stack == [] {
        return Err(NoElements);
      }
      var e, created := MakeDictEntry(key, ConstantEntry(stack[0]), true);
      if old(Valid()) {
        SetOk(old(dict), key, ConstantEntry(stack[0]), codeSlots);
      }
      r := Ok(());
    }

    /** Fix-up one: each token's code slot becomes the running maximum from 0. */
    method FixSlots()
      requires TokensDistinct()
      modifies (set t | t in tokens)`codeSlot
      ensures SlotsOf(tokens) == RunningMax(old(SlotsOf(tokens)), 0)
    {
      ghost var s0 := SlotsOf(tokens);
      ghost var fixed := RunningMax(s0, 0);
      var i, slot := 0, 0;
      while i < |tokens|
        invariant 0 <= i <= |tokens|
        invariant forall j :: 0 <= j < i ==> tokens[j].codeSlot == fixed[j]
        invariant forall j :: i <= j < |tokens| ==> tokens[j].codeSlot == s0[j]
        invariant slot == if i == 0 then 0 else fixed[i - 1]
      {
        RunningMaxAt(s0, 0, i);
        slot := if tokens[i].codeSlot > slot then tokens[i].codeSlot else slot;
        tokens[i].codeSlot := slot;
        i := i + 1;
      }
      assert SlotsOf(tokens) == fixed;
    }

    /**
     * Fix-up two, from the last token back: each code count is the next token's
     * code slot (the slot count for the last) minus its own.
     */
    method FixCounts()
      requires TokensDistinct()
      modifies (set t | t in tokens)`codeCount
      ensures CountsOf(tokens) == Counts(SlotsOf(tokens), |codeSlots|)
    {
      ghost var s := SlotsOf(tokens);
      ghost var counts := Counts(s, |codeSlots|);
      var i, slot := |tokens|, |codeSlots|;
      while i > 0
        invariant 0 <= i <= |tokens|
        invariant forall j :: i <= j < |tokens| ==> tokens[j].codeCount == counts[j]
        invariant slot == if i < |tokens| then s[i] else |codeSlots|
        invariant forall j :: 0 <= j < |tokens| ==> tokens[j].codeSlot == s[j]
      {
        i := i - 1;
        CountsAt(s, |codeSlots|, i);
        tokens[i].codeCount := slot - tokens[i].codeSlot;
        slot := tokens[i].codeSlot;
      }
      assert SlotsOf(tokens) == s;
      assert CountsOf(tokens) == counts;
    }
  }

  /** The code slots `Encode(params Code[])` produces. */
  function EncodedAll(cs: Slots, codes: seq<Code>): (r: Slots)
    ensures |r| >= |cs| && r[..|cs|] == cs
    decreases |codes|
  {
    if codes == [] then cs
    else
      var e := Encoded(cs, CodeSlot(codes[0], 0));
      var r := EncodedAll(e, codes[1..]);
      assert r[..|cs|] == e[..|cs|];
      r
  }

  /** `MakeDictEntry` keeps the invariant, and the entry it returns satisfies it. */
  lemma MadeOk(t: Table<DictEntry>, key: string, made: DictEntry, exclusive: bool, cs: Slots)
    requires t.Valid() && EntriesOk(t, cs) && EntryOk(made, cs) && EntryFor(t, key, made, exclusive).Ok?
    ensures DictAfter(t, key, made, exclusive).Valid() && EntriesOk(DictAfter(t, key, made, exclusive), cs)
    ensures EntryOk(EntryFor(t, key, made, exclusive).value, cs)
  {
    if t.Get(key).None? {
      SetOk(t, key, made, cs);
    } else {
      GetOk(t, key, cs);
    }
  }

  /** Encoding keeps the layout and every pending patch. */
  lemma EncodedOk(t: Table<DictEntry>, cs: Slots, s: CodeSlot)
    ensures WellLaid(cs) ==> WellLaid(Encoded(cs, s))
    ensures EntriesOk(t, cs) ==> EntriesOk(t, Encoded(cs, s))
  {
    if WellLaid(cs) {
      EncodedLaid(cs, s);
    }
    if EntriesOk(t, cs) {
      GrowOk(t, cs, Encoded(cs, s));
    }
  }

  /** `Addr` keeps the invariant: the new patch index is the `Lit` just encoded. */
  lemma AddrOk(t: Table<DictEntry>, t1: Table<DictEntry>, key: string, entry: DictEntry, mid: Slots, cs: Slots)
    requires entry.LabelEntry? && EntryOk(entry, mid) && EntriesOk(t, mid) && t.Valid()
    requires |mid| < |cs| && cs[..|mid|] == mid && IsLit(cs[|mid|])
    requires t1 == if entry.patches.Some?
      then t.Set(key, LabelEntry(entry.codeSlot, Some(entry.patches.value + [|mid|]))) else t
    ensures EntriesOk(t1, cs) && t1.Valid()
  {
    GrowOk(t, mid, cs);
    if entry.patches.Some? {
      var ps := entry.patches.value + [|mid|];
      PatchTargetsGrow(entry.patches.value, mid, cs);
      SetOk(t, key, LabelEntry(entry.codeSlot, Some(ps)), cs);
    }
  }

  /** `Label` keeps the invariant: the padded list keeps its layout and the bound label has no patches. */
  lemma LabelOk(t: Table<DictEntry>, t1: Table<DictEntry>, key: string, padded: Slots, cs: Slots)
    requires EntriesOk(t, padded) && t.Valid() && WellLaid(padded) && SameCodes(padded, cs)
    requires |padded| % 8 == 0 && t1 == t.Set(key, LabelEntry(|padded|, None))
    ensures EntriesOk(t1, cs) && t1.Valid() && WellLaid(cs)
  {
    SameCodesOk(t, padded, cs);
    SetOk(t, key, LabelEntry(|padded|, None), cs);
    SameCodesLaid(padded, cs);
  }

  // ---------------------------------------------------------------------------
  // The fix-ups at the end of Parse

  function SlotsOf(ts: seq<Token>): (r: seq<int>)
    reads set t | t in ts
    ensures |r| == |ts| && forall i :: 0 <= i < |ts| ==> r[i] == ts[i].codeSlot
  {
    seq(|ts|, i reads set t | t in ts requires 0 <= i < |ts| => ts[i].codeSlot)
  }

  function CountsOf(ts: seq<Token>): (r: seq<int>)
    reads set t | t in ts
    ensures |r| == |ts| && forall i :: 0 <= i < |ts| ==> r[i] == ts[i].codeCount
  {
    seq(|ts|, i reads set t | t in ts requires 0 <= i < |ts| => ts[i].codeCount)
  }

  /** `slot = Math.Max(Tokens[i].CodeSlot, slot)` along the list, starting from m. */
  function RunningMax(s: seq<int>, m: int): (r: seq<int>)
    ensures |r| == |s|
    decreases |s|
  {
    if s == [] then []
    else
      var x := if s[0] > m then s[0] else m;
      [x] + RunningMax(s[1..], x)
  }

  /** Each fixed slot is the larger of the original slot and the fixed slot before it (m for the first). */
  lemma {:induction false} RunningMaxAt(s: seq<int>, m: int, i: nat)
    requires i < |s|
    ensures var before := if i == 0 then m else RunningMax(s, m)[i - 1];
      RunningMax(s, m)[i] == if s[i] > before then s[i] else before
    decreases i
  {
    if i > 0 {
      var x := if s[0] > m then s[0] else m;
      assert RunningMax(s, m) == [x] + RunningMax(s[1..], x);
      RunningMaxAt(s[1..], x, i - 1);
    }
  }

  predicate Sorted(s: seq<int>) {
    forall i, j :: 0 <= i < j < |s| ==> s[i] <= s[j]
  }

  /** The fixed slots are non-decreasing, at least m and at least the original slots. */
  lemma {:induction false} RunningMaxSorted(s: seq<int>, m: int)
    ensures Sorted(RunningMax(s, m))
    ensures forall i :: 0 <= i < |s| ==> m <= RunningMax(s, m)[i] && s[i] <= RunningMax(s, m)[i]
    decreases |s|
  {
    if s != [] {
      var x := if s[0] > m then s[0] else m;
      var rest := RunningMax(s[1..], x);
      RunningMaxSorted(s[1..], x);
      assert RunningMax(s, m) == [x] + rest;
      assert forall i :: 1 <= i < |s| ==> s[i] == s[1..][i - 1] && RunningMax(s, m)[i] == rest[i - 1];
    }
  }

  /** Slots that are already non-decreasing from m are left alone, so the fix-up is idempotent. */
  lemma {:induction false} RunningMaxFixed(s: seq<int>, m: int)
    requires Sorted(s) && (|s| > 0 ==> m <= s[0])
    ensures RunningMax(s, m) == s
    decreases |s|
  {
    if s != [] {
      assert Sorted(s[1..]) by {
        assert forall i :: 0 <= i < |s| - 1 ==> s[1..][i] == s[i + 1];
      }
      RunningMaxFixed(s[1..], s[0]);
      assert s == [s[0]] + s[1..];
    }
  }

  lemma RunningMaxTwice(s: seq<int>, m: int)
    ensures RunningMax(RunningMax(s, m), m) == RunningMax(s, m)
  {
    RunningMaxSorted(s, m);
    RunningMaxFixed(RunningMax(s, m), m);
  }

  /** Each count is the distance to the next token's slot (to `total` for the last). */
  function Counts(s: seq<int>, total: int): (r: seq<int>)
    ensures |r| == |s|
    decreases |s|
  {
    if s == [] then []
    else [(if |s| == 1 then total else s[1]) - s[0]] + Counts(s[1..], total)
  }

  /** Each count is the next slot (the total for the last) minus its own. */
  lemma {:induction false} CountsAt(s: seq<int>, total: int, i: nat)
    requires i < |s|
    ensures Counts(s, total)[i] == (if i + 1 < |s| then s[i + 1] else total) - s[i]
    decreases i
  {
    if i > 0 {
      CountsAt(s[1..], total, i - 1);
    }
  }

  function Sum(s: seq<int>): int
    decreases |s|
  {
    if s == [] then 0 else s[0] + Sum(s[1..])
  }

  /** The counts telescope: together they cover the slots from the first token's to the end. */
  lemma {:induction false} CountsTelescope(s: seq<int>, total: int)
    requires |s| > 0
    ensures Sum(Counts(s, total)) == total - s[0]
    decreases |s|
  {
    if |s| > 1 {
      CountsTelescope(s[1..], total);
    }
  }

  /** With non-decreasing slots up to the total, no count is negative. */
  lemma {:induction false} CountsNonNegative(s: seq<int>, total: int)
    requires Sorted(s) && (|s| > 0 ==> s[|s| - 1] <= total)
    ensures forall i :: 0 <= i < |s| ==> Counts(s, total)[i] >= 0
    decreases |s|
  {
    if s != [] {
      assert Sorted(s[1..]) by {
        assert forall i :: 0 <= i < |s| - 1 ==> s[1..][i] == s[i + 1];
      }
      CountsNonNegative(s[1..], total);
      assert forall i :: 1 <= i < |s| ==> Counts(s, total)[i] == Counts(s[1..], total)[i - 1];
    }
  }
}
