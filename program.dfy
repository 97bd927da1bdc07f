/**
 * Program.cs: the command line. Every argument that starts with `-` is a flag;
 * its values are the arguments after it up to the next flag. Flags compare
 * ignoring case and may not repeat. Without any flag the program compiles the
 * built-in test cases and opens the debugger. `Compile` then runs the compiler
 * passes the flags ask for.
 */
module CommandLine {
  import opened Wrappers
  import opened Records

  /** The flag map: a flag's values, or null for a flag inserted by default. */
  type ArgMap = Table<Option<seq<string>>>

  predicate IsFlag(a: string) {
    |a| > 0 && a[0] == '-'
  }

  /** `TakeWhile(a => !a.StartsWith("-"))`: the longest prefix of non-flags. */
  function NonFlags(s: seq<string>): (r: seq<string>)
    ensures |r| <= |s| && r == s[..|r|]
    ensures forall k :: 0 <= k < |r| ==> !IsFlag(r[k])
    ensures |r| < |s| ==> IsFlag(s[|r|])
  {
    if s == [] || IsFlag(s[0]) then []
    else
      var r := NonFlags(s[1..]);
      assert [s[0]] + r == s[..|r| + 1];
      [s[0]] + r
  }

  /** The positions of the flags from position i on, in order. */
  function FlagsFrom(args: seq<string>, i: nat): (r: seq<nat>)
    requires i <= |args|
    ensures forall k :: 0 <= k < |r| ==> i <= r[k] < |args| && IsFlag(args[r[k]])
    ensures forall k, l :: 0 <= k < l < |r| ==> r[k] < r[l]
    ensures forall j :: i <= j < |args| && IsFlag(args[j]) ==> j in r
    decreases |args| - i
  {
    if i == |args| then []
    else if IsFlag(args[i]) then [i] + FlagsFrom(args, i + 1)
    else FlagsFrom(args, i + 1)
  }

  /** The entry the flag at position j makes. */
  function Pair(args: seq<string>, j: nat): (string, Option<seq<string>>)
    requires j < |args|
  {
    (args[j], Some(NonFlags(args[j + 1..])))
  }

  /** The entries of the flags from position i on, in order. */
  function Pairs(args: seq<string>, i: nat): seq<(string, Option<seq<string>>)>
    requires i <= |args|
    decreases |args| - i
  {
    if i == |args| then []
    else if IsFlag(args[i]) then [Pair(args, i)] + Pairs(args, i + 1)
    else Pairs(args, i + 1)
  }

  /** The k-th entry is made by the k-th flag. */
  lemma {:induction false} PairsOfFlags(args: seq<string>, i: nat)
    requires i <= |args|
    ensures var fs, r := FlagsFrom(args, i), Pairs(args, i);
      |r| == |fs| && forall k :: 0 <= k < |r| ==> r[k] == Pair(args, fs[k])
    decreases |args| - i
  {
    if i < |args| {
      PairsOfFlags(args, i + 1);
    }
  }

  /** `ToDictionary` from position i on into t, throwing at the first repeated key. */
  function ArgMapFrom(args: seq<string>, i: nat, t: ArgMap): Result<ArgMap>
    requires i <= |args|
    decreases |args| - i
  {
    if i == |args| then Ok(t)
    else if IsFlag(args[i]) then
      match t.Add(args[i], Some(NonFlags(args[i + 1..])))
      case Err(e) => Err(e)
      case Ok(t1) => ArgMapFrom(args, i + 1, t1)
    else ArgMapFrom(args, i + 1, t)
  }

  /** The `argMap` comprehension of `Main`. */
  function MakeArgMap(args: seq<string>): Result<ArgMap> {
    ArgMapFrom(args, 0, Table([]))
  }

  lemma {:induction false} ArgMapFromPairs(args: seq<string>, i: nat, t: ArgMap)
    requires i <= |args| && t.Valid()
    ensures var r := ArgMapFrom(args, i, t);
      && (r.Ok? <==> Table(t.entries + Pairs(args, i)).Valid())
      && (r.Ok? ==> r.value.entries == t.entries + Pairs(args, i))
      && (r.Err? ==> r.error == DuplicateKey)
    decreases |args| - i
  {
    if i < |args| {
      var rest := Pairs(args, i + 1);
      if IsFlag(args[i]) {
        var p := Pair(args, i);
        var all := t.entries + ([p] + rest);
        assert all == (t.entries + [p]) + rest;
        match t.Add(p.0, p.1) {
          case Err(_) =>
            var j := t.Find(p.0);
            assert all[j] == t.entries[j] && all[|t.entries|] == p;
          case Ok(t1) =>
            ArgMapFromPairs(args, i + 1, t1);
        }
      } else {
        ArgMapFromPairs(args, i + 1, t);
      }
    }
  }

  /**
   * The map holds one entry per flag, in order, keyed by the flag as written and
   * holding the non-flag arguments after it; it is built exactly when no two
   * flags are equal ignoring case.
   */
  lemma ArgMapEntries(args: seq<string>)
    ensures var r := MakeArgMap(args);
      && (r.Ok? <==> Table(Pairs(args, 0)).Valid())
      && (r.Ok? ==> r.value.entries == Pairs(args, 0))
      && (r.Err? ==> r.error == DuplicateKey)
  {
    var empty: ArgMap := Table([]);
    var ps := Pairs(args, 0);
    ArgMapFromPairs(args, 0, empty);
    assert Table(empty.entries + ps) == Table(ps);
  }

  /** In a strictly increasing list a smaller element comes first. */
  lemma Increasing(fs: seq<nat>, a: nat, b: nat)
    requires forall k, l :: 0 <= k < l < |fs| ==> fs[k] < fs[l]
    requires a < |fs| && b < |fs| && fs[a] < fs[b]
    ensures a < b
  {
  }

  /** A flag given twice, in any letter case, makes the map throw. */
  lemma RepeatedFlag(args: seq<string>, i: nat, j: nat)
    requires i < j < |args| && IsFlag(args[i]) && IsFlag(args[j]) && Fold(args[i]) == Fold(args[j])
    ensures MakeArgMap(args) == Err(DuplicateKey)
  {
    PairsOfFlags(args, 0);
    var a := FlagIndex(args, i);
    var b := FlagIndex(args, j);
    Increasing(FlagsFrom(args, 0), a, b);
    KeysClash(Pairs(args, 0), a, b);
    ArgMapEntries(args);
  }

  /** The position of a flag among the flags. */
  lemma FlagIndex(args: seq<string>, i: nat) returns (a: nat)
    requires i < |args| && IsFlag(args[i])
    ensures a < |FlagsFrom(args, 0)| && FlagsFrom(args, 0)[a] == i
  {
    var fs := FlagsFrom(args, 0);
    assert i in fs;
    a :| 0 <= a < |fs| && fs[a] == i;
  }

  /** Two entries whose keys are equal ignoring case make a table invalid. */
  lemma KeysClash<V>(es: seq<(string, V)>, a: nat, b: nat)
    requires a < b < |es| && Fold(es[a].0) == Fold(es[b].0)
    ensures !Table(es).Valid()
  {
  }

  /** The flags `Main` inserts when none is given: test cases and the debugger. */
  const Defaults: ArgMap := Table([(DebugFlag, None), (TestCasesFlag, None)])

  const DebugFlag: string := "-debug"
  const TestCasesFlag: string := "-testcases"
  const FileFlag: string := "-f"
  const NoOptimizeFlag: string := "-nooptimize"
  const MifFlag: string := "-mif"
  const HexFlag: string := "-hex"

  /** `argMap["-testcases"] = argMap["-debug"] = null`: the inner assignment runs first. */
  function WithDefaults(t: ArgMap): (r: ArgMap)
    ensures t.Valid() ==> r.Valid() && r.Get(DebugFlag) == Some(None) && r.Get(TestCasesFlag) == Some(None)
    ensures forall k :: Fold(k) != Fold(DebugFlag) && Fold(k) != Fold(TestCasesFlag) ==> r.Get(k) == t.Get(k)
  {
    assert |Fold(DebugFlag)| != |Fold(TestCasesFlag)|;
    t.Set(DebugFlag, None).Set(TestCasesFlag, None)
  }

  /** On the empty map the two assignments make exactly the defaults, in that order. */
  lemma WithDefaultsEmpty(t: ArgMap)
    requires t.entries == []
    ensures WithDefaults(t) == Defaults
  {
    SetTwice(t, DebugFlag, TestCasesFlag, None);
  }

  /** Setting two keys of different lengths in an empty table appends both, in order. */
  lemma SetTwice<V>(t: Table<V>, a: string, b: string, v: V)
    requires t.entries == [] && |a| != |b|
    ensures t.Set(a, v).Set(b, v).entries == [(a, v), (b, v)]
  {
    var t1 := t.Set(a, v);
    assert t1.entries[1..] == [];
    assert |Fold(a)| != |Fold(b)|;
  }

  /** The options after `Main`'s default: the flag map, or the defaults when it is empty. */
  method Options(args: seq<string>) returns (r: Result<ArgMap>)
    ensures var m := MakeArgMap(args); m.Err? || m.value.entries != [] ==> r == m
    ensures var m := MakeArgMap(args); m.Ok? && m.value.entries == [] ==> r == Ok(Defaults)
  {
    r := MakeArgMap(args);
    if r.Ok? && r.value.entries == [] {
      WithDefaultsEmpty(r.value);
      r := Ok(WithDefaults(r.value));
    }
  }

  /** `argMap.At(key)`: the values, or null when the flag is absent or null. */
  function At(t: ArgMap, key: string): Option<seq<string>> {
    match t.Get(key)
    case Some(v) => v
    case None => None
  }

  /** `argMap.At(key)?.Length == 1`. */
  predicate Single(t: ArgMap, key: string) {
    At(t, key).Some? && |At(t, key).value| == 1
  }

  /** `argMap[key].Single()` when `argMap.At(key)?.Length == 1`. */
  function SingleValue(t: ArgMap, key: string): (r: Option<string>)
    ensures r.Some? <==> Single(t, key)
    ensures r.Some? ==> r.value == At(t, key).value[0]
  {
    if Single(t, key) then Some(At(t, key).value[0]) else None
  }

  /** The source `Compile` reads after the core library. */
  datatype Source = NoSource | SourceFile(path: string) | TestCaseSource

  /**
   * What `Compile` does besides the passes it always runs (`LoadCore`,
   * `PreCompile`, `Compile`, `PostCompile`): the source it reads, whether it
   * optimises, whether it generates coverage test cases, and the MIF and hex
   * files it writes.
   */
  datatype Passes = Passes(source: Source, optimize: bool, coverage: bool, mif: Option<string>, hex: Option<string>)

  /**
   * `Compile`: one source at most, the file when `-f` has exactly one value,
   * else the test cases when asked for; optimisation unless `-nooptimize`; each
   * output only when its flag has exactly one value.
   */
  method Compile(argMap: ArgMap) returns (passes: Passes)
    ensures passes.source.SourceFile? <==> Single(argMap, FileFlag)
    ensures passes.source.SourceFile? ==> passes.source.path == At(argMap, FileFlag).value[0]
    ensures passes.source == TestCaseSource <==> !Single(argMap, FileFlag) && argMap.ContainsKey(TestCasesFlag)
    ensures passes.optimize <==> !argMap.ContainsKey(NoOptimizeFlag)
    ensures passes.coverage <==> argMap.ContainsKey(TestCasesFlag)
    ensures passes.mif.Some? <==> Single(argMap, MifFlag)
    ensures passes.mif.Some? ==> passes.mif.value == At(argMap, MifFlag).value[0]
    ensures passes.hex.Some? <==> Single(argMap, HexFlag)
    ensures passes.hex.Some? ==> passes.hex.value == At(argMap, HexFlag).value[0]
  {
    var file := SingleValue(argMap, FileFlag);
    var testCases := argMap.ContainsKey(TestCasesFlag);
    var source := NoSource;
    if file.Some? {
      source := SourceFile(file.value);
    } else if testCases {
      source := TestCaseSource;
    }
    var optimize := !argMap.ContainsKey(NoOptimizeFlag);
    var mif := SingleValue(argMap, MifFlag);
    var hex := SingleValue(argMap, HexFlag);
    passes := Passes(source, optimize, testCases, mif, hex);
  }

  /** A two-entry table whose keys differ in length holds exactly those two keys. */
  lemma TwoKeys<V>(t: Table<V>)
    requires |t.entries| == 2 && |t.entries[0].0| != |t.entries[1].0|
    ensures t.Valid() && t.Find(t.entries[0].0) == 0 && t.Find(t.entries[1].0) == 1
    ensures forall key :: |key| != |t.entries[0].0| && |key| != |t.entries[1].0| ==> t.Find(key) < 0
  {
    assert t.entries[1..][1..] == [];
  }

  /** A table whose values are all null gives null for every key. */
  lemma NullValues(t: ArgMap)
    requires forall i :: 0 <= i < |t.entries| ==> t.entries[i].1 == None
    ensures forall key :: At(t, key) == None
  {
  }

  /**
   * The defaults open the debugger, compile the test cases with coverage and
   * optimise: they hold `-debug` and `-testcases` and not `-nooptimize`.
   */
  lemma DefaultKeys()
    ensures Defaults.Valid() && Defaults.ContainsKey(DebugFlag) && Defaults.ContainsKey(TestCasesFlag)
    ensures !Defaults.ContainsKey(NoOptimizeFlag)
  {
    TwoKeys(Defaults);
    assert |NoOptimizeFlag| == 11;
  }

  /** The defaults name no source file and no output file. */
  lemma DefaultNoFiles()
    ensures !Single(Defaults, FileFlag) && !Single(Defaults, MifFlag) && !Single(Defaults, HexFlag)
  {
    NullValues(Defaults);
  }

  /** No argument at all: the map is empty, so `Options` falls back to the defaults. */
  lemma NoArguments()
    ensures MakeArgMap([]) == Ok(Table([])) && Pairs([], 0) == []
  {
  }

  /** Flags compare ignoring case: `-f a -F b` is rejected. */
  lemma CaseInsensitiveFlags()
    ensures MakeArgMap([FileFlag, "a", "-F", "b"]) == Err(DuplicateKey)
  {
    var args := [FileFlag, "a", "-F", "b"];
    assert Fold(args[0]) == Fold(args[2]) by {
      assert Fold(FileFlag) == "-F" && Fold("-F") == "-F";
    }
    RepeatedFlag(args, 0, 2);
  }
}
