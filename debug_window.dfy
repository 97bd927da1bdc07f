/**
 * DebugWindow.xaml.cs: the debugger's source listing and its test check.
 *
 * The window keeps the compiler's tokens, the code counts they held when it
 * opened, whether macros are hidden, the listed lines (`SourceItems`, each as the
 * positions of the tokens it shows) and each line's test result. Loading the
 * listing is the loop of module MacroFolding; the test check walks the records
 * a test program leaves on the Forth stack.
 */
module DebugWindow {
  import opened Wrappers
  import opened Bits
  import opened MacroFolding
  import opened Simulator

  /** What the window reads of a token: its file, its line, whether a macro made it, its first code slot. */
  datatype TokenView = TokenView(file: string, y: int, isMacro: bool, codeSlot: int)

  /** Token i begins a line when it is the first or its file or line differs from the previous token's. */
  function LineStarts(ts: seq<TokenView>): (r: seq<bool>)
    ensures |r| == |ts| && (|ts| > 0 ==> r[0])
  {
    seq(|ts|, i requires 0 <= i < |ts| => i == 0 || ts[i - 1].file != ts[i].file || ts[i - 1].y != ts[i].y)
  }

  /** Token i is folded into the previous listed token when a macro made it and macros are hidden. */
  function MacroFlags(ts: seq<TokenView>, hiding: bool): (r: seq<bool>)
    ensures |r| == |ts|
  {
    seq(|ts|, i requires 0 <= i < |ts| => ts[i].isMacro && hiding)
  }

  /** The first code slot of every token. */
  function SlotsOf(ts: seq<TokenView>): (r: seq<int>)
    ensures |r| == |ts|
  {
    seq(|ts|, i requires 0 <= i < |ts| => ts[i].codeSlot)
  }

  /** What `LoadSource` leaves, from the counts c the tokens hold before it. */
  function Loaded(ts: seq<TokenView>, originals: seq<int>, hiding: bool, c: seq<int>): (r: (Layout, Option<Exception>))
    requires |originals| == |ts| && |c| == |ts|
    ensures |r.0.counts| == |ts|
  {
    Folded(MacroFlags(ts, hiding), LineStarts(ts), originals, c)
  }

  /** A line's test verdict and the record's values after its count and line number. */
  datatype Outcome = Succeeded(values: seq<int>) | Failed(values: seq<int>)

  /** The three counters the check reports. */
  datatype Tally = Tally(success: nat, fail: nat, invalid: nat)

  /** No line has a test result. */
  function Nones(n: nat): (r: seq<Option<Outcome>>)
    ensures |r| == n && forall k :: 0 <= k < n ==> r[k] == None
  {
    seq(n, _ => None)
  }

  /** `ForthStack.Reverse()`: the stack from its bottom. */
  function Reverse(s: seq<int>): (r: seq<int>)
    ensures |r| == |s| && forall k :: 0 <= k < |s| ==> r[k] == s[|s| - 1 - k]
  {
    seq(|s|, k requires 0 <= k < |s| => s[|s| - 1 - k])
  }

  class Window {
    const tokens: seq<TokenView>
    /** `_originalCodeCounts`, captured when the window opens. */
    const originalCounts: seq<int>
    /** Every token's `CodeCount`. */
    var counts: seq<int>
    var hideMacros: bool
    /** `SourceItems`: each line as the positions of the tokens it lists. */
    var items: seq<seq<nat>>
    /** Each line's `TestResult`; None is null. */
    var testResults: seq<Option<Outcome>>

    ghost predicate Valid()
      reads this
    {
      |originalCounts| == |counts| == |tokens| && |testResults| == |items|
    }

    /** The fields the constructor sets before its first `LoadSource`. */
    constructor(tokens: seq<TokenView>, counts: seq<int>)
      requires |counts| == |tokens|
      ensures Valid() && this.tokens == tokens && originalCounts == counts && this.counts == counts
      ensures hideMacros && items == [] && testResults == []
    {
      this.tokens := tokens;
      originalCounts := counts;
      this.counts := counts;
      hideMacros := true;
      items := [];
      testResults := [];
    }

    /**
     * `LoadSource`: the listing is rebuilt from the original counts, and
     * throws when a hidden macro token begins a line.
     */
    method LoadSource() returns (failure: Option<Exception>)
      requires Valid()
      modifies this`counts, this`items, this`testResults
      ensures Valid()
      ensures (Layout(items, counts), failure) == Loaded(tokens, originalCounts, hideMacros, old(counts))
      ensures testResults == Nones(|items|)
    {
      var lines, cs;
      lines, cs, failure := ListTokens(MacroFlags(tokens, hideMacros), LineStarts(tokens), originalCounts, counts);
      items, counts, testResults := lines, cs, Nones(|lines|);
    }

    /** `HideShowMacro_Click`: toggles hiding and reloads. */
    method HideShowMacro() returns (failure: Option<Exception>)
      requires Valid()
      modifies this`hideMacros, this`counts, this`items, this`testResults
      ensures Valid() && hideMacros == !old(hideMacros)
      ensures (Layout(items, counts), failure) == Loaded(tokens, originalCounts, hideMacros, old(counts))
    {
      hideMacros := !hideMacros;
      failure := LoadSource();
    }

    /** The nested `SourceItem.CodeSlot` of line j: its first token's slot. */
    function LineCodeSlot(j: nat): int
      reads this
      requires j < |items| && items[j] != [] && items[j][0] < |tokens|
    {
      tokens[items[j][0]].codeSlot
    }

    /** The nested `SourceItem.CodeCount` of line j: from its first slot to the end of its last token's code. */
    function LineCodeCount(j: nat): int
      reads this
      requires Valid() && j < |items| && items[j] != [] && items[j][0] < |tokens| && Last(items[j]) < |tokens|
    {
      tokens[Last(items[j])].codeSlot - tokens[items[j][0]].codeSlot + counts[Last(items[j])]
    }

    /**
     * `CheckTestButton_Click`: clears every line's result, then reads the
     * records on the Forth stack from its bottom and marks each record's line;
     * the tally, or the exception a bad line number throws.
     */
    method CheckTest(cpu: Cpu) returns (r: Result<Tally>)
      requires Valid()
      modifies this`testResults
      ensures Valid()
      ensures (r, testResults) == Scan(Reverse(cpu.ForthStack()), 0, Nones(|items|), Tally(0, 0, 0))
    {
      var results := Reverse(cpu.ForthStack());
      var marks;
      r, marks := CheckResults(results, Nones(|items|));
      testResults := marks;
    }
  }

  /** The loop of `CheckTestButton_Click` over the stack read from its bottom, with every line's result cleared. */
  method CheckResults(results: seq<int>, cleared: seq<Option<Outcome>>) returns (r: Result<Tally>, marks: seq<Option<Outcome>>)
    ensures (r, marks) == Scan(results, 0, cleared, Tally(0, 0, 0))
  {
    ghost var goal := Scan(results, 0, cleared, Tally(0, 0, 0));
    var success, fail, invalid := 0, 0, 0;
    marks := cleared;
    var i := 0;
    while i < |results|
      invariant 0 <= i <= |results| && invalid == 0
      invariant Scan(results, i, marks, Tally(success, fail, invalid)) == goal
      decreases |results| - i
    {
      var count := results[i];
      if count < 2 || i + count > |results| || count % 2 != 0 {
        invalid := invalid + 1;
        break;
      }
      var t, failure;
      marks, t, failure := CheckRecord(results, i, marks, Tally(success, fail, invalid));
      if failure.Some? {
        return Err(failure.value), marks;
      }
      success, fail := t.success, t.fail;
      i := i + count;
    }
    r := Ok(Tally(success, fail, invalid));
  }

  /**
   * One pass of the check's loop on the well-formed record at i: `Any` over
   * the record's two halves, then `fail++` or `success++`, then the mark on
   * its line, which throws when the line is not listed.
   */
  method CheckRecord(results: seq<int>, i: nat, marks: seq<Option<Outcome>>, t: Tally)
    returns (marks': seq<Option<Outcome>>, t': Tally, failure: Option<Exception>)
    requires i < |results| && Framed(results, i)
    ensures failure.None? <==> 1 <= results[i + 1] <= |marks|
    ensures failure.Some? ==> failure == Some(ArgumentOutOfRange) && marks' == marks
    ensures failure.None? ==> marks' == marks[results[i + 1] - 1 := Some(Verdict(results, i))]
    ensures failure.None? ==> t' == Counted(t, Verdict(results, i)) && t'.invalid == t.invalid
  {
    var count := results[i];
    var line, half := results[i + 1], count / 2 - 1;
    var failed := Any(results, i + 2, half);
    if failed {
      t' := t.(fail := t.fail + 1);
    } else {
      t' := t.(success := t.success + 1);
    }
    if !(1 <= line <= |marks|) {
      return marks, t', Some(ArgumentOutOfRange);
    }
    var values := results[i + 2..i + count];
    marks' := marks[line - 1 := Some(if failed then Failed(values) else Succeeded(values))];
    failure := None;
  }

  /**
   * `new DebugWindow(compiler, test)` as far as the listing goes: the counts are
   * captured, macros are hidden, and the first `LoadSource` may throw out of
   * the constructor.
   */
  method Open(tokens: seq<TokenView>, counts: seq<int>) returns (r: Result<Window>)
    requires |counts| == |tokens|
    ensures r.Ok? <==> Loaded(tokens, counts, true, counts).1.None?
    ensures r.Err? ==> r.error == NoElements
    ensures r.Ok? ==> fresh(r.value) && r.value.Valid() && r.value.tokens == tokens
    ensures r.Ok? ==> r.value.originalCounts == counts && r.value.hideMacros
    ensures r.Ok? ==> (Layout(r.value.items, r.value.counts), None) == Loaded(tokens, counts, true, counts)
  {
    var w := new Window(tokens, counts);
    var failure := w.LoadSource();
    if failure.Some? {
      FoldThrows(MacroFlags(tokens, true), LineStarts(tokens), counts, Layout([], counts), 0);
      return Err(failure.value);
    }
    return Ok(w);
  }

  /** `Enumerable.Range(from, items).Any(x => results[x] != results[x + items])`. */
  method Any(results: seq<int>, from: nat, items: nat) returns (found: bool)
    requires from + 2 * items <= |results|
    ensures found <==> Mismatch(results, from, items)
  {
    found := false;
    var x := from;
    while x < from + items && !found
      invariant from <= x <= from + items
      invariant found <==> exists y :: from <= y < x && results[y] != results[y + items]
    {
      found := results[x] != results[x + items];
      x := x + 1;
    }
  }

  /** Some expected value differs from the value found: `results[x] != results[x + items]` for an x in the record. */
  predicate Mismatch(results: seq<int>, from: nat, items: nat)
    requires from + 2 * items <= |results|
  {
    exists x :: from <= x < from + items && results[x] != results[x + items]
  }

  /** The record at i has an even count of at least two that fits in what is left. */
  predicate Framed(results: seq<int>, i: nat)
    requires i < |results|
  {
    var count := results[i];
    2 <= count && i + count <= |results| && count % 2 == 0
  }

  /**
   * The verdict on the well-formed record at i: its values after the count and
   * the line number, failed when an expected value differs from the one found.
   */
  function Verdict(results: seq<int>, i: nat): Outcome
    requires i < |results| && Framed(results, i)
  {
    var values := results[i + 2..i + results[i]];
    if Mismatch(results, i + 2, results[i] / 2 - 1) then Failed(values) else Succeeded(values)
  }

  /** `fail++` or `success++`. */
  function Counted(t: Tally, o: Outcome): Tally {
    if o.Failed? then t.(fail := t.fail + 1) else t.(success := t.success + 1)
  }

  /**
   * The check's loop from record i, with the results marked so far and the
   * counters reached: the first malformed record counts as invalid and stops
   * the walk; a line number outside the listing throws.
   */
  function Scan(results: seq<int>, i: nat, marks: seq<Option<Outcome>>, t: Tally): (r: (Result<Tally>, seq<Option<Outcome>>))
    ensures |r.1| == |marks|
    decreases |results| - i
  {
    if i >= |results| then (Ok(t), marks)
    else if !Framed(results, i) then (Ok(t.(invalid := t.invalid + 1)), marks)
    else if !(1 <= results[i + 1] <= |marks|) then (Err(ArgumentOutOfRange), marks)
    else
      var o := Verdict(results, i);
      Scan(results, i + results[i], marks[results[i + 1] - 1 := Some(o)], Counted(t, o))
  }

  /** A verdict agrees with its values: an even number of them, and success exactly when both halves are equal. */
  predicate Judged(o: Outcome) {
    |o.values| % 2 == 0 && (o.Succeeded? <==> o.values[..|o.values| / 2] == o.values[|o.values| / 2..])
  }

  predicate AllJudged(marks: seq<Option<Outcome>>) {
    forall k :: 0 <= k < |marks| && marks[k].Some? ==> Judged(marks[k].value)
  }

  /** A mismatch is a difference between the expected half of the record and the half found. */
  lemma MismatchHalves(results: seq<int>, from: nat, items: nat)
    requires from + 2 * items <= |results|
    ensures Mismatch(results, from, items) <==> results[from..from + items] != results[from + items..from + 2 * items]
  {
    var a, b := results[from..from + items], results[from + items..from + 2 * items];
    if Mismatch(results, from, items) {
      var x :| from <= x < from + items && results[x] != results[x + items];
      assert a[x - from] != b[x - from];
    } else {
      assert forall k :: 0 <= k < items ==> a[k] == results[from + k] == results[from + k + items] == b[k];
    }
  }

  /** The verdict on a well-formed record agrees with its values. */
  lemma VerdictJudged(results: seq<int>, i: nat)
    requires i < |results| && Framed(results, i)
    ensures Judged(Verdict(results, i))
  {
    var count := results[i];
    var items := count / 2 - 1;
    var values := results[i + 2..i + count];
    MismatchHalves(results, i + 2, items);
    assert values[..items] == results[i + 2..i + 2 + items];
    assert values[items..] == results[i + 2 + items..i + 2 + 2 * items];
  }

  /** Every line the check marks carries a verdict that agrees with its record's values. */
  lemma {:induction false} ScanJudged(results: seq<int>, i: nat, marks: seq<Option<Outcome>>, t: Tally)
    requires AllJudged(marks)
    ensures AllJudged(Scan(results, i, marks, t).1)
    decreases |results| - i
  {
    if i < |results| && Framed(results, i) && 1 <= results[i + 1] <= |marks| {
      var o := Verdict(results, i);
      VerdictJudged(results, i);
      ScanJudged(results, i + results[i], marks[results[i + 1] - 1 := Some(o)], Counted(t, o));
    }
  }

  /**
   * The walk stops at the first malformed record, so the invalid counter grows
   * by at most one; the other counters never go down.
   */
  lemma {:induction false} ScanInvalidOnce(results: seq<int>, i: nat, marks: seq<Option<Outcome>>, t: Tally)
    ensures var r := Scan(results, i, marks, t).0;
      r.Ok? ==> t.invalid <= r.value.invalid <= t.invalid + 1 && t.success <= r.value.success && t.fail <= r.value.fail
    decreases |results| - i
  {
    if i < |results| && Framed(results, i) && 1 <= results[i + 1] <= |marks| {
      var o := Verdict(results, i);
      ScanInvalidOnce(results, i + results[i], marks[results[i + 1] - 1 := Some(o)], Counted(t, o));
    }
  }

  /** The number of well-formed records the walk from i passes before the first malformed one or the end. */
  function RecordCount(results: seq<int>, i: nat): nat
    decreases |results| - i
  {
    if i >= |results| || !Framed(results, i) then 0 else 1 + RecordCount(results, i + results[i])
  }

  /** Every record the walk passes counts once, as a success or a failure. */
  lemma {:induction false} ScanCountsRecords(results: seq<int>, i: nat, marks: seq<Option<Outcome>>, t: Tally)
    ensures var r := Scan(results, i, marks, t).0;
      r.Ok? ==> r.value.success + r.value.fail == t.success + t.fail + RecordCount(results, i)
    decreases |results| - i
  {
    if i < |results| && Framed(results, i) && 1 <= results[i + 1] <= |marks| {
      var o := Verdict(results, i);
      ScanCountsRecords(results, i + results[i], marks[results[i + 1] - 1 := Some(o)], Counted(t, o));
    }
  }

  /** From record i on, every record is well formed and the last one ends the stack. */
  predicate Chained(results: seq<int>, i: nat)
    decreases |results| - i
  {
    i >= |results| || (Framed(results, i) && Chained(results, i + results[i]))
  }

  /** A stack that ends exactly after its last well-formed record is never reported invalid. */
  lemma {:induction false} ScanEndsValid(results: seq<int>, i: nat, marks: seq<Option<Outcome>>, t: Tally)
    requires Chained(results, i)
    ensures var r := Scan(results, i, marks, t).0; r.Ok? ==> r.value.invalid == t.invalid
    decreases |results| - i
  {
    if i < |results| && 1 <= results[i + 1] <= |marks| {
      var o := Verdict(results, i);
      ScanEndsValid(results, i + results[i], marks[results[i + 1] - 1 := Some(o)], Counted(t, o));
    }
  }

  /** `int.MaxValue`. */
  const Int32Max: int := Two31 - 1
  /** The most elements an `int[]` can hold. */
  const MaxArrayLength: int := 0x7FFF_FFC7

  /**
   * `Enumerable.Range(x, end - x).Any(y => results[y] != results[y + items])`
   * with C#'s wrapping `+`: the first index out of range throws.
   */
  function AnyAsWritten(results: seq<int>, x: nat, end: int, items: int): (r: Result<bool>)
    decreases end - x
  {
    if x >= end then Ok(false)
    else if x >= |results| then Err(IndexOutOfRange)
    else
      var y := Wrap32(x + items);
      if !(0 <= y < |results|) then Err(IndexOutOfRange)
      else if results[x] != results[y] then Ok(true)
      else AnyAsWritten(results, x + 1, end, items)
  }

  /** The written verdict: `results.Skip(i + 2).Take(count - 2)`, which stops at the end of the stack. */
  function VerdictAsWritten(results: seq<int>, i: nat, count: int, failed: bool): Outcome
    requires i + 2 <= |results| && 2 <= count
  {
    var stop := if i + count <= |results| then i + count else |results|;
    var values := results[i + 2..stop];
    if failed then Failed(values) else Succeeded(values)
  }

  /**
   * The check's loop as written, on C# ints: `i + count` wraps, so a huge count
   * passes the bounds test, and the reads it then makes throw.
   */
  function ScanAsWritten(results: seq<int>, i: int, marks: seq<Option<Outcome>>, t: Tally): (r: (Result<Tally>, seq<Option<Outcome>>))
    requires |results| <= MaxArrayLength && |marks| <= Int32Max && IsInt32(i)
    requires forall k :: 0 <= k < |results| ==> IsInt32(results[k])
    ensures |r.1| == |marks|
    decreases if 0 <= i then |results| - i + 1 else 0
  {
    if i >= |results| then (Ok(t), marks)
    else if i < 0 then (Err(IndexOutOfRange), marks)
    else
      var count := results[i];
      if count < 2 || Wrap32(i + count) > |results| || count % 2 != 0 then (Ok(t.(invalid := t.invalid + 1)), marks)
      else if i + 1 >= |results| then (Err(IndexOutOfRange), marks)
      else if i + 2 + (count / 2 - 1) - 1 > Int32Max then (Err(ArgumentOutOfRange), marks)
      else
        var any := AnyAsWritten(results, i + 2, i + 2 + (count / 2 - 1), count / 2 - 1);
        var slot := Wrap32(results[i + 1] - 1);
        if any.Err? then (Err(any.error), marks)
        else if !(0 <= slot < |marks|) then (Err(ArgumentOutOfRange), marks)
        else
          var o := VerdictAsWritten(results, i, count, any.value);
          var next := Wrap32(i + count);
          assert next < 0 || next == i + count;
          ScanAsWritten(results, next, marks[slot := Some(o)], Counted(t, o))
  }

  /** Without wrap-around, the written `Any` is the mismatch test. */
  lemma {:induction false} AnyAgrees(results: seq<int>, from: nat, x: nat, items: nat)
    requires from <= x <= from + items && from + 2 * items <= |results| <= MaxArrayLength
    requires !exists y :: from <= y < x && results[y] != results[y + items]
    ensures AnyAsWritten(results, x, from + items, items) == Ok(Mismatch(results, from, items))
    decreases from + items - x
  {
    if x < from + items {
      assert Wrap32(x + items) == x + items;
      if results[x] == results[x + items] {
        AnyAgrees(results, from, x + 1, items);
      }
    }
  }

  /** Every value leaves room for the stack's length, so no `i + count` wraps. */
  predicate Small(results: seq<int>) {
    forall k :: 0 <= k < |results| ==> IsInt32(results[k]) && results[k] <= Int32Max - |results|
  }

  /** A line number is in the listing after the written `line - 1` exactly when it is before. */
  lemma SlotAgrees(line: int, n: nat)
    requires IsInt32(line) && n <= Int32Max
    ensures 0 <= Wrap32(line - 1) < n <==> 1 <= line <= n
  {
    if line - 1 >= -Two31 {
      assert Wrap32(line - 1) == line - 1;
    } else {
      assert Wrap32(line - 1) == Int32Max;
    }
  }

  /** Without wrap-around the written check takes the same step at record i as the corrected one. */
  lemma RecordAgrees(results: seq<int>, i: nat, marks: seq<Option<Outcome>>)
    requires |results| <= MaxArrayLength && |marks| <= Int32Max && i < |results| && Small(results)
    ensures Wrap32(i + results[i]) == i + results[i]
    ensures Framed(results, i) ==>
      && AnyAsWritten(results, i + 2, i + 2 + (results[i] / 2 - 1), results[i] / 2 - 1) == Ok(Mismatch(results, i + 2, results[i] / 2 - 1))
      && VerdictAsWritten(results, i, results[i], Mismatch(results, i + 2, results[i] / 2 - 1)) == Verdict(results, i)
      && (0 <= Wrap32(results[i + 1] - 1) < |marks| <==> 1 <= results[i + 1] <= |marks|)
  {
    var count := results[i];
    assert IsInt32(count) && count <= Int32Max - |results|;
    assert IsInt32(i + count);
    if Framed(results, i) {
      AnyAgrees(results, i + 2, i + 2, count / 2 - 1);
      SlotAgrees(results[i + 1], |marks|);
    }
  }

  /** When no sum wraps, the check as written is the corrected one. */
  lemma {:induction false} AsWrittenAgrees(results: seq<int>, i: nat, marks: seq<Option<Outcome>>, t: Tally)
    requires |results| <= MaxArrayLength && |marks| <= Int32Max && i <= |results| && Small(results)
    ensures ScanAsWritten(results, i, marks, t) == Scan(results, i, marks, t)
    decreases |results| - i
  {
    if i < |results| {
      RecordAgrees(results, i, marks);
      if Framed(results, i) && 1 <= results[i + 1] <= |marks| {
        var o := Verdict(results, i);
        AsWrittenAgrees(results, i + results[i], marks[results[i + 1] - 1 := Some(o)], Counted(t, o));
      }
    }
  }

  /** The stack, bottom first, that makes the written check throw where the corrected one reports a bad record. */
  const WrappingStack: seq<int> := [2, 1, 2147483646, 1, 0]

  /**
   * The record count 2147483646 at position 2 makes `i + count` wrap to a
   * negative number, so the bounds test passes and `Any` reads past the end.
   */
  lemma WrappedCountThrows()
    ensures ScanAsWritten(WrappingStack, 0, [None], Tally(0, 0, 0)).0 == Err(IndexOutOfRange)
    ensures Scan(WrappingStack, 0, [None], Tally(0, 0, 0)).0 == Ok(Tally(1, 0, 1))
  {
    var rs := WrappingStack;
    var m := [Some(Succeeded([]))];
    assert Wrap32(0 + 2) == 2 && Wrap32(1 - 1) == 0;
    assert [None][0 := Some(Succeeded([]))] == m;
    assert Counted(Tally(0, 0, 0), Succeeded([])) == Tally(1, 0, 0);
    assert AnyAsWritten(rs, 2, 2, 0) == Ok(false);
    assert VerdictAsWritten(rs, 0, 2, false) == Succeeded([]);
    assert ScanAsWritten(rs, 0, [None], Tally(0, 0, 0)) == ScanAsWritten(rs, 2, m, Tally(1, 0, 0));
    assert Wrap32(2 + 2147483646) == -Two31;
    assert Wrap32(4 + 1073741822) == 1073741826;
    assert AnyAsWritten(rs, 4, 1073741826, 1073741822) == Err(IndexOutOfRange);
    assert ScanAsWritten(rs, 2, m, Tally(1, 0, 0)).0 == Err(IndexOutOfRange);
    assert !Mismatch(rs, 2, 0) && Verdict(rs, 0) == Succeeded([]);
    assert Scan(rs, 0, [None], Tally(0, 0, 0)) == Scan(rs, 2, m, Tally(1, 0, 0));
    assert !Framed(rs, 2);
  }

  /** Hiding macros throws exactly when a macro token begins a line. */
  lemma HiddenMacroThrows(ts: seq<TokenView>, originals: seq<int>, c: seq<int>)
    requires |originals| == |ts| && |c| == |ts|
    ensures var r := Loaded(ts, originals, true, c);
      (r.1.Some? <==> exists p :: 0 <= p < |ts| && ts[p].isMacro && LineStarts(ts)[p])
      && (r.1.Some? ==> r.1 == Some(NoElements))
  {
    Listing(MacroFlags(ts, true), LineStarts(ts), originals, c);
  }

  /** The positions 0 to n - 1. */
  function Upto(n: nat): (r: seq<nat>)
    ensures |r| == n && forall k :: 0 <= k < n ==> r[k] == k
  {
    seq(n, k requires 0 <= k < n => k)
  }

  lemma {:induction false} KeptNone(ts: seq<TokenView>, n: nat)
    requires n <= |ts|
    ensures Kept(MacroFlags(ts, false), n) == Upto(n)
  {
    if n > 0 {
      KeptNone(ts, n - 1);
      assert Upto(n) == Upto(n - 1) + [n - 1];
    }
  }

  /** With macros shown the load never throws, and the lines list every token once, in order. */
  lemma ShownListsAll(ts: seq<TokenView>, originals: seq<int>, c: seq<int>)
    requires |originals| == |ts| && |c| == |ts|
    ensures var r := Loaded(ts, originals, false, c);
      r.1.None? && Flatten(r.0.items) == Upto(|ts|)
  {
    Listing(MacroFlags(ts, false), LineStarts(ts), originals, c);
    KeptNone(ts, |ts|);
  }

  /**
   * Once loaded from the compiler's counts, each line's code ends where the next
   * line's begins, and the last line's at the end of the code.
   */
  lemma LoadedLinesTile(w: Window, c: seq<int>, total: int)
    requires w.Valid() && |c| == |w.tokens| && Telescoping(SlotsOf(w.tokens), total, w.originalCounts)
    requires (Layout(w.items, w.counts), None) == Loaded(w.tokens, w.originalCounts, w.hideMacros, c)
    ensures forall j :: 0 <= j < |w.items| ==>
      && w.items[j] != [] && w.items[j][0] < |w.tokens| && Last(w.items[j]) < |w.tokens|
      && w.LineCodeSlot(j) + w.LineCodeCount(j) == (if j + 1 < |w.items| && w.items[j + 1] != [] && w.items[j + 1][0] < |w.tokens| then w.LineCodeSlot(j + 1) else total)
  {
    var slots := SlotsOf(w.tokens);
    var hidden, starts := MacroFlags(w.tokens, w.hideMacros), LineStarts(w.tokens);
    LinesTile(hidden, starts, w.originalCounts, c, slots, total);
    var r := Folded(hidden, starts, w.originalCounts, c);
    assert r.0 == Layout(w.items, w.counts);
    forall j | 0 <= j < |w.items|
      ensures w.items[j] != [] && w.items[j][0] < |w.tokens| && Last(w.items[j]) < |w.tokens|
      ensures w.LineCodeSlot(j) + w.LineCodeCount(j) == (if j + 1 < |w.items| && w.items[j + 1] != [] && w.items[j + 1][0] < |w.tokens| then w.LineCodeSlot(j + 1) else total)
    {
      assert w.items[j][0] < |w.tokens| && Last(w.items[j]) < |w.tokens|;
      if j + 1 < |w.items| {
        assert w.items[j + 1][0] < |w.tokens|;
      }
    }
  }
}
