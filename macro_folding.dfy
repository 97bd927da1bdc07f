/**
 * The loop that `DebugWindow.LoadSource` and `SourceItem.DisplayTokens` share.
 * The tokens are listed line by line. Each token's `CodeCount` is first restored
 * from the counts captured when the window or the item was made. A hidden
 * (macro) token is not listed: its count is added to the last listed token, and
 * `Last()` throws when the current line has no listed token yet.
 *
 * A token is known here by its position; `hidden` and `starts` say, per token,
 * whether it is hidden and whether it begins a new line.
 */
module MacroFolding {
  import opened Wrappers

  /** The lines listed so far, as token positions, and every token's current `CodeCount`. */
  datatype Layout = Layout(items: seq<seq<nat>>, counts: seq<int>)

  function Last<T>(s: seq<T>): T
    requires |s| > 0
  {
    s[|s| - 1]
  }

  /** Every position in the lines is below i. */
  predicate Below(items: seq<seq<nat>>, i: nat) {
    forall j, m :: 0 <= j < |items| && 0 <= m < |items[j]| ==> items[j][m] < i
  }

  /** One flag of each kind and one original count per token; the first token begins a line. */
  predicate Shape(hidden: seq<bool>, starts: seq<bool>, orig: seq<int>) {
    |hidden| == |starts| == |orig| && (|starts| > 0 ==> starts[0])
  }

  /** A state the loop can be in before token i. */
  predicate At(hidden: seq<bool>, starts: seq<bool>, orig: seq<int>, st: Layout, i: nat) {
    Shape(hidden, starts, orig) && i <= |orig| && |st.counts| == |orig|
    && Below(st.items, i) && (i == 0 <==> st.items == [])
  }

  /** The loop body at token i: the state it leaves and the exception it throws, if any. */
  function Step(hidden: seq<bool>, starts: seq<bool>, orig: seq<int>, st: Layout, i: nat): (r: (Layout, Option<Exception>))
    requires At(hidden, starts, orig, st, i) && i < |orig|
    ensures r.1.None? ==> At(hidden, starts, orig, r.0, i + 1)
    ensures r.1.Some? ==> r.1 == Some(NoElements)
  {
    var counts := st.counts[i := orig[i]];
    var items := if starts[i] then st.items + [[]] else st.items;
    if !hidden[i] then
      var added := items[|items| - 1 := Last(items) + [i]];
      assert forall j :: 0 <= j < |added| - 1 ==> added[j] == st.items[j];
      (Layout(added, counts), None)
    else if Last(items) == [] then (Layout(items, counts), Some(NoElements))
    else
      var k := Last(Last(items));
      (Layout(items, counts[k := counts[k] + counts[i]]), None)
  }

  /** The loop from token i on: the state it ends in and the exception that stopped it, if any. */
  function FoldFrom(hidden: seq<bool>, starts: seq<bool>, orig: seq<int>, st: Layout, i: nat): (r: (Layout, Option<Exception>))
    requires At(hidden, starts, orig, st, i)
    ensures |r.0.counts| == |orig|
    ensures r.1.None? ==> At(hidden, starts, orig, r.0, |orig|)
    decreases |orig| - i
  {
    if i == |orig| then (st, None)
    else
      var r := Step(hidden, starts, orig, st, i);
      if r.1.Some? then r else FoldFrom(hidden, starts, orig, r.0, i + 1)
  }

  /** The whole loop, from no lines and the counts the tokens hold before it. */
  function Folded(hidden: seq<bool>, starts: seq<bool>, orig: seq<int>, counts: seq<int>): (r: (Layout, Option<Exception>))
    requires Shape(hidden, starts, orig) && |counts| == |orig|
    ensures |r.0.counts| == |orig|
    ensures r.1.None? ==> At(hidden, starts, orig, r.0, |orig|)
  {
    FoldFrom(hidden, starts, orig, Layout([], counts), 0)
  }

  /** The tokens to list: the positions below n that are not hidden, in order. */
  function Kept(hidden: seq<bool>, n: nat): seq<nat>
    requires n <= |hidden|
  {
    if n == 0 then [] else Kept(hidden, n - 1) + (if hidden[n - 1] then [] else [n - 1])
  }

  /** The kept positions are below n, not hidden, increasing, and every such position is kept. */
  lemma {:induction false} KeptFacts(hidden: seq<bool>, n: nat)
    requires n <= |hidden|
    ensures var r := Kept(hidden, n);
      && (forall k :: 0 <= k < |r| ==> r[k] < n && !hidden[r[k]])
      && (forall k, l :: 0 <= k < l < |r| ==> r[k] < r[l])
      && (forall p :: 0 <= p < n && !hidden[p] ==> p in r)
  {
    if n > 0 {
      KeptFacts(hidden, n - 1);
    }
  }

  /** The lines one after the other. */
  function Flatten(items: seq<seq<nat>>): seq<nat> {
    if items == [] then [] else Flatten(items[..|items| - 1]) + Last(items)
  }

  /** The sum of the counts of the kept tokens below n. */
  function ListedSum(hidden: seq<bool>, c: seq<int>, n: nat): int
    requires n <= |hidden| && n <= |c|
  {
    if n == 0 then 0 else ListedSum(hidden, c, n - 1) + (if hidden[n - 1] then 0 else c[n - 1])
  }

  /** The sum of the first n counts. */
  function Total(c: seq<int>, n: nat): int
    requires n <= |c|
  {
    if n == 0 then 0 else Total(c, n - 1) + c[n - 1]
  }

  /** The lines list the kept tokens below i, in order. */
  ghost predicate Ordered(hidden: seq<bool>, st: Layout, i: nat) {
    i <= |hidden| && Flatten(st.items) == Kept(hidden, i)
  }

  /**
   * Every line is non-empty and lists no hidden token; its first token begins a
   * line and no other does.
   */
  ghost predicate Lined(hidden: seq<bool>, starts: seq<bool>, items: seq<seq<nat>>) {
    && |hidden| == |starts|
    && (forall j, m :: 0 <= j < |items| && 0 <= m < |items[j]| ==> items[j][m] < |hidden| && !hidden[items[j][m]])
    && forall j :: 0 <= j < |items| ==>
      && items[j] != [] && starts[items[j][0]]
      && forall m :: 0 < m < |items[j]| ==> !starts[items[j][m]]
  }

  /** The listed counts add up to the original counts below i; hidden tokens hold their original counts. */
  ghost predicate Summed(hidden: seq<bool>, orig: seq<int>, st: Layout, i: nat) {
    && i <= |orig| == |hidden| == |st.counts|
    && ListedSum(hidden, st.counts, i) == Total(orig, i)
    && (forall p :: 0 <= p < i && hidden[p] ==> st.counts[p] == orig[p])
  }

  /** What holds before token i once the loop has come that far without throwing. */
  ghost predicate Good(hidden: seq<bool>, starts: seq<bool>, orig: seq<int>, st: Layout, i: nat) {
    At(hidden, starts, orig, st, i) && Ordered(hidden, st, i) && Lined(hidden, starts, st.items) && Summed(hidden, orig, st, i)
  }

  /** Opening a line and listing x in it adds the line [x]. */
  lemma NewLineWith(items: seq<seq<nat>>, x: nat)
    ensures var added := items + [[]]; added[|added| - 1 := Last(added) + [x]] == items + [[x]]
  {
    var added := items + [[]];
    assert Last(added) + [x] == [x];
  }

  lemma FlattenNewLine(items: seq<seq<nat>>)
    ensures Flatten(items + [[]]) == Flatten(items)
  {
    assert (items + [[]])[..|items|] == items;
  }

  lemma FlattenAppend(items: seq<seq<nat>>, x: nat)
    requires items != []
    ensures Flatten(items[|items| - 1 := Last(items) + [x]]) == Flatten(items) + [x]
  {
    var added := items[|items| - 1 := Last(items) + [x]];
    assert added[..|added| - 1] == items[..|items| - 1];
  }

  lemma {:induction false} ListedSumOutside(hidden: seq<bool>, c: seq<int>, n: nat, k: nat, v: int)
    requires n <= |hidden| && n <= |c| && n <= k < |c|
    ensures ListedSum(hidden, c[k := v], n) == ListedSum(hidden, c, n)
  {
    if n > 0 {
      ListedSumOutside(hidden, c, n - 1, k, v);
    }
  }

  /** Adding d to the count of a kept token below n adds d to the sum. */
  lemma {:induction false} ListedSumAdd(hidden: seq<bool>, c: seq<int>, n: nat, k: nat, d: int)
    requires n <= |hidden| && n <= |c| && k < n && !hidden[k]
    ensures ListedSum(hidden, c[k := c[k] + d], n) == ListedSum(hidden, c, n) + d
  {
    if k < n - 1 {
      ListedSumAdd(hidden, c, n - 1, k, d);
    } else {
      ListedSumOutside(hidden, c, n - 1, k, c[k] + d);
    }
  }

  /** The step throws exactly at a hidden token that begins a line. */
  lemma StepThrows(hidden: seq<bool>, starts: seq<bool>, orig: seq<int>, st: Layout, i: nat)
    requires At(hidden, starts, orig, st, i) && Lined(hidden, starts, st.items) && i < |orig|
    ensures Step(hidden, starts, orig, st, i).1.Some? <==> hidden[i] && starts[i]
  {
    if !starts[i] {
      assert st.items != [] && Last(st.items) == st.items[|st.items| - 1];
    }
  }

  lemma StepOrdered(hidden: seq<bool>, starts: seq<bool>, orig: seq<int>, st: Layout, i: nat)
    requires At(hidden, starts, orig, st, i) && Ordered(hidden, st, i) && i < |orig|
    requires Step(hidden, starts, orig, st, i).1.None?
    ensures Ordered(hidden, Step(hidden, starts, orig, st, i).0, i + 1)
  {
    var items := if starts[i] then st.items + [[]] else st.items;
    if starts[i] {
      FlattenNewLine(st.items);
    }
    if hidden[i] {
      assert Kept(hidden, i + 1) == Kept(hidden, i);
      assert Step(hidden, starts, orig, st, i).0.items == items;
    } else {
      assert Kept(hidden, i + 1) == Kept(hidden, i) + [i];
      FlattenAppend(items, i);
      assert Step(hidden, starts, orig, st, i).0.items == items[|items| - 1 := Last(items) + [i]];
    }
  }

  lemma StepLined(hidden: seq<bool>, starts: seq<bool>, orig: seq<int>, st: Layout, i: nat)
    requires At(hidden, starts, orig, st, i) && Lined(hidden, starts, st.items) && i < |orig|
    requires Step(hidden, starts, orig, st, i).1.None?
    ensures Lined(hidden, starts, Step(hidden, starts, orig, st, i).0.items)
  {
    var r := Step(hidden, starts, orig, st, i).0.items;
    var n := |st.items|;
    if hidden[i] {
      StepThrows(hidden, starts, orig, st, i);
      assert r == st.items;
    } else if starts[i] {
      NewLineWith(st.items, i);
      assert r == st.items + [[i]];
      assert forall j :: 0 <= j < n ==> r[j] == st.items[j];
    } else {
      assert r == st.items[n - 1 := Last(st.items) + [i]];
      assert forall j :: 0 <= j < n - 1 ==> r[j] == st.items[j];
      assert r[n - 1][0] == st.items[n - 1][0];
    }
  }

  lemma StepSummed(hidden: seq<bool>, starts: seq<bool>, orig: seq<int>, st: Layout, i: nat)
    requires At(hidden, starts, orig, st, i) && Lined(hidden, starts, st.items)
    requires Summed(hidden, orig, st, i) && i < |orig|
    requires Step(hidden, starts, orig, st, i).1.None?
    ensures Summed(hidden, orig, Step(hidden, starts, orig, st, i).0, i + 1)
  {
    var counts := st.counts[i := orig[i]];
    var r := Step(hidden, starts, orig, st, i).0;
    ListedSumOutside(hidden, st.counts, i, i, orig[i]);
    if !hidden[i] {
      assert r.counts == counts;
    } else {
      StepThrows(hidden, starts, orig, st, i);
      var last := Last(st.items);
      var k := Last(last);
      assert k < i && !hidden[k];
      assert r.counts == counts[k := counts[k] + orig[i]];
      ListedSumAdd(hidden, counts, i, k, orig[i]);
    }
  }

  lemma StepGood(hidden: seq<bool>, starts: seq<bool>, orig: seq<int>, st: Layout, i: nat)
    requires Good(hidden, starts, orig, st, i) && i < |orig|
    ensures Step(hidden, starts, orig, st, i).1.Some? <==> hidden[i] && starts[i]
    ensures Step(hidden, starts, orig, st, i).1.None? ==> Good(hidden, starts, orig, Step(hidden, starts, orig, st, i).0, i + 1)
  {
    StepThrows(hidden, starts, orig, st, i);
    if Step(hidden, starts, orig, st, i).1.None? {
      StepOrdered(hidden, starts, orig, st, i);
      StepLined(hidden, starts, orig, st, i);
      StepSummed(hidden, starts, orig, st, i);
    }
  }

  lemma {:induction false} FoldGood(hidden: seq<bool>, starts: seq<bool>, orig: seq<int>, st: Layout, i: nat)
    requires Good(hidden, starts, orig, st, i)
    ensures var r := FoldFrom(hidden, starts, orig, st, i);
      && (r.1.None? <==> forall p :: i <= p < |orig| ==> !(hidden[p] && starts[p]))
      && (r.1.None? ==> Good(hidden, starts, orig, r.0, |orig|))
    decreases |orig| - i
  {
    if i < |orig| {
      StepGood(hidden, starts, orig, st, i);
      var r := Step(hidden, starts, orig, st, i);
      if r.1.None? {
        FoldGood(hidden, starts, orig, r.0, i + 1);
      }
    }
  }

  /**
   * The loop throws exactly when a hidden token begins a line. Otherwise the
   * lines list every token that is not hidden, in order; every line is
   * non-empty, begins with a token that begins a line and holds no other such
   * token; the listed counts add up to all the original counts; and every
   * hidden token holds its original count.
   */
  lemma Listing(hidden: seq<bool>, starts: seq<bool>, orig: seq<int>, counts: seq<int>)
    requires Shape(hidden, starts, orig) && |counts| == |orig|
    ensures var r := Folded(hidden, starts, orig, counts);
      && (r.1.None? <==> forall p :: 0 <= p < |orig| ==> !(hidden[p] && starts[p]))
      && (r.1.Some? ==> r.1 == Some(NoElements))
      && (r.1.None? ==> Flatten(r.0.items) == Kept(hidden, |orig|))
      && (r.1.None? ==> forall j :: 0 <= j < |r.0.items| ==> r.0.items[j] != [] && starts[r.0.items[j][0]])
      && (r.1.None? ==> forall j, m :: 0 <= j < |r.0.items| && 0 < m < |r.0.items[j]| ==> !starts[r.0.items[j][m]])
      && (r.1.None? ==> ListedSum(hidden, r.0.counts, |orig|) == Total(orig, |orig|))
      && (r.1.None? ==> forall p :: 0 <= p < |orig| && hidden[p] ==> r.0.counts[p] == orig[p])
  {
    FoldGood(hidden, starts, orig, Layout([], counts), 0);
    FoldThrows(hidden, starts, orig, Layout([], counts), 0);
  }

  lemma {:induction false} FoldThrows(hidden: seq<bool>, starts: seq<bool>, orig: seq<int>, st: Layout, i: nat)
    requires At(hidden, starts, orig, st, i)
    ensures var r := FoldFrom(hidden, starts, orig, st, i); r.1.Some? ==> r.1 == Some(NoElements)
    decreases |orig| - i
  {
    if i < |orig| {
      var r := Step(hidden, starts, orig, st, i);
      if r.1.None? {
        FoldThrows(hidden, starts, orig, r.0, i + 1);
      }
    }
  }

  /** One pass of the loop agrees on two states that agree on the lines and on the counts before i. */
  lemma StepIgnoresCounts(hidden: seq<bool>, starts: seq<bool>, orig: seq<int>, a: Layout, b: Layout, i: nat)
    requires At(hidden, starts, orig, a, i) && At(hidden, starts, orig, b, i) && i < |orig|
    requires a.items == b.items && a.counts[..i] == b.counts[..i]
    ensures var sa, sb := Step(hidden, starts, orig, a, i), Step(hidden, starts, orig, b, i);
      sa.1 == sb.1 && sa.0.items == sb.0.items && (sa.1.None? ==> sa.0.counts[..i + 1] == sb.0.counts[..i + 1])
  {
    var sa, sb := Step(hidden, starts, orig, a, i), Step(hidden, starts, orig, b, i);
    var ca, cb := a.counts[i := orig[i]], b.counts[i := orig[i]];
    assert ca[..i + 1] == cb[..i + 1] by {
      forall p | 0 <= p < i + 1
        ensures ca[p] == cb[p]
      {
        if p < i {
          assert a.counts[..i][p] == b.counts[..i][p];
        }
      }
    }
    if sa.1.None? {
      assert sa.0.counts[..i + 1] == sb.0.counts[..i + 1] by {
        forall p | 0 <= p < i + 1
          ensures sa.0.counts[p] == sb.0.counts[p]
        {
          assert ca[..i + 1][p] == cb[..i + 1][p];
        }
      }
    }
  }

  /**
   * The loop restores every count before it reads it, so what it lists, whether
   * it throws, and (when it does not) the counts it leaves, do not depend on the
   * counts the tokens held before: reloading never accumulates.
   */
  lemma {:induction false} FoldIgnoresCounts(hidden: seq<bool>, starts: seq<bool>, orig: seq<int>, a: Layout, b: Layout, i: nat)
    requires At(hidden, starts, orig, a, i) && At(hidden, starts, orig, b, i)
    requires a.items == b.items && a.counts[..i] == b.counts[..i]
    ensures var ra, rb := FoldFrom(hidden, starts, orig, a, i), FoldFrom(hidden, starts, orig, b, i);
      ra.1 == rb.1 && ra.0.items == rb.0.items && (ra.1.None? ==> ra == rb)
    decreases |orig| - i
  {
    if i == |orig| {
      assert a.counts == a.counts[..i] && b.counts == b.counts[..i];
    } else {
      var sa, sb := Step(hidden, starts, orig, a, i), Step(hidden, starts, orig, b, i);
      StepIgnoresCounts(hidden, starts, orig, a, b, i);
      if sa.1.None? {
        FoldIgnoresCounts(hidden, starts, orig, sa.0, sb.0, i + 1);
      }
    }
  }

  /** Loading from any two sets of counts gives the same outcome. */
  lemma FoldedIgnoresCounts(hidden: seq<bool>, starts: seq<bool>, orig: seq<int>, c1: seq<int>, c2: seq<int>)
    requires Shape(hidden, starts, orig) && |c1| == |orig| && |c2| == |orig|
    ensures var r1, r2 := Folded(hidden, starts, orig, c1), Folded(hidden, starts, orig, c2);
      r1.1 == r2.1 && r1.0.items == r2.0.items && (r1.1.None? ==> r1 == r2)
  {
    FoldIgnoresCounts(hidden, starts, orig, Layout([], c1), Layout([], c2), 0);
  }

  /** The first code slot of token k, or `total` past the last token. */
  function SlotAt(slots: seq<int>, total: int, k: nat): int {
    if k < |slots| then slots[k] else total
  }

  /**
   * Each original count reaches from its token's slot to the next token's slot,
   * the last one to `total`: the counts the compiler's fix-up loop assigns.
   */
  predicate Telescoping(slots: seq<int>, total: int, orig: seq<int>) {
    |slots| == |orig| && forall k :: 0 <= k < |orig| ==> orig[k] == SlotAt(slots, total, k + 1) - slots[k]
  }

  /**
   * Where a line reaches: the first slot of its last token plus that token's
   * count (0 for the parts of a line outside the tokens).
   */
  function Reach(slots: seq<int>, counts: seq<int>, line: seq<nat>): int {
    if line == [] then 0
    else
      var k := Last(line);
      (if k < |slots| then slots[k] else 0) + (if k < |counts| then counts[k] else 0)
  }

  /** Line j reaches the first slot of the next line, the last line the slot of token i. */
  ghost predicate ReachesNext(slots: seq<int>, total: int, st: Layout, i: nat, j: nat) {
    && j < |st.items|
    && (j + 1 < |st.items| ==> st.items[j + 1] != [])
    && Reach(slots, st.counts, st.items[j]) == SlotAt(slots, total, if j + 1 < |st.items| then st.items[j + 1][0] else i)
  }

  /**
   * The lines hold positions below i, none is empty, and the last token listed
   * comes after the last token of every other line.
   */
  ghost predicate Spread(items: seq<seq<nat>>, i: nat) {
    && Below(items, i)
    && (forall j :: 0 <= j < |items| ==> items[j] != [])
    && (forall j :: 0 <= j < |items| - 1 ==> Last(items[j]) < Last(Last(items)))
  }

  /**
   * Before token i, every line reaches the first slot of the next line, and the
   * last line reaches the slot of token i.
   */
  ghost predicate Tiled(slots: seq<int>, total: int, st: Layout, i: nat) {
    && i <= |slots| == |st.counts|
    && Spread(st.items, i)
    && (forall j :: 0 <= j < |st.items| ==> ReachesNext(slots, total, st, i, j))
  }

  lemma SpreadNewLine(items: seq<seq<nat>>, i: nat)
    requires Spread(items, i)
    ensures Spread(items + [[i]], i + 1)
  {
    var r := items + [[i]];
    assert forall j :: 0 <= j < |items| ==> r[j] == items[j];
  }

  lemma SpreadExtend(items: seq<seq<nat>>, i: nat)
    requires Spread(items, i) && items != []
    ensures Spread(items[|items| - 1 := Last(items) + [i]], i + 1)
  {
    var n := |items|;
    var r := items[n - 1 := Last(items) + [i]];
    forall j | 0 <= j < n - 1
      ensures r[j] == items[j] && Last(r[j]) < i
    {
      assert items[j] != [] && |items[j]| - 1 < |items[j]|;
    }
    forall j, m | 0 <= j < n && 0 <= m < |r[j]|
      ensures r[j][m] < i + 1
    {
      if j < n - 1 || m < |Last(items)| {
        assert r[j][m] == items[j][m];
      }
    }
  }

  lemma SpreadMore(items: seq<seq<nat>>, i: nat)
    requires Spread(items, i)
    ensures Spread(items, i + 1)
  {
  }

  /** A listed token that begins a line opens the line [i], which reaches token i + 1. */
  lemma TiledNewLine(slots: seq<int>, total: int, orig: seq<int>, st: Layout, i: nat)
    requires i < |orig| && Tiled(slots, total, st, i) && i < |slots| && orig[i] == SlotAt(slots, total, i + 1) - slots[i]
    ensures Tiled(slots, total, Layout(st.items + [[i]], st.counts[i := orig[i]]), i + 1)
  {
    var r := Layout(st.items + [[i]], st.counts[i := orig[i]]);
    var n := |st.items|;
    SpreadNewLine(st.items, i);
    assert SlotAt(slots, total, i) == slots[i];
    var next := i + 1;
    forall j | 0 <= j < |r.items|
      ensures ReachesNext(slots, total, r, next, j)
    {
      if j < n {
        assert r.items[j] == st.items[j];
        assert ReachesNext(slots, total, st, i, j);
      }
    }
  }

  /** A listed token that does not begin a line ends the last line, which then reaches token i + 1. */
  lemma TiledExtend(slots: seq<int>, total: int, orig: seq<int>, st: Layout, i: nat)
    requires i < |orig| && Tiled(slots, total, st, i) && i < |slots| && orig[i] == SlotAt(slots, total, i + 1) - slots[i] && st.items != []
    ensures var n := |st.items|;
      Tiled(slots, total, Layout(st.items[n - 1 := Last(st.items) + [i]], st.counts[i := orig[i]]), i + 1)
  {
    var n := |st.items|;
    var r := Layout(st.items[n - 1 := Last(st.items) + [i]], st.counts[i := orig[i]]);
    SpreadExtend(st.items, i);
    assert SlotAt(slots, total, i) == slots[i];
    assert ReachesNext(slots, total, st, i, n - 1);
    var next := i + 1;
    forall j | 0 <= j < n - 1
      ensures ReachesNext(slots, total, r, next, j)
    {
      var q := Last(st.items[j]);
      assert r.items[j] == st.items[j] && q < i && r.counts[q] == st.counts[q];
      assert ReachesNext(slots, total, st, i, j);
    }
    assert Last(r.items[n - 1]) == i;
    assert ReachesNext(slots, total, r, next, n - 1);
  }

  /** A hidden token's count goes to the last listed token, which then reaches token i + 1. */
  lemma TiledFold(slots: seq<int>, total: int, orig: seq<int>, st: Layout, i: nat)
    requires i < |orig| && Tiled(slots, total, st, i) && i < |slots| && orig[i] == SlotAt(slots, total, i + 1) - slots[i]
    requires st.items != [] && |st.counts| == |orig|
    ensures var c, k := st.counts[i := orig[i]], Last(Last(st.items));
      Tiled(slots, total, Layout(st.items, c[k := c[k] + c[i]]), i + 1)
  {
    var n := |st.items|;
    var c, k := st.counts[i := orig[i]], Last(Last(st.items));
    var r := Layout(st.items, c[k := c[k] + c[i]]);
    SpreadMore(st.items, i);
    assert k < i;
    assert SlotAt(slots, total, i) == slots[i];
    assert ReachesNext(slots, total, st, i, n - 1);
    var next := i + 1;
    assert Reach(slots, r.counts, Last(st.items)) == SlotAt(slots, total, next);
    forall j | 0 <= j < n - 1
      ensures ReachesNext(slots, total, r, next, j)
    {
      var q := Last(st.items[j]);
      assert q < k && r.counts[q] == st.counts[q];
      assert ReachesNext(slots, total, st, i, j);
    }
    assert ReachesNext(slots, total, r, next, n - 1);
  }

  lemma StepTiled(hidden: seq<bool>, starts: seq<bool>, orig: seq<int>, slots: seq<int>, total: int, st: Layout, i: nat)
    requires At(hidden, starts, orig, st, i) && i < |orig| && Telescoping(slots, total, orig)
    requires Tiled(slots, total, st, i)
    requires Step(hidden, starts, orig, st, i).1.None?
    ensures Tiled(slots, total, Step(hidden, starts, orig, st, i).0, i + 1)
  {
    assert orig[i] == SlotAt(slots, total, i + 1) - slots[i];
    if !hidden[i] && starts[i] {
      NewLineWith(st.items, i);
      TiledNewLine(slots, total, orig, st, i);
    } else if !hidden[i] {
      TiledExtend(slots, total, orig, st, i);
    } else {
      TiledFold(slots, total, orig, st, i);
    }
  }

  lemma {:induction false} FoldTiled(hidden: seq<bool>, starts: seq<bool>, orig: seq<int>, slots: seq<int>, total: int, st: Layout, i: nat)
    requires At(hidden, starts, orig, st, i) && Telescoping(slots, total, orig) && Tiled(slots, total, st, i)
    ensures var r := FoldFrom(hidden, starts, orig, st, i); r.1.None? ==> Tiled(slots, total, r.0, |orig|)
    decreases |orig| - i
  {
    if i < |orig| {
      var r := Step(hidden, starts, orig, st, i);
      if r.1.None? {
        StepTiled(hidden, starts, orig, slots, total, st, i);
        FoldTiled(hidden, starts, orig, slots, total, r.0, i + 1);
        assert FoldFrom(hidden, starts, orig, st, i) == FoldFrom(hidden, starts, orig, r.0, i + 1);
      } else {
        assert FoldFrom(hidden, starts, orig, st, i).1.Some?;
      }
    }
  }

  /**
   * With the compiler's counts, the lines cover the code without gap or
   * overlap: each line reaches the first slot of the next, the last line the end.
   */
  lemma LinesTile(hidden: seq<bool>, starts: seq<bool>, orig: seq<int>, counts: seq<int>, slots: seq<int>, total: int)
    requires Shape(hidden, starts, orig) && |counts| == |orig| && Telescoping(slots, total, orig)
    ensures var r := Folded(hidden, starts, orig, counts);
      r.1.None? ==> forall j :: 0 <= j < |r.0.items| ==>
        && r.0.items[j] != []
        && (j + 1 < |r.0.items| ==> r.0.items[j + 1] != [] && Reach(slots, r.0.counts, r.0.items[j]) == slots[r.0.items[j + 1][0]])
        && (j + 1 == |r.0.items| ==> Reach(slots, r.0.counts, r.0.items[j]) == total)
  {
    FoldTiled(hidden, starts, orig, slots, total, Layout([], counts), 0);
    var r := Folded(hidden, starts, orig, counts);
    if r.1.None? {
      forall j | 0 <= j < |r.0.items|
        ensures j + 1 < |r.0.items| ==> Reach(slots, r.0.counts, r.0.items[j]) == slots[r.0.items[j + 1][0]]
        ensures j + 1 == |r.0.items| ==> Reach(slots, r.0.counts, r.0.items[j]) == total
      {
        assert ReachesNext(slots, total, r.0, |orig|, j);
      }
    }
  }

  /**
   * When the loop does not throw, the last token reaches `total`: a hidden one
   * keeps its original count, a listed one ends the last line.
   */
  lemma LastReaches(hidden: seq<bool>, starts: seq<bool>, orig: seq<int>, counts: seq<int>, slots: seq<int>, total: int)
    requires Shape(hidden, starts, orig) && |counts| == |orig| && Telescoping(slots, total, orig) && |orig| > 0
    requires Folded(hidden, starts, orig, counts).1.None?
    ensures slots[|orig| - 1] + Folded(hidden, starts, orig, counts).0.counts[|orig| - 1] == total
  {
    var n := |orig|;
    assert orig[n - 1] == SlotAt(slots, total, n) - slots[n - 1];
    if hidden[n - 1] {
      Listing(hidden, starts, orig, counts);
    } else {
      LastListedReaches(hidden, starts, orig, counts, slots, total);
    }
  }

  /** The last line ends with the last token when that token is listed, and so reaches `total`. */
  lemma LastListedReaches(hidden: seq<bool>, starts: seq<bool>, orig: seq<int>, counts: seq<int>, slots: seq<int>, total: int)
    requires Shape(hidden, starts, orig) && |counts| == |orig| && Telescoping(slots, total, orig) && |orig| > 0
    requires Folded(hidden, starts, orig, counts).1.None? && !hidden[|orig| - 1]
    ensures slots[|orig| - 1] + Folded(hidden, starts, orig, counts).0.counts[|orig| - 1] == total
  {
    var n := |orig|;
    var f := Folded(hidden, starts, orig, counts);
    var items := f.0.items;
    Listing(hidden, starts, orig, counts);
    LinesTile(hidden, starts, orig, counts, slots, total);
    assert Kept(hidden, n) == Kept(hidden, n - 1) + [n - 1];
    assert items != [] && Last(items) != [];
    var flat := Flatten(items);
    assert flat == Flatten(items[..|items| - 1]) + Last(items);
    assert flat[|flat| - 1] == n - 1;
    assert Last(Last(items)) == n - 1;
    assert Reach(slots, f.0.counts, items[|items| - 1]) == total;
  }

  /** The loop that lists the tokens, from the counts c they hold before it. */
  method ListTokens(hidden: seq<bool>, starts: seq<bool>, orig: seq<int>, c: seq<int>)
    returns (lines: seq<seq<nat>>, cs: seq<int>, failure: Option<Exception>)
    requires Shape(hidden, starts, orig) && |c| == |orig|
    ensures (Layout(lines, cs), failure) == Folded(hidden, starts, orig, c)
  {
    ghost var goal := Folded(hidden, starts, orig, c);
    lines, cs := [], c;
    var i := 0;
    failure := None;
    while i < |orig|
      invariant 0 <= i <= |orig| && |cs| == |orig|
      invariant At(hidden, starts, orig, Layout(lines, cs), i)
      invariant FoldFrom(hidden, starts, orig, Layout(lines, cs), i) == goal && failure == None
    {
      ghost var st := Layout(lines, cs);
      lines, cs, failure := ListToken(hidden, starts, orig, lines, cs, i);
      assert FoldFrom(hidden, starts, orig, st, i) == if failure.Some? then (Layout(lines, cs), failure)
        else FoldFrom(hidden, starts, orig, Layout(lines, cs), i + 1);
      if failure.Some? {
        return;
      }
      i := i + 1;
    }
  }

  /**
   * One pass of the loop on the lines and counts reached before
   * token i: restore its count, open a line when it begins one, then list it,
   * or fold its count into the last listed token when it is hidden.
   */
  method ListToken(hidden: seq<bool>, starts: seq<bool>, orig: seq<int>, lines: seq<seq<nat>>, cs: seq<int>, i: nat)
    returns (lines': seq<seq<nat>>, cs': seq<int>, failure: Option<Exception>)
    requires At(hidden, starts, orig, Layout(lines, cs), i) && i < |orig|
    ensures (Layout(lines', cs'), failure) == Step(hidden, starts, orig, Layout(lines, cs), i)
  {
    lines', cs' := lines, cs[i := orig[i]];
    if starts[i] {
      lines' := lines' + [[]];
    }
    if hidden[i] {
      if Last(lines') == [] {
        return lines', cs', Some(NoElements);
      }
      var k := Last(Last(lines'));
      cs' := cs'[k := cs'[k] + cs'[i]];
    } else {
      lines' := lines'[|lines'| - 1 := Last(lines') + [i]];
    }
    failure := None;
  }
}
