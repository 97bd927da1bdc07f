/**
 * SourceItem.cs: one line of the debugger's listing and the tokens on it.
 *
 * `DisplayTokens` is the loop of module MacroFolding run over a single line:
 * the first time it runs it captures every token's `CodeCount`, and each run
 * restores them, lists the tokens whose macro level is at most the parent's,
 * and folds the count of every deeper token into the last listed one.
 * `CodeIndex` and `CodeCount` give the code slots the line spans.
 */
module SourceItems {
  import opened Wrappers
  import opened MacroFolding

  /** What an item reads of a token: its macro nesting level and its first code slot. */
  datatype ItemToken = ItemToken(macroLevel: int, codeIndex: int)

  /** Token i is folded away when a macro deeper than the parent's level made it. */
  function Deeper(ts: seq<ItemToken>, parentLevel: int): (r: seq<bool>)
    ensures |r| == |ts|
  {
    seq(|ts|, i requires 0 <= i < |ts| => ts[i].macroLevel > parentLevel)
  }

  /** All the tokens of an item are on one line: only the first begins it. */
  function OneLine(n: nat): (r: seq<bool>)
    ensures |r| == n
  {
    seq(n, i requires 0 <= i < n => i == 0)
  }

  /** The first code slot of every token. */
  function IndexesOf(ts: seq<ItemToken>): (r: seq<int>)
    ensures |r| == |ts|
  {
    seq(|ts|, i requires 0 <= i < |ts| => ts[i].codeIndex)
  }

  /**
   * What `DisplayTokens` returns (the listed positions, or the exception) and
   * the counts it leaves, from the captured counts and the counts c before it.
   */
  function Displayed(ts: seq<ItemToken>, originals: seq<int>, parentLevel: int, c: seq<int>): (r: (Result<seq<nat>>, seq<int>))
    requires |originals| == |ts| && |c| == |ts|
    ensures |r.1| == |ts|
  {
    var f := Folded(Deeper(ts, parentLevel), OneLine(|ts|), originals, c);
    (if f.1.Some? then Err(f.1.value) else Ok(Flatten(f.0.items)), f.0.counts)
  }

  /** `CodeIndex`: the first token's slot, 0 without tokens. */
  function Start(ts: seq<ItemToken>): int {
    if ts == [] then 0 else ts[0].codeIndex
  }

  /** `CodeCount`: from the first token's slot to the end of the last token's code, 0 without tokens. */
  function Length(ts: seq<ItemToken>, counts: seq<int>): int
    requires |counts| == |ts|
  {
    if ts == [] then 0 else Last(ts).codeIndex - ts[0].codeIndex + Last(counts)
  }

  class SourceItem {
    const tokens: seq<ItemToken>
    /** Every token's `CodeCount`. */
    var counts: seq<int>
    /** `_originalCodeCounts`; None until the first `DisplayTokens`. */
    var originals: Option<seq<int>>

    ghost predicate Valid()
      reads this
    {
      |counts| == |tokens| && (originals.Some? ==> |originals.value| == |tokens|)
    }

    constructor(tokens: seq<ItemToken>, counts: seq<int>)
      requires |counts| == |tokens|
      ensures Valid() && this.tokens == tokens && this.counts == counts && originals == None
    {
      this.tokens := tokens;
      this.counts := counts;
      originals := None;
    }

    /**
     * `DisplayTokens`: captures the counts on the first call only, then lists
     * the tokens no deeper than `parentLevel`; throws when the first token is
     * deeper, having restored and folded the counts up to it.
     */
    method DisplayTokens(parentLevel: int) returns (r: Result<seq<nat>>)
      requires Valid()
      modifies this`counts, this`originals
      ensures Valid()
      ensures old(originals).Some? ==> originals == old(originals)
      ensures old(originals).None? ==> originals == Some(old(counts))
      ensures (r, counts) == Displayed(tokens, originals.value, parentLevel, old(counts))
    {
      if originals.None? {
        originals := Some(counts);
      }
      var lines, cs, failure := ListTokens(Deeper(tokens, parentLevel), OneLine(|tokens|), originals.value, counts);
      counts := cs;
      r := if failure.Some? then Err(failure.value) else Ok(Flatten(lines));
    }

    function CodeIndex(): int
      reads this
    {
      Start(tokens)
    }

    function CodeCount(): int
      reads this
      requires Valid()
    {
      Length(tokens, counts)
    }
  }

  /**
   * `DisplayTokens` throws exactly when the first token is deeper than the
   * parent, and then `Last()` found no listed token. Otherwise it lists every
   * token no deeper than the parent, in order; the listed counts add up to all
   * the captured counts, and every folded token holds its captured count.
   */
  lemma DisplayedLists(ts: seq<ItemToken>, originals: seq<int>, parentLevel: int, c: seq<int>)
    requires |originals| == |ts| && |c| == |ts|
    ensures var d, deeper := Displayed(ts, originals, parentLevel, c), Deeper(ts, parentLevel);
      && (d.0.Ok? <==> ts == [] || ts[0].macroLevel <= parentLevel)
      && (d.0.Err? ==> d.0.error == NoElements)
      && (d.0.Ok? ==> d.0.value == Kept(deeper, |ts|))
      && (d.0.Ok? ==> ListedSum(deeper, d.1, |ts|) == Total(originals, |ts|))
      && (d.0.Ok? ==> forall p :: 0 <= p < |ts| && deeper[p] ==> d.1[p] == originals[p])
  {
    var deeper, starts := Deeper(ts, parentLevel), OneLine(|ts|);
    Listing(deeper, starts, originals, c);
    var f := Folded(deeper, starts, originals, c);
    if ts != [] && ts[0].macroLevel > parentLevel {
      assert deeper[0] && starts[0];
    }
  }

  /**
   * Restoring the captured counts first makes `DisplayTokens` independent of
   * the counts the tokens hold: calling it again lists the same tokens, and
   * leaves the same counts when it does not throw.
   */
  lemma DisplayedIgnoresCounts(ts: seq<ItemToken>, originals: seq<int>, parentLevel: int, c1: seq<int>, c2: seq<int>)
    requires |originals| == |ts| && |c1| == |ts| && |c2| == |ts|
    ensures var d1, d2 := Displayed(ts, originals, parentLevel, c1), Displayed(ts, originals, parentLevel, c2);
      d1.0 == d2.0 && (d1.0.Ok? ==> d1.1 == d2.1)
  {
    FoldedIgnoresCounts(Deeper(ts, parentLevel), OneLine(|ts|), originals, c1, c2);
  }

  /** A second `DisplayTokens` on the counts the first one left returns what the first one did. */
  lemma DisplayedTwice(ts: seq<ItemToken>, originals: seq<int>, parentLevel: int, c: seq<int>)
    requires |originals| == |ts| && |c| == |ts|
    ensures var d := Displayed(ts, originals, parentLevel, c);
      Displayed(ts, originals, parentLevel, d.1).0 == d.0
  {
    DisplayedIgnoresCounts(ts, originals, parentLevel, c, Displayed(ts, originals, parentLevel, c).1);
  }

  /**
   * When each captured count reaches from its token's slot to the next one's
   * (the last to `total`), the item still spans from its first slot to `total`
   * after a `DisplayTokens` that did not throw.
   */
  lemma DisplayedSpan(ts: seq<ItemToken>, originals: seq<int>, parentLevel: int, c: seq<int>, total: int)
    requires |c| == |ts| && Telescoping(IndexesOf(ts), total, originals) && ts != []
    requires Displayed(ts, originals, parentLevel, c).0.Ok?
    ensures Start(ts) + Length(ts, Displayed(ts, originals, parentLevel, c).1) == total
  {
    var deeper, starts := Deeper(ts, parentLevel), OneLine(|ts|);
    assert Folded(deeper, starts, originals, c).1.None?;
    LastReaches(deeper, starts, originals, c, IndexesOf(ts), total);
  }

  /** A new item, before any `DisplayTokens`, spans from its first slot to `total` when its counts tile. */
  lemma FreshSpan(ts: seq<ItemToken>, counts: seq<int>, total: int)
    requires Telescoping(IndexesOf(ts), total, counts) && ts != []
    ensures Start(ts) + Length(ts, counts) == total
  {
    var n := |ts|;
    assert counts[n - 1] == SlotAt(IndexesOf(ts), total, n) - IndexesOf(ts)[n - 1];
  }
}
