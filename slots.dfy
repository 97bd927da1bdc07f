/**
 * The code-slot list of Compiler.cs: how `Encode` appends a slot and reserves
 * blank slots after every completed eight-slot word, how `Label` pads to a word
 * boundary, and how it back-patches the literal slots recorded for a label.
 */
module Slots {
  import opened Wrappers
  import opened Records

  /** `CodeSlots`: None is a null entry, a blank slot reserved for literal words. */
  type Slots = seq<Option<CodeSlot>>

  predicate IsLit(s: Option<CodeSlot>) {
    s.Some? && s.value.code == Lit
  }

  /** `Count(cs => cs.Code == Code.Lit)`. */
  function LitCount(cs: Slots): (n: nat)
    ensures n <= |cs|
  {
    if cs == [] then 0 else (if IsLit(cs[0]) then 1 else 0) + LitCount(cs[1..])
  }

  function Blanks(n: nat): (r: Slots)
    ensures |r| == n && forall i :: 0 <= i < n ==> r[i].None?
  {
    seq(n, _ => None)
  }

  predicate AllCodes(cs: Slots) {
    forall i :: 0 <= i < |cs| ==> cs[i].Some?
  }

  predicate AllBlank(cs: Slots) {
    forall i :: 0 <= i < |cs| ==> cs[i].None?
  }

  /**
   * The layout `Encode` keeps: eight code slots, then eight blank slots for each
   * literal among them, again and again, ending in fewer than eight code slots.
   */
  predicate WellLaid(cs: Slots)
    decreases |cs|
  {
    if |cs| < 8 then AllCodes(cs)
    else
      var b := 8 * LitCount(cs[..8]);
      AllCodes(cs[..8]) && 8 + b <= |cs| && AllBlank(cs[8..8 + b]) && WellLaid(cs[8 + b..])
  }

  /** `Encode(code, value)`: one slot, then the blanks when it completes a word. */
  function Encoded(cs: Slots, s: CodeSlot): (r: Slots)
    ensures |r| % 8 == (|cs| + 1) % 8
    ensures |r| > |cs| && r[..|cs|] == cs && r[|cs|] == Some(s)
    ensures forall i :: |cs| < i < |r| ==> r[i].None?
  {
    var added := cs + [Some(s)];
    if |added| % 8 == 0 then added + Blanks(8 * LitCount(added[|added| - 8..])) else added
  }

  /** Encoding after whole words is encoding on the rest. */
  lemma EncodedAfter(p: Slots, rest: Slots, s: CodeSlot)
    requires |p| % 8 == 0
    ensures Encoded(p + rest, s) == p + Encoded(rest, s)
  {
    var a, b := p + rest + [Some(s)], rest + [Some(s)];
    assert a == p + b;
    assert |a| % 8 == |b| % 8;
    if |b| % 8 == 0 {
      assert a[|a| - 8..] == b[|b| - 8..];
      var n := 8 * LitCount(b[|b| - 8..]);
      assert Encoded(rest, s) == b + Blanks(n);
      assert a + Blanks(n) == p + (b + Blanks(n));
    }
  }

  /** A word, its blanks and a laid-out rest are laid out. */
  lemma LaidCons(w: Slots, blanks: Slots, rest: Slots)
    requires |w| == 8 && AllCodes(w) && |blanks| == 8 * LitCount(w) && AllBlank(blanks)
    requires WellLaid(rest)
    ensures WellLaid(w + blanks + rest)
  {
    var cs := w + blanks + rest;
    var k := 8 + |blanks|;
    assert cs[..8] == w && cs[8..k] == blanks && cs[k..] == rest;
  }

  /** Encoding keeps the layout. */
  lemma {:induction false} EncodedLaid(cs: Slots, s: CodeSlot)
    requires WellLaid(cs)
    ensures WellLaid(Encoded(cs, s))
    decreases |cs|
  {
    if |cs| < 7 {
      assert Encoded(cs, s) == cs + [Some(s)];
    } else if |cs| == 7 {
      var w := cs + [Some(s)];
      var bl := Blanks(8 * LitCount(w));
      assert w[|w| - 8..] == w;
      assert Encoded(cs, s) == w + bl + [];
      LaidCons(w, bl, []);
    } else {
      var b := 8 * LitCount(cs[..8]);
      var w, bl, rest := cs[..8], cs[8..8 + b], cs[8 + b..];
      assert cs == (w + bl) + rest;
      EncodedAfter(w + bl, rest, s);
      EncodedLaid(rest, s);
      assert Encoded(cs, s) == w + bl + Encoded(rest, s);
      LaidCons(w, bl, Encoded(rest, s));
    }
  }

  /**
   * In a laid-out list the slots after the last word boundary are code slots, so
   * the eight slots `Encode` counts literals in are never null.
   */
  lemma {:induction false} TailCodes(cs: Slots)
    requires WellLaid(cs)
    ensures forall i :: |cs| - |cs| % 8 <= i < |cs| ==> cs[i].Some?
    decreases |cs|
  {
    if |cs| >= 8 {
      var b := 8 * LitCount(cs[..8]);
      var rest := cs[8 + b..];
      TailCodes(rest);
      assert |cs| % 8 == |rest| % 8;
      forall i | |cs| - |cs| % 8 <= i < |cs|
        ensures cs[i].Some?
      {
        assert cs[i] == rest[i - 8 - b];
      }
    }
  }

  /** `while (CodeSlots.Count % 8 > 0) Encode(Code._)`. */
  function Padded(cs: Slots): (r: Slots)
    ensures |r| % 8 == 0 && |cs| <= |r| && r[..|cs|] == cs
    ensures forall i :: |cs| <= i < |r| ==> r[i].None? || r[i] == Some(CodeSlot(Nop, 0))
    decreases if |cs| % 8 == 0 then 0 else 8 - |cs| % 8
  {
    if |cs| % 8 == 0 then cs
    else
      var e := Encoded(cs, CodeSlot(Nop, 0));
      var r := Padded(e);
      assert r[..|cs|] == e[..|cs|];
      r
  }

  function PadsLeft(n: nat): nat {
    if n % 8 == 0 then 0 else 8 - n % 8
  }

  lemma PadMeasure(n: nat, m: nat)
    requires n % 8 != 0 && m % 8 == (n + 1) % 8
    ensures PadsLeft(m) < PadsLeft(n)
  {
  }

  /** Padding keeps the layout. */
  lemma {:induction false} PaddedLaid(cs: Slots)
    requires WellLaid(cs)
    ensures WellLaid(Padded(cs))
    decreases PadsLeft(|cs|)
  {
    if |cs| % 8 != 0 {
      var e := Encoded(cs, CodeSlot(Nop, 0));
      PadMeasure(|cs|, |e|);
      EncodedLaid(cs, CodeSlot(Nop, 0));
      PaddedLaid(e);
    }
  }

  /** Padding an aligned list adds nothing, so padding twice is padding once. */
  lemma PaddedTwice(cs: Slots)
    ensures Padded(Padded(cs)) == Padded(cs)
  {
  }

  /** Same length, and each slot is null in both or holds the same code in both. */
  predicate SameCodes(a: Slots, b: Slots) {
    |a| == |b| && forall i :: 0 <= i < |a| ==>
      a[i].Some? == b[i].Some? && (a[i].Some? ==> a[i].value.code == b[i].value.code)
  }

  lemma {:induction false} SameLitCount(a: Slots, b: Slots)
    requires SameCodes(a, b)
    ensures LitCount(a) == LitCount(b)
    decreases |a|
  {
    if a != [] {
      assert SameCodes(a[1..], b[1..]) by {
        assert forall i :: 0 <= i < |a| - 1 ==> a[1..][i] == a[i + 1] && b[1..][i] == b[i + 1];
      }
      SameLitCount(a[1..], b[1..]);
    }
  }

  /** The layout only depends on which slots are null and which are literals. */
  lemma {:induction false} SameCodesLaid(a: Slots, b: Slots)
    requires SameCodes(a, b) && WellLaid(a)
    ensures WellLaid(b)
    decreases |a|
  {
    if |a| >= 8 {
      assert SameCodes(a[..8], b[..8]);
      SameLitCount(a[..8], b[..8]);
      var k := 8 + 8 * LitCount(a[..8]);
      assert SameCodes(a[k..], b[k..]) by {
        assert forall i :: 0 <= i < |a| - k ==> a[k..][i] == a[k + i] && b[k..][i] == b[k + i];
      }
      SameCodesLaid(a[k..], b[k..]);
      assert AllBlank(b[8..k]) by {
        assert forall i :: 0 <= i < k - 8 ==> a[8..k][i] == a[8 + i] && b[8..k][i] == b[8 + i];
      }
    }
  }

  /**
   * `foreach (var patch in patches) CodeSlots[patch].Value = v`: the list reached
   * and the exception that stopped the loop, if any.
   */
  function Patched(cs: Slots, ps: seq<int>, v: int): (r: (Slots, Option<Exception>))
    ensures SameCodes(cs, r.0)
    decreases |ps|
  {
    if ps == [] then (cs, None)
    else if !(0 <= ps[0] < |cs|) then (cs, Some(ArgumentOutOfRange))
    else if cs[ps[0]].None? then (cs, Some(NullReference))
    else Patched(cs[ps[0] := Some(CodeSlot(cs[ps[0]].value.code, v))], ps[1..], v)
  }

  /** Every recorded patch index is a literal slot of the list. */
  predicate PatchTargets(ps: seq<int>, cs: Slots) {
    forall j :: 0 <= j < |ps| ==> 0 <= ps[j] < |cs| && IsLit(cs[ps[j]])
  }

  /** Patch targets stay valid while the list only grows. */
  lemma PatchTargetsGrow(ps: seq<int>, cs: Slots, ds: Slots)
    requires PatchTargets(ps, cs) && |cs| <= |ds| && ds[..|cs|] == cs
    ensures PatchTargets(ps, ds)
  {
    forall j | 0 <= j < |ps|
      ensures 0 <= ps[j] < |ds| && IsLit(ds[ps[j]])
    {
      assert ds[ps[j]] == ds[..|cs|][ps[j]];
    }
  }

  /** Patch targets only depend on the codes. */
  lemma PatchTargetsSameCodes(ps: seq<int>, cs: Slots, ds: Slots)
    requires PatchTargets(ps, cs) && SameCodes(cs, ds)
    ensures PatchTargets(ps, ds)
  {
  }

  /**
   * Patching literal slots never fails, leaves the codes alone, sets exactly the
   * patched slots to v and keeps every other slot.
   */
  lemma {:induction false} PatchedValues(cs: Slots, ps: seq<int>, v: int)
    requires PatchTargets(ps, cs)
    ensures Patched(cs, ps, v).1 == None
    ensures forall j :: 0 <= j < |ps| ==> Patched(cs, ps, v).0[ps[j]] == Some(CodeSlot(Lit, v))
    ensures forall i :: 0 <= i < |cs| && i !in ps ==> Patched(cs, ps, v).0[i] == cs[i]
    decreases |ps|
  {
    if ps != [] {
      var p := ps[0];
      var next := cs[p := Some(CodeSlot(Lit, v))];
      assert PatchTargets(ps[1..], next) by {
        assert forall j :: 0 <= j < |ps| - 1 ==> ps[1..][j] == ps[j + 1];
      }
      PatchedValues(next, ps[1..], v);
      var r := Patched(cs, ps, v).0;
      assert r == Patched(next, ps[1..], v).0;
      forall j | 0 <= j < |ps|
        ensures r[ps[j]] == Some(CodeSlot(Lit, v))
      {
        if ps[j] !in ps[1..] {
          assert j == 0 || ps[j] == ps[1..][j - 1];
        }
      }
      forall i | 0 <= i < |cs| && i !in ps
        ensures r[i] == cs[i]
      {
        assert i !in ps[1..];
      }
    }
  }
}
