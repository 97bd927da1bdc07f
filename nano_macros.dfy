/**
 * The macro layer of nano_macro.h: stack, memory and control-flow idioms written as
 * sequences of nano.h mnemonics. A macro body is its list of mnemonic calls (plus the
 * flush_opcodes some macros end with); the engine plays the calls in order on an
 * Assembler.
 */
module NanoMacros {
  import opened Wrappers
  import opened Nano

  /** One mnemonic call with its optional argument. */
  type Call = (Mnemonic, Option<int>)

  ghost predicate WellFormed(cs: seq<Call>) {
    forall i :: 0 <= i < |cs| ==> cs[i].0 == Lit ==> cs[i].1.Some?
  }

  /** The events of a list of mnemonic calls, in order. */
  function Calls(cs: seq<Call>): seq<Event>
    requires WellFormed(cs)
    decreases |cs|
  {
    if cs == [] then [] else Expand(cs[0].0, cs[0].1) + Calls(cs[1..])
  }

  lemma {:induction false} CallsAppend(a: seq<Call>, b: seq<Call>)
    requires WellFormed(a) && WellFormed(b)
    ensures WellFormed(a + b) && Calls(a + b) == Calls(a) + Calls(b)
    decreases |a|
  {
    if a == [] {
      assert a + b == b;
    } else {
      assert (a + b)[1..] == a[1..] + b;
      CallsAppend(a[1..], b);
    }
  }

  /** A call without argument. */
  function C(m: Mnemonic): Call {
    (m, None)
  }

  /** A call with an argument. */
  function A(m: Mnemonic, n: int): Call {
    (m, Some(n))
  }

  /** The calls cs repeated n times (none when n <= 0). */
  function Repeat(cs: seq<Call>, n: int): (r: seq<Call>)
    requires WellFormed(cs)
    ensures WellFormed(r)
    decreases if n > 0 then n else 0
  {
    if n <= 0 then [] else Repeat(cs, n - 1) + cs
  }

  /** The events ops repeated n times. */
  function RepeatEvents(ops: seq<Event>, n: int): seq<Event>
    decreases if n > 0 then n else 0
  {
    if n <= 0 then [] else RepeatEvents(ops, n - 1) + ops
  }

  lemma {:induction false} CallsRepeat(cs: seq<Call>, n: int)
    requires WellFormed(cs)
    ensures Calls(Repeat(cs, n)) == RepeatEvents(Calls(cs), n)
    decreases if n > 0 then n else 0
  {
    if n > 0 {
      CallsRepeat(cs, n - 1);
      CallsAppend(Repeat(cs, n - 1), cs);
    }
  }

  /** zero: psh; psh; xor on a data path wider than 16 bits, psh 0 otherwise. */
  function ZeroCalls(c: Config): seq<Call> {
    if c.dataPath > 16 then [C(Psh), C(Psh), C(Xor)] else [A(Psh, 0)]
  }

  /** load n: push the address if given, then ldw. */
  function LoadCalls(arg: Option<int>): seq<Call> {
    (if arg.Some? then [A(Psh, arg.value)] else []) + [C(Ldw)]
  }

  /** store a, n with argc = |args|: push n (second) then a (first), then stw; pop. */
  function StoreCalls(args: seq<int>): seq<Call> {
    (if |args| > 1 then [A(Psh, args[1])] else [])
    + (if |args| > 0 then [A(Psh, args[0])] else [])
    + [C(Stw), C(Pop)]
  }

  function PushCCalls(c: Config): seq<Call> {
    ZeroCalls(c) + [C(Psh), C(Adc)]
  }

  function PopCCalls(): seq<Call> {
    [C(Lsr), C(Pop)]
  }

  /** incv v (m = Add) and decv v (m = Sub): load v; psh 1; add or sub; lit v; store. */
  function StepVariableCalls(v: int, m: Mnemonic): seq<Call>
    requires m == Add || m == Sub
  {
    LoadCalls(Some(v)) + [A(Psh, 1), C(m), A(Lit, v)] + StoreCalls([])
  }

  /** jp n: psh n; jnz (then flush_opcodes). */
  function JpCalls(n: int): seq<Call> {
    [A(Psh, n), C(Jnz)]
  }

  function JpnzCalls(n: int): seq<Call> {
    [C(Psh), C(Zeq), C(Swp), C(Zeq), A(Lit, n), C(And), C(Pop), C(Jnz)]
  }

  function JpzCalls(n: int): seq<Call> {
    [C(Psh), C(Zeq), A(Lit, n), C(And), C(Pop), C(Jnz)]
  }

  function JpeqCalls(n: int): seq<Call> {
    [C(Xor), C(Pop)] + JpzCalls(n)
  }

  function JpneqCalls(n: int): seq<Call> {
    [C(Xor), C(Pop)] + JpnzCalls(n)
  }

  function JpltCalls(c: Config, n: int): seq<Call> {
    [C(Sub)] + PushCCalls(c) + JpzCalls(n)
  }

  function DjnzCalls(n: int): seq<Call> {
    [A(Psh, 1), C(Sub), C(Pop), C(Psh)] + JpnzCalls(n) + [C(Pop)]
  }

  /** shr n: psh, then n times swp; lsr, then pop. */
  function ShrCalls(n: int): seq<Call> {
    [C(Psh)] + Repeat([C(Swp), C(Lsr)], n) + [C(Pop)]
  }

  /** shl n: n times psh; add; pop. */
  function ShlCalls(n: int): seq<Call> {
    Repeat([C(Psh), C(Add), C(Pop)], n)
  }

  /** The call had the effect of the events ops, and kept the allocator and OFFSET. */
  twostate predicate Appended(a: Assembler, ops: seq<Event>)
    reads a
  {
    a.Valid() && a.State() == Replay(a.cfg, old(a.State()), ops)
    && a.vptr == old(a.vptr) && a.offset == old(a.offset)
  }

  /** Plays a macro body: its mnemonic calls, in order. */
  method Play(a: Assembler, cs: seq<Call>)
    requires a.Valid() && WellFormed(cs)
    modifies a
    ensures Appended(a, Calls(cs))
  {
    ghost var s := a.State();
    var i := 0;
    assert cs[..0] == [];
    while i < |cs|
      invariant 0 <= i <= |cs|
      invariant Appended(a, Calls(cs[..i]))
    {
      ghost var before := a.State();
      assert before == Replay(a.cfg, s, Calls(cs[..i]));
      a.Emit(cs[i].0, cs[i].1);
      ReplayAppend(a.cfg, s, Calls(cs[..i]), Expand(cs[i].0, cs[i].1));
      CallsAppend(cs[..i], [cs[i]]);
      assert [cs[i]][1..] == [];
      assert Calls([cs[i]]) == Expand(cs[i].0, cs[i].1) + Calls([]);
      assert Expand(cs[i].0, cs[i].1) + [] == Expand(cs[i].0, cs[i].1);
      assert cs[..i] + [cs[i]] == cs[..i + 1];
      assert Calls(cs[..i + 1]) == Calls(cs[..i]) + Expand(cs[i].0, cs[i].1);
      i := i + 1;
    }
    assert cs[..i] == cs;
  }

  method Zero(a: Assembler)
    requires a.Valid()
    modifies a
    ensures Appended(a, Calls(ZeroCalls(a.cfg)))
  {
    Play(a, ZeroCalls(a.cfg));
  }

  method Load(a: Assembler, arg: Option<int>)
    requires a.Valid()
    modifies a
    ensures Appended(a, Calls(LoadCalls(arg)))
  {
    Play(a, LoadCalls(arg));
  }

  method Store(a: Assembler, args: seq<int>)
    requires a.Valid()
    modifies a
    ensures Appended(a, Calls(StoreCalls(args)))
  {
    Play(a, StoreCalls(args));
  }

  method PushC(a: Assembler)
    requires a.Valid()
    modifies a
    ensures Appended(a, Calls(PushCCalls(a.cfg)))
  {
    Play(a, PushCCalls(a.cfg));
  }

  method PopC(a: Assembler)
    requires a.Valid()
    modifies a
    ensures Appended(a, Calls(PopCCalls()))
  {
    Play(a, PopCCalls());
  }

  method Incv(a: Assembler, v: int)
    requires a.Valid()
    modifies a
    ensures Appended(a, Calls(StepVariableCalls(v, Add)))
  {
    Play(a, StepVariableCalls(v, Add));
  }

  method Decv(a: Assembler, v: int)
    requires a.Valid()
    modifies a
    ensures Appended(a, Calls(StepVariableCalls(v, Sub)))
  {
    Play(a, StepVariableCalls(v, Sub));
  }

  /** jp n: an unconditional jump; the next instruction starts a fresh word. */
  method Jp(a: Assembler, n: int)
    requires a.Valid()
    modifies a
    ensures Appended(a, Calls(JpCalls(n)) + [Flush])
    ensures a.slot == 0 && a.code == 0
  {
    ghost var s := a.State();
    Play(a, JpCalls(n));
    a.FlushOpcodes();
    ReplaySnoc(a.cfg, s, Calls(JpCalls(n)), Flush);
  }

  method Jpnz(a: Assembler, n: int)
    requires a.Valid()
    modifies a
    ensures Appended(a, Calls(JpnzCalls(n)))
  {
    Play(a, JpnzCalls(n));
  }

  method Jpz(a: Assembler, n: int)
    requires a.Valid()
    modifies a
    ensures Appended(a, Calls(JpzCalls(n)))
  {
    Play(a, JpzCalls(n));
  }

  /** ret: jnz to the address on the stack; the next instruction starts a fresh word. */
  method Ret(a: Assembler)
    requires a.Valid()
    modifies a
    ensures Appended(a, Calls([C(Jnz)]) + [Flush])
    ensures a.slot == 0 && a.code == 0
  {
    ghost var s := a.State();
    Play(a, [C(Jnz)]);
    a.FlushOpcodes();
    ReplaySnoc(a.cfg, s, Calls([C(Jnz)]), Flush);
  }

  /** reti: swp; swp; ret. */
  method Reti(a: Assembler)
    requires a.Valid()
    modifies a
    ensures Appended(a, Calls([C(Swp), C(Swp), C(Jnz)]) + [Flush])
    ensures a.slot == 0 && a.code == 0
  {
    ghost var s := a.State();
    Play(a, [C(Swp), C(Swp)]);
    Ret(a);
    CallsAppend([C(Swp), C(Swp)], [C(Jnz)]);
    assert [C(Swp), C(Swp)] + [C(Jnz)] == [C(Swp), C(Swp), C(Jnz)];
    ReplayAppend(a.cfg, s, Calls([C(Swp), C(Swp)]), Calls([C(Jnz)]) + [Flush]);
    assert Calls([C(Swp), C(Swp), C(Jnz)]) + [Flush] == Calls([C(Swp), C(Swp)]) + (Calls([C(Jnz)]) + [Flush]);
  }

  method Jpeq(a: Assembler, n: int)
    requires a.Valid()
    modifies a
    ensures Appended(a, Calls(JpeqCalls(n)))
  {
    Play(a, JpeqCalls(n));
  }

  method Jpneq(a: Assembler, n: int)
    requires a.Valid()
    modifies a
    ensures Appended(a, Calls(JpneqCalls(n)))
  {
    Play(a, JpneqCalls(n));
  }

  method Jplt(a: Assembler, n: int)
    requires a.Valid()
    modifies a
    ensures Appended(a, Calls(JpltCalls(a.cfg, n)))
  {
    Play(a, JpltCalls(a.cfg, n));
  }

  method Djnz(a: Assembler, n: int)
    requires a.Valid()
    modifies a
    ensures Appended(a, Calls(DjnzCalls(n)))
  {
    Play(a, DjnzCalls(n));
  }

  /** The engine's counting loop `i=0; while (i<n) { i=i+1; <body> }` of shr and shl. */
  method PlayRepeat(a: Assembler, body: seq<Call>, n: int)
    requires a.Valid() && WellFormed(body)
    modifies a
    ensures Appended(a, RepeatEvents(Calls(body), n))
  {
    ghost var s0 := a.State();
    var i := 0;
    while i < n
      invariant 0 <= i && (i <= n || i == 0)
      invariant a.Valid() && a.State() == Replay(a.cfg, s0, RepeatEvents(Calls(body), i))
      invariant a.vptr == old(a.vptr) && a.offset == old(a.offset)
      decreases n - i
    {
      i := i + 1;
      Play(a, body);
      ReplayAppend(a.cfg, s0, RepeatEvents(Calls(body), i - 1), Calls(body));
      assert RepeatEvents(Calls(body), i) == RepeatEvents(Calls(body), i - 1) + Calls(body);
    }
    assert RepeatEvents(Calls(body), i) == RepeatEvents(Calls(body), n);
  }

  /** shr n: psh, then n times swp; lsr, then pop. */
  method Shr(a: Assembler, n: int)
    requires a.Valid()
    modifies a
    ensures Appended(a, Calls(ShrCalls(n)))
  {
    ghost var s0 := a.State();
    Play(a, [C(Psh)]);
    PlayRepeat(a, [C(Swp), C(Lsr)], n);
    Play(a, [C(Pop)]);
    ReplayAround(a.cfg, s0, [C(Psh)], [C(Swp), C(Lsr)], n, [C(Pop)]);
  }

  /** Playing pre, then body n times, then post is playing their concatenation. */
  lemma ReplayAround(c: Config, s0: Asm, pre: seq<Call>, body: seq<Call>, n: int, post: seq<Call>)
    requires c.Valid() && WellFormed(pre) && WellFormed(body) && WellFormed(post)
    ensures WellFormed(pre + Repeat(body, n) + post)
    ensures Replay(c, Replay(c, Replay(c, s0, Calls(pre)), RepeatEvents(Calls(body), n)), Calls(post))
         == Replay(c, s0, Calls(pre + Repeat(body, n) + post))
  {
    CallsRepeat(body, n);
    CallsAppend(pre, Repeat(body, n));
    CallsAppend(pre + Repeat(body, n), post);
    ReplayAppend(c, s0, Calls(pre), Calls(Repeat(body, n)));
    ReplayAppend(c, s0, Calls(pre + Repeat(body, n)), Calls(post));
  }

  /** shl n: n times psh; add; pop. */
  method Shl(a: Assembler, n: int)
    requires a.Valid()
    modifies a
    ensures Appended(a, Calls(ShlCalls(n)))
  {
    PlayRepeat(a, [C(Psh), C(Add), C(Pop)], n);
    CallsRepeat([C(Psh), C(Add), C(Pop)], n);
  }

  // ---------------------------------------------------------------------------
  // What a macro body contributes: its literals and its opcode count.

  /** The literal a call writes to the data stream, if any. */
  function Pushed(c: Call): seq<int> {
    if c.1.Some? && (c.0 == Lit || c.0 == Psh || PushesArgument(c.0)) then [c.1.value] else []
  }

  /** How many add_opcode calls one mnemonic call makes. */
  function Weight(c: Call): nat {
    if PushesArgument(c.0) && c.1.Some? then 2 else 1
  }

  function Args(cs: seq<Call>): seq<int>
    decreases |cs|
  {
    if cs == [] then [] else Pushed(cs[0]) + Args(cs[1..])
  }

  function Size(cs: seq<Call>): nat
    decreases |cs|
  {
    if cs == [] then 0 else Weight(cs[0]) + Size(cs[1..])
  }

  lemma LiteralsCons(e: Event, t: seq<Event>)
    ensures Literals([e] + t) == (if e.Out? then [e.v] else []) + Literals(t)
  {
    assert ([e] + t)[1..] == t;
  }

  lemma ExpandLiterals(m: Mnemonic, arg: Option<int>)
    requires m == Lit ==> arg.Some?
    ensures Literals(Expand(m, arg)) == Pushed((m, arg))
  {
    var tail: seq<Event> := if m == Jsr then [Flush] else [];
    LiteralsCons(Flush, []);
    assert Literals(tail) == [];
    LiteralsCons(Opcode(OpcodeOf(m)), tail);
    LiteralsCons(Opcode(LIT), []);
    assert [Opcode(LIT)] + [] == [Opcode(LIT)];
    LiteralsCons(Opcode(PSH), []);
    assert [Opcode(PSH)] + [] == [Opcode(PSH)];
    if m == Lit || (m == Psh && arg.Some?) {
      LiteralsCons(Out(arg.value), [Opcode(LIT)]);
    } else if PushesArgument(m) && arg.Some? {
      LiteralsCons(Out(arg.value), [Opcode(LIT)] + ([Opcode(OpcodeOf(m))] + tail));
      LiteralsCons(Opcode(LIT), [Opcode(OpcodeOf(m))] + tail);
      assert Expand(m, arg) == [Out(arg.value)] + ([Opcode(LIT)] + ([Opcode(OpcodeOf(m))] + tail));
    } else if m != Psh {
      assert Expand(m, arg) == [Opcode(OpcodeOf(m))] + tail;
    }
  }

  /** A body's events write exactly its calls' literals, in order, and make Size(cs) add_opcode calls. */
  lemma {:induction false} CallsShape(cs: seq<Call>)
    requires WellFormed(cs)
    ensures Literals(Calls(cs)) == Args(cs) && OpcodeCount(Calls(cs)) == Size(cs)
    decreases |cs|
  {
    if cs != [] {
      CallsShape(cs[1..]);
      ExpandLiterals(cs[0].0, cs[0].1);
      ExpandShape(cs[0].0, cs[0].1);
      LiteralsAppend(Expand(cs[0].0, cs[0].1), Calls(cs[1..]));
      OpcodeCountAppend(Expand(cs[0].0, cs[0].1), Calls(cs[1..]));
    }
  }

  lemma {:induction false} ArgsAppend(a: seq<Call>, b: seq<Call>)
    ensures Args(a + b) == Args(a) + Args(b) && Size(a + b) == Size(a) + Size(b)
    decreases |a|
  {
    if a == [] {
      assert a + b == b;
    } else {
      assert (a + b)[1..] == a[1..] + b;
      ArgsAppend(a[1..], b);
    }
  }

  lemma MulSucc(n: int, k: int)
    ensures n * k == (n - 1) * k + k
  {
  }

  lemma {:induction false} RepeatShape(cs: seq<Call>, n: int)
    requires WellFormed(cs)
    ensures Args(Repeat(cs, n)) == [] <== Args(cs) == []
    ensures Size(Repeat(cs, n)) == (if n > 0 then n else 0) * Size(cs)
    decreases if n > 0 then n else 0
  {
    if n > 0 {
      RepeatShape(cs, n - 1);
      ArgsAppend(Repeat(cs, n - 1), cs);
      MulSucc(n, Size(cs));
    }
  }

  /** shl n adds exactly 3n opcodes (none for n <= 0) and no literal. */
  lemma ShlArgs(n: int)
    ensures Args(ShlCalls(n)) == [] && Size(ShlCalls(n)) == 3 * (if n > 0 then n else 0)
  {
    var body := [C(Psh), C(Add), C(Pop)];
    PlainCalls(body);
    RepeatShape(body, n);
  }

  lemma ShlShape(n: int)
    ensures OpcodeCount(Calls(ShlCalls(n))) == 3 * (if n > 0 then n else 0)
    ensures Literals(Calls(ShlCalls(n))) == []
  {
    ShlArgs(n);
    CallsShape(ShlCalls(n));
  }

  /** shr n adds 2n + 2 opcodes: psh, n times swp; lsr, pop. */
  lemma ShrArgs(n: int)
    ensures Args(ShrCalls(n)) == [] && Size(ShrCalls(n)) == 2 * (if n > 0 then n else 0) + 2
  {
    var body := [C(Swp), C(Lsr)];
    PlainCalls(body);
    RepeatShape(body, n);
    ArgsOne(C(Psh));
    ArgsOne(C(Pop));
    ArgsAppend([C(Psh)], Repeat(body, n));
    ArgsAppend([C(Psh)] + Repeat(body, n), [C(Pop)]);
  }

  lemma ShrShape(n: int)
    ensures OpcodeCount(Calls(ShrCalls(n))) == 2 * (if n > 0 then n else 0) + 2
    ensures Literals(Calls(ShrCalls(n))) == []
  {
    ShrArgs(n);
    CallsShape(ShrCalls(n));
  }

  lemma ArgsOne(c: Call)
    ensures Args([c]) == Pushed(c) && Size([c]) == Weight(c)
  {
    assert [c][1..] == [];
  }

  /** zero pushes nothing through the data stream on a wide data path, and the literal 0 otherwise. */
  lemma ZeroShape(c: Config)
    ensures OpcodeCount(Calls(ZeroCalls(c))) == (if c.dataPath > 16 then 3 else 1)
    ensures Literals(Calls(ZeroCalls(c))) == (if c.dataPath > 16 then [] else [0])
  {
    ArgsOne(C(Psh));
    ArgsOne(C(Xor));
    ArgsOne(A(Psh, 0));
    ArgsAppend([C(Psh)], [C(Psh)]);
    ArgsAppend([C(Psh), C(Psh)], [C(Xor)]);
    assert [C(Psh)] + [C(Psh)] == [C(Psh), C(Psh)];
    assert [C(Psh), C(Psh)] + [C(Xor)] == [C(Psh), C(Psh), C(Xor)];
    CallsShape(ZeroCalls(c));
  }

  /** load pushes its address only when given, then ldw. */
  lemma LoadShape(arg: Option<int>)
    ensures Literals(Calls(LoadCalls(arg))) == (if arg.Some? then [arg.value] else [])
    ensures OpcodeCount(Calls(LoadCalls(arg))) == (if arg.Some? then 2 else 1)
  {
    var p := if arg.Some? then [A(Psh, arg.value)] else [];
    ArgsAppend(p, [C(Ldw)]);
    ArgsOne(C(Ldw));
    if arg.Some? {
      ArgsOne(A(Psh, arg.value));
    }
    CallsShape(LoadCalls(arg));
  }

  /** store a, n pushes n when argc > 1 and then a when argc > 0, then stw; pop. */
  /** An optional `psh x` contributes the literal x and one opcode when present. */
  lemma OptionalPush(b: bool, x: int)
    ensures var p := if b then [A(Psh, x)] else [];
      Args(p) == (if b then [x] else []) && Size(p) == (if b then 1 else 0)
  {
    ArgsOne(A(Psh, x));
  }

  lemma StwPop()
    ensures Args([C(Stw), C(Pop)]) == [] && Size([C(Stw), C(Pop)]) == 2
  {
    ArgsAppend([C(Stw)], [C(Pop)]);
    assert [C(Stw)] + [C(Pop)] == [C(Stw), C(Pop)];
    ArgsOne(C(Stw));
    ArgsOne(C(Pop));
  }

  lemma StoreArgs(args: seq<int>)
    ensures Args(StoreCalls(args)) ==
      (if |args| > 1 then [args[1]] else []) + (if |args| > 0 then [args[0]] else [])
    ensures Size(StoreCalls(args)) == (if |args| > 1 then 1 else 0) + (if |args| > 0 then 1 else 0) + 2
  {
    var p1 := if |args| > 1 then [A(Psh, args[1])] else [];
    var p0 := if |args| > 0 then [A(Psh, args[0])] else [];
    var x1 := if |args| > 1 then args[1] else 0;
    var x0 := if |args| > 0 then args[0] else 0;
    assert p1 == if |args| > 1 then [A(Psh, x1)] else [];
    assert p0 == if |args| > 0 then [A(Psh, x0)] else [];
    OptionalPush(|args| > 1, x1);
    OptionalPush(|args| > 0, x0);
    StwPop();
    ArgsAppend(p1, p0);
    ArgsAppend(p1 + p0, [C(Stw), C(Pop)]);
  }

  lemma StoreShape(args: seq<int>)
    ensures Literals(Calls(StoreCalls(args))) ==
      (if |args| > 1 then [args[1]] else []) + (if |args| > 0 then [args[0]] else [])
    ensures OpcodeCount(Calls(StoreCalls(args))) == (if |args| > 1 then 1 else 0) + (if |args| > 0 then 1 else 0) + 2
  {
    StoreArgs(args);
    CallsShape(StoreCalls(args));
  }

  /** Calls without arguments write no literal and make one add_opcode call each. */
  lemma {:induction false} PlainCalls(cs: seq<Call>)
    requires forall i :: 0 <= i < |cs| ==> cs[i].1.None?
    ensures Args(cs) == [] && Size(cs) == |cs|
    decreases |cs|
  {
    if cs != [] {
      PlainCalls(cs[1..]);
    }
  }

  /** A body with one argument-carrying call c among plain calls. */
  lemma Around(pre: seq<Call>, c: Call, post: seq<Call>)
    requires forall i :: 0 <= i < |pre| ==> pre[i].1.None?
    requires forall i :: 0 <= i < |post| ==> post[i].1.None?
    ensures Args(pre + [c] + post) == Pushed(c)
    ensures Size(pre + [c] + post) == |pre| + Weight(c) + |post|
  {
    PlainCalls(pre);
    PlainCalls(post);
    ArgsOne(c);
    ArgsAppend(pre, [c]);
    ArgsAppend(pre + [c], post);
  }

  /** jpz n writes the single literal n (the target) among six opcodes. */
  lemma JpzShape(n: int)
    ensures Args(JpzCalls(n)) == [n] && Size(JpzCalls(n)) == 6
  {
    Around([C(Psh), C(Zeq)], A(Lit, n), [C(And), C(Pop), C(Jnz)]);
    assert [C(Psh), C(Zeq)] + [A(Lit, n)] + [C(And), C(Pop), C(Jnz)] == JpzCalls(n);
  }

  /** jpnz n: the same with swp; zeq inserted, eight opcodes. */
  lemma JpnzShape(n: int)
    ensures Args(JpnzCalls(n)) == [n] && Size(JpnzCalls(n)) == 8
  {
    Around([C(Psh), C(Zeq), C(Swp), C(Zeq)], A(Lit, n), [C(And), C(Pop), C(Jnz)]);
    assert [C(Psh), C(Zeq), C(Swp), C(Zeq)] + [A(Lit, n)] + [C(And), C(Pop), C(Jnz)] == JpnzCalls(n);
  }

  /** jp n: psh n; jnz, two opcodes and the target literal. */
  lemma JpShape(n: int)
    ensures Args(JpCalls(n)) == [n] && Size(JpCalls(n)) == 2
  {
    Around([], A(Psh, n), [C(Jnz)]);
    assert [] + [A(Psh, n)] + [C(Jnz)] == JpCalls(n);
  }

  /** xor; pop prefixed to a body adds two opcodes and no literal. */
  lemma XorPopPrefix(cs: seq<Call>)
    ensures Args([C(Xor), C(Pop)] + cs) == Args(cs) && Size([C(Xor), C(Pop)] + cs) == Size(cs) + 2
  {
    PlainCalls([C(Xor), C(Pop)]);
    ArgsAppend([C(Xor), C(Pop)], cs);
  }

  // Every conditional or unconditional jump writes exactly one literal, its target n,
  // and the fixed number of opcodes of its expansion.

  lemma JpEvents(n: int)
    ensures Literals(Calls(JpCalls(n))) == [n] && OpcodeCount(Calls(JpCalls(n))) == 2
  {
    JpShape(n);
    CallsShape(JpCalls(n));
  }

  lemma JpzEvents(n: int)
    ensures Literals(Calls(JpzCalls(n))) == [n] && OpcodeCount(Calls(JpzCalls(n))) == 6
  {
    JpzShape(n);
    CallsShape(JpzCalls(n));
  }

  lemma JpnzEvents(n: int)
    ensures Literals(Calls(JpnzCalls(n))) == [n] && OpcodeCount(Calls(JpnzCalls(n))) == 8
  {
    JpnzShape(n);
    CallsShape(JpnzCalls(n));
  }

  lemma JpeqShape(n: int)
    ensures Args(JpeqCalls(n)) == [n] && Size(JpeqCalls(n)) == 8
  {
    JpzShape(n);
    XorPopPrefix(JpzCalls(n));
  }

  lemma JpeqEvents(n: int)
    ensures Literals(Calls(JpeqCalls(n))) == [n] && OpcodeCount(Calls(JpeqCalls(n))) == 8
  {
    JpeqShape(n);
    CallsShape(JpeqCalls(n));
  }

  lemma JpneqShape(n: int)
    ensures Args(JpneqCalls(n)) == [n] && Size(JpneqCalls(n)) == 10
  {
    JpnzShape(n);
    XorPopPrefix(JpnzCalls(n));
  }

  lemma JpneqEvents(n: int)
    ensures Literals(Calls(JpneqCalls(n))) == [n] && OpcodeCount(Calls(JpneqCalls(n))) == 10
  {
    JpneqShape(n);
    CallsShape(JpneqCalls(n));
  }

  /** The decrement that starts djnz: psh 1; sub; pop; psh. */
  lemma DecrementShape()
    ensures Args([A(Psh, 1), C(Sub), C(Pop), C(Psh)]) == [1]
    ensures Size([A(Psh, 1), C(Sub), C(Pop), C(Psh)]) == 4
  {
    Around([], A(Psh, 1), [C(Sub), C(Pop), C(Psh)]);
    assert [] + [A(Psh, 1)] + [C(Sub), C(Pop), C(Psh)] == [A(Psh, 1), C(Sub), C(Pop), C(Psh)];
  }

  lemma DjnzArgs(n: int)
    ensures Args(DjnzCalls(n)) == [1, n] && Size(DjnzCalls(n)) == 13
  {
    var head := [A(Psh, 1), C(Sub), C(Pop), C(Psh)];
    DecrementShape();
    JpnzShape(n);
    ArgsOne(C(Pop));
    ArgsAppend(head, JpnzCalls(n));
    ArgsAppend(head + JpnzCalls(n), [C(Pop)]);
  }

  /** djnz n writes the decrement 1 and then the target n. */
  lemma DjnzShape(n: int)
    ensures Literals(Calls(DjnzCalls(n))) == [1, n] && OpcodeCount(Calls(DjnzCalls(n))) == 13
  {
    DjnzArgs(n);
    CallsShape(DjnzCalls(n));
  }

  lemma LoadArgs(v: int)
    ensures Args(LoadCalls(Some(v))) == [v] && Size(LoadCalls(Some(v))) == 2
  {
    Around([], A(Psh, v), [C(Ldw)]);
    assert [] + [A(Psh, v)] + [C(Ldw)] == LoadCalls(Some(v));
  }

  lemma StoreNothingArgs()
    ensures Args(StoreCalls([])) == [] && Size(StoreCalls([])) == 2
  {
    StwPop();
    assert StoreCalls([]) == [C(Stw), C(Pop)];
  }

  lemma StepArgs(v: int, m: Mnemonic)
    requires m == Add || m == Sub
    ensures Args([A(Psh, 1), C(m), A(Lit, v)]) == [1, v] && Size([A(Psh, 1), C(m), A(Lit, v)]) == 3
  {
    Around([], A(Psh, 1), [C(m)]);
    assert [] + [A(Psh, 1)] + [C(m)] == [A(Psh, 1), C(m)];
    ArgsOne(A(Lit, v));
    ArgsAppend([A(Psh, 1), C(m)], [A(Lit, v)]);
    assert [A(Psh, 1), C(m)] + [A(Lit, v)] == [A(Psh, 1), C(m), A(Lit, v)];
  }

  /** The body shared by incv and decv. */
  lemma StepVariableArgs(v: int, m: Mnemonic)
    requires m == Add || m == Sub
    ensures Args(StepVariableCalls(v, m)) == [v, 1, v] && Size(StepVariableCalls(v, m)) == 7
  {
    var load, mid, store := LoadCalls(Some(v)), [A(Psh, 1), C(m), A(Lit, v)], StoreCalls([]);
    LoadArgs(v);
    StepArgs(v, m);
    StoreNothingArgs();
    ArgsAppend(load, mid);
    ArgsAppend(load + mid, store);
  }

  /** incv v and decv v load v, push 1 and store back to v: literals v, 1, v. */
  lemma StepVariableShape(v: int, m: Mnemonic)
    requires m == Add || m == Sub
    ensures Literals(Calls(StepVariableCalls(v, m))) == [v, 1, v]
    ensures OpcodeCount(Calls(StepVariableCalls(v, m))) == 7
  {
    StepVariableArgs(v, m);
    CallsShape(StepVariableCalls(v, m));
  }

  /** jplt n: sub, then the carry pushed by pushc, then jpz n. */
  lemma PushCArgs(c: Config)
    ensures Args(PushCCalls(c)) == Args(ZeroCalls(c)) && Size(PushCCalls(c)) == Size(ZeroCalls(c)) + 2
  {
    PlainCalls([C(Psh), C(Adc)]);
    ArgsAppend(ZeroCalls(c), [C(Psh), C(Adc)]);
  }

  lemma JpltArgs(c: Config, n: int)
    ensures Args(JpltCalls(c, n)) == Args(ZeroCalls(c)) + [n]
    ensures Size(JpltCalls(c, n)) == Size(ZeroCalls(c)) + 9
  {
    var pushc := PushCCalls(c);
    PushCArgs(c);
    JpzShape(n);
    PlainCalls([C(Sub)]);
    ArgsAppend([C(Sub)], pushc);
    ArgsAppend([C(Sub)] + pushc, JpzCalls(n));
  }

  lemma JpltShape(c: Config, n: int)
    ensures Literals(Calls(JpltCalls(c, n))) == Literals(Calls(ZeroCalls(c))) + [n]
    ensures OpcodeCount(Calls(JpltCalls(c, n))) == OpcodeCount(Calls(ZeroCalls(c))) + 9
  {
    JpltArgs(c, n);
    CallsShape(ZeroCalls(c));
    CallsShape(JpltCalls(c, n));
  }
}
