/**
 * Cpu.cs: the simulator of the stack machine. The registers are `_top` and
 * `_next`, the rest of the data stack is `Stack`, the memory is `Heap`, and
 * `ProgramSlot` indexes the compiled code slots. `Step` fetches one slot,
 * executes its code and skips the null slots after it; `Run` steps until the
 * break condition holds, an exception is thrown or the step limit is reached.
 */
module Simulator {
  import opened Wrappers
  import opened Bits
  import opened Records
  import opened Literals
  import opened Slots

  /** The machine state a step reads and writes; `stack` lists `Stack` from its top. */
  datatype State = State(programSlot: int, top: int, next: int, carry: bool, stack: seq<int>, heap: map<int, int>)

  /** `Heap.Entry(address)`: the stored word, 0 where nothing was stored. */
  function Entry(heap: map<int, int>, address: int): int {
    if address in heap then heap[address] else 0
  }

  /** `_next = Stack.Pop()`, which throws on an empty stack and leaves the state as it was. */
  function Popped(s: State): (r: (State, Option<Exception>))
    ensures r.1.None? <==> s.stack != []
    ensures r.1.Some? ==> r == (s, Some(StackEmpty))
    ensures r.1.None? ==> r.0.stack == s.stack[1..] && r.0.next == s.stack[0]
    ensures r.0.(next := s.next, stack := s.stack) == s
  {
    if s.stack == [] then (s, Some(StackEmpty))
    else (s.(next := s.stack[0], stack := s.stack[1..]), None)
  }

  /** Bit 32 of a sum, `(add & (1ul << 32)) != 0`. */
  predicate Bit32(sum: int) {
    (sum / Two32) % 2 == 1
  }

  /** `Add`, `Adc`, `Sub`: carry from bit 32, the low 32 bits as the new top, then a pop. */
  function Arith(s: State, sum: int): (State, Option<Exception>) {
    Popped(s.(carry := Bit32(sum), top := Wrap32(sum)))
  }

  /**
   * One code executed, with `ProgramSlot` already past the fetched slot. A
   * failing `Stack.Pop` keeps the assignments made before it.
   */
  function Exec(s: State, slot: CodeSlot): (State, Option<Exception>) {
    match slot.code
    case Nop => (s, None)
    case Ldw => (s.(top := Entry(s.heap, s.top)), None)
    case Stw => Popped(s.(heap := s.heap[s.top := s.next], top := s.next))
    case Psh => (s.(stack := [s.next] + s.stack, next := s.top), None)
    case Pop => Popped(s.(top := s.next))
    case Swp => (s.(top := s.next, next := s.top), None)
    case Jnz =>
      Popped(s.(programSlot := if s.top != 0 then Wrap32(s.top * 8) else s.programSlot, top := s.next))
    case Jsr => (s.(programSlot := Wrap32(s.top * 8), top := TDiv(Wrap32(s.programSlot + 7), 8)), None)
    case Add => Arith(s, U32(s.next) + U32(s.top))
    case Adc => Arith(s, U32(s.next) + U32(s.top) + (if s.carry then 1 else 0))
    case Sub => Arith(s, U32(s.next) + (Two32 - 1 - U32(s.top)) + 1)
    case And => Popped(s.(top := And32(s.top, s.next)))
    case Xor => Popped(s.(top := Xor32(s.top, s.next)))
    case Lsr => (s.(carry := s.top % 2 == 1, top := s.top / 2), None)
    case Zeq => (s.(top := if s.top == 0 then -1 else 0), None)
    case Lit => (s.(stack := [s.next] + s.stack, next := s.top, top := slot.value), None)
  }

  /** The slot the null-skipping loop stops at: the first non-null slot from ps, or a slot outside the list. */
  function Skip(cs: Slots, ps: int): (r: int)
    ensures ps <= r
    ensures r < 0 || r >= |cs| || cs[r].Some?
    ensures ps < r ==> 0 <= ps && r <= |cs|
    ensures forall k :: ps <= k < r ==> cs[k].None?
    decreases |cs| - ps
  {
    if 0 <= ps < |cs| && cs[ps].None? then
      Skip(cs, ps + 1)
    else ps
  }

  /** `Step`: check the slot, fetch and advance, execute, skip null slots. */
  function StepOf(cs: Slots, s: State): (State, Option<Exception>) {
    if s.programSlot < 0 || s.programSlot >= |cs| then
      (s, Some(Failure("Outside executable code " + DecimalText(s.programSlot))))
    else
      var fetched := s.(programSlot := s.programSlot + 1);
      match cs[s.programSlot]
      case None => (fetched, Some(NullReference))
      case Some(slot) => Resume(cs, Exec(fetched, slot))
  }

  /** After a code that did not throw, the null-skipping loop. */
  function Resume(cs: Slots, r: (State, Option<Exception>)): (State, Option<Exception>) {
    if r.1.Some? then r else (r.0.(programSlot := Skip(cs, r.0.programSlot)), None)
  }

  const StepLimit: nat := 1000000

  /**
   * `Run` from the loop head with counter i: the state, the exception caught
   * (if any) and the number of steps executed.
   */
  function RunFrom(cs: Slots, s: State, i: nat, breakCondition: int -> bool): (State, Option<Exception>, nat)
    requires i <= StepLimit
    decreases StepLimit - i
  {
    if i != 0 && breakCondition(i) then (s, None, i)
    else
      var r := StepOf(cs, s);
      if r.1.Some? then (r.0, r.1, i + 1)
      else if i == StepLimit then (r.0, Some(Failure("Exceeded execution limit")), i + 1)
      else RunFrom(cs, r.0, i + 1, breakCondition)
  }

  // ---------------------------------------------------------------------------
  // What each code does

  /** Bit 32 of a sum below 2^33 is set exactly when the sum leaves 32 bits. */
  lemma CarryBit(sum: int)
    requires 0 <= sum < 2 * Two32
    ensures Bit32(sum) <==> sum >= Two32
  {
    if sum >= Two32 {
      assert sum / Two32 == 1;
    } else {
      assert sum / Two32 == 0;
    }
  }

  /** Wrapping only sees the value modulo 2^32. */
  lemma WrapShift(y: int, m: int)
    ensures Wrap32(y + Two32 * m) == Wrap32(y)
  {
    assert (y + Two32 * m) % Two32 == y % Two32;
  }

  lemma UnsignedOffset(a: int)
    ensures a == U32(a) + Two32 * (a / Two32)
  {
  }

  /** `Add`: the wrapped sum, the carry is the unsigned overflow, and the stack pops. */
  lemma AddEffect(s: State, v: int)
    ensures var (t, failure) := Exec(s, CodeSlot(Add, v));
      && t.top == Wrap32(s.next + s.top)
      && (t.carry <==> U32(s.next) + U32(s.top) >= Two32)
      && (failure.None? <==> s.stack != [])
      && (failure.None? ==> t.next == s.stack[0] && t.stack == s.stack[1..])
  {
    var sum := U32(s.next) + U32(s.top);
    CarryBit(sum);
    UnsignedOffset(s.next);
    UnsignedOffset(s.top);
    WrapShift(sum, s.next / Two32 + s.top / Two32);
  }

  /** `Adc`: as `Add`, with the carry added in. */
  lemma AdcEffect(s: State, v: int)
    ensures var c := if s.carry then 1 else 0;
      var (t, failure) := Exec(s, CodeSlot(Adc, v));
      && t.top == Wrap32(s.next + s.top + c)
      && (t.carry <==> U32(s.next) + U32(s.top) + c >= Two32)
      && (failure.None? <==> s.stack != [])
  {
    var c := if s.carry then 1 else 0;
    var sum := U32(s.next) + U32(s.top) + c;
    CarryBit(sum);
    UnsignedOffset(s.next);
    UnsignedOffset(s.top);
    WrapShift(sum, s.next / Two32 + s.top / Two32);
  }

  /** `Sub`: the wrapped difference, and the carry holds exactly when there is no unsigned borrow. */
  lemma SubEffect(s: State, v: int)
    ensures var (t, failure) := Exec(s, CodeSlot(Sub, v));
      && t.top == Wrap32(s.next - s.top)
      && (t.carry <==> U32(s.next) >= U32(s.top))
      && (failure.None? <==> s.stack != [])
  {
    var sum := U32(s.next) + (Two32 - 1 - U32(s.top)) + 1;
    CarryBit(sum);
    UnsignedOffset(s.next);
    UnsignedOffset(s.top);
    WrapShift(sum, s.next / Two32 - s.top / Two32 - 1);
  }

  /** `Lsr`: the carry is the bit shifted out, so shifting back and adding it restores the value. */
  lemma LsrEffect(s: State, v: int)
    ensures var (t, failure) := Exec(s, CodeSlot(Lsr, v));
      && failure.None?
      && s.top == 2 * t.top + (if t.carry then 1 else 0)
      && (IsInt32(s.top) ==> IsInt32(t.top))
      && t.(top := s.top, carry := s.carry) == s
  {
  }

  /** `Zeq` yields a flag, -1 exactly for 0; applied twice it turns any value into a flag of its truth. */
  lemma ZeqEffect(s: State, v: int)
    ensures var t := Exec(s, CodeSlot(Zeq, v)).0;
      && (t.top == -1 <==> s.top == 0) && (t.top == 0 <==> s.top != 0)
      && Exec(t, CodeSlot(Zeq, v)).0.top == (if s.top == 0 then 0 else -1)
  {
  }

  /** `Pop` undoes `Psh`. */
  lemma PshThenPop(s: State, v: int, w: int)
    ensures var t := Exec(s, CodeSlot(Psh, v)).0;
      t.top == s.top && t.next == s.top && |t.stack| == |s.stack| + 1
      && Exec(t, CodeSlot(Pop, w)) == (s, None)
  {
  }

  /** `Lit v` puts v on top and keeps everything below; `Pop` drops it again. */
  lemma LitThenPop(s: State, v: int, w: int)
    ensures var t := Exec(s, CodeSlot(Lit, v)).0;
      t.top == v && t.next == s.top && t.stack == [s.next] + s.stack
      && Exec(t, CodeSlot(Pop, w)) == (s, None)
  {
  }

  /** `Swp` twice changes nothing. */
  lemma SwpTwice(s: State, v: int, w: int)
    ensures var t := Exec(s, CodeSlot(Swp, v)).0;
      t.top == s.next && t.next == s.top && Exec(t, CodeSlot(Swp, w)) == (s, None)
  {
  }

  /** `Stw` stores `_next` at address `_top` and no other; loading that address gives it back. */
  lemma StoreThenLoad(s: State, v: int, w: int)
    ensures var t := Exec(s, CodeSlot(Stw, v)).0;
      && Entry(t.heap, s.top) == s.next
      && (forall b :: b != s.top ==> Entry(t.heap, b) == Entry(s.heap, b))
      && Exec(Exec(t, CodeSlot(Lit, s.top)).0, CodeSlot(Ldw, w)).0.top == s.next
  {
  }

  /** `Jnz` jumps to word `_top` exactly when `_top` is not zero, and pops the condition. */
  lemma JnzEffect(s: State, v: int)
    ensures var (t, failure) := Exec(s, CodeSlot(Jnz, v));
      && (s.top != 0 ==> t.programSlot == Wrap32(s.top * 8))
      && (s.top == 0 ==> t.programSlot == s.programSlot)
      && t.top == s.next && (failure.None? <==> s.stack != [])
  {
  }

  /**
   * `Jsr` jumps to word `_top` and leaves in `_top` the first word at or after the
   * slot following the call, which is where a return lands; the depth is unchanged.
   */
  lemma JsrEffect(s: State, v: int)
    requires 0 <= s.programSlot && IsInt32(s.programSlot + 7)
    ensures var (t, failure) := Exec(s, CodeSlot(Jsr, v));
      && failure.None? && t.programSlot == Wrap32(s.top * 8)
      && s.programSlot <= t.top * 8 < s.programSlot + 8
      && t.next == s.next && t.stack == s.stack
  {
  }

  /** How many values a code adds to (1) or takes from (-1) `Stack`. */
  function Depth(code: Code): int {
    match code
    case Psh => 1
    case Lit => 1
    case Stw => -1
    case Pop => -1
    case Jnz => -1
    case Add => -1
    case Adc => -1
    case Sub => -1
    case And => -1
    case Xor => -1
    case _ => 0
  }

  /** A code fails exactly when it pops an empty stack; otherwise the depth changes by `Depth`. */
  lemma {:induction false} DepthEffect(s: State, slot: CodeSlot)
    ensures var (t, failure) := Exec(s, slot);
      && (failure.Some? <==> Depth(slot.code) == -1 && s.stack == [])
      && (failure.Some? ==> failure == Some(StackEmpty))
      && (failure.None? ==> |t.stack| == |s.stack| + Depth(slot.code))
  {
    match slot.code {
      case Add => AddEffect(s, slot.value);
      case Adc => AdcEffect(s, slot.value);
      case Sub => SubEffect(s, slot.value);
      case _ =>
    }
  }

  /** Every register, stacked value and stored word is a 32-bit int. */
  predicate Int32State(s: State) {
    && IsInt32(s.programSlot) && IsInt32(s.top) && IsInt32(s.next)
    && (forall i :: 0 <= i < |s.stack| ==> IsInt32(s.stack[i]))
    && (forall a :: a in s.heap ==> IsInt32(s.heap[a]))
  }

  /** A code keeps every value within 32 bits. */
  lemma ExecInt32(s: State, slot: CodeSlot)
    requires Int32State(s) && IsInt32(slot.value)
    ensures Int32State(Exec(s, slot).0)
  {
    var t := Exec(s, slot).0;
    if slot.code == Psh || slot.code == Lit {
      assert forall i :: 1 <= i < |t.stack| ==> t.stack[i] == s.stack[i - 1];
    } else if s.stack != [] {
      assert forall i :: 0 <= i < |s.stack| - 1 ==> s.stack[1..][i] == s.stack[i + 1];
    }
  }

  /** Code slots a compiler can hold: fewer than 2^31, with 32-bit values. */
  predicate Int32Slots(cs: Slots) {
    |cs| < Two31 && forall i :: 0 <= i < |cs| && cs[i].Some? ==> IsInt32(cs[i].value.value)
  }

  lemma ResumeInt32(cs: Slots, r: (State, Option<Exception>))
    requires |cs| < Two31 && Int32State(r.0)
    ensures Int32State(Resume(cs, r).0)
  {
    if r.1.None? {
      var p := Skip(cs, r.0.programSlot);
      assert IsInt32(p);
      assert Resume(cs, r).0 == r.0.(programSlot := p);
    }
  }

  /** A step keeps every value within 32 bits. */
  lemma StepInt32(cs: Slots, s: State)
    requires Int32Slots(cs) && Int32State(s)
    ensures Int32State(StepOf(cs, s).0)
  {
    if 0 <= s.programSlot < |cs| {
      var fetched := s.(programSlot := s.programSlot + 1);
      assert Int32State(fetched);
      match cs[s.programSlot] {
        case None =>
          assert StepOf(cs, s).0 == fetched;
        case Some(slot) =>
          assert IsInt32(slot.value);
          ExecInt32(fetched, slot);
          ResumeInt32(cs, Exec(fetched, slot));
          assert StepOf(cs, s) == Resume(cs, Exec(fetched, slot));
      }
    } else {
      assert StepOf(cs, s).0 == s;
    }
  }

  /**
   * A step that succeeds leaves `ProgramSlot` on a code slot or outside the list,
   * and every code but `Jnz` and `Jsr` moves it forward past null slots only.
   */
  lemma StepLands(cs: Slots, s: State)
    requires StepOf(cs, s).1.None?
    ensures var t := StepOf(cs, s).0;
      && (t.programSlot < 0 || t.programSlot >= |cs| || cs[t.programSlot].Some?)
      && 0 <= s.programSlot < |cs| && cs[s.programSlot].Some?
      && (cs[s.programSlot].value.code !in {Jnz, Jsr} ==>
            s.programSlot < t.programSlot
            && forall k :: s.programSlot < k < t.programSlot ==> cs[k].None?)
  {
  }

  /** A step outside the code slots fails with the slot in the message and changes nothing. */
  lemma StepOutside(cs: Slots, s: State)
    requires s.programSlot < 0 || s.programSlot >= |cs|
    ensures StepOf(cs, s) == (s, Some(Failure("Outside executable code " + DecimalText(s.programSlot))))
  {
  }

  // ---------------------------------------------------------------------------
  // Run

  /** No exception a step throws carries the step-limit message. */
  lemma StepFailureNotLimit(cs: Slots, s: State)
    ensures StepOf(cs, s).1 != Some(Failure("Exceeded execution limit"))
  {
    if s.programSlot < 0 || s.programSlot >= |cs| {
      var m := "Outside executable code " + DecimalText(s.programSlot);
      assert m[0] == 'O';
    } else if cs[s.programSlot].Some? {
      DepthEffect(s.(programSlot := s.programSlot + 1), cs[s.programSlot].value);
    }
  }

  /**
   * From counter i, `Run` executes at most up to step 1000001; it stops without
   * an error only at a counter past 0 where the break condition holds, and the
   * limit message appears only when exactly 1000001 steps have run.
   */
  lemma {:induction false} RunBounds(cs: Slots, s: State, i: nat, breakCondition: int -> bool)
    requires i <= StepLimit
    ensures var (_, failure, n) := RunFrom(cs, s, i, breakCondition);
      && i <= n <= StepLimit + 1 && (i == 0 ==> n >= 1)
      && (failure.None? ==> 1 <= n <= StepLimit && breakCondition(n))
      && (failure == Some(Failure("Exceeded execution limit")) ==> n == StepLimit + 1)
    decreases StepLimit - i
  {
    if !(i != 0 && breakCondition(i)) {
      var r := StepOf(cs, s);
      StepFailureNotLimit(cs, s);
      if r.1.None? && i < StepLimit {
        RunBounds(cs, r.0, i + 1, breakCondition);
      }
    }
  }

  /** When the break condition never holds, `Run` always ends with an error. */
  lemma RunEndsInError(cs: Slots, s: State, breakCondition: int -> bool)
    requires forall k :: 1 <= k <= StepLimit ==> !breakCondition(k)
    ensures RunFrom(cs, s, 0, breakCondition).1.Some?
  {
    RunBounds(cs, s, 0, breakCondition);
  }

  class Cpu {
    /** `ProgramSlot`. */
    var programSlot: int
    /** `Heap`. */
    var heap: map<int, int>
    /** `LastHeap`, the heap as `Run` found it. */
    var lastHeap: map<int, int>
    /** `Stack`, top first. */
    var stack: seq<int>
    /** `_top`, `_next`, `_carry`. */
    var top: int
    var next: int
    var carry: bool
    /** `_error`. */
    var error: Option<string>
    /** `_codeslots`, the compiler's code slots. */
    const codeSlots: Slots

    function Snapshot(): State
      reads this
    {
      State(programSlot, top, next, carry, stack, heap)
    }

    /** `ForthStack`: `_top`, `_next` and `Stack`, cut to the length of `Stack`. */
    function ForthStack(): (r: seq<int>)
      reads this
      ensures |r| == |stack|
      ensures |stack| >= 1 ==> r[0] == top
      ensures |stack| >= 2 ==> r[1] == next
      ensures forall i :: 2 <= i < |stack| ==> r[i] == stack[i - 2]
    {
      ([top, next] + stack)[..|stack|]
    }

    constructor(codeSlots: Slots)
      ensures Snapshot() == State(0, 0, 0, false, [], map[])
      ensures lastHeap == map[] && error == None && this.codeSlots == codeSlots
    {
      programSlot := 0;
      heap := map[];
      lastHeap := map[];
      stack := [];
      top, next, carry := 0, 0, false;
      error := None;
      this.codeSlots := codeSlots;
    }

    /** `_next = Stack.Pop()`. */
    method PopNext() returns (failure: Option<Exception>)
      modifies this`next, this`stack
      ensures (Snapshot(), failure) == Popped(old(Snapshot()))
    {
      if stack == [] {
        return Some(StackEmpty);
      }
      next := stack[0];
      stack := stack[1..];
      failure := None;
    }

    /** The tail of `Add`, `Adc` and `Sub`: carry from bit 32, wrap, pop. */
    method Arithmetic(add: int) returns (failure: Option<Exception>)
      modifies this`top, this`next, this`carry, this`stack
      ensures (Snapshot(), failure) == Arith(old(Snapshot()), add)
    {
      carry := Bit32(add);
      top := Wrap32(add);
      failure := PopNext();
    }

    /** The `switch` of `Step`. */
    method Execute(slot: CodeSlot) returns (failure: Option<Exception>)
      modifies this`programSlot, this`top, this`next, this`carry, this`stack, this`heap
      ensures (Snapshot(), failure) == Exec(old(Snapshot()), slot)
    {
      failure := None;
      match slot.code {
        case Nop =>
        case Ldw =>
          top := Entry(heap, top);
        case Stw =>
          heap := heap[top := next];
          top := next;
          failure := PopNext();
        case Psh =>
          stack := [next] + stack;
          next := top;
        case Pop =>
          top := next;
          failure := PopNext();
        case Swp =>
          top, next := next, top;
        case Jnz =>
          if top != 0 {
            programSlot := Wrap32(top * 8);
          }
          top := next;
          failure := PopNext();
        case Jsr =>
          var temp := TDiv(Wrap32(programSlot + 7), 8);
          programSlot := Wrap32(top * 8);
          top := temp;
        case Add =>
          failure := Arithmetic(U32(next) + U32(top));
        case Adc =>
          failure := Arithmetic(U32(next) + U32(top) + (if carry then 1 else 0));
        case Sub =>
          failure := Arithmetic(U32(next) + (Two32 - 1 - U32(top)) + 1);
        case And =>
          top := And32(top, next);
          failure := PopNext();
        case Xor =>
          top := Xor32(top, next);
          failure := PopNext();
        case Lsr =>
          carry := top % 2 == 1;
          top := top / 2;
        case Zeq =>
          top := if top == 0 then -1 else 0;
        case Lit =>
          stack := [next] + stack;
          next := top;
          top := slot.value;
      }
    }

    /** `Step`. */
    method Step() returns (failure: Option<Exception>)
      modifies this`programSlot, this`top, this`next, this`carry, this`stack, this`heap
      ensures (Snapshot(), failure) == StepOf(codeSlots, old(Snapshot()))
    {
      if programSlot < 0 || programSlot >= |codeSlots| {
        return Some(Failure("Outside executable code " + DecimalText(programSlot)));
      }
      var code := codeSlots[programSlot];
      programSlot := programSlot + 1;
      if code.None? {
        return Some(NullReference);
      }
      failure := Execute(code.value);
      if failure.Some? {
        return;
      }
      ghost var landed := programSlot;
      while 0 <= programSlot < |codeSlots| && codeSlots[programSlot].None?
        invariant Skip(codeSlots, programSlot) == Skip(codeSlots, landed)
        modifies this`programSlot
        decreases |codeSlots| - programSlot
      {
        programSlot := programSlot + 1;
      }
    }

    /** `Run(breakCondition)`, without the call-stack bookkeeping of the debugger. */
    method Run(breakCondition: int -> bool)
      modifies this
      ensures lastHeap == old(heap)
      ensures var (s, failure, _) := RunFrom(codeSlots, old(Snapshot()), 0, breakCondition);
        Snapshot() == s && error == (if failure.Some? then Some("Error=" + Message(failure.value)) else None)
    {
      error := None;
      lastHeap := heap;
      ghost var s0 := Snapshot();
      var i := 0;
      while i == 0 || !breakCondition(i)
        invariant 0 <= i <= StepLimit && error == None && lastHeap == old(heap)
        invariant RunFrom(codeSlots, s0, 0, breakCondition) == RunFrom(codeSlots, Snapshot(), i, breakCondition)
        decreases StepLimit - i
      {
        var failure := Step();
        if failure.None? && i == StepLimit {
          failure := Some(Failure("Exceeded execution limit"));
        }
        if failure.Some? {
          error := Some("Error=" + Message(failure.value));
          return;
        }
        i := i + 1;
      }
    }
  }
}
