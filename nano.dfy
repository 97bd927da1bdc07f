/**
 * The assembler back end of nano.h: an instruction packer that packs ARCH-bit opcode
 * fields into INSTRWIDTH-bit words, a byte packer that packs bytes into DATAPATH-bit
 * data words, a word-aligned label binder and a bump allocator for variables.
 *
 * The macro engine that runs nano.h is not modelled. Its `out a, v` directive is an
 * abstract write of word v at address a into `image`; `out mem, v` also advances `mem`
 * by one. INSTRWIDTH, DATAPATH and the initial ptr/mem come from the engine.
 */
module Nano {
  import opened Wrappers
  import opened Bits

  /** Opcode field width (nano.h: ARCH = 4) and OPMASK = (1 << ARCH) - 1. */
  const ARCH: nat := 4
  const OPMASK: int := 15

  /** The opcodes of the mnemonic layer. */
  const NOP: int := 0x0
  const LDW: int := 0x1
  const STW: int := 0x2
  const PSH: int := 0x3
  const POP: int := 0x4
  const SWP: int := 0x5
  const JNZ: int := 0x6
  const JSR: int := 0x7
  const ADC: int := 0x8
  const ADD: int := 0x9
  const SUB: int := 0xa
  const AND: int := 0xb
  const XOR: int := 0xc
  const LSR: int := 0xd
  const ZEQ: int := 0xe
  const LIT: int := 0xf

  /** The engine-supplied widths. */
  datatype Config = Config(instrWidth: int, dataPath: int) {
    ghost predicate Valid() {
      instrWidth >= 0 && dataPath >= 1
    }
    /** INSTRWIDTH / ARCH (ARCH = 4): opcode fields per instruction word. */
    function SlotsPerWord(): int
      requires Valid()
    {
      instrWidth / 4
    }
    /** DATAPATH / 8: bytes per data word. */
    function BytesPerWord(): int
      requires Valid()
    {
      dataPath / 8
    }
    /** MSBIT = 1 << (DATAPATH - 1). */
    function MsBit(): (r: nat)
      requires Valid()
      ensures r * 2 == Pow2(dataPath)
    {
      Pow2(dataPath - 1)
    }
  }

  /** The number of slots a packer of capacity k really has (every put emits when k <= 1). */
  function Cap(k: int): (r: nat)
    ensures r >= 1
  {
    if k >= 1 then k else 1
  }

  /** `x & (2^k - 1)`, which in two's complement is x modulo 2^k. */
  function LowBits(x: int, k: nat): (r: nat)
    ensures r < Pow2(k)
  {
    x % Pow2(k)
  }

  /** One packer: a slot counter and the accumulator of the word being filled. */
  datatype Packer = Packer(slot: nat, acc: nat)

  /**
   * Adding one field of width w to a packer of capacity cap: the field is masked and
   * or-ed in at bit w * slot; when the slot was the last one the word is emitted and
   * the packer is reset, otherwise the slot counter advances.
   */
  function Put(p: Packer, w: nat, cap: int, x: int): (r: (Packer, Option<nat>))
    ensures r.1.Some? <==> p.slot >= cap - 1
    ensures r.1.Some? ==> r.0 == Packer(0, 0)
    ensures r.1.None? ==> r.0.slot == p.slot + 1
    ensures p.slot < Cap(cap) ==> r.0.slot < Cap(cap)
  {
    var acc := BitOr(p.acc, LowBits(x, w) * Pow2(w * p.slot));
    if p.slot >= cap - 1 then (Packer(0, 0), Some(acc)) else (Packer(p.slot + 1, acc), None)
  }

  /** The whole state nano.h keeps between macro calls, apart from vptr and OFFSET. */
  datatype Asm = Asm(instr: Packer, data: Packer, ptr: int, mem: int, image: map<int, int>)

  /** The packers' slot counters are in range. */
  ghost predicate Inv(c: Config, s: Asm)
    requires c.Valid()
  {
    && s.instr.slot < Cap(c.SlotsPerWord()) && (s.instr.slot == 0 ==> s.instr.acc == 0)
    && s.data.slot < Cap(c.BytesPerWord()) && (s.data.slot == 0 ==> s.data.acc == 0)
  }

  /** `out ptr, code; ptr = mem; out mem, 0;`: emit the instruction word and reserve the next. */
  function EmitInstr(s: Asm, word: int): Asm {
    s.(image := s.image[s.ptr := word][s.mem := 0], ptr := s.mem, mem := s.mem + 1)
  }

  /** `out mem, v`. */
  function OutMem(s: Asm, v: int): Asm {
    s.(image := s.image[s.mem := v], mem := s.mem + 1)
  }

  /** add_opcode n. */
  function AddOpcodeSpec(c: Config, s: Asm, n: int): Asm
    requires c.Valid()
  {
    var (p, w) := Put(s.instr, ARCH, c.SlotsPerWord(), n);
    if w.Some? then EmitInstr(s.(instr := p), w.value) else s.(instr := p)
  }

  /** flush_opcodes. */
  function FlushSpec(s: Asm): Asm {
    if s.instr.slot > 0 then EmitInstr(s.(instr := Packer(0, 0)), s.instr.acc) else s
  }

  /** add_char c. */
  function AddCharSpec(c: Config, s: Asm, ch: int): Asm
    requires c.Valid()
  {
    var (p, w) := Put(s.data, 8, c.BytesPerWord(), ch);
    if w.Some? then OutMem(s.(data := p), w.value) else s.(data := p)
  }

  /** flush_string: one zero terminator byte, then the partial word if any. */
  function FlushStringSpec(c: Config, s: Asm): Asm
    requires c.Valid()
  {
    var t := AddCharSpec(c, s, 0);
    if t.data.slot != 0 then OutMem(t.(data := Packer(0, 0)), t.data.acc) else t
  }

  /** What a macro call does to the packer state, in call order. */
  datatype Event = Opcode(n: int) | Out(v: int) | Flush | Char(ch: int) | EndString

  function Step(c: Config, s: Asm, e: Event): Asm
    requires c.Valid()
  {
    match e
    case Opcode(n) => AddOpcodeSpec(c, s, n)
    case Out(v) => OutMem(s, v)
    case Flush => FlushSpec(s)
    case Char(ch) => AddCharSpec(c, s, ch)
    case EndString => FlushStringSpec(c, s)
  }

  /** Every step keeps both slot counters in range. */
  lemma StepKeepsInv(c: Config, s: Asm, e: Event)
    requires c.Valid() && Inv(c, s)
    ensures Inv(c, Step(c, s, e))
  {
  }

  /** flush_opcodes on an empty packer writes nothing, so a second flush changes nothing. */
  lemma FlushTwice(s: Asm)
    ensures s.instr.slot == 0 ==> FlushSpec(s) == s
    ensures FlushSpec(FlushSpec(s)) == FlushSpec(s)
  {
  }

  /** The state after a sequence of macro calls, in call order. */
  function Replay(c: Config, s: Asm, t: seq<Event>): Asm
    requires c.Valid()
    decreases |t|
  {
    if t == [] then s else Replay(c, Step(c, s, t[0]), t[1..])
  }

  lemma {:induction false} ReplayAppend(c: Config, s: Asm, a: seq<Event>, b: seq<Event>)
    requires c.Valid()
    ensures Replay(c, s, a + b) == Replay(c, Replay(c, s, a), b)
    decreases |a|
  {
    if a == [] {
      assert a + b == b;
    } else {
      assert (a + b)[1..] == a[1..] + b;
      ReplayAppend(c, Step(c, s, a[0]), a[1..], b);
    }
  }

  /** One more event after t is one more step. */
  lemma ReplaySnoc(c: Config, s: Asm, t: seq<Event>, e: Event)
    requires c.Valid()
    ensures Replay(c, s, t + [e]) == Step(c, Replay(c, s, t), e)
  {
    ReplayAppend(c, s, t, [e]);
    assert [e][1..] == [];
  }

  /** The slot-range invariant holds after any sequence of macro calls. */
  lemma {:induction false} ReplayKeepsInv(c: Config, s: Asm, t: seq<Event>)
    requires c.Valid() && Inv(c, s)
    ensures Inv(c, Replay(c, s, t))
    decreases |t|
  {
    if t != [] {
      StepKeepsInv(c, s, t[0]);
      ReplayKeepsInv(c, Step(c, s, t[0]), t[1..]);
    }
  }

  /** Any sequence of calls that ends in flush_opcodes leaves the packer at slot 0. */
  lemma EndsWithFlush(c: Config, s: Asm, t: seq<Event>)
    requires c.Valid() && Inv(c, s) && t != [] && t[|t| - 1] == Flush
    ensures Replay(c, s, t).instr == Packer(0, 0)
  {
    var u := t[..|t| - 1];
    assert t == u + [Flush];
    ReplayAppend(c, s, u, [Flush]);
    ReplayKeepsInv(c, s, u);
  }

  /** `log n`: the number of halvings that take n - 1 to zero. */
  function BitLength(t: int): nat
    decreases if t > 0 then t else 0
  {
    if t <= 0 then 0 else 1 + BitLength(t / 2)
  }

  /** BitLength(t) is the number of bits of t. */
  lemma {:induction false} BitLengthBounds(t: nat)
    ensures t < Pow2(BitLength(t))
    ensures t >= 1 ==> Pow2(BitLength(t) - 1) <= t
    decreases t
  {
    if t > 0 {
      BitLengthBounds(t / 2);
    }
  }

  /** OFFSET = BitLength(n - 1) is ceil(log2 n): the bits needed for a slot index below n. */
  lemma CeilLog2(n: int)
    requires n >= 1
    ensures n <= Pow2(BitLength(n - 1))
    ensures n >= 2 ==> Pow2(BitLength(n - 1) - 1) < n
  {
    BitLengthBounds(n - 1);
  }

  /** Fields of width w, the first in the least significant bits. */
  function Pack(w: nat, fs: seq<nat>): nat
    decreases |fs|
  {
    if fs == [] then 0 else fs[0] + Pow2(w) * Pack(w, fs[1..])
  }

  ghost predicate Fits(w: nat, fs: seq<nat>) {
    forall i :: 0 <= i < |fs| ==> fs[i] < Pow2(w)
  }

  /** Every value of xs masked to its low w bits. */
  function Low(xs: seq<int>, w: nat): (r: seq<nat>)
    ensures |r| == |xs| && Fits(w, r)
    decreases |xs|
  {
    if xs == [] then [] else [LowBits(xs[0], w)] + Low(xs[1..], w)
  }

  /** Field i (of width w) of the word x, counted from the least significant end. */
  function Field(w: nat, x: int, i: nat): int
    decreases i
  {
    if i == 0 then x % Pow2(w) else Field(w, x / Pow2(w), i - 1)
  }

  lemma DivStep(n: int, m: int)
    requires n >= m >= 1
    ensures (n - m) / m + 1 == n / m && (n - m) % m == n % m
  {
    var q, r := (n - m) / m, (n - m) % m;
    assert n == r + m * (q + 1);
    DivModSplit(r, m, q + 1);
  }

  lemma MulBound(a: int, p: int, b: int, q: int)
    requires 0 <= a < p && 0 <= b < q
    ensures a + p * b < p * q
  {
    assert p * b <= p * (q - 1);
  }

  lemma Distribute(a: int, p: int, r: int, x: int, q: int)
    ensures a + p * (r + x * q) == (a + p * r) + x * (p * q)
  {
  }

  /** A packed word of n fields of width w needs at most w * n bits. */
  lemma {:induction false} PackBound(w: nat, fs: seq<nat>)
    requires Fits(w, fs)
    ensures Pack(w, fs) < Pow2(w * |fs|)
    decreases |fs|
  {
    if fs != [] {
      var n := |fs|;
      PackBound(w, fs[1..]);
      Pow2Add(w, w * (n - 1));
      assert w + w * (n - 1) == w * n;
      MulBound(fs[0], Pow2(w), Pack(w, fs[1..]), Pow2(w * (n - 1)));
    }
  }

  /** Appending a field puts it above all the fields already packed. */
  lemma {:induction false} PackAppend(w: nat, fs: seq<nat>, x: nat)
    ensures Pack(w, fs + [x]) == Pack(w, fs) + x * Pow2(w * |fs|)
    decreases |fs|
  {
    if fs == [] {
      assert ([] + [x])[1..] == [];
    } else {
      var n := |fs|;
      assert (fs + [x])[1..] == fs[1..] + [x];
      PackAppend(w, fs[1..], x);
      Pow2Add(w, w * (n - 1));
      assert w + w * (n - 1) == w * n;
      Distribute(fs[0], Pow2(w), Pack(w, fs[1..]), x, Pow2(w * (n - 1)));
    }
  }

  /** Every field of a packed word can be read back, and the fields beyond are zero. */
  lemma {:induction false} PackField(w: nat, fs: seq<nat>, i: nat)
    requires Fits(w, fs)
    ensures Field(w, Pack(w, fs), i) == if i < |fs| then fs[i] else 0
    decreases i
  {
    if fs == [] {
      PackEmptyField(w, i);
    } else {
      DivModSplit(fs[0], Pow2(w), Pack(w, fs[1..]));
      if i > 0 {
        PackField(w, fs[1..], i - 1);
      }
    }
  }

  lemma {:induction false} PackEmptyField(w: nat, i: nat)
    ensures Field(w, 0, i) == 0
    decreases i
  {
    if i > 0 {
      PackEmptyField(w, i - 1);
    }
  }

  /** Putting one more value into a packer that holds the fields fs. */
  lemma PutStep(w: nat, cap: int, fs: seq<nat>, x: int)
    requires Fits(w, fs)
    ensures Put(Packer(|fs|, Pack(w, fs)), w, cap, x)
         == if |fs| >= cap - 1 then (Packer(0, 0), Some(Pack(w, fs + [LowBits(x, w)])))
            else (Packer(|fs| + 1, Pack(w, fs + [LowBits(x, w)])), None)
  {
    PutAcc(w, fs, x);
  }

  /** Or-ing the masked value in above the packed fields appends it as a field. */
  lemma PutAcc(w: nat, fs: seq<nat>, x: int)
    requires Fits(w, fs)
    ensures BitOr(Pack(w, fs), LowBits(x, w) * Pow2(w * |fs|)) == Pack(w, fs + [LowBits(x, w)])
  {
    var k := w * |fs|;
    PackBound(w, fs);
    BitOrDisjoint(Pack(w, fs), LowBits(x, w), k);
    PackAppend(w, fs, LowBits(x, w));
  }

  /** Running a packer over xs: the packer at the end and the words emitted, in order. */
  function PutAll(p: Packer, w: nat, cap: int, xs: seq<int>): (Packer, seq<nat>)
    decreases |xs|
  {
    if xs == [] then (p, [])
    else
      var (p1, e) := Put(p, w, cap, xs[0]);
      var (p2, ws) := PutAll(p1, w, cap, xs[1..]);
      (p2, (if e.Some? then [e.value] else []) + ws)
  }

  lemma PutAllCons(p: Packer, w: nat, cap: int, xs: seq<int>, p1: Packer, e: Option<nat>)
    requires xs != [] && Put(p, w, cap, xs[0]) == (p1, e)
    ensures PutAll(p, w, cap, xs)
         == (PutAll(p1, w, cap, xs[1..]).0, (if e.Some? then [e.value] else []) + PutAll(p1, w, cap, xs[1..]).1)
  {
  }

  /** The words a packer of capacity cap should emit for xs: one per full group of cap values. */
  function Words(w: nat, cap: nat, xs: seq<int>): seq<nat>
    requires cap >= 1
    decreases |xs|
  {
    if |xs| < cap then [] else [Pack(w, Low(xs[..cap], w))] + Words(w, cap, xs[cap..])
  }

  /** The values left over after the last full group. */
  function Rest(cap: nat, xs: seq<int>): seq<int>
    requires cap >= 1
    decreases |xs|
  {
    if |xs| < cap then xs else Rest(cap, xs[cap..])
  }

  lemma {:induction false} WordsCount(w: nat, cap: nat, xs: seq<int>)
    requires cap >= 1
    ensures |Words(w, cap, xs)| == |xs| / cap
    ensures |Rest(cap, xs)| == |xs| % cap
    decreases |xs|
  {
    if |xs| >= cap {
      WordsCount(w, cap, xs[cap..]);
      DivStep(|xs|, cap);
    }
  }

  /** Filling a packer that holds fs with values that do not complete the word emits nothing. */
  lemma {:induction false} FillShort(w: nat, cap: nat, fs: seq<nat>, ys: seq<int>)
    requires Fits(w, fs) && |fs| + |ys| < cap
    ensures PutAll(Packer(|fs|, Pack(w, fs)), w, cap, ys) == (Packer(|fs| + |ys|, Pack(w, fs + Low(ys, w))), [])
    decreases |ys|
  {
    if ys == [] {
      assert fs + Low(ys, w) == fs;
    } else {
      var fs' := fs + [LowBits(ys[0], w)];
      var p1 := Packer(|fs'|, Pack(w, fs'));
      PutStep(w, cap, fs, ys[0]);
      PutAllCons(Packer(|fs|, Pack(w, fs)), w, cap, ys, p1, None);
      FillShort(w, cap, fs', ys[1..]);
      var r1 := PutAll(p1, w, cap, ys[1..]);
      assert [] + r1.1 == r1.1;
      LowCons(fs, w, ys);
    }
  }

  lemma LowCons(fs: seq<nat>, w: nat, ys: seq<int>)
    requires ys != []
    ensures (fs + [LowBits(ys[0], w)]) + Low(ys[1..], w) == fs + Low(ys, w)
  {
    assert Low(ys, w) == [LowBits(ys[0], w)] + Low(ys[1..], w);
  }

  /** Masking the first k values one at a time. */
  lemma LowPrefix(fs: seq<nat>, w: nat, ys: seq<int>, k: nat)
    requires 1 <= k <= |ys|
    ensures (fs + [LowBits(ys[0], w)]) + Low(ys[1..][..k - 1], w) == fs + Low(ys[..k], w)
  {
    assert Low(ys[..k], w) == [LowBits(ys[..k][0], w)] + Low(ys[..k][1..], w);
    assert ys[1..][..k - 1] == ys[..k][1..];
  }

  /** The value that fills the last slot completes and emits the word. */
  lemma FillLast(w: nat, cap: nat, fs: seq<nat>, ys: seq<int>)
    requires Fits(w, fs) && |fs| == cap - 1 && |ys| >= 1
    ensures var (p, ws) := PutAll(Packer(0, 0), w, cap, ys[1..]);
      PutAll(Packer(|fs|, Pack(w, fs)), w, cap, ys) == (p, [Pack(w, fs + Low(ys[..1], w))] + ws)
  {
    var fs' := fs + [LowBits(ys[0], w)];
    PutStep(w, cap, fs, ys[0]);
    PutAllCons(Packer(|fs|, Pack(w, fs)), w, cap, ys, Packer(0, 0), Some(Pack(w, fs')));
    assert Low(ys[..1], w) == [LowBits(ys[0], w)] by {
      assert ys[..1] == [ys[0]];
      assert Low([ys[0]], w) == [LowBits(ys[0], w)] + Low([], w);
    }
    assert fs + Low(ys[..1], w) == fs';
  }

  /**
   * Filling a packer that holds fs with at least cap - |fs| values completes the word
   * with the first cap - |fs| of them; packing then continues from an empty packer.
   */
  lemma {:induction false} FillFull(w: nat, cap: nat, fs: seq<nat>, ys: seq<int>)
    requires Fits(w, fs) && |fs| < cap <= |fs| + |ys|
    ensures var k := cap - |fs|;
      var (p, ws) := PutAll(Packer(0, 0), w, cap, ys[k..]);
      PutAll(Packer(|fs|, Pack(w, fs)), w, cap, ys) == (p, [Pack(w, fs + Low(ys[..k], w))] + ws)
    decreases |ys|
  {
    if |fs| == cap - 1 {
      FillLast(w, cap, fs, ys);
    } else {
      var k := cap - |fs|;
      var fs' := fs + [LowBits(ys[0], w)];
      var p1 := Packer(|fs'|, Pack(w, fs'));
      PutStep(w, cap, fs, ys[0]);
      PutAllCons(Packer(|fs|, Pack(w, fs)), w, cap, ys, p1, None);
      FillFull(w, cap, fs', ys[1..]);
      assert ys[1..][k - 1..] == ys[k..];
      LowPrefix(fs, w, ys, k);
      var r1 := PutAll(p1, w, cap, ys[1..]);
      assert [] + r1.1 == r1.1;
    }
  }

  /**
   * A packer started empty emits exactly the full groups of cap values, each packed
   * with the first value in the least significant field, and keeps the rest pending.
   */
  lemma {:induction false} PutAllWords(w: nat, cap: nat, xs: seq<int>)
    requires cap >= 1
    ensures PutAll(Packer(0, 0), w, cap, xs)
         == (Packer(|Rest(cap, xs)|, Pack(w, Low(Rest(cap, xs), w))), Words(w, cap, xs))
    decreases |xs|
  {
    if |xs| < cap {
      FillShort(w, cap, [], xs);
      assert [] + Low(xs, w) == Low(xs, w);
    } else {
      FillFull(w, cap, [], xs);
      assert [] + Low(xs[..cap], w) == Low(xs[..cap], w);
      PutAllWords(w, cap, xs[cap..]);
    }
  }

  /** One add_opcode call per value. */
  function Opcodes(xs: seq<int>): (t: seq<Event>)
    ensures |t| == |xs| && forall i :: 0 <= i < |xs| ==> t[i] == Opcode(xs[i])
  {
    seq(|xs|, i requires 0 <= i < |xs| => Opcode(xs[i]))
  }

  /**
   * A run of add_opcode calls drives the instruction packer as PutAll does; each
   * emitted word costs one reserved word of memory and moves ptr to it.
   */
  lemma {:induction false} ReplayOpcodes(c: Config, s: Asm, xs: seq<int>)
    requires c.Valid()
    ensures var r := Replay(c, s, Opcodes(xs));
      var (p, ws) := PutAll(s.instr, ARCH, c.SlotsPerWord(), xs);
      && r.instr == p && r.data == s.data
      && r.mem == s.mem + |ws|
      && r.ptr == (if ws == [] then s.ptr else r.mem - 1)
    decreases |xs|
  {
    if xs != [] {
      assert Opcodes(xs)[1..] == Opcodes(xs[1..]);
      ReplayOpcodes(c, Step(c, s, Opcode(xs[0])), xs[1..]);
    }
  }

  lemma PackExample()
    ensures Low([1, 2, 9], ARCH) == [1, 2, 9]
    ensures Pack(ARCH, [1, 2, 9]) == 0x921
  {
    assert Pow2(ARCH) == 16;
    assert Low([9], ARCH) == [9] + Low([], ARCH);
    assert Low([2, 9], ARCH) == [2] + Low([9], ARCH);
    assert Low([1, 2, 9], ARCH) == [1] + Low([2, 9], ARCH);
    assert Pack(ARCH, [9]) == 9 + 16 * Pack(ARCH, []);
    assert Pack(ARCH, [2, 9]) == 2 + 16 * Pack(ARCH, [9]);
    assert Pack(ARCH, [1, 2, 9]) == 1 + 16 * Pack(ARCH, [2, 9]);
  }

  /** With four slots per word, opcodes 1, 2, 9 then a flush give the word 0x921 at ptr. */
  lemma ThreeOpcodesThenFlush(s: Asm)
    requires s.instr == Packer(0, 0) && s.ptr < s.mem
    ensures var c := Config(16, 32);
      var r := Replay(c, s, Opcodes([1, 2, 9]) + [Flush]);
      && s.ptr in r.image && r.image[s.ptr] == 0x921 && s.mem in r.image && r.image[s.mem] == 0
      && r.ptr == s.mem && r.mem == s.mem + 1 && r.instr == Packer(0, 0)
  {
    var c := Config(16, 32);
    var t := Opcodes([1, 2, 9]);
    ReplayAppend(c, s, t, [Flush]);
    ReplayOpcodes(c, s, [1, 2, 9]);
    FillShort(ARCH, 4, [], [1, 2, 9]);
    PackExample();
    assert [] + Low([1, 2, 9], ARCH) == [1, 2, 9];
    var m := Replay(c, s, t);
    assert m.instr == Packer(3, 0x921) && m.ptr == s.ptr && m.mem == s.mem;
    assert Replay(c, m, [Flush]) == FlushSpec(m);
  }

  /** With 16-bit data words, "Hi" and its terminator make the words 0x6948 and 0. */
  lemma HiString(s: Asm)
    requires s.data == Packer(0, 0)
    ensures var c := Config(32, 16);
      var r := Replay(c, s, [Char(0x48), Char(0x69), EndString]);
      && s.mem in r.image && r.image[s.mem] == 0x6948
      && s.mem + 1 in r.image && r.image[s.mem + 1] == 0
      && r.mem == s.mem + 2 && r.data == Packer(0, 0)
  {
    var c := Config(32, 16);
    assert c.BytesPerWord() == 2;
    assert Pow2(8) == 256;
    var s1 := AddCharSpec(c, s, 0x48);
    assert s1 == s.(data := Packer(1, 0x48));
    BitOrDisjoint(0x48, 0x69, 8);
    var s2 := AddCharSpec(c, s1, 0x69);
    assert s2 == OutMem(s, 0x6948);
    var s3 := FlushStringSpec(c, s2);
    assert AddCharSpec(c, s2, 0) == s2.(data := Packer(1, 0));
    assert s3 == OutMem(s2, 0);
    assert [Char(0x48), Char(0x69), EndString][1..] == [Char(0x69), EndString];
    assert [Char(0x69), EndString][1..] == [EndString];
    assert Replay(c, s2, [EndString]) == s3;
  }

  /** The opcode mnemonics of nano.h. */
  datatype Mnemonic = Lit | Nop | Ldw | Stw | Psh | Pop | Swp | Jnz | Jsr | Adc | Add | Sub | And | Xor | Lsr | Zeq

  /** The opcode each mnemonic finally adds. */
  function OpcodeOf(m: Mnemonic): (n: int)
    ensures 0 <= n <= OPMASK
  {
    match m
    case Lit => LIT case Nop => NOP case Ldw => LDW case Stw => STW
    case Psh => PSH case Pop => POP case Swp => SWP case Jnz => JNZ
    case Jsr => JSR case Adc => ADC case Add => ADD case Sub => SUB
    case And => AND case Xor => XOR case Lsr => LSR case Zeq => ZEQ
  }

  /** The mnemonics that push their optional argument first (`#if (argc > 0) { psh n; }`). */
  predicate PushesArgument(m: Mnemonic) {
    m.Jnz? || m.Jsr? || m.Adc? || m.Add? || m.Sub? || m.And? || m.Xor?
  }

  /** `lit n`: the literal word goes to the data stream, then the lit opcode. */
  function LitOps(n: int): seq<Event> {
    [Out(n), Opcode(LIT)]
  }

  /** A mnemonic's own opcode, and the flush that ends jsr. */
  function OpcodeEvents(m: Mnemonic): seq<Event> {
    [Opcode(OpcodeOf(m))] + (if m == Jsr then [Flush] else [])
  }

  /** The calls a mnemonic makes; arg is the optional argument (argc > 0). */
  function Expand(m: Mnemonic, arg: Option<int>): seq<Event>
    requires m == Lit ==> arg.Some?
  {
    if m == Lit then LitOps(arg.value)
    else if m == Psh then (if arg.Some? then LitOps(arg.value) else [Opcode(PSH)])
    else
      (if PushesArgument(m) && arg.Some? then LitOps(arg.value) else [])
      + [Opcode(OpcodeOf(m))]
      + (if m == Jsr then [Flush] else [])
  }

  /** How many add_opcode calls a sequence of calls makes. */
  function OpcodeCount(t: seq<Event>): nat
    decreases |t|
  {
    if t == [] then 0 else (if t[0].Opcode? then 1 else 0) + OpcodeCount(t[1..])
  }

  lemma {:induction false} OpcodeCountAppend(a: seq<Event>, b: seq<Event>)
    ensures OpcodeCount(a + b) == OpcodeCount(a) + OpcodeCount(b)
    decreases |a|
  {
    if a == [] {
      assert a + b == b;
    } else {
      assert (a + b)[1..] == a[1..] + b;
      OpcodeCountAppend(a[1..], b);
    }
  }

  /** The literal words a sequence of calls writes, in order. */
  function Literals(t: seq<Event>): seq<int>
    decreases |t|
  {
    if t == [] then [] else (if t[0].Out? then [t[0].v] else []) + Literals(t[1..])
  }

  lemma {:induction false} LiteralsAppend(a: seq<Event>, b: seq<Event>)
    ensures Literals(a + b) == Literals(a) + Literals(b)
    decreases |a|
  {
    if a == [] {
      assert a + b == b;
    } else {
      assert (a + b)[1..] == a[1..] + b;
      LiteralsAppend(a[1..], b);
      var h := if a[0].Out? then [a[0].v] else [];
      assert h + (Literals(a[1..]) + Literals(b)) == (h + Literals(a[1..])) + Literals(b);
    }
  }

  /** Every literal word written is immediately followed by the lit opcode that reads it. */
  ghost predicate LiteralsPaired(t: seq<Event>) {
    forall i :: 0 <= i < |t| && t[i].Out? ==> i + 1 < |t| && t[i + 1] == Opcode(LIT)
  }

  /**
   * A mnemonic adds one opcode, plus one lit opcode when it pushes a given argument
   * first (`psh n` is `lit n` alone); every literal is paired with its lit.
   */
  lemma ExpandShape(m: Mnemonic, arg: Option<int>)
    requires m == Lit ==> arg.Some?
    ensures var t := Expand(m, arg);
      && OpcodeCount(t) == (if PushesArgument(m) && arg.Some? then 2 else 1)
      && LiteralsPaired(t)
      && ((m == Psh && arg.Some?) || exists i :: 0 <= i < |t| && t[i] == Opcode(OpcodeOf(m)))
  {
    var t := Expand(m, arg);
    if m == Lit || (m == Psh && arg.Some?) {
      LitOpsShape(arg.value);
      assert t[1] == Opcode(OpcodeOf(Lit));
    } else if m == Psh {
      assert t[0] == Opcode(PSH);
      assert t[1..] == [];
    } else {
      OpcodeExpandShape(m, arg);
    }
  }

  lemma LitOpsShape(n: int)
    ensures OpcodeCount(LitOps(n)) == 1 && LiteralsPaired(LitOps(n))
  {
    var t := LitOps(n);
    assert t[1..] == [Opcode(LIT)] && t[1..][1..] == [];
    assert OpcodeCount(t[1..]) == 1;
    forall i | 0 <= i < |t| && t[i].Out?
      ensures i + 1 < |t| && t[i + 1] == Opcode(LIT)
    {
      assert i == 0;
    }
  }

  /** Literals stay paired across a concatenation whose first part does not end in a literal. */
  lemma PairedAppend(a: seq<Event>, b: seq<Event>)
    requires LiteralsPaired(a) && LiteralsPaired(b) && (a != [] ==> !a[|a| - 1].Out?)
    ensures LiteralsPaired(a + b)
  {
    var t := a + b;
    forall i | 0 <= i < |t| && t[i].Out?
      ensures i + 1 < |t| && t[i + 1] == Opcode(LIT)
    {
      if i < |a| {
        assert t[i] == a[i];
        assert t[i + 1] == a[i + 1];
      } else {
        assert t[i] == b[i - |a|];
        assert t[i + 1] == b[i + 1 - |a|];
      }
    }
  }

  /** A mnemonic other than lit and psh: its optional literal, its opcode, and jsr's flush. */
  lemma OpcodeExpandShape(m: Mnemonic, arg: Option<int>)
    requires m != Lit && m != Psh
    ensures var t := Expand(m, arg);
      && OpcodeCount(t) == (if PushesArgument(m) && arg.Some? then 2 else 1)
      && LiteralsPaired(t)
      && exists i :: 0 <= i < |t| && t[i] == Opcode(OpcodeOf(m))
  {
    var pre := if PushesArgument(m) && arg.Some? then LitOps(arg.value) else [];
    var op := [Opcode(OpcodeOf(m))];
    var post: seq<Event> := if m == Jsr then [Flush] else [];
    assert Expand(m, arg) == pre + op + post;
    if pre != [] {
      LitOpsShape(arg.value);
    }
    assert op[1..] == [] && (post == [] || post[1..] == []);
    OpcodeCountAppend(pre + op, post);
    OpcodeCountAppend(pre, op);
    PairedAppend(pre, op);
    PairedAppend(pre + op, post);
    assert (pre + op + post)[|pre|] == Opcode(OpcodeOf(m));
  }

  /** `lit n` writes n at mem and then adds the lit opcode. */
  lemma ReplayLit(c: Config, s: Asm, n: int)
    requires c.Valid()
    ensures Replay(c, s, LitOps(n)) == AddOpcodeSpec(c, OutMem(s, n), LIT)
  {
    var s1 := OutMem(s, n);
    assert LitOps(n)[1..] == [Opcode(LIT)];
    assert Replay(c, s, LitOps(n)) == Replay(c, s1, [Opcode(LIT)]);
    assert [Opcode(LIT)][1..] == [];
    assert Replay(c, s1, [Opcode(LIT)]) == Replay(c, AddOpcodeSpec(c, s1, LIT), []);
  }

  class Assembler {
    const cfg: Config
    var slot: nat
    var code: nat
    var sslot: nat
    var sdat: nat
    var ptr: int
    var mem: int
    var image: map<int, int>
    var vptr: int
    var offset: int

    function State(): Asm
      reads this`slot, this`code, this`sslot, this`sdat, this`ptr, this`mem, this`image
    {
      Asm(Packer(slot, code), Packer(sslot, sdat), ptr, mem, image)
    }

    ghost predicate Valid()
      reads this`slot, this`code, this`sslot, this`sdat, this`ptr, this`mem, this`image
    {
      cfg.Valid() && Inv(cfg, State())
    }

    /** nano.h lines 2-21 on the first pass: clear the packers and vptr, compute OFFSET. */
    constructor (c: Config, ptr0: int, mem0: int)
      requires c.Valid()
      ensures Valid() && cfg == c
      ensures State() == Asm(Packer(0, 0), Packer(0, 0), ptr0, mem0, map[])
      ensures vptr == 0 && offset == BitLength(c.SlotsPerWord() - 1)
    {
      cfg := c;
      slot, code, sslot, sdat, vptr := 0, 0, 0, 0, 0;
      ptr, mem, image := ptr0, mem0, map[];
      new;
      Log(c.SlotsPerWord());
    }

    /** The start of a later pass: the same variables are cleared again (OFFSET is kept). */
    method BeginPass(ptr0: int, mem0: int)
      requires cfg.Valid()
      modifies this
      ensures Valid() && offset == old(offset) && vptr == 0
      ensures State() == Asm(Packer(0, 0), Packer(0, 0), ptr0, mem0, old(image))
    {
      slot, code, sslot, sdat, vptr := 0, 0, 0, 0, 0;
      ptr, mem := ptr0, mem0;
    }

    /** `log n { l=0; t=n-1; while (t>0) { t=t>>1; l=l+1; } OFFSET = l; }` */
    method Log(n: int)
      modifies this`offset
      ensures offset == BitLength(n - 1)
    {
      var l := 0;
      var t := n - 1;
      while t > 0
        invariant l + BitLength(t) == BitLength(n - 1)
        decreases t
      {
        t := t / 2;
        l := l + 1;
      }
      offset := l;
    }

    /** add_opcode n */
    method AddOpcode(n: int)
      requires Valid()
      modifies this
      ensures Valid() && State() == AddOpcodeSpec(cfg, old(State()), n)
      ensures vptr == old(vptr) && offset == old(offset)
    {
      ghost var s := State();
      var flag := 0;
      code := BitOr(code, LowBits(n, ARCH) * Pow2(ARCH * slot));
      if slot >= cfg.SlotsPerWord() - 1 {
        image := image[ptr := code];
        ptr := mem;
        image := image[mem := 0];
        mem := mem + 1;
        code := 0;
        slot := 0;
        flag := 1;
      }
      if flag == 0 {
        slot := slot + 1;
      }
      assert State() == Step(cfg, s, Opcode(n));
      StepKeepsInv(cfg, s, Opcode(n));
    }

    /** flush_opcodes */
    method FlushOpcodes()
      requires Valid()
      modifies this
      ensures Valid() && State() == FlushSpec(old(State()))
      ensures slot == 0 && code == 0
      ensures vptr == old(vptr) && offset == old(offset)
    {
      ghost var s := State();
      if slot > 0 {
        image := image[ptr := code];
        ptr := mem;
        image := image[mem := 0];
        mem := mem + 1;
        slot := 0;
        code := 0;
      }
      assert State() == Step(cfg, s, Flush);
      StepKeepsInv(cfg, s, Flush);
    }

    /** add_char c */
    method AddChar(ch: int)
      requires Valid()
      modifies this
      ensures Valid() && State() == AddCharSpec(cfg, old(State()), ch)
      ensures vptr == old(vptr) && offset == old(offset)
    {
      ghost var s := State();
      var sflag := 0;
      sdat := BitOr(sdat, LowBits(ch, 8) * Pow2(8 * sslot));
      if sslot >= cfg.BytesPerWord() - 1 {
        image := image[mem := sdat];
        mem := mem + 1;
        sdat := 0;
        sslot := 0;
        sflag := 1;
      }
      if sflag == 0 {
        sslot := sslot + 1;
      }
      assert State() == Step(cfg, s, Char(ch));
      StepKeepsInv(cfg, s, Char(ch));
    }

    /** flush_string */
    method FlushString()
      requires Valid()
      modifies this
      ensures Valid() && State() == FlushStringSpec(cfg, old(State()))
      ensures vptr == old(vptr) && offset == old(offset)
    {
      ghost var s := State();
      AddChar(0);
      if sslot != 0 {
        image := image[mem := sdat];
        mem := mem + 1;
        sslot := 0;
        sdat := 0;
      }
      assert State() == Step(cfg, s, EndString);
      StepKeepsInv(cfg, s, EndString);
    }

    /** `out mem, v` as issued by lit. */
    method OutWord(v: int)
      requires Valid()
      modifies this
      ensures Valid() && State() == OutMem(old(State()), v)
      ensures vptr == old(vptr) && offset == old(offset)
    {
      image := image[mem := v];
      mem := mem + 1;
    }

    /** `lit n`: write n to the data stream and add the lit opcode. */
    method PushArgument(n: int)
      requires Valid()
      modifies this
      ensures Valid() && State() == Replay(cfg, old(State()), LitOps(n))
      ensures vptr == old(vptr) && offset == old(offset)
    {
      ghost var s := State();
      OutWord(n);
      AddOpcode(LIT);
      ReplayLit(cfg, s, n);
    }

    /** The mnemonic's own opcode, and the flush that ends jsr. */
    method AddMnemonicOpcode(m: Mnemonic)
      requires Valid()
      modifies this
      ensures Valid() && State() == Replay(cfg, old(State()), OpcodeEvents(m))
      ensures m == Jsr ==> slot == 0 && code == 0
      ensures vptr == old(vptr) && offset == old(offset)
    {
      ghost var s := State();
      AddOpcode(OpcodeOf(m));
      ReplaySnoc(cfg, s, [], Opcode(OpcodeOf(m)));
      assert [] + [Opcode(OpcodeOf(m))] == [Opcode(OpcodeOf(m))];
      if m == Jsr {
        FlushOpcodes();
        ReplaySnoc(cfg, s, [Opcode(OpcodeOf(m))], Flush);
      }
      assert OpcodeEvents(m) == [Opcode(OpcodeOf(m))] + (if m == Jsr then [Flush] else []);
    }

    /** One mnemonic of nano.h, with its optional argument. */
    method Emit(m: Mnemonic, arg: Option<int>)
      requires Valid() && (m == Lit ==> arg.Some?)
      modifies this
      ensures Valid() && State() == Replay(cfg, old(State()), Expand(m, arg))
      ensures m == Jsr ==> slot == 0 && code == 0
      ensures vptr == old(vptr) && offset == old(offset)
    {
      if m == Lit || (m == Psh && arg.Some?) {
        PushArgument(arg.value);
      } else {
        EmitOpcode(m, arg);
      }
    }

    /** A mnemonic other than lit and `psh n`: its pushed argument if any, then its opcode. */
    method EmitOpcode(m: Mnemonic, arg: Option<int>)
      requires Valid() && m != Lit && !(m == Psh && arg.Some?)
      modifies this
      ensures Valid() && State() == Replay(cfg, old(State()), Expand(m, arg))
      ensures m == Jsr ==> slot == 0 && code == 0
      ensures vptr == old(vptr) && offset == old(offset)
    {
      ghost var s := State();
      ghost var pre: seq<Event> := [];
      if PushesArgument(m) && arg.Some? {
        PushArgument(arg.value);
        pre := LitOps(arg.value);
      }
      assert State() == Replay(cfg, s, pre);
      AddMnemonicOpcode(m);
      ReplayAppend(cfg, s, pre, OpcodeEvents(m));
      assert Expand(m, arg) == pre + OpcodeEvents(m);
    }

    /** variable n: n = vptr; vptr = vptr + 1. */
    method Variable() returns (n: int)
      modifies this`vptr
      ensures n == old(vptr) && vptr == old(vptr) + 1
    {
      n := vptr;
      vptr := vptr + 1;
    }

    /** alloc n, m: n = vptr; vptr = vptr + m. */
    method Alloc(m: int) returns (n: int)
      modifies this`vptr
      ensures n == old(vptr) && vptr == old(vptr) + m
    {
      n := vptr;
      vptr := vptr + m;
    }

    /** lbl x: flush, then bind x to the instruction-stream cursor, which is word-aligned. */
    method Lbl() returns (x: int)
      requires Valid()
      modifies this
      ensures Valid() && State() == FlushSpec(old(State()))
      ensures x == ptr && slot == 0 && code == 0
      ensures vptr == old(vptr) && offset == old(offset)
    {
      FlushOpcodes();
      x := ptr;
    }

    /** strlbl x and setstring n: bind to the data-stream cursor. */
    method StrLbl() returns (x: int)
      ensures x == mem
    {
      x := mem;
    }
  }
}
