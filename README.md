# forthcompiler core, modelled in Dafny

forthcompiler is a Forth compiler for a small stack-machine CPU. It comes with a
simulator and a debugger window, and it has an assembler back end written as
macros for an external macro assembler. This project models the integer-only
core of each part, as Dafny datatypes, functions, classes and methods, and
proves what each part promises.

- **Assembler back end** (`nano.h`, module `Nano`). The class `Nano.Assembler`
  holds the engine state: `slot`, `code`, `sslot`, `sdat`, `ptr`, `mem`, `vptr`
  and OFFSET.
  - The instruction packer (`add_opcode`, `flush_opcodes`) packs 4-bit opcodes
    into INSTRWIDTH-bit words.
  - The byte packer (`add_char`, `flush_string`) packs bytes into DATAPATH-bit
    words.
  - `lbl` binds labels to word-aligned addresses. `variable` and `alloc` are a
    bump allocator.
  - The mnemonics expand to calls of the packers.
  - Each macro is a method whose new state is a specification function of the
    old one. The packers are proved against `Pack`, which packs a list of fields
    into one word.
- **Macro library** (`nano_macro.h`, module `NanoMacros`). Each derived
  instruction is a list of mnemonic calls, played on an `Assembler`. The
  `shl`/`shr` loops are played by a counting loop. Lemmas fix each expansion's
  opcode count and the literal words it writes.
- **Compiler** (`Compiler.cs`).
  - Module `Slots` models the code-slot list: `Encode`'s blank slots after
    every word, `Label`'s padding and the back-patching.
  - Module `Compiling` holds the class `Compiler`: `MakeDictEntry`, `Addr`,
    `Label`, the heap allocator, literal encoding, the unpatched-label check and
    the slot fix-up loops of `Parse`.
  - Module `Literals` models `Convert.ToInt32` for the three radixes.
- **Simulator** (`Cpu.cs`, module `Simulator`). `Step` and `Run` are methods of
  the class `Cpu`, proved against a step function on values, with 32-bit
  wrap-around and carry.
- **Encodings** (`Architecture.cs`, `ExtensionMethods.cs`, modules
  `Architecture` and `Extensions`).
  - The conversion between a code index and a packed address.
  - The data-path masks.
  - Splitting an int into eight 4-bit codes and summing them back with LINQ's
    checked `Sum`.
  - Slot-range membership, the structure-stack `Pop` and the dictionary
    registration overloads.
- **Tokens and the command line** (`Token.cs`, `Program.cs`, modules `Tokens`
  and `CommandLine`). Token classification, the token's type fallback and label
  name, the flag map and its defaults, and the option dispatch of `Compile`.
- **Debugger logic** (`DebugWindow.xaml.cs`, `SourceItem.cs`, modules
  `MacroFolding`, `DebugWindow` and `SourceItems`).
  - Listing the tokens line by line while folding macro tokens into the last
    listed token. Both files run this same loop, modelled once.
  - The test-record check over the Forth stack.

Modules `Wrappers`, `Bits` and `Records` hold the shared pieces:
- the `Result`/`Option` wrappers and the exceptions the source throws;
- powers of two and two's-complement wrap-around;
- the sixteen machine codes, the dictionary entries, and the case-insensitive
  dictionary, an association list that keeps insertion order.

The source files come from different snapshots of the project. Each file is
modelled against its own text. The machine codes follow the opcode numbering of
`nano.h`. The `OpCode` enum in `Program.cs` is another, older numbering, and
nothing in the core uses it. Where a specification and the code differ, the
model follows the code.

## Model

| member | source | states |
|---|---|---|
| Bits.U32 | ExtensionMethods.cs:22 | `unchecked((uint)x)` is the value in 0 .. 2^32 - 1 congruent to x modulo 2^32, and x itself when x already lies there |
| Bits.Wrap32 | Cpu.cs:95 | `unchecked((int)x)` is an int congruent to x modulo 2^32, and x itself when x already is one |
| Bits.Wrap64 | Architecture.cs:16-17 | `unchecked((long)x)` is a long congruent to x modulo 2^64, and x itself when x already is one |
| Bits.TDiv | Architecture.cs:27 | C#'s `/` truncates toward zero: |q * b| <= |a| < |q * b| + |b|, and a non-zero quotient is positive exactly when the operands have the same sign; it agrees with Euclidean division for a non-negative dividend and a positive divisor |
| Bits.TRem | Architecture.cs:27 | C#'s `%` is smaller than the divisor in absolute value, takes the sign of the dividend when it is not zero, and satisfies a == (a / b) * b + a % b with the truncating quotient |
| Bits.WrapUnsigned | ExtensionMethods.cs:22 | reading the unsigned view of an int back as signed gives the int |
| Bits.And32 | Cpu.cs:111 | `&` on two ints is an int whose unsigned 32 bits are the bitwise and of the operands' unsigned 32 bits |
| Bits.Xor32 | Cpu.cs:115 | `^` on two ints is an int whose unsigned 32 bits are the bitwise exclusive or of the operands' unsigned 32 bits |
| Bits.And32Bits | Cpu.cs:111 | bit i of `a & b` is set exactly when bit i is set in both a and b |
| Bits.Xor32Bits | Cpu.cs:115 | bit i of `a ^ b` is set exactly when a and b differ in bit i |
| Bits.And32LowMask | Architecture.cs:32 | and-ing with the mask 2^k - 1, for k below 31, keeps the remainder modulo 2^k, for negative values too |
| Bits.Xor32Zero | HW_Sources/Assembler/nano_macro.h:24-25 | `a ^ b` is zero exactly when a == b, the fact `xor; pop; jpz` relies on to test equality |
| Bits.BitOrDisjoint | HW_Sources/Assembler/nano.h:24 | or-ing a value into bits that are still zero is addition, the fact every shift-and-or packer relies on |
| Bits.DivModSplit | Architecture.cs:27 | division by m undoes a + m * b when 0 <= a < m |
| Records.FromNibble | HW_Sources/Assembler/nano.h:37-54 | every 4-bit value is the opcode of exactly one code |
| Records.NibbleRoundTrip | HW_Sources/Assembler/nano.h:37-54 | converting a code to its 4-bit opcode and back gives the code |
| Records.Table.Find | Compiler.cs:22-24 | a case-insensitive lookup finds the first entry whose key equals the key ignoring case, or reports that none does |
| Records.Table.Get | Compiler.cs:214 | `TryGetValue` finds a value exactly when the key is present |
| Records.Table.Add | ExtensionMethods.cs:42 | `Add` throws exactly when the key is present and otherwise appends the entry, keeping keys distinct |
| Records.Table.Set | Compiler.cs:223 | the indexer's setter makes the key map to the value, keeps keys distinct, replaces a present entry at its position keeping the key as first spelt, appends an absent one, and changes no other key's lookup |
| Records.Table.Last | ExtensionMethods.cs:50 | `Last()` finds an entry exactly when the dictionary is not empty |
| Records.SetPresent | Compiler.cs:223 | replacing the value of a present key keeps every key, and so every other lookup |
| Records.SetAbsent | Compiler.cs:223 | appending an absent key finds it at the end and leaves every other lookup alone |
| Records.FindAppendKey | ExtensionMethods.cs:42 | after appending an entry a lookup finds the old entry, the new one when no old one matches, or nothing |
| Slots.Encoded | Compiler.cs:241-250 | `Encode` keeps the old slots as a prefix, appends the new slot, then only blanks, and leaves the count congruent to one more modulo 8 |
| Slots.EncodedAfter | Compiler.cs:241-250 | encoding after whole words depends only on the slots after them |
| Slots.EncodedLaid | Compiler.cs:241-250 | encoding keeps the layout: each word of eight code slots is followed by eight blanks per literal in it |
| Slots.TailCodes | Compiler.cs:247 | the last eight slots that `Encode` counts literals in are never null, so the `Count` never dereferences null |
| Slots.Padded | Compiler.cs:421-424 | padding appends at most one word's worth of `Nop` and blank slots and ends on a multiple of 8 |
| Slots.PaddedLaid | Compiler.cs:421-424 | padding keeps the layout |
| Slots.PaddedTwice | Compiler.cs:421-424 | padding an aligned list adds nothing |
| Slots.SameCodesLaid | Compiler.cs:241-250 | the layout depends only on which slots are null and which are literals, so patching values keeps it |
| Slots.Patched | Compiler.cs:428-431 | patching never changes a slot's code or whether it is null |
| Slots.PatchTargetsGrow | Compiler.cs:411 | a recorded patch stays a literal slot while the slots only grow |
| Slots.PatchedValues | Compiler.cs:428-431 | patching literal slots never throws, sets exactly the patched slots to the value and keeps every other slot |
| Architecture.ShiftLeft64 | Architecture.cs:17 | `x << (int)k` on a long is a long: the count is cast to int and masked to six bits, and the product wraps |
| Architecture.IntLowMask | Architecture.cs:32 | `(1 << (int)k) - 1` built in int arithmetic is 2^(k mod 32) - 1, never more than 31 one bits |
| Architecture.LowBits | Architecture.cs:32 | `x & (2^j - 1)` lies in 0 .. 2^j - 1 for every two's complement x |
| Architecture.Arch.ToAddressAndSubWordSlot | Architecture.cs:25-28 | the packed address is a long: word index shifted left by the slot bits plus the slot, with C#'s truncating `/` and `%`; zero instructions per word throws DivideByZeroException and long.MinValue / -1 throws OverflowException |
| Architecture.Arch.ToCodeIndex | Architecture.cs:30-33 | the code index unpacked from an address is a long, with the slot mask built as an int as written |
| Architecture.Arch.ToCodeIndexWide | Architecture.cs:30-33 | the same unpacking with the slot mask built as a long; the result is a long |
| Architecture.Arch.DataPathCarryBit | Architecture.cs:17 | `1L << (int)DataPathWordSize` is a long (its value is given by `DataPathMasks`) |
| Architecture.Arch.DataPathMask | Architecture.cs:16 | `DataPathCarryBit - 1` is a long, wrapping at long.MinValue |
| Architecture.Arch.DataPathMsBit | Architecture.cs:18 | `DataPathCarryBit >> 1` is a long |
| Architecture.Defaults | Architecture.cs:10-14 | the property initialisers (32, 5, 6, 3, 32) give a layout in which six slots fit three slot bits |
| Architecture.SmallCount | Architecture.cs:17 | a shift count from 0 to 62 survives the int cast and both count masks |
| Architecture.ShiftLeftExact | Architecture.cs:17 | a left shift that stays within a long is multiplication by 2^k |
| Architecture.ShiftRightExact | Architecture.cs:18 | an arithmetic right shift by 0 .. 62 is floor division by 2^k |
| Architecture.DataPathMasks | Architecture.cs:16-18 | below 63 bits the carry bit is 2^w, the mask 2^w - 1 and the top bit 2^(w-1), half the carry bit |
| Architecture.DataPathMasksAt63 | Architecture.cs:16-18 | at 63 bits the carry bit wraps to long.MinValue and the mask to long.MaxValue |
| Architecture.DefaultMasks | Architecture.cs:14-18 | with the default 32-bit data path the carry bit is 0x1_0000_0000, the mask 0xFFFF_FFFF, the top bit 0x8000_0000 |
| Architecture.AddressOf | Architecture.cs:25-28 | for a non-negative index that fits, packing is plain arithmetic: (v / p) * 2^k + v % p |
| Architecture.IndexOf | Architecture.cs:30-33 | unpacking word q with slot field r gives q * p + r |
| Architecture.CodeIndexRoundTripWide | Architecture.cs:25-33 | unpacking a packed code index gives the index back, for every slot width that fits a long |
| Architecture.NarrowMaskAgrees | Architecture.cs:32 | with fewer than 32 slot bits the int mask and the long mask agree |
| Architecture.CodeIndexRoundTrip | Architecture.cs:25-33 | with at most 31 slot bits, ToCodeIndex undoes ToAddressAndSubWordSlot |
| Architecture.AddressRoundTrip | Architecture.cs:25-33 | an address whose slot field names a slot of its word packs back to itself |
| Architecture.PackIndex | Architecture.cs:25-28 | packing code index q * p + r gives q shifted by the slot bits, plus r |
| Architecture.UnpackIndex | Architecture.cs:30-33 | unpacking splits an address into its word (high bits) times p plus its slot field (low bits) |
| Architecture.WordStartSlotZero | Architecture.cs:25-28 | the first code index of a word packs to slot field 0 |
| Architecture.DefaultSlotField | Architecture.cs:25-28 | under the defaults the slot field of index v is v % 6 |
| Architecture.ThirtyTwoBitSlotAddress | Architecture.cs:25-28 | with 32 slot bits, code index 1 packs to address 1 |
| Architecture.ThirtyTwoBitSlotIndex | Architecture.cs:30-33 | with 32 slot bits, address 1 unpacks to 0 as written and to 1 with a long mask |
| Architecture.WideSlotFieldLosesSlot | Architecture.cs:32 | with 32 slot bits the int mask is 0, so code index 1 does not survive the round trip |
| Extensions.CodesOf | ExtensionMethods.cs:20-28 | the eight codes of an int are its unsigned value's nibbles, least significant first |
| Extensions.FromCodes | ExtensionMethods.cs:30-33 | `FromCodes` gives an int or throws OverflowException (its inverse property is `CodesRoundTrip`); no codes sum to 0 |
| Extensions.ToCodes | ExtensionMethods.cs:20-28 | the loop that yields `(uvalue >> (i*4)) & 0xF` for i = 0 .. 7 produces exactly the eight nibbles of the value |
| Extensions.CheckedSumAppend | ExtensionMethods.cs:32 | LINQ's checked `Sum` over a concatenation sums the first part, then the second from there, and stops at the first overflow |
| Extensions.LowStep | ExtensionMethods.cs:32 | below the top nibble a term `c << (i*4)` needs no wrapping and the running sum stays under 2^28 |
| Extensions.TopStep | ExtensionMethods.cs:32 | the top nibble's term wraps exactly when the int is negative, which restores its sign |
| Extensions.PartialStep | ExtensionMethods.cs:32 | adding the next term to the partial sum gives the next partial sum, and it stays an int |
| Extensions.SumFrom | ExtensionMethods.cs:30-33 | summing the remaining terms from any partial sum reaches the value without overflow |
| Extensions.CodesRoundTrip | ExtensionMethods.cs:20-33 | `FromCodes(ToCodes(v)) == v` for every int v, and the checked sum never overflows on the way |
| Extensions.NinthTerm | ExtensionMethods.cs:32 | at position 8 the shift count `(8*4) & 31` is 0, so the term is the bare nibble |
| Extensions.CheckedSumOne | ExtensionMethods.cs:32 | adding one term either stays an int or throws OverflowException |
| Extensions.FromCodesSnoc | ExtensionMethods.cs:30-33 | one more code adds its term to the sum so far, or throws OverflowException |
| Extensions.NinthCode | ExtensionMethods.cs:30-33 | a ninth code after the eight codes of v adds its nibble to v, or overflows |
| Extensions.NinthCodeOverflows | ExtensionMethods.cs:30-33 | the eight codes of int.MaxValue followed by `Ldw` make the checked sum throw |
| Extensions.ContainsRange | ExtensionMethods.cs:35-38 | without overflow, `Contains` holds exactly for slots in [CodeSlot, CodeSlot + CodeCount), and never when CodeCount <= 0 |
| Extensions.Contains | ExtensionMethods.cs:35-38 | `slot >= CodeSlot && slot < CodeSlot + CodeCount` with the int sum wrapping; `ContainsRange` gives its meaning when the sum fits |
| Extensions.TokenStack.Pop | ExtensionMethods.cs:10-18 | an empty stack, or an empty list of method names (for which `All` holds at once), throws "Missing System.String[]" and changes nothing; a top whose method is not listed throws (NullReference when it has no method) and changes nothing; otherwise the top is removed and returned |
| Extensions.DictionarySet.AddEntry | ExtensionMethods.cs:40-47 | a name already present in Dict, ignoring case, throws and leaves Dict unchanged; otherwise the entry is appended |
| Extensions.DictionarySet.AddCodes | ExtensionMethods.cs:40-43 | registers a MacroCode entry under the name in Dict, or throws on a duplicate name and changes nothing |
| Extensions.DictionarySet.AddText | ExtensionMethods.cs:44-47 | registers a MacroText entry under the name in Dict, or throws on a duplicate name and changes nothing |
| Extensions.DictionarySet.AddTestCase | ExtensionMethods.cs:48-53 | an empty Dict makes `Last()` throw; otherwise the test case is keyed "TestCase <last Dict key> <text>" in the TestCase table, which throws on a duplicate key and changes nothing |
| Extensions.DictionarySet.AddPrerequisite | ExtensionMethods.cs:55-60 | an empty Dict makes `Last()` throw; otherwise the prerequisite is keyed by the last Dict key in the PreComp table, which throws on a duplicate key and changes nothing |
| Tokens.LiteralTextsClassify | Token.cs:17-18 | every optional minus, non-empty run of digits and optional final newline is classified Literal |
| Tokens.Classify | Token.cs:17-18 | a text gets a class only when it is not empty, and the class is Excluded (leading white space) or Literal (`^-?\d+$`) |
| Tokens.PrefixedNotLiteral | Token.cs:18 | no text starting with '$' or '%' is classified Literal, so the constructor never hands a base-16 or base-2 text to the literal path |
| Tokens.DigitRun | Token.cs:18 | the text `\d+$` matches from a position is a non-empty run of Unicode decimal digits (category Nd), followed at most by one final newline |
| Tokens.DigitRunShape | Token.cs:18 | a text matched by `\d+$` from a position is its prefix, its run of Unicode decimal digits and an optional final newline |
| Tokens.LiteralTextShape | Token.cs:17-18 | conversely every text classified Literal is a sign, Unicode decimal digits and an optional final newline |
| Tokens.HexRoundTrip | Token.cs:34 | reading back the hexadecimal digits `{n:X}` prints gives the number |
| Tokens.HexInt32 | Token.cs:34 | `{v:X}` of an int prints its unsigned 32-bit value, so a negative slot prints its two's complement |
| Tokens.ClassifyExamples | Token.cs:17-18 | "-42" and "7\n" are literals, and so are the Arabic-Indic "٣" and "-1" with a full-width "２"; "-", "4a", "" and "12\n\n" get no class; " 1" is excluded |
| Tokens.Token.constructor | Token.cs:10-19 | a new token keeps its text, place and macro flag, has the class its text fixes (with `\d` read as any Unicode decimal digit), no entry, code slot -1 and count 0 |
| Tokens.Token.Type | Token.cs:30 | the class fixed at construction wins, then the entry's class, then Undetermined |
| Tokens.Token.MethodName | Token.cs:29 | a method name exists exactly when the entry is a method entry; otherwise the source dereferences null |
| Tokens.Token.SetError | Token.cs:41-44 | after `SetError` the token's class is Error whatever its entry |
| Tokens.Token.ToString | Token.cs:32-35 | a definition start prints `_<text>`; any other token prints `_<text>_` followed by hex digits that read back as its unsigned code slot |
| Compiling.EntryFor | Compiler.cs:210-227 | `MakeDictEntry` throws "<key> already defined as <class>" exactly when the key is present (ignoring case) and the request is exclusive or the entry is of another class; otherwise it returns the present entry, or the made one when the key is absent |
| Compiling.MakeDictEntryTwice | Compiler.cs:210-227 | asking again for the same key, not exclusively, returns the entry the first request stored and changes nothing; asking exclusively throws |
| Compiling.FirstPending | Compiler.cs:289-292 | finds the first label, in enumeration order, whose patch list is not null, or none when there is no such label |
| Compiling.UnpatchedLabelError | Compiler.cs:289-292 | `Parse` throws "Unpatched label <key>" exactly when some label still has a patch list, naming such a label |
| Compiling.BindingClearsCheck | Compiler.cs:289-292 | binding the only label that still has patches clears the unpatched-label check |
| Compiling.Compiler.constructor | Compiler.cs:20-25 | a new compiler has no code slots, an empty dictionary and heap size 0 |
| Compiling.Compiler.Encode | Compiler.cs:241-250 | one slot is appended and, when it completes a word, eight blank slots per literal in that word; the slot layout is kept |
| Compiling.Compiler.EncodeCodes | Compiler.cs:236-239 | each code is encoded with value 0, in order, keeping the compiler invariant |
| Compiling.Compiler.MakeDictEntry | Compiler.cs:210-227 | the result is the entry rule's outcome; the made entry is stored, and reported created, only when the key was absent |
| Compiling.Compiler.PushValue | Compiler.cs:344-354 | a variable or constant reference encodes `Psh`, then `Lit` with the value |
| Compiling.Compiler.EncodeLiteral | Compiler.cs:276-283 | a literal token encodes `Psh`, then `Lit` with its converted value; a conversion error is thrown after the `Psh` is encoded |
| Compiling.Compiler.Addr | Compiler.cs:405-414 | a label reference encodes `Psh`, `Lit(CodeSlot / 8)`; the label is made unbound with an empty patch list when absent, and while it is unbound the index of that `Lit` joins its patch list |
| Compiling.Compiler.Label | Compiler.cs:416-434 | the slots are padded to a multiple of 8, the label is bound at the padded length, every recorded patch gets `CodeSlot / 8`, and the patch list becomes null; an existing label is re-bound the same way without throwing, and only a key of another entry class throws and changes nothing |
| Compiling.Compiler.Pad | Compiler.cs:421-424 | `Nop` slots are encoded until the slot count is a multiple of 8 |
| Compiling.Compiler.PatchSlots | Compiler.cs:428-431 | each recorded patch sets the value of its slot, stopping at the first index out of range or null slot |
| Compiling.Compiler.Variable | Compiler.cs:442-446 | the entry is made with heap address `HeapSize`, which increments only when the entry is new; redefinition outside a macro throws; the token records the entry |
| Compiling.Compiler.Allot | Compiler.cs:388-394 | `HeapSize` grows by the top of the evaluated stack, wrapping as an int; an empty stack throws |
| Compiling.Compiler.Constant | Compiler.cs:396-402 | a present key throws first; otherwise the top of the evaluated stack becomes the constant's value, and an empty stack throws |
| Compiling.Compiler.FixSlots | Compiler.cs:302-305 | each token's code slot becomes the running maximum of the slots so far |
| Compiling.Compiler.FixCounts | Compiler.cs:307-310 | each token's code count becomes the next token's slot minus its own, the last one's the slot count minus its own |
| Compiling.EncodedAll | Compiler.cs:236-239 | encoding several codes only appends to the slots |
| Compiling.MadeOk | Compiler.cs:210-227 | `MakeDictEntry` keeps the dictionary's invariant (keys distinct ignoring case, labels at word boundaries, pending patches on literal slots) |
| Compiling.EncodedOk | Compiler.cs:241-250 | encoding keeps the slot layout and every pending patch valid |
| Compiling.AddrOk | Compiler.cs:405-414 | `Addr` keeps the invariant: the new patch index names the `Lit` just encoded |
| Compiling.LabelOk | Compiler.cs:416-434 | `Label` keeps the invariant: the padded slots keep their layout and the bound label has no patches |
| Compiling.RunningMaxAt | Compiler.cs:302-305 | each fixed slot is the larger of the token's slot and the fixed slot before it |
| Compiling.RunningMaxSorted | Compiler.cs:302-305 | the fixed slots never decrease and are at least the original slots |
| Compiling.RunningMaxFixed | Compiler.cs:302-305 | slots that already never decrease are left alone |
| Compiling.RunningMaxTwice | Compiler.cs:302-305 | the first fix-up is idempotent |
| Compiling.CountsAt | Compiler.cs:307-310 | each count is the next slot, or the slot count for the last token, minus its own |
| Compiling.CountsTelescope | Compiler.cs:307-310 | the counts add up to the slot count minus the first token's slot |
| Compiling.CountsNonNegative | Compiler.cs:302-310 | after the first fix-up no count is negative |
| Literals.ConvertToInt32 | Compiler.cs:279-281 | `Convert.ToInt32(text, radix)` for radix 2, 10 or 16: exactly the empty text throws ArgumentOutOfRange, a minus outside base 10 throws, base 16 skips a "0x", and a value returned is the range-checked magnitude of the digits that follow |
| Literals.ConvertDigits | Compiler.cs:279-281 | the digit scan: a value is returned only for a non-empty text of digits of the radix, and it is the range-checked magnitude; no leading digit throws, an overflow among the leading digits throws before any junk after them is seen |
| Literals.InRange | Compiler.cs:279-281 | the overflow rules, both ways: base 10 accepts magnitudes up to 2^31 when negative and below 2^31 otherwise, giving the signed value; bases 2 and 16 accept 32 unsigned bits, reread them as an int, and otherwise throw the UInt32 overflow |
| Literals.Radix | Compiler.cs:280-281 | a literal starting with '$' is read in base 16, one starting with '%' in base 2, everything else in base 10 |
| Literals.LiteralValue | Compiler.cs:279-281 | a literal compiles to an int or throws; the empty text throws ArgumentOutOfRange |
| Literals.DigitOf | Compiler.cs:279-281 | a character's digit value is below the radix, or -1 when it is not a digit of that radix |
| Literals.LeadingDigits | Compiler.cs:279-281 | the digit scan reads the longest prefix of digits of the radix: the prefix is all digits and the next character is none |
| Literals.DigitChar | Compiler.cs:279-281 | a digit of a radix up to 16 is never a sign, an 'x' or one of the trimmed characters '$', '#' and '%' |
| Literals.RenderDigits | Compiler.cs:279-281 | the rendering of a number in a radix consists of digits of that radix only |
| Literals.RenderMagnitude | Compiler.cs:279-281 | reading back the rendered digits of a number gives the number |
| Literals.ConvertAllDigits | Compiler.cs:279-281 | a non-empty run of digits converts to its magnitude, range checked |
| Literals.HexIsRender | Token.cs:34 | the hex format used for the tokens' labels is the base-16 rendering |
| Literals.ConvertDigitsOnly | Compiler.cs:279-281 | plain digits with no sign convert to their magnitude in any of the three bases, range checked |
| Literals.ConvertSigned | Compiler.cs:279-281 | an optional minus and decimal digits convert to the signed magnitude, range checked |
| Literals.DecimalRoundTrip | Compiler.cs:279-281 | the decimal text of every 32-bit int converts back to that int |
| Literals.TrimDollar | Compiler.cs:280 | trimming '$' off a '$' and hex digits leaves the digits |
| Literals.HexLiteralRoundTrip | Compiler.cs:279-281 | a '$' literal written with the 32-bit hex of any int compiles back to that int, negatives included |
| Literals.LiteralTokenValue | Token.cs:18 | every token the constructor classifies as a literal is converted in base 10 whole, after an optional minus; of ASCII digits alone it compiles to its signed value or throws an Int32 overflow; any other Unicode digit or the final newline makes it throw no digits, trailing junk or an overflow |
| Literals.DecimalTokenValue | Compiler.cs:279-281 | an optional minus and ASCII decimal digits compile to the signed value, or throw an Int32 overflow when it is not an int |
| Literals.LiteralTokenConverts | Token.cs:18 | a literal token reaches the base-10 digit scan with nothing trimmed and nothing skipped but its minus |
| Literals.NotAllDigitsThrows | Compiler.cs:279-281 | a text that is not all digits of the radix always throws: no digits, trailing junk, or the overflow of its radix (Int32 in base 10, UInt32 otherwise) |
| Literals.ScanOverflows | Compiler.cs:279-281 | decimal digits worth more than 2^31 followed by junk throw the overflow, not the junk error |
| Literals.PrefixedLiteral | Compiler.cs:279-281 | a radix prefix and digits of that radix: the prefix is trimmed and the digits read in the radix it selects |
| Literals.MinInt32Example | Compiler.cs:279-281 | "-2147483648" compiles to -2^31 |
| Literals.OverflowExample | Compiler.cs:279-281 | "2147483648" throws an overflow |
| Literals.MinusExample | Compiler.cs:279-281 | "$-1" throws: a minus is only allowed in base 10 |
| Literals.JunkExample | Compiler.cs:279-281 | "12x" throws on the junk after the digits |
| Literals.EmptyExample | Compiler.cs:279-281 | "$" leaves the empty text to convert, which throws ArgumentOutOfRangeException |
| Literals.OverflowBeforeJunkExample | Compiler.cs:279-281 | "9999999999x" and "9999999999\n" throw the Int32 overflow found in the digit scan |
| Literals.JunkBeforeOverflowExample | Compiler.cs:279-281 | "2147483648x" throws trailing junk: 2^31 passes the scan and is rejected only after the junk test |
| Literals.NonAsciiDigitExample | Token.cs:18 | "٣" is a literal token, and converting it throws: no recognizable digits |
| Literals.AllOnesExample | Compiler.cs:279-281 | "$FFFFFFFF" compiles to -1 |
| Literals.BinaryExample | Compiler.cs:279-281 | "%101" compiles to 5 |
| Literals.LowerHexExample | Compiler.cs:279-281 | "$b" compiles to 11: hexadecimal digits may be lower case |
| Literals.ZeroXExample | Compiler.cs:279-281 | "$0x1F" compiles to 31: base 16 skips a "0x" after the trimmed '$' |
| Literals.HashExample | Compiler.cs:279-281 | "#6" compiles to 6: '#' is trimmed and selects base 10 |
| Simulator.Popped | Cpu.cs:66 | `_next = Stack.Pop()` succeeds exactly on a non-empty stack and takes its top; on an empty stack it throws and the state is as it was |
| Simulator.Skip | Cpu.cs:132-135 | the null-skipping loop stops at the first non-null slot at or after ProgramSlot, or outside the slots, passing only null slots |
| Simulator.CarryBit | Cpu.cs:94 | `(add & (1ul << 32)) != 0` holds for a sum of two unsigned words exactly when the sum leaves 32 bits |
| Simulator.AddEffect | Cpu.cs:92-97 | `Add` leaves the wrapped sum on top, the carry is the unsigned overflow, and the stack pops, failing only when empty |
| Simulator.AdcEffect | Cpu.cs:98-103 | `Adc` is `Add` with the carry added in |
| Simulator.SubEffect | Cpu.cs:104-109 | `Sub` leaves the wrapped difference next - top, and the carry holds exactly when there is no unsigned borrow |
| Simulator.LsrEffect | Cpu.cs:118-121 | `Lsr` never fails; shifting the new top back and adding the carry restores the old top, and nothing else changes |
| Simulator.ZeqEffect | Cpu.cs:122-124 | `Zeq` yields -1 exactly for 0 and 0 otherwise; applied twice it turns a value into the flag of its truth |
| Simulator.PshThenPop | Cpu.cs:68-75 | `Psh` duplicates the top into `_next` and deepens the stack by one; `Pop` undoes it exactly |
| Simulator.LitThenPop | Cpu.cs:125-129 | `Lit v` puts v on top and keeps everything below; `Pop` undoes it exactly |
| Simulator.SwpTwice | Cpu.cs:76-78 | `Swp` exchanges `_top` and `_next`; doing it twice changes nothing |
| Simulator.StoreThenLoad | Cpu.cs:60-67 | `Stw` stores `_next` at address `_top` and at no other address; `Ldw` of that address gives it back |
| Simulator.JnzEffect | Cpu.cs:79-86 | `Jnz` jumps to slot `_top * 8` exactly when `_top` is not zero, and pops the condition |
| Simulator.JsrEffect | Cpu.cs:87-91 | `Jsr` jumps to slot `_top * 8` and leaves in `_top` the word where the return lands, the first word boundary at or after the call |
| Simulator.DepthEffect | Cpu.cs:56-130 | a code throws exactly when it pops an empty stack; otherwise the stack depth changes by the code's net push or pop |
| Simulator.ExecInt32 | Cpu.cs:56-130 | every code keeps the registers, stack and memory within 32-bit ints |
| Simulator.StepInt32 | Cpu.cs:46-136 | a whole step keeps every value within 32-bit ints |
| Simulator.StepLands | Cpu.cs:46-136 | a step that succeeds leaves ProgramSlot on a code slot or outside the slots, and every code except `Jnz` and `Jsr` moves it forward over null slots only |
| Simulator.StepOutside | Cpu.cs:48-51 | a step outside the slots throws "Outside executable code <slot>" and changes nothing |
| Simulator.StepFailureNotLimit | Cpu.cs:46-136 | no exception a step throws carries the step-limit message |
| Simulator.RunBounds | Cpu.cs:144-160 | `Run` executes at most 1000001 steps; it stops without an error only at a counter past 0 where the break condition holds, and the limit message appears only after exactly 1000001 steps |
| Simulator.RunEndsInError | Cpu.cs:144-160 | when the break condition never holds, `Run` always ends with an error |
| Simulator.Cpu.ForthStack | Cpu.cs:14 | the Forth stack has as many values as `Stack`: `_top`, then `_next`, then the stack from its top |
| Simulator.Cpu.PopNext | Cpu.cs:66 | the object's `Stack.Pop()` is the `Popped` step on its registers |
| Simulator.Cpu.Arithmetic | Cpu.cs:94-96 | the shared tail of `Add`, `Adc` and `Sub` sets the carry from bit 32, wraps the top and pops |
| Simulator.Cpu.Execute | Cpu.cs:56-130 | the `switch` updates the registers, stack and memory as the per-code specification says, including the updates made before a failing pop |
| Simulator.Cpu.Step | Cpu.cs:46-136 | `Step` checks the slot, fetches, advances, executes and skips null slots, as the step specification says |
| Simulator.Cpu.Run | Cpu.cs:138-160 | `Run` clears the error, saves the heap, and steps until the break condition, an exception or the limit; the error text is "Error=" plus the exception's message |
| Simulator.Cpu.constructor | Cpu.cs:10-28 | a new CPU starts at slot 0 with zero registers, no carry, an empty stack and heap and no error, over the compiler's code slots |
| Nano.Config.MsBit | HW_Sources/Assembler/nano.h:6 | MSBIT is the top bit of a DATAPATH-bit word: twice it is 2^DATAPATH |
| Nano.Put | HW_Sources/Assembler/nano.h:24-31 | adding a field to a packer emits the word exactly when the slot was the last one (slot >= capacity - 1) and then resets the packer; otherwise the slot advances by one and stays in range |
| Nano.StepKeepsInv | HW_Sources/Assembler/nano.h:22-34 | every macro call (add_opcode, out, flush_opcodes, add_char, flush_string) keeps both slot counters below their capacity, and an empty packer's accumulator zero |
| Nano.ReplayAppend | HW_Sources/Assembler/nano.h:22-34 | running two sequences of macro calls one after the other is running their concatenation |
| Nano.ReplayKeepsInv | HW_Sources/Assembler/nano.h:22-34 | the slot-range invariant holds after any sequence of macro calls |
| Nano.FlushTwice | HW_Sources/Assembler/nano.h:22-23 | flush_opcodes on an empty packer writes nothing, so a second flush in a row changes nothing |
| Nano.EndsWithFlush | HW_Sources/Assembler/nano.h:22-23 | any sequence of calls ending in flush_opcodes leaves the instruction packer empty at slot 0 |
| Nano.BitLengthBounds | HW_Sources/Assembler/nano.h:20 | the `log` loop's count of halvings is the number of bits of n - 1 |
| Nano.CeilLog2 | HW_Sources/Assembler/nano.h:20-21 | OFFSET is ceil(log2 n): 2^OFFSET reaches n, and 2^(OFFSET-1) does not when n >= 2 |
| Nano.PackBound | HW_Sources/Assembler/nano.h:24 | a word of n packed fields of width w fits in w * n bits |
| Nano.PackAppend | HW_Sources/Assembler/nano.h:24 | a new field is or-ed in above all the fields already packed |
| Nano.PackField | HW_Sources/Assembler/nano.h:24 | every field of a packed word reads back, and the fields above the last are zero |
| Nano.PutAcc | HW_Sources/Assembler/nano.h:24-28 | or-ing the masked value in at bit w * slot appends it as a field of the word |
| Nano.PutStep | HW_Sources/Assembler/nano.h:24-27 | one put on a packer holding fields fs either appends the field, or completes and emits the word and resets |
| Nano.WordsCount | HW_Sources/Assembler/nano.h:24-27 | n values packed cap to a word make n / cap full words and leave n % cap pending |
| Nano.FillShort | HW_Sources/Assembler/nano.h:24-27 | values that do not fill the word are packed without emitting anything |
| Nano.FillFull | HW_Sources/Assembler/nano.h:24-27 | values that fill the word emit it, packed from the first value up, and packing continues from an empty packer |
| Nano.PutAllWords | HW_Sources/Assembler/nano.h:24-31 | a packer started empty emits exactly one word per full group of cap values, first value in the least significant field, and keeps the rest pending |
| Nano.ReplayOpcodes | HW_Sources/Assembler/nano.h:24-27 | a run of add_opcode calls drives the instruction packer as the packing above; each emitted word reserves one word of memory and moves ptr to it |
| Nano.ThreeOpcodesThenFlush | HW_Sources/Assembler/nano.h:22-27 | with four slots per word, opcodes 1, 2, 9 and a flush write 0x921 at ptr, reserve 0 at mem and move ptr to it |
| Nano.HiString | HW_Sources/Assembler/nano.h:28-34 | with 16-bit data words, "Hi" and flush_string write 0x6948 and the terminator word 0 |
| Nano.OpcodeOf | HW_Sources/Assembler/nano.h:37-54 | each mnemonic's opcode fits the ARCH-bit field |
| Nano.ExpandShape | HW_Sources/Assembler/nano.h:37-54 | a mnemonic adds exactly one opcode, two when it pushes a given argument first; `psh n` is `lit n`; every literal word is followed at once by the lit opcode that reads it |
| Nano.OpcodeExpandShape | HW_Sources/Assembler/nano.h:44-52 | a mnemonic other than lit and psh: its optional pushed literal, its own opcode, and jsr's flush |
| Nano.PairedAppend | HW_Sources/Assembler/nano.h:37 | literal pairing survives concatenation when the first part does not end in a literal |
| Nano.ReplayLit | HW_Sources/Assembler/nano.h:37 | `lit n` writes n at mem and then adds the lit opcode |
| Nano.Assembler.constructor | HW_Sources/Assembler/nano.h:11-21 | the first pass clears both packers and vptr and computes OFFSET from INSTRWIDTH / ARCH |
| Nano.Assembler.BeginPass | HW_Sources/Assembler/nano.h:11-15 | a later pass clears the packers and vptr again and keeps OFFSET and the image |
| Nano.Assembler.Log | HW_Sources/Assembler/nano.h:20 | the halving loop leaves OFFSET equal to the bit length of n - 1 |
| Nano.Assembler.AddOpcode | HW_Sources/Assembler/nano.h:24-27 | the new state is add_opcode's, and the packer invariant is kept |
| Nano.Assembler.FlushOpcodes | HW_Sources/Assembler/nano.h:22-23 | the new state is flush_opcodes': a partial word is written at ptr and the packer is empty |
| Nano.Assembler.AddChar | HW_Sources/Assembler/nano.h:28-31 | the new state is add_char's, and the packer invariant is kept |
| Nano.Assembler.FlushString | HW_Sources/Assembler/nano.h:32-34 | a zero byte is added and a partial data word written |
| Nano.Assembler.OutWord | HW_Sources/Assembler/nano.h:37 | `out mem, v` writes v at mem and advances mem |
| Nano.Assembler.PushArgument | HW_Sources/Assembler/nano.h:37-41 | `lit n` as a sequence of calls |
| Nano.Assembler.AddMnemonicOpcode | HW_Sources/Assembler/nano.h:38-54 | a mnemonic's opcode, and the flush after jsr, which leaves the packer empty |
| Nano.Assembler.Emit | HW_Sources/Assembler/nano.h:37-54 | each mnemonic with its optional argument does what its expansion says; after jsr the packer is empty |
| Nano.Assembler.EmitOpcode | HW_Sources/Assembler/nano.h:44-54 | the mnemonics that push a given argument first |
| Nano.Assembler.Variable | HW_Sources/Assembler/nano.h:56 | a variable is the next free RAM word, and vptr moves past it |
| Nano.Assembler.Alloc | HW_Sources/Assembler/nano.h:60 | an allocation of m words starts at vptr, and vptr moves past it |
| Nano.Assembler.Lbl | HW_Sources/Assembler/nano.h:57 | a label is bound after a flush, so it is a word-aligned instruction address |
| Nano.Assembler.StrLbl | HW_Sources/Assembler/nano.h:58-59 | a string label is the data-stream cursor mem |
| NanoMacros.CallsAppend | HW_Sources/Assembler/nano_macro.h:4-32 | the events of two macro bodies played in turn are the events of their concatenation |
| NanoMacros.Repeat | HW_Sources/Assembler/nano_macro.h:31-32 | repeating well-formed calls keeps them well-formed |
| NanoMacros.CallsRepeat | HW_Sources/Assembler/nano_macro.h:31-32 | the events of a body repeated n times are the body's events repeated n times |
| NanoMacros.Play | HW_Sources/Assembler/nano_macro.h:4-32 | playing a macro body emits its mnemonic calls in order, keeps the packer invariant and leaves vptr and OFFSET alone |
| NanoMacros.Zero | HW_Sources/Assembler/nano_macro.h:4 | zero plays psh; psh; xor when DATAPATH > 16 and psh 0 otherwise |
| NanoMacros.Load | HW_Sources/Assembler/nano_macro.h:5 | load plays psh n only when given an argument, then ldw |
| NanoMacros.Store | HW_Sources/Assembler/nano_macro.h:6 | store plays psh n when argc > 1, then psh a when argc > 0, then stw; pop |
| NanoMacros.PushC | HW_Sources/Assembler/nano_macro.h:7 | pushc plays zero; psh; adc |
| NanoMacros.PopC | HW_Sources/Assembler/nano_macro.h:8 | popc plays lsr; pop |
| NanoMacros.Incv | HW_Sources/Assembler/nano_macro.h:14 | incv v plays load v; psh 1; add; lit v; store |
| NanoMacros.Decv | HW_Sources/Assembler/nano_macro.h:15 | decv v plays load v; psh 1; sub; lit v; store |
| NanoMacros.Jp | HW_Sources/Assembler/nano_macro.h:18 | jp n plays psh n; jnz and flushes, so the next instruction starts a fresh word |
| NanoMacros.Jpnz | HW_Sources/Assembler/nano_macro.h:19 | jpnz n plays its eight calls in order |
| NanoMacros.Jpz | HW_Sources/Assembler/nano_macro.h:20 | jpz n plays its six calls in order |
| NanoMacros.Ret | HW_Sources/Assembler/nano_macro.h:22 | ret plays jnz and flushes, so the next instruction starts a fresh word |
| NanoMacros.Reti | HW_Sources/Assembler/nano_macro.h:23 | reti plays swp; swp; ret and leaves the packer empty |
| NanoMacros.Jpeq | HW_Sources/Assembler/nano_macro.h:24 | jpeq n plays xor; pop; jpz n |
| NanoMacros.Jpneq | HW_Sources/Assembler/nano_macro.h:25 | jpneq n plays xor; pop; jpnz n |
| NanoMacros.Jplt | HW_Sources/Assembler/nano_macro.h:26 | jplt n plays sub; pushc; jpz n |
| NanoMacros.Djnz | HW_Sources/Assembler/nano_macro.h:28 | djnz n plays psh 1; sub; pop; psh; jpnz n; pop |
| NanoMacros.PlayRepeat | HW_Sources/Assembler/nano_macro.h:31-32 | the engine's counting loop plays its body n times, and never when n <= 0 |
| NanoMacros.Shr | HW_Sources/Assembler/nano_macro.h:31 | shr n plays psh, n times swp; lsr, then pop |
| NanoMacros.Shl | HW_Sources/Assembler/nano_macro.h:32 | shl n plays n times psh; add; pop |
| NanoMacros.ReplayAround | HW_Sources/Assembler/nano_macro.h:31-32 | playing a prefix, a repeated body and a suffix one after the other is playing their concatenation |
| NanoMacros.ExpandLiterals | HW_Sources/Assembler/nano.h:37-54 | the literal words a mnemonic writes are exactly its pushed argument |
| NanoMacros.CallsShape | HW_Sources/Assembler/nano_macro.h:4-32 | a body's events write exactly its calls' literals, in order, and make one add_opcode per mnemonic plus one per pushed argument |
| NanoMacros.RepeatShape | HW_Sources/Assembler/nano_macro.h:31-32 | a body repeated n times makes n times its opcodes, and no literal when the body has none |
| NanoMacros.ShlShape | HW_Sources/Assembler/nano_macro.h:32 | shl n adds exactly 3n opcodes (none for n <= 0) and writes no literal |
| NanoMacros.ShrShape | HW_Sources/Assembler/nano_macro.h:31 | shr n adds exactly 2n + 2 opcodes (2 for n <= 0) and writes no literal |
| NanoMacros.ZeroShape | HW_Sources/Assembler/nano_macro.h:4 | zero adds three opcodes and no literal on a data path wider than 16 bits, one opcode and the literal 0 otherwise |
| NanoMacros.LoadShape | HW_Sources/Assembler/nano_macro.h:5 | load writes its address as a literal only when given, and adds two opcodes then, one otherwise |
| NanoMacros.StoreShape | HW_Sources/Assembler/nano_macro.h:6 | store writes n and then a as literals, each only when given, and adds stw and pop |
| NanoMacros.JpEvents | HW_Sources/Assembler/nano_macro.h:18 | jp n writes the single literal n and adds two opcodes |
| NanoMacros.JpzEvents | HW_Sources/Assembler/nano_macro.h:20 | jpz n writes the single literal n and adds six opcodes |
| NanoMacros.JpnzEvents | HW_Sources/Assembler/nano_macro.h:19 | jpnz n writes the single literal n and adds eight opcodes |
| NanoMacros.JpeqEvents | HW_Sources/Assembler/nano_macro.h:24 | jpeq n writes the single literal n and adds eight opcodes |
| NanoMacros.JpneqEvents | HW_Sources/Assembler/nano_macro.h:25 | jpneq n writes the single literal n and adds ten opcodes |
| NanoMacros.DjnzShape | HW_Sources/Assembler/nano_macro.h:28 | djnz n writes the literals 1 and n and adds thirteen opcodes |
| NanoMacros.StepVariableShape | HW_Sources/Assembler/nano_macro.h:14-15 | incv v and decv v write the literals v, 1, v and add seven opcodes |
| NanoMacros.JpltShape | HW_Sources/Assembler/nano_macro.h:26 | jplt n writes zero's literals then n, and adds nine opcodes more than zero |
| CommandLine.NonFlags | Program.cs:21 | `TakeWhile` keeps the longest prefix of arguments none of which starts with '-', stopping at the first flag |
| CommandLine.FlagsFrom | Program.cs:19-20 | the positions of exactly the arguments starting with '-', in increasing order |
| CommandLine.PairsOfFlags | Program.cs:19-21 | the k-th entry of the map is made by the k-th flag |
| CommandLine.ArgMapFromPairs | Program.cs:19-21 | `ToDictionary` from any position succeeds exactly when the entries it adds keep the keys distinct ignoring case, appends them in order, and otherwise throws a duplicate key |
| CommandLine.ArgMapEntries | Program.cs:19-21 | the map holds one entry per flag, in order, keyed by the flag as written with the non-flag arguments after it; it is built exactly when no two flags are equal ignoring case |
| CommandLine.RepeatedFlag | Program.cs:21 | a flag given twice, in any letter case, makes `Main` throw a duplicate key |
| CommandLine.KeysClash | Program.cs:21 | two keys equal ignoring case make the map invalid |
| CommandLine.WithDefaultsEmpty | Program.cs:25-28 | on the empty map the two assignments make exactly `-debug` then `-testcases`, both null |
| CommandLine.WithDefaults | Program.cs:25-28 | the two assignments make `-debug` and `-testcases` map to null and leave every other flag's lookup alone |
| CommandLine.Options | Program.cs:19-28 | the flag map when it throws or has an entry, the two default flags when it is empty |
| CommandLine.SingleValue | Program.cs:80-82 | a value exists exactly when the flag is present with exactly one value, and it is that value |
| CommandLine.Compile | Program.cs:76-115 | the file is read exactly when `-f` has one value; else the test cases exactly when `-testcases` is given; the optimiser runs unless `-nooptimize`; coverage test cases are made exactly with `-testcases`; the MIF and hex files are written exactly when their flag has one value, to that name |
| CommandLine.TwoKeys | Program.cs:27 | a two-entry map whose keys differ in length finds each key at its place and nothing else |
| CommandLine.NullValues | Program.cs:27 | a map whose values are all null gives null for every flag |
| CommandLine.DefaultKeys | Program.cs:25-28 | the defaults open the debugger, compile the test cases and optimise |
| CommandLine.DefaultNoFiles | Program.cs:25-28 | the defaults name no source file and no output file |
| CommandLine.CaseInsensitiveFlags | Program.cs:21 | `-f a -F b` throws a duplicate key |
| MacroFolding.Step | DebugWindow.xaml.cs:74-90 | one pass of the listing loop throws only `NoElements`, and otherwise leaves a state the loop can continue from, with every listed position below the next token |
| MacroFolding.FoldFrom | DebugWindow.xaml.cs:72-91 | the rest of the loop leaves one count per token and, when it does not throw, a state covering all tokens |
| MacroFolding.Folded | DebugWindow.xaml.cs:71-91 | the whole loop from no lines leaves one count per token |
| MacroFolding.KeptFacts | DebugWindow.xaml.cs:83-90 | the tokens to list are exactly the positions that are not hidden, in increasing order |
| MacroFolding.FlattenAppend | DebugWindow.xaml.cs:89 | adding a token to the last line appends it to the listing |
| MacroFolding.ListedSumAdd | DebugWindow.xaml.cs:85 | adding a hidden token's count to a listed token adds it to the listed total |
| MacroFolding.ListedSumOutside | DebugWindow.xaml.cs:76 | restoring a count at or after the current token leaves the listed total below it unchanged |
| MacroFolding.StepThrows | DebugWindow.xaml.cs:78-86 | a pass throws exactly at a hidden token that begins a line |
| MacroFolding.StepGood | DebugWindow.xaml.cs:74-90 | a pass that does not throw keeps the lines in order, well formed, and the counts summed |
| MacroFolding.FoldGood | DebugWindow.xaml.cs:72-91 | the rest of the loop throws exactly when some remaining hidden token begins a line, and otherwise ends in a good state |
| MacroFolding.Listing | DebugWindow.xaml.cs:69-92 | the loop throws `NoElements` exactly when a hidden token begins a line; otherwise the lines list every visible token in order, each line is non-empty and begins with the only token of it that begins a line, the listed counts add up to all the original counts, and every hidden token holds its original count |
| MacroFolding.FoldThrows | DebugWindow.xaml.cs:85 | the only exception the loop throws is the empty `Last()` |
| MacroFolding.StepIgnoresCounts | DebugWindow.xaml.cs:76 | one pass of the loop on two states that agree on the lines and on the counts of the tokens already passed throws alike, lists alike, and leaves them agreeing up to and including the current token |
| MacroFolding.FoldIgnoresCounts | DebugWindow.xaml.cs:76 | from any two states that agree on the tokens already passed, the loop ends alike: restoring every count first means reloading never accumulates |
| MacroFolding.FoldedIgnoresCounts | DebugWindow.xaml.cs:76 | the loop lists the same lines and throws alike whatever counts the tokens held, and leaves the same counts when it does not throw |
| MacroFolding.StepTiled | DebugWindow.xaml.cs:74-90 | with the counts the compiler assigns, a pass keeps every line reaching the first slot of the next |
| MacroFolding.FoldTiled | DebugWindow.xaml.cs:72-91 | the rest of the loop keeps the lines tiling the code |
| MacroFolding.LinesTile | DebugWindow.xaml.cs:69-92 | with the compiler's counts the listed lines cover the code without gap or overlap: each line reaches the first slot of the next, and the last line the end of the code |
| MacroFolding.LastReaches | SourceItem.cs:16-45 | when the loop does not throw the last token reaches the end of the code, hidden or listed |
| MacroFolding.LastListedReaches | SourceItem.cs:16-45 | a listed last token ends the last line and so reaches the end of the code |
| MacroFolding.ListTokens | DebugWindow.xaml.cs:71-91 | the loop over all tokens leaves the lines, the counts and the exception the specification function gives |
| MacroFolding.ListToken | DebugWindow.xaml.cs:74-90 | one pass restores the token's count, opens a line when it begins one, then lists it or folds its count into the last listed token, as `Step` says |
| DebugWindow.LineStarts | DebugWindow.xaml.cs:78 | a token begins a line when it is the first or its file or line differs from the previous token's; the first token always does |
| DebugWindow.Window.constructor | DebugWindow.xaml.cs:31-36 | a new window captures every token's count as the original counts, hides macros and has no lines yet |
| DebugWindow.Window.LoadSource | DebugWindow.xaml.cs:69-92 | the lines and counts are rebuilt from the original counts by the listing loop, whatever the counts were before, and every line's test result is cleared |
| DebugWindow.Window.HideShowMacro | DebugWindow.xaml.cs:211-216 | hiding is toggled and the listing reloaded with the new setting |
| DebugWindow.Window.CheckTest | DebugWindow.xaml.cs:158-188 | every line's result is cleared, then the records on the Forth stack, read from its bottom, are checked one by one; the tally or the exception is the one the check's loop gives |
| DebugWindow.Open | DebugWindow.xaml.cs:31-41 | the window opens exactly when the first listing, with macros hidden, does not throw; otherwise the constructor throws `NoElements` |
| DebugWindow.CheckResults | DebugWindow.xaml.cs:165-188 | the loop over the records ends with the tally and the marks the check's specification gives |
| DebugWindow.CheckRecord | DebugWindow.xaml.cs:175-187 | a well-formed record marks its line with its verdict and counts it as a success or a failure; a line number outside the listing throws and marks nothing |
| DebugWindow.Any | DebugWindow.xaml.cs:177 | `Any` finds a difference exactly when some expected value differs from the value found |
| DebugWindow.Reverse | DebugWindow.xaml.cs:160 | the stack read from its bottom: the same values in the opposite order |
| DebugWindow.MismatchHalves | DebugWindow.xaml.cs:175-177 | a mismatch is exactly a difference between the first half of the record's values and the second |
| DebugWindow.VerdictJudged | DebugWindow.xaml.cs:175-187 | a record's verdict has an even number of values and is a success exactly when its two halves are equal |
| DebugWindow.ScanJudged | DebugWindow.xaml.cs:165-188 | every line the check marks carries a verdict that agrees with its record's values |
| DebugWindow.Scan | DebugWindow.xaml.cs:165-188 | the corrected check's walk over the records keeps one mark per line (its verdicts and counts are stated by `ScanJudged`, `ScanCountsRecords` and `CheckRecord`) |
| DebugWindow.ScanInvalidOnce | DebugWindow.xaml.cs:169-173 | the walk stops at the first malformed record, so the invalid counter grows by at most one; the other counters never go down |
| DebugWindow.ScanEndsValid | DebugWindow.xaml.cs:165-173 | a stack of well-formed records that ends exactly after the last one is never reported invalid |
| DebugWindow.AnyAgrees | DebugWindow.xaml.cs:177 | without wrap-around the written `Any` is the mismatch test |
| DebugWindow.AnyAsWritten | DebugWindow.xaml.cs:177 | the written `Any` with C#'s wrapping `+`: an index past the end throws; `AnyAgrees` ties it to the mismatch test |
| DebugWindow.VerdictAsWritten | DebugWindow.xaml.cs:178-186 | the written verdict keeps the values `Skip(i + 2).Take(count - 2)` yields, stopping at the end of the stack |
| DebugWindow.ScanAsWritten | DebugWindow.xaml.cs:165-188 | the written loop on C# ints keeps one mark per line; `AsWrittenAgrees` and `WrappedCountThrows` tie it to the corrected check |
| DebugWindow.SlotAgrees | DebugWindow.xaml.cs:180-186 | the written `line - 1` indexes the listing exactly when the line number is between 1 and the number of lines |
| DebugWindow.RecordAgrees | DebugWindow.xaml.cs:167-187 | when no sum wraps the written loop takes the same step at a record as the corrected one |
| DebugWindow.AsWrittenAgrees | DebugWindow.xaml.cs:165-188 | when no value comes near `int.MaxValue` the check as written is the corrected check |
| DebugWindow.WrappedCountThrows | DebugWindow.xaml.cs:169-177 | on the stack [2, 1, 2147483646, 1, 0] the written check throws an index out of range where the corrected one counts one success and one format failure |
| DebugWindow.HiddenMacroThrows | DebugWindow.xaml.cs:83-86 | with macros hidden the listing throws exactly when a macro token begins a line, and throws `NoElements` |
| DebugWindow.KeptNone | DebugWindow.xaml.cs:83-90 | with macros shown no token is hidden |
| DebugWindow.ShownListsAll | DebugWindow.xaml.cs:83-90 | with macros shown the listing never throws and lists every token once, in order |
| DebugWindow.LoadedLinesTile | DebugWindow.xaml.cs:69-92 | once loaded from the compiler's counts, each line's code (its `CodeSlot` and `CodeCount`) ends where the next line's begins, and the last at the end of the code |
| DebugWindow.Window.LineCodeSlot | DebugWindow.xaml.cs:344 | a line's `CodeSlot` is its first token's slot; `LoadedLinesTile` states how the lines cover the code |
| DebugWindow.Window.LineCodeCount | DebugWindow.xaml.cs:345 | a line's `CodeCount` runs from its first slot to the end of its last token's code; `LoadedLinesTile` states how the lines cover the code |
| DebugWindow.ScanCountsRecords | DebugWindow.xaml.cs:165-187 | every well-formed record the walk passes adds exactly one to success or fail, so their sum grows by the number of records consumed |
| SourceItems.SourceItem.DisplayTokens | SourceItem.cs:25-49 | the counts are captured on the first call only; every call then returns the listing and leaves the counts that the listing loop gives over the item's one line, with tokens deeper than the parent's macro level folded |
| SourceItems.Displayed | SourceItem.cs:31-45 | the listing of one item leaves one count per token |
| SourceItems.DisplayedLists | SourceItem.cs:33-45 | `DisplayTokens` throws exactly when the first token is deeper than the parent, and throws `NoElements` then; otherwise it lists exactly the tokens no deeper than the parent, in order, the listed counts add up to all the captured counts, and every folded token holds its captured count |
| SourceItems.DisplayedIgnoresCounts | SourceItem.cs:31-35 | because the captured counts are restored first, the listing and whether it throws do not depend on the counts the tokens held, nor do the counts it leaves when it does not throw |
| SourceItems.DisplayedTwice | SourceItem.cs:31-35 | a second `DisplayTokens` returns what the first one did |
| SourceItems.DisplayedSpan | SourceItem.cs:16-45 | with the compiler's counts, the item's `CodeIndex` plus its `CodeCount` after a listing is the end of its code |
| SourceItems.FreshSpan | SourceItem.cs:17-19 | a new item whose counts tile the code spans from its first slot to the end of its code |
| SourceItems.Start | SourceItem.cs:17 | `CodeIndex` is the first token's index, 0 without tokens; `FreshSpan` and `DisplayedSpan` state the span |
| SourceItems.Length | SourceItem.cs:18-19 | `CodeCount` runs from the first token's index to the end of the last token's code, 0 without tokens |
| SourceItems.SourceItem.CodeIndex | SourceItem.cs:17 | an item's `CodeIndex` is `Start` of its tokens |
| SourceItems.SourceItem.CodeCount | SourceItem.cs:18-19 | an item's `CodeCount` is `Length` of its tokens and their counts |
| SourceItems.SourceItem.constructor | SourceItem.cs:16-21 | a new item holds its tokens and their counts and has captured no counts yet |

## Left out

- The assembler engine behind `nano.h`:
  - `#define` and `#if` evaluation, `pass` and `argc`.
  - `out` is modelled as a write of a word into an image. `out mem, v` also advances `mem`.
  - The initial `ptr` and `mem` are parameters.
  - `#if` is read as "the block runs when the condition holds".
  - `argc` is whether the macro call has an argument (an `Option`).
- The assembler constants:
  - `MSNIBBLE` needs `ARCHNIBBLES`, which `nano.h` does not define.
  - `data` writes to `var`, which nothing defines.
  - `setstring n` has the same body as `strlbl x` and is modelled by `Nano.Assembler.StrLbl`.
- Five macros of `nano_macro.h` are left out: `tor`, `rto`, `js`, `jpgte` and `jpnc`. Each uses names that neither header defines (`st`, `ld`, `__sp`, `cnz`, `pop2`, `zero2`).
- Compiler.cs:
  - The text macros, `ReadFile`, the regex tokeniser and the structure words (`If` … `EndCase`, `Do`/`Loop`, `:`/`;`). These re-tokenise text and dispatch by reflection. Only the structure-stack check (`Extensions.Pop`) is modelled.
  - `Compiler.Evaluate`, which runs the simulator at compile time. `Allot` and `Constant` take the evaluated stack as a parameter.
  - `IncludePrecompile`, which reads files.
  - The Forth test cases. They come from a different snapshot than `Cpu.cs`.
- The macro level of a token's enclosing macro (`Parent.MacroLevel`) is a parameter.
- `Token.cs` declares no `MacroLevel` or `CodeIndex`, although `SourceItem.cs` and `DebugWindow.xaml.cs` read both. Those two files see a token as a small value holding the fields they read.
- Simulator.Cpu.Run: the debugger's call-stack bookkeeping is not modelled. It depends on `compiler.Labels` and `Structure`, which are not part of this model.
- `Heap.Entry` is not part of this model. It is modelled as the stored word, or 0 where nothing was stored.
- Records.Table.Find: case-insensitive key comparison folds only ASCII letters. .NET's ordinal case-insensitive comparison also folds other letters.
- Tokens.IsDigit: `\d` is the table of Unicode decimal digits (category Nd) in the Basic Multilingual Plane. A string is a sequence of UTF-16 code units, so a digit beyond that plane is a surrogate pair, which `\d` never matches.
- Under Token.cs:18 no text starting with '$' or '%' is ever a Literal token (`Tokens.PrefixedNotLiteral`). The base-16 and base-2 paths of `LiteralValue` (`Literals.Radix`, `Literals.PrefixedLiteral`, `Literals.HexLiteralRoundTrip`, `Literals.BinaryExample`) are therefore reached only when a token takes the type Literal from its dictionary entry (a method or macro entry registered with that type), not from the constructor's classification.
- Compiling.Compiler.FixSlots: `CodeSlot` is an unbounded integer, not a 32-bit `int`. Slot numbers never approach 2^31 in a listing the list could hold.
- Compiling.Compiler.FixCounts: the subtraction `next - CodeSlot` is unbounded, not 32-bit. Slot numbers never approach 2^31.
- SourceItems.Length: `CodeCount` arithmetic is unbounded, not 32-bit, for the same reason.
- MacroFolding.Folded: the count added to the last listed token is unbounded, not 32-bit, for the same reason.
- Program.cs:
  - Console output, exception formatting and file writes.
  - The bodies of `LoadCore`, `PreCompile`, `Optimize`, `GenerateMif` and `GenerateHex`. These are not part of this model. `Compile` is modelled by the choices it makes: which source it reads, whether it optimises, and which outputs it writes.
- Reading the source file is a parameter.
- The user interface:
  - WPF rendering, brushes, `Refresh`, `Text`, tooltips, the `_test` flag and every button handler except the test check and the macro toggle.
  - `SyntaxStyle.cs`, `UiItem.cs`, `HeapItem.cs`, `CallStackItem.cs` and `Shortcuts.cs`.
- `Architecture.GetProperties`, which is reflection and regex renaming.
- Concurrency: `Interlocked.Exchange` in `Swp` is a plain swap. Nothing runs concurrently.

## Findings

| source | as written | input that shows it | evidently intended | confidence | as-written member | corrected member |
|---|---|---|---|---|---|---|
| Architecture.cs:32 | `ToCodeIndex` masks the slot field with the `int` expression `(1 << bits) - 1`. C# takes an `int` shift count mod 32, so with 32 slot bits the mask is 0. | 32 sub-word slot bits and at least 2 instructions per word: code index 1 packs to address 1, which unpacks to code index 0 | a mask as wide as the address (`(1L << bits) - 1`), so that unpacking inverts packing | not executed | Architecture.WideSlotFieldLosesSlot | Architecture.CodeIndexRoundTripWide |
| DebugWindow.xaml.cs:169 | the bounds test `i + count > results.Length` is done in 32-bit `int`. A count near 2^31 wraps it negative, the test passes, and the comparison loop then indexes past the end. | reversed stack [2, 1, 2147483646, 1, 0]: the second record's count wraps, and the check throws `IndexOutOfRangeException` | one success, then a format failure for the oversized record | not executed | DebugWindow.WrappedCountThrows | DebugWindow.CheckResults |
