# Verified model of the crabbit compiler back end

crabbit turns Rust's MIR into AArch64 machine code: an importer lowers MIR to an LLVM-like
dialect, a code generator lays out and encodes the words, and a profile tool carries measured
costs back through the trace of a compilation. The parts of it that are small algorithms with an
exact specification are modelled here in Dafny, one module per component, and proved against
that specification for all inputs.

Code that appends ops, fills tables or updates counters is modelled by methods with loops and by
classes whose state they change; each is proved against a function of its inputs, and the
properties of that function are the lemmas next to it. Code made of expressions is modelled by
functions. Emitted ops are values of a small SSA datatype, and every emission method promises
what the emitted ops hold in *every* execution of them.

## The files

| files | component |
|---|---|
| `bits.dfy`, `sequences.dfy`, `wrappers.dfy`, `text.dfy` | bit operations on naturals, concatenation, option and result types, the string operations of Rust's standard library |
| `a64.dfy`, `encoding.dfy`, `code_layout.dfy`, `simulation.dfy`, `immediates.dfy`, `instruction_words.dfy` | AArch64: a decoder and interpreter of words (Arm ARM DDI 0487, sections C6.2 and C7.2), branch encoding, layout, simulation of the control-flow graph, packed immediates |
| `ir.dfy`, `floats.dfy` | the ops that synthesized arithmetic is made of, and IEEE 754 binary32 and binary64 words |
| `wide_multiply.dfy`, `mul_overflow.dfy`, `saturate.dfy`, `float_clamp.dfy`, `popcount.dfy`, `zero_counts.dfy`, `bit_moves.dfy`, `rotate.dfy`, `simd.dfy`, `enum_tag.dfy` | the synthesized arithmetic, and reading and writing of enum tags |
| `layout.dfy`, `memory.dfy`, `place.dfy`, `call_abi.dfy`, `calls.dfy`, `globals.dfy`, `switch.dfy` | type layout, byte memory, places, the call ABI from both sides, globals behind constants, the switch chain |
| `matching.dfy`, `alignment.dfy`, `profile.dfy`, `walk.dfy`, `walk_steps.dfy` | carrying a profile backwards through a trace |
| `json_end.dfy`, `trace.dfy`, `trace_round_trip.dfy` | trace files |
| `registers.dfy`, `lists.dfy`, `attributes.dfy`, `macho.dfy` | textual forms of registers, attributes and Mach-O tables |

## What is assumed

- The layouts, field permutations and niche parameters of types, and what every allocation id
  stands for, are inputs. What the Rust compiler guarantees of them is stated as a predicate
  (`IsOrder`, `Sensible`, `VariantsFit`, `GoodWorld`): the memory order is a permutation, an enum's
  size is a multiple of its alignment, the tag of a variant is the niche formula, functions and
  data have different symbols. What a function's body refers to is an input as well.
- The library call of a float-to-integer cast keeps its contract only inside the target range
  (`Honours`); outside it the call may return anything.
- What the words that are no branches do to the machine is an arbitrary function of the pc, the
  word and the state (`Effect`).
- Passes are arbitrary functions on profiles that read and write only the function they are
  given (`Local`).
- Profile numbers are reals.

## Where the code and what it promises differ

- `encode_pc_relative_address` accepts a distance of -2^24, but twelve bits of its high half cannot
  hold it: the address is `pc` instead. `PcRelativeAddressLands` says so for that one distance and
  proves all others right.
- `emit_ctlz64` gives 64 for an operand without set bits, whatever the operand's width
  (`CtlzMeetsIntrinsic`: right if and only if the width is 64 or a bit is set).
- The zero-byte trick of `simd_eq` can mark the lane above an equal one (`MarksCanLie`); it is
  exact if and only if no lane of the exclusive or is 1 directly above a zero one
  (`MarksAreEquality`).
- A direct tag narrower than the discriminant is read back by zero extension, so that a negative
  discriminant does not come back (`DirectReadsBack`, `NegativeDoesNotReadBack`).
- A dataful variant of a niche-encoded enum comes back if and only if its payload is outside the
  niche, or is the niche value that would tag that same variant (`UntaggedReadsBack`).
- Above four million key pairs the match is greedy and can be shorter than a longest one
  (`GreedyCanBeShort`).
- A snapshot of a trace is lost in part when a line of its IR ends in a carriage return or looks
  like a marker; a Mach-O symbol with a colon or a line feed in its name does not come back. The
  round-trip lemmas have the exact conditions.
- A stack push of 256 bytes encodes, a pop of 256 bytes does not (`PopUndoesPush`), and a wide
  move silently drops all but the low sixteen bits of its immediate (`WideMoveKeepsLowBits`).
- The size of a slice held by value is its element's for one layout computation and nothing for
  the other (`SlicesDisagree`; the same if and only if the element has no size,
  `SliceSizesAgree`). Alignments differ where there is no size (`EmptyEnumsDisagree`), for empty
  enums and nothing else (`AlignmentsAgree`).

## Model

| member | source | states |
|---|---|---|
| A64.ConditionCodesMeanTheirNames | crates/pliron-ll/src/aarch64/attributes.rs:105-128 | the four condition bits test the flags as the name says, inversion negates the test, and inverting twice is the identity |
| A64.ExitsAre | crates/pliron-ll/src/aarch64/encoding.rs:321-322 | the exits are `ret` by any register and `brk` with any number, and no other word |
| Encoding.FieldRoundTrip | crates/pliron-ll/src/aarch64/encoding.rs:1274-1300 | the masked two's complement field of any width sign-extends to the signed distance again |
| Encoding.ImmediateField19 | crates/pliron-ll/src/aarch64/encoding.rs:1282-1300 | opcode, signed 19-bit distance and low field of `cbnz` and `b.cond` are all recovered from the word |
| Encoding.EncodedBLands | crates/pliron-ll/src/aarch64/encoding.rs:1274-1280 | an accepted, 4-aligned `b` decodes to a branch whose pc plus distance is the target, in spite of truncating division |
| Encoding.EncodedCbnzLands | crates/pliron-ll/src/aarch64/encoding.rs:1282-1290 | the same of `cbnz`, with its register |
| Encoding.EncodedBCondLands | crates/pliron-ll/src/aarch64/encoding.rs:1292-1300 | the same of `b.cond`, with its condition |
| Encoding.BranchLength | crates/pliron-ll/src/aarch64/encoding.rs:1204-1241 | a branch to the following block has no word, and two words are used exactly where one cannot fall through to it |
| Encoding.InRangeIsNear | crates/pliron-ll/src/aarch64/encoding.rs:1274-1300 | the checks accept exactly 128 MiB either way for `b` and 1 MiB for `b.cond` and `cbnz`, in spite of truncating division |
| Encoding.RefusedBranchHasNoWord | crates/pliron-ll/src/aarch64/encoding.rs:1274-1300 | no word is a branch over a distance that is refused |
| CodeLayout.BlockOffsets | crates/pliron-ll/src/passes/aarch64/aarch64_encode.rs:142-162 | the offset of every block is the base plus four times the running sum of lengths known before encoding |
| CodeLayout.EncodeBranch | crates/pliron-ll/src/aarch64/encoding.rs:1243-1272 | succeeds exactly when every word's target exists and is near its own pc, and gives those words' bytes in order |
| CodeLayout.EncodedLength | crates/pliron-ll/src/aarch64/encoding.rs:1106-1122 | the words of a block are as many as `byte_len` said |
| CodeLayout.CodeLength | crates/pliron-ll/src/passes/aarch64/aarch64_encode.rs:32-105 | the code before a block ends where the layout says the block starts |
| CodeLayout.BlockInCode | crates/pliron-ll/src/passes/aarch64/aarch64_encode.rs:32-105 | each block's words lie in the function's code at the block's offset |
| CodeLayout.EncodeFunction | crates/pliron-ll/src/passes/aarch64/aarch64_encode.rs:32-105 | emission succeeds exactly when every branch target is a block within 128 MiB, or 1 MiB for a conditional branch, of the word that reaches it; its bytes end at the last offset |
| Simulation.BranchWordsMeanTheTerminator | crates/pliron-ll/src/aarch64/encoding.rs:1204-1241 | the chosen words, read as a chain of tests that falls through to the next block, lead to the terminator's successor in every state |
| Simulation.BlockSimulates | crates/pliron-ll/src/aarch64/encoding.rs:1204-1272 | from a block's address the machine reaches the address of the block the graph goes to, with the graph's registers and flags |
| Simulation.ZeroCostFallsThrough | crates/pliron-ll/src/aarch64/encoding.rs:1204-1241 | a block without words is a branch to the block after it, which has the same address |
| Simulation.NoStall | crates/pliron-ll/src/aarch64/encoding.rs:1204-1241 | a run of the graph during which the machine takes no step only walks forward through the layout |
| Simulation.EncodedRunSimulates | crates/pliron-ll/src/aarch64/encoding.rs:1102-1300 | every state of every run of the graph is a state of the machine's run over the emitted bytes, after a known number of steps |
| Simulation.EncodedHaltsAsGraph | crates/pliron-ll/src/aarch64/encoding.rs:1102-1300 | the machine halts in a state if and only if the graph finishes in it |
| Simulation.EncodedNeverFaults | crates/pliron-ll/src/aarch64/encoding.rs:1102-1300 | the machine never leaves the emitted code or meets a word it does not know |
| Immediates.PcRelativeAddressLands | crates/pliron-ll/src/aarch64/encoding.rs:1129-1154 | the three words leave pc plus the distance in the register and change no other, if and only if the distance is not -2^24 |
| InstructionWords.EncodedOffsetDecodes | crates/pliron-ll/src/aarch64/encoding.rs:590-618 | scaled or unscaled, an encoded load or store decodes to the byte offset, op and registers it was given, at any scale |
| InstructionWords.RefusedOffsetHasNoWord | crates/pliron-ll/src/aarch64/encoding.rs:590-618 | no word of either form decodes to an offset that is refused |
| InstructionWords.PopUndoesPush | crates/pliron-ll/src/aarch64/encoding.rs:519-544 | a push moves the stack pointer down and a pop of as many bytes up again; only 256 bytes can be pushed and not popped |
| InstructionWords.StackMovesTaken | crates/pliron-ll/src/aarch64/encoding.rs:519-544 | pushes and pops are refused exactly for amounts that no word moves by and for those that are no multiple of eight |
| InstructionWords.WideMoveKeepsLowBits | crates/pliron-ll/src/aarch64/encoding.rs:327-337 | a wide move decodes to its shift, register and the low sixteen bits of the immediate, which are the immediate exactly below 2^16 |
| InstructionWords.WideMovesTaken | crates/pliron-ll/src/aarch64/encoding.rs:327-337 | a wide move is refused exactly for shifts that no word has |
| InstructionWords.VectorShiftDecodes | crates/pliron-ll/src/aarch64/encoding.rs:380-404 | lane width and amount of a vector shift are recovered from the field; amounts are refused exactly outside the lane |
| InstructionWords.CallLands | crates/pliron-ll/src/aarch64/encoding.rs:1083-1100 | a local call lands on the callee and is refused exactly from 128 MiB on |
| Ir.ExecutionsExecute | crates/crabbit/src/importer/arith.rs:653-663 | evaluating emitted ops in any environment satisfies what the emission methods promise of them |
| Ir.Block.EmitCast | crates/crabbit/src/importer/arith.rs:921-933 | a cast extends by the signedness of its source and truncates, and a cast to the same type changes nothing |
| WideMultiply.PartialsFit | crates/crabbit/src/importer/arith.rs:665-784 | no partial product wraps |
| WideMultiply.PartialsGiveHighHalf | crates/crabbit/src/importer/arith.rs:665-784 | four partial products and the carry add up to the high half of the product, without wrapping |
| WideMultiply.EmitUmulh | crates/crabbit/src/importer/arith.rs:665-784 | the emitted ops hold the quotient of the true product by 2^2h, for words of any even width 2h of at least four bits |
| MulOverflow.HighTestDecides | crates/crabbit/src/importer/arith.rs:564-614 | after both sign fixups the high half differs from the sign of the low half if and only if the signed product does not fit |
| MulOverflow.EmitSignMask | crates/crabbit/src/importer/arith.rs:788-808 | all ones for a word with its top bit set, zero otherwise |
| MulOverflow.LowerSignedMulOverflowByHalves | crates/crabbit/src/importer/arith.rs:564-614 | wrapped product and exact overflow flag of signed words by the high-half test |
| MulOverflow.LowerUnsignedMulOverflowByHalves | crates/crabbit/src/importer/arith.rs:810-864 | wrapped product and exact overflow flag of unsigned words by the high-half test |
| MulOverflow.NarrowedProductFits | crates/crabbit/src/importer/arith.rs:518-562 | narrowing a product and widening it back keeps it if and only if it fits |
| MulOverflow.LowerSignedMulOverflow | crates/crabbit/src/importer/arith.rs:518-562 | wrapped product and exact overflow flag of signed words at twice the width |
| MulOverflow.LowerUnsignedMulOverflow | crates/crabbit/src/importer/arith.rs:810-864 | the same of unsigned words |
| MulOverflow.LowerMulOverflow | crates/crabbit/src/importer/arith.rs:405-417 | for every supported width and signedness the pair holds the wrapped product and whether the true one fits; other widths are refused |
| Saturate.SignsTellOverflow | crates/crabbit/src/importer/arith.rs:455-516 | the sign rule of addition and of subtraction says exactly whether the true result leaves the signed range, at any width |
| Saturate.LowerSignedOverflow | crates/crabbit/src/importer/arith.rs:455-516 | wrapped result and exact overflow flag |
| Saturate.LowerUnsignedOverflow | crates/crabbit/src/importer/arith.rs:419-453 | wrapped result and exact overflow flag by one comparison |
| Saturate.OverflowSide | crates/crabbit/src/importer/arith.rs:315-403 | the clamped true result is the wrapped one, or the bound on the side of the left operand's sign |
| Saturate.LowerSignedSaturating | crates/crabbit/src/importer/arith.rs:315-403 | the emitted ops hold the true result clamped to the signed range |
| Saturate.LowerUnsignedSaturating | crates/crabbit/src/importer/intrinsics.rs:1035-1091 | the emitted ops hold the true result clamped to the unsigned range |
| Floats.PowerDecodes | crates/crabbit/src/importer/arith.rs:123-190 | the constant built from exponent bits is plus or minus the power of two, or infinite where the format has no such number |
| FloatClamp.AtLeastPower | crates/crabbit/src/importer/arith.rs:88-258 | comparing with that constant tells exactly the values from the power on, infinities included and NaN not |
| FloatClamp.SignedCases | crates/crabbit/src/importer/arith.rs:88-258 | the saturating cast is zero for NaN, a bound above and below, and the library's result inside |
| FloatClamp.BoundsBound | crates/crabbit/src/importer/arith.rs:78-95 | every saturating cast fits its type; it is the truncation where that fits, else the bound on that side |
| FloatClamp.TruncatedIs | crates/crabbit/src/importer/arith.rs:78-95 | truncation keeps the sign and drops less than one |
| FloatClamp.CalleeIsNamed | crates/crabbit/src/importer/arith.rs:104-111 | the function called is the one the runtime library has for that signedness and precision |
| FloatClamp.LowerSignedCast | crates/crabbit/src/importer/arith.rs:88-258 | the mask network computes the saturating cast for every float and every library result that keeps its contract in range |
| FloatClamp.LowerUnsignedCast | crates/crabbit/src/importer/arith.rs:88-258 | the same of unsigned targets |
| FloatClamp.LowerFloatToI128Sat | crates/crabbit/src/importer/arith.rs:88-258 | both, at 128 bits from either float format |
| PopCounts.PairsBySubtraction | crates/crabbit/src/importer/intrinsics.rs:1611-1662 | subtracting the masked half replaces every two bits by their count |
| PopCounts.NibblesByAddition | crates/crabbit/src/importer/intrinsics.rs:1611-1662 | the second stage holds the count of every four bits |
| PopCounts.BytesByAddition | crates/crabbit/src/importer/intrinsics.rs:1611-1662 | the third stage holds the count of every byte |
| PopCounts.ByteTotal | crates/crabbit/src/importer/intrinsics.rs:1611-1662 | the multiplication gathers the sum of all byte counts in the top byte |
| PopCounts.PopCountIsByteSum | crates/crabbit/src/importer/intrinsics.rs:1611-1662 | the number of set bits is the sum over the bytes |
| PopCounts.EmitPopCount64 | crates/crabbit/src/importer/intrinsics.rs:1611-1662 | the emitted ops hold the number of set bits |
| ZeroCounts.LowestBit | crates/crabbit/src/importer/intrinsics.rs:1427-1461 | and with the negation leaves the lowest set bit alone |
| ZeroCounts.TrailingStage | crates/crabbit/src/importer/intrinsics.rs:1427-1461 | one less than that, masked to the width, is as many ones as there are trailing zeros in the width, whatever is above it |
| ZeroCounts.EmitCttz64 | crates/crabbit/src/importer/intrinsics.rs:1427-1461 | trailing zeros of the low bits, the width for none, whatever is above them |
| ZeroCounts.SmearStep | crates/crabbit/src/importer/intrinsics.rs:1526-1568 | each smearing step doubles how far down set bits spread |
| ZeroCounts.EmitCtlz64 | crates/crabbit/src/importer/intrinsics.rs:1526-1568 | leading zeros within the width; 64 when no bit is set |
| ZeroCounts.CtlzMeetsIntrinsic | crates/crabbit/src/importer/intrinsics.rs:1535-1567 | that is the intrinsic's count if and only if the width is 64 or a bit is set |
| ZeroCounts.CttzOfHalves | crates/crabbit/src/importer/intrinsics.rs:1487-1522 | trailing zeros of a double word from those of its halves, for every word |
| ZeroCounts.CtlzOfHalves | crates/crabbit/src/importer/intrinsics.rs:1573-1608 | leading zeros of a double word from those of its halves, for every word |
| ZeroCounts.EmitCttz128 | crates/crabbit/src/importer/intrinsics.rs:1487-1522 | trailing zeros of a 128-bit value, zero included |
| ZeroCounts.EmitCtlz128 | crates/crabbit/src/importer/intrinsics.rs:1573-1608 | leading zeros of a 128-bit value, zero included |
| ZeroCounts.CttzCounts | crates/crabbit/src/importer/intrinsics.rs:462-486 | the count used above is the place of the lowest set bit, or the width |
| ZeroCounts.CtlzCounts | crates/crabbit/src/importer/intrinsics.rs:487-511 | the count used above is the distance of the highest set bit from the top, or the width |
| BitMoves.EmitBswap64 | crates/crabbit/src/importer/intrinsics.rs:1691-1736 | every bit of the result is the bit at the mirrored byte, and nothing is set above the width |
| BitMoves.SwapGroups | crates/crabbit/src/importer/intrinsics.rs:1738-1800 | one mask-and-shift stage swaps neighbouring groups of one, two or four bits |
| BitMoves.AllSwaps | crates/crabbit/src/importer/intrinsics.rs:1738-1800 | three stages and a byte swap mirror all 64 bits |
| BitMoves.Realigned | crates/crabbit/src/importer/intrinsics.rs:1738-1800 | shifting the mirrored word down leaves the mirrored low bits, whatever was above them |
| BitMoves.EmitBitReverse64 | crates/crabbit/src/importer/intrinsics.rs:1738-1800 | the emitted ops mirror the low bits at every width up to 64 |
| Rotates.ShiftsRotate | crates/crabbit/src/importer/intrinsics.rs:575-740 | two opposite shifts in a wider word, masked, move every bit round, with no bit doubled or lost |
| Rotates.RotatesBack | crates/crabbit/src/importer/intrinsics.rs:575-740 | rotating the other way by as much gives the word back |
| Rotates.EmitRotate | crates/crabbit/src/importer/intrinsics.rs:575-740 | rotation by any amount, taken modulo the width, at every width that is a power of two |
| Simd.MarksFindEquals | crates/crabbit/src/importer/intrinsics.rs:911-947 | every zero lane is marked, and at or below every marked lane there is a marked zero one |
| Simd.MarksOfEquality | crates/crabbit/src/importer/intrinsics.rs:898-963 | the same in terms of equal lanes of the operands |
| Simd.MarksAreEquality | crates/crabbit/src/importer/intrinsics.rs:898-963 | marks are exactly the equal lanes if and only if no lane differs by one directly above an equal lane |
| Simd.MarksCanLie | crates/crabbit/src/importer/intrinsics.rs:911-947 | operands with a lane that differs and is marked |
| Simd.EmitSimdEq | crates/crabbit/src/importer/intrinsics.rs:898-963 | each lane of the result is all ones where the borrow chain marks it, zero elsewhere |
| Simd.EmitSimdCompare | crates/crabbit/src/importer/intrinsics.rs:964-1034 | each lane is all ones exactly where the signed comparison of the lanes holds |
| EnumTags.NicheReadsBack | crates/crabbit/src/importer/convert.rs:261-444 | a variant told by the niche reads back as its own index modulo the discriminant's width, and as the index itself when the variants fit that width |
| EnumTags.UntaggedReadsBack | crates/crabbit/src/importer/convert.rs:261-444 | a dataful variant reads back if and only if its payload is outside the niche, or the variant is itself among the niche's and the payload is the very tag that would stand for it |
| EnumTags.NicheTagsDiffer | crates/crabbit/src/importer/convert.rs:411-444 | different niche variants are written differently |
| EnumTags.DirectReadsBack | crates/crabbit/src/importer/convert.rs:261-444 | a direct tag comes back if and only if the discriminant is the zero extension of its tag |
| EnumTags.NegativeDoesNotReadBack | crates/crabbit/src/importer/convert.rs:261-404 | a negative discriminant that does not come back |
| EnumTags.ReadEnumDiscriminant | crates/crabbit/src/importer/convert.rs:261-404 | the branch-free ops hold the decoded variant or discriminant for every tag |
| TypeLayouts.AlignToRoundsUp | crates/crabbit/src/importer/layout.rs:114-120 | the mask trick rounds up, for every alignment that occurs |
| TypeLayouts.RoundUpIsLeast | crates/crabbit/src/importer/layout.rs:114-120 | no smaller multiple of the alignment would do |
| TypeLayouts.FieldsApart | crates/crabbit/src/importer/layout.rs:77-94 | offsets of fields with size are aligned, in order and disjoint, and end within the struct |
| TypeLayouts.StructLikeFieldOffsets | crates/crabbit/src/importer/layout.rs:77-94 | the loop gives those offsets |
| TypeLayouts.StructLikeSize | crates/crabbit/src/importer/layout.rs:96-112 | the furthest field end, rounded up to the largest alignment |
| TypeLayouts.StructLikeAlign | crates/crabbit/src/importer/layout.rs:177-189 | the largest alignment of a field with size |
| TypeLayouts.LayoutsAgree | crates/crabbit/src/importer/layout.rs:124-251 | for every type without a slice of some size by value, the size from the Rust type is the size of its converted type, alignments agree where there is size, and the alignment divides the size |
| TypeLayouts.UnionHolds | crates/crabbit/src/importer/layout.rs:232-238 | every field of a union lies inside it, and it is no larger than its largest |
| TypeLayouts.IntegersMeasured | crates/crabbit/src/importer/layout.rs:124-200 | an integer takes its bits and is aligned to its size, or to eight bytes |
| TypeLayouts.EnumsAligned | crates/crabbit/src/importer/layout.rs:124-175 | an enum keeps its own alignment up to eight bytes |
| TypeLayouts.ArrayIsItsElements | crates/crabbit/src/importer/layout.rs:216-221 | an array is its elements side by side and nothing else |
| TypeLayouts.SlicesDisagree | crates/crabbit/src/importer/layout.rs:191-251 | a slice by value that is one element to one computation and nothing to the other |
| TypeLayouts.SliceSizesAgree | crates/crabbit/src/importer/layout.rs:191-251 | the two sizes of a slice by value are the same if and only if its element has no size |
| TypeLayouts.EmptyEnumsDisagree | crates/crabbit/src/importer/layout.rs:124-175 | an enum without size that has different alignments |
| TypeLayouts.AlignmentsAgree | crates/crabbit/src/importer/layout.rs:124-175 | with or without size, the two alignments agree if and only if the type is no empty enum of an alignment above one, nor arrays or slices of one |
| TypeLayouts.CrabbitMeasure | crates/crabbit/src/importer/abi.rs:143-218 | size and alignment of a converted type, by one recursive pass |
| TypeLayouts.CrabbitStructMeasure | crates/crabbit/src/importer/abi.rs:143-218 | the running size of a struct's fields is where the layout ends them |
| TypeLayouts.FieldOffsetsApart | crates/crabbit/src/importer/layout.rs:3-73 | fields of a struct are aligned, inside it and disjoint, in any memory order |
| ByteMemory.StoreLoads | crates/crabbit/src/importer/place.rs:93-118 | a stored value loads back, whatever padding became |
| ByteMemory.ExtractIsLoad | crates/crabbit/src/importer/place.rs:30-73 | extracting along a path from the loaded whole is loading at the path's byte offset |
| ByteMemory.StoreInsertIsStore | crates/crabbit/src/importer/place.rs:120-175 | storing the rebuilt whole is storing the element, on all bytes but padding |
| ByteMemory.OtherPathsKeep | crates/crabbit/src/importer/place.rs:120-175 | storing through one path changes nothing any diverging path reads |
| Places.ImporterAgrees | crates/crabbit/src/importer/helpers.rs:111-153 | converted field indices and byte offsets name the same parts, for every memory order |
| Places.PathsAgree | crates/crabbit/src/importer/place.rs:205-287 | a field path by converted indices has the shape and the byte offset of the path by source fields |
| Places.FieldsAreSteps | crates/crabbit/src/importer/place.rs:76-91 | every field of a struct or tuple is a step of a path, to a place of its type |
| Places.DivergingFields | crates/crabbit/src/importer/helpers.rs:111-153 | diverging source paths diverge as converted paths |
| Places.Frame.PlaceAddr | crates/crabbit/src/importer/place.rs:205-287 | the address loop adds up the offsets of the path |
| Places.Frame.LoadFieldProjection | crates/crabbit/src/importer/place.rs:30-73 | reading a field through the value path is loading it at its byte offset |
| Places.Frame.StoreFieldProjection | crates/crabbit/src/importer/place.rs:120-175 | after writing a field through the value path it reads back, and memory is as if only the field's bytes had been stored |
| Places.Frame.Replaced | crates/crabbit/src/importer/place.rs:120-175 | descending with a stack of parents and rebuilding replaces exactly the field |
| Places.FieldsKeep | crates/crabbit/src/importer/place.rs:120-175 | no other field changes |
| CallAbi.PassedIndirectly | crates/crabbit/src/importer/abi.rs:116-139 | exactly aggregates above sixteen bytes (section 6.8.2 of AAPCS64) and those with an array go through memory, if they have any size |
| CallAbi.PassedLeaves | crates/crabbit/src/importer/arith.rs:988-1031 | what is passed in leaves is passed in all scalars of its shape |
| CallAbi.CollectSimpleAbiFields | crates/crabbit/src/importer/arith.rs:997-1031 | the collector succeeds exactly without arrays and appends the leaves in order below its prefix |
| CallAbi.CollectKernelParamLeaves | crates/crabbit/src/importer/abi.rs:86-114 | the collector for kernel parameters, likewise |
| CallAbi.KernelLeavesOfShape | crates/crabbit/src/importer/abi.rs:86-114 | its leaves are all scalars of the shape |
| CallAbi.KernelArraysRefused | crates/crabbit/src/importer/abi.rs:86-114 | a kernel parameter is refused if and only if it holds an array of some size |
| CallAbi.FilledIsWhole | crates/crabbit/src/importer/abi.rs:11-46 | inserting all extracted scalars into any value gives the value |
| Calls.ArgsPassable | crates/crabbit/src/importer/abi.rs:116-139 | every converted type is classified so that the two sides agree |
| Calls.Stack.LowerCallArg | crates/crabbit/src/importer/abi.rs:220-242 | the caller pushes the slots of the classification, with the value in them or behind the pointer, and disturbs no earlier stack contents |
| Calls.Stack.Reassemble | crates/crabbit/src/importer/abi.rs:11-46 | the callee consumes exactly those slots and has the value |
| Calls.PushSpread | crates/crabbit/src/importer/stmt.rs:333-377 | an untupled argument's elements are pushed in source order out of their converted places |
| Calls.TakeSpread | crates/crabbit/src/importer/entry.rs:261-408 | the spread tuple is rebuilt element by element |
| Calls.PushAll | crates/crabbit/src/importer/stmt.rs:333-377 | every argument's slots lie after those of the ones before it, and stay valid while later ones are pushed |
| Calls.TakeAll | crates/crabbit/src/importer/entry.rs:261-408 | the callee's index passes over all slots and gives every parameter its value |
| Calls.Cross | crates/crabbit/src/importer/entry.rs:261-408 | pushed and taken up, every parameter list on which both sides agree comes back: no parameter shifts, none is left over |
| Calls.EveryCallIsGood | crates/crabbit/src/importer/entry.rs:261-408 | whatever the types and the memory order of a spread tuple, both sides agree: elements are passable, each is the tuple's part at its converted position, and every position is filled; only types without slots lack storage |
| Calls.CrossTypes | crates/crabbit/src/importer/entry.rs:261-408 | a call with parameters of any source types, the last spread or not, is refused exactly when what is to be spread is no tuple; otherwise every parameter with storage comes back |
| AllocationGlobals.Module.EmitAllocationGlobal | crates/crabbit/src/importer/globals.rs:139-206 | emission terminates on cyclic graphs of allocations and functions, defines nothing twice and nothing that is not reachable, and leaves every started global and function to its own caller to finish; it fails only when something reachable refers to what has no address, and says why |
| AllocationGlobals.Module.DeclareStaticGlobal | crates/crabbit/src/importer/globals.rs:3-73 | the same of a static, declared when it is foreign |
| AllocationGlobals.Module.ImportFunction | crates/crabbit/src/importer/intrinsics.rs:1817-1842 | a function a pointer leads to is there at once and its body is imported with every constant and callee it refers to, in spite of recursion; nothing unreachable is defined |
| AllocationGlobals.Module.DataGlobalForAllocation | crates/crabbit/src/importer/globals.rs:211-289 | the symbol for an allocation id is defined when it is returned; a type id, a function that cannot be had and a virtual table without memory have none, and nothing else is refused unless something reachable refers to one of these |
| AllocationGlobals.ReachableIsThere | crates/crabbit/src/importer/globals.rs:139-289 | when nothing is under way, everything reachable from an emitted global or imported function is there, globals with their own data and relocations |
| AllocationGlobals.NothingIsStuck | crates/crabbit/src/importer/globals.rs:139-289 | when nothing is under way, nothing reachable from what is there refers to what has no address: emission succeeds only when it could |
| AllocationGlobals.SlotsDenoteTargets | crates/crabbit/src/importer/globals.rs:165-200 | after linking, every pointer slot holds the base of what it points to plus the offset that was in it |
| AllocationGlobals.ReadUintHolds | crates/crabbit/src/importer/globals.rs:165-200 | that word is made of the slot's bytes, the lowest first |
| AllocationGlobals.AddendIsSigned | crates/crabbit/src/importer/globals.rs:165-200 | a relocation's addend is the word in the slot, in two's complement |
| AllocationGlobals.OnlyPointersRelocated | crates/crabbit/src/importer/globals.rs:165-200 | every relocation is that of a pointer slot |
| Switches.ChainLeads | crates/crabbit/src/importer/stmt.rs:164-211 | from every comparison of the chain each value goes where the remaining cases send it, in as many steps as they compare |
| Switches.Region.ImportSwitch | crates/crabbit/src/importer/stmt.rs:164-211 | the switch is a chain through new blocks that ends at its target for every value; other blocks are as they were |
| Matching.LcsIsUpperBound | crates/pliron-bpgo/src/align.rs:175-213 | no common subsequence is longer than the table says |
| Matching.FillTable | crates/pliron-bpgo/src/align.rs:175-213 | filling the flat array row by row gives the table |
| Matching.Traceback | crates/pliron-bpgo/src/align.rs:175-213 | the traceback realises the table: a common subsequence of its length |
| Matching.Match | crates/pliron-bpgo/src/align.rs:175-213 | a strictly increasing common subsequence, longest of all up to the limit |
| Matching.GreedyIsCommon | crates/pliron-bpgo/src/align.rs:175-213 | the greedy match is a common subsequence too |
| Matching.GreedyCanBeShort | crates/pliron-bpgo/src/align.rs:175-213 | above the limit, a match of one pair where two thousand and more could be paired |
| Alignments.MatchLabelled | crates/pliron-bpgo/src/align.rs:55-101 | after the blocks with equal labels, every output op is paired or left, in order, keys of pairs are equal, the pairs of each labelled block are those of its match, and the gaps are those of the same matches |
| Alignments.MatchLeftovers | crates/pliron-bpgo/src/align.rs:104-124 | of every key, the left output ops get the input ops one by one in order, and those that remain are created |
| Alignments.Replacements | crates/pliron-bpgo/src/align.rs:129-145 | one replacement for each gap between matches that lost and gained something, in order: all the deleted ops and all the created ops of that gap, in their order |
| Alignments.Align | crates/pliron-bpgo/src/align.rs:49-147 | pairs and created ops partition the output; with distinct output labels pairs are injective and with the deleted ops partition the input; no created op has the key of a deleted one; left ops are paired in order per key; the replacements are all that each single gap between matches of one block lost and gained |
| Profiles.AddedReads | crates/pliron-bpgo/src/profile.rs:144-158 | adding a share of a profile adds that share of every cost and takes the maximum of every count |
| Profiles.AddedTotal | crates/pliron-bpgo/src/profile.rs:144-158 | and raises the total of a cost by just that |
| Profiles.SpreadConserves | crates/pliron-bpgo/src/profile.rs:161-170 | spreading a profile over targets adds all of it to the total, repeated targets included |
| Profiles.SpreadCounts | crates/pliron-bpgo/src/profile.rs:161-170 | every target gets the count, no other op does |
| Profiles.TransferConserves | crates/pliron-bpgo/src/align.rs:149-156 | transferring adds the total of the paired outputs to that of the inputs |
| Profiles.AlignedTransferConserves | crates/pliron-bpgo/src/align.rs:149-156 | over a whole alignment, cost received and cost of created ops make up all cost there was |
| Profiles.TransferCounts | crates/pliron-bpgo/src/align.rs:149-156 | a count becomes the largest among its own and those of its outputs |
| Profiles.CopyConserves | crates/pliron-bpgo/src/walk.rs:351-359 | copying between equal shapes conserves cost |
| Profiles.EvenedOutIsUniform | crates/pliron-bpgo/src/profile.rs:188-211 | every op of a profiled block gets the block's largest execution count; blocks without one stay |
| Profiles.EvenedOutKeepsCosts | crates/pliron-bpgo/src/profile.rs:188-211 | no other metric changes anywhere |
| Profiles.EvenedOutIsIdempotent | crates/pliron-bpgo/src/profile.rs:188-211 | doing it twice is doing it once |
| Profiles.RunsIsLargest | crates/pliron-bpgo/src/profile.rs:188-211 | the count given to a block is one of its ops' and none is larger |
| Profiles.CountsAre | crates/pliron-bpgo/src/profile.rs:108-113 | counts are the executions, of the op itself or of what a prefix names; all else are costs |
| Profiles.Context.Add | crates/pliron-bpgo/src/profile.rs:131-141 | one metric of one op is merged into the stored profile |
| Profiles.Context.AddAll | crates/pliron-bpgo/src/profile.rs:144-158 | every metric of a profile is merged, by share |
| Profiles.Context.SpreadProfile | crates/pliron-bpgo/src/profile.rs:161-170 | the loop over targets is the spreading whose total is conserved |
| Profiles.Context.AddInstance | crates/pliron-bpgo/src/profile.rs:173-185 | an instance adds to every metric, counts included |
| Profiles.Context.Transfer | crates/pliron-bpgo/src/align.rs:149-156 | the loop over pairs is the transfer whose total is conserved |
| Profiles.Context.Copy | crates/pliron-bpgo/src/walk.rs:351-359 | the copy is the transfer of ops side by side |
| Profiles.Context.EvenOutExecutions | crates/pliron-bpgo/src/profile.rs:188-211 | the loop over blocks is the evening out above |
| Walks.StepIsLocal | crates/pliron-bpgo/src/walk.rs:151-186 | one step of one function depends on that function's ops only |
| Walks.AloneIsLocal | crates/pliron-bpgo/src/walk.rs:114-206 | and so does its whole walk |
| Walks.LiveIsThere | crates/pliron-bpgo/src/walk.rs:151-153 | a live function is in the current snapshot: the lookup cannot miss |
| Walks.Turn | crates/pliron-bpgo/src/walk.rs:151-186 | one turn is one step of the function's walk alone: it goes one snapshot back or stops, and writes only its own ops; what the step hands over is stated by `WalkSteps` |
| Walks.GoBack | crates/pliron-bpgo/src/walk.rs:114-206 | a pass over all live functions leaves each where its walk alone would be |
| Walks.OnePass | crates/pliron-bpgo/src/walk.rs:114-206 | the index goes down by one and what the snapshot's ops hold is recorded; what was recorded before is still what they hold |
| Walks.WalkMeasured | crates/pliron-bpgo/src/walk.rs:114-206 | every function profiled at the end has exactly one stop, and ends as if it had walked alone, whatever happens to the others; exactly the snapshots the walk comes to are recorded, each with what its ops end with, unless that is nothing |
| Walks.WalkBack | crates/pliron-bpgo/src/walk.rs:114-206 | the walk fails exactly on an empty trace, an unparsable last snapshot or a failed measurement; otherwise it promises the same from the measured profiles |
| Walks.CollectedStays | crates/pliron-bpgo/src/walk.rs:255-268 | a pass writes nothing to later snapshots, so what was recorded of them is what they still hold |
| WalkSteps.StepLeaves | crates/pliron-bpgo/src/walk.rs:161-186 | one step of one function leaves that hand-over |
| WalkSteps.WalkHolds | crates/pliron-bpgo/src/walk.rs:114-206 | of every walk, said of its end alone: an unchanged function's ops gain what their counterparts show, a changed one's are what its backward pass leaves of the output and of the function's own profile, evened out; and each stop says what was in the way there |
| WalkSteps.UnchangedComesBack | crates/pliron-bpgo/src/walk.rs:161-164 | as far back as a function is unchanged, each of its ops ends with what was measured of its counterpart in the last snapshot |
| JsonEnds.FindJsonEnd | crates/pliron-trace/src/lib.rs:255-293 | gives the place where the outermost bracket closes, or nothing if it never does |
| JsonEnds.ClosesOnce | crates/pliron-trace/src/lib.rs:255-293 | there is one such place at most |
| JsonEnds.ClosesAtTheEnd | crates/pliron-trace/src/lib.rs:255-293 | for every JSON object or array (sections 2 to 7 of RFC 8259) it is the end, whatever follows, braces and escapes in strings included |
| Traces.ToText | crates/pliron-trace/src/lib.rs:90-101 | header, then every snapshot under its marker |
| Traces.ParseParts | crates/pliron-trace/src/lib.rs:295-327 | the line loop is the grouping of lines by markers that the round trip is about |
| Traces.ParseTrace | crates/pliron-trace/src/lib.rs:241-253 | the metadata is the text up to the closing bracket, the parts are those of the rest; an empty file and one without metadata are errors |
| TraceRoundTrip.ParsesOneWay | crates/pliron-trace/src/lib.rs:241-253 | a file is read in one way only |
| TraceRoundTrip.TitleIsReadBack | crates/pliron-trace/src/lib.rs:329-343 | every label comes back trimmed from its marker line in spite of repeated trimming; an empty one gets a name |
| TraceRoundTrip.UnmarkedLines | crates/pliron-trace/src/lib.rs:295-327 | text before any marker is one part with a name of its own, from its first line that is not blank on |
| TraceRoundTrip.FoundTitlesSurvive | crates/pliron-trace/src/lib.rs:329-343 | every label that is read is trimmed, non-empty and on one line |
| TraceRoundTrip.ReadBackIsNormal | crates/pliron-trace/src/lib.rs:90-101 | IR without marker lines comes back trimmed of line feeds if and only if no line ends in a carriage return |
| TraceRoundTrip.AReturnIsLost | crates/pliron-trace/src/lib.rs:90-101 | a snapshot that is parsed as another one, whatever the metadata |
| TraceRoundTrip.RoundTrip | crates/pliron-trace/src/lib.rs:90-101 | metadata always comes back; the snapshots do if and only if labels are non-empty trimmed single lines and no IR line is a marker or ends in a carriage return |
| Texts.DecimalParses | crates/pliron-ll/src/aarch64/registers.rs:89-93 | a printed number is read back exactly when the type holds it |
| Registers.PrintedParses | crates/pliron-ll/src/aarch64/registers.rs:63-116 | a printed register comes back exactly when its class or number has a spelling; what the others become |
| Registers.VectorSpellingsAgree | crates/pliron-ll/src/aarch64/registers.rs:110-115 | the architectural spelling of a full vector register means what the printed one does |
| Registers.ParsedIsPrintable | crates/pliron-ll/src/aarch64/registers.rs:63-116 | parsing gives only registers with a spelling |
| Registers.ParsedPrintsBack | crates/pliron-ll/src/aarch64/registers.rs:198-225 | printing what was parsed spells the same register |
| Lists.BracketedRoundTrip | crates/pliron-ll/src/aarch64/attributes.rs:411-429 | a bracketed list of any length comes back exactly when all its items do |
| Attributes.PrintFunctionAbi | crates/pliron-ll/src/aarch64/attributes.rs:249-265 | the printing loop writes the list with its separators |
| Attributes.LocationReads | crates/pliron-ll/src/aarch64/attributes.rs:267-313 | every location comes back, whatever ends it |
| Attributes.AbiRoundTrip | crates/pliron-ll/src/aarch64/attributes.rs:249-345 | a signature comes back if and only if all its registers have spellings |
| Attributes.PrintFixups | crates/pliron-ll/src/aarch64/attributes.rs:355-376 | the printing loop writes the list in brackets with its separators |
| Attributes.FixupsRoundTrip | crates/pliron-ll/src/aarch64/attributes.rs:355-429 | a fixup list comes back if and only if every symbol is a non-empty word of the accepted characters |
| MachO.SymbolsRoundTrip | crates/pliron-ll/src/macho/ops.rs:144-177 | a symbol table comes back if and only if no name holds a colon or a line feed |
| MachO.ColonsAreLost | crates/pliron-ll/src/macho/ops.rs:144-177 | a symbol that does not come back |
| MachO.SymbolsAreRefusedWhen | crates/pliron-ll/src/macho/ops.rs:160-177 | a line without a fourth field is read as a defined symbol, fields past it are not read, and it is refused exactly for fewer than three fields or an offset that is no number |
| MachO.RelocationsRoundTrip | crates/pliron-ll/src/macho/ops.rs:179-212 | the same of relocations |

## Left out

- Queries to the Rust compiler, monomorphisation and symbol mangling are inputs of the model.
- The dialect's own verifiers, the optimisation passes and register allocation are not part of this model.
- Tables (opcode words, `fmov` immediates, device calls, math library names) are constants without properties to prove.
- Drivers, configuration, file discovery, reports and scripts are input and output only.
- Rounding of profile numbers: they are reals.
- Stripping attribute markers from printed functions, and collecting the ops under an operation: a function of a snapshot is given by its name, text and blocks of ops.
- Decoding the metadata text of a trace into fields: the model gives back the text.
- Offsets into trace text count characters, not UTF-8 bytes.
- The integer parser and the space-skipping combinator of the parser library are taken as the longest run of digits and of white space.
- Values in memory are bytes; the narrowing of a stored boolean to one bit is not part of this model, and padding is unspecified after every store.
- Places with dereferences, indices and casts: the model has the field paths, which have two implementations.
- The calling convention of code compiled elsewhere (scalar pairs and virtual receivers) is not part of this model; both sides of a call are the importer's.
- Symbol names, sections and thread-local globals: an allocation's symbol is its identity.
- Ir.Block.EmitCast: like all emission methods, says what the op it adds computes and that earlier ops stay, not that operands were added before it: they are the very values the caller has.
- InstructionWords.EncodedOffsetDecodes: does not fix which scale goes with which opcode, because that is a row of the opcode table.
- FloatClamp.LowerFloatToI128Sat: says nothing about library results that break their contract inside the range, because the source relies on it there.
- Walks.WalkBack: takes what a pass does to one function as a given local function, because passes are plug-ins.
