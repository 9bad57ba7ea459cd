# Verified models of the armfortas runtime

armfortas is a Fortran compiler with its own runtime library. This project models
the runtime's hardest self-contained algorithms, and the frontend's byte codec, in
Dafny and proves what they are for:

- **Decimal input.** A numeric field becomes an exact decimal; the host parser's
  nearest value is compared with it exactly and moved by one unit in the last place
  where the rounding mode asks for it (`runtime/src/decimal_input.rs`). The model is
  parameterised by the binary format; binary32 and binary64 are instances. `ParseReal`
  is the end-to-end statement.
- **Integral rounding** by integer arithmetic on the encoding, carries into the
  exponent included (`runtime/src/ieee.rs`).
- **Array descriptors**: allocation layout, sections, column-major walks, flat copies,
  overlap test, RESHAPE, reductions along a dimension, RANDOM_NUMBER
  (`runtime/src/array.rs`, `runtime/src/descriptor.rs`, `runtime/src/system.rs`). One
  address map is used throughout: element `idx` is at
  `base + sum(idx[d] * stride[d]) * elem_size`.
- **Ownership** of allocatable arrays and deferred-length strings over one heap, for
  every run of ALLOCATE, DEALLOCATE, MOVE_ALLOC and assignment
  (`runtime/src/array.rs`, `runtime/src/string.rs`).
- **FORMAT control**: the output engine and the planner used by compiler lowering, as
  two interpreters of one descriptor tree (`runtime/src/format.rs`).
- **The reversible source view** (`src/source_bytes.rs`) and **SPLIT/TOKENIZE**
  (`runtime/src/string.rs`, `runtime/src/tokenize.rs`).

`dafny verify dfyconfig.toml` checks everything.

## How the files fit together

| layer | files |
|---|---|
| arithmetic and sequences | Arith, Powers, Digits, MachineInts, Repetition, Wrappers |
| floating point | BinaryFloat, IntegralRounding, DirectedRounding |
| decimal input | DecimalInteger, ExactDecimal, DecimalText, DecimalInput |
| arrays | Odometer, StridedViews, Spans, Payload, Sections, Overlap, Reshape, Reductions, SumSquares, RandomFill |
| ownership | Allocatables, DeferredStrings, AllocatablePrograms |
| format control | FormatControl, FormatEngine, FormatPlanner, FormatTermination |
| text | SourceView, Tokenize |

Code that updates state in the source is modelled by classes and methods with loops
(limb vectors, heap, descriptors, odometers, cursors); pure code by functions. Values
are unbounded integers, and widths are written out where they matter: saturating
64-bit exponents, checked 64-bit layouts, saturating and checked 128-bit spans, 64-bit
limb products, wrapping sums.

## What the proofs found

- FORMAT: the planner and the engine agree except where the engine never returns.
  `LoopsExactly` says for which formats and values that is: the format runs into an
  unlimited group that meets no item, more values are given than items come before it,
  and those values all fit. `TrailingLoopDiverges` and `HiddenLoopDiverges` give formats
  with fitting values on which no number of turns is enough, while the planner reports
  an invalid format or even succeeds. With values that do not fit the engine reports the
  misfit before it gets to the loop (`MisfitComesFirst`).
- The flat-copy test accepts some views with repeated addresses
  (`FlatTestIsNotEnough`). It is right for all views without repeated addresses
  (`FlatWalk`), and a flat copy is right exactly for contiguous views
  (`FlatWalkExactly`). The source's comment calls such views internally inconsistent
  and copies them flat on purpose.
- DIM reductions read strides below one as one. `ClampExactly` says for which views
  that is harmless; `ReversedViewMisread` is a view for which it is not. The
  sum-of-squares walk keeps signed strides and has no such restriction.
- Arrays whose elements have length zero have no storage, and the runtime takes them for
  unallocated or for garbage. Assigning such a variable to itself, or any section of
  one to another variable, deallocates the destination (`SelfAssignOfNothing`,
  `SectionAssignOfNothing`); among allocated variables and their sections this happens
  exactly to those (`SelfVanishesExactly`, `SectionAbsentExactly`).
- RESHAPE reads its arguments element after element from the base address and ignores
  their strides. `ReadsRightExactly` says that this is right exactly for contiguous and
  empty arguments; `StridedSourceMisread` is a section with stride two for which it is
  not.
- RESHAPE without PAD and with too few source elements repeats the first source
  element (`Supply`). Its documentation leaves that case open.
- RANDOM_NUMBER's later checks on single byte strides and rewinds can never fail once
  the range check has passed (`AllStepsFit`).

## Model

| member | source | states |
|---|---|---|
| IntegralRounding.RoundIntegralCorrect | runtime/src/ieee.rs:415-472 | for every format, finite encoding and mode tag the result encodes, with the sign kept, the integer that the mode prescribes for the real value; infinities and NaNs are returned unchanged |
| IntegralRounding.RoundedIsUnique | runtime/src/ieee.rs:413-414 | each mode prescribes one integer only, so correctness determines the result |
| IntegralRounding.RoundIntegralIdempotent | runtime/src/ieee.rs:415-472 | rounding a result again, in any mode, changes nothing |
| IntegralRounding.IntegersRoundToThemselves | runtime/src/ieee.rs:429-436 | encodings of integers are fixed points in every mode |
| IntegralRounding.SmallCorrect | runtime/src/ieee.rs:438-451 | magnitudes below one, subnormals included, go to a signed zero or one as the mode prescribes |
| IntegralRounding.MiddleCorrect | runtime/src/ieee.rs:453-471 | discarding fraction bits and adding the integer unit is correct, also when the carry enters the exponent field |
| IntegralRounding.LargeCorrect | runtime/src/ieee.rs:433-436 | values without fraction bits are already integers |
| IntegralRounding.KeptParity | runtime/src/ieee.rs:463-464 | the bit tested for ties has the parity of the truncated integer; when that bit is the exponent's lowest this rests on the bias being odd |
| BinaryFloat.MagOrder | runtime/src/decimal_input.rs:358-416 | the order of encodings is the order of magnitudes, across subnormals and binades |
| BinaryFloat.PartsDenoteValue | runtime/src/decimal_input.rs:301-339 | significand and exponent taken from an encoding denote exactly its value, subnormals included |
| BinaryFloat.StandardFormats | runtime/src/decimal_input.rs:301-339 | binary32 and binary64 have the biases and least exponents the source uses |
| DecimalIntegers.DecimalInteger.constructor | runtime/src/decimal_input.rs:251-264 | the base 10^9 limbs have the given value and no zero top limb |
| DecimalIntegers.DecimalInteger.MultiplySmall | runtime/src/decimal_input.rs:267-279 | multiplying in place by a 32-bit factor multiplies the value and keeps limbs below the radix with a nonzero top limb |
| DecimalIntegers.CarryBound | runtime/src/decimal_input.rs:270-274 | a limb product with carry fits 64 bits and the next carry stays below the factor |
| DecimalIntegers.DecimalInteger.ToDecimalString | runtime/src/decimal_input.rs:281-291 | the printed digits denote the value and do not start with zero |
| ExactDecimals.Normalized | runtime/src/decimal_input.rs:108-129 | the result has neither leading nor trailing zeros; the digits' value is the new value times the power of ten stripped, which goes to the exponent with saturation |
| ExactDecimals.NormalizedKeepsValue | runtime/src/decimal_input.rs:108-129 | without saturation the denoted magnitude is unchanged |
| ExactDecimals.FromBinaryParts | runtime/src/decimal_input.rs:78-106 | denotes exactly significand times two to the exponent, for every 128-bit significand and 32-bit exponent |
| ExactDecimals.CompareMagnitude | runtime/src/decimal_input.rs:182-213 | is the numeric order of magnitudes on all normalized decimals |
| ExactDecimals.Compare | runtime/src/decimal_input.rs:162-180 | is the numeric order of values, equal zeros of either sign included |
| ExactDecimals.OrderBounds | runtime/src/decimal_input.rs:194-199 | length plus exponent locates the magnitude between two powers of ten, so differing orders decide the comparison |
| DirectedRounding.Adjust | runtime/src/decimal_input.rs:418-550 | from a correct nearest-even value: the least number not below the exact value for RU, the greatest not above for RD, the greatest magnitude not exceeding for RZ, nearest with ties away for RC, with overflow and underflow |
| DirectedRounding.AdjustCompatible | runtime/src/decimal_input.rs:466-480 | comparing with the exact midpoint of two neighbours decides the tie-away result |
| DirectedRounding.StandardFormatsSupported | runtime/src/decimal_input.rs:558-584 | binary32 and binary64 are among the formats that Adjust and ParseReal are proved for |
| DirectedRounding.DirectedResults | runtime/src/decimal_input.rs:418-550 | the floor and ceiling magnitudes next to a nearest-even magnitude are the directed results for either sign |
| DirectedRounding.CeilingIsUp | runtime/src/decimal_input.rs:439-452 | a magnitude ceiling is RU for positive and RD for negative values, among all encodings |
| DirectedRounding.FloorIsDown | runtime/src/decimal_input.rs:439-465 | a magnitude floor is RD for positive, RU for negative and RZ for all values |
| DirectedRounding.NearestAwayFrom | runtime/src/decimal_input.rs:466-480 | ties-to-even differs from ties-away exactly at midpoints, and then the neighbour away from zero is finite and is the ties-away result |
| DirectedRounding.NearestOverflow | runtime/src/decimal_input.rs:419-431 | nearest rounding overflows exactly from the midpoint above the greatest finite value on |
| DirectedRounding.NearestExists | runtime/src/decimal_input.rs:1-8 | every magnitude has a nearest-even result, so the host parser's contract can be met |
| DirectedRounding.Neighbours | runtime/src/decimal_input.rs:358-416 | next_up and next_down move one encoding away from or toward zero, through zero and up to infinity |
| DirectedRounding.ExactMidpoint | runtime/src/decimal_input.rs:349-356 | denotes exactly half the sum of two neighbouring values |
| DirectedRounding.ExactFromEncoding | runtime/src/decimal_input.rs:341-347 | the decimal expansion of a finite encoding denotes its value |
| DecimalText.Parse | runtime/src/decimal_input.rs:21-76 | fails exactly on texts outside the field grammar; otherwise yields the normalized decimal of the field's digits and exponent under implied decimals and scale factor |
| DecimalText.TrimField | runtime/src/decimal_input.rs:22-22 | white space around a field is removed and nothing of the field, sign included |
| DecimalText.TrimRemoves | runtime/src/decimal_input.rs:22-22 | only white space is removed |
| DecimalText.AsciiWhite | runtime/src/decimal_input.rs:22-22 | among ASCII characters only blank, tab, line feed, vertical tab, form feed and carriage return are white |
| DecimalText.ReadField | runtime/src/decimal_input.rs:22-62 | sign, digits, point and exponent are those of the field the text spells, or no field spells the text |
| DecimalText.ReadMantissa | runtime/src/decimal_input.rs:45-62 | reads back the digits and the point of every mantissa and rejects everything else |
| DecimalText.FindMarker | runtime/src/decimal_input.rs:31-36 | finds the only exponent letter, fails exactly on two |
| DecimalText.ParseSaturatingExponent | runtime/src/decimal_input.rs:216-239 | the signed value capped at the 64-bit maximum, and failure exactly on anything but an optional sign with digits |
| DecimalText.SpellInjective | runtime/src/decimal_input.rs:21-62 | no text spells two fields, so a field's value is a function of its text |
| DecimalInput.ParseReal | runtime/src/decimal_input.rs:552-584 | every field with white space around it is read, and the result is the correct rounding, in the given mode, of the real number it denotes under implied decimals and scale factor; texts with a letter other than e and E get the host's answer, and nothing else is read |
| DecimalText.FieldsAreNotSpecial | runtime/src/decimal_input.rs:552-556 | no numeric field is taken for a special spelling |
| DecimalText.SpecialExactly | runtime/src/decimal_input.rs:552-556 | special spellings are the texts with an ASCII letter other than e and E |
| DecimalInput.ClampAgrees | runtime/src/decimal_input.rs:143-160 | clamping the scientific exponent to 10000 either way leaves the value on the same side of every representable number and midpoint |
| DecimalInput.SaturationAgrees | runtime/src/decimal_input.rs:108-129 | nor does saturation while trailing zeros are stripped |
| DecimalInput.ExponentAgrees | runtime/src/decimal_input.rs:64-73 | nor does saturation of the written exponent, for digit and implied-decimal counts below 2^62 |
| DecimalInput.AgreeNearest | runtime/src/decimal_input.rs:148-149 | values that agree in this sense have the same nearest results |
| DecimalInput.AgreeRounds | runtime/src/decimal_input.rs:148-149 | and the same directed results |
| Odometer.StepIndex | runtime/src/array.rs:1820-1827 | after k turns the index vector is the mixed-radix expansion of k |
| Odometer.Advance | runtime/src/array.rs:1820-1827 | the in-place loop performs one turn |
| Odometer.StepCounts | runtime/src/array.rs:1820-1827 | one turn adds one to the column-major number, and the last index wraps to zero |
| Odometer.LinearOfIndex | runtime/src/array.rs:1803-1827 | numbering and indexing are inverse on the whole box |
| Odometer.IndexOfLinear | runtime/src/array.rs:1803-1827 | the other direction |
| Odometer.ComputeOffset | runtime/src/array.rs:1809-1812 | the offset loop is the address map |
| StridedViews.IsStrided | runtime/src/array.rs:1789-1797 | the test fails exactly when every stride lies between zero and the contiguous step |
| StridedViews.FlatIsContiguous | runtime/src/array.rs:1741-1750 | in a view without repeated addresses that passes the test every dimension with more than one element has exactly its contiguous stride |
| StridedViews.FlatWalk | runtime/src/array.rs:1798-1801 | so element k of the walk is k elements after the first |
| StridedViews.FlatWalkExactly | runtime/src/array.rs:1798-1801 | a flat copy is the element walk if and only if the view is contiguous |
| StridedViews.FlatTestIsNotEnough | runtime/src/array.rs:1741-1750 | a view with repeated addresses that passes the test and is not contiguous |
| StridedViews.InjectiveCopyable | runtime/src/array.rs:1741-1750 | every view without repeated addresses is copied correctly |
| Payload.CopyToContiguous | runtime/src/array.rs:1782-1828 | packs the view's elements in column-major order, whichever path is taken, for every view that fails the flat test or is contiguous |
| Payload.FlatGathered | runtime/src/array.rs:1798-1801 | the block copy equals the packed element walk |
| Payload.GatheredAt | runtime/src/array.rs:1808-1827 | element k of the packed result is the view's element k |
| Allocatables.CheckedAllocationLayout | runtime/src/array.rs:967-1010 | succeeds exactly when rank, element size, extents, strides and byte count fit; then keeps bounds, gives contiguous strides and the exact byte count |
| Allocatables.AllocateArray | runtime/src/array.rs:1021-1078 | keeps the ownership discipline; status 2 exactly when already allocated, 4 exactly when the layout does not fit, 3 when memory runs out; a failure changes nothing; success adds one fresh zeroed block with the requested bounds, or none for zero bytes |
| Allocatables.DeallocateArray | runtime/src/array.rs:1527-1569 | frees exactly the variable's block; status 2 and no change when unallocated |
| Allocatables.MoveAlloc | runtime/src/array.rs:2188-2212 | the target takes over the source's block and shape, its own block is freed, the source is unallocated; moving to itself does nothing |
| Allocatables.AssignAllocatable | runtime/src/array.rs:1645-1766 | value semantics: the destination ends with the old elements of the source in column-major order, reallocated or not, also when the source is a section of the destination or the destination itself; no reallocation when shapes match, the source's bounds otherwise; other blocks untouched; fails only for want of memory for a positive byte count |
| Allocatables.AssignElements | runtime/src/array.rs:1678-1763 | whichever block the view lies in, the destination ends with its old elements |
| Allocatables.AssignFromSelf | runtime/src/array.rs:1678-1757 | the snapshot makes the copy independent of freeing and overwriting the destination's block |
| Allocatables.AssignFromOther | runtime/src/array.rs:1758-1762 | views of other blocks are copied after reallocation, which leaves those blocks alone |
| Allocatables.BaseTellsBlock | runtime/src/array.rs:1768-1780 | testing the base address alone tells whether the whole view lies in the destination's block |
| Allocatables.Reallocate | runtime/src/array.rs:1693-1731 | the old block is freed, the new one is fresh and exactly large enough, others untouched |
| Allocatables.NoLeakNoSharing | runtime/src/array.rs:1527-1569 | under the discipline every live block has an owner and no two variables share one |
| DeferredStrings.AllocateString | runtime/src/string.rs:63-121 | blanks of the requested length in one fresh block, or none for length zero; status 2 exactly when allocated; a failure changes nothing |
| DeferredStrings.AssignDeferred | runtime/src/string.rs:128-191 | the variable holds the source's old characters even when they are part of its own buffer; reallocates only to grow |
| DeferredStrings.Regrow | runtime/src/string.rs:150-178 | allocating before freeing keeps both ownership and the source's characters |
| DeferredStrings.DeallocString | runtime/src/string.rs:195-211 | frees exactly the buffer and keeps the deferred flag |
| DeferredStrings.DeallocStringChecked | runtime/src/string.rs:220-251 | the same with status 2 and no change when unallocated |
| DeferredStrings.MoveAllocString | runtime/src/string.rs:294-316 | hands over the buffer, frees the target's, empties the source |
| AllocatablePrograms.Step | runtime/src/array.rs:1645-1766 | every operation on any variables keeps the discipline; only assignments can end the program |
| AllocatablePrograms.Run | runtime/src/array.rs:1021-1078 | every finite run from nothing allocated, arrays and strings mixed, keeps the discipline: no leak, no double free, no sharing |
| AllocatablePrograms.AssignWholeStep | runtime/src/array.rs:1645-1766 | after assigning a whole variable, possibly to itself, the destination's block is a copy of the source's old one |
| AllocatablePrograms.AssignSectionStep | runtime/src/array.rs:1645-1766 | after assigning a section, possibly of the destination itself, element k of the destination is the old source element start + i*stride in every kept dimension |
| AllocatablePrograms.SectionAbsentExactly | runtime/src/array.rs:1660-1671 | a section of an allocated variable counts as unallocated if and only if its elements have length zero |
| AllocatablePrograms.SelfVanishesExactly | runtime/src/array.rs:1573-1595 | assigning an allocated variable to itself deallocates it if and only if its elements have length zero |
| AllocatablePrograms.SelfAssignOfNothing | runtime/src/array.rs:1656-1671 | allocated with elements of length zero and assigned to itself, a variable comes out unallocated |
| AllocatablePrograms.SectionAssignOfNothing | runtime/src/array.rs:1660-1671 | a section with elements of length zero deallocates its destination |
| AllocatablePrograms.SectionReadable | runtime/src/array.rs:2297-2373 | every section of an allocated variable whose used subscripts are in bounds is a view of its block that is copied correctly |
| AllocatablePrograms.VariableReadable | runtime/src/array.rs:1645-1660 | so is every variable itself |
| Sections.CreateSection | runtime/src/array.rs:2297-2373 | the descriptor of the section: shifted base, kept dimensions, contiguity flag; source dimensions without a specification are dropped |
| Sections.FlaggedContiguous | runtime/src/array.rs:2367-2372 | a nonempty section without repeated addresses that is flagged contiguous is contiguous |
| Sections.SectionAddress | runtime/src/array.rs:2316-2356 | element i of a section has the address of source element start + i*stride in every kept dimension |
| Sections.ExtentCounts | runtime/src/array.rs:2339-2348 | the extent counts exactly the subscripts from start to end |
| Sections.SourceIndexInBox | runtime/src/array.rs:2331-2356 | a section whose first and last used subscripts are in bounds refers only to elements of the source, wherever its end lies |
| Sections.EndMayOvershoot | runtime/src/array.rs:2339-2348 | 1:11:3 of ten elements is such a section |
| Sections.SectionInjective | runtime/src/array.rs:2316-2337 | sections of views without repeated addresses have none |
| Sections.SectionsCompose | runtime/src/array.rs:2297-2373 | a section of a section is one section, with the same base and dimensions |
| Spans.WithinReach | runtime/src/array.rs:2234-2247 | every element lies between the sums of the downward and upward reaches |
| Spans.Corners | runtime/src/array.rs:2234-2247 | both ends are elements |
| Overlap.DescriptorByteSpan | runtime/src/array.rs:2225-2256 | nothing for views without storage or elements; for views in the address space exactly the first and last byte, no operation saturating |
| Overlap.NoSaturation | runtime/src/array.rs:2241-2254 | every intermediate value of an addressable view fits 128 bits |
| Overlap.Limits | runtime/src/array.rs:2234-2254 | the address space has 2^64 bytes and saturation is at the signed 128-bit range |
| Overlap.DescriptorsOverlap | runtime/src/array.rs:2265-2279 | true if and only if the byte hulls of the two views meet; in particular whenever they share a byte |
| Reshape.Reshape | runtime/src/array.rs:9020-9185 | every result slot holds the element it asks for out of the source followed by copies of PAD, or the first source element when there is no PAD, of the arguments as they lie in storage, and of the arguments themselves when these are contiguous; nothing for ranks 0 and above 15; invalid ORDER means none |
| Reshape.ReadsRightExactly | runtime/src/array.rs:9135-9184 | the runtime reads an argument's own elements, whatever memory holds, if and only if the argument is contiguous or empty |
| Reshape.StridedSourceMisread | runtime/src/array.rs:9165-9177 | a stride-two source whose second element is misread |
| Reshape.Fill | runtime/src/array.rs:9142-9185 | the loop writes every slot exactly once |
| Reshape.SupplyIs | runtime/src/array.rs:9165-9177 | element k of the supply is element k of the source followed by n copies of PAD, for every n large enough |
| Repetition.CopiesAt | runtime/src/array.rs:9168-9169 | element k of the copies is PAD's element at the remainder |
| Reshape.ReadOrder | runtime/src/array.rs:9088-9125 | a permutation of the dimensions: ORDER's when its first entries are one, the identity otherwise |
| Reshape.OriginOfTarget | runtime/src/array.rs:9142-9164 | source position to result slot is injective into the result, with an explicit inverse |
| Reshape.TargetOfOrigin | runtime/src/array.rs:9142-9164 | and onto |
| Reshape.TotalPermuted | runtime/src/array.rs:9146-9152 | permuting the extents keeps the element count |
| Reshape.IdentityOrder | runtime/src/array.rs:9088-9093 | without ORDER elements keep their places |
| Reductions.ReduceAlongDim | runtime/src/array.rs:5092-5150 | leaves in every slot the left-to-right fold, for any accumulation, of the elements along the reduced dimension, and nothing else changed; nothing for a missing dimension |
| Reductions.WalkFolds | runtime/src/array.rs:5129-5149 | a column-major walk of the whole array folds each element into exactly one slot, in row order |
| Reductions.ElementOfSlot | runtime/src/array.rs:5130-5140 | the slot is inside the result, and slot and row give back the element |
| Reductions.SlotOfElement | runtime/src/array.rs:5130-5140 | every slot and row name one element |
| Reductions.RowsInOrder | runtime/src/array.rs:5142-5148 | the walk meets the elements of a slot in increasing row order |
| Reductions.ClampExactly | runtime/src/array.rs:5115-5115 | the clamped strides read the right elements if and only if every dimension with more than one element has a positive stride |
| Reductions.ReversedViewMisread | runtime/src/array.rs:5115-5115 | a reversed view that is misread |
| Reductions.SumInt | runtime/src/array.rs:6721-6771 | for any strides a value in the signed 64-bit range that agrees with the sum of all elements modulo 2^64, and is that sum when it is in range; zero for null, empty and rank-0 arrays; element sizes below one count as one |
| Reductions.SumIntDim | runtime/src/array.rs:5762-5866 | every slot is the sum of its row as a signed integer of 8, 16, 32 or 64 bits: in range, congruent modulo the power of two, exact when the sum is in range; a larger result is zero beyond |
| Reductions.DimTotalsAgree | runtime/src/array.rs:5762-5866 | the total of SUM(a, DIM) is congruent to SUM(a) modulo 2^(8s) for elements of s bytes |
| Reductions.DimSumsConserve | runtime/src/array.rs:5762-5866 | the slots' total is congruent to the elements' total |
| SumSquares.SumSquaresDim | runtime/src/array.rs:9198-9332 | every slot is the fold of its row over the view's own elements, signed strides included, whichever loop is taken; a larger result is zero beyond |
| SumSquares.ColumnLoop | runtime/src/array.rs:9276-9291 | the rank-2 column loop computes those folds |
| SumSquares.GenericWalk | runtime/src/array.rs:9334-9376 | so does the generic walk |
| SumSquares.RowFoldsUnique | runtime/src/array.rs:9276-9297 | hence both leave the same result for any, also non-associative, addition |
| RandomFill.Fill | runtime/src/system.rs:848-959 | succeeds exactly on acceptable descriptors; an error leaves memory and generator untouched; otherwise elements receive successive draws in column-major order, and the byte cursor visits every element, each of its values being the offset of an element within the signed 64-bit range |
| RandomFill.FilledElement | runtime/src/system.rs:932-957 | in a view without repeated addresses element k ends up with draw k |
| RandomFill.FilledElsewhere | runtime/src/system.rs:932-957 | nothing but elements is written |
| RandomFill.Turn | runtime/src/system.rs:948-956 | through every carry and rewind the cursor is the offset of the current index vector, which is in the box |
| RandomFill.Measure | runtime/src/system.rs:862-897 | accepts exactly the extents, counts, strides and spans that pass every check, and measures them |
| RandomFill.CheckedRanges | runtime/src/system.rs:876-912 | the checked ranges are those of signed 64-bit, signed 128-bit and unsigned 64-bit integers |
| RandomFill.ByteSteps | runtime/src/system.rs:914-930 | strides and rewinds in bytes, zero for single-element dimensions |
| RandomFill.AllStepsFit | runtime/src/system.rs:914-930 | after the range check these cannot overflow |
| RandomFill.CursorInRange | runtime/src/system.rs:906-912 | every element offset lies in the validated range |
| RandomFill.UnitInterval | runtime/src/system.rs:752-758 | draws become values in [0, 1) |
| RandomFill.TopBits | runtime/src/system.rs:752-758 | the value times 2^24 or 2^53 is the integer in the draw's top 24 or 53 bits |
| RandomFill.LcgSteps | runtime/src/system.rs:743-747 | from the increment on, each next state adds the multiplier modulo 2^64 |
| RandomFill.LcgInjective | runtime/src/system.rs:743-747 | different states have different successors |
| FormatControl.FormatValues | runtime/src/format.rs:910-941 | whenever the engine comes back: success exactly when every value fits its descriptor and none is left over, value k edited by descriptor k; type mismatch exactly when one of the values met does not fit, also before a loop |
| FormatControl.ApplyDescriptors | runtime/src/format.rs:943-1031 | one pass edits the next values with the descriptors one scan meets, or reports a misfit; only scans that loop after fitting values are excluded |
| FormatControl.ApplyUnlimited | runtime/src/format.rs:1012-1016 | the same for unlimited groups |
| FormatControl.ReversionPoint | runtime/src/format.rs:1999-2013 | control reverts to the last top-level unlimited or marked group |
| FormatControl.ReversionWhole | runtime/src/format.rs:1999-2013 | without such a group, to the start of the format |
| FormatControl.OneTypeEach | runtime/src/format.rs:1033-1101 | G edits values of every type, every other data descriptor those of its own |
| FormatPlanner.PlanItems | runtime/src/format.rs:1970-1997 | computes the plan for any format and item count |
| FormatPlanner.AppendDataDescriptors | runtime/src/format.rs:1908-1964 | appends what one planning pass meets, up to the limit, and fails exactly on a barren unlimited group |
| FormatPlanner.PlannerMatchesEngine | runtime/src/format.rs:1966-1997 | for every format and item count whose control ends, the plan lists the descriptors control meets, and the planner rejects exactly what the engine rejects |
| FormatPlanner.ProductiveFlow | runtime/src/format.rs:910-941 | if every unlimited group has a data descriptor the engine always comes back, and is invalid exactly without data descriptors where they are needed |
| FormatPlanner.PlanPrefix | runtime/src/format.rs:1970-1997 | the plan for fewer items is a prefix of the plan for more |
| FormatPlanner.GroupUnrolls | runtime/src/format.rs:1003-1011 | a repeated group is the group written out that many times |
| FormatEngine.RunIsScan | runtime/src/format.rs:943-1031 | turn by turn, with any number of turns allowed, a run of a list is as its scan predicts or unfinished; as many turns as values decide |
| FormatEngine.RunPredicted | runtime/src/format.rs:910-941 | the same for whole formats with reversion |
| FormatEngine.ComesBackExactly | runtime/src/format.rs:910-1031 | some number of turns is enough if and only if control ends or a value before the loop misfits |
| FormatTermination.LoopsExactly | runtime/src/format.rs:1012-1016 | the engine comes back on a format and values unless the format has data, runs into a barren loop, there are more values than items before it, and those fit; and only then |
| FormatTermination.TrailingLoopDiverges | runtime/src/format.rs:1012-1016 | (Iw, *('x')) with two integers: no number of turns is enough, and the planner reports an invalid format |
| FormatTermination.HiddenLoopDiverges | runtime/src/format.rs:1012-1016 | ((*('x')), Iw) with one integer: no number of turns is enough, and the planner succeeds |
| FormatTermination.MisfitComesFirst | runtime/src/format.rs:980-988 | a first value that does not fit, or a DT descriptor, ends the run before the loop |
| FormatTermination.DivergesExactly | runtime/src/format.rs:1012-1016 | control for fitting values never ends if and only if the format has data, its fate is to loop, and there are more values than items before the loop; those items are its lead |
| FormatTermination.AgreementExactly | runtime/src/format.rs:1966-1997 | in all other cases the engine comes back, writes values that fit the plan with exactly the planned descriptors and reports a misfit otherwise; if the values control meets all fit, the planner reports an invalid format exactly when the engine does |
| FormatTermination.ProductiveAgreement | runtime/src/format.rs:1966-1997 | the same for every format whose unlimited groups all hold a data descriptor, on any values |
| FormatTermination.ScanFate | runtime/src/format.rs:943-1031 | every list passes after a fixed list of items, absorbs all by going round a fixed list, or loops after a fixed list |
| FormatTermination.FlowExactly | runtime/src/format.rs:910-941 | which descriptors any number of values meet, in closed form: the format's lead, then round and round the part reverted to or the unlimited group; and when the format is invalid or loops |
| FormatTermination.RevertedItem | runtime/src/format.rs:926-939 | item k beyond the lead of a passing format is the descriptor of the part reverted to whose turn it is |
| FormatTermination.GroupIsReverted | runtime/src/format.rs:1999-2013 | (Iw, (Fw.d)) edits a third value with the group's descriptor |
| SourceView.ToSourceView | src/source_bytes.rs:9-41 | decoding the view gives back the bytes, for any legal way of reporting invalid UTF-8; valid text is only escaped |
| SourceView.EscapeUtf8 | src/source_bytes.rs:43-47 | decoding the escaped text gives back its UTF-8 bytes; only escape characters are spelled differently |
| SourceView.FromSourceView | src/source_bytes.rs:49-72 | the loop computes the decoding of every view, canonical or not |
| SourceView.Utf8Payload | src/source_bytes.rs:216-219 | a scalar's bytes are well-formed UTF-8 (section 4 of RFC 3629), and their payload bits are the scalar |
| SourceView.PayloadUtf8 | src/source_bytes.rs:216-219 | every well-formed sequence is the encoding of its payload |
| SourceView.EncodeInjective | src/source_bytes.rs:43-47 | different texts have different bytes |
| SourceView.EscapesMean | src/source_bytes.rs:5-7 | U+F0000 before U+F0100 + b stands for byte b, before itself for the four bytes of U+F0000 |
| SourceView.DecodeSpell | src/source_bytes.rs:49-72 | decoding inverts the spelling of any sequence of escape units |
| SourceView.SourceByteOffset | src/source_bytes.rs:78-116 | the loop computes the offset map, clipped at the view's length |
| SourceView.SourceLength | src/source_bytes.rs:74-76 | the length of any view is its decoded length |
| SourceView.OffsetCountsDecoded | src/source_bytes.rs:78-116 | up to any character after which a unit has ended, the offset is the number of bytes decoded so far |
| SourceView.SourceOffsetMonotone | src/source_bytes.rs:78-116 | offsets never decrease |
| SourceView.Resynchronizes | src/source_bytes.rs:121-130 | after any character but the escape, counting can restart |
| SourceView.SourceByteRangeLen | src/source_bytes.rs:118-135 | from a character boundary the local count equals the difference of two whole-view offsets |
| Tokenize.Split | runtime/src/string.rs:723-792 | fails exactly on positions out of range; otherwise the first separator after, or the last before, the position |
| Tokenize.TokenizeBounds | runtime/src/tokenize.rs:12-32 | the list of tokens |
| Tokenize.SplitForward | runtime/src/string.rs:714-792 | iterating SPLIT from 0 ends and yields the same tokens |
| Tokenize.SplitBackward | runtime/src/string.rs:719-792 | iterating it backward from LEN+1 ends and yields them in reverse |
| Tokenize.NextThenPrevious | runtime/src/string.rs:714-721 | a step backward undoes a step forward |
| Tokenize.TokensAre | runtime/src/tokenize.rs:6-11 | tokens are bounded by separators or ends and contain none |
| Tokenize.TokensRebuild | runtime/src/tokenize.rs:6-11 | tokens with the separators between them rebuild the string |
| Tokenize.TokenCount | runtime/src/tokenize.rs:8-11 | there is one token more than separators |

## Left out

- ParseReal: the host's nearest-even parser, and its reading of special spellings (infinities, NaNs), are parameters, the first with its contract.
- Adjust: formats are limited to 60 fraction bits and a bias of at most 20000, which covers both formats of the source.
- FormatValues: requires that the engine comes back, which LoopsExactly characterises; emitted text, tabs, sign, scale and rounding modes are not modelled, only which descriptor meets which value.
- The FORMAT text parser.
- AssignAllocatable: supposes equal element sizes when shapes match, which semantic checks provide, and a source that the flat test does not mistake (every view without repeated addresses); type tags and the dynamic-type pointer are not modelled, byte counts do not wrap.
- CreateSection: supposes no more specifications than source dimensions, and offsets do not wrap.
- Reshape: supposes a source or PAD element wherever the result has elements, and non-null arguments; memory is a function from element offsets to values.
- SumIntDim: supposes a result at least as large as the reduced shape; its allocation is AllocateArray.
- SumSquaresDim: supposes the same of its result.
- DescriptorsOverlap: supposes extents that the runtime's 64-bit arithmetic can compute.
- Fill: memory is a map from element addresses to values in [0, 1), not bytes; addresses do not wrap around.
- SourceByteRangeLen: supposes a character boundary at the start, as slicing in the source does.
- Null descriptors and null status pointers; without STAT an error ends the program.
- C_F_STRPOINTER associations, which are outside the allocatable discipline.
- Display columns and replacement characters of the source view.
- Masked, MAXVAL, MINVAL, complex and real reductions, SIMD and elementwise kernels: further instances of the same walks.
- Floating-point output editing, the floating-point environment, mathematical functions and formatted input beyond real fields.
- The compiler itself, I/O units, clocks, seeding, arguments and processes.
