# Verified models of the runtime's hard core

A Dafny 4.11 project that models six components of the Python runtime and proves what each is for.

- **Big integers** (`Digits`, `BigInt*`, `Bits`, `Congruence`, `IntValues`, `DecimalText`): sign-magnitude numbers in
  base 2^32. The specification is integer arithmetic: every kernel is tied to the number its digits denote. The main
  results are Knuth's trial digit, exact long division and its floor form, modular inverse and power, two's-complement
  bit operations on sign-magnitude digits, correct rounding to double, and decimal text in both directions.
- **Dictionary** (`DictTable`, `DictContents`, `DictState`, `DictSearch`, `DictMask`, `Dictionary`, `DictRuns`, `DictIteration`,
  `OrderedMap`):
  the open-addressing table over an append-only entry array refines an insertion-ordered map, every probe terminates,
  and with an equality callback that re-enters the dictionary completed probes are still right.
- **Control-flow graph** (`Bytecode`, `Cfg`, `CfgPrune`): blocks and edges against the step relation of the machine,
  and pruning as an order-preserving renumbering.
- **Builtins lookup cache** (`ModuleCache`): coherence of validity cells over every run.
- **UTF-8** (`Utf8`): grammar, counts and both round trips, with 2-byte and 4-byte code units.
- **Shell patterns** (`Fnmatch`): the backtracking matcher against a declarative relation, and escaping.

`dafny verify dfyconfig.toml` checks the whole project.

## How the model reads the code

- A const view is a snapshot `Num(signum, digits)`; a mutable view is an object with a digit array and a capacity. The
  code's assertions on normalization, capacity and distinct buffers are `requires` clauses. An intermediate of type
  `DoubleDigit` is a proof that 64 bits do not wrap.
- The reentrant equality callback may leave any state that satisfies `Rely` and answer anything or raise. `Rely` is also
  what every operation of the dictionary guarantees, so the callback may be any run of operations. A ghost log of its
  answers says what "was just judged equal" means. The relation of the dictionary is then used only to compare strings.
- A lookup handed out by the module cache is recorded as a `Grant` with the version of the builtins namespace; a version
  counts the invalidations of a module.
- A code object is bytes, 256 opcode rows (length, control-flow class, displacement position) and handler offsets.
- The code asserts that the first block has no predecessors after pruning. For code that jumps back to offset 0 this
  does not hold: `CfgPrune.EntryHasNoPredecessor` gives the exact condition and `CfgPrune.BackJumpHasPredecessor` an input.

## Model

| member | source | states |
|---|---|---|
| `BigIntViews.NormalizeView` | src/builtin_types/bigint.cpp:176-189 | Leading zero digits go, the magnitude stays, the sign becomes 0 exactly for zero. |
| `BigIntViews.NormalizedUnique` | src/builtin_types/bigint.cpp:163-174 | Normal form is canonical: two normalized views of one integer are equal digit for digit. |
| `BigIntViews.CompareAbs` | src/builtin_types/bigint.cpp:1731-1749 | The three-way result is the order of the magnitudes. |
| `BigIntViews.Compare` | src/builtin_types/bigint.cpp:1751-1766 | The three-way result is the order of the signed integers; 0 only for identical views. |
| `IntValues.Finalize` | src/builtin_types/bigint.cpp:215-248 | The finished value denotes the view, and is a small integer exactly when it lies in the small range, including the asymmetric minimum. |
| `IntValues.CanonicalUnique` | src/builtin_types/bigint.cpp:316-331 | Finished integers are equal as objects exactly when equal as numbers. |
| `IntValues.SmallRange` | src/object_model/value.h:67-70 | The small range is that of 59-bit two's complement, one more below zero than above. |
| `BigIntAddMul.AbsAddInto` | src/builtin_types/bigint.cpp:550-580 | Carry loop: the magnitude written is the sum; the result is normalized; the required capacity is enough. |
| `BigIntAddMul.AbsSubInto` | src/builtin_types/bigint.cpp:582-619 | Borrow loop: the magnitude written is the difference, normalized. |
| `BigIntAddMul.AddInto` | src/builtin_types/bigint.cpp:621-665 | Signed sum for all sign combinations, normalized, in the capacity that the path taken needs. |
| `BigIntAddMul.SubInto` | src/builtin_types/bigint.cpp:667-674 | Signed difference, normalized, in the same capacity. |
| `BigIntAddMul.MulInto` | src/builtin_types/bigint.cpp:676-715 | Schoolbook product: signed product, normalized, in the stated capacity, and no 64-bit intermediate wraps. |
| `BigIntAddMul.AbsMulDigitInto` | src/builtin_types/bigint.cpp:882-913 | Product with one digit, normalized. |
| `BigIntAddMul.AbsSubAliasLeft` | src/builtin_types/bigint.cpp:915-949 | In-place subtraction inside a window: the window drops by the subtrahend, its normalized length and sign are returned, everything around it is untouched. |
| `BigIntAddMul.AbsMulAddU32` | src/builtin_types/bigint.cpp:1703-1729 | Multiply-add by a word: exact value, at most one more digit, normalized. |
| `BigIntShift.ShiftLeftInto` | src/builtin_types/bigint.cpp:951-997 | The view times 2^shift, normalized; length grows by the word shift and at most one digit. |
| `BigIntShift.ShiftRightAbsInto` | src/builtin_types/bigint.cpp:999-1047 | The magnitude divided by 2^shift rounding down, normalized. |
| `Bits.OrDisjoint` | src/builtin_types/bigint.cpp:951-1047 | Or-ing shifted words with carries is addition, because the bits are disjoint. |
| `BigIntTrial.TrialDigit` | src/builtin_types/bigint.cpp:1105-1123 | The corrected trial digit is the true quotient digit or one more, and below 2^32, although it can start at 2^32 + 1 and the guard tests only equality with 2^32; no product wraps 64 bits. |
| `BigIntTrial.CorrectedDigit` | src/builtin_types/bigint.cpp:1111-1123 | The correction loop never goes below the true digit and stops with the two-digit test satisfied or the remainder past a digit. |
| `BigIntDiv.SegmentTrialDigit` | src/builtin_types/bigint.cpp:1098-1123 | The same for the digits of an array segment, one-digit divisors included. |
| `BigIntDiv.FixUp` | src/builtin_types/bigint.cpp:1132-1140 | The fix-up loop ends at the true digit after at most one correction. |
| `BigIntDiv.DivideSegment` | src/builtin_types/bigint.cpp:1105-1144 | One round of long division in place: segment = q * divisor + what is left, which is below the divisor; other digits are untouched. |
| `BigIntDiv.DivmodNormalizedInto` | src/builtin_types/bigint.cpp:1084-1163 | Long division by a divisor with its top bit set is exact, remainder below the divisor, both normalized. |
| `BigIntDiv.QuotientFits` | src/builtin_types/bigint.cpp:1096-1103 | The quotient has as many digits as the long division writes exactly when the leading digits of the dividend are below the divisor. |
| `BigIntDiv.DivmodAbsByU32` | src/builtin_types/bigint.cpp:1768-1794 | Division by a word is exact, remainder below the divisor, quotient normalized. |
| `BigIntDiv.ShiftedDivisor` | src/builtin_types/bigint.cpp:1204-1220 | Shifting by the leading zeros keeps the divisor's length and sets its top bit. |
| `BigIntDiv.UnshiftRemainder` | src/builtin_types/bigint.cpp:1204-1231 | Un-shifting the remainder gives the remainder of the unshifted division, with the same quotient. |
| `BigIntDiv.AbsDivmodInto` | src/builtin_types/bigint.cpp:1165-1232 | For every dividend and nonzero divisor: dividend = q * divisor + r, 0 <= r < divisor, both normalized, in the asserted capacities. |
| `BigIntFloor.FloorDivmodViews` | src/builtin_types/bigint.cpp:1240-1283 | Floor quotient and remainder for all sign combinations, normalized, in the capacities each path needs; those for the adjustment only when the signs differ and the division is not exact. |
| `BigIntFloor.FloorUnique` | src/builtin_types/bigint.cpp:1240-1283 | The floor conditions have exactly one solution, so the results are the quotient and remainder of floor division. |
| `BigIntModular.FloorModInto` | src/builtin_types/bigint.cpp:1361-1379 | The result is the floor remainder and fits the modulus' length. |
| `BigIntModular.EuclidRound` | src/builtin_types/bigint.cpp:1404-1418 | One round keeps t * base congruent to r for both pairs and keeps the common divisors. |
| `BigIntModular.EuclidDone` | src/builtin_types/bigint.cpp:1420-1428 | The last nonzero remainder is 1 exactly for a coprime base, and then its coefficient is an inverse. |
| `BigIntModular.ModularInverse` | src/builtin_types/bigint.cpp:1381-1429 | The loop ends; the result is nonzero exactly when gcd(base, modulo) = 1, equally exactly when any inverse exists, and then has the modulo's sign and base * x is congruent to 1. |
| `BigIntModular.NoInverse` | src/builtin_types/bigint.cpp:1420-1424 | A base that is not coprime to the modulus has no inverse at all. |
| `Congruence.InverseImpliesCoprime` | src/builtin_types/bigint.cpp:1420-1424 | An integer with an inverse modulo m is coprime to m. |
| `BigIntModular.InverseUnique` | src/builtin_types/bigint.cpp:1426-1428 | A reduced residue that inverts a number is the only one, so the result of a negative power is determined. |
| `BigIntModular.PowerLoop` | src/builtin_types/bigint.cpp:1532-1550 | Square-and-multiply over the exponent's bits gives the power modulo the modulus as a reduced residue. |
| `BigIntModular.ScratchCapacities` | src/builtin_types/bigint.cpp:1452-1467 | The precomputed capacities satisfy every callee's capacity demand; overflow is reported exactly when a size would wrap. |
| `BigIntModular.ModularPow` | src/builtin_types/bigint.cpp:1431-1553 | Succeeds exactly when modulo is nonzero and, unless it is 1 or -1, the sizes fit and the base is coprime to it if the exponent is negative; the result is base^exponent floor-mod modulo, or the reduced inverse of base^|exponent|; the exact conditions of each error. |
| `BigIntBitwise.ComplementInto` | src/builtin_types/bigint.cpp:717-728 | Flip-and-increment writes 2^(32n) minus the magnitude. |
| `BigIntBitwise.CombineDigits` | src/builtin_types/bigint.cpp:784-868 | Every bit of every digit is the operation on the bits, the shorter operand read as its sign fill. |
| `BigIntBitwise.Bitwise` | src/builtin_types/bigint.cpp:730-868 | Bit i of the result is the operation on bit i of the infinite two's-complement operands, for every i; the result is canonical. |
| `BigIntBitwise.BitsDetermine` | src/builtin_types/bigint.cpp:784-868 | The bits determine the integer, so the bitwise result is the only one. |
| `BigIntBitwise.AndWithOnes` | src/builtin_types/bigint.cpp:730-746 | And with k ones is the remainder modulo 2^k, for every integer, and nothing else is. |
| `BigIntBitwise.XorIsOrMinusAnd` | src/builtin_types/bigint.cpp:748-782 | The exclusive or of two integers is their or less their and. |
| `BigIntBits.AbsBitLength` | src/builtin_types/bigint.cpp:399-409 | 2^(n-1) <= magnitude < 2^n. |
| `BigIntBits.AbsBit` | src/builtin_types/bigint.cpp:411-420 | Bit i of the magnitude. |
| `BigIntDouble.AbsTopBits` | src/builtin_types/bigint.cpp:443-460 | The top bits are the magnitude shifted down. |
| `BigIntDouble.AbsAnyBitsBelow` | src/builtin_types/bigint.cpp:422-441 | True exactly when the low part is nonzero. |
| `BigIntDouble.RoundedIsNearest` | src/builtin_types/bigint.cpp:489-503 | Rounding half to even is at least as near as any value of the same precision at any exponent, and even on ties, for every precision. |
| `BigIntDouble.OverflowAt` | src/builtin_types/bigint.cpp:495-510 | The rounded length exceeds E exactly from 2^E minus half a unit in the last place on, carry-out included; for doubles from 2^1024 - 2^970. |
| `BigIntDouble.OverflowThresholdIs` | src/builtin_types/bigint.cpp:470-471 | The overflow threshold of doubles is 2^1024 - 2^970. |
| `BigIntDouble.LengthDecides` | src/builtin_types/bigint.cpp:506-514 | A t-bit significand at length l is below 2^E exactly when l is at most E, so the length test is a test of the rounded value. |
| `BigIntDouble.ToDouble` | src/builtin_types/bigint.cpp:462-520 | Nearest 53-bit value, ties to even (section 4.3.1 of IEEE 754-2008), with the sign and below 2^1024; overflow exactly from 2^1024 - 2^970 on, where the nearest value reaches 2^1024. |
| `DecimalText.ToChunks` | src/builtin_types/bigint.cpp:1807-1823 | The chunks are the base-10^9 digits of the magnitude; the scratch capacities suffice and the loop ends. |
| `DecimalText.ChunkPrinted` | src/builtin_types/bigint.cpp:1834-1840 | Appending a chunk padded to nine digits turns the numeral of v into the numeral of v * 10^9 + chunk. |
| `DecimalText.ToDecimalString` | src/builtin_types/bigint.cpp:1796-1842 | The text is the decimal numeral of the integer, with a sign and without leading zeros. |
| `DecimalText.NumeralIsCanonical` | src/builtin_types/bigint.cpp:1833-1840 | A numeral is digits only, reads as its number, and has no leading zero. |
| `DecimalText.NumeralIsOnly` | src/builtin_types/bigint.cpp:1833-1840 | Every text of digits without a leading zero is the numeral of the number it reads as. |
| `DecimalText.ScanWord` | src/builtin_types/int.cpp:151-175 | The 64-bit loop never wraps; it gives up exactly at an underscore or past the limit, and otherwise decides the literal and its value. |
| `DecimalText.ParseFast` | src/builtin_types/int.cpp:133-186 | Every answer, value or error, is what the text denotes; no answer exactly when it meets an underscore or a number past the limit. |
| `DecimalText.ScanLiteral` | src/builtin_types/int.cpp:203-241 | The big-integer loop accepts exactly digits with single inner underscores, accumulates their value, and its scratch capacity suffices. |
| `DecimalText.ParseSlow` | src/builtin_types/int.cpp:188-257 | The canonical integer the text denotes, or the error exactly for a text that is no literal. |
| `DecimalText.FastAgreesWithSlow` | src/builtin_types/int.cpp:133-257 | Whenever the fast parser answers, the slow parser gives the identical answer. |
| `DecimalText.ParseView` | src/builtin_types/int.cpp:259-288 | The result is what the trimmed text denotes. |
| `DecimalText.TrimsOne` | src/builtin_types/int.cpp:262-273 | Trimming white space has one result. |
| `DecimalText.SignsDenote` | src/builtin_types/int.cpp:141-147 | A literal denotes its number, also after a plus sign, and the negative number after a minus sign. |
| `DecimalText.OthersAreErrors` | src/builtin_types/int.cpp:188-241 | Every text of another form is an error. |
| `DecimalText.DigitAlphabet` | src/builtin_types/int.cpp:131-131 | The digits are the ten ASCII digits with their usual values. |
| `DecimalText.PrintedReadsBack` | src/builtin_types/bigint.cpp:1796-1842 | Reading the printed form of any integer gives that integer. |
| `DecimalText.PrintThenParse` | src/builtin_types/int.cpp:259-288 | Printing an integer and parsing the text gives that integer, as a finished value. |
| `DictTable.WriteKeepsLinked` | src/builtin_types/dict.h:213-220 | A new entry in a free slot reachable from its home keeps the slot/entry bijection, reachability and counts. |
| `DictTable.DeleteKeepsLinked` | src/builtin_types/dict.h:237-245 | A tombstone breaks no other entry's chain. |
| `DictTable.EmptySlotExists` | src/builtin_types/dict.h:253-257 | A table with fewer used slots than slots has an empty one. |
| `DictTable.RecordOn` | src/builtin_types/dict.h:185-194 | A probe step keeps the record of the first tombstone met. |
| `DictMask.HomeIsMask` | src/builtin_types/dict.h:174-180 | The home slot is the hash bitwise-anded with the table size less one. |
| `DictMask.NextIsMask` | src/builtin_types/dict.h:181-184 | The next slot is the slot plus one, anded with the table size less one. |
| `DictState.SearchOn` | src/builtin_types/dict.cpp:1924-1948 | A probe step keeps the search invariant and comes one closer to the empty slot, which is the termination measure. |
| `DictState.SearchMissed` | src/builtin_types/dict.cpp:1927-1932 | Reaching an empty slot proves that no equal key is in the table. |
| `DictState.RelyTrans` | src/builtin_types/dict.cpp:1581-1733 | What operations may do to the state composes over any number of operations. |
| `DictSearch.WalkSurvives` | src/builtin_types/dict.cpp:1612-1623 | What a probe has dismissed stays dismissed across a callback that leaves the generation alone, because live entries keep their slots. |
| `DictSearch.WalkDone` | src/builtin_types/dict.cpp:1592-1595 | At an empty slot, every entry there since the walk began and still live, under the sought hash, has been shown to equality and judged different. |
| `DictSearch.FoundNone` | src/builtin_types/dict.cpp:1585-1633 | In an unchanged generation the same holds of every entry that was there when the search began. |
| `DictState.GrownIsGood` | src/builtin_types/dict.cpp:2024-2060 | Growing keeps the full invariant. |
| `Dictionary.Dict.constructor` | src/builtin_types/dict.cpp:41-45 | A new dictionary is empty and meets the invariant. |
| `Dictionary.Dict.Copy` | src/builtin_types/dict.cpp:47-63 | A copy of any structurally sound dictionary has the same pairs in the same order and the same shape; a copy of a valid one is valid. |
| `Dictionary.Dict.WriteNewAtSlot` | src/builtin_types/dict.h:213-220 | Appends the entry, keeps the structure, uses at most one more slot. |
| `Dictionary.Dict.WriteExisting` | src/builtin_types/dict.h:221-225 | Only that entry's value changes. |
| `Dictionary.Dict.DeleteEntryAtSlot` | src/builtin_types/dict.h:237-245 | The entry dies, its slot stops no probe, the structure holds. |
| `Dictionary.Dict.CopyStoredEntry` | src/builtin_types/dict.h:226-236 | Appends any pair without consulting equality and keeps structure and load; an absent key keeps the full invariant. |
| `Dictionary.Dict.ResizeIfNeeded` | src/builtin_types/dict.h:246-257 | Keeps the map and leaves at most three quarters of the table filled. |
| `Dictionary.Dict.Examine` | src/builtin_types/dict.cpp:1603-1623 | After the callback the verdict is given only if the slot still names the same live entry in the same generation. |
| `Dictionary.Dict.InsertStep` | src/builtin_types/dict.cpp:1589-1632 | A step ends legally, restarts the walk from home, or moves on with slot and recorded tombstone still reachable and everything passed dismissed; at a free slot the whole chain was walked. |
| `Dictionary.Dict.InsertProbe` | src/builtin_types/dict.cpp:1581-1633 | Whatever the callbacks do, a completed probe ends at a live slot whose key is the sought object or was just judged equal, or at a free slot with no empty slot between it and home, after judging different every entry of that hash that was there when the last walk began and still lives; with quiet equality it always completes, at the first free slot if the key is absent. |
| `Dictionary.Dict.LookupProbe` | src/builtin_types/dict.cpp:1635-1733 | A completed hit is live in the current table and its key is the sought object or was just judged equal; a completed miss has judged different every entry of that hash that was there when the last walk began and still lives; quiet equality always completes. |
| `Dictionary.Dict.FindSlotForGeneralInsert` | src/builtin_types/dict.cpp:1581-1633 | With quiet equality: a used slot holds the only equal key, a free slot is the first free one and means the key is absent; with reentrant equality a free slot means every entry was dismissed. |
| `Dictionary.Dict.FindSlotForGeneralLookup` | src/builtin_types/dict.cpp:1684-1733 | With quiet equality: a hit is the only equal key, a miss means the key is absent; with reentrant equality a miss means every entry was dismissed. |
| `Dictionary.Dict.ProbeTable` | src/builtin_types/dict.cpp:1915-1949 | The string-keyed search: an equal key, or the first free slot of the chain, tombstone or empty; it terminates. |
| `Dictionary.Dict.FindEntry` | src/builtin_types/dict.cpp:1897-1949 | Present or provably absent, in every state that meets the invariant. |
| `Dictionary.Dict.GeneralGet` | src/builtin_types/dict.cpp:1735-1749 | The ordered map's lookup; with reentrant equality, the value of an entry that is live now and was just judged equal, or no key after every entry was dismissed. |
| `Dictionary.Dict.GeneralSetItem` | src/builtin_types/dict.cpp:1789-1815 | The ordered map's update; with reentrant equality, one write on top of what the callbacks left, at an entry just judged equal or at a new one after every entry was dismissed, or none if the probe raised. |
| `Dictionary.Dict.GeneralPop` | src/builtin_types/dict.cpp:1817-1867 | The ordered map's removal, returning the old value; with reentrant equality, exactly one entry just judged equal dies on top of what the callbacks left, or none after every entry was dismissed. |
| `Dictionary.Dict.GeneralSetDefault` | src/builtin_types/dict.cpp:1869-1895 | Lookup if present, insertion otherwise; with reentrant equality, the value of an entry just judged equal with nothing written, or one new entry after every entry was dismissed. |
| `Dictionary.Dict.StringKeyedInsert` | src/builtin_types/dict.cpp:1982-2006 | The ordered map's update. |
| `Dictionary.Dict.StringKeyedGet` | src/builtin_types/dict.cpp:1952-1965 | The ordered map's lookup. |
| `Dictionary.Dict.StringKeyedPop` | src/builtin_types/dict.cpp:1967-1980 | The ordered map's removal. |
| `Dictionary.Dict.PopItem` | src/builtin_types/dict.cpp:1215-1250 | Removes and returns the pair inserted last; nothing exactly when the map is empty. |
| `Dictionary.Dict.Clear` | src/builtin_types/dict.cpp:2013-2022 | Empty, in a new generation. |
| `Dictionary.Dict.PromoteToGeneralShape` | src/builtin_types/dict.cpp:1566-1571 | Keeps the contents, in a new generation. |
| `Dictionary.Dict.Rebuild` | src/builtin_types/dict.cpp:2032-2058 | Compacting in place and re-entering links every live entry, in order. |
| `Dictionary.Dict.Grow` | src/builtin_types/dict.cpp:2024-2060 | Same map, twice the table, no dead entries, new generation. |
| `DictContents.CompactMeaning` | src/builtin_types/dict.cpp:2032-2058 | Compaction keeps the pairs and their order. |
| `OrderedMap.LookupPut` | src/builtin_types/dict.cpp:1789-1815 | What is put is found; every other key is as before. |
| `OrderedMap.LookupRemove` | src/builtin_types/dict.cpp:1817-1867 | What is removed is gone; every other key is as before. |
| `OrderedMap.PutAt` | src/builtin_types/dict.cpp:1789-1815 | Overwriting changes the value at the one position of the key and keeps the key stored there. |
| `OrderedMap.RemoveAt` | src/builtin_types/dict.cpp:1817-1867 | Removal takes out the one position of the key. |
| `OrderedMap.PutLast` | src/builtin_types/dict.cpp:1789-1815 | A new key goes last. |
| `DictContents.UniqueContents` | src/builtin_types/dict.cpp:1897-1949 | No two keys of the map are equal. |
| `DictRuns.Perform` | src/builtin_types/dict.cpp:1356-1496 | Every public operation, dispatched on shape and promoting where needed, gives the answer and the map that its positions call for: a missing key is a KeyError and changes nothing, a present one is read, replaced or taken out where it stands; with reentrant equality it does no more than a suspended probe tolerates. |
| `DictRuns.ApplyMeets` | src/builtin_types/dict.cpp:1356-1496 | The operations on the ordered map are what they should be, said of positions, for every map with unique keys. |
| `DictRuns.Run` | src/builtin_types/dict.cpp:1356-1496 | Every sequence of operations has a history of maps from the first to the last in which every step and answer is what its operation says of positions; pairs and order are the ordered map's. |
| `DictRuns.RunReentrant` | src/builtin_types/dict.cpp:1581-1895 | Every sequence of operations under reentrant equality, from a new dictionary on, keeps the structural invariant, and the full one as long as only strings were used. |
| `DictIteration.DictIterator.Next` | src/builtin_types/dict_view.cpp:99-188 | A size change is reported exactly when the size is not the expected one; otherwise the key and value stored at the first live entry from the index on are handed out and the index moves past it, or there is none. |
| `DictIteration.Iterate` | src/builtin_types/dict_view.cpp:111-188 | A loop over a dictionary that it leaves alone hands out exactly its pairs, in order. |
| `DictIteration.AnswersAreRight` | src/builtin_types/dict_view.cpp:99-188 | A yield carries what is stored at its entry in the state of that step; a size change is reported exactly from the first state of another size on. |
| `DictIteration.InOrder` | src/builtin_types/dict_view.cpp:111-129 | Storage positions are handed out in increasing order, each at most once, whatever happens between the steps. |
| `DictIteration.NothingMissed` | src/builtin_types/dict_view.cpp:111-129 | Within one generation an exhausted iterator yielded every entry that is still live. |
| `DictIteration.PositionsNameEntries` | src/builtin_types/dict_view.cpp:111-129 | Within one generation the entry handed out from a position is at the end still there under the same key, or dead; so positions in order are entries in insertion order. |
| `DictIteration.GenerationsAgree` | src/builtin_types/dict.cpp:2013-2060 | States reached by dictionary operations that begin and end in one generation stay in it throughout, and no entry moves or revives. |
| `DictIteration.Interleave` | src/builtin_types/dict_view.cpp:99-188 | Any operations before every step: the answers are those of the iterator in states that follow one another by dictionary operations. |
| `DictIteration.LoopVisitsAll` | src/builtin_types/dict_view.cpp:99-188 | A loop whose body performs any operations gets, at every step, a key and value stored at that moment, and a size change exactly from the first other size on; if the generation is unchanged and it ran to the end, it visited every entry live at the end exactly once and in insertion order. |
| `DictIteration.FailsForever` | src/builtin_types/dict_view.cpp:99-109 | After one size mismatch every later step fails. |
| `Bytecode.ReadInt16` | src/bytecode/bytecode_decoder.cpp:11-15 | The two bytes as a signed 16-bit number. |
| `Bytecode.NextIsBoundary` | src/bytecode/bytecode_decoder.cpp:72-93 | Decoding from the start meets exactly the instruction boundaries. |
| `Bytecode.StepIsSuccessor` | src/bytecode/bytecode_decoder.cpp:17-37 | The machine's non-exception steps are exactly the listed successors of the instruction. |
| `Cfg.FindLeaders` | src/bytecode/bytecode_decoder.cpp:69-102 | Marks exactly the entry, the jump targets, the instructions after control transfers and the handlers. |
| `Cfg.BlockStarts` | src/bytecode/bytecode_decoder.cpp:104-112 | The marked offsets in increasing order. |
| `Cfg.MakeBlocks` | src/bytecode/bytecode_decoder.cpp:114-131 | One block per leader, starting at it, whole instructions, no leader inside; handler blocks are exactly those starting at a handler. |
| `Cfg.BlockSuccessors` | src/bytecode/bytecode_decoder.cpp:133-165 | The edges are, in order, where the last instruction can go. |
| `Cfg.AddPredecessors` | src/bytecode/bytecode_decoder.cpp:167-173 | Predecessor lists are the transpose of the successor lists with multiplicity. |
| `Cfg.StepsFollowEdges` | src/bytecode/bytecode_decoder.cpp:60-173 | From an instruction of a block the machine steps exactly to the next instruction of the block or, from the last one, to the start of a listed successor. |
| `Cfg.NothingEntersInside` | src/bytecode/bytecode_decoder.cpp:60-131 | No jump target and no handler lies strictly inside a block. |
| `CfgPrune.MarkReachable` | src/bytecode/bytecode_decoder.cpp:180-196 | The worklist ends and marks exactly the blocks reachable from the entry or a handler. |
| `CfgPrune.Renumber` | src/bytecode/bytecode_decoder.cpp:203-220 | Kept blocks are numbered by their rank among the kept ones. |
| `CfgPrune.RankMonotone` | src/bytecode/bytecode_decoder.cpp:203-220 | Renumbering preserves order and is injective. |
| `CfgPrune.RankOnto` | src/bytecode/bytecode_decoder.cpp:203-220 | Every new number is the number of a kept block. |
| `CfgPrune.DiscardUnreachable` | src/bytecode/bytecode_decoder.cpp:178-244 | Keeps exactly the reachable blocks with all their edges under the new numbers, no dangling id, predecessors again the transpose. |
| `CfgPrune.KeptIsFaithful` | src/bytecode/bytecode_decoder.cpp:178-244 | Pruning keeps the graph faithful to the machine. |
| `CfgPrune.BuildBlocks` | src/bytecode/bytecode_decoder.cpp:60-244 | For every well-formed code: a faithful graph whose blocks run from leader to leader, exact predecessors, all handlers entered, everything reachable. |
| `CfgPrune.GraphIsWhatRuns` | src/bytecode/bytecode_decoder.cpp:60-244 | An instruction can run from the entry or a handler exactly when some block of the graph holds it. |
| `CfgPrune.EntryHasNoPredecessor` | src/bytecode/bytecode_decoder.cpp:174-175 | The final assertion on the first block holds exactly when no instruction that can run goes to offset 0. |
| `CfgPrune.BackJumpIsWellFormed` | src/bytecode/bytecode_decoder.cpp:60-102 | A three-byte jump to itself meets everything the decoder demands of code. |
| `CfgPrune.BackJumpHasPredecessor` | src/bytecode/bytecode_decoder.cpp:174-175 | On that code the final assertion fails, whatever graph the builder returns. |
| `ModuleCache.Modules.SetBuiltinsBinding` | src/builtin_types/module_object.cpp:155-168 | Rebinding or deleting revokes exactly the lookups handed out for the module; no other module and no other cell changes. |
| `ModuleCache.Modules.GetBuiltinsLookup` | src/builtin_types/module_object.cpp:170-193 | A cached answer names the effective builtins with a valid cell, and revokes nothing; uncacheable exactly when the binding is not a module. |
| `ModuleCache.Modules.Attach` | src/builtin_types/module_object.cpp:212-233 | Slot reuse never drops a valid cell; it happens exactly when one of the first eight cells is invalid. |
| `ModuleCache.Modules.InvalidateBuiltinsCell` | src/builtin_types/module_object.cpp:244-251 | Invalidates that cell and no other. |
| `ModuleCache.Modules.InvalidateLookups` | src/builtin_types/module_object.cpp:235-264 | Revokes exactly the cells the module holds, which are exactly the lookups of it and into it, and forgets them; every other cell stays valid. |
| `ModuleCache.Modules.GlobalsCell` | src/builtin_types/module_object.h:63-72 | A valid cell for the module's own namespace. |
| `ModuleCache.GrantedCellHeld` | src/builtin_types/module_object.cpp:170-264 | A valid cell that was handed out is held by its module and its builtins and by no other module. |
| `ModuleCache.InvalidatedGrants` | src/builtin_types/module_object.cpp:253-264 | Invalidating a module revokes exactly the lookups of it and into it. |
| `ModuleCache.AttachedIsSound` | src/builtin_types/module_object.cpp:170-233 | Handing out a new cell keeps every earlier promise, also for a module that is its own builtins. |
| `ModuleCache.InvalidatedIsSound` | src/builtin_types/module_object.cpp:244-264 | Invalidating a namespace keeps every promise and revokes those that would break. |
| `ModuleCache.LookUp` | src/builtin_types/module_object.cpp:170-193 | Answered with a valid cell exactly when the effective builtins is a module, and then names it; no binding and no other cell changes. |
| `ModuleCache.Perform` | src/builtin_types/module_object.cpp:155-264 | Every operation has its meaning without a cache, replies rightly, and revokes exactly the lookups it disturbs. |
| `ModuleCache.EffectOnBuiltins` | src/builtin_types/module_object.cpp:155-193 | Deleting a binding falls back to the global builtins, rebinding takes effect, and no other module and no other namespace is affected. |
| `ModuleCache.Run` | src/builtin_types/module_object.cpp:155-264 | Cache coherence over every run: bindings and namespace versions are those of the operations without a cache; each lookup names the builtins then in use; its cell is valid at the end exactly if no later operation rebound the module or invalidated it or its builtins; and a still-valid cell means binding and namespace are unchanged. |
| `Utf8.AcceptsExactly` | src/builtin_types/unicode.cpp:52-126 | The decoder accepts exactly the well-formed sequences of section 4 of RFC 3629. |
| `Utf8.AcceptsGrammar` | src/builtin_types/unicode.cpp:64-110 | One decoded character is one alternative of the grammar, of that length. |
| `Utf8.AppendUnits` | src/builtin_types/unicode.cpp:15-41 | One or two code units are appended exactly when they fit. |
| `Utf8.SurrogatePair` | src/builtin_types/unicode.cpp:15-41 | The two units of a code point past 0xffff carry the top and bottom ten bits of its distance from 0x10000; every other code point is its own unit. |
| `Utf8.FrontIsPairOrUnit` | src/builtin_types/unicode.cpp:206-221 | A high and a low surrogate are read as the code point whose pair they are; any other unit is read as itself. |
| `Utf8.ScanUtf8` | src/builtin_types/unicode.cpp:52-126 | Succeeds exactly for well-formed input whose units fill the buffer, counts the units, and writes exactly them. |
| `Utf8.DecodeUtf8` | src/builtin_types/unicode.cpp:158-190 | The validating count is the number of units the second pass writes; the text is the decoded one, or nothing. |
| `Utf8.EncodeUtf8` | src/builtin_types/unicode.cpp:201-226 | The loop writes the encoding of the text's code points, surrogate pairs joined in the 2-byte mode. |
| `Utf8.EncodeOfDecode` | src/builtin_types/unicode.cpp:158-226 | encode(decode(b)) = b for every accepted b, in both unit widths. |
| `Utf8.DecodeOfEncode` | src/builtin_types/unicode.cpp:128-226 | decode(encode(t)) = t for every t made of Unicode scalar values, in both unit widths. |
| `Fnmatch.FindClassEnd` | stdlib/fnmatch.py:110-128 | The closing bracket of the class, or -1 for an unclosed one. |
| `Fnmatch.ClassMatches` | stdlib/fnmatch.py:131-167 | Decides membership in the tokenized class: negation, leading bracket, ranges. |
| `Fnmatch.MatchAt` | stdlib/fnmatch.py:56-107 | The backtracking search terminates and decides the declarative match relation from any position. |
| `Fnmatch.MatchStar` | stdlib/fnmatch.py:70-82 | Adjacent stars collapse; a star matches exactly when some suffix matches the rest. |
| `Fnmatch.FnMatchCase` | stdlib/fnmatch.py:30-33 | Decides the match relation of the tokenized pattern for every name and pattern. |
| `Fnmatch.SimplePatterns` | stdlib/fnmatch.py:68-107 | The empty pattern matches the empty name, a question mark any one character, a star anything. |
| `Fnmatch.NegationIsComplement` | stdlib/fnmatch.py:131-167 | A negated class matches exactly the one-character names that the class does not. |
| `Fnmatch.RangeMeans` | stdlib/fnmatch.py:131-167 | A range in brackets matches exactly the characters from its first to its last. |
| `Fnmatch.ListMeans` | stdlib/fnmatch.py:110-167 | A list in brackets without dashes matches exactly the characters listed, a leading closing bracket among them. |
| `Fnmatch.Escape` | stdlib/glob.py:46-56 | Each of * ? [ is bracketed, every other character kept. |
| `Fnmatch.EscapeMatchesItself` | stdlib/glob.py:46-56 | An escaped pattern matches n exactly when n is the original text. |

## Left out

- Values the runtime wraps around these kernels: reference counting, allocation failure, exception objects, shapes and
  descriptors, hash callbacks that raise.
- `bigint_lshift`, `bigint_rshift`, `bigint_invert`, `bigint_hash`, `bigint_pow_nonnegative` and the 64-bit conversions:
  easy members over the kernels above.
- Scratch buffers of modular power are allocated at the given capacities for each call; their reuse and pointer swapping
  are not modelled.
- `ldexp`: the result of the conversion to double is a significand and an exponent.
- White space of integer texts is a parameter, because the C library's classification depends on the locale.
- `std::to_wstring` on a chunk is the numeral function of the model.
- Dictionary: the 32-bit width of slot indices and the bound on the generation counter; subclass hooks, views as sets,
  `update` and `fromkeys`.
- Dictionary.Dict.InsertProbe: with reentrant equality a probe is followed for a chosen number of steps, since callbacks can keep it going forever; key uniqueness and the load bound are claimed only for equality that leaves the dictionary alone.
- Dictionary.Dict.LookupProbe: the index and the slot form of the lookup probe share this model, and the step bound of reentrant runs is the same.
- BigIntDiv.DivmodNormalizedInto: is stated for dividends whose leading digits are below the divisor, which its only caller guarantees and its assertions do not ask for; QuotientFits shows that otherwise the quotient is too long for the digits it writes.
- DictIteration.NothingMissed: claims completeness within one table generation, because growing moves entries.
- Bytecode: the real opcode table; exception edges other than handler entry points.
- Module cache: attribute shapes and descriptors; other users of validity cells.
- UTF-8: the ASCII tests and the C-string wrapper.
- Shell patterns: `fnmatch` with case normalization, `filter`, `translate`, argument type checks, and everything in `glob` that
  touches the file system. Texts are sequences of codes, which covers both str and bytes.
