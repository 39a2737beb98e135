# SkeleShare artifact: memory-image codec and experiment harness, in Dafny

This project models two parts of the SkeleShare CGO'26 artifact and proves
what they promise.

**The host program's buffer routines** (`scripts/syntest/sw/hello_afu.cpp`)
prepare and check the memory image shared with the accelerator. The shared
buffer is an `array<byte>` of unsigned bytes, and the routines are methods
over it with loop invariants:

- `array_reset` zero-fills a prefix.
- `array_change_endian` reverses every 64-byte cache-line word
  (`CL(1)` = 64 in OPAE) in place.
- `array_load_file` parses a text of `0`/`1` characters into bytes, most
  significant bit first.
- `array_put` and `array_get` pack and unpack fixed-width unsigned values
  into cache lines. The layout is bitwise little-endian and ignores byte
  boundaries. After a value, the next one stays in the same line only if it
  still fits in the rest of that line; otherwise it starts the next line.

The bitwise operators are arithmetic on naturals (module `Bits`): `>>` is
division by `Pow2`, `&` with a mask is `%`, `<<` is multiplication, and `|`
is the function `Or`. Each method is specified by a function on the
buffer's contents:

- `WordsReversed` for `array_change_endian`;
- `ImageBytes(ImageBits(text))` for `array_load_file`;
- `PutValues` for `array_put`;
- `Fields` for `array_get`.

The lemmas beside them state the layout, the bits each routine sets, the
`array_put`/`array_get` round trip, and the load of a written image text.

**The experiment driver** (`evaluation.py`):

- The class name of a Scala test source and the workspace paths are
  functions on strings.
- The exit-code policy of `run_sbt_test` is a function from the exit code to
  an outcome, one per exception the code raises.
- `snapshot_files` is a worklist method over a directory tree value. It is
  checked against a recursive description of the pruned file set.
- The two phase runners return the list of file-system and process actions
  they perform.
- The `EXPERIMENTS` catalogue is a constant.
- In `main`, the `--only` filter and the dispatch loop are functions and a
  method. `main` returns the steps it runs and the ids it warns about.

The sbt process, the file system and argument parsing are inputs.

`Reset` and `ChangeEndian` are the loops of `array_reset` and
`array_change_endian`:

- `array_reset` sets `buf[i] = 0` for every `i` below `len`.
- `array_change_endian` steps `i` by one word while `i < len` and, for each
  `j` below half a word, swaps `buf[i+j]` with `buf[i+63-j]` through a
  temporary.

`ChangeEndian` asks only that the last such word lies inside the buffer. A
`len` that is not a multiple of 64 is allowed: the routine then also
reverses the bytes up to the next word boundary.

## Model

| member | source | states |
|---|---|---|
| AfuBuffers.Reset | scripts/syntest/sw/hello_afu.cpp:173-178 | bytes `0..len` are 0 afterwards; every byte from `len` on keeps its old value |
| AfuBuffers.Touched | scripts/syntest/sw/hello_afu.cpp:180-193 | the bytes the word loop touches: `len` rounded up to a multiple of 64, at least `len` and less than `len + 64` |
| AfuBuffers.ReverseWord | scripts/syntest/sw/hello_afu.cpp:180-193 | the swap loop: byte `k` of the word at `i` receives old byte `2i + 63 - k`; every byte outside the word is unchanged |
| AfuBuffers.ChangeEndian | scripts/syntest/sw/hello_afu.cpp:180-193 | the new buffer is `WordsReversed(old buffer, len)`: each word starting below `len` reversed, the bytes after them unchanged |
| AfuBuffers.WordsReversed | scripts/syntest/sw/hello_afu.cpp:180-193 | reversing the words keeps the buffer's length |
| AfuBuffers.WordsReversedAt | scripts/syntest/sw/hello_afu.cpp:180-193 | byte `k` of a touched word is old byte `Mirror(k)`, i.e. `buf'[i+j] == buf[i+63-j]`; bytes past the touched words are unchanged |
| AfuBuffers.WordsReversedTwice | scripts/syntest/sw/hello_afu.cpp:180-193 | changing the endianness twice restores the buffer |
| AfuBuffers.ReverseAt | scripts/syntest/sw/hello_afu.cpp:180-193 | element `k` of a reversed sequence is element `n - 1 - k` of the original |
| AfuBuffers.ReverseTwice | scripts/syntest/sw/hello_afu.cpp:180-193 | reversing twice is the identity |
| AfuBuffers.LoadImage | scripts/syntest/sw/hello_afu.cpp:281-313 | returns `pos` = number of `0`/`1` characters divided by 8, rounded down; `buf[..pos]` holds each group of eight bits MSB first; bytes from `pos` on are untouched |
| AfuBuffers.ReadCharacter | scripts/syntest/sw/hello_afu.cpp:293-311 | one loop iteration keeps the parser state (`ReadState`) and keeps `buf[..pos]` equal to the complete bytes read so far; it writes nothing at or past the new `pos` |
| AfuBuffers.ReadBitCharacter | scripts/syntest/sw/hello_afu.cpp:295-310 | a bit character shifts its bit into the accumulator; exactly on the eighth bit the image gains one byte, the accumulator, and `pos` stays below the final count |
| AfuBuffers.SkipCharacter | scripts/syntest/sw/hello_afu.cpp:300-302 | any other character (the `continue`) leaves parser state and image unchanged |
| AfuBuffers.OtherCharactersSkipped | scripts/syntest/sw/hello_afu.cpp:295-302 | removing a character other than `0`/`1` anywhere from the text does not change its bits |
| AfuBuffers.AccumulatorLowByte | scripts/syntest/sw/hello_afu.cpp:295-299 | the never-reset accumulator (`byte <<= 1; byte++`, wrapping at 8 bits) always equals the number read so far mod 256, so older bits are shifted out |
| AfuBuffers.AccumulatorStep | scripts/syntest/sw/hello_afu.cpp:295-299 | shifting and incrementing mod 256 depends only on the old value mod 256 |
| AfuBuffers.ImageBytesSnoc | scripts/syntest/sw/hello_afu.cpp:304-310 | one more bit completes a byte exactly when it is the eighth, and that byte is the accumulator |
| AfuBuffers.ImageBytes | scripts/syntest/sw/hello_afu.cpp:304-312 | the image has one byte per complete group of eight bits, byte `i` being bits `8i..8i+8` read most significant bit first; a trailing partial group gives none |
| AfuBuffers.MsbFirstBound | scripts/syntest/sw/hello_afu.cpp:295-299 | `n` bits read MSB first give a number below `2^n` |
| AfuBuffers.ImageBitsAppend | scripts/syntest/sw/hello_afu.cpp:293-302 | the bits of a concatenated text are the concatenated bits |
| AfuBuffers.MsbFirstAppend | scripts/syntest/sw/hello_afu.cpp:295-299 | reading `a + b` MSB first is `a`'s number times `2^|b|` plus `b`'s number |
| AfuBuffers.ImageBytesAppend | scripts/syntest/sw/hello_afu.cpp:304-310 | bits that end on a byte boundary, followed by more bits, give their bytes followed by the bytes of the rest |
| AfuBuffers.CompleteByte | scripts/syntest/sw/hello_afu.cpp:304-310 | a group of eight bits gives the number read so far mod 256 |
| AfuBuffers.ReadOneCharacter | scripts/syntest/sw/hello_afu.cpp:293-302 | reading one more character adds exactly that character's bits |
| AfuBuffers.MsbBits | scripts/syntest/sw/hello_afu.cpp:295-299 | the MSB-first bits of a number have the requested width |
| AfuBuffers.MsbFirstOfMsbBits | scripts/syntest/sw/hello_afu.cpp:295-299 | reading the MSB-first bits of `n < 2^width` gives back `n` |
| AfuBuffers.ImageText | scripts/syntest/sw/hello_afu.cpp:281-313 | the text written for an image has eight characters per byte |
| AfuBuffers.ImageBitsOfDigits | scripts/syntest/sw/hello_afu.cpp:295-302 | a text of `0`/`1` digits has exactly the bits it spells |
| AfuBuffers.ImageTextBits | scripts/syntest/sw/hello_afu.cpp:295-302 | the bits of an image text are those of its first byte followed by the rest |
| AfuBuffers.LoadImageText | scripts/syntest/sw/hello_afu.cpp:281-313 | loading the `0`/`1` text written for any bytes gives back exactly those bytes |
| AfuPacking.SlotInLine | scripts/syntest/sw/hello_afu.cpp:272-277 | for widths up to 512, no value crosses a cache-line boundary |
| AfuPacking.SlotStep | scripts/syntest/sw/hello_afu.cpp:272-277 | each slot starts at or after the end of the previous value |
| AfuPacking.SlotsSeparate | scripts/syntest/sw/hello_afu.cpp:242-247 | the fields of any two values are disjoint, in index order |
| AfuPacking.SlotClosedForm | scripts/syntest/sw/hello_afu.cpp:272-277 | with `n = 512 / w`, value `i` lies in line `i / n` at bit `(i mod n) * w`; the same `Slot` function drives `Get` and `Put` |
| AfuPacking.ClosedFormStep | scripts/syntest/sw/hello_afu.cpp:272-277 | the closed form survives one advance step |
| AfuPacking.NextLine | scripts/syntest/sw/hello_afu.cpp:272-277 | after the last slot of a line comes slot 0 of the next line |
| AfuPacking.SameLine | scripts/syntest/sw/hello_afu.cpp:272-277 | after any other slot comes the next slot of the same line |
| AfuPacking.LineCapacity | scripts/syntest/sw/hello_afu.cpp:272-277 | `512 / w` values fit in a line and one more does not |
| AfuPacking.AdvanceInLine | scripts/syntest/sw/hello_afu.cpp:273 | the line-break test fires exactly at the last slot of a line |
| AfuPacking.FieldBound | scripts/syntest/sw/hello_afu.cpp:222-241 | a `w`-bit field read back is below `2^w` |
| AfuPacking.FieldBit | scripts/syntest/sw/hello_afu.cpp:222-241 | bit `j` of a field is buffer bit `p + j` |
| AfuPacking.FieldSplit | scripts/syntest/sw/hello_afu.cpp:224-240 | a field is its low `a` bits plus `2^a` times the `b` bits above them |
| AfuPacking.FieldInByte | scripts/syntest/sw/hello_afu.cpp:229-235 | bits `d..d+u` of one byte are the byte shifted right by `d` and masked to `u` bits |
| AfuPacking.ChunkIsField | scripts/syntest/sw/hello_afu.cpp:229-235 | the masked chunk of byte `q` is the next `u` bits of the field |
| AfuPacking.FieldExtend | scripts/syntest/sw/hello_afu.cpp:239 | ORing the next bits in above those read so far extends the field |
| AfuPacking.GetChunk | scripts/syntest/sw/hello_afu.cpp:226-240 | one iteration of the inner loop extends the assembled value by `useBits` field bits; the value stays below `2^64` |
| AfuPacking.TakeChunk | scripts/syntest/sw/hello_afu.cpp:226-238 | takes `8 - d` bits, `d` being the position within the byte, or the missing number of bits when fewer are missing; the chunk is that byte shifted down by `d`, masked to that many bits and shifted up by the bits read so far; ORing it in gives that many more field bits, below `2^64` |
| AfuPacking.GetValue | scripts/syntest/sw/hello_afu.cpp:222-241 | the value is zeroed and then becomes exactly the `w`-bit field at its slot; no other value changes |
| AfuPacking.Fields | scripts/syntest/sw/hello_afu.cpp:215-249 | the fields of `n` slots are `n` numbers |
| AfuPacking.FieldsAt | scripts/syntest/sw/hello_afu.cpp:215-249 | element `i` of `Fields` is the field at slot `i` |
| AfuPacking.AppendUpdate | scripts/syntest/sw/hello_afu.cpp:220-222 | writing the next value just past the prefix extends it |
| AfuPacking.Get | scripts/syntest/sw/hello_afu.cpp:215-249 | `values[..valuesLen]` becomes the fields at the slots of the layout; values past `valuesLen` are unchanged |
| AfuPacking.ChunkBit | scripts/syntest/sw/hello_afu.cpp:266 | the chunk holds bits `0..8-d` of the value moved up by `d`, and nothing else |
| AfuPacking.Deposit | scripts/syntest/sw/hello_afu.cpp:267 | one OR into the buffer keeps its length |
| AfuPacking.DepositBit | scripts/syntest/sw/hello_afu.cpp:263-267 | one OR sets exactly the bits of the value that fall in that byte, and clears none |
| AfuPacking.WriteBits | scripts/syntest/sw/hello_afu.cpp:259-270 | writing a value keeps the buffer's length |
| AfuPacking.WriteBitsBit | scripts/syntest/sw/hello_afu.cpp:259-270 | the inner loop of `array_put` sets exactly bits `P + j` for the set bits `j` of the value and keeps every bit already set; a zero value writes nothing |
| AfuPacking.FitsStep | scripts/syntest/sw/hello_afu.cpp:263-269 | when the value has no bits past the buffer, the byte written is inside it, and the rest still fits from the next byte boundary |
| AfuPacking.FitsWidth | scripts/syntest/sw/hello_afu.cpp:252-270 | a value below `2^w` whose field lies in the buffer only writes inside it |
| AfuPacking.DepositStep | scripts/syntest/sw/hello_afu.cpp:263-269 | one iteration ORs in the chunk up to the next byte boundary, and the shifted rest carries the higher bits |
| AfuPacking.WriteBitsStep | scripts/syntest/sw/hello_afu.cpp:263-269 | the loop after one iteration writes what it would have written before it |
| AfuPacking.DepositAdvance | scripts/syntest/sw/hello_afu.cpp:263-269 | the loop invariant after storing one chunk into the buffer |
| AfuPacking.SameByte | scripts/syntest/sw/hello_afu.cpp:263-269 | `currentPos + useBits` is the next byte boundary, and the bits before it share a byte |
| AfuPacking.PutValues | scripts/syntest/sw/hello_afu.cpp:252-279 | putting keeps the buffer's length |
| AfuPacking.PutChunk | scripts/syntest/sw/hello_afu.cpp:263-269 | one inner iteration: the new buffer is the old one with the low `8 - p % 8` bits of the value ORed into byte `p / 8` from bit `p % 8`; the position moves to the next byte boundary and the value loses those bits; what is left still fits and completes the same write |
| AfuPacking.PutValue | scripts/syntest/sw/hello_afu.cpp:259-270 | the buffer becomes `WriteBits(old buffer, slot, value)` |
| AfuPacking.Put | scripts/syntest/sw/hello_afu.cpp:252-279 | the buffer becomes `PutValues(old buffer, …)`: each value in turn ORed in at its slot |
| AfuPacking.PutUntouched | scripts/syntest/sw/hello_afu.cpp:252-279 | bits past the last field written keep their value |
| AfuPacking.PutOutsideFields | scripts/syntest/sw/hello_afu.cpp:252-279 | with values below `2^w`, every bit outside all fields keeps its old value |
| AfuPacking.PutSpills | scripts/syntest/sw/hello_afu.cpp:261-270 | there is no mask: a set bit of a value at or beyond `w` is set past its field |
| AfuPacking.PutSlotBit | scripts/syntest/sw/hello_afu.cpp:252-279 | inside the field of value `i`, the bits afterwards are the old bits ORed with those of `vals[i]` |
| AfuPacking.PutSlotBitLast | scripts/syntest/sw/hello_afu.cpp:252-279 | the same for the last value put |
| AfuPacking.PutBelowLast | scripts/syntest/sw/hello_afu.cpp:252-279 | putting the last value leaves the bits before its slot alone |
| AfuPacking.PutAboveLast | scripts/syntest/sw/hello_afu.cpp:252-279 | putting a value below `2^w` leaves the bits after its field alone |
| AfuPacking.PutLast | scripts/syntest/sw/hello_afu.cpp:259-270 | the bits that putting one value adds |
| AfuPacking.PutGetOne | scripts/syntest/sw/hello_afu.cpp:215-279 | when the bits of slot `i`'s field were clear before, the field after putting is `vals[i]` |
| AfuPacking.PutGet | scripts/syntest/sw/hello_afu.cpp:215-279 | round trip: values below `2^w` put where the bits of their fields were clear are what `Get` reads back at the same line and width, whatever the other bits of the buffer hold |
| AfuPacking.PutGetCleared | scripts/syntest/sw/hello_afu.cpp:173-178 | the round trip from a buffer `array_reset` has cleared |
| AfuPacking.SignedChunk | scripts/syntest/sw/hello_afu.cpp:226-238 | one chunk read with a signed `char` is below 256, and below `2^useBits` when clipped |
| AfuPacking.SignedGet | scripts/syntest/sw/hello_afu.cpp:224-240 | the value read with a signed `char` stays a `uint64_t` |
| AfuPacking.SignedGetMisreads | scripts/syntest/sw/hello_afu.cpp:229-238 | with a signed `char`, reading the 4-bit field at bit 4 of byte `0xF0` gives 255; the field (and `Get`) gives 15 |
| Bits.Pow2 | scripts/syntest/sw/hello_afu.cpp:235 | `1 << n` is positive |
| Bits.OrBit | scripts/syntest/sw/hello_afu.cpp:239 | bit `j` of `a | b` is set exactly when it is set in `a` or in `b` |
| Bits.OrBelow | scripts/syntest/sw/hello_afu.cpp:267 | OR of two `n`-bit numbers is an `n`-bit number |
| Bits.OrDisjoint | scripts/syntest/sw/hello_afu.cpp:239 | ORing in bits above all set bits is addition |
| Bits.OrZero | scripts/syntest/sw/hello_afu.cpp:222 | zero is the identity of OR |
| Bits.OrByteBit | scripts/syntest/sw/hello_afu.cpp:267 | `|=` on a byte sets exactly the bits of either operand |
| Bits.BitShr | scripts/syntest/sw/hello_afu.cpp:230 | bit `j` of `a >> u` is bit `j + u` of `a` |
| Bits.BitMod | scripts/syntest/sw/hello_afu.cpp:235 | masking to `u` bits keeps exactly the bits below `u` |
| Bits.BitShl | scripts/syntest/sw/hello_afu.cpp:266 | bit `j` of `x << d` is bit `j - d` of `x`, and none below `d` |
| Bits.BitAbove | scripts/syntest/sw/hello_afu.cpp:252-270 | a number below `2^n` has no bit at or above `n` |
| Bits.BitsDetermine | scripts/syntest/sw/hello_afu.cpp:215-249 | two `n`-bit numbers with the same bits are equal |
| Bits.ShrBound | scripts/syntest/sw/hello_afu.cpp:230 | shifting an `(n+u)`-bit number right by `u` leaves an `n`-bit number |
| Bits.ShrDecreases | scripts/syntest/sw/hello_afu.cpp:268 | `value >>= useBits` strictly decreases a positive value, so the put loop ends |
| Bits.Pow2Word | scripts/syntest/sw/hello_afu.cpp:219 | `1 << 64` is `2^64`, the bound of a `uint64_t` value |
| EvalPaths.StripFirst | evaluation.py:68-72 | the loop removes the first matching prefix, if any, and stops: the result is the path or the path minus one of the prefixes |
| EvalPaths.StripTestRoots | evaluation.py:68-72 | `src/test/scala/` is tried first; otherwise `src/test/`; otherwise the path is kept |
| EvalPaths.TestRootsNested | evaluation.py:69 | the first prefix is the second followed by `scala/`, which is why the order matters |
| EvalPaths.AfterPrefix | evaluation.py:70-71 | `startswith` and slicing off a prefix undo a concatenation |
| EvalPaths.PrefixOfPrefix | evaluation.py:70 | a path that starts with `a + b` starts with `a` |
| EvalPaths.PrefixPastRoot | evaluation.py:70 | past a common root, prefixes carry over |
| EvalPaths.DropScalaExtension | evaluation.py:73-74 | one trailing `.scala` is removed if present, and nothing else changes |
| EvalPaths.DropScalaExtensionOf | evaluation.py:73-74 | `rel.scala` becomes `rel` |
| EvalPaths.Dotted | evaluation.py:75 | every `/` becomes `.`, every other character is kept, and no `/` remains |
| EvalPaths.Slashed | evaluation.py:75 | the reverse replacement keeps the length |
| EvalPaths.Fqcn | evaluation.py:59-75 | the class name is no longer than the path and contains no `/` |
| EvalPaths.FqcnFromTestPath | evaluation.py:59-75 | the loop with its `break` computes `Fqcn` |
| EvalPaths.FqcnAfterStrip | evaluation.py:73-75 | a path the prefix loop reduces to `rel.scala` names class `Dotted(rel)` |
| EvalPaths.FqcnOfScalaTestSource | evaluation.py:59-75 | `src/test/scala/rel.scala` names class `Dotted(rel)` |
| EvalPaths.FqcnOfTestSource | evaluation.py:62-65 | `src/test/rel.scala` names class `Dotted(rel)`, e.g. `eqsat.nn.SingleVGGTest` for `src/test/eqsat/nn/SingleVGGTest.scala`; `src/test/` is removed only once |
| EvalPaths.FqcnOutsideTestRoots | evaluation.py:68-75 | a path outside `src/test/` keeps all its directories in the class name |
| EvalPaths.DottedInverse | evaluation.py:75 | when no name holds a dot, the class name determines the path |
| EvalPaths.PathJoin | evaluation.py:80 | `os.path.join` ends with its second argument, and starts with the first when the second is relative |
| EvalPaths.ShirRepoDir | evaluation.py:78-80 | the checkout of branch `b` is `/workspace/shir-` + `b` |
| EvalPaths.ShirRepoDirInjective | evaluation.py:78-80 | different branches have different checkouts |
| EvalPaths.ResultsDir | evaluation.py:36-37 | `RESULTS_DIR` is `/workspace/results` |
| EvalPaths.ResultDest | evaluation.py:144 | a result directory ends with the phase's directory name |
| EvalPaths.JoinNames | evaluation.py:144 | joining plain names inserts one `/` |
| EvalPaths.ResultDestOfNames | evaluation.py:165 | for plain names the result directory is `/workspace/results/<id>/<sub>` |
| EvalPaths.ResultDestInjective | evaluation.py:144 | distinct experiment ids get distinct result directories |
| EvalSnapshot.ReachesNonEmpty | evaluation.py:94-96 | a reachable file has a non-empty relative path |
| EvalSnapshot.KeptStep | evaluation.py:93 | a path is below no excluded directory exactly when its first directory is not excluded and neither is any below it |
| EvalSnapshot.FilesMembers | evaluation.py:89-96 | the files listed for a directory's entries are the reachable files below no excluded directory |
| EvalSnapshot.EntryFilesMembers | evaluation.py:89-96 | the same for one entry |
| EvalSnapshot.EntryFilesMembersUnder | evaluation.py:89-96 | the same for one entry, inside its directory |
| EvalSnapshot.Snapshot | evaluation.py:83-97 | every listed path names a file of the tree below no excluded directory |
| EvalSnapshot.SnapshotMembers | evaluation.py:83-97 | a path is in the snapshot exactly when it names a file of the tree and no directory on it is `.git`, `target`, `project`, `.idea`, `.bsp` or `.metals`; the root itself is never pruned |
| EvalSnapshot.ExcludedFileNameKept | evaluation.py:93-96 | a file named `target` is still listed: only directories are pruned |
| EvalSnapshot.NothingBelowExcluded | evaluation.py:89-93 | nothing below an excluded directory is listed |
| EvalSnapshot.Push | evaluation.py:91-93 | pushing a directory adds its files to what the walk still owes |
| EvalSnapshot.Unfold | evaluation.py:91-96 | a directory's files are its first entry's files and the rest's |
| EvalSnapshot.Visit | evaluation.py:91-96 | visiting one directory records its files and pushes its kept subdirectories, owing exactly its pruned files |
| EvalSnapshot.SnapshotFiles | evaluation.py:83-97 | the walk returns exactly `Snapshot(root)` |
| EvalSbt.SbtCommand | evaluation.py:111-115 | the command is `sbt` with one JVM option and a `testOnly` argument naming the test's fully qualified class |
| EvalSbt.SbtCommandDeterminesClass | evaluation.py:109-115 | two test sources give the same sbt command exactly when they name the same class |
| EvalSbt.RunSbtTest | evaluation.py:108-129 | with `expect_failure`, exit code 0 raises `RuntimeError` and a nonzero code passes; without it, a nonzero code raises `CalledProcessError` with that code and the command, and 0 passes |
| EvalSbt.PolicyFlips | evaluation.py:117-129 | for every exit code, exactly one setting of the flag raises |
| EvalPhases.NewFiles | evaluation.py:138 | the new files are the files after the run that were not there before, and nothing else |
| EvalPhases.EqsatPhase | evaluation.py:132-146 | the sbt run in the branch checkout comes first |
| EvalPhases.EqsatPhaseOutcome | evaluation.py:132-146 | the phase raises exactly when the exit code contradicts the flag; with no new files it does nothing more and succeeds; otherwise it copies exactly `after - before` to `<id>/eqsat` |
| EvalPhases.EqsatCopiesOnlyNewFiles | evaluation.py:135-146 | every copied path is a kept file of the tree after the run that was not in the tree before |
| EvalPhases.RemoveIfPresent | evaluation.py:155-157 | at most one action, and only the removal of that path |
| EvalPhases.LoweringCopy | evaluation.py:161-169 | after the test, at most two actions: a removal of the destination and the copy of `out/` to it |
| EvalPhases.LoweringSteps | evaluation.py:154-169 | one to four actions, each the test run, a removal of `out/` or of the destination, or the copy of `out/` to the destination |
| EvalPhases.LoweringPhase | evaluation.py:149-169 | between one and four actions; the only process run is the test in the branch checkout, the only paths removed are `out/` and `<id>/vhdl`, the only copy is `out/` to `<id>/vhdl` |
| EvalPhases.LoweringStepsOrder | evaluation.py:149-169 | order: remove a stale `out/`, run, then, only after a successful run that produced `out/`, remove an old copy and copy `out/` |
| EvalPhases.LoweringIgnoresExpectFailure | evaluation.py:159 | the lowering phase ignores the configuration's `expect_failure` |
| EvalPhases.LoweringPhaseError | evaluation.py:159 | the lowering phase raises `CalledProcessError` exactly on a nonzero exit code |
| EvalPhases.LoweringCleansFirst | evaluation.py:154-159 | a stale `out/` is removed before the test runs |
| EvalPhases.LoweringCopiesLast | evaluation.py:161-169 | `out/` is copied to `<id>/vhdl` exactly after a successful run that produced it, as the last action, after an existing copy is removed |
| EvalCatalogue.Ids | evaluation.py:172-305 | the ids of the catalogue, in order |
| EvalCatalogue.CatalogueSize | evaluation.py:172-305 | the catalogue holds twelve experiments |
| EvalCatalogue.IdsDistinct | evaluation.py:172-305 | experiment ids are pairwise distinct |
| EvalCatalogue.ExpectedFailures | evaluation.py:231-258 | `expect_failure` is set only on EqSat phases of experiments without a lowering phase (12, 13 and 14), never on a lowering phase |
| EvalCatalogue.PhasesOnClonedBranches | evaluation.py:172-305 | every experiment has a phase, and every phase runs on one of the three cloned branches |
| EvalCatalogue.IdsArePlainNames | evaluation.py:172-305 | every id is a single path component |
| EvalCatalogue.ResultDestsDistinct | evaluation.py:172-305 | no two experiments share a result directory |
| EvalMain.StripLeft | evaluation.py:329 | removes exactly the leading whitespace |
| EvalMain.StripRight | evaluation.py:329 | removes exactly the trailing whitespace |
| EvalMain.StripSlice | evaluation.py:329 | `strip()` keeps a slice with only whitespace cut on both sides, bordered by non-blank characters |
| EvalMain.StripEmpty | evaluation.py:329 | a piece is dropped exactly when it is all whitespace |
| EvalMain.Split | evaluation.py:329 | `split(",")` gives at least one piece and no piece holds a comma |
| EvalMain.JoinSplit | evaluation.py:329 | joining the pieces with commas gives back the argument |
| EvalMain.SplitJoin | evaluation.py:329 | splitting comma-free pieces joined with commas gives back the pieces |
| EvalMain.JoinHead | evaluation.py:329 | joining starts with the first piece's first character |
| EvalMain.SplitHead | evaluation.py:329 | a non-comma first character belongs to the first piece |
| EvalMain.SplitComma | evaluation.py:329 | a leading comma gives an empty first piece |
| EvalMain.WantedOf | evaluation.py:329 | `wanted` is exactly the set of non-empty stripped pieces |
| EvalMain.Filter | evaluation.py:330 | keeps exactly the experiments whose id is wanted, in catalogue order |
| EvalMain.Selected | evaluation.py:328-335 | the experiments run are an order-preserving subsequence of the catalogue, and the whole catalogue when `--only` is absent or empty |
| EvalMain.SelectedMembers | evaluation.py:328-330 | with a non-empty `--only`, an experiment runs exactly when its id was asked for |
| EvalMain.FilterIds | evaluation.py:330-331 | a wanted id of the catalogue is among the selected ids |
| EvalMain.Unknown | evaluation.py:331-333 | the ids warned about were asked for, and none is the id of an experiment in the catalogue |
| EvalMain.UnknownMembers | evaluation.py:331-333 | the ids warned about are exactly the wanted ids no experiment has |
| EvalMain.ParsePhase | evaluation.py:316-321 | an accepted `--phase` argument is the name of the phase it gives |
| EvalMain.ParsePhaseName | evaluation.py:318 | each of the three choices parses to its phase |
| EvalMain.ExperimentSteps | evaluation.py:342-350 | one step per chosen phase, run or skipped, the EqSat step before the lowering step |
| EvalMain.ExperimentStepsMembers | evaluation.py:342-350 | a phase runs exactly when it was chosen and configured, and is skipped (never an error) when it was chosen and not configured |
| EvalMain.Plan | evaluation.py:341-350 | the plan holds one step per selected experiment and chosen phase |
| EvalMain.Dispatch | evaluation.py:341-350 | the loop performs `Plan`: each experiment's steps, in order |
| EvalMain.PlanAppend | evaluation.py:341 | the steps of two lists of experiments are appended |
| EvalMain.PlanSteps | evaluation.py:341-350 | the steps of `main` are exactly the steps of the selected experiments |
| EvalMain.DefaultRunsNoEqsat | evaluation.py:316-321 | with the default `--phase` (`lowering`), no EqSat phase runs or is skipped |
| EvalMain.Run | evaluation.py:325-350 | `main` runs the plan of the selected experiments, and warns about exactly the unknown ids when `--only` is given and non-empty, otherwise about none |

## Left out

- `hello_afu.cpp`'s `main` is left out: the OPAE connection, buffer allocation, MMIO, polling and timing are hardware and foreign calls. So are `array_print` (output only) and `check_memory` (a raw-memory self-test).
- The `fstream` opening and `assert(fin)` of `array_load_file`: the text is a parameter. `fin >> c` skips whitespace, and the model's `CharBits` skips every character other than `0` and `1`, which covers whitespace.
- `char` is an unsigned byte in `Reset`, `ChangeEndian`, `LoadImage`, `Put` and `Get`. For the shifts and increments of `array_load_file` and `array_put` the bit pattern is the same either way. For `array_get` with a signed `char` it is not; see Findings.
- AfuPacking.Field and AfuPacking.WriteBits: bits past the end of the buffer read as 0 and writes there are dropped. The C code would access memory out of bounds. `Fits` and the requires of `Get` and `Put` exclude those cases.
- Negative lengths and 32-bit `int` counters are not modelled: `len` of `Reset` and `ChangeEndian` and `valuesLen` of `Put` and `Get` are naturals, where the C takes an `int`, for which a negative length makes the loop do nothing; the loop counters and positions are unbounded integers.
- AfuPacking.Get: requires `w <= 64`, the width of `uint64_t`, where the source accepts any `int`. Widths above 64 would shift past the value.
- AfuBuffers.ChangeEndian: the requires asks that the last touched word lies inside the buffer. It does not demand that `len` be a multiple of 64.
- Each inner loop body is its own method: `ReverseWord`, `ReadCharacter`, `TakeChunk` and `PutChunk`. Their effect on state is exactly the loop body's.
- `subprocess.run`, `os.walk`, `shutil.copy2`, `copytree`, `rmtree` and `os.makedirs` are left out as I/O. The exit code, the trees before and after, and whether `out/` and the destination exist are inputs. Copies are actions with their sets of paths.
- `os.walk` visits directories in file-system order; the model's snapshot is a set of paths, so order does not matter. Symbolic links are not modelled: `os.walk` does not descend into a link to a directory (`followlinks` is false by default), and the tree value has no links.
- `copy_relative_paths` is left out as file copying; the model records the files to copy.
- Relative paths of the snapshot are sequences of components; `os.path.relpath` of a file below the root is those components joined by `/`.
- `argparse` is left out: `--only` is an optional string, and `--phase` is a phase already parsed, with `ParsePhase` for the three choices. Printing and the warning text are left out.
- `RESULTS_DIR` creation in `main` is left out as I/O.
- Exceptions are the `error` field of a phase run: the run stops there. `main`'s propagation of a phase's exception past the loop is not modelled.
- The module docstring says lowering output goes to `<id>/lowering` and that the default runs both phases. The code copies to `<id>/vhdl` and defaults to `lowering`; the model follows the code.
- There is no figure phase and no unwrapping of a single subdirectory of `out/` in the code, so neither is modelled.
- EvalPaths.FqcnOfTestSource: stated for remainders that do not start with `scala/`. Those start with `src/test/scala/`, which `FqcnOfScalaTestSource` covers.

## Findings

| source | as written | input that shows it | evidently intended | confidence | as-written member | corrected member |
|---|---|---|---|---|---|---|
| scripts/syntest/sw/hello_afu.cpp:218-238 | `char byte` is signed on x86-64, so `byte >>= discardBits` sign-extends a byte whose top bit is set. Without the clipping mask (taken only when the field ends inside this byte), `0xff & byte` keeps the copied sign bits. | byte `0xF0`, width 4, field at bit 4 (the values 0 and 15 put at width 4): reads 255 | each field reads back as the `w` bits stored, 15 here (an `unsigned char` byte) | not executed | AfuPacking.SignedGetMisreads | AfuPacking.PutGet |
