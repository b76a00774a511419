# compcol: verified models of the codec cores

`compcol` is a Rust collection of compressors, filters and checksums. This project models its algorithmic cores in
Dafny and proves what each is for. A core that rewrites buffers or updates state step by step appears twice: as
methods and classes in the shape of the original (in-place buffers, mutable fields, loops), and as plain functions
that say what those methods compute. The methods are proved equal to the functions; round trips, invariants and
optimality are proved about the functions, for all inputs. What a function should mean is stated a second time without
it, from the format: which positions a filter converts and to what, which codes an encoder may send and what they say,
which interval a coded text stands for, how far an integer logarithm is from the real one. These statements are in the
modules named `…Meaning` and beside them in `ArsenicStream`, `LogAccuracy`, `CrunchGreedy` and `SqueezeHuffman`.

## What is modelled

- **BCJ filters.** `X86Spec`/`X86` are the x86 call/jump converter. A history of the last three byte positions (was
  there an unconverted `E8`/`E9` at that distance, and was its fifth byte `00`/`FF`?) is what `prev_mask` packs. That
  history decides which operands are touched, bounds the complementing loop, and survives decoding, which is why the
  second scan stops at the same places. `RiscVSpec`/`RiscV` do the same for `JAL` and `AUIPC` pairs. `Bcj` is the
  two-queue streaming engine on top. `X86Meaning` says which branches are converted, by a set of positions that there
  is only one of, and that they become absolute modulo 2^25; `RiscVMeaning` says it in the fields of the instruction
  set.
- **BCJ2.** `RangeCoder` reads the encoder's `out`, `cache`, `cache_size` and `low` as one exact integer, so a carry
  is an addition; a coded sequence is an interval of such integers, and the decoder's `code` is its distance from the
  lower end. `Bcj2` splits a program into four streams and joins them again; `Bcj2Meaning` says what is in them by
  positions.
- **Huffman.** `PackageMerge` proves package-merge optimal and its code full, `Huffman` runs it over a pool of coins
  and packages, `CanonicalSpec`/`Canonical` build canonical codes and decode them through a nine-bit table in front of
  a walk.
- **Arsenic.** `InverseBwt` undoes the block sort with a counting sort and a walk; `ArsenicRange` is the adaptive
  range decoder, whose corruption guards cannot be reached on any stream, although its 64-bit register may wrap on
  some. A coded text is an interval of exact integers there, and what is decoded from a stream of it is the text;
  `ArsenicStream` shows that every text has such a stream and that the symbols of a model share out its range.
- **Checksums.** `Crc` compares the four-lane slice-by-8 update with the register that shifts one bit at a time,
  through multiplication modulo the polynomial, and has the residue that data with their own checksum leave; `Adler`
  compares the 32-lane blocks with the recurrence and with the sums RFC 1950 defines.
- **ARC Crunch.** `CrunchSpec` keeps LZW encoder and decoder in lockstep although the decoder's dictionary lags by one
  entry and the two test for a wider code differently; `CrunchBits` carries this to bits; `Crunch` is the encoder over
  an open-addressing table, `CrunchDecoder` the decoder over parent tables. `CrunchMeaning` is about any encoder, any
  width limit, with a clear at any time or never; `CrunchGreedy` about this one's choices.
- **ARC Squeeze.** `SqueezeRle` is the run-length stage, `SqueezeTree` the tree with its Fibonacci depth bound, node
  table and codes, `SqueezeSpec` the payload and its round trip, `SqueezeExact` the exact condition under which the
  encoder makes one, `SqueezeLoss` a text for which it does not, `Squeeze` and `SqueezeDecoder` the running encoder
  and decoder. `SqueezeHuffman` proves that no prefix code makes a shorter payload, `SqueezeMeaning` says what coded
  runs look like.
- **ADC.** `AdcSpec` gives the meaning of tokens and of copies that overlap themselves, `Adc` is the match-finding
  encoder with its eight-bytes-at-a-time comparison, `AdcDecoder` the state machine over a 64 KiB ring, `AdcMeaning`
  any stream of tokens.
- **Brotli context clustering.** `ClusterSpec` has the fixed-point bit costs and the naive clustering that recomputes
  them, `Cluster` the cached one. `LogAccuracy` bounds the costs by the entropy, `ClusterMeaning` says what the merges
  aim at.

`Words` holds 32-bit words, powers of two and sums, `BitStrings` LSB-first bit strings.

## Reading the model

- Machine integers are mathematical integers; wrap-around is written out (`Wrap`, `Signed64`, `% 0x1_0000_0000`), and
  where the code relies on a width that is never exceeded, a proved bound says so. `Crc` and the x86 mask use
  bit-vectors. The RISC-V field tests are shown equivalent to their fields on bit-vectors and used on integers; that
  the two statements of the fields agree is by reading.
- A stream class has ghost fields `fed` and `emitted` for everything accepted and handed out since the start.
  Contracts speak of these, so they hold however a caller slices input and output.
- Both BCJ documentation comments (src/bcj/arch.rs:9-12, src/bcj/mod.rs:29-33) promise the identity for every input.
  For RISC-V it holds for every input exactly at even addresses (`RiscVSpec.EvenExactly`, `Bcj.InverseExactly`), and
  at an odd one for exactly the inputs whose scan comes to no `JAL` (`RiscVSpec.FilterExact`, `Bcj.FilterExact`).
- The Squeeze encoder shifts codes of up to 32 bits into a 32-bit accumulator that may hold seven bits already
  (src/arc_squeeze/mod.rs:408-419), gives no code to a symbol deeper than 32 (:337-340), and counts in 32 bits (:388),
  in the model with wrap-around. Its stream reads back as the symbols sent if and only if none of them lacks its code
  or loses a bit (`SqueezeExact.ReadsExactly`); below 317810 run-length coded bytes that is always so, and for the
  text of `SqueezeLoss`, 2^28 - 2 bytes long, it is not.
- The documentation of `length_limited_huffman` (src/huffman.rs:237-238) names the size of the alphabet as its limit,
  the code (src/huffman.rs:278) tests the number of symbols that occur. The model follows the code.
- Preconditions are the code's own: an x86 window is shorter than 2^32 bytes, a canonical decoder's alphabet has at
  most 4096 symbols (src/huffman.rs:29-34), package-merge alphabets at most 65536 symbols (src/huffman.rs:265),
  clustered blocks fewer than 2^32 literals (src/brotli/encoder_ctx.rs:136), and a final BCJ call brings no input.
  ADC needs no limit on its input: positions are stored modulo 2^32, and every candidate is compared before it is
  used.

## Model

| member | source | states |
|---|---|---|
| X86Spec.FilterInverse | src/bcj/arch.rs:63-154 | from any history that agrees with the bytes, decoding what was encoded (and the reverse) gives the bytes back, with the same closing history and the same number of final bytes |
| X86Spec.OperandInverse | src/bcj/arch.rs:115-137 | the 25-bit operand arithmetic, complemented low bits included, is undone by the other direction; the top byte stays extreme and the shared byte stays ordinary |
| X86Spec.ScanAppend | src/bcj/arch.rs:64-67 | bytes that are final stay so when more bytes follow: scanning in two pieces with the history in between is scanning at once |
| X86Spec.ScanAgrees | src/bcj/arch.rs:97-146 | the history after a scan tells the truth about the bytes that are left |
| X86.MaskReach | src/bcj/arch.rs:112-132 | on every history that allows a conversion the mask is below 16, its bit number is 0 only for an empty mask and otherwise 1 to 3, so neither table index nor shift is out of range |
| X86.MaskAllows | src/bcj/arch.rs:60-114 | the two table tests on the mask hold exactly when the history allows a conversion |
| X86.Decay | src/bcj/arch.rs:97-108 | ageing the mask by the distance to the last opcode packs the history aged by that many bytes |
| X86.ConvertOperand | src/bcj/arch.rs:118-133 | the unbounded loop ends within two rounds and leaves the moved operand |
| X86.Convert | src/bcj/arch.rs:68-153 | in place, exactly the bytes of the scan, which `FilterMeans` describes; the stored mask and position describe the closing history at the returned boundary, or, behind 2^32 - 1 bytes only, one that is 2^32 bytes old where a fresh one is right |
| X86.ScanWrap | src/bcj/arch.rs:98-99 | only addresses modulo 2^32 matter |
| X86Meaning.FilterMeans | src/bcj/arch.rs:68-153 | for every input, address and direction: exactly the branches of a set of positions are converted, and each so that the moved operand is congruent modulo 2^25 to the operand plus, decoding less, the address behind it, its top byte all equal bits; close behind a branch left alone, its complement below the byte that branch shares, where the byte asks for it |
| X86Meaning.MarksUnique | src/bcj/arch.rs:94-146 | the rules for that set (opcode, extreme top byte, no operand over it, no branch left alone at a distance that forbids it) have one solution |
| X86Meaning.OneTarget | src/bcj/arch.rs:116-123 | branches to one place get one operand, wherever they stand |
| Bcj.X86Means | src/bcj/mod.rs:165-250 | what the engine puts out for x86 is the input so converted |
| RiscVSpec.FilterInverse | src/bcj/arch.rs:465-593 | at every even address decoding what was encoded (and the reverse) gives the bytes back over the same instruction boundaries |
| RiscVSpec.PairTest | src/bcj/arch.rs:451-456 | the shift-xor-mask test says: opcode bits 11 and rs1 equal to the AUIPC's rd |
| RiscVSpec.SpecialTest | src/bcj/arch.rs:458-463 | the shifted comparison says: rd x2, the low opcode bits of a converted pair, and an rs1 field other than x0 and x2 |
| RiscVSpec.LinkedInverse | src/bcj/arch.rs:496-527 | a real pair turns into a special one and comes back; a fake pair likewise |
| RiscVSpec.SpecialInverse | src/bcj/arch.rs:511-584 | a special-looking pair turns into a fake one and comes back; a converted pair likewise |
| RiscVSpec.PairLow | src/bcj/arch.rs:451-456 | the pair test reads nothing a later conversion may change |
| RiscVSpec.TurnBack | src/bcj/arch.rs:483-493 | a JAL offset survives both directions if and only if the address is even |
| RiscVSpec.FilterExact | src/bcj/arch.rs:5-12 | an input survives both directions if and only if the address is even or the scan comes to no JAL |
| RiscVSpec.EvenExactly | src/bcj/arch.rs:5-12 | all inputs survive if and only if the address is even, in either direction |
| RiscVSpec.OddAddress | src/bcj/arch.rs:9-12 | eight bytes at address 1 that do not come back |
| RiscVSpec.ScanAppend | src/bcj/arch.rs:466-533 | scanning in two pieces is scanning at once |
| RiscVSpec.ScanEven | src/bcj/arch.rs:466-533 | the scan makes an even number of bytes final |
| RiscVMeaning.FilterAt | src/bcj/arch.rs:465-593 | at every place the scan comes to, the filter leaves what it makes of the instruction there |
| RiscVMeaning.JalRegisters | src/bcj/arch.rs:468-476 | the jumps converted are those with opcode 6F and destination x1 or x5 |
| RiscVMeaning.JalEncoded | src/bcj/arch.rs:476-493 | twice the 20 bits stored, highest first, is the target of the jump modulo 2^21 |
| RiscVMeaning.JalDecoded | src/bcj/arch.rs:536-556 | decoding leaves a jump with the same destination to what is stored |
| RiscVMeaning.PairEncoded | src/bcj/arch.rs:496-527 | a real pair becomes its target modulo 2^32, highest byte first, behind an AUIPC into x2 that carries the rest |
| RiscVMeaning.PairDecoded | src/bcj/arch.rs:557-584 | a converted pair becomes a real one with that register and rest whose target is what was stored |
| RiscVMeaning.FakeEncoded | src/bcj/arch.rs:511-527 | what only looks converted has rest and low bits exchanged, no address being involved |
| RiscVMeaning.FakeDecoded | src/bcj/arch.rs:557-570 | and back |
| RiscVMeaning.OtherKept | src/bcj/arch.rs:465-593 | everything else stays as it is |
| RiscV.Convert | src/bcj/arch.rs:465-606 | in place, exactly the bytes of the scan |
| Bcj.FilterInverse | src/bcj/arch.rs:5-12 | the one-shot filter's two directions are inverse for x86, and for RISC-V at even addresses |
| Bcj.FilterExact | src/bcj/arch.rs:5-12 | which inputs come back: all through x86, and through RISC-V all but those with a JAL from an odd address |
| Bcj.InverseExactly | src/bcj/mod.rs:29-33 | the promise for every input holds for x86, and for RISC-V if and only if the address is even |
| Bcj.ReachedConvert | src/bcj/mod.rs:165-189 | converting what is held and moving on leaves the rest of the one-shot filter's output to be made |
| Bcj.Stream.Step | src/bcj/mod.rs:191-250 | whatever the slices: output so far plus pending is a prefix of the one-shot filter, every byte accepted is handed out, pending or held, done only when the output is the whole filter, and each call uses up its input or its output |
| Bcj.Stream.ConvertHold | src/bcj/mod.rs:165-189 | converting a window keeps the stream faithful; the raw tail is let go on the final call only |
| Bcj.Stream.Reset | src/bcj/mod.rs:145-151 | starts over at the same address |
| RangeCoder.CodeWithin | src/bcj2/mod.rs:348-363 | every later decision stays inside the interval coded so far |
| RangeCoder.RunStream | src/bcj2/mod.rs:319-371 | the stream of any decisions stands for their interval's lower end and begins with a zero byte: no carry reaches it |
| RangeCoder.RangeEnc.ShiftLow | src/bcj2/mod.rs:330-346 | the bytes kept back and `low` stand for the same integer, 256 times as large, carry or not |
| RangeCoder.RangeEnc.EncodeBit | src/bcj2/mod.rs:348-363 | narrows the exact interval by one decision; one normalisation is enough |
| RangeCoder.RangeEnc.Finish | src/bcj2/mod.rs:365-370 | puts out all bytes of the exact integer |
| RangeCoder.DecodeBitTracks | src/bcj2/mod.rs:110-138 | on a stream of the coder's interval the decoder gets the coded bit, keeps its distance from the lower end, and never runs out of bytes |
| RangeCoder.RangeDec.Decode | src/bcj2/mod.rs:110-138 | one bit, the adapted probability and the new registers, or the error with everything unchanged |
| RangeCoder.Bound | src/bcj2/mod.rs:126-127 | with every probability in 31..=2017 and a normalised range both parts of the split stay above 2^16 |
| RangeCoder.AdaptSymmetric | src/bcj2/mod.rs:124-138 | zeros and ones draw the probability alike |
| Bcj2.RoundTrip | src/bcj2/mod.rs:252-307 | decoding the four streams of any input gives it back; the three byte streams together are as long as the input, and the control stream starts with zero |
| Bcj2.SplitLength | src/bcj2/mod.rs:259-307 | no byte is lost or added by the split |
| Bcj2.JoinInverse | src/bcj2/mod.rs:193-249 | from any position on, the decoder's state tracks the encoder's and the rest comes back |
| Bcj2.Encode | src/bcj2/mod.rs:259-307 | the four streams of the split, which `EncodedMeans` describes, the control stream range-coded |
| Bcj2.Decode | src/bcj2/mod.rs:166-250 | for any four streams and length, well-formed or not, the recombined bytes or the first error |
| Bcj2Meaning.EncodedMeans | src/bcj2/mod.rs:259-307 | for every input: the streams by positions of branches, main the input without their operands, call and jump the places they lead to modulo 2^32, highest byte first, and a control bit for every opcode met, coded in the context of its kind and, for a call, of the byte before |
| Bcj2Meaning.MarksUnique | src/bcj2/mod.rs:66-79 | there is one such set of positions: every E8, E9 or 80 to 8F behind 0F outside operands and with four bytes behind it |
| Bcj2Meaning.TwoJumps | src/bcj2/mod.rs:259-371 | the four streams of two jumps, byte by byte |
| PackageMerge.Optimal | src/huffman.rs:253-355 | no lengths within the limit that satisfy Kraft cost less than the slice of 2n - 2 items |
| PackageMerge.Full | src/huffman.rs:278-355 | the slice exists, all lengths lie in 1..=max, and the Kraft sum is exactly one |
| PackageMerge.ChosenNested | src/huffman.rs:337-352 | each symbol's chosen coins form levels 1 to its length without gaps |
| PackageMerge.PrefixCheapest | src/huffman.rs:293-335 | the prefix of the top level is no dearer than any other choice of coins with that capacity |
| PackageMerge.SliceWeight | src/huffman.rs:337-352 | counting coins in the slice gives the lengths, whatever the coins are weighed by |
| PackageMerge.NoOverflow | src/huffman.rs:247-304 | no 64-bit cost wraps |
| Huffman.LengthLimited | src/huffman.rs:253-355 | zero length exactly for zero frequency, lengths within the limit, a full code for two or more symbols, and no cheaper code |
| Huffman.OrderedFacts | src/huffman.rs:261-279 | the symbols that occur, each once, in ascending frequency |
| CanonicalSpec.PrefixFree | src/huffman.rs:357-385 | bits start with the code of at most one symbol |
| CanonicalSpec.CodeReads | src/huffman.rs:357-385 | a symbol's reversed code followed by any bits reads as that symbol |
| CanonicalSpec.CodeFits | src/huffman.rs:82-102 | within the Kraft inequality a code of length l is below 2^l |
| CanonicalSpec.Complete | src/huffman.rs:82-90 | with the code space used up exactly, every long enough run of bits starts with a code |
| CanonicalSpec.NextCode | src/huffman.rs:357-385 | the next symbol of the same length has the next code |
| CanonicalSpec.ShorterFirst | src/huffman.rs:357-385 | a shorter code, whatever follows, stays below every longer one |
| CanonicalSpec.Example | src/huffman.rs:357-385 | the codes of the example in section 3.2.2 of RFC 1951 |
| Canonical.FromLengths | src/huffman.rs:61-156 | refuses exactly lengths over 15 and overfull codes; otherwise counts, places, first codes and lookup table stand for the canonical code |
| Canonical.BuildLut | src/huffman.rs:114-146 | each slot holds the symbol whose short code it begins with, or zero |
| Canonical.Decode | src/huffman.rs:158-208 | finds a symbol if and only if the buffered bits start with its code, by table or walk, and drops exactly its length; otherwise the reader is untouched, and too few bits and invalid code are told apart by the longest length |
| Canonical.ReverseLow | src/huffman.rs:211-222 | the low bits reversed |
| Canonical.CanonicalCodes | src/huffman.rs:361-385 | the canonical code of every symbol in use, in sixteen bits |
| Canonical.CodesKept | src/huffman.rs:378-380 | within the Kraft inequality sixteen bits lose nothing |
| Canonical.StreamReads | src/huffman.rs:10-12 | reading a coded text yields its first symbol and leaves the coded rest |
| Canonical.BufferedReads | src/huffman.rs:3-7 | what can be read from the buffered bits does not depend on later ones |
| Canonical.MergedDecodes | src/huffman.rs:230-235 | lengths from package-merge are accepted, and with enough bits no read fails |
| Canonical.BitReader.Feed | src/bits.rs:25-31 | the byte goes above the buffered bits, within 64 bits |
| Canonical.BitReader.DropBits | src/bits.rs:48-53 | the lowest bits leave |
| InverseBwt.RowLink | src/arsenic/pipeline.rs:266-283 | the sorted positions lead from each row to its left rotation, periodic texts included |
| InverseBwt.WalkSpells | src/arsenic/pipeline.rs:285-303 | the walk from a row spells the rotation of that row |
| InverseBwt.AscendingUnique | src/bwt/mod.rs:39-45 | two ascending arrangements of the same rows agree row by row |
| InverseBwt.CountingSort | src/arsenic/pipeline.rs:266-283 | the stable sort of the block's positions by byte |
| InverseBwt.Inverse | src/arsenic/pipeline.rs:262-303 | for every text whose last column and primary row are given, exactly that text |
| ArsenicRange.AllShipped | src/arsenic/tables.rs:26-88 | all shipped models meet what a rescale needs |
| ArsenicRange.Model.Adapt | src/arsenic/range.rs:91-103 | frequencies stay at least one, their sum is the total and stays within the limit |
| ArsenicRange.Halve | src/arsenic/range.rs:95-102 | the halved frequencies and their sum |
| ArsenicRange.Decoder.DecodeIndex | src/arsenic/range.rs:133-193 | on every stream, whatever the wrapping 64-bit register holds, an index and never an error: the symbol whose slot the distance of the stream's value from the interval's lower end points to, the first one if that is negative and the last one if it is beyond; the interval goes on to that symbol's part, the model is adapted, and a register inside the range stays there |
| ArsenicRange.Decoder.Renormalise | src/arsenic/range.rs:177-189 | the iteration guard is never met; the interval is scaled up until its range is above 2^24, and the register is still the number the stream's bits form, zeros past the end, less the interval's lower end, modulo 2^64 |
| ArsenicRange.Decoder.DecodeBits | src/arsenic/range.rs:203-212 | the number whose bits, highest first, the stream decodes to, and the interval and model after them |
| ArsenicRange.Recovered | src/arsenic/range.rs:133-193 | of a stream whose value lies in a symbol's part of the interval that symbol is decoded |
| ArsenicRange.RoundTrip | src/arsenic/range.rs:133-212 | of any stream whose value lies in the interval of a text the decoder makes that text, all models adapting, rescaling and taking turns as they may |
| ArsenicStream.Partition | src/arsenic/range.rs:146-176 | the symbols' parts lie end to end and fill the interval |
| ArsenicStream.Share | src/arsenic/range.rs:146-176 | each but the last is the symbol's share of the range, short by less than one unit per count |
| ArsenicStream.EveryText | src/arsenic/range.rs:133-193 | every text has a stream, and decoding it gives the text back |
| ArsenicStream.FieldBack | src/arsenic/range.rs:203-212 | a number coded bit by bit is what is decoded from any stream of it |
| ArsenicStream.SignatureBytes | src/arsenic/range.rs:105-212 | all streams that begin with 'A' and 's' begin with the bytes 42 C1 |
| ArsenicRange.Decoder.Select | src/arsenic/range.rs:156-165 | the slot of the frequency line and what lies below it, the first slot for points before the line |
| Crc.Crc32.Update | src/checksum.rs:158-203 | lanes, chunks and tail together are the bit-at-a-time register over all bytes, whose polynomial `Residue` and `Divisor` fix |
| Crc.CrcAppend | src/checksum.rs:158-159 | splitting the data across calls changes nothing |
| Crc.CrcLinear | src/checksum.rs:164-170 | a register's own share passes through the data as over zero bytes |
| Crc.MulPower | src/checksum.rs:325-346 | multiplying by x^n mod P is n shifts |
| Crc.MulComm | src/checksum.rs:348-370 | multiplication modulo the polynomial commutes |
| Crc.MultModP | src/checksum.rs:355-370 | the loop computes the product |
| Crc.JoinLanes | src/checksum.rs:187-189 | two stretches join by one multiplication and one exclusive or |
| Crc.Step8 | src/checksum.rs:292-305 | eight table lookups fold in eight bytes |
| Crc.BuildTables | src/checksum.rs:239-283 | table n holds each byte advanced by n + 1 byte positions |
| Crc.PowerOfLane | src/checksum.rs:325-346 | x^(8 LANE) mod P |
| Crc.Residue | src/checksum.rs:158-209 | data followed by four bytes leave the register at DEBB20E3 if and only if these are their checksum, lowest byte first |
| Crc.Divisor | src/checksum.rs:239-283 | x^32 is the sum of the powers 26, 23, 22, 16, 12, 11, 10, 8, 7, 5, 4, 2, 1 and 0 |
| Crc.CheckValue | src/checksum.rs:19-22 | the checksum of "123456789" |
| Adler.Adler32.Update | src/checksum.rs:55-105 | the blocked sums are the recurrence reduced after every byte |
| Adler.Adler32.Block | src/checksum.rs:64-102 | one block of lanes and tail |
| Adler.Postpone | src/checksum.rs:58-61 | reductions may wait to the end of a run |
| Adler.RawClosed | src/checksum.rs:80-94 | what each byte adds to both sums |
| Adler.Definition | src/checksum.rs:55-110 | both sums as section 9 of RFC 1950 defines them, modulo 65521 |
| Adler.KnownValue | src/checksum.rs:387-390 | the checksum of "Wikipedia" |
| Adler.Adler32.Finalize | src/checksum.rs:107-110 | the two sums in the halves of 32 bits |
| Adler.FoldChunks | src/checksum.rs:65-94 | the lanes folded back are the unreduced recurrence, reduced once |
| Adler.FitsSum | src/checksum.rs:58-61 | no 64-bit sum of a block wraps |
| CrunchSpec.TokensRoundTrip | src/arc_crunch/mod.rs:187-604 | the decoder reads every code at the width it was written in, and the text comes back |
| CrunchSpec.CatchUp | src/arc_crunch/mod.rs:229-605 | reading the encoder's current code, entered already or not, brings the decoder's dictionary level |
| CrunchSpec.Follows | src/arc_crunch/mod.rs:225-242 | after every byte the decoder lags by exactly the newest entry and bumps to the same width, also across a clear |
| CrunchSpec.StepSound | src/arc_crunch/mod.rs:551-603 | on any stream the dictionary stays sound and within its limit |
| CrunchBits.RoundTrip | src/arc_crunch/mod.rs:187-605 | decoding a payload yields the text and leaves only padding |
| CrunchBits.RunAppend | src/arc_crunch/mod.rs:424-439 | bits may arrive in pieces |
| CrunchBits.OnePayload | src/arc_crunch/mod.rs:251-348 | a text has one payload, however the encoder is fed or drained |
| CrunchMeaning.AnyEncoder | src/arc_crunch/mod.rs:508-605 | for every limit from nine bits on and any lawful codes, with clears at any time or never: read at the least width that holds the next free code, they decode to what they mean, the k-th code since a clear with the first byte of the next one being entry 257 + k |
| CrunchMeaning.Unlawful | src/arc_crunch/mod.rs:551-603 | a code that is not lawful where it stands is refused |
| CrunchMeaning.OneWidth | src/arc_crunch/mod.rs:508-605 | there is one such width |
| CrunchGreedy.Greedy | src/arc_crunch/mod.rs:225-293 | with one byte more, the encoder sends nothing if some code means match and byte together; otherwise it sends the match, which becomes an entry with the byte, and the clear code after entry 4095 |
| CrunchGreedy.TextOnce | src/arc_crunch/mod.rs:198-216 | no two codes mean the same |
| CrunchGreedy.SixLetters | src/arc_crunch/mod.rs:187-348 | the payload of six letters 'a', byte by byte |
| Crunch.Lookup | src/arc_crunch/mod.rs:198-211 | linear probing ends, and finds the code of an entry exactly if it is in the dictionary |
| Crunch.Inserted | src/arc_crunch/mod.rs:213-216 | filling the slot the search ended at adds the entry and loses no other |
| Crunch.Encoder.EmitCode | src/arc_crunch/mod.rs:187-196 | bytes and accumulator together hold exactly the codes sent |
| Crunch.Encoder.MaybeWiden | src/arc_crunch/mod.rs:225-242 | widens, or clears a full dictionary |
| Crunch.Encoder.EncodeByte | src/arc_crunch/mod.rs:269-293 | one step of the encoder, table and bits kept in step |
| Crunch.Encoder.Encode | src/arc_crunch/mod.rs:252-309 | accepts a prefix of the input, all of it unless the output is full; everything accepted is sent or in the current match |
| Crunch.Encoder.Finish | src/arc_crunch/mod.rs:311-348 | when done, what was handed out is the payload of what was accepted |
| CrunchDecoder.Decoder.DecodeString | src/arc_crunch/mod.rs:441-487 | the text of a code; its guards never fire |
| CrunchDecoder.Decoder.Decode | src/arc_crunch/mod.rs:508-605 | short of a full output, everything the accepted bytes decode to has been handed out; corruption is reported exactly for a code that cannot be |
| CrunchDecoder.Delivered | src/arc_crunch/mod.rs:508-605 | however a payload is cut up, no beginning of it is refused, whoever has caught up with a beginning has a beginning of the text, and with all of it, the text |
| CrunchDecoder.TextLength | src/arc_crunch/mod.rs:411-413 | a code's text fits the scratch buffer |
| SqueezeRle.RoundTrip | src/arc_squeeze/mod.rs:106-196 | undoing the run-length stage gives the text back and leaves nothing pending |
| SqueezeRle.RleEncode | src/arc_squeeze/mod.rs:109-139 | runs, literal flags and other bytes coded as specified |
| SqueezeRle.RleDecoder.FeedByte | src/arc_squeeze/mod.rs:159-190 | one coded byte, or a count with nothing to repeat |
| SqueezeMeaning.RunByRun | src/arc_squeeze/mod.rs:106-139 | every run, as long as it can be, is coded by itself: flags each escaped, others in repeats of 255 and the rest as a repeat if three or more |
| SqueezeMeaning.AnyChunks | src/arc_squeeze/mod.rs:141-196 | plain bytes, escaped flags and repeats, whoever coded them, are undone to what they say |
| SqueezeMeaning.TwoLetters | src/arc_squeeze/mod.rs:546-666 | a stream with a one-node table, byte by byte |
| SqueezeTree.FibWeight | src/arc_squeeze/mod.rs:247-273 | a tree of height h built by merging the lightest items weighs at least F(h + 2) |
| SqueezeTree.DepthBound | src/arc_squeeze/mod.rs:247-273 | below a total weight of 317811 no code is longer than 25 bits |
| SqueezeTree.PopMin | src/arc_squeeze/mod.rs:250-260 | removes the lightest item, the oldest of several |
| SqueezeTree.BuildNodes | src/arc_squeeze/mod.rs:208-276 | a tree with every used symbol once and the whole weight, the lighter child on the left: the one a plain queue gives, where the first of the lightest leave and their parent joins at the end; a single symbol is doubled |
| SqueezeTree.Renumber | src/arc_squeeze/mod.rs:281-322 | the same tree with the root first and all references in range |
| SqueezeTree.Assign | src/arc_squeeze/mod.rs:327-341 | a symbol's code is a path to it, and every symbol with a leaf within depth 32 gets one |
| SqueezeTree.WordOf | src/arc_squeeze/mod.rs:208-347 | a symbol's code is a path to it from the root; one without a code has no leaf within depth 32 |
| SqueezeTree.ShortWord | src/arc_squeeze/mod.rs:208-347 | below a total weight of 317811 every used symbol has a code of 1 to 25 bits |
| SqueezeTree.PathUnique | src/arc_squeeze/mod.rs:208-276 | there is one path to each symbol |
| SqueezeHuffman.MergingOptimal | src/arc_squeeze/mod.rs:208-276 | no code lengths that satisfy Kraft's inequality cost less than merging the two lightest |
| SqueezeHuffman.TreeOptimal | src/arc_squeeze/mod.rs:208-276 | so no prefix code for the symbols that occur is cheaper than the depths of the tree |
| SqueezeHuffman.ShortestPayload | src/arc_squeeze/mod.rs:381-432 | and no other prefix code makes the coded bytes with their end marker shorter |
| SqueezeSpec.RoundTrip | src/arc_squeeze/mod.rs:381-432 | decoding a payload gives the text back with less than a byte of padding left |
| SqueezeSpec.RunAppend | src/arc_squeeze/mod.rs:613-666 | bits may arrive in pieces |
| SqueezeSpec.RunCoding | src/arc_squeeze/mod.rs:613-666 | the coded bytes take the decoder back to the root with those bytes through the run-length stage |
| SqueezeSpec.TableBack | src/arc_squeeze/mod.rs:395-590 | the node table survives serialisation |
| SqueezeExact.FitsExactly | src/arc_squeeze/mod.rs:381-432 | the stream is a payload if and only if every code sent is there and no emission shifts a bit out of the accumulator |
| SqueezeExact.ReadsExactly | src/arc_squeeze/mod.rs:408-426 | the bits read back as the symbols sent and the end marker if and only if every code is there and whole |
| SqueezeExact.TextExactly | src/arc_squeeze/mod.rs:381-432 | where run-length coding leaves no flag, the text comes back if and only if every code is there and whole |
| SqueezeExact.RunReads | src/arc_squeeze/mod.rs:613-666 | the decoder ends exactly if the end marker is read behind bytes the run-length stage takes, and its output is theirs |
| SqueezeExact.ShortFits | src/arc_squeeze/mod.rs:408-419 | codes of at most 25 bits always fit |
| SqueezeExact.SmallFits | src/arc_squeeze/mod.rs:381-432 | below 317810 run-length coded bytes every code sent is there and whole |
| SqueezeExact.NoLoss | src/arc_squeeze/mod.rs:408-419 | a code of at most 25 bits loses nothing in the 32-bit accumulator |
| SqueezeLoss.TextLoses | src/arc_squeeze/mod.rs:408-419 | in two ruler texts of order 27 the last byte 27 loses its only set bit |
| SqueezeLoss.TextLost | src/arc_squeeze/mod.rs:381-432 | that text does not come back from what the encoder makes of it |
| Squeeze.Body | src/arc_squeeze/mod.rs:406-428 | the bits of all codes as the accumulator lets them through, zero-padded |
| SqueezeExact.FreqsTotal | src/arc_squeeze/mod.rs:385-390 | fewer than 2^32 coded bytes are counted without overflow and add up with the end marker |
| Squeeze.Encoder.Build | src/arc_squeeze/mod.rs:381-432 | node table and coded bytes: a payload of the input if and only if every code sent is there and whole, and always below 317810 run-length coded bytes |
| Squeeze.Encoder.Finish | src/arc_squeeze/mod.rs:460-481 | hands out the payload; done once nothing is left |
| SqueezeDecoder.Decoder.ParseHeader | src/arc_squeeze/mod.rs:546-609 | done exactly when count and table are there; refuses what can never decode |
| SqueezeDecoder.Decoder.Pump | src/arc_squeeze/mod.rs:611-666 | stops at the end marker, a full queue or the last bit, or at data that cannot be |
| SqueezeDecoder.Decoder.Decode | src/arc_squeeze/mod.rs:694-737 | short of a full output, everything the accepted bytes decode to has been handed out, and done means the end marker was read |
| SqueezeDecoder.Delivered | src/arc_squeeze/mod.rs:694-737 | however a payload is cut up, no beginning of it is refused, whoever has caught up with a beginning has a beginning of the text, and with all of it, the text |
| AdcSpec.CopyRepeats | src/adc/mod.rs:28-30 | text that repeats at a distance is what the byte-by-byte copy makes, overlap included |
| AdcSpec.CopySlice | src/adc/mod.rs:469-471 | a copy no longer than its distance is a plain slice |
| AdcSpec.RunLiterals | src/adc/mod.rs:549-571 | a literal run may arrive in pieces |
| AdcSpec.ShortMatch | src/adc/mod.rs:242-249 | the short token decodes to the copy it was made for |
| AdcSpec.LongMatch | src/adc/mod.rs:250-262 | the long token decodes to the copy it was made for |
| Adc.FirstDifference | src/adc/mod.rs:111-114 | the zeros below the lowest bit of the exclusive or, in bytes, are the equal bytes before the first difference |
| Adc.MatchForward | src/adc/mod.rs:98-121 | eight bytes per step with the scalar loop's result |
| Adc.FindMatch | src/adc/mod.rs:193-227 | a match exactly if enough bytes repeat from the candidate within reach, whatever the hash table holds, and then the longest one token can say |
| Adc.FlushLiterals | src/adc/mod.rs:177-190 | literal tokens for exactly the pending bytes |
| Adc.Build | src/adc/mod.rs:153-290 | for every input a token stream that decodes to it |
| Adc.Encoder.Finish | src/adc/mod.rs:333-360 | when done, what was handed out decodes to the input |
| AdcDecoder.RingWritten | src/adc/mod.rs:431-467 | after a write around the end the ring holds the last bytes handed out |
| AdcDecoder.RingSlice | src/adc/mod.rs:472-483 | a read in one piece or two is the slice of the output that far back |
| AdcDecoder.Decoder.CopyBulk | src/adc/mod.rs:469-497 | the bulk copy is the byte-by-byte copy |
| AdcDecoder.Decoder.CopyOn | src/adc/mod.rs:515-547 | a copy goes on where a full output stopped it |
| AdcDecoder.Decoder.Decode | src/adc/mod.rs:506-639 | short of a full output everything the accepted bytes decode to is out, however they are sliced; a distance too far back is refused, and only then |
| AdcDecoder.Delivered | src/adc/mod.rs:506-639 | however a finished stream is cut up, no beginning of it is refused, whoever has caught up with a beginning has a beginning of the text, and with all of it, the text |
| AdcSpec.RunParts | src/adc/mod.rs:506-639 | the beginning of an accepted stream is accepted and decodes to the beginning of its text |
| AdcMeaning.AnyTokens | src/adc/mod.rs:9-30 | any tokens within their limits, each form by its bytes, decode to the text they tell |
| AdcMeaning.TooFar | src/adc/mod.rs:584-639 | a distance beyond the beginning of the text is refused in either form |
| ClusterSpec.LogMonotone | src/brotli/encoder_ctx.rs:81-94 | the interpolated logarithm is monotone, so no difference of logarithms is negative |
| LogAccuracy.LogAccurate | src/brotli/encoder_ctx.rs:81-94 | 256 log2(x) is never below the fixed-point logarithm and less than 24 above it, stated in powers |
| LogAccuracy.LogOctave | src/brotli/encoder_ctx.rs:81-94 | between 256 and 511 it is linear |
| LogAccuracy.LogDoubles | src/brotli/encoder_ctx.rs:81-94 | doubling adds 256 |
| LogAccuracy.LogHalves | src/brotli/encoder_ctx.rs:81-94 | from 512 on the lowest bit does not count; the three determine it |
| LogAccuracy.CostAccurate | src/brotli/encoder_ctx.rs:66-111 | a cost is within 24 for each literal of 256 times the information of the histogram |
| LogAccuracy.BitsAccurate | src/brotli/encoder_ctx.rs:63-79 | so is the cost of a whole histogram, of its entropy |
| ClusterSpec.CostFits | src/brotli/encoder_ctx.rs:63-111 | every cost is non-negative and far below 64 bits |
| ClusterSpec.BestUnique | src/brotli/encoder_ctx.rs:192-209 | scan order and strict comparison single out one pair |
| ClusterSpec.RunUnique | src/brotli/encoder_ctx.rs:162-169 | the naive algorithm has one run from every start |
| ClusterSpec.RunGathered | src/brotli/encoder_ctx.rs:214-225 | after every merge each surviving histogram is the sum of its contexts' original ones |
| ClusterSpec.MergedTotals | src/brotli/encoder_ctx.rs:214-226 | merging loses no literal |
| ClusterMeaning.StepPays | src/brotli/encoder_ctx.rs:121-226 | a merge leads to the cheapest of all models one merge away, headers counted at 140 bits a tree, and to a dearer one only above the limit |
| ClusterMeaning.StopPays | src/brotli/encoder_ctx.rs:210-213 | where the merging stops with more than one tree, they are few enough and every merge would cost more |
| ClusterMeaning.CostReported | src/brotli/encoder_ctx.rs:237-258 | there is one number for each surviving cluster, and the cost reported is that estimate in whole bits |
| Cluster.HistogramBits | src/brotli/encoder_ctx.rs:66-79 | the cost of a histogram, summed symbol by symbol, that `BitsAccurate` bounds by the entropy |
| Cluster.MergedBits | src/brotli/encoder_ctx.rs:97-111 | that cost of the sum of two histograms, every 32-bit sum below 2^32 |
| Cluster.State.FindBest | src/brotli/encoder_ctx.rs:188-209 | the pair found in the cache is the one the naive scan finds |
| Cluster.State.Merge | src/brotli/encoder_ctx.rs:214-235 | after refreshing one row every cached cost is again what recomputing would give |
| Cluster.Densify | src/brotli/encoder_ctx.rs:238-249 | contexts share a tree number exactly if they share a cluster, and the numbers are dense, in the order they first appear |
| Cluster.ClusterContexts | src/brotli/encoder_ctx.rs:128-267 | the cached clustering is the naive run, of which `StepPays` and `StopPays` speak: its histograms, at most max(1, max_trees) trees, a dense map and the cost estimate |

## Left out

- X86.Convert: for a window of exactly 2^32 - 1 bytes the contract allows a stored history that is 2^32 bytes old, and does not say when it occurs; the bytes are exact, and the streaming engine's windows have at most 16.
- SqueezeExact.TextExactly: for inputs whose run-length coding uses the flag, the exact condition is proved for the symbols that are read back, not for the text, because different coded bytes can stand for the same text.
- Bcj.FilterInverse: speaks of x86 and RISC-V, not of the fixed-width architectures.
- The fixed-width BCJ architectures (ARM, Thumb, ARM64, PowerPC, SPARC, IA-64): one aligned add or subtract each, easy beside x86 and RISC-V.
- The BCJ engine's final call with input still to come: no caller makes it.
- Arsenic's token loop, move-to-front table, derandomisation and final run-length layer, and the forward block sort; its `decode_bits` and models are there, its constant randomisation table is not.
- `raw_reset` of Crunch, Squeeze and ADC, and their decoders' finish calls; Crunch's byte-queue type is a sequence with a head index inside the encoder.
- The brotli decoder's `HuffmanDecoder` and `BitSource`, and the brotli encoder's optimal parse, dictionary matcher, context tallying and meta-block writer; the copy of package-merge in src/brotli/encoder_huffman.rs.
- Squash, deflate, bzip2, LZX and the other codecs; `BitReader`'s byte alignment and hand-back, and the bit writer.
- `BitReader::peek` of 64 bits, which its callers never ask for.
- Command line, I/O adapters, codec factory, size-limited decoding, allocation and speed.
