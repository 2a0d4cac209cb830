# Rovio firmware and build tools: a verified model

This project models the parts of the Rovio repository whose correctness is hard to see from
the code, and proves what they promise for all inputs, all runs and all reachable states.

| files | component |
|---|---|
| `Words.dfy` | 16- and 32-bit words, saturation, wrap-around, C shifts and bitwise operators as functions on integers |
| `ReferenceOps.dfy` | the reference fixed-point operators of the AMR codec (`BASOP.H`) |
| `FastOps.dfy` | the hand-optimised operators (`basic_op.h`, portable branch) and the exact domains on which they agree with the reference |
| `MacRuns.dfy` | accumulation over sample sequences of any length |
| `PcmQueue.dfy` | the PCM ring between decoder thread and audio callback |
| `Ac97.dfy`, `Pipeline.dfy` | AC97 double buffering, and decoder, ring, driver and DMA buffer working together |
| `Adda.dfy`, `Iis.dfy`, `Ma3.dfy` | the AD/DA, IIS and MA3 driver state machines |
| `ThreeWire.dfy` | the bit-banged serial writer of the AK4569 codec |
| `BuildModules.dfy` | the build module tree and its IDE handle |
| `CommandLine.dfy` | the command-line word encoder |
| `DoubleBuffer.dfy`, `Sequences.dfy` | what several components share |

## Conventions

- A C `int` is an integer in the 32-bit range; every place where the code may wrap is written
  with `Wrap32`. Bitwise operators are recursive functions on two's complement integers, proved
  to act bit by bit (`AndBit`, `OrBit`, `XorBit`, `NotBit`).
- The ARM instructions SMULBB, QADD, QSUB and QDADD stand for their clamped integer meaning, and
  `L_deposit_h` for multiplication by 65536, as its comment says; its body moves the value
  through a 16-bit variable.
- The global Overflow flag is a field of `Flags`, which the operators that write it modify.
- Driver registers are records of the bits the driver uses; status registers are cleared by
  writing ones. Each API call and each interrupt is one atomic step, and an interrupt happens
  only while it is attached. Answers of client callbacks, timeouts, hardware status and reported
  positions are parameters, so every statement holds for all of them.
- Division errors that end the program are results (`DivResult`); exceptions of the build script
  end a run with `ok == false`.

## Where the code differs from its promise

Each of these is stated as an exact condition, with an input that shows the failure.

- The reference shifts call each other for ever when the shift amount is -32768 (`ShiftsReturn`).
- `L_mls` is one too small for v = -32768 and MIN_32 < Lv < MIN_32 + 65536 (`LMlsMeaning`).
- `QL_mda` is right for acc >= 0; below that only if x is not -32768 and the sum is not negative
  (`QLMdaAgrees`, with the values elsewhere in `QLMdaOtherwise`). Its test for x == 0x8000 never fires on a sign-extended x.
- `QPL_shl2`, documented for x >= 0, is right down to -0x20000000 and at -0x60000000 (`QPLShl2Agrees`).
- `Qshl` and `Qshr_r` are right for all x only for left shifts up to 16 (`QshlAgrees`, `QshrRAgrees`), and
  beyond that for exactly those x whose remaining 32 - n low bits read as a value with the sign of x
  (`QshlAgreesAt`, `QshrRAgreesAt`); `Qshr` also lacks the lower clamp (`QshrAgrees`).
- `L_shrsq` and `QL_shr_r` shift nothing for the amount -2^31, whose negation wraps (`LShrsq`, `QLShrR`).
- `_L_shr_r`, `L_shr_rl` and `QL_shr_r` wrap at (MAX_32, 1); `QL_shr_r` also gives -1 instead of 0 for
  negative x and shifts above 31 (`HalfStepAgrees`, `LShrRlAgrees`, `QLShrR`). The comments
  allow a shift of 0, for which the code shifts by -1.
- The macros `mult` and `L_mult` miss the saturation of (-32768, -32768), `div_s` gives 32768 for equal
  operands, and `Mpy_32_16` fails only for hi = n = -32768, lo = 0.
- The comments of `QL_shl6` and `QL_shl7` say "shift == 4"; the code shifts by 6 and 7.
- `sature` clears the Overflow flag when nothing overflows, so the flag is not sticky across it.
- The sample decoder starts playing before it decodes the first frame, so the two requests that fill
  the DMA buffer get whatever the ring held before, and a paced run does not deliver the first
  buffer's worth of decoded bytes (`PrefillGetsLeftovers`, `SessionDelivers`, `PlaySession`); they
  come out a lap later if the decoder stopped within its first lap (`NextLapReplays`). Any request
  gets the stream for all contents if and only if its bytes are produced and not more than one lap
  old (`PacedExactly`).
- A DAC play that is started while recording enables no play channel (`StartIsAudible`).
- The AC97 and AD/DA interrupts call the client once more after its last block
  (`OneMoreThanAsked` for AC97; `OneMoreCallback` for AD/DA, unless a stop comes first); the IIS
  interrupt does not (`SilentAfterLastBlock`).
- A refill that times out in the MA3 interrupt loses the bytes already fetched, because the software
  position advances anyway: bytes are lost exactly when a wait that is reached fails (`DmaIsr`,
  `GivenUpIsShort`, `RunIsrs`), as in the session of `BytesLost`.
- A build run that starts with the IDE open, after an interrupted run, leaves it open exactly when no
  selected module uses it (`ClosedAtEnd`); `LeftOpen` goes through such a pair of runs.

## Model

| member | source | states |
|---|---|---|
| Words.SignsDiffer | Host/AMR/Include/basic_op.h:1214 | `(x ^ y) >> 31` is nonzero exactly when the signs of x and y differ |
| Words.NotAsrNot | Host/AMR/Include/BASOP.H:364-366 | the portable right shift of a negative value is the floor division by a power of two |
| Words.AndSingleBit | Host/AMR/Include/BASOP.H:448 | masking with 1 << k reads the parity of x >> k, for every integer |
| Words.AndMask | Host/AMR/Include/BASOP.H:604 | masking with 2^k - 1 is reduction modulo 2^k, also of negative values |
| Words.LslSign | Host/AMR/Include/basic_op.h:904 | the sign of a 32-bit left shift by n is decided by x mod 2^(32-n) |
| Words.ClampNearest | Host/AMR/Include/BASOP.H:60-79 | saturation gives the nearest value of the width, and no other is as near |
| Words.WrapUnique | Host/AMR/Include/basic_op.h:1137 | a wrapped result is the only 32-bit value with the residue of the exact one |
| Words.BitIsParity | Host/AMR/Include/BASOP.H:448 | bit k is the parity of the value shifted right by k, also of negative values |
| ReferenceOps.Smulbb | Host/AMR/Include/BASOP.H:220 | the product fits in 32 bits and is 2^30 only for (-32768, -32768) |
| ReferenceOps.SumsAndProducts | Host/AMR/Include/BASOP.H:181-281 | the sum, difference, product and accumulation expressions as clamped exact values of their operands, for all operands |
| ReferenceOps.Mult | Host/AMR/Include/BASOP.H:169-179 | the doubled and truncated product is the exact Q15 product rounded down and clamped to 16 bits |
| ReferenceOps.Round | Host/AMR/Include/BASOP.H:202-212 | rounding is the clamped floor of (x + 2^15) / 2^16 |
| ReferenceOps.LMlsMeaning | Host/AMR/Include/BASOP.H:599-616 | the product computed from two halves is the clamped floor of Lv * v / 2^15, except for one family of inputs where it is exactly one less |
| ReferenceOps.Sature | Host/AMR/Include/BASOP.H:60-79 | clamps to 16 bits; the flag afterwards is set exactly when the value was out of range |
| ReferenceOps.ShiftMeaning16 | Host/AMR/Include/BASOP.H:122-167 | a left shift is exact, or the end of the range beyond which the exact product lies; a right shift is the quotient rounded down; the flag condition is that the exact product is missed |
| ReferenceOps.ShiftMeaning32 | Host/AMR/Include/BASOP.H:324-373 | the same for 32 bits |
| ReferenceOps.Shl | Host/AMR/Include/BASOP.H:122-143 | result is clamp16(x * 2^n), or the floor of x / 2^-n for negative n, whatever an undefined power evaluates to; the flag is raised exactly when the exact value is out of range |
| ReferenceOps.Shr | Host/AMR/Include/BASOP.H:145-167 | result is the floor of x / 2^n, or the saturating left shift for negative n, with the same flag |
| ReferenceOps.LShl | Host/AMR/Include/BASOP.H:324-350 | the doubling loop gives clamp32(x * 2^n) for every n and raises the flag exactly on saturation |
| ReferenceOps.LShr | Host/AMR/Include/BASOP.H:352-373 | floor of x / 2^n for every n, or the saturating left shift for negative n, with the same flag |
| ReferenceOps.ShiftsReturn | Host/AMR/Include/BASOP.H:122-167 | the mutual recursion of the shifts returns if and only if the amount is not -32768, and then after at most one delegation |
| ReferenceOps.LastBitRounds | Host/AMR/Include/BASOP.H:385-389 | adding the last bit shifted out, or halving once more after adding one, both give the quotient rounded half up |
| ReferenceOps.RoundsToNearest | Host/AMR/Include/BASOP.H:375-392 | the rounded quotient is at most half a step from the exact one, the upper of two |
| ReferenceOps.ShrR | Host/AMR/Include/BASOP.H:375-392 | floor((x + 2^(n-1)) / 2^n) for every n >= 1, the saturating left shift otherwise |
| ReferenceOps.LShrR | Host/AMR/Include/BASOP.H:438-454 | the same for 32 bits |
| ReferenceOps.NormS | Host/AMR/Include/BASOP.H:498-521 | the loop ends and its count normalises every nonzero x to 16 bits |
| ReferenceOps.NormL | Host/AMR/Include/BASOP.H:570-593 | the loop ends and its count normalises every nonzero x to 32 bits |
| ReferenceOps.NormUnique | Host/AMR/Include/BASOP.H:570-593 | at most one shift normalises a value, so the count is the only possible one |
| ReferenceOps.NormalizedRanges | Host/AMR/Include/BASOP.H:498-593 | a normalised word lies in the ranges given for norm_s and norm_l |
| ReferenceOps.NormalizeAndBack | Host/AMR/Include/BASOP.H:324-373 | shifting by the norm never saturates and shifting back restores the value |
| ReferenceOps.Restoring | Host/AMR/Include/BASOP.H:551-563 | fifteen restoring steps leave quotient and remainder of num * 2^15 by den, with no intermediate overflow |
| ReferenceOps.DivS | Host/AMR/Include/BASOP.H:523-568 | 0 <= 2^15 * a - q * b < b for 0 <= a < b, MAX_16 for a = b, and which of the two errors otherwise |
| ReferenceOps.DivL | Host/AMR/Include/BASOP.H:618-674 | floor(num / (2 * den)) if num < den * 2^16, MAX_16 from there on, and which of the two errors otherwise |
| FastOps.QLAddRefines | Host/AMR/Include/basic_op.h:1208-1219 | the sign-test addition is the reference addition and the clamped exact sum for all operands |
| FastOps.QLSubRefines | Host/AMR/Include/basic_op.h:1245-1256 | the sign-test subtraction is the reference subtraction and the clamped exact difference for all operands |
| FastOps.SignTest | Host/AMR/Include/basic_op.h:1137 | the test on accumulator, product and wrapped sum fires exactly when the sum leaves the 32-bit range |
| FastOps.QLMacRefines | Host/AMR/Include/basic_op.h:1121-1144 | the fast multiply-accumulate is the reference one and clamp32(acc + clamp32(2xy)) for all operands, on either side of the range |
| FastOps.OLMac | Host/AMR/Include/basic_op.h:1096-1119 | the same result; the sticky flag is raised exactly when both operands are -32768 or the exact sum is out of range |
| FastOps.QLMdaAgrees | Host/AMR/Include/basic_op.h:1146-1159 | agrees with the reference accumulation of a square if and only if acc >= 0, or x is not -32768 and the sum is not negative |
| FastOps.QLMdaOtherwise | Host/AMR/Include/basic_op.h:1146-1159 | what it gives elsewhere: one more than the reference for x = -32768, MAX_32 in place of a negative sum |
| FastOps.QLShl | Host/AMR/Include/basic_op.h:1316-1343 | the loop without a flag is the saturating shift for every amount C defines |
| FastOps.ThresholdShifts | Host/AMR/Include/basic_op.h:1355-1395 | the threshold forms for 1, 3, 4, 6 and 7 equal the saturating shift for all x |
| FastOps.QPLShl2Agrees | Host/AMR/Include/basic_op.h:1348-1354 | agrees with the saturating shift if and only if x >= -0x20000000 or x = -0x60000000, and gives the wrapped product below |
| FastOps.QshlAgrees | Host/AMR/Include/basic_op.h:898-910 | among the amounts C defines, agrees for all x if and only if the amount is at most 16 |
| FastOps.QshlAgreesAt | Host/AMR/Include/basic_op.h:898-910 | for one x and amount n: agrees if and only if n <= 0 or x mod 2^(32-n) lies in the half of its range that has the sign of x |
| FastOps.LeftShiftsWrap | Host/AMR/Include/basic_op.h:898-950 | for every x and amount the three forms clamp the 32-bit value with the residue of the exact product |
| FastOps.QshrAgrees | Host/AMR/Include/basic_op.h:939-950 | agrees if and only if the shift is to the right, or x * 2^n is not below -32768 and x mod 2^(32-n) lies in the half of its range that has the sign of x |
| FastOps.LShrsq | Host/AMR/Include/basic_op.h:1461-1499 | for every 32-bit amount result and flag equal those of the reference right shift, except that -2^31 shifts nothing, which is right only for 0 and the two extremes |
| FastOps.ShrRMacroRefines | Host/AMR/Include/basic_op.h:1514 | the add-then-shift macro rounds half up for amounts 1 to 31 |
| FastOps.QshrRAgrees | Host/AMR/Include/basic_op.h:1536-1553 | agrees for all x if and only if the amount is at least -16 |
| FastOps.QshrRAgreesAt | Host/AMR/Include/basic_op.h:1536-1553 | for one x and amount: agrees if and only if the shift is to the right or the kept bits have the sign of x |
| FastOps.HalfStepAgrees | Host/AMR/Include/basic_op.h:1591-1596 | for amounts 1 to 32, all that C defines, rounds half up if and only if not (MAX_32, 1) |
| FastOps.LShrRlAgrees | Host/AMR/Include/basic_op.h:1648-1655 | for all positive amounts rounds half up if and only if not (MAX_32, 1), where it gives -0x40000000 |
| FastOps.QLShrR | Host/AMR/Include/basic_op.h:1657-1702 | for every 32-bit amount equals the reference if and only if not (MAX_32, 1), not (x < 0, amount > 31), and not amount -2^31 with x other than 0 and the extremes; the value in each of these cases; same flag otherwise |
| FastOps.QroundRefines | Host/AMR/Include/basic_op.h:1054-1061 | equals the saturating round for every x |
| FastOps.ProductMacrosAgree | Host/AMR/Include/basic_op.h:959-967 | the product macros agree with the reference if and only if not both operands are -32768 |
| FastOps.NormSLadderRefines | Host/AMR/Include/basic_op.h:1743-1773 | the comparison ladder gives the one normalising shift of every x in 0..32767 |
| FastOps.DivSMacroAgrees | Host/AMR/Include/basic_op.h:1782 | the one-line division agrees on 0 <= x <= y, y > 0 if and only if x is not y |
| FastOps.Mpy3216Agrees | Host/AMR/Include/basic_op.h:1794 | for all operands the value, 2 * hi * n plus twice the floor of lo * n / 2^15; it under-approximates the exact product by at least 0 and less than 2 if and only if not hi = n = -32768, lo = 0, which gives MIN_32 |
| FastOps.AccumulationDisagrees | Host/AMR/Include/basic_op.h:1146-1159 | two inputs on which QL_mda and the reference differ |
| FastOps.ShiftsDisagree | Host/AMR/Include/basic_op.h:939-950 | one input each on which QPL_shl2, Qshr and the half-step rounding differ from the reference |
| FastOps.ProductsDisagree | Host/AMR/Include/basic_op.h:959-967 | the values of mult, L_mult and Mpy_32_16 at the operands where they differ from the reference |
| FastOps.EqualOperandsDisagree | Host/AMR/Include/basic_op.h:1782 | for equal operands div_s gives 32768 where the reference gives 32767 |
| MacRuns.OLMacRun | Host/AMR/Include/basic_op.h:1096-1119 | over any run the flag, once clear, stays clear exactly when no product doubles past MAX_32 and no exact prefix sum leaves 32 bits, and then the accumulator is the exact sum |
| MacRuns.FirstSampleFirst | Host/AMR/Include/basic_op.h:1096-1119 | the samples of a run are accumulated in order, each with both saturations |
| MacRuns.EnergyRun | Host/AMR/Include/basic_op.h:1146-1159 | from any acc >= 0 a run of QL_mda gives min(MAX_32, acc + sum of 2x^2), saturating once at the end |
| MacRuns.EnergyMatchesReference | Host/AMR/Include/basic_op.h:1146-1159 | such a run equals the run of reference accumulations |
| MacRuns.EnergyOrderFree | Host/AMR/Include/basic_op.h:1146-1159 | the saturating energy does not depend on the order of the samples |
| PcmQueue.Newest | Host/AMR/sample/decode.c:189-200 | the stream position a ring position holds: same residue, at most one lap old |
| PcmQueue.RingAppend | Host/AMR/sample/decode.c:189-200 | a write replaces exactly the ring positions after the old end of the stream |
| PcmQueue.FrameInStream | Host/AMR/sample/decode.c:189-200 | the stream is the frames of the history end to end: every frame stands where the bytes decoded before it end |
| PcmQueue.Queue.StoreFrame | Host/AMR/sample/decode.c:189-200 | for every history, also with the tail resting at the ring length, the ring holds byte i of the stream at i mod length and the head is untouched |
| PcmQueue.Queue.PlayCallback | Host/AMR/sample/decode.c:89-106 | for every history hands out exactly the ring bytes at the stream positions that are due and leaves ring and tail untouched |
| PcmQueue.PacedRequestDelivered | Host/AMR/sample/decode.c:89-106 | in every history, whatever happened before or after, a request whose bytes are produced and not more than a lap old is answered with exactly its stretch of the decoded stream |
| PcmQueue.PacedByteDelivered | Host/AMR/sample/decode.c:89-106 | the same for byte k, by the pacing of the one request that holds it |
| PcmQueue.UnpacedMisses | Host/AMR/sample/decode.c:93-104 | a request that is ahead of the decoder, or more than a lap behind, misses the stream for some contents of the frames |
| PcmQueue.PacedExactly | Host/AMR/sample/decode.c:89-106 | a nonempty request gets the stream for all contents of frames and ring if and only if it is paced |
| PcmQueue.DeliversInOrder | Host/AMR/sample/decode.c:89-106 | when every request is paced, everything delivered is a prefix of the decoded stream |
| PcmQueue.PrefillGetsLeftovers | Host/AMR/sample/decode.c:149-162 | in a session that starts playing before decoding, the first two requests are never paced and get the old contents of the ring |
| PcmQueue.SessionDelivers | Host/AMR/sample/decode.c:149-200 | such a session, paced from then on, delivers the stream from the first buffer's worth on, byte for byte |
| PcmQueue.NextLapReplays | Host/AMR/sample/decode.c:89-106 | in every history, a request made while at most one lap is decoded gets byte k of the stream at position one lap after k |
| Ac97.StreamPlacement | Host/Audio/Src/W99702_AC97.c:184-205 | byte k of the concatenated callbacks is placed at offset k mod buffer size |
| Ac97.HalvesTile | Host/Audio/Src/W99702_AC97.c:192-204 | both requested regions lie in the buffer and join without gap or overlap, also across the end of the address space; short of it their addresses are the buffer's and half a buffer further |
| Ac97.OneMoreThanAsked | Host/Audio/Src/W99702_AC97.c:178-194 | a client whose n-th answer ends playing is called exactly once more |
| Ac97.ServedAlways | Host/Audio/Src/W99702_AC97.c:171-209 | a client that never announces a last block is called at every interrupt |
| Ac97.AcceptableBits | Host/Audio/Src/W99702_Audio.c:232-240 | the accepted buffers are those whose address and size have their low five bits clear and whose address has bit 28 set |
| Ac97.Driver.SetPlayBuff | Host/Audio/Src/W99702_Audio.c:232-240 | which buffers are accepted; a change ends the guarantee for the running session |
| Ac97.Driver.StartPlay | Host/Audio/Src/W99702_AC97.c:443-510 | status for every state, prefill of both halves, play bit and interrupt in step with the active flag |
| Ac97.Driver.StopPlay | Host/Audio/Src/W99702_AC97.c:532-556 | status for every state; play bit, interrupt and flag go off together and nothing else of the session changes |
| Ac97.Driver.PlayIsr | Host/Audio/Src/W99702_AC97.c:171-209 | whatever status bits are set, asks for the half whose turn it is, and stops after a last block |
| Ac97.Driver.PlayThrough | Host/Audio/Src/W99702_AC97.c:171-209 | over any answers of the client: strict alternation and the exact number of callbacks |
| Pipeline.DmaHoldsLatest | Host/Audio/Src/W99702_AC97.c:184-205 | the DMA buffer always holds the last delivered bytes, byte k at k mod size |
| Pipeline.EndToEnd | Host/AMR/sample/decode.c:89-106 | over every interleaving, if the request that asked for byte k was paced, the DMA buffer holds byte k of the decoded stream at k mod size while it is among the latest |
| Pipeline.SessionEndToEnd | Host/AMR/sample/decode.c:149-200 | for a session as the decoder starts it, the content of every offset of the DMA buffer at any time: decoded stream from the first buffer's worth on, old ring contents before |
| Pipeline.EventOfStep | Host/AMR/sample/decode.c:149-200 | every frame and every interrupt of a session has its own event, in the order of the session, and there are no others |
| Pipeline.RequestedBySteps | Host/Audio/Src/W99702_AC97.c:184-205 | every interrupt asks for half the buffer and nothing else asks for anything |
| Pipeline.FrameDecodedInTurn | Host/AMR/sample/decode.c:189-200 | the n-th frame of a session is block n of the decoded bytes |
| Pipeline.Playback.StartPlaying | Host/Audio/Src/W99702_AC97.c:443-510 | while playing nothing happens; otherwise, unless the codec refuses, two requests for half the buffer are answered from the ring into the two halves |
| Pipeline.Playback.PlayInterrupt | Host/Audio/Src/W99702_AC97.c:171-209 | one more request for half the buffer is answered into the half whose turn it is, so the requests of the driver remain exactly those the ring answered |
| Pipeline.Playback.ByteInMemory | Host/AMR/sample/decode.c:89-106 | in every state of decoder, driver and ring, byte k of the stream is in the DMA buffer while among the latest if the request that held it was paced |
| Pipeline.Playback.PlaySession | Host/AMR/sample/decode.c:149-200 | for every sequence of frames, interrupts and further starts: the number of bytes asked for is half a buffer for each of the two start requests and each interrupt, the n-th frame is block n of the stream, and if the requests after the prefill are paced, every offset of the DMA buffer holds the decoded byte due there, or an old byte of the ring in the first buffer's worth |
| Adda.PlayIndependent | Host/Audio/Src/W99702_ADDA.c:283-394 | over every run, whether it plays depends on the play calls and interrupts only |
| Adda.RecordIndependent | Host/Audio/Src/W99702_ADDA.c:422-537 | over every run, whether it records depends on the record calls only |
| Adda.RecordsAsWanted | Host/Audio/Src/W99702_ADDA.c:422-537 | over every run it records if and only if the last start or stop of the recording was a start, of either channel |
| Adda.PlaysAsWanted | Host/Audio/Src/W99702_ADDA.c:283-394 | a client that never announces a last block is played to if and only if the last start or stop was a start |
| Adda.CalledPerIrq | Host/Audio/Src/W99702_ADDA.c:83-121 | such a client is called exactly once for every interrupt between a start and a stop |
| Adda.PlaysUntil | Host/Audio/Src/W99702_ADDA.c:83-121 | without a start, playing goes on exactly until the first stop call or the interrupt after one that announced the last block |
| Adda.StartIsAudible | Host/Audio/Src/W99702_ADDA.c:290-299 | after any run, a play start enables the left channel if and only if nothing is recording |
| Adda.RecordingSilencesStart | Host/Audio/Src/W99702_ADDA.c:290-299 | the two orders of starting play and record, and the channel that stays off |
| Adda.OneMoreCallback | Host/Audio/Src/W99702_ADDA.c:83-121 | once the last block was announced, any run without an accepted start calls the client exactly once more if an interrupt comes before a stop and never otherwise, and playing ends with the first of the two |
| Adda.Driver.DacStartPlay | Host/Audio/Src/W99702_ADDA.c:283-343 | follows the abstract step; play flag, enable, run bit, interrupt and clock are on afterwards, the left channel unless something records; leaves the record side alone |
| Adda.Driver.DacStopPlay | Host/Audio/Src/W99702_ADDA.c:365-394 | play flag, enable, run bit, interrupt and channels are off afterwards; the clock stays exactly if something records |
| Adda.Driver.DacPlayIsr | Host/Audio/Src/W99702_ADDA.c:83-121 | the client is called for the half whose turn it is; after a last block playing and interrupt are off, though the call still follows |
| Adda.Driver.AdcStartRecord | Host/Audio/Src/W99702_ADDA.c:422-485 | record flag, enable, run bit, interrupt and clock are on afterwards, on the chosen channel; the play side is left alone |
| Adda.Driver.AdcStopRecord | Host/Audio/Src/W99702_ADDA.c:507-537 | record flag, enable, run bit and interrupt are off afterwards, the clock stays exactly if something plays; only the left channel bit is cleared |
| Adda.Driver.AdcRecIsr | Host/Audio/Src/W99702_ADDA.c:125-157 | the same for the record interrupt; halves alternate |
| Adda.Driver.RunCalls | Host/Audio/Src/W99702_ADDA.c:83-537 | over every run from any valid state: recording exactly as last asked for, clock on exactly when active, each direction's bits and interrupt exactly with its flag, and as many play callbacks as the abstract run counts |
| Iis.SilentAfterLastBlock | Host/Audio/Src/W99702_IIS.c:79-96 | after a nonzero answer no run without an accepted start calls the client again, and playing ends exactly with the first interrupt or stop |
| Iis.RecordsAsWanted | Host/Audio/Src/W99702_IIS.c:329-439 | over every run it records if and only if the last start or stop of the recording was a start |
| Iis.PlaysAsWanted | Host/Audio/Src/W99702_IIS.c:189-302 | a client that never announces a last block is played to if and only if the last start or stop was a start |
| Iis.PlayRoundsServed | Host/Audio/Src/W99702_IIS.c:79-96 | while playing, every half the DMA has finished leads to exactly one callback |
| Iis.RecordRoundsServed | Host/Audio/Src/W99702_IIS.c:104-127 | while recording, every half the DMA has filled is handed out exactly once |
| Iis.Driver.I2sStartPlay | Host/Audio/Src/W99702_IIS.c:189-256 | flag, run bit and interrupt are on afterwards; a start that is accepted asks for both halves and clears status and last block, a refused one changes nothing |
| Iis.Driver.I2sStopPlay | Host/Audio/Src/W99702_IIS.c:278-302 | flag, run bit, interrupt and channels are off afterwards, the status bits stay |
| Iis.Driver.IisPlayIsr | Host/Audio/Src/W99702_IIS.c:72-100 | the half the status bits call for, or none after a last block, when IIS_PLAY and interrupt go off |
| Iis.Driver.I2sStartRecord | Host/Audio/Src/W99702_IIS.c:329-394 | record flag, run bit and interrupt are on afterwards with the channels asked for; the play side is left alone |
| Iis.Driver.I2sStopRecord | Host/Audio/Src/W99702_IIS.c:416-439 | record flag, run bit, interrupt and channels are off afterwards; the play side is left alone |
| Iis.Driver.IisRecIsr | Host/Audio/Src/W99702_IIS.c:104-127 | hands out the half the record status calls for, the lower one first, and clears that bit only |
| Iis.Driver.Dispatch | Host/Audio/Src/W99702_IIS.c:72-439 | any call or interrupt of one direction leaves the other direction's registers and callbacks alone |
| Iis.Driver.RunEvents | Host/Audio/Src/W99702_IIS.c:72-439 | over every run of calls, both interrupts and both DMA status changes, run bits and interrupts are on exactly while their active flags are, and recording is on exactly as last asked for |
| Ma3.TilingPlacement | Host/Audio/Src/W99702_MA3.c:401-424 | in tiling transfers stream byte k goes to ring position k mod 1024 |
| Ma3.Player.StartPlay | Host/Audio/Src/W99702_MA3.c:687-701 | the prefill transfers the whole ring once and the position starts at 0 |
| Ma3.Player.StopPlay | Host/Audio/Src/W99702_MA3.c:754-780 | the interrupt is off in any case, the playing flag only after the wait succeeded |
| Ma3.Player.SetPlayVolume | Host/Audio/Src/W99702_MA3.c:806-811 | both volumes can be read back from the packed word, and the invariant that the chip plays at that volume unless a change is pending is kept |
| Ma3.Player.InitVolume | Host/Audio/Src/W99702_MA3.c:431-432 | starting never leaves the volume at zero, and the chip's headphone settings are the two halves of the word |
| Ma3.Player.Unpacked | Host/Audio/Src/W99702_MA3.c:374-378 | shift and mask give the two volumes of the packed word |
| Ma3.Player.VolumeReachesChip | Host/Audio/Src/W99702_MA3.c:372-380 | a volume that was set is in the chip after the next interrupt that finds it idle |
| Ma3.Player.DmaIsr | Host/Audio/Src/W99702_MA3.c:354-426 | ends at the position of the slower channel, low five register bits times 32: it is one of the two and exceeds neither; fetches exactly the gap; which transfers are started and whether the session has lost bytes, for every outcome of the waits; transfers tile the ring exactly while none timed out |
| Ma3.Player.CatchUp | Host/Audio/Src/W99702_MA3.c:401-424 | the one or two transfers: nonempty, inside the ring, starting where the stream stands, left out exactly when their wait fails |
| Ma3.Player.RunIsrs | Host/Audio/Src/W99702_MA3.c:354-426 | over any number of interrupts and any outcomes of the waits: the final position, whether bytes were lost, and the transfers tile and cover everything fetched if and only if none were |
| Ma3.EndsAtLastReport | Host/Audio/Src/W99702_MA3.c:393-424 | a run ends where the slower channel stood at the last interrupt that found the chip idle |
| Ma3.LosesSomewhere | Host/Audio/Src/W99702_MA3.c:401-424 | a run loses bytes if and only if one of its interrupts gives a refill up |
| Ma3.SentCovers | Host/Audio/Src/W99702_MA3.c:401-424 | a refill writes exactly the ring positions between the software position and the chip, each stretch if its own wait succeeds |
| Ma3.GapLeads | Host/Audio/Src/W99702_MA3.c:401-420 | the bytes fetched lead from the software position to the chip in less than a lap |
| Ma3.GivenUpIsShort | Host/Audio/Src/W99702_MA3.c:401-424 | the transfers of a refill cover fewer bytes than were fetched for it if and only if a wait that is reached fails |
| Ma3.ReadyLosesNothing | Host/Audio/Src/W99702_MA3.c:354-426 | a run in which every wait succeeds loses nothing |
| Ma3.BytesLost | Host/Audio/Src/W99702_MA3.c:401-424 | a session that fetches 32 bytes and never transfers them |
| ThreeWire.BuildCommand | Host/Audio/Src/W99702_AK4569.c:628 | shifts, masks and unions give 0xA000 + (address mod 32) * 256 + data |
| ThreeWire.CommandFields | Host/Audio/Src/W99702_AK4569.c:628 | code, address and data can be read back from the word, which holds nothing else |
| ThreeWire.WaveBits | Host/Audio/Src/W99702_AK4569.c:633-647 | of the 32 writes to the port, the 2k-th and the next carry bit 15 - k, with the clock low and then high |
| ThreeWire.ShiftInBits | Host/Audio/Src/W99702_AK4569.c:633-647 | the receiver shifts bits in at the bottom, so the first of sixteen ends at the top |
| ThreeWire.LevelMeaning | Host/Audio/Src/W99702_AK4569.c:594-609 | volume 0 is silent, 1 to 31 are the levels 165 to 255 in steps of 3, and above that the byte wraps |
| ThreeWire.Gpio.SendBit | Host/Audio/Src/W99702_AK4569.c:634-646 | two port writes with the bit on the data pin, clock low and then high, nothing else moves |
| ThreeWire.Gpio.SendWord | Host/Audio/Src/W99702_AK4569.c:633-647 | a receiver clocks in exactly 16 bits, most significant first, making up the word |
| ThreeWire.Gpio.WriteData | Host/Audio/Src/W99702_AK4569.c:621-650 | for every address, data, initial pins and receiver: the exact writes to the port; first the word of a full frame left open, if there is one, then exactly the command is latched, without data changes at high clock and without moving other pins |
| ThreeWire.Gpio.SetDacVolume | Host/Audio/Src/W99702_AK4569.c:594-609 | the two level registers are latched in order |
| ThreeWire.Gpio.DacSetup | Host/Audio/Src/W99702_AK4569.c:653-668 | the codec latches the whole set-up sequence in order |
| BuildModules.IdsExtend | Build/build_modules.js:564-573 | the ids given to modules are distinct over the whole tree, and the visits are in the order of the ids: a module before its submodules, those before later siblings |
| BuildModules.PreorderComplete | Build/build_modules.js:596-615 | every module some path of indices leads to is visited |
| BuildModules.PreorderSound | Build/build_modules.js:596-615 | every module visited is led to by a path of indices |
| BuildModules.SearchDecides | Build/build_modules.js:40-53 | the search over the tree finds another module exactly if this one runs build_mcp and a selected build_mcp module follows in preorder |
| BuildModules.TraceSafe | Build/build_modules.js:596-615 | for every tree and selection the trace calls each selected module once, in preorder, and creates the IDE only when closed, builds and deletes only when open |
| BuildModules.ProjectsBuilt | Build/build_modules.js:61-97 | for every tree, selection and state of the IDE: every selected project is built exactly once, in preorder, and exactly the bug-warning modules ask |
| BuildModules.WorkInOrder | Build/build_modules.js:61-97 | a selected module is called, then asked about if it warns, then built, before anything is done for the next one |
| BuildModules.OpenedByFirst | Build/build_modules.js:61-66 | when only build_mcp modules use the IDE, it is created once, for the first of them |
| BuildModules.ClosedByLast | Build/build_modules.js:54-58 | and deleted once, for the last of them |
| BuildModules.IdeInBetween | Build/build_modules.js:40-58 | in the middle of any run the IDE is open exactly if its last user runs build_mcp and a selected build_mcp module follows |
| BuildModules.ClosedAtEnd | Build/build_modules.js:54-58 | the IDE is open at the end if and only if it was open at the start and no selected module uses it |
| BuildModules.LeftoverStaysOpen | Build/build_modules.js:54-58 | a selection that leaves an open IDE open |
| BuildModules.Builder.Dump | Build/build_modules.js:522-532 | the recursive dump visits the modules in preorder |
| BuildModules.Builder.BuildMcpProject | Build/build_modules.js:61-97 | completed, the calls are: create unless open, build in any case, delete unless a later selected build_mcp module exists; completes exactly when none of these throws, else stops at the first that does with flag and IDE in step |
| BuildModules.Builder.BuildWithIde | Build/build_modules.js:75-97 | the bug-warning form asks first, and stops there if the question ends the run |
| BuildModules.Builder.BuildServerModule | Build/build_modules.js:110-114 | recursing by itself it produces the same trace as the generic recursion, complete exactly when nothing in it throws |
| BuildModules.Builder.BuildModule | Build/build_modules.js:602-615 | logs the whole trace of its subtree when nothing in it throws, and otherwise exactly what comes before the first call that does |
| BuildModules.Builder.BuildSubmods | Build/build_modules.js:596-600 | the same for a list of submodules |
| BuildModules.Builder.Build | Build/build_modules.js:618-621 | completes if and only if no foreign call of the trace throws, and otherwise stops at the first that does; a completed run calls every selected module's function, asks for every bug-warning module and builds every selected project exactly once in preorder, an interrupted one the first of them; the IDE is where the logged calls drive it, never misused, and its final state is known |
| BuildModules.LeftOpen | Build/build_modules.js:54-58 | an interrupted run followed by a completed one that leaves the IDE open |
| CommandLine.EscapeIsCode | Build/IPCam_Builder.js:54-60 | the three replacement passes encode each character separately |
| CommandLine.CodesAre | Build/IPCam_Builder.js:54-60 | what each single character is escaped to |
| CommandLine.DecodeHash | Build/IPCam_Builder.js:63 | the first pass back decodes exactly the separators, never a match across two codes |
| CommandLine.DecodeDash | Build/IPCam_Builder.js:64 | the second pass decodes exactly the dashes |
| CommandLine.DecodeAt | Build/IPCam_Builder.js:65 | the third pass restores the text |
| CommandLine.RoundTrip | Build/IPCam_Builder.js:54-67 | unescaping undoes escaping for every string |
| CommandLine.EscapedIsSeparable | Build/IPCam_Builder.js:54-60 | escaped text contains no separator and is empty only for the empty word |
| CommandLine.SplitAndRejoin | Build/IPCam_Builder.js:110 | the parts of any line hold no separator and make up the line again with one between them |
| CommandLine.SplitOfJoined | Build/IPCam_Builder.js:110 | the parts of a line of joined words are the escaped words, one for each |
| CommandLine.NonEmptyKeeps | Build/IPCam_Builder.js:113-117 | only the empty words are dropped |
| CommandLine.WordsRecovered | Build/IPCam_Builder.js:110-117 | any list of words escaped and joined is recovered exactly, without its empty words |
| CommandLine.WordsToArgv | Build/IPCam_Builder.js:110-117 | the split and the loop compute exactly that list for every line; a line of words none of which is empty gives exactly those words |

## Left out

- `QL_msu`: it is guarded by a macro that is never defined and uses an undeclared name, so it has no meaning.
- `_QL_mult`: it returns no value for the product 2^30, and is `L_mult` otherwise.
- `L_add_c`, `L_sub_c` and `L_sat`: the first two are plain additions here that no longer set the carry the third one reads.
- `add`, `sub`, `negate`, `abs_s`, `L_negate`, `L_abs`, `mac_r`, `msu_r`, `mult_r`: single clamped expressions whose meaning is their definition.
- Shift amounts that C leaves undefined in the fast forms: each fast form is stated for all amounts C defines.
- The codec itself: only its operators are part of the repository's source.
- Interleavings inside one frame copy or one callback: each is one step, so a torn frame is not modelled.
- Device dispatch, register addresses, codec set-up sequences, delays and polling loops: hardware timing and tables. Timeouts appear as parameters.
- The register encoding of MA3 addresses and sizes in seven-bit groups: the transfers are modelled by ring offset and size.
- AC97 recording: a mirror image of the play path.
- Stopping or changing the buffer in the joint model of decoder, ring and driver: the sample decoder does neither, and its callback never announces a last block.
- AD/DA callback sizes: the second prefill call asks for the whole buffer size from its middle, so only the halves the callbacks start at are modelled.
- The sampling-rate and data-format bits of the IIS control register: lookup tables.
- The regular-expression tokeniser of the command line: it makes no progress on an unterminated quote; only the encoder and the splitting tail are modelled.
- The build functions that copy, sign, pack or compile: foreign calls, which appear as calls that complete or throw.
- The saving of the selection in a cookie and the user interface.
