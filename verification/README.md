# Verified models of the runtime's exact arithmetic, state machines and tables

The project models four parts of the repository and proves what they are for.

**Exact decimal floating point** (`Arith`, `Limbs`, `Bignum`, `Division`, `Exact`, `Ieee`, `Rounding`, `DecimalText`,
`Powers`, `Strtod`, `Scaling`, `Format`, `RoundTrip`, `ReaderLimits`, `NumeralTexts`, `FormatTexts`). A class over a
480-limb array with the kernel's in-place loops, a decimal reader that rounds once, and an exact e/f/g printer.
Doubles are bit patterns with exact real values; "nearest" is the round-half-even of section 4.3.1 of IEEE 754-2019.
The main results: every decimal text is read to the nearest double (with the exact exception of a sliver above
2^-1075), every double is printed as its exact half-even rounding, and 17 digits read back to the same bits.

**Runtime state machines** (`Dns`, `FileLock`, `Reactor`, `ReactorRuns`, `ReactorOnce`, `ReactorAnswers`,
`DispatchRing`, `SharedTable`, `TableRuns`, `Leases`, `RateLimit`, `Schema`, `SchemaTexts`, `Utf`). Step-level
interleavings for the DNS hand-off, the creation of its mutex included, and for the file-lock table; classes with
in-place arrays or chains for the reactor, the ring and the shared table, each tied to a simple abstract state, with
theorems over whole runs; the reactor's runs joined with those of the hand-off; the schema parser and its row layout;
the UTF-8/UTF-16 pair.

**Digests** (`Digest`). Streaming and one-shot Merkle-Damgard hashing and HMAC over an uninterpreted block function.

**ELF symbol localization** (`ElfLocalize`, `ObjectBytes`). The in-place rebind, the stable partition and the
relocation remap on the bytes of the object file.

`dafny verify dfyconfig.toml` checks everything.

Where a promise does not hold of the code the project states the exact condition and an input or a run that shows it:

- a text whose value is just above 2^-1075 reads as zero (`Rounding.Round64`, `ReaderLimits.ReadGap`);
- more than 1100 digits (`ReaderLimits.KeptIsWritten`, `ReaderLimits.ReadLong`);
- the DNS hand-off with a mutex created on first use (`Dns.ReliableExactlyWhenReady`, `Dns.FirstUseLosesJob`);
- file-lock handles of generation 2^31 and above (`FileLock.UnlockableWhen`, `FileLock.RefusedHandle`);
- -1 from a timed receive (`ReactorRuns.TimeoutsOnlyWhen`, `ReactorRuns.ErrorBeforeDeadline`);
- an accept woken for nothing in a poll round (`ReactorAnswers.SpuriousAccept`);
- encoded surrogates (`Utf.BytesSurvive`, `Utf.EncodedSurrogate`).

The rate limiter's bound is one below twice the limit, and exact. The header comment of `elf_localize.py` speaks of
binding edits that leave relocations valid; the code also renumbers the table and remaps the relocations, and the
model follows the code.

## Model

| member | source | states |
|---|---|---|
| `Bignum.NBig.Trim` | scripts/crossboot/stub.c:808-810 | dropping leading zero limbs keeps the value and leaves the number normalized |
| `Bignum.NBig.BitLength` | scripts/crossboot/stub.c:818-825 | the result is the bit length of the value, 0 for 0 |
| `Bignum.NBig.MulAdd` | scripts/crossboot/stub.c:827-839 | the value becomes value*m + a, one more limb at most, provided the product fits 480 limbs; the 64-bit accumulator never wraps and limbs above the number are untouched |
| `Bignum.NBig.MulBig` | scripts/crossboot/stub.c:841-866 | the value becomes the product of the two operands, which may use at most 480 limbs together |
| `Bignum.NBig.AddRow` | scripts/crossboot/stub.c:847-863 | one row of the schoolbook product adds exactly a[i] * b * 2^(32i), carry ripple included |
| `Bignum.NBig.ShrSticky` | scripts/crossboot/stub.c:868-887 | the value is shifted right by sh and the flag is set exactly when a dropped bit was set; vacated limbs are zero, limbs above stay |
| `Bignum.NBig.Cmp` | scripts/crossboot/stub.c:1043-1053 | the sign of the result is the order of the two values, whatever their limb counts |
| `Bignum.NBig.Sub` | scripts/crossboot/stub.c:1055-1065 | for a minuend no smaller than the subtrahend the value becomes their difference |
| `Bignum.NBig.SetU64` | scripts/crossboot/stub.c:1228-1234 | a 64-bit number is stored exactly, in one limb or two |
| `Bignum.NBig.Inc` | scripts/crossboot/stub.c:1239-1250 | the value grows by one, given that the limb above the top is zero when the carry may leave the top |
| `Bignum.NBig.Shl` | scripts/crossboot/stub.c:1252-1272 | the value becomes value * 2^sh for every shift that keeps it inside 480 limbs |
| `Bignum.NBig.ShiftIn` | scripts/crossboot/stub.c:1003-1013 | the in-place doubling of the remainder loop: the value becomes 2*value + bit |
| `Bignum.NBig.SetBit` | scripts/crossboot/stub.c:1301-1304 | setting bit i of a quotient whose lower bits are clear adds 2^i |
| `Bignum.NBig.DivModSmall` | scripts/crossboot/stub.c:1313-1324 | quotient left in place and remainder below the divisor: old value = quotient * d + r |
| `Bignum.NBig.LowPartOf` | scripts/crossboot/stub.c:1419-1429 | the copy of the low limbs, last one masked, is the value modulo 2^b |
| `Bignum.NBig.Add` | scripts/crossboot/stub.c:1441-1454 | the limb loop with carry adds the two values exactly |
| `Bignum.NBig.Double` | scripts/crossboot/stub.c:1455-1464 | the limb loop with carry doubles the value exactly |
| `Limbs.ShrValue` | scripts/crossboot/stub.c:868-887 | limb-wise right shift, word moves and bit moves together, is division by a power of two of the limb value |
| `Limbs.ShlValue` | scripts/crossboot/stub.c:1252-1272 | limb-wise left shift is multiplication by a power of two of the limb value |
| `Bignum.StickyMeaning` | scripts/crossboot/stub.c:868-887 | the flag collected from whole limbs and one partial limb says that the value modulo 2^sh is nonzero |
| `Division.NbDivMod` | scripts/crossboot/stub.c:1277-1311 | num = quot*den + rem with rem < den for every num and den > 0, also with quot aliasing num when num is not shorter in bits than den; the quotient's cleared upper limbs stay zero |
| `Division.DivideBits` | scripts/crossboot/stub.c:1295-1307 | the restoring bit loop over a cleared quotient ends with num = quot*den + r and r < den |
| `Division.Pow5Cache.Pow5` | scripts/crossboot/stub.c:889-904 | the result is 5^e for e up to 1600 after any history of calls, and the cache keeps holding the power its index says |
| `Ieee.NearestUnique` | scripts/crossboot/stub.c:906-961 | two bit patterns that are both nearest to a value with ties to even are the same: correct rounding (section 4.3.1 of IEEE 754-2019) determines the bits |
| `Ieee.NearestMonotone` | scripts/crossboot/stub.c:906-961 | of two values the larger never rounds to the smaller double |
| `Ieee.NearestExact` | scripts/crossboot/stub.c:906-961 | a double, as a value, has itself as its nearest double |
| `Ieee.RoundOnGrid` | scripts/crossboot/stub.c:927-958 | rounding the scaled value half to even on the grid of its binade gives the nearest double, denormals and the carry into a new binade included |
| `Exact.HalfEvenQuotient` | scripts/crossboot/stub.c:1371-1374 | comparing twice the remainder with the divisor, ties to the even quotient, is rounding the exact quotient half to even |
| `Rounding.Round64` | scripts/crossboot/stub.c:908-961 | from a quotient prefix, its sticky flag and its exponent: the nearest double of the exact value, with overflow to infinity and denormals, or 0 exactly inside the gap just above 2^-1075 where line 916 ignores the flag; sign in bit 63 |
| `Rounding.RoundKept` | scripts/crossboot/stub.c:921-958 | the rounding proper: mantissa width by exponent, half-even bump, binade carry and field assembly give the nearest double; the promotion branch of line 954 is never taken |
| `Rounding.KeptNearest` | scripts/crossboot/stub.c:927-939 | the kept bits after the bump are the nearest double on the grid of that binade |
| `Rounding.GapMeans` | scripts/crossboot/stub.c:913-920 | a value this small is in the gap exactly when the 56-bit prefix is a power of two and the sticky flag is set |
| `Rounding.RoundBig` | scripts/crossboot/stub.c:964-987 | m * 2^s for any m and s: the same result, early clamps included |
| `Rounding.RoundDiv` | scripts/crossboot/stub.c:995-1041 | N / D * 2^s for any N and D > 0: the same result |
| `Rounding.QuotientPrefix` | scripts/crossboot/stub.c:1002-1036 | prefix division: the quotient bits are the leading bits of N/D, at least 56 of them unless N is 0, and the flag says whether the true quotient has a nonzero tail |
| `Rounding.DividePrefix` | scripts/crossboot/stub.c:1002-1022 | the loop reaches a 56-bit quotient before its lower bound ends it, with the exact remainder of the bits fed so far |
| `Rounding.PrefixApprox` | scripts/crossboot/stub.c:1023-1039 | prefix, flag and exponent bracket the exact quotient: q <= N/D*2^k < q+1, strict exactly when the flag is set |
| `DecimalText.ParseRendered` | scripts/crossboot/stub.c:1139-1207 | a rendered numeral (sign, digits, optional point, optional exponent) is read back as its own parts, to its last character |
| `Strtod.TakeDigits` | scripts/crossboot/stub.c:1171-1188 | the digit loop accumulates the decimal value of the first 1100 digits and skips the rest |
| `Strtod.ReadExponent` | scripts/crossboot/stub.c:1193-1206 | the exponent read is the written one clamped to 100000 in size; an incomplete exponent field is not consumed |
| `Strtod.ClampHarmless` | scripts/crossboot/stub.c:1209-1212 | clamping the exponent to 1500 in size changes no reading of an integer of at most 1100 digits |
| `Strtod.KeptIsAll` | scripts/crossboot/stub.c:1171-1188 | up to 1100 digits the value worked with is the value written |
| `Strtod.ScaleAndRound` | scripts/crossboot/stub.c:1213-1223 | mantissa times 10^dexp, through a power of five and a binary exponent, is rounded correctly on either path and stays within 480 limbs |
| `Strtod.StrtodFull` | scripts/crossboot/stub.c:1139-1224 | every text: nan, infinities, no number, or the double nearest to the decimal written (cut to 1100 digits) with its sign and the end position, 0 in the gap of line 916; no number on the way passes 480 limbs |
| `NumeralTexts.Read` | scripts/crossboot/stub.c:1139-1224 | for every text written as blanks, sign, digits around an optional point, optional exponent and a rest that does not go on: the double nearest to digits times the power of ten, with that sign and that end, an incomplete exponent left unread; the words inf, infinity and nan in any case; 0x to the hexadecimal reader; anything else 0 and nothing consumed |
| `NumeralTexts.FormParses` | scripts/crossboot/stub.c:1146-1207 | what the reader takes out of each such text: sign, digits, power of ten and end |
| `NumeralTexts.EveryText` | scripts/crossboot/stub.c:1139-1207 | every text is of one of these forms |
| `ReaderLimits.GapNumeral` | scripts/crossboot/stub.c:1139-1207 | the text of (10*5^1075 + 1)e-1076 parses to those digits and that exponent, all within 1100 digits |
| `ReaderLimits.ReadGap` | scripts/crossboot/stub.c:913-920 | that text, read by the reader, comes back as zero although 2^-1074 is the nearest double of the number written |
| `ReaderLimits.KeptIsWritten` | scripts/crossboot/stub.c:1171-1188 | the value worked with is the value written exactly when every digit not taken in is 0 and no integer digit of a nonzero number was left out |
| `ReaderLimits.LongIntegerShrinks` | scripts/crossboot/stub.c:1173-1176 | integer digits past the 1100th are dropped without scaling: the value read is at most a tenth of the one written |
| `ReaderLimits.LongNumeral` | scripts/crossboot/stub.c:1139-1207 | the text of a one, 1100 zeros and e-1100 parses as such, is the number 1, and is worked with as at most a tenth |
| `ReaderLimits.ReadLong` | scripts/crossboot/stub.c:1139-1224 | that text, read by the reader, gives bits other than those of 1, which is the nearest double |
| `Scaling.GePow10` | scripts/crossboot/stub.c:1345-1369 | the integer comparison decides mant * 2^e2 >= 10^X exactly, for X of either sign |
| `Scaling.RoundPow10` | scripts/crossboot/stub.c:1375-1474 | q becomes the half-even rounding of mant * 2^e2 * 10^s in all sign cases of s and e2+s; for negative s the scaled value must be at least one, as it is in every call of the formatter, or the aliased division would clear its own input |
| `Scaling.DivPow5` | scripts/crossboot/stub.c:1396-1398 | the aliased division in the formatter always meets its precondition: the dividend is at least the divisor |
| `Scaling.HalfUpSplit` | scripts/crossboot/stub.c:1419-1473 | with the discarded part held as low*5^a + rem over 5^a*2^b, the bump is the half-even one |
| `Scaling.SplitRest` | scripts/crossboot/stub.c:1371-1374 | the discarded part of the two-step division is low*5^a + rem and is below 5^a*2^b |
| `Scaling.AtLeastOneQuotient` | scripts/crossboot/stub.c:1397-1398 | a scaled value of at least one has a numerator no smaller than its denominator |
| `Format.Digits` | scripts/crossboot/stub.c:1326-1342 | the buffer holds the decimal digits of the number, first digit nonzero unless the number is 0 |
| `Format.FindDecade` | scripts/crossboot/stub.c:1534-1536 | from any first guess the two loops end with 10^X <= v < 10^(X+1) |
| `Format.DecadeUnique` | scripts/crossboot/stub.c:1534-1536 | there is only one such X |
| `Format.RoundedDigits` | scripts/crossboot/stub.c:1560-1563 | the rounded integer has exactly sig digits or is exactly 10^sig |
| `Format.ShownValue` | scripts/crossboot/stub.c:1559-1600 | whatever notation is chosen, the emitted numeral denotes the rounded decimal exactly |
| `Format.FixedFormDenotes` | scripts/crossboot/stub.c:1537-1558 | the f form denotes the rounded integer over 10^prec, with prec fraction digits |
| `Format.EmitExponential` | scripts/crossboot/stub.c:1570-1588 | the text written is d.ddd, the exponent letter, a sign and two or three exponent digits |
| `Format.EmitPlain` | scripts/crossboot/stub.c:1589-1600 | the text written is the positional form with padding zeros before or after |
| `Format.EmitFixed` | scripts/crossboot/stub.c:1541-1558 | the text written is the fixed form with exactly prec fraction digits |
| `Format.StripZeros` | scripts/crossboot/stub.c:1565-1567 | dropping trailing zeros keeps the value shown and leaves no trailing zero but a single digit |
| `Format.FormatSignificant` | scripts/crossboot/stub.c:1559-1600 | e and g styles: the text is the numeral of the half-even rounding to sig digits, with the carry to 10^sig handled |
| `Format.FormatFixed` | scripts/crossboot/stub.c:1537-1558 | f style: the text is the numeral of the half-even rounding to prec decimals, its digits without leading zeros, so the text is determined |
| `DecimalText.DigitTextUnique` | scripts/crossboot/stub.c:1326-1342 | there is one digit string without leading zeros for a number |
| `Format.FmtDouble` | scripts/crossboot/stub.c:1480-1604 | every bit pattern, style and precision: nan, inf, zero, or the exact rounded text with its sign; no number on the way passes 480 limbs |
| `FormatTexts.Print` | scripts/crossboot/stub.c:1476-1604 | the text from the rounded decimal d alone: words, zero, or a numeral of value d without superfluous leading zeros; g writes an exponent exactly for d below 10^-4 or from 10^P on and no trailing fraction zero, e always with P fraction digits, f never with P fraction digits; E for the upper styles; two exponent digits below 100 and three from there on |
| `FormatTexts.RoundedDecade` | scripts/crossboot/stub.c:1560-1563 | the exponent shown is that of the rounded decimal, carry included |
| `RoundTrip.PrintedIsNearest` | scripts/crossboot/stub.c:1480-1604 | a double printed with 17 or more significant digits is the nearest double of the text, and the text is outside the reader's gap |
| `RoundTrip.PrintAndRead` | scripts/crossboot/stub.c:1139-1604 | every finite nonzero double printed in e or g style with at least 17 digits reads back as the same bits, the whole text consumed |
| `Dns.RunInv` | crt-transition/runtime_core.zan:1537-1556 | from an absent or an initialised mutex, over every interleaving of workers and poll thread in which no initialisation finds the mutex held: the linked done list, the taken list, mutex, phases and log stay consistent |
| `Dns.AtMostOnce` | crt-transition/runtime_core.zan:4562-4588 | in every such run no job is delivered twice, and each delivery carries what the one lookup of its job returned |
| `Dns.ResultsAreLookups` | crt-transition/runtime_core.zan:1537-1556 | over every run, calm or not: each delivery (j, r) has exactly one lookup of job j before it, the worker's or the one made in place, and r is what it returned |
| `Dns.NeverStranded` | crt-transition/runtime_core.zan:1537-1556 | in every such run a nonempty done list has a byte in the pipe, a worker between push and write, or the poll thread between wake-up and take |
| `Dns.NoDeadlock` | crt-transition/runtime_core.zan:4562-4588 | while anything is left to do some worker or the poll thread can take a step |
| `Dns.InternalRunBounded` | crt-transition/runtime_core.zan:1537-1556 | no schedule of worker and poll steps goes on for ever: its length is bounded by the work left at its start |
| `Dns.StuckIsQuiet` | crt-transition/runtime_core.zan:4562-4588 | no worker or poll step is possible exactly when all workers are through, the pipe is empty and the poll thread is back in its loop |
| `Dns.EveryJobDelivered` | crt-transition/runtime_core.zan:4562-4588 | such a schedule that cannot be continued has delivered every submitted job exactly once, each with what its lookup returned |
| `Dns.ReadyIsCalm` | crt-transition/zanstubs.c:2145-2145 | with the mutex initialised statically, as in the C file, no initialisation ever finds it held: the theorems hold of every run |
| `Dns.NoEarlyLockIsCalm` | crt-transition/runtime_core.zan:1493-1501 | with the mutex created on first use they hold of every run in which nobody locks between its publication and its initialisation |
| `Dns.FirstUseLosesJob` | crt-transition/runtime_core.zan:1493-1501 | a run in which two first workers meet in the creation: one locks early, the initialisation lets the other in too, one push overwrites the other, and a job is never delivered |
| `Dns.ReliableExactlyWhenReady` | crt-transition/runtime_core.zan:1493-1501 | every finished schedule delivers everything exactly when the mutex is initialised before the first submission |
| `Dns.ResetLosesJob` | crt-transition/runtime_core.zan:1493-1501 | from any consistent state: an initialisation that meets a worker between its link and its publication can drop the maker's own job from every list |
| `FileLock.RunInv` | crt-transition/runtime_core.zan:1046-1120 | over every interleaving of the critical sections the table, the handles given out and the unlocks done stay consistent |
| `FileLock.HandlesAreSafe` | crt-transition/runtime_core.zan:1046-1120 | in every run no handle value is issued twice, none unlocks twice, and an unlock of an issued handle closes the descriptor registered under it |
| `FileLock.UnlockableWhen` | crt-transition/runtime_core.zan:1085-1120 | an issued handle can be unlocked exactly while it is unreleased and its generation is below 2^31; later ones come out negative and are refused for ever |
| `FileLock.Cycles` | crt-transition/runtime_core.zan:1046-1120 | for every n up to 2^30, n times locking and unlocking slot 0 is a run, and leaves the slot free at generation 2n |
| `FileLock.RefusedHandle` | crt-transition/runtime_core.zan:1085-1120 | the next lock after 2^30 cycles is granted a negative handle that unlock refuses |
| `FileLock.NeverReleased` | crt-transition/runtime_core.zan:1099-1120 | a handle of a generation past 2^31 is unreleased in every run |
| `FileLock.ReservationsAreExclusive` | crt-transition/runtime_core.zan:1046-1097 | two calls under way never hold the same slot and none holds a slot whose handle is still out, though reserving and registering are separate steps |
| `FileLock.InUseWhen` | crt-transition/runtime_core.zan:1046-1120 | over every disciplined run a slot is in use exactly while a call holds it or a handle of it is unreleased: a failed attempt and an unlock give it back |
| `FileLock.FullWhen` | crt-transition/runtime_core.zan:1052-1059 | the search finds no slot exactly when all are in use |
| `FileLock.ClosesWhatWasOpened` | crt-transition/runtime_core.zan:1075-1120 | over every run, unlocking an issued handle closes the descriptor that the call which returned it had opened |
| `FileLock.ForgedHandle` | crt-transition/runtime_core.zan:1099-1120 | without the discipline of unlocking only issued handles, a value never issued can hit a slot under reservation |
| `FileLock.HandleInjective` | crt-transition/runtime_core.zan:1085-1096 | different generation or slot, different handle, also after the wrap to negative |
| `Reactor.Table.Push` | crt-transition/runtime_core.zan:4145-4171 | a parked watch goes behind the active ones, growing or reusing the array without losing any |
| `Reactor.Table.WaitCo` | crt-transition/runtime_core.zan:4222-4232 | the frame resumes at once on a dead descriptor and parks otherwise |
| `Reactor.Table.RecvCo` | crt-transition/runtime_core.zan:4234-4250 | the frame resumes at once with the first read or parks, never both |
| `Reactor.Table.RecvToCo` | crt-transition/runtime_core.zan:4252-4269 | the same with a deadline of tmo milliseconds, none when tmo is not positive |
| `Reactor.Table.AcceptCo` | crt-transition/runtime_core.zan:4271-4292 | the frame resumes at once with the accepted descriptor or parks, never both |
| `Reactor.Table.Compact` | crt-transition/runtime_core.zan:4479-4492 | in-place compaction keeps the active watches, in order, and nothing else |
| `Reactor.Table.Poll` | crt-transition/runtime_core.zan:4477-4598 | one round resumes exactly the watches whose event or deadline says so, in table order, and keeps the others parked |
| `Reactor.Table.Deliver` | crt-transition/runtime_core.zan:4175-4184 | a delivery appends one resumption and deactivates its watch |
| `Reactor.Table.CloseNotify` | crt-transition/runtime_core.zan:4600-4613 | closing resumes every watch on the descriptor, in order, and leaves the others parked |
| `Reactor.Table.EnsurePipe` | crt-transition/runtime_core.zan:4357-4366 | the DNS pipe is parked as one watch of its own kind unless one is active |
| `ReactorRuns.Do` | crt-transition/runtime_core.zan:4145-4613 | every call into the reactor (wait, recv, timed recv, accept, resolve, poll round, close) is the step of the abstract state: watches parked, resumptions made |
| `ReactorRuns.ResolveCo` | crt-transition/runtime_core.zan:4298-4389 | a lookup resumes its frame at once before the pipe exists or without a worker, and otherwise leaves it to the job; the pipe is watched from the first job on |
| `ReactorRuns.Serve` | crt-transition/runtime_core.zan:4145-4613 | any run of calls, carried out on an empty table, ends in the state the abstract steps lead to |
| `ReactorRuns.RunTrue` | crt-transition/runtime_core.zan:4145-4613 | over every run each parked watch is the one its call asked for, deadline included, and each resumption goes to the frame of the call it answers, with the result of that call, of that round or of that close |
| `ReactorOnce.WatchAnsweredOnce` | crt-transition/runtime_core.zan:4145-4613 | over every run each call on a descriptor is parked or answered, exactly once and never both |
| `ReactorOnce.LookupAnsweredOnce` | crt-transition/runtime_core.zan:4298-4588 | over every run a lookup is answered at most once, and is answered exactly when it needed no job or its job has been delivered |
| `ReactorOnce.EveryCallAnsweredOnce` | crt-transition/runtime_core.zan:4145-4613 | joined with a run of the DNS hand-off: when that is at rest every call is answered exactly once or waits on its descriptor, and every lookup is answered |
| `Reactor.CloseKeepsOthers` | crt-transition/runtime_core.zan:4600-4613 | closing leaves no watch on the descriptor |
| `ReactorOnce.CloseCounted` | crt-transition/runtime_core.zan:4600-4613 | closing loses and doubles no call: answered and parked together are what was parked |
| `ReactorOnce.RoundCounted` | crt-transition/runtime_core.zan:4477-4598 | a poll round loses and doubles no call: answered and parked together are what was parked and the lookups the round delivered |
| `Reactor.RoundKeepsOrder` | crt-transition/zanstubs.c:2269-2367 | what a round leaves parked is in its old order |
| `ReactorRuns.TimedReceive` | crt-transition/runtime_core.zan:4252-4592 | over every run a timed receive is answered -1 exactly when the receive failed, at the call or in a round, or a round at or after that call's own deadline found neither data nor end of file |
| `ReactorRuns.TimeoutsOnlyWhen` | crt-transition/runtime_core.zan:4520-4592 | in a run every -1 to a timed receive means a timeout exactly when no timed receive met a failing recv, at its call or while parked |
| `ReactorRuns.ErrorBeforeDeadline` | crt-transition/runtime_core.zan:4520-4592 | a run of two calls in which a failing recv gives -1 before the deadline: the result alone does not mean a timeout |
| `ReactorAnswers.EveryAnswer` | crt-transition/runtime_core.zan:4145-4613 | over every run each call on a descriptor is answered with what it found itself, or what the event at its own place in a later round gave (a receive its bytes or error, 0 for a length that is not positive, an accept its descriptor or error, a wait 0, a dead descriptor -1 to accept and 0 to the others, -1 to a timed receive whose deadline passed), or the sign of closing |
| `ReactorAnswers.StaysWhen` | crt-transition/runtime_core.zan:4520-4592 | in a round a call stays parked exactly when its event is neither POLLNVAL nor brings anything, would-block included, and no deadline of its own has passed |
| `ReactorAnswers.ParksWhen` | crt-transition/runtime_core.zan:4222-4292 | a call parks exactly when its descriptor is alive and the probe gave nothing |
| `ReactorAnswers.CloseTakes` | crt-transition/runtime_core.zan:4600-4613 | closing takes exactly the calls parked on that descriptor |
| `ReactorAnswers.SpuriousAccept` | crt-transition/runtime_core.zan:4553-4561 | an accept woken for nothing stays parked exactly on targets whose would-block number is 35; on the others it is answered -1 |
| `ReactorAnswers.AnswersAreDeliveries` | crt-transition/runtime_core.zan:4574-4588 | over every run the answer to a lookup that made a job is the delivery of that job |
| `ReactorAnswers.LookupAnswer` | crt-transition/runtime_core.zan:4298-4588 | joined with a run of the hand-off: a lookup's frame resumes with what the one lookup of its job returned |
| `Digest.Context.Feed` | crt-transition/linux/zanlinuxshims.c:358-380 | whatever the chunk and the buffer fill, exactly the full blocks of everything fed are compressed and the rest is buffered |
| `Digest.Context.Done` | crt-transition/linux/zanlinuxshims.c:382-399 | the output is the digest of everything fed since reset; the zero-padding loop ends |
| `Digest.Stream` | crt-transition/linux/zanlinuxshims.c:403-426 | for every way of cutting a message into chunks the streaming digest is the digest of the whole message padded as in section 5.1.1 of FIPS 180-4 (for MD5 with the length lowest byte first) |
| `Digest.OneShot` | crt-transition/runtime_core.zan:447-490 | the one-shot digest, with its one or two padded blocks, is the same function |
| `Digest.OneShotUncleared` | crt-transition/zanstubs.c:224-253 | the C one-shot digest, from a buffer that starts out unset, is the same function too |
| `Digest.StreamingHmac` | crt-transition/linux/zanlinuxshims.c:432-476 | one reset-and-reused context computes the HMAC of section 2 of RFC 2104, long keys hashed |
| `Digest.OneShotHmac` | crt-transition/runtime_core.zan:4801-4831 | two one-shot digests over concatenations compute the same HMAC |
| `Digest.HmacParts` | crt-transition/linux/zanlinuxshims.c:432-476 | the inner digest is over the 64-byte key xor 0x36 and the data, the outer over the key xor 0x5c and the inner; the key is hashed when longer than 64 bytes and zero-filled |
| `Digest.PadCountLeast` | crt-transition/linux/zanlinuxshims.c:387-387 | the number of zero bytes is the least that reaches 56 modulo 64 |
| `Digest.PadInjective` | crt-transition/linux/zanlinuxshims.c:382-399 | different messages shorter than 2^61 bytes have different paddings |
| `Digest.PadLayout` | crt-transition/linux/zanlinuxshims.c:382-399 | the padded message byte by byte: 0x80, zeros, and the last eight bytes make up the bit length modulo 2^64, highest byte first or, for MD5, lowest first |
| `Digest.HashIs` | crt-transition/linux/zanlinuxshims.c:358-399 | the digest is the output of the state after the blocks went in, first to last, from the start value |
| `Digest.BytesDecide` | crt-transition/linux/zanlinuxshims.c:388-392 | the eight length bytes determine the length |
| `DispatchRing.Ring.Grow` | crt-transition/runtime_core.zan:2839-2865 | doubling moves the entries of a wrapped ring to slot 0 in order; it fails exactly at 2^20 slots or without memory |
| `DispatchRing.Ring.CopyLive` | crt-transition/runtime_core.zan:2852-2858 | the modular copy loop ends and copies the queue, oldest first |
| `DispatchRing.Ring.Post` | crt-transition/runtime_core.zan:2877-2904 | a delegate goes to the back of the queue, growing a full ring; null is refused, a delegate only with 2^20 - 1 entries queued or without memory |
| `DispatchRing.Ring.Take` | crt-transition/runtime_core.zan:2906-2920 | the front of the queue comes out, null when it is empty |
| `DispatchRing.Ring.Clear` | crt-transition/runtime_core.zan:2922-2929 | the queue becomes empty |
| `DispatchRing.Ring.Run` | crt-transition/runtime_core.zan:2839-2929 | every run of posts, takes and clears, growths included, leaves the queue and gives the answers of a plain FIFO |
| `DispatchRing.Ring.Serve` | crt-transition/runtime_core.zan:2867-2929 | one call is one step of that FIFO |
| `DispatchRing.FirstInFirstOut` | crt-transition/runtime_core.zan:2839-2929 | over every run what was queued and what was accepted is, in order, what was taken or cleared away, followed by what is queued |
| `DispatchRing.NeverNull` | crt-transition/runtime_core.zan:2877-2920 | over every run null is never queued, so a take answers null exactly when the queue is empty |
| `DispatchRing.CapDouble` | crt-transition/runtime_core.zan:2841-2843 | below 2^20 the capacity can be doubled without passing it |
| `SharedTable.FindIsLookup` | crt-transition/runtime_core.zan:3320-3332 | the first live row with a key is the binding of that key in the map the chain stands for |
| `SharedTable.CountIsSize` | crt-transition/runtime_core.zan:3279-3404 | with distinct live keys the number of live rows is the number of keys |
| `SharedTable.PurgeFades` | crt-transition/runtime_core.zan:3279-3294 | a sweep, whatever its quota, only forgets expired bindings and keeps live keys distinct |
| `SharedTable.PurgeAllView` | crt-transition/runtime_core.zan:3275-3277 | a sweep without a quota leaves exactly the unexpired bindings |
| `SharedTable.PurgeCounts` | crt-transition/runtime_core.zan:3279-3294 | a sweep takes as many rows as have expired, or its quota |
| `SharedTable.SweptFades` | crt-transition/runtime_core.zan:3300-3318 | the throttled sweep before a call only forgets expired bindings |
| `SharedTable.ReviveView` | crt-transition/runtime_core.zan:3372-3386 | a tombstone taken over by a new key adds exactly that binding |
| `SharedTable.Table.PurgeBatch` | crt-transition/runtime_core.zan:3279-3294 | the loop turns the first expired rows in chain order into tombstones and keeps the count |
| `SharedTable.Table.PurgeThrottled` | crt-transition/runtime_core.zan:3300-3318 | at most 64 rows, at most once in 16 ms, and only when some live row can expire |
| `SharedTable.Table.FindRow` | crt-transition/runtime_core.zan:3320-3332 | the row found is live, has the key and holds its binding; none is found exactly when the key is unbound |
| `SharedTable.Table.RowFor` | crt-transition/runtime_core.zan:3352-3404 | the row of a key, made on demand: exactly when the key length is right and it is bound or the load limit and memory allow; a new or reused row shows zeros and no expiry |
| `SharedTable.Table.SetColumn` | crt-transition/runtime_core.zan:3576-3591 | on the map: one column of one binding is written, the binding made if need be |
| `SharedTable.Table.GetColumn` | crt-transition/runtime_core.zan:3593-3609 | on the map: the stored value, 0 for a missing row or column |
| `SharedTable.Table.SetText` | crt-transition/runtime_core.zan:3646-3667 | on the map: one text column of one binding is written, exactly when the text is shorter than the column and the row can be had |
| `SharedTable.Table.GetText` | crt-transition/runtime_core.zan:3669-3699 | on the map: the stored text cut to the column, empty for a missing row, column or memory |
| `SharedTable.Table.Increment` | crt-transition/runtime_core.zan:3701-3718 | on the map: the column grows by delta modulo 2^64, from 0 for a new binding |
| `SharedTable.Table.ExpireIn` | crt-transition/runtime_core.zan:3720-3726 | on the map: the expiry of a bound key becomes the clock plus ttl, refused for a negative ttl and on overflow |
| `SharedTable.Table.ExpireAt` | crt-transition/runtime_core.zan:3728-3738 | on the map: the expiry of a bound key is replaced |
| `SharedTable.Table.ExpiresAt` | crt-transition/runtime_core.zan:3740-3749 | on the map: the expiry of a bound key, -1 for an absent one |
| `SharedTable.Table.PurgeExpired` | crt-transition/runtime_core.zan:3751-3761 | exactly the bindings whose expiry is set and not after now go, and the result is their number |
| `SharedTable.Table.Delete` | crt-transition/runtime_core.zan:3853-3865 | the binding goes, and the result says whether there was one |
| `SharedTable.Table.Clear` | crt-transition/runtime_core.zan:3887-3898 | every binding goes |
| `TableRuns.Do` | crt-transition/runtime_core.zan:3576-3898 | every by-key call is a step of a finite map whose only spontaneous change is the loss of expired bindings |
| `TableRuns.Untouched` | crt-transition/runtime_core.zan:3576-3898 | over every run a binding stays as it is through calls on other keys until it expires |
| `TableRuns.StaysGone` | crt-transition/runtime_core.zan:3352-3404 | over every run a key that is gone stays gone until a call writes it, however rows are reused |
| `TableRuns.FirstWrite` | crt-transition/runtime_core.zan:3372-3386 | the first write to an absent key shows the value written and zeros in every other column |
| `TableRuns.WritesOneCell` | crt-transition/runtime_core.zan:3576-3718 | a write to a bound key changes the one column written: no other column, no expiry, no other key |
| `TableRuns.TextReadsBack` | crt-transition/runtime_core.zan:3646-3699 | over every run a text written is the text read, as long as no call in between writes that key and the binding has not expired |
| `Leases.LockAcquire` | crt-transition/runtime_core.zan:3801-3827 | the lease is taken exactly when the arguments are sound, the key is unbound after a full sweep and a row can be had; it holds the owner and expires at now + lease |
| `Leases.LockRelease` | crt-transition/runtime_core.zan:3829-3851 | the lease is given back exactly by its owner |
| `Leases.LeaseExcludes` | crt-transition/runtime_core.zan:3801-3851 | over every run under a nondecreasing positive clock a second acquire without a release by the first owner comes at or after the end of the first lease |
| `Leases.HeldUntil` | crt-transition/runtime_core.zan:3801-3851 | until then the lease stays in the table unchanged |
| `RateLimit.RateAllow` | crt-transition/runtime_core.zan:3763-3799 | the call counts in the window of its row, opens a new window when there is none or it is over, and passes below the limit |
| `RateLimit.RunTracks` | crt-transition/runtime_core.zan:3763-3799 | over every run the row of a key holds its last window, and is missing only once that window is over |
| `RateLimit.PassesWhen` | crt-transition/runtime_core.zan:3763-3799 | over every run a call with a row passes exactly when the last window is over or has admitted fewer than the limit |
| `RateLimit.RowAfter` | crt-transition/runtime_core.zan:3763-3799 | a call opens a window of count 1 from now on, or adds one to the open one below the limit, or leaves the row as it was |
| `RateLimit.FewerThanTwice` | crt-transition/runtime_core.zan:3763-3799 | for a fixed window W and limit L a half-open interval of length W admits at most 2L - 1 calls for one key |
| `RateLimit.BoundReached` | crt-transition/runtime_core.zan:3763-3799 | for every limit and every window longer than one tick some run does admit 2L - 1 calls in such an interval: the bound is exact |
| `Schema.ParseSchema` | crt-transition/runtime_core.zan:3133-3254 | the character loops accept and lay out exactly what the entry-by-entry reading does |
| `Schema.ReadNumber` | crt-transition/runtime_core.zan:3174-3206 | blanks, an optional plus, digits and a colon, the early cut-off at 65536 included |
| `Schema.AcceptedIsSound` | crt-transition/runtime_core.zan:3133-3254 | every accepted schema has at most 32 columns, distinct names, int and float columns 8-aligned, each column at the first place behind the one before |
| `Schema.ColumnsDisjoint` | crt-transition/runtime_core.zan:3220-3240 | columns take pairwise disjoint ranges inside the row stride |
| `Schema.PutIsLocal` | crt-transition/runtime_core.zan:3576-3666 | a write to one column is read back from it and changes no other column |
| `Schema.RenderedReparses` | crt-transition/runtime_core.zan:3133-3254 | writing an accepted layout in canonical form and parsing it again gives the same layout |
| `Schema.EntrySpelling` | crt-transition/runtime_core.zan:3155-3215 | an accepted entry is spelled as the grammar says: letter, colon, for texts blanks, sign and digits, then name and semicolon |
| `SchemaTexts.SpelledIsAccepted` | crt-transition/runtime_core.zan:3133-3254 | every text of 1 to 32 entries with different names of 1 to 63 characters and text lengths 1 to 65536 is accepted, and its columns are these, at these places |
| `SchemaTexts.AcceptedExactlyWhenSpelled` | crt-transition/runtime_core.zan:3133-3254 | a schema text is accepted exactly when it is so spelled |
| `Schema.FindColumn` | crt-transition/runtime_core.zan:3256-3272 | the one column of that kind and name, -1 when there is none |
| `ElfLocalize.Rebind` | scripts/elf_localize.py:83-107 | every record is edited in its binding only: defined global with a name, weak if listed, local unless kept; no other byte changes |
| `ElfLocalize.Partition` | scripts/elf_localize.py:109-124 | order is the null symbol, the locals and the others, and remap is its inverse |
| `ElfLocalize.OrderPermutes` | scripts/elf_localize.py:112-123 | the order is a permutation of the table that fixes index 0 |
| `ElfLocalize.OrderIsStable` | scripts/elf_localize.py:112-123 | locals come first and each part keeps the table order |
| `ElfLocalize.Rewrite` | scripts/elf_localize.py:126-128 | the table region then holds the records in the new order and the rest of the file is unchanged |
| `ElfLocalize.RemapSection` | scripts/elf_localize.py:130-149 | every index of a section moves with its record, index 0 stays; it fails exactly when an index has no record |
| `ElfLocalize.Localize` | scripts/elf_localize.py:80-151 | the whole rewrite: edited records in the new order, relocations that follow them, sh_info equal to the locals' count with the null symbol, every other byte as it was |
| `ElfLocalize.MeaningKept` | scripts/elf_localize.py:130-149 | every relocation names the record it named before, up to the binding edit |
| `ElfLocalize.LocalsFirst` | scripts/elf_localize.py:109-151 | a record is local exactly when it stands below sh_info, and each part is in the old order |
| `ObjectBytes.LocalizeObject` | scripts/elf_localize.py:80-151 | the new file byte by byte: a defined named global becomes weak, local or stays by its name without leading underscores, every other record keeps its bytes, null and locals come first in the old order and sh_info counts them, every relocation index names its old record, no other byte changes; it succeeds exactly when every index has a record |
| `Utf.Decode` | crt-transition/runtime_core.zan:4977-4997 | the byte loop computes the code point at a position or -1 |
| `Utf.DecodedForm` | crt-transition/runtime_core.zan:4977-4997 | whatever the decoder accepts is the shortest encoding of what it returns, at most U+10FFFF |
| `Utf.DecodesEncoded` | crt-transition/runtime_core.zan:4977-4997 | the decoder reads back every encoded code point, surrogates included, whatever follows |
| `Utf.MultiByteToWideChar` | crt-transition/runtime_core.zan:4999-5042 | the size query equals the written length; a conversion succeeds exactly when it fits, writes exactly the UTF-16 form (and terminator), and never passes the capacity |
| `Utf.WideCharToMultiByte` | crt-transition/runtime_core.zan:5054-5118 | the same in the other direction |
| `Utf.BytesSurvive` | crt-transition/runtime_core.zan:4999-5118 | UTF-8 to UTF-16 and back is the identity exactly on valid UTF-8 (section 3 of RFC 3629) |
| `Utf.UnitsSurvive` | crt-transition/runtime_core.zan:4999-5118 | UTF-16 to UTF-8 and back is the identity exactly on well-formed UTF-16 (section 2 of RFC 2781) |
| `Utf.ValidIsClean` | crt-transition/runtime_core.zan:4977-4997 | valid UTF-8 is what reads as scalar values all through, a check on the bytes |
| `Utf.NarrowIsValid` | crt-transition/runtime_core.zan:5054-5118 | whatever the input, the UTF-8 written is valid and survives another round |
| `Utf.EncodedSurrogate` | crt-transition/runtime_core.zan:4977-4997 | the bytes ED A0 80 are read as a surrogate instead of being replaced, and come back as EF BF BD |
| `Utf.BadByte` | crt-transition/runtime_core.zan:5012-5016 | behind any encoded front a byte at which no encoded code point begins becomes one U+FFFD, and reading goes on at the next byte |
| `Utf.LoneSurrogate` | crt-transition/runtime_core.zan:5069-5077 | in the other direction a surrogate without its partner becomes EF BF BD, alone |

## Left out

- RoundTrip.PrintAndRead: precisions above 1080 are clamped by the formatter, so they behave as 1080.
- Strtod.StrtodFull: past 1100 digits the theorem is about the digits kept; ReaderLimits.KeptIsWritten says exactly when that is the value written.
- Rounding.Round64: values strictly between 2^-1075 and 2^-1075 + 2^-1130 round to 0 instead of 2^-1074; the contract says so as an if-and-only-if.
- Dns.EveryJobDelivered: runs in which an initialisation finds the lazily created mutex held are excluded, because the code loses jobs in them (Dns.FirstUseLosesJob). The case that no memory is left for the mutex, in which lock and unlock get a null pointer, is not modelled.
- ReactorRuns.TimedReceive: a receive error also gives -1, so the stronger reading "-1 means the deadline passed" is false; ReactorRuns.TimeoutsOnlyWhen is the exact condition and ReactorRuns.ErrorBeforeDeadline the counterexample.
- ReactorRuns.ResolveCo: the IPv4-only variant has the same shape; literal addresses, a missing pipe and missing memory are one early outcome.
- ReactorAnswers.StaysWhen: would-block is what the code takes for it; on accept in a round that is error number 35 whatever the target's number is, see ReactorAnswers.SpuriousAccept.
- FileLock.UnlockableWhen: generations from 2^31 on produce negative handles that file_unlock refuses; stated as the exact condition.
- FileLock.RunInv: runs start with the three tables made. `lk_init` (runtime_core.zan:1033-1042) publishes the used table before it makes the generation table, so a racing first caller may see a null generation table.
- ElfLocalize.Localize: section headers and names are read beforehand and passed in as offsets and strings; a symbol table must have its null record, and section groups and extended section indices, which also hold symbol numbers, are not remapped by the script.
- SharedTable.Table.RowFor: a row's bytes are one number and one text per column; Schema.PutIsLocal is what makes that a fair picture. Links between row records are a sequence in chain order.
- TableRuns.Do: one call at a time, as under the table's lock; the throttle test, which the code makes before taking the lock, is made together with the sweep.
- RateLimit.FewerThanTwice: for a key that has no row when the run begins.
- DispatchRing.Ring.Run: the lock is not modelled; calls come one after the other.
- Utf.MultiByteToWideChar: its counters, and those of the other direction, are 32-bit in the code (runtime_core.zan:5005-5118); the model's are unbounded, so inputs of 2^31 units and more are outside it.
- Reactor.Table.RecvToCo: the product tmo * 1000000 (runtime_core.zan:4264) and its sum with the clock do not wrap in the model.
- Hex floats, the other mathematical functions, printf dispatch and padding, semihosting and boot code.
- A bitwise or of disjoint fields is written as a sum, and a mask by a power of two as a remainder.
- The first guess of the decimal exponent is an arbitrary parameter; the two loops correct it.
- The stack copies of big numbers are fresh objects; helper methods cut out of long bodies have no counterpart in the source.
- The compression rounds and initial values of the digests are one uninterpreted block function.
- System calls (poll, recv, accept, getaddrinfo, flock, open, malloc) are outcomes passed in; a fatal wake-up write error and a full pipe are not modelled.
- Table creation, naming and destruction.
- The hash-addressed calls of the shared table and the C table of zanstubs.c, which keeps the old key when it reuses a tombstone.
- The used-default-character flag of the wide-text call, which is always cleared.
- Message queues, gates, checksums, shell and user-interface code.
