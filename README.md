# Fixed-point kernel and RISC-V system glue of a Doom port, in Dafny

This project models two parts of a Doom port that runs on a RISC-V emulator,
and proves properties of the model.

- **The 16.16 fixed-point kernel of `src/m_fixed.h`** (`fixed_point.dfy`,
  module `FixedPoint`). A `fixed_t` is a 32-bit signed integer read as
  value / 2^16 (`FRACBITS`, `FRACUNIT`). It provides:
  - `FixedMul`: a 64-bit product shifted right by 16;
  - `FixedDiv`: a division that saturates to `INT_MAX`/`INT_MIN` when an
    overflow guard holds, and also when dividing by zero;
  - `FixedMod`: a modulo with a bit-mask fast path;
  - `FixedReciprocal`: halves the magnitude until it fits a reciprocal
    table, then looks it up and shifts;
  - `FixedApproxDiv`: `FixedMul(a, FixedReciprocal(b))`.

  The pure expressions are Dafny functions. `FixedReciprocal`'s halving loop
  is a method with a `while` loop, proved against the function `Reciprocal`.
  `FixedApproxDiv` calls it, so it is a method too. The reciprocal table
  (`m_recip.h`) is an immutable parameter sequence with at least
  `FRACUNIT + 1` entries.
- **The tick counter of `I_GetTime` in `src/riscv/i_system.c`**
  (`video_ticks.dfy`, module `VideoTicks`). A 16-bit tick reading is
  extended to a 32-bit count through the file-scope pair `vt_last`/`vt_base`.
  The pair is the class `VideoClock`, and one call is its method `GetTime`.
  `GetTime` is proved against `Track`, which computes the pair after a
  history of readings.
- **The input translation of `I_GetRemoteEvent` in `src/riscv/i_system.c`**
  (`remote_events.dfy`, module `RemoteEvents`). It drains the host queue,
  remaps host key codes to engine keys and posts key events in order. It
  keeps the mouse-button byte `s_btn` across calls, sums mouse motion, and
  posts one aggregated mouse event at the end. The state (`s_btn` and the
  engine's event queue) is the class `RemoteInput`. Its method
  `GetRemoteEvent` runs the drain loop and is proved against `Translate` and
  `ButtonsAfter`.

`bits.dfy` (module `Bits`) holds the integer model of C bit operations:
- `&`, `|`, `^` on non-negative integers, defined bit by bit;
- two's-complement conversion between `int32_t` and `uint32_t`;
- arithmetic right shift, as floor division by a power of two;
- the lemmas about these that the other modules use.

Reading of C semantics:
- Integer widths are explicit. `Int32` is the range of `int`, and the
  `uint8_t`, `uint16_t` and `uint32_t` fields are subset types.
- C's `/` and `%` truncate toward zero and are modelled as `CDiv` and `CRem`.
- `>>` on a negative signed value is an arithmetic shift (floor), as GCC
  defines it.
- `<<` on a negative signed value (`(int64_t) a << FRACBITS` in `FixedDiv`,
  `mdx << 2` in `I_GetRemoteEvent`) is read as multiplication by the power
  of two. This is what GCC documents for it. Excluding negative operands
  would leave half of each domain unmodelled.
- Inputs on which the C expression is undefined are excluded by
  preconditions:
  - `abs(INT_MIN)` and `-INT_MIN`;
  - `b - 1` for `b == INT_MIN` when `a != 0` (a zero `a` returns first);
  - `INT_MIN % -1`;
  - an overflowing `r + b` in `FixedMod`;
  - a mouse button outside 1..31, for which `1 << (button - 1)` is undefined.
- A `FixedMul` result that does not fit 32 bits is also excluded by a
  precondition (`MulFits`). Its conversion from `int64_t` to `fixed_t` is
  implementation-defined rather than undefined; the model does not commit
  to the compiler's wrap-around.

The header comment of `FixedMod` (`src/m_fixed.h:88`) promises a result
`0 <= r < b`. The model follows the code, which keeps that promise only for
positive `b`:
- For every positive `b` the result is the Euclidean residue in `[0, b)`
  (`FixedModIsEuclidean`).
- `FixedMod(a, 0)` does not fail: it takes the mask path and returns `a`
  (`FixedModByZero`).
- For negative `b` the code adds `b` to a negative C remainder, so the result
  can be negative: `FixedMod(-1.0, -3.0) == -4.0`
  (`FixedModNegativeDivisor`, `FixedModNegativeExample`).
- `FixedMod(0, b)` is 0 for every `b`, `INT_MIN` included, because the zero
  test comes first (`FixedModOfZero`).

`FixedDiv` undoes `FixedMul` only to within one unit in the last place, and
only for divisors of at least 1.0 in magnitude (`FixedMulDivRoundTrip`).
Below 1.0 the product's rounding is magnified: `FixedDiv(FixedMul(5, 1), 1)`
is 0, not 5, in raw units (`FixedMulDivSmallDivisor`).

## Model

| member | source | states |
|---|---|---|
| FixedPoint.FixedMul | src/m_fixed.h:72-75 | the 64-bit product shifted right by FRACBITS; defined where the result fits 32 bits (its floor property is FixedMulIsFloor) |
| FixedPoint.DivOverflows | src/m_fixed.h:83 | the guard `(unsigned)abs(a)>>14 >= (unsigned)abs(b)` (its meaning is DivQuotientBound and FixedDivSaturation) |
| FixedPoint.Saturated | src/m_fixed.h:83 | the saturated value `((a^b)>>31)^INT_MAX` (its value is SaturatedValue) |
| FixedPoint.FixedDiv | src/m_fixed.h:81-85 | the saturated value when the guard holds, the truncated 64-bit quotient `(a << 16) / b` otherwise (properties in FixedDivSaturation and FixedDivTruncates) |
| FixedPoint.ProductFitsInt64 | src/m_fixed.h:74 | the 64-bit product `(int64_t) a * b` of two 32-bit values never overflows |
| FixedPoint.FixedMulIsFloor | src/m_fixed.h:72-75 | FixedMul(a, b) is floor(a·b / 2^16): FixedMul·FRACUNIT <= a·b < FixedMul·FRACUNIT + FRACUNIT |
| FixedPoint.FixedMulCommutes | src/m_fixed.h:72-75 | FixedMul(a, b) == FixedMul(b, a), and one is defined iff the other is |
| FixedPoint.FixedMulByUnit | src/m_fixed.h:72-75 | FRACUNIT is a two-sided unit: FixedMul(a, FRACUNIT) == FixedMul(FRACUNIT, a) == a for every 32-bit a |
| FixedPoint.FixedMulExamples | src/m_fixed.h:72-75 | 3.0 × 2.0 == 6.0; the shift floors, so the product of raw values -1 and 1 is -1 (not 0) |
| FixedPoint.DivQuotientBound | src/m_fixed.h:83-84 | when the guard does not hold, b != 0 and the truncated quotient a·2^16 / b is below 2^30 in magnitude, so the 64-bit division and the cast back are safe |
| FixedPoint.SaturatedValue | src/m_fixed.h:83 | `((a^b)>>31)^INT_MAX` is INT_MAX when a and b have the same sign bit and INT_MIN otherwise |
| FixedPoint.FixedDivSaturation | src/m_fixed.h:83-84 | FixedDiv saturates exactly when `(unsigned)abs(a)>>14 >= (unsigned)abs(b)`: then INT_MAX for equal sign bits, INT_MIN otherwise; otherwise the result is below 2^30 in magnitude and never a saturated value |
| FixedPoint.FixedDivByZero | src/m_fixed.h:83 | dividing by zero never traps: FixedDiv(a, 0) is INT_MIN for negative a and INT_MAX otherwise, so FixedDiv(0, 0) == INT_MAX |
| FixedPoint.FixedDivTruncates | src/m_fixed.h:84 | without saturation, abs(FixedDiv(a, b)) is floor(abs(a)·2^16 / abs(b)) and its sign is the sign of the exact quotient (truncation toward zero) |
| FixedPoint.QuotientMagnitude | src/m_fixed.h:84 | without saturation, abs(FixedDiv(a, b)) == abs(a)·FRACUNIT / abs(b), a positive result only for equal signs and a negative one only for different signs |
| FixedPoint.CDivRem | src/m_fixed.h:84 | C's truncating `/` and `%` satisfy (x / y)·y + x % y == x with abs(x % y) < abs(y) |
| FixedPoint.FixedDivExamples | src/m_fixed.h:81-85 | 7.0 / 2.0 == 3.5; FixedDiv(0, 0) == INT_MAX; INT_MAX / 1.0 saturates to INT_MAX; -1.0 / 0 == INT_MIN |
| FixedPoint.FixedMulDivRoundTrip | src/m_fixed.h:72-85 | for abs(b) >= 1.0, when neither the product nor the quotient saturates, FixedDiv(FixedMul(a, b), b) is within one raw unit of a |
| FixedPoint.FixedMulDivSmallDivisor | src/m_fixed.h:72-85 | below 1.0 the round trip fails: FixedMul(5, 1) == 0 and FixedDiv(0, 1) == 0 |
| FixedPoint.ModGeneral | src/m_fixed.h:99-100 | the general path `r = a % b; r < 0 ? r + b : r` (its value is ModGeneralIsResidue) |
| FixedPoint.ModMask | src/m_fixed.h:102 | the mask path `a & (b-1)` (its value is ModMaskIsResidue) |
| FixedPoint.PathTest | src/m_fixed.h:97 | the path test `b & (b-1)` (which divisors it selects is PathTestSelects) |
| FixedPoint.FixedMod | src/m_fixed.h:92-103 | 0 for a zero a, else the general path when `b & (b-1)` is nonzero and the mask path otherwise (its value is FixedModIsEuclidean, FixedModByZero, FixedModNegativeDivisor) |
| FixedPoint.FixedModOfZero | src/m_fixed.h:94-95 | FixedMod(0, b) is defined and 0 for every 32-bit b, INT_MIN and 0 included |
| FixedPoint.PathTestSelects | src/m_fixed.h:97 | `b & (b-1)` is zero for b == 0, zero for a positive b exactly when b is a power of two, and never zero for a negative b |
| FixedPoint.ModMaskIsResidue | src/m_fixed.h:102 | for b = 2^k (k <= 30), `a & (b-1)` is the Euclidean residue a mod b, for negative a too |
| FixedPoint.ModGeneralIsResidue | src/m_fixed.h:99-100 | for every b > 0, `r = a % b; r < 0 ? r + b : r` is the Euclidean residue a mod b |
| FixedPoint.FixedModIsEuclidean | src/m_fixed.h:88-103 | for every b > 0 FixedMod is defined, equals a mod b and lies in [0, b); in particular FixedMod(0, b) == 0 |
| FixedPoint.MaskPathAgrees | src/m_fixed.h:97-102 | for b = 2^k the mask path and the general remainder-plus-correction path agree on every a, and FixedMod takes the mask path |
| FixedPoint.FixedModByZero | src/m_fixed.h:94-102 | FixedMod(a, 0) is defined and returns a: the test `0 & -1` selects the mask path and `a & -1` is a |
| FixedPoint.FixedModNegativeDivisor | src/m_fixed.h:97-100 | for b < 0 the result is a mod abs(b) when that is 0 or a >= 0, and a mod abs(b) + 2b otherwise; it is negative exactly in the second case |
| FixedPoint.FixedModExamples | src/m_fixed.h:92-103 | FixedMod(-1.0, 4.0) == 3.0 |
| FixedPoint.FixedModMaskExample | src/m_fixed.h:97-102 | FixedMod(-1.0, 4096) by the mask path equals the general path's value, 0 |
| FixedPoint.FixedModNegativeExample | src/m_fixed.h:97-100 | FixedMod(-1.0, -3.0) is defined and equals -4.0 |
| FixedPoint.Reduce | src/m_fixed.h:115-119 | the reduced value is at most FRACUNIT and equals the magnitude shifted right by the number of halvings |
| FixedPoint.ReduceShiftBound | src/m_fixed.h:115-119 | a magnitude of at most 2^(16+k) is reduced in at most k halvings |
| FixedPoint.ReduceIsLeastShift | src/m_fixed.h:115-119 | no halving happens exactly when the magnitude is at most FRACUNIT; otherwise one halving fewer would leave it above FRACUNIT |
| FixedPoint.ReduceForInt32 | src/m_fixed.h:111-121 | for every 32-bit v other than INT_MIN, the loop halves at most 15 times and the table index lies in [0, FRACUNIT] |
| FixedPoint.ShiftRightBounds | src/m_fixed.h:121 | an arithmetic right shift keeps the sign and does not increase the magnitude, so the shifted entry is never INT_MIN and can be negated |
| FixedPoint.Reciprocal | src/m_fixed.h:109-124 | the table entry for the reduced magnitude, shifted right by the number of halvings, negated for negative v (properties in ReciprocalInTable and ReciprocalIsOdd) |
| FixedPoint.FixedReciprocal | src/m_fixed.h:109-124 | the halving loop returns Reciprocal(table, v): the entry for the reduced magnitude, shifted right by the number of halvings, with the sign of v |
| FixedPoint.ReciprocalInTable | src/m_fixed.h:121-123 | for abs(v) <= FRACUNIT the result is ±table[abs(v)], with the sign of v (v == 0 reads table[0]) |
| FixedPoint.ReciprocalIsOdd | src/m_fixed.h:111-123 | Reciprocal(-v) == -Reciprocal(v) for every nonzero v other than INT_MIN |
| FixedPoint.FixedApproxDiv | src/m_fixed.h:131-134 | the result is FixedMul(a, Reciprocal(table, b)); for abs(b) <= FRACUNIT it is FixedMul(a, ±table[abs(b)]) |
| VideoTicks.NextBase | src/riscv/i_system.c:99-100 | vt_base plus 65536 modulo 2^32 when the reading is below vt_last, unchanged otherwise (its effect is BaseAdvance) |
| VideoTicks.Time | src/riscv/i_system.c:104 | `vt_base + vt_now` converted to int (its meaning is TimeLowBits and TimeCountsTicks) |
| VideoTicks.Track | src/riscv/i_system.c:99-101 | after any history of readings from (0, 0), vt_base is a 32-bit multiple of 65536 |
| VideoTicks.VideoClock.constructor | src/riscv/i_system.c:75-76 | the static pair starts as vt_last == 0, vt_base == 0, with no readings |
| VideoTicks.VideoClock.GetTime | src/riscv/i_system.c:94-105 | one call appends the reading to the history, keeps the fields equal to Track of it, sets vt_last to the reading and returns Time of the history |
| VideoTicks.BaseAdvance | src/riscv/i_system.c:99-101 | after a call vt_last is the new reading and vt_base a multiple of 65536; vt_base changes iff the reading is below vt_last, and then by +65536 modulo 2^32 |
| VideoTicks.TimeLowBits | src/riscv/i_system.c:104 | the returned int, as uint32_t, is vt_base + vt_now without carry, and its low 16 bits are the reading |
| VideoTicks.TimeNonDecreasing | src/riscv/i_system.c:99-104 | while vt_base + 65536 stays below 2^31, the next return is at least the previous one, whatever the new reading |
| VideoTicks.TrackRecoversTicks | src/riscv/i_system.c:99-101 | when the clock is read at least once per 65536 tics, vt_base is the high half of the true count (mod 2^16, times 65536) and vt_last its low half |
| VideoTicks.TimeCountsTicks | src/riscv/i_system.c:94-105 | when read at least once per 65536 tics, I_GetTime returns the true tick count modulo 2^32, and exactly the count below 2^31 |
| RemoteEvents.RemapKey | src/riscv/i_system.c:128-193 | codes with bit 0x40000000 go through the switch, all others pass unchanged (its cases are RemapListedCodes and RemapKeyCases) |
| RemoteEvents.Switch | src/riscv/i_system.c:130-191 | the 20 case labels map to their engine keys; no default, so other codes stay |
| RemoteEvents.KeyEventOf | src/riscv/i_system.c:196-198 | key down for a nonzero state and key up otherwise, with the remapped code in data1 |
| RemoteEvents.SetButton | src/riscv/i_system.c:202-205 | on press s_btn is ORed with `1 << (button-1)`, on release ANDed with `~(1 << (button-1))`, and the int result is truncated to the byte (its effect is SetButtonBits) |
| RemoteEvents.ButtonsAfter | src/riscv/i_system.c:201-206 | s_btn after a batch, one SetButton per button event in poll order (its meaning is ButtonBitAfter) |
| RemoteEvents.KeysPosted | src/riscv/i_system.c:196-199 | the key events a batch posts, one per host key event in poll order (KeysPostedAreKeys, KeyEventPosition) |
| RemoteEvents.SumX | src/riscv/i_system.c:209 | mdx: the sum of xrel over the batch's motion events (SumsAppend) |
| RemoteEvents.SumY | src/riscv/i_system.c:210 | mdy: the sum of yrel over the batch's motion events (SumsAppend) |
| RemoteEvents.MouseSeen | src/riscv/i_system.c:201-212 | mupd: some mouse button or motion event was drained (MouseSeenIff) |
| RemoteEvents.Translate | src/riscv/i_system.c:215-221 | the key events followed, iff mupd, by one mouse event with s_btn, mdx << 2 and -mdy << 2 (TranslateShape) |
| RemoteEvents.MaskTestIsBit30 | src/riscv/i_system.c:128 | `keycode & 0x40000000` is nonzero exactly when bit 30 of the code is set |
| RemoteEvents.RemapListedCodes | src/riscv/i_system.c:128-191 | each of the 20 listed host codes is remapped to its engine key |
| RemoteEvents.RemapKeyCases | src/riscv/i_system.c:128-192 | a code remapped to an engine key is that key's listed code; any other code, including every code without bit 30, is passed through unchanged |
| RemoteEvents.RemoteInput.constructor | src/riscv/i_system.c:120 | s_btn starts at 0 and nothing has been posted |
| RemoteEvents.RemoteInput.GetRemoteEvent | src/riscv/i_system.c:115-223 | the drain loop leaves s_btn == ButtonsAfter(old s_btn, batch) and appends exactly Translate(old s_btn, batch) to the posted events |
| RemoteEvents.KeysPostedAppend | src/riscv/i_system.c:127-199 | the key events of two consecutive batches are the key events of each, in order |
| RemoteEvents.KeysPostedAreKeys | src/riscv/i_system.c:196-199 | while draining, one key event is posted per host key event and no mouse event |
| RemoteEvents.KeyEventPosition | src/riscv/i_system.c:196-199 | the host key event at position i is posted after exactly the key events before it, as key down for a nonzero state and key up otherwise, with the remapped code |
| RemoteEvents.MouseSeenIff | src/riscv/i_system.c:201-211 | `mupd` is set iff the batch holds a mouse button or motion event |
| RemoteEvents.TranslateShape | src/riscv/i_system.c:215-221 | a call posts the key events and, iff a mouse event was seen, exactly one mouse event after them, carrying s_btn, 4·Σxrel and -4·Σyrel |
| RemoteEvents.SumsAppend | src/riscv/i_system.c:208-211 | the summed motion of two consecutive batches is the sum of their sums |
| RemoteEvents.SetButtonBits | src/riscv/i_system.c:202-205 | a press sets bit button-1 of s_btn, a release clears it, and the other bits are unchanged |
| RemoteEvents.ButtonAboveByteIgnored | src/riscv/i_system.c:203-205 | buttons 9..31 fall outside the byte: their events leave s_btn unchanged |
| RemoteEvents.ButtonsCompose | src/riscv/i_system.c:201-205 | s_btn persists: two calls leave the byte one call on the joined batch would |
| RemoteEvents.LastButtonEvent | src/riscv/i_system.c:201-205 | the position of the last event for a button in a batch, or -1 if there is none |
| RemoteEvents.ButtonBitAfter | src/riscv/i_system.c:201-205 | bit j of s_btn after a batch is the state of the last event for button j+1, or the bit before the batch if there is none |

## Left out

- Host clock reading (`src/riscv/i_system.c:97`): `clock()` is host I/O, and
  the conversion by float division by 35 is floating point. The 16-bit reading
  `vt_now` is a parameter of `GetTime`.
- `PollEvent` (`src/riscv/i_system.c:107-113`) is an environment call in
  inline assembly. The host events one call drains are a parameter sequence
  of `GetRemoteEvent`.
- `D_PostEvent` belongs to the engine. Posting is modelled as appending to
  the sequence field `posted`.
- The numeric values of the `KEY_*` constants are defined in a header that is
  not part of this model. Engine keys are a datatype. So a remapped key that
  equals a host code passed through unchanged cannot be observed.
- A host key code of 2^31 or more, stored into the `int` field `data1`, is
  kept as its unsigned value. The implementation-defined conversion is not
  modelled.
- GetRemoteEvent: the motion sums `mdx`, `mdy` and their scaled values are
  unbounded integers. Signed overflow of `int` is undefined and is not
  modelled.
- GetRemoteEvent: requires every button number in 1..31. For other values,
  `1 << (button - 1)` is undefined.
- The contents of `reciprocalTable` (`m_recip.h`) are not part of this model.
  Its approximation error and monotonicity depend on data the code does not
  define, so no bound on `FixedReciprocal`'s error is stated.
- Reciprocal: the element type of `reciprocalTable` is not part of this
  model. The model takes the entries as signed 32-bit values, so
  `reciprocalTable[val] >> shift` (`src/m_fixed.h:121`) is an arithmetic
  shift, and it requires that no entry is `INT_MIN`, so that the negation at
  `src/m_fixed.h:123` cannot overflow. If the table is `unsigned int`, the
  shift is logical and the assignment to `fixed_t` wraps entries of 2^31 and
  above; that variant is not modelled.
- The disabled `D_abs` variant (`src/m_fixed.h:56-62`) is dead code. `D_abs`
  is `abs`.
- Everything else in `src/riscv/i_system.c` is not modelled:
  - zone allocation (`I_ZoneBase`, `I_AllocLow`);
  - the empty stubs (`I_Init`, `I_StartFrame`, `I_Tactile`);
  - `I_BaseTiccmd`, which returns a pointer to a static zero-initialised
    `ticcmd_t`;
  - error and shutdown paths (`I_Quit`, `I_Error`);
  - `I_StartTic`, which only calls `I_GetRemoteEvent`.
- `src/riscv/i_video.c` (framebuffer output through environment calls) is not
  part of this model.
