/** The tick counter of the RISC-V port (`I_GetTime`).

    The host clock is read as a 16-bit tick count (`vt_now`) that wraps every
    65536 tics. The file-scope pair `vt_last` (uint16_t, the previous reading)
    and `vt_base` (uint32_t, a multiple of 65536) extends it to a 32-bit count:
    whenever a reading is smaller than the previous one the counter is taken
    to have wrapped once, and `vt_base` grows by 65536. The call returns
    `vt_base + vt_now` as a C `int`.

    The reading itself (the host `clock()` scaled by a float division) is a
    parameter here. */
module VideoTicks {
  import opened Bits

  /** One period of the 16-bit reading. */
  const PERIOD: nat := 0x1_0000

  /** The modulus of `uint32_t` arithmetic. */
  const U32_MOD: nat := 0x1_0000_0000

  /** A 16-bit tick reading (`uint16_t vt_now`, `vt_last`). */
  type Reading = x: int | 0 <= x < 0x1_0000

  /** `vt_base` after a reading: one period more (in uint32_t arithmetic) when
      the reading went backwards, unchanged otherwise. */
  function NextBase(base: nat, last: Reading, now: Reading): nat {
    if now < last then (base + PERIOD) % U32_MOD else base
  }

  /** The stored pair (vt_base, vt_last) after the given readings, starting
      from the static initial values (0, 0). It keeps vt_base a 32-bit multiple
      of the period. */
  function Track(readings: seq<Reading>): (s: (nat, Reading))
    ensures s.0 < U32_MOD && s.0 % PERIOD == 0
  {
    if |readings| == 0 then (0, 0)
    else
      var p := Track(readings[..|readings| - 1]);
      var now := readings[|readings| - 1];
      NextBaseKeepsPeriod(p.0, p.1, now);
      (NextBase(p.0, p.1, now), now)
  }

  lemma NextBaseKeepsPeriod(base: nat, last: Reading, now: Reading)
    requires base < U32_MOD && base % PERIOD == 0
    ensures NextBase(base, last, now) < U32_MOD
    ensures NextBase(base, last, now) % PERIOD == 0
  {
    if now < last {
      var h := base / PERIOD;
      assert base == h * PERIOD;
      assert h < PERIOD;
      if h + 1 < PERIOD {
        assert base + PERIOD == (h + 1) * PERIOD;
      } else {
        assert base + PERIOD == U32_MOD;
      }
    }
  }

  /** A 32-bit base that is a multiple of the period leaves room for a reading:
      `vt_base + vt_now` never carries out of 32 bits. */
  lemma BaseLeavesRoom(base: nat, now: Reading)
    requires base < U32_MOD && base % PERIOD == 0
    ensures base + now < U32_MOD
  {
    var h := base / PERIOD;
    assert base == h * PERIOD;
    assert h <= PERIOD - 1;
  }

  /** The value I_GetTime returns after the given readings: `vt_base + vt_now`
      as uint32_t, converted to the `int` return type. */
  function Time(readings: seq<Reading>): Int32
    requires |readings| > 0
  {
    var s := Track(readings);
    BaseLeavesRoom(s.0, s.1);
    ToSigned32(s.0 + s.1)
  }

  /** The static state of I_GetTime. The ghost history of readings lets the
      invariant tie the two fields to `Track`. */
  class VideoClock {
    var vtLast: Reading
    var vtBase: nat
    ghost var readings: seq<Reading>

    ghost predicate Valid()
      reads this
    {
      Track(readings) == (vtBase, vtLast)
    }

    constructor()
      ensures Valid() && readings == []
      ensures vtLast == 0 && vtBase == 0
    {
      vtLast := 0;
      vtBase := 0;
      readings := [];
    }

    /** One call: fold the new reading into (vt_base, vt_last) and return the
        extended count. */
    method GetTime(vtNow: Reading) returns (t: Int32)
      requires Valid()
      modifies this
      ensures Valid()
      ensures readings == old(readings) + [vtNow]
      ensures vtLast == vtNow
      ensures t == Time(readings)
    {
      if vtNow < vtLast {
        vtBase := (vtBase + PERIOD) % U32_MOD;
      }
      vtLast := vtNow;
      TrackStep(readings, vtNow);
      readings := readings + [vtNow];
      BaseLeavesRoom(vtBase, vtNow);
      t := ToSigned32(vtBase + vtNow);
    }
  }

  // ---------------------------------------------------------------------------
  // Properties of the unwrap

  lemma TrackStep(readings: seq<Reading>, now: Reading)
    ensures Track(readings + [now]) ==
      (NextBase(Track(readings).0, Track(readings).1, now), now)
  {
    var r := readings + [now];
    assert r[..|r| - 1] == readings;
  }

  /** Below 2^31 the returned `int` is the 32-bit sum itself. */
  lemma TimeBelowHalf(readings: seq<Reading>)
    requires |readings| > 0
    requires Track(readings).0 + Track(readings).1 < 0x8000_0000
    ensures Time(readings) == Track(readings).0 + Track(readings).1
  {
  }

  /** Each call sets vt_last to the new reading and keeps vt_base a multiple of
      65536; vt_base changes exactly when the reading is smaller than vt_last,
      and then by +65536 (modulo 2^32). */
  lemma BaseAdvance(readings: seq<Reading>, now: Reading)
    ensures Track(readings + [now]).1 == now
    ensures Track(readings + [now]).0 % PERIOD == 0
    ensures Track(readings + [now]).0 != Track(readings).0 <==> now < Track(readings).1
    ensures now < Track(readings).1 ==>
      Track(readings + [now]).0 == (Track(readings).0 + PERIOD) % U32_MOD
  {
    TrackStep(readings, now);
    var b := Track(readings).0;
    if now < Track(readings).1 {
      var h := b / PERIOD;
      assert b == h * PERIOD && h < PERIOD;
      if h + 1 < PERIOD {
        assert (b + PERIOD) % U32_MOD == b + PERIOD;
      } else {
        assert (b + PERIOD) % U32_MOD == 0;
        assert b != 0;
      }
    }
  }

  /** The low 16 bits of the returned time are the reading just taken. */
  lemma TimeLowBits(readings: seq<Reading>)
    requires |readings| > 0
    ensures ToUnsigned32(Time(readings)) == Track(readings).0 + readings[|readings| - 1]
    ensures Time(readings) % PERIOD == readings[|readings| - 1]
  {
    var s := Track(readings);
    BaseLeavesRoom(s.0, s.1);
    var h := s.0 / PERIOD;
    assert s.0 == h * PERIOD;
    var u := s.0 + s.1;
    assert u % PERIOD == s.1;
    if u >= 0x8000_0000 {
      assert Time(readings) == u - U32_MOD;
      assert (u - U32_MOD) % PERIOD == u % PERIOD;
    }
  }

  /** Successive returns do not decrease as long as the 32-bit count stays
      below 2^31 (so that neither vt_base nor the conversion to `int` wraps),
      whatever the new reading is: a smaller reading counts as a wrap. */
  lemma TimeNonDecreasing(readings: seq<Reading>, now: Reading)
    requires |readings| > 0
    requires Track(readings).0 + PERIOD < 0x8000_0000
    ensures Time(readings) <= Time(readings + [now])
  {
    var s := Track(readings);
    TrackStep(readings, now);
    NextBaseBelowHalf(s.0, s.1, now);
    TimeBelowHalf(readings);
    TimeBelowHalf(readings + [now]);
  }

  /** Away from 2^31 a step of the base never lowers `vt_base + vt_now` and
      keeps it below 2^31. */
  lemma NextBaseBelowHalf(base: nat, last: Reading, now: Reading)
    requires base % PERIOD == 0 && base + PERIOD < 0x8000_0000
    ensures NextBase(base, last, now) + now < 0x8000_0000
    ensures base + last <= NextBase(base, last, now) + now
  {
    var h := base / PERIOD;
    assert base == h * PERIOD;
    assert h + 1 < 0x8000;
    assert h + 2 <= 0x8000;
    if now < last {
      assert NextBase(base, last, now) == base + PERIOD;
    }
  }

  // ---------------------------------------------------------------------------
  // The unwrap recovers the true tick count

  /** The readings a 16-bit clock gives for the given true tick counts. */
  function Readings(ticks: seq<nat>): (r: seq<Reading>)
    ensures |r| == |ticks|
    ensures forall i | 0 <= i < |ticks| :: r[i] == ticks[i] % PERIOD
  {
    seq(|ticks|, i requires 0 <= i < |ticks| => ticks[i] % PERIOD)
  }

  /** True tick counts that start within the first period (the clock starts at
      program start, where vt_last is 0), never decrease and advance by less
      than one period between two calls. */
  predicate SampledOften(ticks: seq<nat>) {
    && |ticks| > 0
    && ticks[0] < PERIOD
    && forall i | 0 < i < |ticks| :: ticks[i - 1] <= ticks[i] < ticks[i - 1] + PERIOD
  }

  /** When the clock is read at least once per period, vt_base holds the
      high half of the true count (modulo 2^32) and vt_last its low half. */
  lemma {:induction false} TrackRecoversTicks(ticks: seq<nat>)
    requires SampledOften(ticks)
    ensures Track(Readings(ticks)).0 == ticks[|ticks| - 1] / PERIOD % PERIOD * PERIOD
    ensures Track(Readings(ticks)).1 == ticks[|ticks| - 1] % PERIOD
  {
    var n := |ticks|;
    var r := Readings(ticks);
    if n == 1 {
      assert r[..0] == [];
      assert ticks[0] / PERIOD == 0;
    } else {
      var prefix := ticks[..n - 1];
      assert SampledOften(prefix);
      assert r[..n - 1] == Readings(prefix);
      TrackRecoversTicks(prefix);
      var p, t := ticks[n - 2], ticks[n - 1];
      Carry(p, t);
      if t / PERIOD == p / PERIOD + 1 {
        HighHalfStep(p / PERIOD);
      }
    }
  }

  /** A step of less than one period moves the high half by at most one, and
      by one exactly when the low half goes backwards. */
  lemma Carry(p: nat, t: nat)
    requires p <= t < p + PERIOD
    ensures t / PERIOD == p / PERIOD || t / PERIOD == p / PERIOD + 1
    ensures t / PERIOD == p / PERIOD + 1 <==> t % PERIOD < p % PERIOD
  {
    var h, l := p / PERIOD, p % PERIOD;
    var d := t - p;
    assert t == h * PERIOD + (l + d);
    if l + d < PERIOD {
      DivModUnique(t, PERIOD, h, l + d);
    } else {
      DivModUnique(t, PERIOD, h + 1, l + d - PERIOD);
    }
  }

  /** Adding one period to the stored base is incrementing the high half
      modulo 2^16. */
  lemma HighHalfStep(h: nat)
    ensures (h % PERIOD * PERIOD + PERIOD) % U32_MOD == (h + 1) % PERIOD * PERIOD
  {
    var m := h % PERIOD;
    if m + 1 < PERIOD {
      assert (h + 1) % PERIOD == m + 1;
    } else {
      assert (h + 1) % PERIOD == 0;
    }
  }

  /** The count modulo 2^32 is its high half (mod 2^16) times 2^16 plus its
      low half. */
  lemma SplitCount(t: nat)
    ensures t % U32_MOD == t / PERIOD % PERIOD * PERIOD + t % PERIOD
  {
    var h := t / PERIOD;
    var q := h / PERIOD;
    assert t == h * PERIOD + t % PERIOD;
    assert h == q * PERIOD + h % PERIOD;
    assert t == q * U32_MOD + (h % PERIOD * PERIOD + t % PERIOD);
    DivModUnique(t, U32_MOD, q, h % PERIOD * PERIOD + t % PERIOD);
  }

  /** I_GetTime returns the true tick count, as a 32-bit pattern, whenever it is
      called at least once per 65536 tics; below 2^31 tics it is exactly the
      true count. */
  lemma TimeCountsTicks(ticks: seq<nat>)
    requires SampledOften(ticks)
    ensures ToUnsigned32(Time(Readings(ticks))) == ticks[|ticks| - 1] % U32_MOD
    ensures ticks[|ticks| - 1] < 0x8000_0000 ==> Time(Readings(ticks)) == ticks[|ticks| - 1]
  {
    var t := ticks[|ticks| - 1];
    TrackRecoversTicks(ticks);
    TimeLowBits(Readings(ticks));
    SplitCount(t);
  }
}
