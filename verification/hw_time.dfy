/** Hardware timestamps: the 64-bit counter read in two halves, the expansion of
    32-bit timestamps, and the conversion of cycles to seconds. */
module HwTime {
  import opened Words

  const NANOS: int := 1_000_000_000
  const PICOS: int := 1_000_000_000_000

  // ------------------------------------------------------------------
  // Reading the counter

  /** The upper register at time t. */
  function Hi(t: nat): (h: U32) { Wrap32(t / TWO_32) }

  function Signed64(x: U64): (s: int) { if x < 0x8000_0000_0000_0000 then x else x - 0x1_0000_0000_0000_0000 }

  /** `exanic_read_hw_time_64`, from the three values read. */
  function Join(hi1: U32, lo: U32, hi2: U32): (t: int)
  {
    var hi := if hi1 == hi2 then hi1 else if lo < 0x8000_0000 then hi2 else hi1;
    Signed64(hi * TWO_32 + lo)
  }

  /** The counter at time t as a signed 64-bit value. */
  function Clock(t: nat): (c: int) { Signed64(Wrap64(t)) }

  lemma Halves(t: nat)
    ensures Wrap64(t) == Hi(t) * TWO_32 + Wrap32(t)
  {
    var q := t / TWO_32;
    assert t == TWO_32 * q + t % TWO_32;
    var a, b := q / TWO_32, q % TWO_32;
    assert q == TWO_32 * a + b;
    assert t == TWO_64 * a + (TWO_32 * b + t % TWO_32);
    DivModUnique(t, TWO_64, a, TWO_32 * b + t % TWO_32);
  }

  /** Reads no more than 2^31 ticks apart give the counter at the middle one. */
  lemma JoinRight(t1: nat, t2: nat, t3: nat)
    requires t1 <= t2 <= t3 <= t1 + TWO_31
    ensures Join(Hi(t1), Wrap32(t2), Hi(t3)) == Clock(t2)
  {
    Halves(t2);
    var e1, e2, e3 := t1 / TWO_32, t2 / TWO_32, t3 / TWO_32;
    assert e1 <= e2 <= e3 <= e1 + 1;
    assert t2 == TWO_32 * e2 + Wrap32(t2);
    if e1 == e3 {
      assert e2 == e1;
    } else {
      assert Hi(t1) != Hi(t3);
      assert t1 < TWO_32 * e3 <= t3;
    }
  }

  /** And that is the exact limit: for every longer span some reads go wrong. */
  lemma JoinIff(d: nat)
    ensures (forall t1: nat, t2: nat :: t1 <= t2 <= t1 + d ==> Join(Hi(t1), Wrap32(t2), Hi(t1 + d)) == Clock(t2)) <==> d <= TWO_31
  {
    if d <= TWO_31 {
      forall t1: nat, t2: nat | t1 <= t2 <= t1 + d
        ensures Join(Hi(t1), Wrap32(t2), Hi(t1 + d)) == Clock(t2)
      {
        JoinRight(t1, t2, t1 + d);
      }
    } else {
      JoinWrong(d);
    }
  }

  lemma JoinWrong(d: nat)
    requires d > TWO_31
    ensures exists t1: nat, t2: nat :: t1 <= t2 <= t1 + d && Join(Hi(t1), Wrap32(t2), Hi(t1 + d)) != Clock(t2)
  {
    var t1, t2: nat := TWO_32 - 1, TWO_32 + TWO_31;
    assert t1 <= t2 <= t1 + d;
    Halves(t2);
    assert Hi(t1) == 0 && Hi(t2) == 1 && Wrap32(t2) == TWO_31;
    assert Join(0, TWO_31, Hi(t1 + d)) == TWO_31;
    assert Join(Hi(t1), Wrap32(t2), Hi(t1 + d)) != Clock(t2);
  }

  // ------------------------------------------------------------------
  // Expanding a timestamp

  /** A signed 64-bit value. */
  type S64 = x: int | -0x8000_0000_0000_0000 <= x < 0x8000_0000_0000_0000

  /** How far clock value x is ahead of clock value y, the shorter way round. */
  function Ahead(x: S64, y: S64): (d: S64) { Signed64(Wrap64(x - y)) }

  /** `exanic_expand_timestamp`, given the clock. */
  function Expand(tickHz: U32, timestamp: U32, now: S64): (t: S64)
    ensures tickHz > 0 ==> t % TWO_32 == timestamp && -TWO_31 <= Ahead(t, now) < TWO_31
  {
    if tickHz == 0 then 0 else Signed64(Wrap64(now + Signed32(Wrap32(timestamp - now))))
  }

  /** The expansion is the only such value, so a packet stamped less than 2^31
      ticks from the clock gets its full time back, and no other packet does;
      the clock's own turn from 2^63 - 1 to -2^63 makes no difference. */
  lemma ExpandIff(tickHz: U32, stamped: S64, now: S64)
    requires tickHz > 0
    ensures Expand(tickHz, Wrap32(stamped), now) == stamped <==> -TWO_31 <= Ahead(stamped, now) < TWO_31
  {
    var t := Expand(tickHz, Wrap32(stamped), now);
    if -TWO_31 <= Ahead(stamped, now) < TWO_31 {
      AheadInjective(t, stamped, now);
    }
  }

  lemma AheadInjective(x: S64, y: S64, now: S64)
    requires x % TWO_32 == y % TWO_32
    requires -TWO_31 <= Ahead(x, now) < TWO_31 && -TWO_31 <= Ahead(y, now) < TWO_31
    ensures x == y
  {
    hide Ahead;
    var j := AheadTurns(x, now);
    var k := AheadTurns(y, now);
    assert Ahead(x, now) - Ahead(y, now) == TWO_32 * (x / TWO_32 - y / TWO_32 - TWO_32 * (j - k));
  }

  lemma AheadTurns(x: S64, now: S64) returns (k: int)
    ensures x - now == Ahead(x, now) + TWO_64 * k
  {
    var q, r := (x - now) / TWO_64, Wrap64(x - now);
    k := if r < 0x8000_0000_0000_0000 then q else q + 1;
  }

  // ------------------------------------------------------------------
  // Cycles to time

  /** The products of the conversion fit in 64 bits whatever the tick rate. */
  lemma PicosFit(h: int, frac: int)
    requires 0 <= frac < h < TWO_32
    ensures 0 <= frac * (PICOS / h) <= PICOS && 0 <= frac * (PICOS % h) < TWO_64
  {
    var a, b := PICOS / h, PICOS % h;
    assert frac * a <= h * a <= PICOS by {
      MulMono(frac, h, a);
    }
    assert frac * b <= h * h by {
      MulMono(frac, h, b);
      MulMono(b, h, h);
    }
    MulMono(h, TWO_32 - 1, h);
    MulMono(h, TWO_32 - 1, TWO_32 - 1);
  }

  lemma MulMono(x: int, y: int, k: int)
    requires 0 <= x <= y && 0 <= k
    ensures 0 <= x * k <= y * k && x * k == k * x && y * k == k * y
  {
  }

  /** `exanic_cycles_to_timespecps`: seconds and picoseconds, in 64-bit steps. */
  function ToPicos(tickHz: U32, cycles: U64): (r: (nat, U64))
    requires tickHz > 0
  {
    var frac := cycles % tickHz;
    PicosFit(tickHz, frac);
    var whole: U64 := frac * (PICOS / tickHz);
    var part: U64 := frac * (PICOS % tickHz);
    (cycles / tickHz, Wrap64(whole + part / tickHz))
  }

  /** `exanic_cycles_to_timespec`: seconds and nanoseconds. */
  function ToNanos(tickHz: U32, cycles: U64): (r: (nat, nat))
    requires tickHz > 0
  {
    var frac: U32 := cycles % tickHz;
    var scaled: U64 := frac * NANOS;
    (cycles / tickHz, scaled / tickHz)
  }

  /** x * (h * a + b) / h, split as the code splits it. */
  lemma SplitQuotient(x: int, h: int, a: int, b: int)
    requires 0 < h
    ensures x * (h * a + b) / h == x * a + x * b / h
  {
    var y := x * b;
    assert x * (h * a + b) == h * (x * a) + y by {
      assert x * (h * a) == h * (x * a);
    }
    assert h * (x * a) + y == h * (x * a + y / h) + y % h by {
      assert h * (x * a + y / h) == h * (x * a) + h * (y / h);
    }
    DivModUnique(h * (x * a) + y, h, x * a + y / h, y % h);
  }

  lemma Below(x: int, h: int, k: int)
    requires 0 <= x < h && 0 < k
    ensures 0 <= x * k / h < k
  {
    var q := x * k / h;
    assert x * k == h * q + x * k % h;
    MulMono(x, h - 1, k);
    assert (h - 1) * k == h * k - k;
    assert h * (k - q) == h * k - h * q;
    Positive(h, k - q);
    MulMono(0, x, k);
    assert h * (q + 1) == h * q + h;
    Positive(h, q + 1);
  }

  lemma PicosSteps(tickHz: U32, cycles: U64)
    requires tickHz > 0
    ensures var r := ToPicos(tickHz, cycles);
            r.0 == cycles / tickHz && r.1 == (cycles % tickHz) * PICOS / tickHz < PICOS
  {
    var frac, a, b := cycles % tickHz, PICOS / tickHz, PICOS % tickHz;
    PicosFit(tickHz, frac);
    SplitQuotient(frac, tickHz, a, b);
    assert PICOS == tickHz * a + b;
    Below(frac, tickHz, PICOS);
  }

  /** Picoseconds are the exact floor: nothing overflows and nothing is lost by
      splitting the product. */
  lemma PicosExact(tickHz: U32, cycles: U64)
    requires tickHz > 0
    ensures var r := ToPicos(tickHz, cycles);
            r.1 == (cycles % tickHz) * PICOS / tickHz < PICOS && r.0 * PICOS + r.1 == cycles * PICOS / tickHz
  {
    hide ToPicos;
    PicosSteps(tickHz, cycles);
    var sec, frac := cycles / tickHz, cycles % tickHz;
    SplitQuotient(PICOS, tickHz, sec, frac);
    assert cycles == tickHz * sec + frac;
  }

  /** Dropping three digits of the numerator and of the quotient is the same. */
  lemma Thousand(x: int, h: int)
    requires 0 <= x && 0 < h
    ensures (x * 1000 / h) / 1000 == x / h
  {
    var q, r := x / h, x % h;
    assert x == h * q + r;
    SplitQuotient(1000, h, q, r);
    Below(r, h, 1000);
  }

  /** The nanosecond form is the picosecond form cut to nanoseconds. */
  lemma NanosCut(tickHz: U32, cycles: U64)
    requires tickHz > 0
    ensures var p, n := ToPicos(tickHz, cycles), ToNanos(tickHz, cycles);
            n.0 == p.0 && n.1 == p.1 / 1000 < NANOS
  {
    hide ToPicos;
    PicosSteps(tickHz, cycles);
    var frac: int := cycles % tickHz;
    Thousand(frac * NANOS, tickHz);
    assert frac * NANOS * 1000 == frac * PICOS;
  }
}
