/**
  Direct digital synthesis used by the AFSK processor: two 32-bit unsigned
  phase accumulators (the tone phase and the FM carrier phase) whose bits
  18..25 index a 256-entry sine table. Accumulators are `U32` values and
  every addition wraps modulo 2^32. These are assumed widths (the
  declarations are not shown).
 */
module Synth {
  import opened AfskTypes

  /** `1 << 18`: one table position in accumulator units. */
  const TableStep: nat := 0x4_0000

  /** `64 << 18`: a quarter of the table. */
  const QuarterTurn: U32 := 0x0100_0000

  /**
    `(x & 0x03FC0000) >> 18`, the eight table-index bits 18..25 of an
    accumulator: the index `i` is the table position whose step contains
    `x` once `x` is reduced modulo 2^26 (bits above 25 are masked away).
   */
  function TableIndex(x: U32): (i: nat)
    ensures i < TableSize
    ensures i * 0x4_0000 <= x % 0x400_0000 < i * 0x4_0000 + 0x4_0000
  {
    (x / 0x4_0000) % 256
  }

  /**
    `acc + inc` on a 32-bit unsigned accumulator: the exact sum, wrapped
    around at most once, and it wraps exactly when the sum reaches 2^32.
   */
  function Accumulate(acc: U32, inc: U32): (r: U32)
    ensures r == acc + inc || r == acc + inc - Modulus32
    ensures r < acc <==> acc + inc >= Modulus32
  {
    (acc + inc) % Modulus32
  }

  /** From a fixed accumulator value, distinct increments give distinct results. */
  lemma AccumulateInjective(acc: U32, a: U32, b: U32)
    ensures Accumulate(acc, a) == Accumulate(acc, b) <==> a == b
  {
  }

  /**
    Periodicity: advancing an accumulator by `k` whole table steps moves
    its table index `k` positions around the table, including across the
    wrap-around of the accumulator.
   */
  lemma {:induction false} IndexAdvance(x: U32, k: nat)
    requires k < TableSize
    ensures TableIndex(Accumulate(x, k * 0x4_0000)) == (TableIndex(x) + k) % TableSize
  {
    var y := Accumulate(x, k * 0x4_0000);
    var n := x / 0x4_0000;
    DivShift(x, k);
    if y == x + k * 0x4_0000 {
      assert y / 0x4_0000 == n + k;
      ModAdd(n, k);
    } else {
      assert y as int + 0x4000 * 0x4_0000 == x + k * 0x4_0000;
      DivShift(y, 0x4000);
      assert y / 0x4_0000 == n + k - 0x4000;
      ModAdd(n + k - 0x4000, 0x4000);
      ModAdd(n, k);
    }
    assert TableIndex(y) == (y / 0x4_0000) % 256 && TableIndex(x) == n % 256;
  }

  lemma {:induction false} DivShift(a: nat, k: nat)
    ensures (a + k * 0x4_0000) / 0x4_0000 == a / 0x4_0000 + k
  {
    var q, m := a / 0x4_0000, a % 0x4_0000;
    assert a + k * 0x4_0000 == (q + k) * 0x4_0000 + m;
  }

  lemma ModAdd(a: int, k: nat)
    ensures (a + k) % 256 == (a % 256 + k) % 256
  {
  }

  /**
    The in-phase read, taken at `phase + (64 << 18)`, lands exactly a
    quarter of the table (90 degrees) ahead of the quadrature read taken at
    `phase`, for every accumulator value including those near wrap-around.
   */
  lemma QuarterTurnAhead(x: U32)
    ensures TableIndex(Accumulate(x, QuarterTurn)) == (TableIndex(x) + TableSize / 4) % TableSize
  {
    IndexAdvance(x, 64);
  }

  /** The tone phase after a tone tick: `tone_phase += inc` with wrap-around. */
  function AdvanceTone(tonePhase: U32, inc: U32): (r: U32)
    ensures (r - tonePhase - inc) % Modulus32 == 0
  {
    AccumulateMoves(tonePhase, inc, inc);
    Accumulate(tonePhase, inc)
  }

  /**
    Frequency deviation `frq = tone_sample * afsk_bw`: the signed product,
    as the 32-bit pattern it adds to the unsigned carrier phase.
   */
  function Deviation(toneSample: I8, bw: I32): (r: U32)
    ensures (r - toneSample * bw) % Modulus32 == 0
  {
    Wrap32(toneSample * bw)
  }

  /**
    The carrier phase after one sample: `phase + frq` with wrap-around. The
    unsigned addition of the wrapped product moves the phase by exactly the
    signed product modulo 2^32, so a negative tone sample turns the carrier
    backwards.
   */
  function AdvanceCarrier(phase: U32, toneSample: I8, bw: I32): (r: U32)
    ensures (r - phase - toneSample * bw) % Modulus32 == 0
  {
    AccumulateMoves(phase, Deviation(toneSample, bw), toneSample * bw);
    Accumulate(phase, Deviation(toneSample, bw))
  }

  /** An accumulator advanced by an increment congruent to `v` moves by `v` modulo 2^32. */
  lemma AccumulateMoves(acc: U32, inc: U32, v: int)
    requires (inc - v) % Modulus32 == 0
    ensures (Accumulate(acc, inc) - acc - v) % Modulus32 == 0
  {
  }
}
