/**
 * The first-order delta-sigma (pulse-density) encoder of `Player::pdm`.
 *
 * One 16-bit sample becomes 32 one-bit decisions, shifted into a word from
 * the right so that the first decision ends up as the most significant bit.
 * Each decision compares the sample with the error accumulator
 * `sample_error` and feeds back the full-scale value that was emitted. The
 * accumulator carries over from one sample to the next.
 *
 * These functions are the specification of the loop in
 * `PlayerEngine.Player.Pdm`; the lemmas are the encoder's laws.
 */
module Pdm {

  import opened Ints

  /** Output bits per sample (the oversampling ratio). */
  const OVERSAMPLING: nat := 32

  /** One decision: the bit emitted and the accumulator afterwards. */
  datatype Step = Step(bit: bool, error: Int16)

  /** The loop's state after some iterations: the word shifted so far and the accumulator. */
  datatype Run = Run(word: nat, error: Int16)

  function BitValue(b: bool): nat
  {
    if b then 1 else 0
  }

  /**
   * One iteration of the encoder loop: emit 1 when the sample is at least
   * the accumulator, and add the gap between the emitted full-scale value
   * and the sample to the accumulator. The result type `Int16` says that
   * the sum always fits an `int16_t`. Emitting 1 never lowers the
   * accumulator, emitting 0 never raises it and never leaves it at
   * `INT16_MIN`, and an accumulator above `INT16_MIN` stays above it.
   */
  function PdmStep(e: Int16, s: Int16): (r: Step)
    ensures r.bit <==> s >= e
    ensures r.bit ==> r.error >= e
    ensures !r.bit ==> INT16_MIN < r.error <= e
    ensures e > INT16_MIN ==> r.error > INT16_MIN
  {
    if s >= e then Step(true, e + (INT16_MAX - s)) else Step(false, e + (INT16_MIN - s))
  }

  /** The first `n` iterations of the loop, from accumulator `e` and an empty word. */
  function PdmRun(e: Int16, s: Int16, n: nat): (r: Run)
    ensures r.word < Pow2(n)
  {
    if n == 0 then Run(0, e)
    else
      var prev := PdmRun(e, s, n - 1);
      var step := PdmStep(prev.error, s);
      Run(prev.word * 2 + BitValue(step.bit), step.error)
  }

  /** The decision taken in iteration `i` (counting from 0). */
  function Decision(e: Int16, s: Int16, i: nat): bool
  {
    PdmStep(PdmRun(e, s, i).error, s).bit
  }

  function Pow2(n: nat): (p: nat)
    ensures p >= 1
  {
    if n == 0 then 1 else 2 * Pow2(n - 1)
  }

  /** The 32-bit word `pdm(s)` returns when the accumulator holds `e`. */
  function PdmWord(e: Int16, s: Int16): UInt32
  {
    Pow2Is32();
    PdmRun(e, s, OVERSAMPLING).word
  }

  /** The accumulator after `pdm(s)`; starting above `INT16_MIN`, it stays above. */
  function PdmError(e: Int16, s: Int16): (r: Int16)
    ensures e > INT16_MIN ==> r > INT16_MIN
  {
    assert e > INT16_MIN ==> PdmRun(e, s, OVERSAMPLING).error > INT16_MIN by {
      if e > INT16_MIN {
        RunStaysAboveMin(e, s, OVERSAMPLING);
      }
    }
    PdmRun(e, s, OVERSAMPLING).error
  }

  /** Number of 1 bits among the low `n` bits of `w`. */
  function Popcount(w: nat, n: nat): nat
  {
    if n == 0 then 0 else w % 2 + Popcount(w / 2, n - 1)
  }

  lemma {:induction false} Pow2Add(a: nat, b: nat)
    ensures Pow2(a + b) == Pow2(a) * Pow2(b)
  {
    if b > 0 {
      Pow2Add(a, b - 1);
    }
  }

  lemma Pow2Is32()
    ensures Pow2(32) == TWO_32
  {
    assert Pow2(4) == 16;
    Pow2Add(4, 4);
    Pow2Add(8, 8);
    Pow2Add(16, 16);
  }

  lemma {:induction false} RunStaysAboveMin(e: Int16, s: Int16, n: nat)
    requires e > INT16_MIN
    ensures PdmRun(e, s, n).error > INT16_MIN
  {
    if n > 0 {
      RunStaysAboveMin(e, s, n - 1);
    }
  }

  /** Shifting one bit in: the new lowest bit is `b` and the bits above are the old word. */
  lemma ShiftIn(w: nat, b: bool)
    ensures (w * 2 + BitValue(b)) % 2 == BitValue(b)
    ensures (w * 2 + BitValue(b)) / 2 == w
  {
    DivModUnique(w * 2 + BitValue(b), 2, w, BitValue(b));
  }

  /** Halving, then dividing by `b`, is dividing by `2 * b`. */
  lemma DivTwice(x: nat, b: nat)
    requires b > 0
    ensures x / (2 * b) == (x / 2) / b
  {
    var q, r := x / 2, x % 2;
    var q2, r2 := q / b, q % b;
    assert x == 2 * q + r;
    assert q == q2 * b + r2 by {
      NatDiv(q, b);
    }
    assert x == q2 * (2 * b) + (2 * r2 + r);
    assert 0 <= 2 * r2 + r < 2 * b;
    DivModUnique(x, 2 * b, q2, 2 * r2 + r);
  }

  /**
   * Decision `i` of a run of `n` is bit `n-1-i` of its word: the first
   * iteration decides the most significant bit and the last one bit 0.
   */
  lemma {:induction false} WordBit(e: Int16, s: Int16, n: nat, i: nat)
    requires i < n
    ensures (PdmRun(e, s, n).word / Pow2(n - 1 - i)) % 2 == BitValue(Decision(e, s, i))
  {
    var prev := PdmRun(e, s, n - 1);
    var b := PdmStep(prev.error, s).bit;
    var w := PdmRun(e, s, n).word;
    assert w == prev.word * 2 + BitValue(b);
    ShiftIn(prev.word, b);
    if i < n - 1 {
      WordBit(e, s, n - 1, i);
      var p := Pow2(n - 2 - i);
      assert Pow2(n - 1 - i) == 2 * p;
      DivTwice(w, p);
    }
  }

  /** The bit count of a run's word, scaled by the full range, is what the accumulator did not absorb. */
  lemma {:induction false} RunConservation(e: Int16, s: Int16, n: nat)
    ensures 65535 * Popcount(PdmRun(e, s, n).word, n) ==
      (PdmRun(e, s, n).error - e) + n * (s - INT16_MIN)
  {
    if n > 0 {
      RunConservation(e, s, n - 1);
      var prev := PdmRun(e, s, n - 1);
      var step := PdmStep(prev.error, s);
      ShiftIn(prev.word, step.bit);
      assert n * (s - INT16_MIN) == (n - 1) * (s - INT16_MIN) + (s - INT16_MIN);
    }
  }

  /**
   * Conservation law of the noise shaper, for one `pdm` call: every 1 bit
   * stands for the full range 65535, and what the bits do not account for
   * of 32 copies of the sample (measured from `INT16_MIN`) is exactly what
   * the accumulator gained.
   */
  lemma PdmConservation(e: Int16, s: Int16)
    ensures 65535 * Popcount(PdmWord(e, s), 32) == (PdmError(e, s) - e) + 32 * (s - INT16_MIN)
  {
    RunConservation(e, s, OVERSAMPLING);
  }

  /** A full-scale positive sample emits only ones and leaves the accumulator as it was. */
  lemma {:induction false} RunOfMax(e: Int16, n: nat)
    ensures PdmRun(e, INT16_MAX, n) == Run(Pow2(n) - 1, e)
  {
    if n > 0 {
      RunOfMax(e, n - 1);
    }
  }

  /** One iteration on a full-scale negative sample, from an accumulator above `INT16_MIN`, shifts in a 0. */
  lemma MinStep(e: Int16, j: nat)
    requires PdmRun(e, INT16_MIN, j).error > INT16_MIN
    ensures PdmRun(e, INT16_MIN, j + 1) == Run(PdmRun(e, INT16_MIN, j).word * 2, PdmRun(e, INT16_MIN, j).error)
  {
    var prev := PdmRun(e, INT16_MIN, j);
    assert PdmStep(prev.error, INT16_MIN) == Step(false, prev.error);
  }

  lemma DoubleShift(w: nat, p: nat, x: nat, p2: nat)
    requires x == w * p && p2 == 2 * p
    ensures x * 2 == w * p2
  {
  }

  /** Once the accumulator is above `INT16_MIN`, a full-scale negative sample shifts in zeros and leaves it as it was. */
  lemma {:induction false} RunOfMinAfter(e: Int16, k: nat, n: nat)
    requires PdmRun(e, INT16_MIN, k).error > INT16_MIN
    ensures PdmRun(e, INT16_MIN, k + n) ==
      Run(PdmRun(e, INT16_MIN, k).word * Pow2(n), PdmRun(e, INT16_MIN, k).error)
  {
    if n > 0 {
      var base := PdmRun(e, INT16_MIN, k);
      RunOfMinAfter(e, k, n - 1);
      var prev := PdmRun(e, INT16_MIN, k + (n - 1));
      assert prev == Run(base.word * Pow2(n - 1), base.error);
      MinStep(e, k + (n - 1));
      DoubleShift(base.word, Pow2(n - 1), prev.word, Pow2(n));
    } else {
      var base := PdmRun(e, INT16_MIN, k);
      assert base.word * Pow2(0) == base.word;
    }
  }

  /** `pdm(INT16_MAX) == 0xFFFFFFFF` for every prior accumulator, which is left unchanged. */
  lemma PdmOfMax(e: Int16)
    ensures PdmWord(e, INT16_MAX) == 0xFFFF_FFFF
    ensures PdmError(e, INT16_MAX) == e
  {
    RunOfMax(e, OVERSAMPLING);
    Pow2Is32();
  }

  /** `pdm(INT16_MIN) == 0` from every accumulator the encoder can reach, which is left unchanged. */
  lemma PdmOfMin(e: Int16)
    requires e > INT16_MIN
    ensures PdmWord(e, INT16_MIN) == 0
    ensures PdmError(e, INT16_MIN) == e
  {
    assert PdmRun(e, INT16_MIN, 0) == Run(0, e);
    RunOfMinAfter(e, 0, OVERSAMPLING);
  }

  /** From the one accumulator the encoder never reaches again, `pdm(INT16_MIN)` emits a single 1, first. */
  lemma PdmOfMinFromMin()
    ensures PdmWord(INT16_MIN, INT16_MIN) == TWO_31
    ensures PdmError(INT16_MIN, INT16_MIN) == INT16_MAX
  {
    assert PdmRun(INT16_MIN, INT16_MIN, 1) == Run(1, INT16_MAX);
    RunOfMinAfter(INT16_MIN, 1, OVERSAMPLING - 1);
    Pow2Add(1, 31);
    Pow2Is32();
  }

  /** The top bit of `pdm(s)` is the first decision: 1 exactly when `s >= e`. */
  lemma PdmTopBit(e: Int16, s: Int16)
    ensures PdmWord(e, s) >= TWO_31 <==> s >= e
  {
    WordBit(e, s, OVERSAMPLING, 0);
    Pow2Add(31, 1);
    Pow2Is32();
    var p := Pow2(31);
    var w := PdmWord(e, s);
    assert w < 2 * p;
    assert w / p == (if w >= p then 1 else 0) by {
      NatDiv(w, p);
      var q: int := w / p;
      MulSign(q - 1, p);
    }
  }
}
