/**
 * `Player` of pirate/player.h as an object, field for field.
 *
 * The action FIFO is the fixed array of 16 slots with its two free-running
 * `uint32_t` cursors; a slot is chosen with `cursor & 15`. The I2S
 * transmitter and the callbacks are the two sequences `output` and
 * `fired`, which the methods extend. Every method is proved to move the
 * object's abstract value, `Model()`, exactly as the function of
 * `PlayerSpec` that specifies it; the scheduling and encoding laws are
 * proved there.
 */
module PlayerEngine {

  import opened Ints
  import opened Pdm
  import opened PlayerSpec

  /** `m <<= 1` on a `uint32_t`: the top bit is lost. */
  function ShiftLeft1(m: UInt32): (r: UInt32)
    ensures m < TWO_31 ==> r == 2 * m
  {
    WrapU32(m * 2)
  }

  /** `m |= 1` */
  function SetLowBit(m: UInt32): (r: UInt32)
    ensures r % 2 == 1
    ensures m % 2 == 0 ==> r == m + 1
  {
    if m % 2 == 0 then m + 1 else m
  }

  /** The `n` slots of `buf` read from cursor `o` on, each taken modulo the buffer's length (`& 15`). */
  function Window(buf: seq<Action>, o: nat, n: nat): (w: seq<Action>)
    requires |buf| == FIFO_LEN
    ensures |w| == n
    ensures forall k :: 0 <= k < n ==> w[k] == buf[(o + k) % 16]
  {
    seq(n, k requires 0 <= k < n => buf[(o + k) % 16])
  }

  /** Number of actions in the FIFO: `action_fifo_in - action_fifo_out` in `uint32_t`. */
  function ContentSize(fifoIn: UInt32, fifoOut: UInt32): (r: UInt32)
    ensures r == 0 <==> fifoIn == fifoOut
    ensures (fifoOut + r) % 16 == fifoIn % 16
  {
    var r := WrapU32(fifoIn - fifoOut);
    assert fifoOut + r == fifoIn || fifoOut + r == fifoIn + TWO_32;
    assert (fifoOut + r) % 16 == fifoIn % 16 by {
      if fifoOut + r != fifoIn {
        ModShift(fifoIn, 0x1000_0000, 16);
      }
    }
    r
  }

  /** Taking the head out (`action_fifo_out++`) shrinks the content by one. */
  lemma ContentAfterPop(fifoIn: UInt32, fifoOut: UInt32)
    requires fifoIn != fifoOut
    ensures ContentSize(fifoIn, WrapU32(fifoOut + 1)) == ContentSize(fifoIn, fifoOut) - 1
  {
  }

  /** Appending (`action_fifo_in++`) below capacity grows the content by one. */
  lemma ContentAfterPush(fifoIn: UInt32, fifoOut: UInt32)
    requires ContentSize(fifoIn, fifoOut) < FIFO_LEN
    ensures ContentSize(WrapU32(fifoIn + 1), fifoOut) == ContentSize(fifoIn, fifoOut) + 1
  {
  }

  /** Advancing the read cursor drops the window's first slot. */
  lemma WindowAfterPop(buf: seq<Action>, o: UInt32, n: nat)
    requires |buf| == FIFO_LEN && n > 0
    ensures Window(buf, WrapU32(o + 1), n - 1) == Window(buf, o, n)[1..]
  {
    var w, w1 := Window(buf, o, n), Window(buf, WrapU32(o + 1), n - 1);
    forall k | 0 <= k < n - 1
      ensures w1[k] == w[k + 1]
    {
      WrapU32Mod16Add(o + 1, k);
    }
  }

  /** `action_fifo_out++` on a non-empty queue: the pending actions lose their head. */
  lemma PopPending(buf: seq<Action>, fifoIn: UInt32, fifoOut: UInt32)
    requires |buf| == FIFO_LEN && fifoIn != fifoOut && ContentSize(fifoIn, fifoOut) <= FIFO_LEN
    ensures ContentSize(fifoIn, WrapU32(fifoOut + 1)) == ContentSize(fifoIn, fifoOut) - 1
    ensures Window(buf, WrapU32(fifoOut + 1), ContentSize(fifoIn, WrapU32(fifoOut + 1)))
         == Window(buf, fifoOut, ContentSize(fifoIn, fifoOut))[1..]
  {
    ContentAfterPop(fifoIn, fifoOut);
    WindowAfterPop(buf, fifoOut, ContentSize(fifoIn, fifoOut));
  }

  /** Writing slot `(o + n) % 16` behind a window of `n < 16` slots appends to it and leaves it otherwise alone. */
  lemma WindowAfterPush(buf: seq<Action>, o: nat, n: nat, a: Action)
    requires |buf| == FIFO_LEN && n < FIFO_LEN
    ensures Window(buf[(o + n) % 16 := a], o, n + 1) == Window(buf, o, n) + [a]
  {
    var w, w1 := Window(buf, o, n), Window(buf[(o + n) % 16 := a], o, n + 1);
    forall k | 0 <= k < n
      ensures w1[k] == w[k]
    {
      ModDistinct(o, k, n);
    }
    assert w1 == w + [a];
  }

  /** Two cursor positions fewer than 16 apart name different slots. */
  lemma ModDistinct(o: nat, k: nat, n: nat)
    requires k < n < 16
    ensures (o + k) % 16 != (o + n) % 16
  {
  }

  /** An offset from a wrapped cursor names the same slot as from the exact one. */
  lemma WrapU32Mod16Add(x: int, k: nat)
    ensures (WrapU32(x) + k) % 16 == (x + k) % 16
  {
    var j := x / TWO_32;
    assert x + k == WrapU32(x) + k + (j * 0x1000_0000) * 16;
    ModShift(WrapU32(x) + k, j * 0x1000_0000, 16);
  }

  lemma Pow2Below32(i: nat)
    requires i < 32
    ensures Pow2(i) <= TWO_31
    decreases 31 - i
  {
    if i < 31 {
      Pow2Below32(i + 1);
    } else {
      Pow2Is32();
    }
  }

  class Player {

    var sampleError: Int16                 // sample_error
    const actionFifo: array<Action>        // action_fifo
    var actionFifoIn: UInt32               // action_fifo_in
    var actionFifoOut: UInt32              // action_fifo_out
    var inputSts: Int32                    // input_sts
    var output: seq<UInt32>                // words passed to i2s_write_sample
    var fired: seq<ActionId>               // callbacks invoked

    ghost predicate Valid()
      reads this
    {
      actionFifo.Length == FIFO_LEN
      && ContentSize(actionFifoIn, actionFifoOut) <= FIFO_LEN
      && sampleError > INT16_MIN
    }

    /** The pending actions, head first. */
    function Pending(): seq<Action>
      reads this, actionFifo
      requires actionFifo.Length == FIFO_LEN
    {
      Window(actionFifo[..], actionFifoOut, ContentSize(actionFifoIn, actionFifoOut))
    }

    /** The abstract value of the player. */
    function Model(): State
      reads this, actionFifo
      requires actionFifo.Length == FIFO_LEN
    {
      State(sampleError, Sched(inputSts, Pending(), fired), output)
    }

    /** Construction, with the clock value `input_sts` starts from (the C++ member has no initialiser). */
    constructor (now: Int32)
      ensures Valid() && fresh(actionFifo)
      ensures Model() == Initial(now)
    {
      sampleError := 0;
      actionFifo := new Action[FIFO_LEN](_ => Action(0, 0));
      actionFifoIn, actionFifoOut := 0, 0;
      inputSts := now;
      output, fired := [], [];
      new;
      assert Pending() == [];
    }

    /** `pdm(sample)`: 32 noise-shaped one-bit decisions, first in the top bit. */
    method Pdm(sample: Int16) returns (m: UInt32)
      modifies this`sampleError
      ensures m == PdmWord(old(sampleError), sample)
      ensures sampleError == PdmError(old(sampleError), sample)
    {
      ghost var e0 := sampleError;
      m := 0;
      var i: nat := 0;
      while i < 32
        invariant i <= 32
        invariant PdmRun(e0, sample, i) == Run(m, sampleError)
      {
        ghost var step := PdmStep(sampleError, sample);
        Pow2Below32(i);
        m := ShiftLeft1(m);
        if sample >= sampleError {
          m := SetLowBit(m);
          sampleError := Wrap16(sampleError + (INT16_MAX - sample));
        } else {
          sampleError := Wrap16(sampleError + (INT16_MIN - sample));
        }
        assert sampleError == step.error;
        i := i + 1;
      }
    }

    /** `push_sample(sample)`: write the encoded word, tick the clock, fire the head if it is due. */
    method PushSample(sample: Int16)
      requires Valid()
      modifies this
      ensures Valid()
      ensures Model() == Sample(old(Model()), sample)
      ensures output == old(output) + [PdmWord(old(sampleError), sample)]
      ensures inputSts == Add32(old(inputSts), 1)
      ensures actionFifoIn == old(actionFifoIn) && actionFifo[..] == old(actionFifo[..])
    {
      var w := Pdm(sample);
      output := output + [w];                          // i2s_write_sample
      AdvanceClock();
    }

    /** The second half of `push_sample`: `input_sts++`, then fire and drop the head if it is due. */
    method AdvanceClock()
      requires Valid()
      modifies this`inputSts, this`actionFifoOut, this`fired
      ensures Valid()
      ensures Sched(inputSts, Pending(), fired) == Tick(old(Sched(inputSts, Pending(), fired)))
      ensures inputSts == Add32(old(inputSts), 1)
      ensures actionFifoOut == old(actionFifoOut) || actionFifoOut == WrapU32(old(actionFifoOut) + 1)
    {
      ghost var buf, n := actionFifo[..], ContentSize(actionFifoIn, actionFifoOut);
      ghost var q := Window(buf, actionFifoOut, n);
      ghost var prev := Sched(inputSts, q, fired);
      inputSts := Add32(inputSts, 1);
      if actionFifoIn != actionFifoOut {
        assert q[0] == actionFifo[actionFifoOut % 16];
        var actionSts := actionFifo[actionFifoOut % 16].sts;
        var diff := Sub32(actionSts, inputSts);
        if diff <= 0 {
          fired := fired + [actionFifo[actionFifoOut % 16].func];
          PopPending(buf, actionFifoIn, actionFifoOut);
          actionFifoOut := WrapU32(actionFifoOut + 1);
          ghost var rest := Window(buf, actionFifoOut, ContentSize(actionFifoIn, actionFifoOut));
          assert rest == q[1..];
          assert actionFifo[..] == buf;
          assert Pending() == rest;
          TickDue(prev);
        } else {
          TickIdle(prev);
        }
      } else {
        TickIdle(prev);
      }
      assert Sched(inputSts, Pending(), fired) == Tick(prev);
    }

    /** `push_action(sts, func)`: append unless 16 actions are already pending. */
    method PushAction(sts: Int32, func: ActionId)
      requires Valid()
      modifies this, actionFifo
      ensures Valid()
      ensures Model() == Schedule(old(Model()), sts, func)
      ensures old(ContentSize(actionFifoIn, actionFifoOut)) < FIFO_LEN ==>
        && actionFifo[..] == old(actionFifo[..])[old(actionFifoIn) % 16 := Action(sts, func)]
        && actionFifoIn == WrapU32(old(actionFifoIn) + 1)
      ensures old(ContentSize(actionFifoIn, actionFifoOut)) == FIFO_LEN ==>
        actionFifo[..] == old(actionFifo[..]) && actionFifoIn == old(actionFifoIn)
      ensures actionFifoOut == old(actionFifoOut) && inputSts == old(inputSts)
      ensures sampleError == old(sampleError) && output == old(output) && fired == old(fired)
    {
      var contentSize := ContentSize(actionFifoIn, actionFifoOut);
      if contentSize < FIFO_LEN {
        var a := Action(sts, func);
        ghost var buf := actionFifo[..];
        ghost var q := Window(buf, actionFifoOut, contentSize);
        WindowAfterPush(buf, actionFifoOut, contentSize, a);
        ContentAfterPush(actionFifoIn, actionFifoOut);
        actionFifo[actionFifoIn % 16] := a;
        actionFifoIn := WrapU32(actionFifoIn + 1);
        ghost var grown := Window(buf[(actionFifoOut + contentSize) % 16 := a], actionFifoOut, contentSize + 1);
        assert grown == q + [a];
        assert actionFifo[..] == buf[(actionFifoOut + contentSize) % 16 := a];
        assert Pending() == grown;
      }
    }

    /** `push_action_rel(delta, func)`: schedule `delta` samples after the current clock. */
    method PushActionRel(delta: Int32, func: ActionId)
      requires Valid()
      modifies this, actionFifo
      ensures Valid()
      ensures Model() == ScheduleRel(old(Model()), delta, func)
    {
      var sts := Add32(inputSts, delta);
      PushAction(sts, func);
    }

    /** `ramp_in()`: 2048 samples rising from `INT16_MIN` in steps of 16. */
    method RampIn()
      requires Valid()
      modifies this
      ensures Valid()
      ensures Model() == Feed(old(Model()), RampInSamples())
    {
      ghost var st := Model();
      var i := 0;
      while i < 2048
        invariant 0 <= i <= 2048 && Valid()
        invariant Model() == Feed(st, RampInSamples()[..i])
      {
        var vi: Int16 := Wrap16(i * 16);               // int16_t vi = i << 4
        var sample := Wrap16(INT16_MIN + vi);
        assert sample == RampInSamples()[i];
        ghost var before := Model();
        PushSample(sample);
        FeedSnoc(st, RampInSamples(), i, before);
        i := i + 1;
      }
      assert RampInSamples()[..2048] == RampInSamples();
    }

    /** `ramp_out()`: 2048 samples falling from 0 in steps of 16. */
    method RampOut()
      requires Valid()
      modifies this
      ensures Valid()
      ensures Model() == Feed(old(Model()), RampOutSamples())
    {
      ghost var st := Model();
      var i := 0;
      while i < 2048
        invariant 0 <= i <= 2048 && Valid()
        invariant Model() == Feed(st, RampOutSamples()[..i])
      {
        var vi: Int16 := Wrap16(i * 16);               // int16_t vi = i << 4
        var sample := Wrap16(-vi);
        assert sample == RampOutSamples()[i];
        ghost var before := Model();
        PushSample(sample);
        FeedSnoc(st, RampOutSamples(), i, before);
        i := i + 1;
      }
      assert RampOutSamples()[..2048] == RampOutSamples();
    }
  }

  /** Feeding one more sample of `ss` is one more `push_sample`. */
  lemma FeedSnoc(st: State, ss: seq<Int16>, i: nat, before: State)
    requires i < |ss| && before == Feed(st, ss[..i])
    ensures Feed(st, ss[..i + 1]) == Sample(before, ss[i])
  {
    assert ss[..i + 1][..i] == ss[..i];
  }

}
