/**
 * The behaviour of `Player` (pirate/player.h) as a pure state machine.
 *
 * A `State` holds what the C++ object holds, with the ring buffer seen as
 * the sequence of its pending actions, plus the two effects the object has
 * on the outside world: the words written to the I2S transmitter and the
 * callbacks invoked, in order. Callbacks are identified by an `ActionId`.
 *
 * The sample clock, the action queue and the callbacks form a `Sched`,
 * which one `push_sample` advances by one `Tick` whatever the sample value
 * is (`FeedSched`); the scheduling guarantees are proved on `Ticks`.
 *
 * `PlayerEngine.Player` is proved to follow these functions step by step.
 */
module PlayerSpec {

  import opened Ints
  import opened Pdm

  /** `PLAYER_ACTION_FIFO_LEN`, i.e. `1 << PLAYER_ACTION_FIFO_BIT`. */
  const FIFO_LEN: nat := 16

  /** A callback, by identity. */
  type ActionId = nat

  /** `Player::Action`: fire `func` once the sample clock reaches `sts`. */
  datatype Action = Action(sts: Int32, func: ActionId)

  /** The scheduling part of the player. */
  datatype Sched = Sched(
    now: Int32,              // input_sts
    pending: seq<Action>,    // the FIFO, head first
    fired: seq<ActionId>)    // callbacks invoked so far

  datatype State = State(
    error: Int16,            // sample_error
    sched: Sched,
    output: seq<UInt32>)     // words written with i2s_write_sample

  /** What holds of every state the player can reach. */
  predicate Valid(st: State)
  {
    |st.sched.pending| <= FIFO_LEN && st.error > INT16_MIN
  }

  /** The state right after construction: nothing pending, nothing written, accumulator 0. */
  function Initial(now: Int32): (st: State)
    ensures Valid(st)
    ensures st.sched.pending == [] && st.output == [] && st.sched.fired == []
  {
    State(0, Sched(now, [], []), [])
  }

  /** Signed distance from clock `now` to target `sts`, as the 32-bit subtraction computes it. */
  function Diff(sts: Int32, now: Int32): Int32
  {
    Sub32(sts, now)
  }

  /** The head of `pending` is due at clock `now`. */
  predicate HeadDue(pending: seq<Action>, now: Int32)
  {
    |pending| > 0 && Diff(pending[0].sts, now) <= 0
  }

  /** The scheduling half of `push_sample`: tick the clock, then fire and drop the head if it is due. */
  function Tick(q: Sched): Sched
  {
    var now := Add32(q.now, 1);
    if HeadDue(q.pending, now)
    then Sched(now, q.pending[1..], q.fired + [q.pending[0].func])
    else q.(now := now)
  }

  /** `push_sample(s)`: encode and write one word, then `Tick`. */
  function Sample(st: State, s: Int16): State
  {
    State(PdmError(st.error, s), Tick(st.sched), st.output + [PdmWord(st.error, s)])
  }

  /** `push_action(sts, f)`: append to the FIFO unless it already holds 16 actions. */
  function Schedule(st: State, sts: Int32, f: ActionId): (r: State)
    ensures Valid(st) ==> Valid(r)
    ensures |r.sched.pending| >= |st.sched.pending|
    ensures r.sched.pending[..|st.sched.pending|] == st.sched.pending
    ensures r.sched.now == st.sched.now && r.sched.fired == st.sched.fired
    ensures r.error == st.error && r.output == st.output
  {
    var q := st.sched;
    if |q.pending| < FIFO_LEN then st.(sched := q.(pending := q.pending + [Action(sts, f)])) else st
  }

  /** `push_action_rel(d, f)`: schedule `d` samples after the current clock. */
  function ScheduleRel(st: State, d: Int32, f: ActionId): State
  {
    Schedule(st, Add32(st.sched.now, d), f)
  }

  /** `push_sample` called on each sample of `ss` in turn. */
  function Feed(st: State, ss: seq<Int16>): State
  {
    if ss == [] then st else Sample(Feed(st, ss[..|ss| - 1]), ss[|ss| - 1])
  }

  /** `n` ticks of the clock. */
  function Ticks(q: Sched, n: nat): Sched
  {
    if n == 0 then q else Tick(Ticks(q, n - 1))
  }

  /** `push_action` called on each action of `acts` in turn. */
  function ScheduleAll(st: State, acts: seq<Action>): State
  {
    if acts == [] then st
    else
      var last := acts[|acts| - 1];
      Schedule(ScheduleAll(st, acts[..|acts| - 1]), last.sts, last.func)
  }

  /** The callbacks of a sequence of actions. */
  function Funcs(q: seq<Action>): (fs: seq<ActionId>)
    ensures |fs| == |q|
    ensures forall i :: 0 <= i < |q| ==> fs[i] == q[i].func
  {
    if q == [] then [] else Funcs(q[..|q| - 1]) + [q[|q| - 1].func]
  }

  /** `ramp_in`: 2048 samples `INT16_MIN + (i << 4)`. */
  function RampInSamples(): seq<Int16>
  {
    seq(2048, i requires 0 <= i < 2048 => INT16_MIN + 16 * i)
  }

  /** `ramp_out`: 2048 samples `-(i << 4)`. */
  function RampOutSamples(): seq<Int16>
  {
    seq(2048, i requires 0 <= i < 2048 => -16 * i)
  }

  /** Total bit count of 32-bit words. */
  function Ones(words: seq<UInt32>): nat
  {
    if words == [] then 0 else Ones(words[..|words| - 1]) + Popcount(words[|words| - 1], 32)
  }

  /** Sum of the samples measured from `INT16_MIN`. */
  function SumOffset(ss: seq<Int16>): int
  {
    if ss == [] then 0 else SumOffset(ss[..|ss| - 1]) + (ss[|ss| - 1] - INT16_MIN)
  }

  // ---------------------------------------------------------------------------
  // One call

  /**
   * One `push_sample` ticks the clock once and fires at most one callback:
   * either the queue is left alone, or its head, and only when due, is
   * removed and its callback invoked.
   */
  lemma TickFifo(q: Sched)
    ensures Tick(q).now == Add32(q.now, 1)
    ensures || (Tick(q).pending == q.pending && Tick(q).fired == q.fired)
            || (HeadDue(q.pending, Tick(q).now)
                && Tick(q).pending == q.pending[1..]
                && Tick(q).fired == q.fired + [q.pending[0].func])
    ensures HeadDue(q.pending, Tick(q).now) ==> |Tick(q).pending| == |q.pending| - 1
  {
  }

  /** A tick on which the head is due removes it and records its callback. */
  lemma TickDue(p: Sched)
    requires HeadDue(p.pending, Add32(p.now, 1))
    ensures Tick(p) == Sched(Add32(p.now, 1), p.pending[1..], p.fired + [p.pending[0].func])
  {
  }

  /** A tick on which the head is not due only advances the clock. */
  lemma TickIdle(p: Sched)
    requires !HeadDue(p.pending, Add32(p.now, 1))
    ensures Tick(p) == p.(now := Add32(p.now, 1))
  {
  }

  lemma TicksLast(q: Sched, n: nat)
    requires n > 0
    ensures Ticks(q, n) == Tick(Ticks(q, n - 1))
  {
  }

  /** `push_sample` preserves the invariant: the queue never grows and the accumulator never reaches `INT16_MIN`. */
  lemma SampleValid(st: State, s: Int16)
    requires Valid(st)
    ensures Valid(Sample(st, s))
  {
    assert |Tick(st.sched).pending| <= |st.sched.pending| by {
      TickFifo(st.sched);
    }
  }

  /** `push_sample` writes exactly one word, the encoding of the sample, after the ones before. */
  lemma SampleWrites(st: State, s: Int16)
    ensures Sample(st, s).output == st.output + [PdmWord(st.error, s)]
    ensures Sample(st, s).error == PdmError(st.error, s)
  {
  }

  // ---------------------------------------------------------------------------
  // Sequences of samples

  /** The samples' values never influence scheduling: feeding `ss` ticks the clock `|ss|` times. */
  lemma {:induction false} FeedSched(st: State, ss: seq<Int16>)
    ensures Feed(st, ss).sched == Ticks(st.sched, |ss|)
  {
    if ss != [] {
      FeedSched(st, ss[..|ss| - 1]);
    }
  }

  /** Each sample writes exactly one word, after the output written before, and the player stays valid. */
  lemma {:induction false} FeedWrites(st: State, ss: seq<Int16>)
    ensures |Feed(st, ss).output| == |st.output| + |ss|
    ensures Feed(st, ss).output[..|st.output|] == st.output
    ensures Valid(st) ==> Valid(Feed(st, ss))
  {
    if ss != [] {
      var prev := Feed(st, ss[..|ss| - 1]);
      FeedWrites(st, ss[..|ss| - 1]);
      assert Feed(st, ss).output == prev.output + [PdmWord(prev.error, ss[|ss| - 1])];
      if Valid(st) {
        SampleValid(prev, ss[|ss| - 1]);
      }
    }
  }

  /** The `i`-th word written while feeding `ss` is the encoding of `ss[i]`. */
  lemma {:induction false} FeedOutput(st: State, ss: seq<Int16>, i: nat)
    requires i < |ss|
    ensures |Feed(st, ss).output| == |st.output| + |ss|
    ensures Feed(st, ss).output[|st.output| + i] == PdmWord(Feed(st, ss[..i]).error, ss[i])
  {
    var init := ss[..|ss| - 1];
    var prev := Feed(st, init);
    var w := PdmWord(prev.error, ss[|ss| - 1]);
    FeedWrites(st, init);
    assert Feed(st, ss).output == prev.output + [w];
    if i < |ss| - 1 {
      FeedOutput(st, init, i);
      assert init[..i] == ss[..i];
      SnocIndex(prev.output, w, |st.output| + i);
    } else {
      assert init == ss[..i];
    }
  }

  lemma SnocIndex(words: seq<UInt32>, w: UInt32, j: nat)
    requires j < |words|
    ensures (words + [w])[j] == words[j]
  {
  }

  /** `n` ticks advance the clock by `n`, modulo 2^32. */
  lemma {:induction false} TicksNow(q: Sched, n: nat)
    ensures Ticks(q, n).now == Wrap32(q.now + n)
  {
    if n > 0 {
      TicksNow(q, n - 1);
      TicksLast(q, n);
      NowStep(Ticks(q, n - 1), Ticks(q, n), q.now + (n - 1), q.now + n);
    }
  }

  lemma NowStep(prev: Sched, next: Sched, x: int, y: int)
    requires prev.now == Wrap32(x) && next == Tick(prev) && y == x + 1
    ensures next.now == Wrap32(y)
  {
    Add32IsWrap(prev.now, 1);
    Wrap32Add(x, 1);
  }

  /**
   * FIFO discipline: while the clock ticks, actions leave the queue only at
   * its head, at most one per tick, and the callbacks invoked are exactly
   * the ones that left, in insertion order.
   */
  lemma {:induction false} TicksFifo(q: Sched, n: nat)
    ensures var r := Ticks(q, n);
      var k := |q.pending| - |r.pending|;
      && 0 <= k <= n
      && r.pending == q.pending[k..]
      && r.fired == q.fired + Funcs(q.pending[..k])
  {
    if n > 0 {
      TicksFifo(q, n - 1);
      TicksLast(q, n);
      FifoStep(q, n, Ticks(q, n - 1), Ticks(q, n));
    }
  }

  /** One tick of `TicksFifo`: the head, if it leaves, is the next action in insertion order. */
  lemma FifoStep(q: Sched, n: nat, prev: Sched, next: Sched)
    requires n > 0
    requires var k := |q.pending| - |prev.pending|;
      && 0 <= k <= n - 1
      && prev.pending == q.pending[k..]
      && prev.fired == q.fired + Funcs(q.pending[..k])
    requires next == Tick(prev)
    ensures var k := |q.pending| - |next.pending|;
      && 0 <= k <= n
      && next.pending == q.pending[k..]
      && next.fired == q.fired + Funcs(q.pending[..k])
  {
    var k := |q.pending| - |prev.pending|;
    if HeadDue(prev.pending, Add32(prev.now, 1)) {
      TickDue(prev);
      assert prev.pending[0] == q.pending[k];
      FuncsSnoc(q.pending, k + 1);
      SuffixTail(q.pending, k + 1);
    } else {
      TickIdle(prev);
    }
  }

  /** Clock arithmetic: one tick lowers the signed distance to any target by one, unless it wraps. */
  lemma DiffTick(sts: Int32, now: Int32)
    ensures Diff(sts, Add32(now, 1)) == Add32(Diff(sts, now), -1)
  {
  }

  /** One tick lowers the signed distance by exactly one when that does not wrap below `-2^31`. */
  lemma DiffStep(sts: Int32, now: Int32)
    requires -TWO_31 <= Diff(sts, now) - 1
    ensures Diff(sts, Add32(now, 1)) == Diff(sts, now) - 1
  {
    DiffTick(sts, now);
  }

  /** `n` ticks lower the signed distance by `n` as long as it does not wrap below `-2^31`. */
  lemma DiffAfter(sts: Int32, now: Int32, n: nat)
    requires -TWO_31 <= Diff(sts, now) - n
    ensures Diff(sts, Wrap32(now + n)) == Diff(sts, now) - n
  {
    Sub32IsWrap(sts, Wrap32(now + n));
    Sub32IsWrap(sts, now);
    Wrap32Sub(sts, now + n);
    Wrap32Add(sts - now, -(n as int));
  }

  /**
   * A head `n + 1` or more ticks away does not fire during `n` ticks, and
   * blocks every action behind it, due or not.
   */
  lemma {:induction false} HeadBlocks(q: Sched, n: nat)
    requires |q.pending| > 0
    requires n < Diff(q.pending[0].sts, q.now)
    ensures Diff(q.pending[0].sts, Ticks(q, n).now) == Diff(q.pending[0].sts, q.now) - n
    ensures Ticks(q, n).pending == q.pending
    ensures Ticks(q, n).fired == q.fired
  {
    if n > 0 {
      HeadBlocks(q, n - 1);
      TicksLast(q, n);
      BlockStep(q.pending, q.fired, Diff(q.pending[0].sts, q.now) - n, Ticks(q, n - 1), Ticks(q, n));
    }
  }

  /** One tick of `HeadBlocks`: a head still at least two ticks away stays and gets one tick closer. */
  lemma BlockStep(pending: seq<Action>, fired: seq<ActionId>, left: int, prev: Sched, next: Sched)
    requires |pending| > 0 && 1 <= left
    requires prev.pending == pending && prev.fired == fired
    requires Diff(pending[0].sts, prev.now) == left + 1
    requires next == Tick(prev)
    ensures Diff(pending[0].sts, next.now) == left
    ensures next.pending == pending && next.fired == fired
  {
    DiffStep(pending[0].sts, prev.now);
    TickIdle(prev);
  }

  /** A head exactly `n >= 1` ticks away fires on the `n`-th tick, after the ticks before it left the queue alone. */
  lemma HeadFiresOnTime(q: Sched, n: nat)
    requires |q.pending| > 0 && 1 <= n == Diff(q.pending[0].sts, q.now)
    ensures Ticks(q, n).pending == q.pending[1..]
    ensures Ticks(q, n).fired == q.fired + [q.pending[0].func]
  {
    var prev := Ticks(q, n - 1);
    HeadBlocks(q, n - 1);
    DiffStep(q.pending[0].sts, prev.now);
    TickDue(prev);
    TicksLast(q, n);
  }

  /**
   * When the first `n` actions are due (at most one tick ahead) and none of
   * them is so far overdue that the 32-bit distance wraps during `n` ticks,
   * they fire one per tick, in insertion order: actions due together fire on
   * successive calls.
   */
  lemma {:induction false} DrainInOrder(q: Sched, n: nat)
    requires n <= |q.pending|
    requires forall i :: 0 <= i < n ==> -TWO_31 + n <= Diff(q.pending[i].sts, q.now) <= 1
    ensures Ticks(q, n).pending == q.pending[n..]
    ensures Ticks(q, n).fired == q.fired + Funcs(q.pending[..n])
  {
    if n > 0 {
      DrainInOrder(q, n - 1);
      TicksNow(q, n - 1);
      TicksLast(q, n);
      DrainStep(q, n, Ticks(q, n - 1), Ticks(q, n));
    }
  }

  /** The `n`-th tick of `DrainInOrder`: the `n`-th action is at the head and due. */
  lemma DrainStep(q: Sched, n: nat, prev: Sched, next: Sched)
    requires 0 < n <= |q.pending|
    requires prev.pending == q.pending[n - 1..] && prev.fired == q.fired + Funcs(q.pending[..n - 1])
    requires prev.now == Wrap32(q.now + (n - 1))
    requires -TWO_31 + n <= Diff(q.pending[n - 1].sts, q.now) <= 1
    requires next == Tick(prev)
    ensures next.pending == q.pending[n..] && next.fired == q.fired + Funcs(q.pending[..n])
  {
    assert prev.pending[0] == q.pending[n - 1];
    DueAfter(prev.pending, q.now, prev.now, n - 1);
    TickDue(prev);
    FuncsSnoc(q.pending, n);
    SuffixTail(q.pending, n);
  }

  /** A target at most one tick ahead, `k` ticks later, is due on the following tick (barring wrap). */
  lemma DueAfter(p: seq<Action>, now0: Int32, now1: Int32, k: nat)
    requires |p| > 0 && -TWO_31 + k + 1 <= Diff(p[0].sts, now0) <= 1 && now1 == Wrap32(now0 + k)
    ensures HeadDue(p, Add32(now1, 1))
  {
    DiffAfter(p[0].sts, now0, k);
    DiffStep(p[0].sts, now1);
  }

  lemma SuffixTail(s: seq<Action>, n: nat)
    requires 0 < n <= |s|
    ensures s[n - 1..][1..] == s[n..]
  {
  }

  /** The callbacks of a prefix one longer gain the callback of the next action. */
  lemma FuncsSnoc(s: seq<Action>, n: nat)
    requires 0 < n <= |s|
    ensures Funcs(s[..n]) == Funcs(s[..n - 1]) + [s[n - 1].func]
  {
    assert s[..n][..n - 1] == s[..n - 1];
  }

  /** Two actions due on the next two samples fire on those two calls, one per call. */
  lemma TwoDueOnSuccessiveCalls(q: Sched)
    requires |q.pending| >= 2
    requires -TWO_31 + 1 <= Diff(q.pending[0].sts, q.now) <= 1
    requires -TWO_31 + 2 <= Diff(q.pending[1].sts, q.now) <= 2
    ensures Tick(q).fired == q.fired + [q.pending[0].func]
    ensures Tick(Tick(q)).fired == q.fired + [q.pending[0].func, q.pending[1].func]
  {
    var p0, p1 := q.pending[0], q.pending[1];
    DiffStep(p0.sts, q.now);
    TickDue(q);
    var q1 := Tick(q);
    assert q1.pending == q.pending[1..] && q1.pending[0] == p1;
    DueNext(q1.pending, q.now, q1.now);
    TickDue(q1);
  }

  /** A target two ticks ahead is due on the tick after next. */
  lemma DueNext(p: seq<Action>, now0: Int32, now1: Int32)
    requires |p| > 0 && -TWO_31 + 2 <= Diff(p[0].sts, now0) <= 2 && now1 == Add32(now0, 1)
    ensures HeadDue(p, Add32(now1, 1))
  {
    DiffStep(p[0].sts, now0);
    DiffStep(p[0].sts, now1);
  }

  /** An action `d >= 1` ticks ahead, alone in the queue, fires on the `d`-th tick and not before. */
  lemma AloneFiresOnTime(q: Sched, d: Int32, n: nat)
    requires |q.pending| == 1 && 1 <= d == Diff(q.pending[0].sts, q.now) && n <= d
    ensures Ticks(q, n).now == Wrap32(q.now + n)
    ensures Ticks(q, n).fired == if n == d then q.fired + [q.pending[0].func] else q.fired
  {
    TicksNow(q, n);
    if n < d {
      HeadBlocks(q, n);
    } else {
      HeadFiresOnTime(q, n);
    }
  }

  /** `push_action_rel(d, f)` on an empty queue leaves `f` alone in it, exactly `d` samples ahead. */
  lemma ScheduleRelAlone(st: State, d: Int32, f: ActionId)
    requires st.sched.pending == []
    ensures var q := ScheduleRel(st, d, f).sched;
      && q.now == st.sched.now && q.fired == st.sched.fired
      && |q.pending| == 1 && q.pending[0].func == f
      && Diff(q.pending[0].sts, q.now) == d
  {
  }

  /**
   * `push_action_rel(d, f)` on an empty queue, `d >= 1`: `f` fires on the
   * `d`-th following `push_sample` (the one after which the clock reads
   * `start + d`), and not on any earlier one.
   */
  lemma RelativeFiresOnTime(st: State, d: Int32, f: ActionId, ss: seq<Int16>)
    requires st.sched.pending == [] && 1 <= d && |ss| <= d
    ensures Feed(ScheduleRel(st, d, f), ss).sched.now == Wrap32(st.sched.now + |ss|)
    ensures Feed(ScheduleRel(st, d, f), ss).sched.fired ==
      if |ss| == d then st.sched.fired + [f] else st.sched.fired
  {
    var st1 := ScheduleRel(st, d, f);
    ScheduleRelAlone(st, d, f);
    assert Feed(st1, ss).sched == Ticks(st1.sched, |ss|) by {
      FeedSched(st1, ss);
    }
    AloneFiresOnTime(st1.sched, d, |ss|);
  }

  /**
   * `push_action_rel(d, f)` on an empty queue, `d >= 1`: once `d` or more
   * samples have been pushed, `f` has fired exactly once and nothing else
   * has fired.
   */
  lemma RelativeFiresOnce(st: State, d: Int32, f: ActionId, ss: seq<Int16>)
    requires st.sched.pending == [] && 1 <= d <= |ss|
    ensures Feed(ScheduleRel(st, d, f), ss).sched.fired == st.sched.fired + [f]
  {
    var st1 := ScheduleRel(st, d, f);
    ScheduleRelAlone(st, d, f);
    assert Feed(st1, ss).sched == Ticks(st1.sched, |ss|) by {
      FeedSched(st1, ss);
    }
    AloneFiresOnce(st1.sched, d, |ss|);
  }

  /** An action alone in the queue, `d >= 1` samples ahead, has fired exactly once after `n >= d` samples. */
  lemma AloneFiresOnce(q: Sched, d: Int32, n: nat)
    requires |q.pending| == 1 && 1 <= d == Diff(q.pending[0].sts, q.now) && d <= n
    ensures Ticks(q, n).fired == q.fired + [q.pending[0].func]
  {
    HeadFiresOnTime(q, d);
    PendingShrinks(q, d, n);
    TicksFifo(q, n);
    var r := Ticks(q, n);
    assert |r.pending| == 0;
    assert q.pending[..1] == q.pending;
  }

  /** The queue never grows while samples are pushed. */
  lemma {:induction false} PendingShrinks(q: Sched, m: nat, n: nat)
    requires m <= n
    ensures |Ticks(q, n).pending| <= |Ticks(q, m).pending|
  {
    if n > m {
      PendingShrinks(q, m, n - 1);
      TicksLast(q, n);
      ShrinkStep(Ticks(q, n - 1), Ticks(q, n));
    }
  }

  lemma ShrinkStep(prev: Sched, next: Sched)
    requires next == Tick(prev)
    ensures |next.pending| <= |prev.pending|
  {
    TickFifo(prev);
  }

  /** Scheduling into an empty queue keeps the first 16 actions and drops the rest. */
  lemma {:induction false} ScheduleAllKeepsFirst(st: State, acts: seq<Action>)
    requires st.sched.pending == []
    ensures ScheduleAll(st, acts) ==
      st.(sched := st.sched.(pending := if |acts| <= FIFO_LEN then acts else acts[..FIFO_LEN]))
  {
    if acts != [] {
      ScheduleAllKeepsFirst(st, acts[..|acts| - 1]);
      KeepStep(st, acts, ScheduleAll(st, acts[..|acts| - 1]), ScheduleAll(st, acts));
    }
  }

  /** One step of `ScheduleAllKeepsFirst`. */
  lemma KeepStep(st: State, acts: seq<Action>, prev: State, next: State)
    requires acts != []
    requires var init := acts[..|acts| - 1];
      prev == st.(sched := st.sched.(pending := if |init| <= FIFO_LEN then init else init[..FIFO_LEN]))
    requires next == Schedule(prev, acts[|acts| - 1].sts, acts[|acts| - 1].func)
    ensures next == st.(sched := st.sched.(pending := if |acts| <= FIFO_LEN then acts else acts[..FIFO_LEN]))
  {
    if |acts| <= FIFO_LEN {
      assert acts[..|acts| - 1] + [acts[|acts| - 1]] == acts;
    } else {
      assert acts[..|acts| - 1][..FIFO_LEN] == acts[..FIFO_LEN];
    }
  }

  /**
   * Seventeen actions scheduled into an empty queue: whatever is fed
   * afterwards, the callbacks invoked are a prefix of the first sixteen
   * in insertion order; the seventeenth never fires.
   */
  lemma SeventeenthDropped(st: State, acts: seq<Action>, ss: seq<Int16>)
    requires st.sched.pending == [] && |acts| == FIFO_LEN + 1
    ensures var r := Feed(ScheduleAll(st, acts), ss).sched;
      var k := |r.fired| - |st.sched.fired|;
      && 0 <= k <= FIFO_LEN
      && r.fired == st.sched.fired + Funcs(acts[..k])
  {
    ScheduleAllKeepsFirst(st, acts);
    var st1 := ScheduleAll(st, acts);
    assert st1.sched.pending == acts[..FIFO_LEN] && st1.sched.fired == st.sched.fired;
    FeedSched(st1, ss);
    var r := Ticks(st1.sched, |ss|);
    TicksFifo(st1.sched, |ss|);
    DroppedStep(st.sched.fired, acts, st1.sched, r);
    assert Feed(st1, ss).sched == r;
  }

  /** The callbacks fired from a queue holding the first 16 of `acts` are a prefix of theirs. */
  lemma DroppedStep(f0: seq<ActionId>, acts: seq<Action>, q: Sched, r: Sched)
    requires |acts| == FIFO_LEN + 1 && q.pending == acts[..FIFO_LEN] && q.fired == f0
    requires var k := |q.pending| - |r.pending|;
      && 0 <= k && r.pending == q.pending[k..] && r.fired == q.fired + Funcs(q.pending[..k])
    ensures var k := |r.fired| - |f0|;
      && 0 <= k <= FIFO_LEN
      && r.fired == f0 + Funcs(acts[..k])
  {
    var k := |q.pending| - |r.pending|;
    assert q.pending[..k] == acts[..k];
  }

  // ---------------------------------------------------------------------------
  // Encoder over sequences of samples

  /** Conservation law of the encoder over any sequence of samples. */
  lemma {:induction false} FeedOnes(st: State, ss: seq<Int16>)
    ensures |Feed(st, ss).output| == |st.output| + |ss|
    ensures 65535 * Ones(Feed(st, ss).output[|st.output|..]) ==
      (Feed(st, ss).error - st.error) + 32 * SumOffset(ss)
  {
    if ss != [] {
      FeedOnes(st, ss[..|ss| - 1]);
      FeedOnesStep(|st.output|, st.error, SumOffset(ss[..|ss| - 1]), Feed(st, ss[..|ss| - 1]),
                   ss[|ss| - 1], Feed(st, ss), SumOffset(ss));
    }
  }

  /** One step of `FeedOnes`: the last sample adds one word and its conservation law. */
  lemma FeedOnesStep(k: nat, e0: int, so: int, prev: State, last: Int16, next: State, so1: int)
    requires next == Sample(prev, last)
    requires k <= |prev.output|
    requires 65535 * Ones(prev.output[k..]) == (prev.error - e0) + 32 * so
    requires so1 == so + (last - INT16_MIN)
    ensures |next.output| == |prev.output| + 1
    ensures 65535 * Ones(next.output[k..]) == (next.error - e0) + 32 * so1
  {
    var before := prev.output[k..];
    var w := PdmWord(prev.error, last);
    SliceSnoc(prev.output, w, k);
    OnesSnoc(before, w);
    PdmConservation(prev.error, last);
    OnesStep(Ones(before), Popcount(w, 32), Ones(before + [w]),
             prev.error - e0, PdmError(prev.error, last) - prev.error, so, last - INT16_MIN, so1);
  }

  lemma SliceSnoc(words: seq<UInt32>, w: UInt32, k: nat)
    requires k <= |words|
    ensures (words + [w])[k..] == words[k..] + [w]
  {
  }

  lemma OnesSnoc(words: seq<UInt32>, w: UInt32)
    ensures Ones(words + [w]) == Ones(words) + Popcount(w, 32)
  {
    assert (words + [w])[..|words|] == words;
  }

  /** The arithmetic of one step of `FeedOnes`. */
  lemma OnesStep(o: int, p: int, o1: int, de: int, de1: int, so: int, x: int, so1: int)
    requires 65535 * o == de + 32 * so
    requires 65535 * p == de1 + 32 * x
    requires o1 == o + p && so1 == so + x
    ensures 65535 * o1 == (de + de1) + 32 * so1
  {
  }

  lemma {:induction false} SumOffsetConstant(s: Int16, k: nat)
    ensures SumOffset(seq(k, _ => s)) == k * (s - INT16_MIN)
  {
    if k > 0 {
      assert seq(k, _ => s)[..k - 1] == seq(k - 1, _ => s);
      SumOffsetConstant(s, k - 1);
    }
  }

  /**
   * Duty cycle: after `k` words of a constant sample `s`, the number of 1 bits
   * differs from `32 * k * (s - INT16_MIN) / 65535` by less than one, so the
   * average density converges to `(s - INT16_MIN) / 65535`.
   */
  lemma DutyCycle(st: State, s: Int16, k: nat)
    requires Valid(st)
    ensures |Feed(st, seq(k, _ => s)).output| == |st.output| + k
    ensures -65535 < 65535 * Ones(Feed(st, seq(k, _ => s)).output[|st.output|..])
                      - 32 * k * (s - INT16_MIN) < 65535
  {
    var ss := seq(k, _ => s);
    FeedOnes(st, ss);
    FeedWrites(st, ss);
    SumOffsetConstant(s, k);
    Assoc(32, k, s - INT16_MIN);
    var r := Feed(st, ss);
    assert -65535 < r.error - st.error < 65535;
  }

  lemma Assoc(a: int, b: int, c: int)
    ensures a * b * c == a * (b * c)
  {
  }

  /** `ramp_in` rises strictly, from `INT16_MIN` to -16, the last step below 0. */
  lemma RampInShape()
    ensures |RampInSamples()| == 2048
    ensures RampInSamples()[0] == INT16_MIN && RampInSamples()[2047] == -16
    ensures forall i, j :: 0 <= i < j < 2048 ==> RampInSamples()[i] < RampInSamples()[j]
  {
  }

  /** `ramp_out` falls strictly, from 0 to -32752. */
  lemma RampOutShape()
    ensures |RampOutSamples()| == 2048
    ensures RampOutSamples()[0] == 0 && RampOutSamples()[2047] == -32752
    ensures forall i, j :: 0 <= i < j < 2048 ==> RampOutSamples()[i] > RampOutSamples()[j]
  {
  }

  /** A ramp advances the clock by 2048 and writes 2048 words. */
  lemma RampLength(st: State)
    ensures Feed(st, RampInSamples()).sched.now == Wrap32(st.sched.now + 2048)
    ensures |Feed(st, RampInSamples()).output| == |st.output| + 2048
    ensures Feed(st, RampOutSamples()).sched.now == Wrap32(st.sched.now + 2048)
    ensures |Feed(st, RampOutSamples()).output| == |st.output| + 2048
  {
    FeedWrites(st, RampInSamples());
    FeedWrites(st, RampOutSamples());
    FeedSched(st, RampInSamples());
    FeedSched(st, RampOutSamples());
    TicksNow(st.sched, 2048);
  }
}
