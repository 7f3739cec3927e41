# pirate-fw audio engine and LED strip, modelled in Dafny

This project models the sample-clocked audio output of the pirate-fw firmware (`Player`,
pirate/player.h), its integer helpers (pirate/util.h) and the pixel buffer of its LED strip
driver (`Strip`, pirate/strip.h), and proves the properties their code and comments promise.

`Player` turns each 16-bit sample into a 32-bit pulse-density word with a first-order
delta-sigma encoder (`pdm`), writes it to the I2S transmitter, advances the sample clock
`input_sts` and fires the action at the head of a 16-slot FIFO once the clock has reached the
action's target. Actions are queued with `push_action` (absolute target) and `push_action_rel`
(relative to the clock); `ramp_in` and `ramp_out` push two fixed ramps of 2048 samples.

Files and modules:

- `ints.dfy` (`Ints`): `int16_t`, `int32_t` and `uint32_t` as subset types, and the C++
  narrowing and wrap-around operations written out (`Wrap16`, `Add32`, `Sub32`, `WrapU32`).
- `util.dfy` (`Util`): C++ truncating `/` and `%` (`CppDiv`, `CppMod`), and `asym_div`,
  `asym_mod` and `sign` built on them exactly as the templates are.
- `pdm.dfy` (`Pdm`): the encoder as functions (`PdmStep` = one loop iteration, `PdmRun` = the
  first `n` iterations) and its laws (bit order, conservation, the two full-scale inputs).
- `player_spec.dfy` (`PlayerSpec`): the player as a pure state machine (`Sample`, `Schedule`,
  `ScheduleRel`, `Feed`) and the scheduling guarantees, proved on the clock-and-queue part
  `Sched` and its one-sample step `Tick`.
- `player_engine.dfy` (`PlayerEngine`): `class Player` with the source's fields: the 16-slot
  array, the two free-running `uint32_t` cursors, `sample_error`, `input_sts`, plus the words
  written (`output`) and the callbacks invoked (`fired`). Each method is proved to move
  `Model()` exactly as the matching `PlayerSpec` function.
- `strip.dfy` (`LedStrip`): `CRGB`, `wheel` with its inverse on `[0, 255)`, and `class Strip`
  with the `leds` array and the `setPixel`/`setAll` overloads.

Modelling choices:

- Signed 32-bit overflow of `input_sts++`, `input_sts + delta` and `action_sts - input_sts` is
  undefined behaviour in C++. The model assumes two's-complement wrap-around (`Add32`,
  `Sub32`), the semantics a build with `-fwrapv` guarantees. The scheduling lemmas state,
  where it matters, the distance bounds under which the signed difference does not wrap.
- `sample_error += …` and `int16_t vi = i << 4` are stores into `int16_t`; the model writes
  the narrowing (`Wrap16`) and proves that it never changes the value.
- The cursors are `uint32_t` and wrap at 2^32 (`WrapU32`); `cursor & 15` is `cursor % 16`.
- A `std::function` callback is an `ActionId`; invoking it appends the id to `fired`.
  `i2s_write_sample(w)` appends `w` to `output`.
- `input_sts` is an `int32_t` that wraps, so the sample clock is not monotonic; the model
  follows that (`PlayerSpec.TicksNow`).
- The accumulator `sample_error` never wraps: every `int16_t` store in `pdm` keeps the exact sum
  (`Pdm.PdmStep` stays in `int16_t` range).
- The comment above `pdm` says `INT16_MIN` always gives an all-zero word. That holds from
  every accumulator the player can reach (`Pdm.PdmOfMin`, with `PlayerSpec.Valid` keeping the
  accumulator above `INT16_MIN`); from `INT16_MIN` itself the first bit is 1
  (`Pdm.PdmOfMinFromMin`), a state that construction (accumulator 0) never leads to.

## Model

| member | source | states |
|---|---|---|
| Ints.Wrap16 | pirate/player.h:46-48 | storing into `int16_t` keeps in-range values and otherwise differs by a multiple of 2^16 |
| Ints.Add32 | pirate/player.h:64 | `int32_t` addition: exact when it does not overflow, otherwise off by exactly 2^32 |
| Ints.Sub32 | pirate/player.h:67 | `int32_t` subtraction: exact when it does not overflow, otherwise off by exactly 2^32 |
| Ints.Wrap32 | pirate/player.h:64 | two's-complement `int32_t` wrap-around: the unique `int32_t` congruent to `x` modulo 2^32, so the identity on that range |
| Ints.WrapU32 | pirate/player.h:70 | `uint32_t` cursor arithmetic: the unique value in `[0, 2^32)` congruent to the exact result modulo 2^32, so the identity on that range |
| Ints.WrapU32Mod16 | pirate/player.h:66 | masking a cursor with `& 15` is unaffected by the 2^32 wrap |
| Util.CppDiv | pirate/util.h:14 | C++ `/`: the quotient's magnitude is the magnitudes' quotient; it is positive only for equal signs and negative only for opposite signs |
| Util.CppDivTowardZero | pirate/util.h:14 | C++ `/` rounds toward zero: `|q|*|d| <= |n| < |q|*|d| + |d|` |
| Util.CppMod | pirate/util.h:18 | C++ `%`: `(n/d)*d + n%d == n`, `|n%d| < |d|`, and the remainder has the sign of the dividend |
| Util.AsymDiv | pirate/util.h:13-15 | `asym_div`, written with C++ `/` exactly as the template; what it computes is proved in `AsymDivIsFloor`, `AsymDivMod`, `AsymAgreesOnNonNegative` and `CppDivTruncates` |
| Util.AsymMod | pirate/util.h:17-19 | `asym_mod`, written with C++ `%` exactly as the template; what it computes is proved in `AsymModRange`, `AsymDivMod` and `AsymAgreesOnNonNegative` |
| Util.AsymDivIsFloor | pirate/util.h:13-15 | for `d > 0`, `asym_div(n, d)*d <= n < asym_div(n, d)*d + d`, i.e. it is floor division |
| Util.AsymModRange | pirate/util.h:17-19 | for `d > 0`, `0 <= asym_mod(n, d) < d` and it equals the floor modulo |
| Util.AsymDivMod | pirate/util.h:13-19 | `asym_div(n,d)*d + asym_mod(n,d) == n` for every non-zero `d` |
| Util.AsymAgreesOnNonNegative | pirate/util.h:14 | for `n >= 0` both helpers are plain C++ `/` and `%` |
| Util.CppDivTruncates | pirate/util.h:14 | for `n < 0` not divisible by `d > 0`, C++ `/` is one more than `asym_div` |
| Util.Sign | pirate/util.h:21-25 | `sign(n)` is -1, 0 or 1, is 0 exactly for `n == 0`, and `sign(n)*n == |n|` |
| Pdm.PdmStep | pirate/player.h:44-49 | one iteration emits 1 exactly when `sample >= sample_error`; the new accumulator fits `int16_t`, does not fall on a 1 nor rise on a 0, and a 0 never leaves it at `INT16_MIN` |
| Pdm.PdmRun | pirate/player.h:41-50 | the first `n` iterations of the loop; the word fits in `n` bits (`word < 2^n`) |
| Pdm.PdmWord | pirate/player.h:40-52 | the word `pdm(s)` returns: the 32-iteration run, a `uint32_t`; `Player.Pdm` proves the loop equal to it and `WordBit`, `PdmTopBit`, `PdmConservation`, `PdmOfMax` and `PdmOfMin` state its properties |
| Pdm.PdmError | pirate/player.h:46-48 | an accumulator above `INT16_MIN` stays above it through a whole `pdm` call |
| Pdm.RunStaysAboveMin | pirate/player.h:44-49 | an accumulator above `INT16_MIN` stays above it through any number of iterations |
| Pdm.WordBit | pirate/player.h:41-51 | the decision of iteration `i` is bit `n-1-i` of the word: first decision in the most significant bit |
| Pdm.PdmTopBit | pirate/player.h:43-46 | bit 31 of `pdm(s)` is 1 exactly when `s >= sample_error` |
| Pdm.RunConservation | pirate/player.h:41-51 | after `n` iterations `65535 * popcount == (error change) + n * (s - INT16_MIN)` |
| Pdm.PdmConservation | pirate/player.h:41-51 | for one `pdm` call, `65535 * popcount(pdm(s)) == (sample_error after - before) + 32 * (s - INT16_MIN)` |
| Pdm.RunOfMax | pirate/player.h:44-46 | a sample of `INT16_MAX` emits only ones and leaves the accumulator unchanged, for any number of iterations |
| Pdm.PdmOfMax | pirate/player.h:33-34 | `pdm(INT16_MAX) == 0xFFFFFFFF` and leaves `sample_error` unchanged, whatever its value |
| Pdm.RunOfMinAfter | pirate/player.h:47-49 | once the accumulator is above `INT16_MIN`, a sample of `INT16_MIN` shifts in zeros and leaves it unchanged |
| Pdm.PdmOfMin | pirate/player.h:35 | from every accumulator above `INT16_MIN`, `pdm(INT16_MIN) == 0` and leaves `sample_error` unchanged |
| Pdm.PdmOfMinFromMin | pirate/player.h:35 | from the accumulator `INT16_MIN`, `pdm(INT16_MIN)` is `0x80000000` and the accumulator becomes `INT16_MAX` |
| PlayerSpec.Valid | pirate/player.h:27-31 | the invariant of every reachable player: at most 16 actions queued (the bound `push_action` enforces, pirate/player.h:90-91) and the accumulator above `INT16_MIN`; `Initial`, `Schedule` and `SampleValid` prove it kept |
| PlayerSpec.Initial | pirate/player.h:27-31 | a new player has nothing queued, written or fired, and satisfies the invariant |
| PlayerSpec.Schedule | pirate/player.h:89-98 | `push_action` keeps the invariant, keeps the queued actions as a prefix and changes nothing else |
| PlayerSpec.Tick | pirate/player.h:64-72 | the clock-and-queue half of `push_sample`: increment, then fire and drop the head if its signed distance is at most 0; `TickFifo` states its effect and `Player.AdvanceClock` proves the ring buffer equal to it |
| PlayerSpec.Sample | pirate/player.h:62-73 | one `push_sample` on the abstract state: write `pdm(s)`, update the accumulator, `Tick`; `SampleValid`, `FeedSched` and `FeedOutput` state its properties and `Player.PushSample` proves the object equal to it |
| PlayerSpec.ScheduleRel | pirate/player.h:100-103 | `push_action_rel(d, f)` is `push_action` at the wrapped `input_sts + d`; `ScheduleRelAlone`, `RelativeFiresOnTime` and `RelativeFiresOnce` state its effect |
| PlayerSpec.Feed | pirate/player.h:75-87 | `push_sample` on each sample of a sequence in turn, as the ramps call it; `FeedSched`, `FeedWrites`, `FeedOutput` and `FeedOnes` state its properties |
| PlayerSpec.RampInSamples | pirate/player.h:75-80 | the samples `ramp_in` pushes; `RampInShape` states their shape |
| PlayerSpec.RampOutSamples | pirate/player.h:82-87 | the samples `ramp_out` pushes; `RampOutShape` states their shape |
| PlayerSpec.Funcs | pirate/player.h:69 | the callbacks of a list of actions, one per action, in order |
| PlayerSpec.TickFifo | pirate/player.h:64-72 | one `push_sample` advances the clock by one and either leaves the queue alone or, only when the head is due, removes exactly the head and fires its callback |
| PlayerSpec.SampleValid | pirate/player.h:62-73 | `push_sample` keeps at most 16 actions queued and the accumulator above `INT16_MIN` |
| PlayerSpec.FeedSched | pirate/player.h:62-73 | sample values never influence scheduling: `k` samples are `k` clock ticks |
| PlayerSpec.FeedWrites | pirate/player.h:62-63 | `k` samples write `k` words after the earlier output and keep the invariant |
| PlayerSpec.FeedOutput | pirate/player.h:62-63 | the `i`-th word written is the encoding of the `i`-th sample from the accumulator left by the samples before |
| PlayerSpec.TicksNow | pirate/player.h:64 | `n` samples advance `input_sts` by `n`, modulo 2^32 |
| PlayerSpec.TicksFifo | pirate/player.h:65-72 | over any number of samples, actions leave only from the head, at most one per sample, and the callbacks fired are exactly those that left, in insertion order |
| PlayerSpec.DiffTick | pirate/player.h:64-67 | one sample lowers every action's signed distance to the clock by one, modulo 2^32 |
| PlayerSpec.DiffStep | pirate/player.h:64-67 | one sample lowers a distance above `-2^31` by exactly one |
| PlayerSpec.DiffAfter | pirate/player.h:64-67 | `n` samples lower the distance by exactly `n` when it stays above `-2^31` |
| PlayerSpec.HeadBlocks | pirate/player.h:65-72 | a head more than `n` samples away does not fire during `n` samples and blocks every action behind it, due or not |
| PlayerSpec.HeadFiresOnTime | pirate/player.h:65-71 | a head exactly `n >= 1` samples away has fired, alone, after `n` samples (with `HeadBlocks`: not before) |
| PlayerSpec.DrainInOrder | pirate/player.h:65-72 | when the first `n` actions are all due, they fire one per sample, in insertion order |
| PlayerSpec.TwoDueOnSuccessiveCalls | pirate/player.h:65-72 | two actions due on the next two samples fire on those two calls, one each |
| PlayerSpec.AloneFiresOnTime | pirate/player.h:64-71 | an action alone in the queue `d` samples ahead fires on the `d`-th sample and not before |
| PlayerSpec.ScheduleRelAlone | pirate/player.h:100-103 | `push_action_rel(d, f)` on an empty queue leaves `f` alone in it at distance exactly `d` |
| PlayerSpec.RelativeFiresOnTime | pirate/player.h:100-103 | after `push_action_rel(d, f)`, `d >= 1`, on an empty queue, `f` fires on the `push_sample` after which `input_sts == start + d`, never earlier |
| PlayerSpec.RelativeFiresOnce | pirate/player.h:100-103 | after `push_action_rel(d, f)`, `d >= 1`, on an empty queue, any `d` or more samples fire `f` exactly once and nothing else |
| PlayerSpec.AloneFiresOnce | pirate/player.h:64-71 | an action alone in the queue `d >= 1` samples ahead has fired exactly once after any `n >= d` samples |
| PlayerSpec.PendingShrinks | pirate/player.h:62-73 | the queue never grows while samples are pushed |
| PlayerSpec.ScheduleAllKeepsFirst | pirate/player.h:89-98 | scheduling into an empty queue keeps the first 16 actions and silently drops the rest |
| PlayerSpec.SeventeenthDropped | pirate/player.h:89-98 | of 17 actions scheduled into an empty queue, whatever is played afterwards fires a prefix of the first 16, in order; the 17th never fires |
| PlayerSpec.FeedOnes | pirate/player.h:41-51 | the conservation law summed over any sequence of samples |
| PlayerSpec.DutyCycle | pirate/player.h:41-51 | for a constant sample the number of 1 bits over `k` words is within one of `32 k (s - INT16_MIN) / 65535` |
| PlayerSpec.RampInShape | pirate/player.h:75-80 | `ramp_in` is 2048 samples strictly rising from `INT16_MIN` to -16 |
| PlayerSpec.RampOutShape | pirate/player.h:82-87 | `ramp_out` is 2048 samples strictly falling from 0 to -32752 |
| PlayerSpec.RampLength | pirate/player.h:75-87 | each ramp advances `input_sts` by 2048 and writes 2048 words |
| PlayerEngine.ShiftLeft1 | pirate/player.h:43 | `m <<= 1` doubles a word below 2^31 |
| PlayerEngine.SetLowBit | pirate/player.h:45 | `m |= 1` sets bit 0 and adds one to an even word |
| PlayerEngine.Window | pirate/player.h:66 | the queued actions are the slots `(out + k) & 15`, `k < in - out` |
| PlayerEngine.ContentSize | pirate/player.h:90 | `in - out` in `uint32_t` is 0 exactly when the cursors are equal, and `out + size` names the slot of `in` |
| PlayerEngine.ContentAfterPop | pirate/player.h:70 | `action_fifo_out++` on a non-empty queue lowers the size by one, across the 2^32 wrap |
| PlayerEngine.ContentAfterPush | pirate/player.h:96 | `action_fifo_in++` below capacity raises the size by one, across the 2^32 wrap |
| PlayerEngine.WindowAfterPop | pirate/player.h:66-70 | advancing the read cursor drops exactly the head |
| PlayerEngine.WindowAfterPush | pirate/player.h:95 | writing slot `in & 15` appends the action and leaves the queued ones intact |
| PlayerEngine.Player.constructor | pirate/player.h:27-31 | a new player is valid and has the initial abstract state |
| PlayerEngine.Player.Pdm | pirate/player.h:40-52 | the 32-iteration loop returns `PdmWord` and leaves `PdmError` in `sample_error` |
| PlayerEngine.Player.PushSample | pirate/player.h:62-73 | `push_sample` is `Sample` on the abstract state; it writes `pdm(s)`, increments `input_sts` and never touches `in` or the slots |
| PlayerEngine.Player.AdvanceClock | pirate/player.h:64-72 | the clock-and-queue half of `push_sample` is one `Tick` of the abstract schedule; it increments `input_sts` and advances `out` by at most one |
| PlayerEngine.Player.PushAction | pirate/player.h:89-98 | `push_action` is `Schedule`; below capacity it stores the action in slot `in & 15` and increments `in`, and on a full queue it changes nothing |
| PlayerEngine.Player.PushActionRel | pirate/player.h:100-103 | `push_action_rel` is `ScheduleRel` |
| PlayerEngine.Player.RampIn | pirate/player.h:75-80 | `ramp_in` is `push_sample` on each sample of `RampInSamples` in turn |
| PlayerEngine.Player.RampOut | pirate/player.h:82-87 | `ramp_out` is `push_sample` on each sample of `RampOutSamples` in turn |
| LedStrip.ToByte | pirate/strip.h:96 | a store into `uint8_t` keeps values in `[0, 256)` |
| LedStrip.Wheel | pirate/strip.h:93-111 | every colour of the wheel has `r + g + b == 255` and at least one channel off |
| LedStrip.WheelExact | pirate/strip.h:95-109 | no channel computation of `wheel` wraps a byte |
| LedStrip.WheelPosition | pirate/strip.h:93-111 | the inverse of the wheel returns a position |
| LedStrip.WheelRoundTrip | pirate/strip.h:93-111 | positions `0..254` have distinct colours and the inverse recovers each |
| LedStrip.WheelWrapsAround | pirate/strip.h:104-109 | position 255 shows the colour of position 0 |
| LedStrip.WheelBoundaries | pirate/strip.h:95-109 | `wheel(0)` is green, `wheel(85)` red and `wheel(170)` blue |
| LedStrip.Strip.constructor | pirate/strip.h:17 | a strip of `len` pixels, all off |
| LedStrip.Strip.GetLength | pirate/strip.h:26-28 | `getLength()` returns the template parameter `len` |
| LedStrip.Strip.SetPixel | pirate/strip.h:34-38 | an index in `[0, len)` sets that pixel and no other; any other index changes nothing |
| LedStrip.Strip.SetPixelRgb | pirate/strip.h:40-42 | as `setPixel` with `CRGB(r, g, b)` |
| LedStrip.Strip.SetPixelWhite | pirate/strip.h:44-46 | as `setPixel` with `CRGB(w, w, w)` |
| LedStrip.Strip.SetAll | pirate/strip.h:48-52 | every pixel `0..len-1` ends equal to the colour |
| LedStrip.Strip.SetAllRgb | pirate/strip.h:54-56 | every pixel ends `CRGB(r, g, b)` |
| LedStrip.Strip.SetAllWhite | pirate/strip.h:58-60 | every pixel ends `CRGB(w, w, w)` |

## Left out

- `Player::begin` (pirate/player.h:57-60): I2S initialisation, hardware only.
- `i2s_write_sample` (pirate/player.h:63): modelled as appending the word to `output`; the transmitter, its FIFO and its blocking are not modelled.
- `push_beep` (pirate/player.h:113-128): its sample counts come from `float` arithmetic (`ceilf`, float products).
- Callbacks (pirate/player.h:24, 69): a callback is an identity; what it does is not modelled, in particular a callback that itself calls `push_action` or `push_sample`. The model fires it and then advances `action_fifo_out` as one step; the source calls `func()` before `action_fifo_out++`, so a re-entrant `push_sample` would see the same head again.
- `input_sts` (pirate/player.h:55) has no initialiser: the constructor takes its initial value as a parameter. It is a public field, so callers may also assign it.
- Signed overflow (pirate/player.h:64, 67, 101) is undefined in C++; the model takes the two's-complement result. A build that exploits the undefined behaviour may compare differently once the clock wraps: it may fold `action_sts - input_sts <= 0` (pirate/player.h:67-68) into `action_sts <= input_sts`, which fires an action scheduled across the wrap (for example `push_action_rel(5, f)` at `input_sts == INT32_MAX - 1`) at once. The model does not capture such builds.
- `asym_div`, `asym_mod` (pirate/util.h:13-19): the template type `T` is modelled as an unbounded integer. For `d > 0` both results fit `T`, and the model agrees with every fixed width. For `d < 0` and `n < 0`, `asym_mod` computes `d - 1 + (n + 1) % d`, a value in `[2d, d - 1]` that leaves `T`'s range whenever it is below `min(T)`, which needs `2d < min(T)`: for `int16_t`, `asym_mod(-19999, -20000)` is -39999 in the model and narrows to 25537 in C++, and for `int` the sum overflows. `d - 1` itself overflows when `d == min(T)`. `asym_div` has no such case.
- The `uint8_t` loop counter of `pdm` and the `int`/`int16_t` counters of the ramps are mathematical integers; they never exceed 32 and 2048.
- `Strip` constructor (pirate/strip.h:20-24): it registers the array with FastLED and sets the brightness; the model only allocates `len` pixels, all off, as for a zero-initialised object.
- `Strip::show`, `Strip::setIntensity` (pirate/strip.h:30-32, 62-64): FastLED output only.
- `demo1`-`demo4` and `runningLights` (pirate/strip.h:66-143): timed animations using `delay` and, for some, floating point.
- The `pin` template parameter of `Strip`: used by FastLED only.
- `ARRAY_LEN` (pirate/util.h:11): a `sizeof` macro.
- PlayerSpec.DrainInOrder: assumes that none of the `n` drained actions is so far overdue that its 32-bit distance to the clock wraps during the drain (more than 2^31 - n samples); the source gives no guarantee there either.
- PlayerSpec.TwoDueOnSuccessiveCalls: the same bound on how far overdue the two actions may be.
- PlayerSpec.HeadBlocks: stated for a head at a positive distance below 2^31, the range in which the signed difference means "in the future".
