# Debounce state machine of derico, in Dafny

This project models the debouncing core of the `derico` Rust crate and proves
properties of it. The core is a counter-based filter. It turns a noisy stream
of raw samples into a stable value, and it reports a confirmed transition (an
*edge*) when the stable value changes.

- `debounce.dfy`, module `Debounce`: the generic `Debouncer<T, S>` of
  `src/debouncer.rs`. It has a stable value (`current`), a candidate (`next`),
  a repetition counter (`count`) and an immutable `threshold`. `Update` is the
  four-way decision table of `update`, including its dead final `else`. The
  edge type `Edge<T>` is a datatype, and its constructor plays the role of
  `Edge::new`. `IsState` is `is_state`. `Feed` folds `Update` over a sequence
  of samples. `RefStable` and `RefEdges` are an independent reference: the
  stable value is the value of the most recent run of at least `Max(threshold, 2)`
  identical samples. `Characterisation` proves that the machine agrees with
  this reference on every trace.
- `pin.dfy`, module `Pin`: `SmallPinDebouncer` of `src/pin.rs`. It fixes the
  value domain to `PinState = Low | High` and the counter to `u8`. The wrapped
  machine keeps `nat` fields; only the threshold argument of `Pin.New` has the
  subset type `U8`. The 8-bit bound is the predicate `Pin.Valid`, and
  `Pin.ReachableIsValidU8` and `Pin.CounterFitsU8` show that the counter stays
  below 256 in every reachable state, and so does `count + 1` whenever a
  transition is pending, the only time `update` computes it.

The generic counter type `S` is an unbounded `nat`. The source needs only
`one`, `+`, `<` and `>=` from it. For the `u8` instantiation, `Pin.CounterFitsU8`
and `Pin.ReachableIsValidU8` show that no addition ever goes past 255. So
wrap-around never happens and does not need to be modelled.

Two behaviours of the code are easy to misread. The model follows the code in
both:

- Reading back the stable value erases progress. The first branch of `update`
  sets `next_state` to the sample, which is then the stable value
  (src/debouncer.rs:40). The next divergent sample therefore takes the second
  branch and restarts the count at 1. See `ReadBackErasesProgress`.
- Thresholds 0 and 1 behave exactly like 2. The second branch never reports
  an edge, so at least two identical divergent samples are always needed.
  The model has no precondition on the threshold. `LowThresholdActsAsTwo`
  states this quirk, and the effective threshold `Max(threshold, 2)` appears
  throughout the trace lemmas. Only the counter bound `count <= threshold`
  needs `threshold >= 1` (`CountBelowThreshold`).

## Model

| member | source | states |
|---|---|---|
| Debounce.New | src/debouncer.rs:28-35 | A new machine is settled on the initial value (`IsState(d, initial)`), and its counter equals the threshold |
| Debounce.Update | src/debouncer.rs:37-75 | Threshold is never changed; the candidate becomes the sample; without an edge the stable value is unchanged; an edge is `Edge(previous stable, sample)` with the two different, the sample was already the candidate, and afterwards the machine is settled on the sample with the counter pinned at the threshold; a settled machine never reports an edge; the final `else` is unreachable |
| Debounce.StableSampleKeepsState | src/debouncer.rs:38-43 | A sample equal to the stable value gives no edge, keeps the stable value and the counter, and leaves the machine settled on it |
| Debounce.SettledUpdateIsNoOp | src/debouncer.rs:77-79 | Once `is_state(v)` holds, `update(v)` returns the machine unchanged and no edge |
| Debounce.NewCandidateRestarts | src/debouncer.rs:44-49 | A sample unequal to both the stable value and the candidate becomes the candidate with count 1 and gives no edge |
| Debounce.ReadBackErasesProgress | src/debouncer.rs:38-49 | While a transition is pending, reading back the stable value settles the machine, and the next candidate sample restarts the count at 1 |
| Debounce.IsStateUnique | src/debouncer.rs:77-79 | `is_state` holds of at most one value |
| Debounce.NewIsValid | src/debouncer.rs:28-35 | A new machine satisfies the counter invariant `Valid` |
| Debounce.UpdatePreservesValid | src/debouncer.rs:44-68 | Every update preserves the invariant: while unsettled, `1 <= count <= Max(1, threshold - 1)`; once settled, the count is the threshold or in that range |
| Debounce.CountBelowThreshold | src/debouncer.rs:47-68 | With `threshold >= 1` the counter never exceeds the threshold, and while unsettled `count + 1` is at most `Max(2, threshold)` |
| Debounce.Feed | src/debouncer.rs:37-75 | Feeding a trace yields one result per sample, keeps the threshold, leaves the last sample as candidate, and every edge goes to the sample that fired it |
| Debounce.FeedPreservesValid | src/debouncer.rs:37-75 | The counter invariant holds after any trace from a valid machine |
| Debounce.ReachableIsValid | src/debouncer.rs:28-75 | Every machine reachable from `new` satisfies the counter invariant |
| Debounce.SettledRepeatIsNoOp | src/debouncer.rs:38-43 | Settled on `v`, any number of `v` samples leaves the machine unchanged and gives no edge |
| Debounce.RunTowardsCandidate | src/debouncer.rs:44-58 | Settled on `a`, the first `k < Max(threshold, 2)` samples of `b != a` give no edge; afterwards `b` is the candidate with count `k`, and neither `is_state(a)` nor `is_state(b)` holds |
| Debounce.ConfirmAfterRun | src/debouncer.rs:44-70 | Settled on `a`, `Max(threshold, 2)` samples of `b != a` give no edge except on the last, which is `Edge(a, b)`; then `is_state(b)` holds, `is_state(a)` does not, and the count is the threshold |
| Debounce.RunLength | src/debouncer.rs:50-58 | The trailing-run length used by the reference is exactly the length of the longest suffix of equal samples (all equal, maximal) |
| Debounce.UpdateAgrees | src/debouncer.rs:37-75 | One update carries the agreement with the reference (stable value, candidate, count equals trailing run while unsettled) to a trace one sample longer, and its output is the reference edge |
| Debounce.Characterisation | src/debouncer.rs:37-75 | For every threshold, initial value and trace, the machine's stable value is the value of the most recent run of `Max(threshold, 2)` identical samples; its outputs are exactly the reference edges; it is settled exactly when the last sample equals the stable value; while unsettled the count is the trailing run length, and that is below `Max(threshold, 2)` |
| Debounce.IsStateAfterTrace | src/debouncer.rs:77-79 | After any trace, `is_state(v)` holds exactly when `v` is the reference stable value and the last sample is `v` |
| Debounce.EdgeNeedsUninterruptedRun | src/debouncer.rs:44-70 | An edge on a sample means the last `Max(threshold, 2)` samples all equal it and differ from the stable value before them |
| Debounce.LowThresholdActsAsTwo | src/debouncer.rs:44-61 | Thresholds 0 and 1 give the same edges, stable value and settledness as threshold 2 on every trace |
| Pin.New | src/pin.rs:17-21 | A new pin debouncer wraps a new generic machine; `is_low()` holds iff the initial level is `Low`, and `is_high()` holds iff it is `High`; its threshold fits in a `u8` |
| Pin.Update | src/pin.rs:23-25 | Returns exactly what the inner generic update returns and changes nothing else; every edge flips the level; a valid 8-bit machine stays valid |
| Pin.NeverBothLevels | src/pin.rs:27-33 | `is_high()` and `is_low()` are never both true |
| Pin.CandidateIsOtherLevel | src/pin.rs:5-13 | With two levels, a pending candidate is the level other than the stable one, and neither `is_high()` nor `is_low()` holds |
| Pin.CounterFitsU8 | src/pin.rs:12-14 | In a valid 8-bit machine the counter is below 256, and so is `count + 1` while a transition is pending, so the `u8` addition never overflows |
| Pin.ReachableIsValidU8 | src/pin.rs:17-25 | Every machine reachable from `new` with a `u8` threshold is a valid 8-bit machine |
| Pin.OppositeLevelInterruptionSettles | src/pin.rs:387-396 | While a transition is pending, one sample of the stable level gives no edge and settles the pin back on the stable level |
| Pin.RisingEdgeThreshold3 | src/pin.rs:41-65 | Threshold 3 from `Low`: `High, High, High` gives `None, None, Edge(Low, High)`; a fourth `High` gives `None` and the pin is high; then `Low, High, High, High` gives no edge and the pin is still high |
| Pin.RoundTripThreshold2 | src/pin.rs:179-189 | Threshold 2 from `Low`: `High, High` gives `None, Edge(Low, High)`, then `Low, Low` gives `None, Edge(High, Low)` |
| Pin.IsLowHighThreshold8 | src/pin.rs:112-142 | Threshold 8 from `Low`: seven `High` samples give no edge and leave the pin neither low nor high; the eighth gives `Edge(Low, High)`, after which the pin is high and not low |

## Left out

- Memory layout: the `size_of_val` footprint tests (src/debouncer.rs:224-243, src/pin.rs:146-165) cannot be expressed in Dafny.
- The `num::traits::One`, `Add` and `PartialOrd` trait bounds on the counter type: the generic counter is a `nat`, whose order is total. The `u8` instantiation keeps `nat` fields and is bounded by the predicate `Pin.Valid`, which holds in every reachable state (`Pin.ReachableIsValidU8`).
- State equality: `T: PartialEq` (src/debouncer.rs:25) is modelled as Dafny's `==`, which is an equivalence. A non-reflexive equality, such as floating-point NaN, is not modelled: for it, `is_state(initial)` after `new` could be false, and every such sample would take the second branch. Likewise, a counter type whose `PartialOrd` leaves `count + 1` and the threshold unordered could reach the final `else` of `update` (src/debouncer.rs:71-74). That cannot happen with `nat`.
- `#[derive(Debug)]`, `#![deny(unsafe_code)]` and the self-assignments in `update`: none of them changes behaviour.
- Sampling cadence and GPIO reading: the caller supplies the samples, so the model takes them as a sequence.
- The long sample-by-sample test traces (src/debouncer.rs:298-576, src/pin.rs:213-493) are not replayed one by one. `Debounce.Characterisation` states the behaviour on every trace.
- The `ABDebouncer` test wrapper in src/debouncer.rs:93-116 is the same thin forwarding wrapper as `SmallPinDebouncer`, so it is not modelled separately.
