/**
 The two-level pin debouncer of the derico crate: the generic machine of
 module `Debounce` with the value domain fixed to `PinState` and an unsigned
 8-bit counter, whose range `Valid` states and every reachable machine keeps.
 */
module Pin {
  import opened Debounce

  datatype PinState = Low | High

  /**
   The source's `u8`, as the type of the threshold given to `New`. The wrapped
   machine keeps `nat` fields; `Valid` bounds them to this range.
   */
  type U8 = x: nat | x < 256

  /** The level that is not `s`. */
  function Other(s: PinState): (o: PinState) {
    if s == Low then High else Low
  }

  /** A pin debouncer is a thin wrapper around a generic machine. */
  datatype SmallPinDebouncer = SmallPinDebouncer(inner: Debouncer<PinState>)

  predicate IsHigh(p: SmallPinDebouncer) {
    IsState(p.inner, High)
  }

  predicate IsLow(p: SmallPinDebouncer) {
    IsState(p.inner, Low)
  }

  /**
   A machine the 8-bit instantiation can hold: the generic invariant plus a
   threshold that fits in a `u8`.
   */
  predicate Valid(p: SmallPinDebouncer) {
    p.inner.threshold < 256 && Debounce.Valid(p.inner)
  }

  function New(threshold: U8, initial: PinState): (p: SmallPinDebouncer)
    ensures p.inner == Debounce.New(threshold, initial)
    ensures IsLow(p) == (initial == Low)
    ensures IsHigh(p) == (initial == High)
    ensures Valid(p)
  {
    SmallPinDebouncer(Debounce.New(threshold, initial))
  }

  /**
   Forwards to the generic `Update`. Every edge flips the level, and an
   8-bit machine stays an 8-bit machine.
   */
  function Update(p: SmallPinDebouncer, s: PinState): (r: (SmallPinDebouncer, Option<Edge<PinState>>))
    ensures (r.0.inner, r.1) == Debounce.Update(p.inner, s)
    ensures r.1.Some? ==> r.1.value.to == Other(r.1.value.from) && IsState(r.0.inner, s)
    ensures Valid(p) ==> Valid(r.0)
  {
    var u := Debounce.Update(p.inner, s);
    assert u.1.Some? ==> u.1.value.from != u.1.value.to;
    (SmallPinDebouncer(u.0), u.1)
  }

  /** `IsHigh` and `IsLow` never hold together. */
  lemma NeverBothLevels(p: SmallPinDebouncer)
    ensures !(IsHigh(p) && IsLow(p))
  {
  }

  /** With two levels, a pending candidate is always the other level. */
  lemma CandidateIsOtherLevel(p: SmallPinDebouncer)
    requires !IsSettled(p.inner)
    ensures p.inner.next == Other(p.inner.current)
    ensures !IsHigh(p) && !IsLow(p)
  {
  }

  /**
   The counter fits in a `u8`, and so does `count + 1`, which the source only
   computes while a transition is pending.
   */
  lemma CounterFitsU8(p: SmallPinDebouncer)
    requires Valid(p)
    ensures p.inner.count < 256
    ensures !IsSettled(p.inner) ==> p.inner.count + 1 < 256
  {
  }

  /** Every machine reachable from `New` is a valid 8-bit machine. */
  lemma {:induction false} ReachableIsValidU8(threshold: U8, initial: PinState, xs: seq<PinState>)
    ensures Valid(SmallPinDebouncer(Feed(New(threshold, initial).inner, xs).0))
  {
    ReachableIsValid(threshold, initial, xs);
  }

  /**
   A single sample of the stable level while a transition is pending settles
   the machine again, so an edge needs `Max(threshold, 2)` uninterrupted
   samples of the opposite level.
   */
  lemma OppositeLevelInterruptionSettles(p: SmallPinDebouncer)
    requires !IsSettled(p.inner)
    ensures var (p', e) := Update(p, p.inner.current);
              && e == None
              && IsState(p'.inner, p.inner.current)
  {
  }

  /**
   Threshold 3 from `Low`: three `High` samples rise and a fourth does nothing;
   then `Low, High, High, High` gives no edge at all.
   */
  lemma RisingEdgeThreshold3()
    ensures var p0 := New(3, Low);
            var (p1, e1) := Update(p0, High);
            var (p2, e2) := Update(p1, High);
            var (p3, e3) := Update(p2, High);
            var (p4, e4) := Update(p3, High);
            var (p5, e5) := Update(p4, Low);
            var (p6, e6) := Update(p5, High);
            var (p7, e7) := Update(p6, High);
            var (p8, e8) := Update(p7, High);
              && e1 == None && e2 == None
              && e3 == Some(Edge(Low, High))
              && e4 == None && IsHigh(p4)
              && e5 == None && e6 == None && e7 == None && e8 == None
              && IsHigh(p8)
  {
  }

  /** Threshold 2: from `Low`, two `High` samples rise and two `Low` samples fall. */
  lemma RoundTripThreshold2()
    ensures var p0 := New(2, Low);
            var (p1, e1) := Update(p0, High);
            var (p2, e2) := Update(p1, High);
            var (p3, e3) := Update(p2, Low);
            var (p4, e4) := Update(p3, Low);
              && e1 == None && e2 == Some(Edge(Low, High))
              && e3 == None && e4 == Some(Edge(High, Low))
              && IsLow(p4)
  {
  }

  /**
   Threshold 8 from `Low`: after seven `High` samples the pin is neither low
   nor high; the eighth rises, after which it is high and not low.
   */
  lemma IsLowHighThreshold8()
    ensures var p := New(8, Low);
            var (d7, es7) := Feed(p.inner, Repeat(High, 7));
            var (d8, es8) := Feed(p.inner, Repeat(High, 8));
              && es7 == Repeat(None, 7)
              && !IsLow(SmallPinDebouncer(d7)) && !IsHigh(SmallPinDebouncer(d7))
              && es8[7] == Some(Edge(Low, High))
              && IsHigh(SmallPinDebouncer(d8)) && !IsLow(SmallPinDebouncer(d8))
  {
    var p := New(8, Low);
    RunTowardsCandidate(p.inner, High, 7);
    ConfirmAfterRun(p.inner, High);
  }
}
