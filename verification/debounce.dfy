/**
 A model of the generic debounce state machine of the derico crate.

 A `Debouncer` keeps a confirmed (stable) value, a candidate value, a
 repetition counter and an immutable threshold. Each raw sample is fed to
 `Update`, which returns the next machine and possibly an `Edge`: a confirmed
 transition from the old stable value to the new one.

 The counter type of the source is an arbitrary unsigned integer type; here it
 is an unbounded `nat` (the 8-bit instantiation is bounded in module `Pin`).
 */
module Debounce {

  datatype Option<T> = None | Some(value: T)

  /** A confirmed transition between two stable values. */
  datatype Edge<T> = Edge(from: T, to: T)

  /** The machine: stable value, candidate value, repetition counter, threshold. */
  datatype Debouncer<T> = Debouncer(current: T, next: T, count: nat, threshold: nat)

  function Max(a: int, b: int): (m: int) {
    if a < b then b else a
  }

  /** No transition is pending. */
  predicate IsSettled<T(==)>(d: Debouncer<T>) {
    d.current == d.next
  }

  /** The machine is settled on exactly `v`. */
  predicate IsState<T(==)>(d: Debouncer<T>, v: T) {
    d.current == d.next && d.current == v
  }

  /** A fresh machine starts settled on the initial value, counter at threshold. */
  function New<T(==)>(threshold: nat, initial: T): (d: Debouncer<T>)
    ensures IsState(d, initial)
    ensures d.count == d.threshold == threshold
  {
    Debouncer(initial, initial, threshold, threshold)
  }

  /**
   The four-way decision table, in the order the source evaluates it. The last
   branch of the source is unreachable for a totally ordered counter (here
   `nat`): the guards before it cover every case, which the `assert false`
   there establishes.
   */
  function Update<T(==)>(d: Debouncer<T>, sample: T): (r: (Debouncer<T>, Option<Edge<T>>))
    ensures r.0.threshold == d.threshold
    ensures r.0.next == sample
    ensures r.1.None? ==> r.0.current == d.current
    ensures r.1.Some? ==>
              && r.1.value == Edge(d.current, sample)
              && d.current != sample
              && d.next == sample
              && IsState(r.0, sample)
              && r.0.count == d.threshold
    ensures IsSettled(d) ==> r.1.None?
  {
    if d.current == sample then
      (d.(next := sample), None)
    else if d.current != sample && d.next != sample then
      (d.(next := sample, count := 1), None)
    else if d.current != sample && d.next == sample && d.count + 1 < d.threshold then
      (d.(next := sample, count := d.count + 1), None)
    else if d.current != sample && d.next == sample && d.count + 1 >= d.threshold then
      (Debouncer(sample, sample, d.threshold, d.threshold), Some(Edge(d.current, d.next)))
    else
      assert false; (d, None)
  }

  /** A sample equal to the stable value: no edge, stable value and counter kept, settled. */
  lemma StableSampleKeepsState<T>(d: Debouncer<T>, sample: T)
    requires sample == d.current
    ensures var (d', e) := Update(d, sample);
              && e == None
              && d'.current == d.current && d'.count == d.count
              && IsState(d', sample)
  {
  }

  /** Once settled on `v`, feeding `v` is a no-op that reports no edge. */
  lemma SettledUpdateIsNoOp<T>(d: Debouncer<T>, v: T)
    requires IsState(d, v)
    ensures Update(d, v) == (d, None)
  {
  }

  /** A sample different from both the stable value and the candidate restarts the count. */
  lemma NewCandidateRestarts<T>(d: Debouncer<T>, sample: T)
    requires sample != d.current && sample != d.next
    ensures var (d', e) := Update(d, sample);
              && e == None
              && d' == Debouncer(d.current, sample, 1, d.threshold)
  {
  }

  /**
   Reading back the stable value while a transition is pending settles the
   machine, so the next candidate sample starts again from a count of one.
   */
  lemma ReadBackErasesProgress<T>(d: Debouncer<T>)
    requires !IsSettled(d)
    ensures var (d1, e1) := Update(d, d.current);
            var (d2, e2) := Update(d1, d.next);
              && e1 == None && e2 == None
              && IsState(d1, d.current)
              && d2 == Debouncer(d.current, d.next, 1, d.threshold)
  {
  }

  /** `IsState` holds of at most one value. */
  lemma IsStateUnique<T>(d: Debouncer<T>, v: T, w: T)
    requires IsState(d, v) && IsState(d, w)
    ensures v == w
  {
  }

  // ---------------------------------------------------------------------------
  // Counter bounds

  /**
   The invariant of reachable machines: while a transition is pending the
   counter lies in 1..Max(1, threshold - 1); once settled it is either pinned
   at the threshold or still holds such a value.
   */
  predicate Valid<T(==)>(d: Debouncer<T>) {
    var inRange := 1 <= d.count <= Max(1, d.threshold - 1);
    if IsSettled(d) then d.count == d.threshold || inRange else inRange
  }

  lemma NewIsValid<T>(threshold: nat, initial: T)
    ensures Valid(New(threshold, initial))
  {
  }

  lemma UpdatePreservesValid<T>(d: Debouncer<T>, sample: T)
    requires Valid(d)
    ensures Valid(Update(d, sample).0)
  {
  }

  /** With a positive threshold the counter never exceeds it. */
  lemma CountBelowThreshold<T>(d: Debouncer<T>)
    requires Valid(d) && d.threshold >= 1
    ensures d.count <= d.threshold
    ensures !IsSettled(d) ==> d.count + 1 <= Max(2, d.threshold)
  {
  }

  // ---------------------------------------------------------------------------
  // Traces

  /** Feeds the samples of `xs` in order, collecting one result per sample. */
  function Feed<T(==)>(d: Debouncer<T>, xs: seq<T>): (r: (Debouncer<T>, seq<Option<Edge<T>>>))
    ensures |r.1| == |xs|
    ensures r.0.threshold == d.threshold
    ensures r.0.next == if xs == [] then d.next else xs[|xs| - 1]
    ensures forall i :: 0 <= i < |r.1| && r.1[i].Some? ==> r.1[i].value.to == xs[i]
    decreases |xs|
  {
    if xs == [] then (d, [])
    else
      var (d1, es) := Feed(d, xs[..|xs| - 1]);
      var (d2, e) := Update(d1, xs[|xs| - 1]);
      (d2, es + [e])
  }

  function Repeat<T>(v: T, k: nat): (s: seq<T>)
    ensures |s| == k
    ensures forall i :: 0 <= i < k ==> s[i] == v
  {
    seq(k, _ => v)
  }

  lemma {:induction false} FeedPreservesValid<T>(d: Debouncer<T>, xs: seq<T>)
    requires Valid(d)
    ensures Valid(Feed(d, xs).0)
    decreases |xs|
  {
    if xs != [] {
      FeedPreservesValid(d, xs[..|xs| - 1]);
      UpdatePreservesValid(Feed(d, xs[..|xs| - 1]).0, xs[|xs| - 1]);
    }
  }

  /** Every machine reachable from `New` satisfies `Valid`. */
  lemma {:induction false} ReachableIsValid<T>(threshold: nat, initial: T, xs: seq<T>)
    ensures Valid(Feed(New(threshold, initial), xs).0)
  {
    FeedPreservesValid(New(threshold, initial), xs);
  }

  /** Feeding the settled value any number of times changes nothing and reports nothing. */
  lemma {:induction false} SettledRepeatIsNoOp<T>(d: Debouncer<T>, v: T, k: nat)
    requires IsState(d, v)
    ensures Feed(d, Repeat(v, k)) == (d, Repeat(None, k))
    decreases k
  {
    if k > 0 {
      assert Repeat(v, k)[..k - 1] == Repeat(v, k - 1);
      SettledRepeatIsNoOp(d, v, k - 1);
      assert Repeat<Option<Edge<T>>>(None, k - 1) + [None] == Repeat(None, k);
    }
  }

  /**
   Settled on `a`, the first `k < Max(threshold, 2)` samples of `b != a` give
   no edge and leave a pending transition towards `b` with count `k`.
   */
  lemma {:induction false} RunTowardsCandidate<T>(d: Debouncer<T>, b: T, k: nat)
    requires IsSettled(d) && d.current != b
    requires 1 <= k < Max(d.threshold, 2)
    ensures var (d', es) := Feed(d, Repeat(b, k));
              && d' == Debouncer(d.current, b, k, d.threshold)
              && es == Repeat(None, k)
              && !IsState(d', d.current) && !IsState(d', b)
    decreases k
  {
    assert Repeat(b, k)[..k - 1] == Repeat(b, k - 1);
    assert Repeat<Option<Edge<T>>>(None, k - 1) + [None] == Repeat(None, k);
    if k > 1 {
      RunTowardsCandidate(d, b, k - 1);
    } else {
      assert Repeat(b, 0) == [];
    }
  }

  /**
   Settled on `a`, exactly `Max(threshold, 2)` samples of `b != a` confirm `b`:
   all earlier samples give no edge and the last gives `Edge(a, b)`.
   */
  lemma ConfirmAfterRun<T>(d: Debouncer<T>, b: T)
    requires IsSettled(d) && d.current != b
    ensures var m := Max(d.threshold, 2);
            var (d', es) := Feed(d, Repeat(b, m));
              && es == Repeat(None, m - 1) + [Some(Edge(d.current, b))]
              && IsState(d', b) && !IsState(d', d.current)
              && d'.count == d.threshold
  {
    var m := Max(d.threshold, 2);
    assert Repeat(b, m)[..m - 1] == Repeat(b, m - 1);
    RunTowardsCandidate(d, b, m - 1);
  }

  // ---------------------------------------------------------------------------
  // Trace-level characterisation

  /** Length of the longest suffix of `xs` whose samples are all equal. */
  function RunLength<T(==)>(xs: seq<T>): (n: nat)
    ensures n <= |xs|
    ensures n == 0 <==> xs == []
    ensures forall k :: |xs| - n <= k < |xs| ==> xs[k] == xs[|xs| - 1]
    ensures 0 < n < |xs| ==> xs[|xs| - 1 - n] != xs[|xs| - 1]
    decreases |xs|
  {
    if |xs| == 0 then 0
    else if |xs| >= 2 && xs[|xs| - 2] == xs[|xs| - 1] then 1 + RunLength(xs[..|xs| - 1])
    else 1
  }

  /**
   Reference stable value: the value of the most recent run of at least `m`
   identical samples, or `initial` when no such run has occurred.
   */
  function RefStable<T(==)>(initial: T, m: nat, xs: seq<T>): (v: T)
    decreases |xs|
  {
    if xs == [] then initial
    else if RunLength(xs) >= m then xs[|xs| - 1]
    else RefStable(initial, m, xs[..|xs| - 1])
  }

  /**
   Reference edge for the last sample of `xs`: it fires exactly when that
   sample differs from the stable value before it and closes a run of `m`.
   */
  function RefEdge<T(==)>(initial: T, m: nat, xs: seq<T>): (e: Option<Edge<T>>)
    requires xs != []
  {
    var before := RefStable(initial, m, xs[..|xs| - 1]);
    var x := xs[|xs| - 1];
    if x != before && RunLength(xs) >= m then Some(Edge(before, x)) else None
  }

  /** Reference output trace: entry `i` is the reference edge of the prefix ending at `i`. */
  function RefEdges<T(==)>(initial: T, m: nat, xs: seq<T>): (es: seq<Option<Edge<T>>>) {
    seq(|xs|, i requires 0 <= i < |xs| => RefEdge(initial, m, xs[..i + 1]))
  }

  /** The run length grows by one when the new sample repeats the last one, else restarts. */
  lemma RunLengthSnoc<T>(xs: seq<T>)
    requires xs != []
    ensures var ys, x := xs[..|xs| - 1], xs[|xs| - 1];
            RunLength(xs) == if ys != [] && ys[|ys| - 1] == x then RunLength(ys) + 1 else 1
  {
  }

  /** The reference trace of a longer prefix extends that of the shorter one. */
  lemma RefEdgesSnoc<T>(initial: T, m: nat, xs: seq<T>)
    requires xs != []
    ensures RefEdges(initial, m, xs) ==
              RefEdges(initial, m, xs[..|xs| - 1]) + [RefEdge(initial, m, xs)]
  {
    var ys := xs[..|xs| - 1];
    forall i | 0 <= i < |ys|
      ensures RefEdges(initial, m, xs)[i] == RefEdges(initial, m, ys)[i]
    {
      assert xs[..i + 1] == ys[..i + 1];
    }
    assert xs[..|xs|] == xs;
  }

  /** How a machine fed `xs` relates to the reference, with effective threshold `m`. */
  ghost predicate Agrees<T>(initial: T, m: nat, d: Debouncer<T>, xs: seq<T>) {
    && d.current == RefStable(initial, m, xs)
    && d.next == (if xs == [] then initial else xs[|xs| - 1])
    && (!IsSettled(d) ==> d.count == RunLength(xs) < m)
  }

  /** One `Update` carries the agreement from `xs` minus its last sample to `xs`. */
  lemma UpdateAgrees<T>(initial: T, d: Debouncer<T>, xs: seq<T>)
    requires xs != []
    requires Agrees(initial, Max(d.threshold, 2), d, xs[..|xs| - 1])
    ensures var m := Max(d.threshold, 2);
            var (d', e) := Update(d, xs[|xs| - 1]);
            Agrees(initial, m, d', xs) && e == RefEdge(initial, m, xs)
  {
    RunLengthSnoc(xs);
  }

  /**
   The machine built by `New(threshold, initial)` and fed `xs` agrees with the
   reference: its stable value is `RefStable`, its outputs are `RefEdges`, with
   effective threshold `Max(threshold, 2)`; while a transition is pending, its
   counter is the length of the trailing run of identical samples.
   */
  lemma {:induction false} Characterisation<T>(threshold: nat, initial: T, xs: seq<T>)
    ensures var m := Max(threshold, 2);
            var (d, es) := Feed(New(threshold, initial), xs);
              && d.current == RefStable(initial, m, xs)
              && es == RefEdges(initial, m, xs)
              && (IsSettled(d) <==> xs == [] || xs[|xs| - 1] == d.current)
              && (!IsSettled(d) ==> d.count == RunLength(xs) < m)
    decreases |xs|
  {
    var m := Max(threshold, 2);
    if xs != [] {
      var ys := xs[..|xs| - 1];
      Characterisation(threshold, initial, ys);
      var (d1, es1) := Feed(New(threshold, initial), ys);
      assert Agrees(initial, m, d1, ys);
      UpdateAgrees(initial, d1, xs);
      RefEdgesSnoc(initial, m, xs);
    }
  }

  /** `IsState` after a trace, in terms of the reference only. */
  lemma {:induction false} IsStateAfterTrace<T>(threshold: nat, initial: T, xs: seq<T>, v: T)
    ensures IsState(Feed(New(threshold, initial), xs).0, v) <==>
              && v == RefStable(initial, Max(threshold, 2), xs)
              && (xs == [] || xs[|xs| - 1] == v)
  {
    Characterisation(threshold, initial, xs);
  }

  /**
   An edge on the last sample means the last `Max(threshold, 2)` samples are
   all equal to it and differ from the stable value before them.
   */
  lemma {:induction false} EdgeNeedsUninterruptedRun<T>(threshold: nat, initial: T, xs: seq<T>)
    requires xs != []
    requires Feed(New(threshold, initial), xs).1[|xs| - 1].Some?
    ensures |xs| >= Max(threshold, 2)
    ensures forall k :: |xs| - Max(threshold, 2) <= k < |xs| ==> xs[k] == xs[|xs| - 1]
    ensures xs[|xs| - 1] != RefStable(initial, Max(threshold, 2), xs[..|xs| - 1])
  {
    var m := Max(threshold, 2);
    var es := Feed(New(threshold, initial), xs).1;
    Characterisation(threshold, initial, xs);
    assert es[|xs| - 1] == RefEdge(initial, m, xs[..|xs|]);
    assert xs[..|xs|] == xs;
    RefEdgeCloses(initial, m, xs);
  }

  /** A reference edge on the last sample closes a run of `m` samples equal to it. */
  lemma RefEdgeCloses<T>(initial: T, m: nat, xs: seq<T>)
    requires xs != [] && RefEdge(initial, m, xs).Some?
    ensures |xs| >= m
    ensures forall k :: |xs| - m <= k < |xs| ==> xs[k] == xs[|xs| - 1]
    ensures xs[|xs| - 1] != RefStable(initial, m, xs[..|xs| - 1])
  {
    assert RunLength(xs) >= m;
  }

  /**
   Thresholds 0 and 1 behave exactly like threshold 2: the same edges, the
   same stable value and the same settledness on every trace.
   */
  lemma {:induction false} LowThresholdActsAsTwo<T>(threshold: nat, initial: T, xs: seq<T>)
    requires threshold <= 1
    ensures Feed(New(threshold, initial), xs).1 == Feed(New(2, initial), xs).1
    ensures Feed(New(threshold, initial), xs).0.current == Feed(New(2, initial), xs).0.current
    ensures IsSettled(Feed(New(threshold, initial), xs).0) == IsSettled(Feed(New(2, initial), xs).0)
  {
    Characterisation(threshold, initial, xs);
    Characterisation(2, initial, xs);
  }
}
