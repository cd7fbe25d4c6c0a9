/** The notifier of src/observable.js: a `paused` flag and an insertion-ordered set of deferred
    subscribers. It is generic in the subscriber type `S` and, for the flush, in the state `W`
    that running a subscriber transforms. */
module Notifications {
  import opened Seqs

  datatype Notifier<S> = Notifier(paused: bool, deferred: seq<S>)

  /** The notifier's reachable states: the deferred set has no duplicates (it is a `Set`),
      and nothing is deferred while the notifier is not paused. */
  predicate Valid<S(==)>(n: Notifier<S>) {
    Distinct(n.deferred) && (!n.paused ==> n.deferred == [])
  }

  /** The state `newNotifier` starts in. */
  function Initial<S>(): Notifier<S> {
    Notifier(false, [])
  }

  /** `notify(subscriber)`: the second component says whether the subscriber runs now.
      While paused the subscriber is only added to `deferred`, at most once. */
  function Notify<S(==)>(n: Notifier<S>, s: S): (r: (Notifier<S>, bool))
    ensures r.1 <==> !n.paused
    ensures !n.paused ==> r.0 == n
    ensures r.0.paused == n.paused && n.deferred <= r.0.deferred
    ensures n.paused ==> Elems(r.0.deferred) == Elems(n.deferred) + {s}
    ensures n.paused && s in n.deferred ==> r.0 == n
    ensures Valid(n) ==> Valid(r.0)
  {
    if n.paused then (n.(deferred := Insert(n.deferred, s)), false) else (n, true)
  }

  /** `pause()`. */
  function Pause<S>(n: Notifier<S>): (r: Notifier<S>)
    ensures r.paused && r.deferred == n.deferred
  {
    n.(paused := true)
  }

  /** Running a subscriber from state `w` gives a new state and the subscribers it notified
      meanwhile, all of them drawn from `universe`. */
  ghost predicate Closed<S(!new), W(!new)>(run: (W, S) -> (W, seq<S>), universe: set<S>) {
    forall w, s :: Elems(run(w, s).1) <= universe
  }

  /** The trace of a flush: the final deferred set, the states seen before and after each
      subscriber ran, and what each run notified. */
  datatype Flushed<S, W> = Flushed(order: seq<S>, worlds: seq<W>, raised: seq<seq<S>>)

  /** `ran[k]` ran from `worlds[k]`, reached `worlds[k + 1]` and notified `raised[k]`. */
  ghost predicate Traced<S(!new), W(!new)>(run: (W, S) -> (W, seq<S>), ran: seq<S>, worlds: seq<W>, raised: seq<seq<S>>) {
    && |ran| == |raised|
    && |worlds| == |raised| + 1
    && forall k {:trigger ran[k]} | 0 <= k < |ran| :: run(worlds[k], ran[k]) == (worlds[k + 1], raised[k])
  }

  lemma TracedCons<S(!new), W(!new)>(run: (W, S) -> (W, seq<S>), s: S, w: W, ran: seq<S>, worlds: seq<W>, raised: seq<seq<S>>)
    requires Traced(run, ran, worlds, raised) && worlds[0] == run(w, s).0
    ensures Traced(run, [s] + ran, [w] + worlds, [run(w, s).1] + raised)
  {
    var ran', worlds', raised' := [s] + ran, [w] + worlds, [run(w, s).1] + raised;
    forall k | 0 <= k < |ran'|
      ensures run(worlds'[k], ran'[k]) == (worlds'[k + 1], raised'[k])
    {
      if k > 0 {
        assert ran'[k] == ran[k - 1] && worlds'[k] == worlds[k - 1] && worlds'[k + 1] == worlds[k];
      }
    }
  }

  /** The loop `for (const d of deferred) d();` of `resume`, from position `i` on. Running a
      subscriber may notify others while `paused` is still true; they are added to the very set
      being iterated and so are visited too, unless they are already in it. */
  function Flush<S(==,!new), W(!new)>(w: W, queue: seq<S>, i: nat, run: (W, S) -> (W, seq<S>), universe: set<S>): (r: Flushed<S, W>)
    requires i <= |queue| && Distinct(queue) && Elems(queue) <= universe
    requires Closed(run, universe)
    ensures queue <= r.order && Distinct(r.order) && Elems(r.order) <= universe && i <= |r.order|
    ensures r.worlds != [] && r.worlds[0] == w
    ensures Traced(run, r.order[i..], r.worlds, r.raised)
    ensures r.order == AddAll(queue, Flatten(r.raised))
    decreases |universe| - i
  {
    if i == |queue| then Flushed(queue, [w], [])
    else
      DistinctBound(queue, universe);
      var p := run(w, queue[i]);
      assert Elems(p.1) <= universe;
      var rest := Flush(p.0, AddAll(queue, p.1), i + 1, run, universe);
      FlushStep(w, queue, i, run, p.1, rest);
      Flushed(rest.order, [w] + rest.worlds, [p.1] + rest.raised)
  }

  /** One round of the flush: what the rest of the loop did, seen from one position earlier. */
  lemma FlushStep<S(!new), W(!new)>(w: W, queue: seq<S>, i: nat, run: (W, S) -> (W, seq<S>), raised: seq<S>, rest: Flushed<S, W>)
    requires i < |queue| && raised == run(w, queue[i]).1
    requires AddAll(queue, raised) <= rest.order && i + 1 <= |rest.order|
    requires rest.worlds != [] && rest.worlds[0] == run(w, queue[i]).0
    requires Traced(run, rest.order[i + 1..], rest.worlds, rest.raised)
    requires rest.order == AddAll(AddAll(queue, raised), Flatten(rest.raised))
    ensures queue <= rest.order
    ensures Traced(run, rest.order[i..], [w] + rest.worlds, [raised] + rest.raised)
    ensures rest.order == AddAll(queue, Flatten([raised] + rest.raised))
  {
    PrefixTrans(queue, AddAll(queue, raised), rest.order);
    TracedStep(w, queue[i], i, run, rest.order, rest.worlds, rest.raised);
    FlattenCons(raised, rest.raised);
    AddAllConcat(queue, raised, Flatten(rest.raised));
  }

  lemma TracedStep<S(!new), W(!new)>(w: W, s: S, i: nat, run: (W, S) -> (W, seq<S>), order: seq<S>, worlds: seq<W>, raised: seq<seq<S>>)
    requires i < |order| && order[i] == s
    requires worlds != [] && worlds[0] == run(w, s).0
    requires Traced(run, order[i + 1..], worlds, raised)
    ensures Traced(run, order[i..], [w] + worlds, [run(w, s).1] + raised)
  {
    assert order[i..] == [s] + order[i + 1..];
    TracedCons(run, s, w, order[i + 1..], worlds, raised);
  }

  lemma PrefixTrans<S>(a: seq<S>, b: seq<S>, c: seq<S>)
    requires a <= b && b <= c
    ensures a <= c
  {
  }

  /** `resume()`: flushes the deferred subscribers with `paused` still true, then empties the
      set and unpauses. */
  function Resume<S(==,!new), W(!new)>(n: Notifier<S>, w: W, run: (W, S) -> (W, seq<S>), universe: set<S>): (r: (Notifier<S>, Flushed<S, W>))
    requires Valid(n) && Elems(n.deferred) <= universe && Closed(run, universe)
    ensures Valid(r.0) && !r.0.paused && r.0.deferred == []
    ensures var f := r.1;
      && Distinct(f.order)
      && n.deferred <= f.order
      && f.order == AddAll(n.deferred, Flatten(f.raised))
      && Elems(f.order) == Elems(n.deferred) + Elems(Flatten(f.raised))
      && f.worlds != [] && f.worlds[0] == w
      && Traced(run, f.order, f.worlds, f.raised)
  {
    var f := Flush(w, n.deferred, 0, run, universe);
    assert f.order[0..] == f.order;
    (Initial(), f)
  }

  /** Notifying the same subscriber twice while paused defers it once. */
  lemma NotifyPausedOnce<S>(n: Notifier<S>, s: S)
    requires n.paused
    ensures Notify(Notify(n, s).0, s) == Notify(n, s)
  {
  }

  /** When no subscriber notifies another, the flush runs exactly the deferred subscribers, in
      insertion order. */
  lemma {:induction false} ResumeWithoutReentry<S(!new), W(!new)>(n: Notifier<S>, w: W, run: (W, S) -> (W, seq<S>), universe: set<S>)
    requires Valid(n) && Elems(n.deferred) <= universe && Closed(run, universe)
    requires forall x, s :: run(x, s).1 == []
    ensures Resume(n, w, run, universe).1.order == n.deferred
  {
    var f := Resume(n, w, run, universe).1;
    forall k | 0 <= k < |f.raised|
      ensures f.raised[k] == []
    {
      assert run(f.worlds[k], f.order[k]) == (f.worlds[k + 1], f.raised[k]);
    }
    FlattenEmpties(f.raised);
  }
}
