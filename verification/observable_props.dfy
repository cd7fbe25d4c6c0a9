/** Properties of the reactive runtime of src/observable.js that relate several operations:
    subscription bookkeeping, autorun lifetimes, and what a transaction delivers. */
module ObservableProps {
  import opened Seqs
  import opened Notifications
  import opened Observable

  // ---------------------------------------------------------------------------------------
  // Subscriber sets

  /** The closure `subscribe` returns undoes the registration it made, and only that one. */
  lemma UnsubscribeUndoesSubscribe(c: Cell, s: SubId)
    requires s !in c.subscribers
    ensures Unsubscribe(Subscribe(c, s), s) == c
  {
    DeleteAppended(c.subscribers, s);
  }

  // ---------------------------------------------------------------------------------------
  // Autorun lifetimes

  /** After a run, an autorun is subscribed to exactly the existing cells its body read outside
      `untracked` on that run: whatever it was subscribed to before is gone. */
  lemma LiveSubscriptions(w: World, prog: Program, a: SubId)
    requires Inv(w) && a in w.autoruns
    ensures var r := Rerun(w, prog, a);
      forall c | c in w.cells :: a in r.cells[c].subscribers <==> c in TrackedReads(prog(a, Values(w)))
  {
    var r := Rerun(w, prog, a);
    HeldArePresent(w, r, a, TrackedReads(prog(a, Values(w))));
  }

  /** The same for the first run `autorun` makes. */
  lemma StartSubscriptions(w: World, prog: Program, a: SubId)
    requires Inv(w) && a !in w.autoruns
    ensures var r := StartAutorun(w, prog, a);
      && r.autoruns[a].runs == 1
      && forall c | c in w.cells :: a in r.cells[c].subscribers <==> c in TrackedReads(prog(a, Values(w)))
  {
    var r := StartAutorun(w, prog, a);
    HeldArePresent(w, r, a, TrackedReads(prog(a, Values(w))));
  }

  /** An autorun that holds the existing cells among `cs` is subscribed to exactly those. */
  lemma HeldArePresent(w: World, r: World, a: SubId, cs: seq<CellId>)
    requires Inv(r) && r.cells.Keys == w.cells.Keys && a in r.autoruns && r.autoruns[a].held == Present(w, cs)
    ensures forall c | c in w.cells :: a in r.cells[c].subscribers <==> c in cs
  {
    var p := Present(w, cs);
    forall c | c in w.cells
      ensures a in r.cells[c].subscribers <==> c in cs
    {
      assert c in p <==> c in Elems(p);
      assert c in cs <==> c in Elems(cs);
    }
  }

  /** `dispose` as written is idempotent. */
  lemma DisposeTwice(w: World, a: SubId)
    ensures DisposeAsWritten(DisposeAsWritten(w, a), a) == DisposeAsWritten(w, a)
  {
    var d := DisposeAsWritten(w, a);
    var d2 := DisposeAsWritten(d, a);
    if a in w.autoruns {
      assert d2.cells == d.cells;
      assert d2.autoruns == d.autoruns;
    }
  }

  /** `dispose` as written leaves the autorun holding nothing; it is dead exactly when no flush
      is pending for it. */
  lemma DisposeKills(w: World, a: SubId)
    requires a in w.autoruns
    ensures var r := DisposeAsWritten(w, a);
      r.autoruns[a].held == [] && (Dead(r, a) <==> a !in w.notifier.deferred)
  {
  }

  /** The intended `dispose` is idempotent. */
  lemma DisposeIntendedTwice(w: World, a: SubId)
    ensures DisposeAutorun(DisposeAutorun(w, a), a) == DisposeAutorun(w, a)
  {
    var d := DisposeAutorun(w, a);
    var d2 := DisposeAutorun(d, a);
    if a in w.autoruns {
      assert d2.cells == d.cells;
      assert d2.autoruns == d.autoruns;
    }
    assert d.notifier.deferred == Delete(d.notifier.deferred, a) by {
      DeleteAbsent(d.notifier.deferred, a);
    }
  }

  /** The intended `dispose` always leaves the autorun dead. */
  lemma DisposeIntendedKills(w: World, a: SubId)
    requires a in w.autoruns
    ensures Dead(DisposeAutorun(w, a), a)
  {
  }

  /** A dead autorun is in no subscriber set. */
  lemma DeadUnsubscribed(w: World, a: SubId)
    requires Inv(w) && Dead(w, a)
    ensures forall c | c in w.cells :: a !in w.cells[c].subscribers
  {
    forall c | c in w.cells
      ensures a !in w.cells[c].subscribers
    {
      var held := w.autoruns[a].held;
      assert a in w.cells[c].subscribers ==> c in held;
    }
  }

  /** A write never reruns a dead autorun, and leaves it dead. */
  lemma SetSparesDead(w: World, prog: Program, c: CellId, v: Value, a: SubId)
    requires Inv(w) && Dead(w, a)
    ensures var r := Set(w, prog, c, v); Dead(r, a) && r.autoruns[a] == w.autoruns[a]
  {
    DeadUnsubscribed(w, a);
    var r := Set(w, prog, c, v);
    if Changes(w, c, v) {
      if w.notifier.paused {
        assert a !in Elems(r.notifier.deferred);
      } else {
        assert SetReruns(w, prog, c, v, r);
      }
    }
  }

  /** A write or a `dispose` of another autorun, as written or as intended, leaves a dead
      autorun dead and untouched. */
  lemma ApplySparesDead(w: World, prog: Program, act: Action, a: SubId)
    requires Inv(w) && Dead(w, a) && !act.Nested? && !act.Throw?
    ensures var r := Apply(w, prog, act); Dead(r, a) && r.autoruns[a] == w.autoruns[a]
  {
    match act
    case Write(c, v) => SetSparesDead(w, prog, c, v, a);
    case Dispose(b) =>
    case DisposeIntended(b) =>
      assert a !in Elems(DisposeAutorun(w, b).notifier.deferred);
  }

  /** A transaction body never reruns a dead autorun, and leaves it dead. */
  lemma {:induction false} PerformSparesDead(w: World, prog: Program, acts: seq<Action>, a: SubId)
    requires Inv(w) && Dead(w, a)
    ensures var r := Perform(w, prog, acts).0; Dead(r, a) && r.autoruns[a] == w.autoruns[a]
    decreases acts, 0
  {
    if acts == [] || acts[0].Throw? {
    } else if acts[0].Nested? {
      TransactionSparesDead(w, prog, acts[0].body, a);
      var t := Transaction(w, prog, acts[0].body);
      if t.1 == Normal {
        PerformSparesDead(t.0, prog, acts[1..], a);
      }
    } else {
      ApplySparesDead(w, prog, acts[0], a);
      PerformSparesDead(Apply(w, prog, acts[0]), prog, acts[1..], a);
    }
  }

  /** A whole transaction, flush included, never reruns a dead autorun. */
  lemma {:induction false} TransactionSparesDead(w: World, prog: Program, acts: seq<Action>, a: SubId)
    requires Inv(w) && Dead(w, a)
    ensures var r := Transaction(w, prog, acts).0; Dead(r, a) && r.autoruns[a] == w.autoruns[a]
    decreases acts, 1
  {
    var p := PauseAll(w);
    PerformSparesDead(p, prog, acts, a);
    var q := Perform(p, prog, acts).0;
    assert RerunAll(q, prog, q.notifier.deferred).autoruns[a] == q.autoruns[a];
  }

  // ---------------------------------------------------------------------------------------
  // Disposing an autorun inside a transaction

  /** As written, an autorun that a transaction notified and then disposed is still run by the
      flush, and subscribes again to the cells it reads. */
  lemma DisposedInTransactionRunsAgain(w: World, prog: Program, c: CellId, v: Value, a: SubId)
    requires Inv(w) && !w.notifier.paused && Changes(w, c, v) && a in w.cells[c].subscribers
    ensures var r := Transaction(w, prog, [Write(c, v), Dispose(a)]).0;
      && r.autoruns[a].runs == w.autoruns[a].runs + 1
      && r.autoruns[a].held == Present(w, TrackedReads(prog(a, Stored(w, c, v))))
  {
    var p := PauseAll(w);
    var s := Set(p, prog, c, v);
    WriteThenDispose(p, prog, c, v, Dispose(a));
    assert a in Elems(s.notifier.deferred);
    var d := DisposeAsWritten(s, a);
    assert Values(d) == Stored(w, c, v);
    assert a in d.notifier.deferred;
  }

  /** With the intended `dispose`, the same transaction leaves the autorun alone. */
  lemma DisposedInTransactionStaysDead(w: World, prog: Program, c: CellId, v: Value, a: SubId)
    requires Inv(w) && a in w.autoruns
    ensures var r := Transaction(w, prog, [Write(c, v), DisposeIntended(a)]).0;
      && r.autoruns[a].runs == w.autoruns[a].runs
      && forall d | d in r.cells :: a !in r.cells[d].subscribers
  {
    var p := PauseAll(w);
    var d := DisposeAutorun(Set(p, prog, c, v), a);
    WriteThenDispose(p, prog, c, v, DisposeIntended(a));
    assert Dead(d, a) && d.autoruns[a].runs == w.autoruns[a].runs by {
      assert Set(p, prog, c, v).autoruns == p.autoruns;
    }
    ResumeSparesDead(d, prog, a);
    DeadUnsubscribed(ResumeAll(d, prog), a);
  }

  /** The body `write; dispose` of a transaction, step by step. */
  lemma WriteThenDispose(p: World, prog: Program, c: CellId, v: Value, act: Action)
    requires Inv(p) && (act.Dispose? || act.DisposeIntended?)
    ensures var s := Set(p, prog, c, v);
      Perform(p, prog, [Write(c, v), act]).0
        == if act.Dispose? then DisposeAsWritten(s, act.sub) else DisposeAutorun(s, act.sub)
  {
    var acts := [Write(c, v), act];
    PerformWrite(p, prog, acts);
    assert acts[1..] == [act];
    PerformDispose(Set(p, prog, c, v), prog, act);
  }

  lemma PerformDispose(s: World, prog: Program, act: Action)
    requires Inv(s) && (act.Dispose? || act.DisposeIntended?)
    ensures Perform(s, prog, [act]).0
      == if act.Dispose? then DisposeAsWritten(s, act.sub) else DisposeAutorun(s, act.sub)
  {
    assert [act][1..] == [];
  }

  /** The flush at the end of a transaction never reruns a dead autorun. */
  lemma ResumeSparesDead(d: World, prog: Program, a: SubId)
    requires Inv(d) && Dead(d, a)
    ensures var r := ResumeAll(d, prog); Dead(r, a) && r.autoruns[a] == d.autoruns[a]
  {
    assert RerunAll(d, prog, d.notifier.deferred).autoruns[a] == d.autoruns[a];
  }

  // ---------------------------------------------------------------------------------------
  // What a transaction of writes delivers

  /** A body made only of writes. */
  predicate Flat(acts: seq<Action>) {
    forall k | 0 <= k < |acts| :: acts[k].Write?
  }

  /** The store after one write, `===` guard aside: ids that name no cell are ignored. */
  function Put(s: Store, c: CellId, v: Value): Store {
    if c in s then s[c := v] else s
  }

  /** The store after a body of writes. */
  function Final(s: Store, acts: seq<Action>): Store
    requires Flat(acts)
  {
    if acts == [] then s else Final(Put(s, acts[0].cell, acts[0].value), acts[1..])
  }

  /** The cells whose write got past the `===` guard, each judged against the value it held
      when it was written. */
  function Dirty(s: Store, acts: seq<Action>): set<CellId>
    requires Flat(acts)
  {
    if acts == [] then {}
    else
      var c, v := acts[0].cell, acts[0].value;
      (if c in s && s[c] != v then {c} else {}) + Dirty(Put(s, c, v), acts[1..])
  }

  /** The autoruns subscribed to one of the cells `cs`. */
  function Woken(w: World, cs: set<CellId>): set<SubId> {
    set c, a | c in cs && c in w.cells && a in w.cells[c].subscribers :: a
  }

  /** The cell a write changes, if any. */
  function Touched(s: Store, c: CellId, v: Value): set<CellId> {
    if c in s && s[c] != v then {c} else {}
  }

  /** One write while paused. */
  lemma PausedWrite(w: World, prog: Program, c: CellId, v: Value)
    requires w.notifier.paused
    ensures var s := Set(w, prog, c, v);
      && s.autoruns == w.autoruns && s.notifier.paused && (Inv(w) ==> Inv(s))
      && s.cells.Keys == w.cells.Keys && Values(s) == Put(Values(w), c, v)
      && (forall d | d in w.cells :: s.cells[d].subscribers == w.cells[d].subscribers)
      && Elems(s.notifier.deferred) == Elems(w.notifier.deferred) + Woken(w, Touched(Values(w), c, v))
  {
    var s := Set(w, prog, c, v);
    if Changes(w, c, v) {
      assert Woken(w, {c}) == Elems(w.cells[c].subscribers);
    } else {
      assert Woken(w, {}) == {};
    }
  }

  lemma PerformWrite(w: World, prog: Program, acts: seq<Action>)
    requires Inv(w) && acts != [] && acts[0].Write?
    ensures Perform(w, prog, acts) == Perform(Set(w, prog, acts[0].cell, acts[0].value), prog, acts[1..])
  {
    assert Apply(w, prog, acts[0]) == Set(w, prog, acts[0].cell, acts[0].value);
  }

  lemma WokenSame(w: World, s: World, cs: set<CellId>)
    requires s.cells.Keys == w.cells.Keys
    requires forall d | d in w.cells :: s.cells[d].subscribers == w.cells[d].subscribers
    ensures Woken(s, cs) == Woken(w, cs)
  {
  }

  lemma WokenUnion(w: World, xs: set<CellId>, ys: set<CellId>)
    ensures Woken(w, xs + ys) == Woken(w, xs) + Woken(w, ys)
  {
  }

  /** A body of writes, one `set` after the other. */
  function Writes(w: World, prog: Program, acts: seq<Action>): World
    requires Flat(acts)
    decreases acts
  {
    if acts == [] then w else Writes(Set(w, prog, acts[0].cell, acts[0].value), prog, acts[1..])
  }

  /** A body of writes cannot throw, and performing it is doing its writes in order. */
  lemma {:induction false} PerformFlat(w: World, prog: Program, acts: seq<Action>)
    requires Inv(w) && Flat(acts)
    ensures Perform(w, prog, acts) == (Writes(w, prog, acts), Normal)
    decreases acts
  {
    if acts != [] {
      PerformWrite(w, prog, acts);
      assert Flat(acts[1..]);
      PerformFlat(Set(w, prog, acts[0].cell, acts[0].value), prog, acts[1..]);
    }
  }

  /** A body that raises after some writes stops there: the writes stay done, and the rest of
      the body is skipped. */
  lemma {:induction false} PerformRaises(w: World, prog: Program, ws: seq<Action>, rest: seq<Action>)
    requires Inv(w) && Flat(ws)
    ensures Perform(w, prog, ws + [Throw] + rest) == (Writes(w, prog, ws), Raised)
    decreases ws
  {
    var acts := ws + [Throw] + rest;
    if ws == [] {
      assert acts[0] == Throw;
    } else {
      assert acts[0] == ws[0];
      PerformWrite(w, prog, acts);
      assert acts[1..] == ws[1..] + [Throw] + rest;
      assert Flat(ws[1..]);
      PerformRaises(Set(w, prog, ws[0].cell, ws[0].value), prog, ws[1..], rest);
    }
  }

  /** A transaction whose body raises after some writes delivers those writes exactly as the
      transaction of the writes alone would, flush included, and raises the error again. */
  lemma TransactionRaises(w: World, prog: Program, ws: seq<Action>, rest: seq<Action>)
    requires Inv(w) && Flat(ws)
    ensures Transaction(w, prog, ws + [Throw] + rest) == (Transaction(w, prog, ws).0, Raised)
  {
    var p := PauseAll(w);
    PerformRaises(p, prog, ws, rest);
    PerformFlat(p, prog, ws);
  }

  /** While paused, writes only store values: subscriptions and autoruns are untouched. */
  lemma {:induction false} PausedWrites(w: World, prog: Program, acts: seq<Action>)
    requires Inv(w) && w.notifier.paused && Flat(acts)
    ensures var r := Writes(w, prog, acts);
      && Inv(r) && r.autoruns == w.autoruns && r.notifier.paused
      && r.cells.Keys == w.cells.Keys && Values(r) == Final(Values(w), acts)
      && (forall c | c in w.cells :: r.cells[c].subscribers == w.cells[c].subscribers)
    decreases acts
  {
    if acts != [] {
      var c, v := acts[0].cell, acts[0].value;
      PausedWrite(w, prog, c, v);
      assert Flat(acts[1..]);
      PausedWrites(Set(w, prog, c, v), prog, acts[1..]);
    }
  }

  /** While paused, writes defer exactly the subscribers of the cells they change. */
  lemma {:induction false} PausedDefers(w: World, prog: Program, acts: seq<Action>)
    requires w.notifier.paused && Flat(acts)
    ensures Elems(Writes(w, prog, acts).notifier.deferred) == Elems(w.notifier.deferred) + Woken(w, Dirty(Values(w), acts))
    decreases acts
  {
    if acts != [] {
      var c, v := acts[0].cell, acts[0].value;
      var s := Set(w, prog, c, v);
      var rest := Dirty(Put(Values(w), c, v), acts[1..]);
      var t := Touched(Values(w), c, v);
      assert Woken(w, Dirty(Values(w), acts)) == Woken(w, t) + Woken(w, rest) by {
        assert Dirty(Values(w), acts) == t + rest;
        WokenUnion(w, t, rest);
      }
      PausedWrite(w, prog, c, v);
      assert Flat(acts[1..]);
      PausedDefers(s, prog, acts[1..]);
      DefersAfterWrite(w, prog, c, v, acts[1..]);
    }
  }

  /** The autoruns the rest of the body defers, seen from before the first write. */
  lemma DefersAfterWrite(w: World, prog: Program, c: CellId, v: Value, more: seq<Action>)
    requires w.notifier.paused && Flat(more)
    requires var s := Set(w, prog, c, v);
      && s.notifier.paused
      && Elems(Writes(s, prog, more).notifier.deferred) == Elems(s.notifier.deferred) + Woken(s, Dirty(Values(s), more))
    ensures var s := Set(w, prog, c, v);
      Elems(Writes(s, prog, more).notifier.deferred)
        == Elems(w.notifier.deferred) + Woken(w, Touched(Values(w), c, v)) + Woken(w, Dirty(Put(Values(w), c, v), more))
  {
    PausedWrite(w, prog, c, v);
    WokenSame(w, Set(w, prog, c, v), Dirty(Put(Values(w), c, v), more));
  }

  /** A transaction of writes started outside any transaction: every autorun subscribed to a
      changed cell runs exactly once, after the body, on the final values; no other autorun
      runs; the notifier ends unpaused. */
  lemma TransactionBatches(w: World, prog: Program, acts: seq<Action>)
    requires Inv(w) && !w.notifier.paused && Flat(acts)
    ensures var r := Transaction(w, prog, acts).0;
      var f := Final(Values(w), acts);
      && r.notifier == Initial() && Values(r) == f
      && forall a | a in w.autoruns ::
           r.autoruns[a] == if a in Woken(w, Dirty(Values(w), acts))
                            then Autorun(Present(w, TrackedReads(prog(a, f))), w.autoruns[a].runs + 1, f)
                            else w.autoruns[a]
  {
    var p := PauseAll(w);
    assert Values(p) == Values(w);
    PerformFlat(p, prog, acts);
    PausedWrites(p, prog, acts);
    PausedDefers(p, prog, acts);
    var q := Writes(p, prog, acts);
    assert Woken(p, Dirty(Values(w), acts)) == Woken(w, Dirty(Values(w), acts));
    var f := Final(Values(w), acts);
    forall a | a in q.autoruns && a in q.notifier.deferred
      ensures Ran(q, prog, a) == Autorun(Present(w, TrackedReads(prog(a, f))), w.autoruns[a].runs + 1, f)
    {
      assert Present(q, TrackedReads(prog(a, f))) == Present(w, TrackedReads(prog(a, f)));
    }
    forall a | a in w.autoruns
      ensures a in q.notifier.deferred <==> a in Woken(w, Dirty(Values(w), acts))
    {
      assert a in q.notifier.deferred <==> a in Elems(q.notifier.deferred);
    }
  }

  /** Nested transactions are not counted: the inner one's `resume` flushes and unpauses, so a
      write that follows it in the outer body is delivered at once. */
  lemma NestedResumesEarly(w: World, prog: Program, body: seq<Action>, c: CellId, v: Value)
    requires Inv(w) && w.notifier.paused && !Throws(body)
    ensures var t := Transaction(w, prog, body).0;
      && !t.notifier.paused
      && Perform(w, prog, [Nested(body), Write(c, v)]).0 == Set(t, prog, c, v)
  {
    var t := Transaction(w, prog, body);
    PerformNested(w, prog, body, [Write(c, v)]);
    assert [Nested(body)] + [Write(c, v)] == [Nested(body), Write(c, v)];
    PerformWrite(t.0, prog, [Write(c, v)]);
    assert [Write(c, v)][1..] == [];
  }

  lemma PerformNested(w: World, prog: Program, body: seq<Action>, rest: seq<Action>)
    requires Inv(w) && !Throws(body)
    ensures Perform(w, prog, [Nested(body)] + rest) == Perform(Transaction(w, prog, body).0, prog, rest)
  {
    var acts := [Nested(body)] + rest;
    assert acts[0] == Nested(body) && acts[1..] == rest;
  }
}
