/** The reactive runtime of src/observable.js: cells, the tracking context, autoruns and
    transactions, over one explicit world value instead of the module's global slots.

    A computation body is a pure function of the cell values (`Program`): given the autorun's
    id and the store it sees, it lists the reads it makes, in order. Bodies read cells and may
    wrap reads in `untracked`; they do not write cells and do not throw. */
module Observable {
  import opened Seqs
  import opened Notifications

  type CellId = nat
  type SubId = nat
  /** A JavaScript value compared with `===`. */
  type Value = int
  /** The values every cell holds at one moment. */
  type Store = map<CellId, Value>

  /** One step of a computation body: `cell.get()`, or `untracked(() => ...)` around more steps. */
  datatype Access = Read(cell: CellId) | Untracked(body: seq<Access>)

  /** The body of every autorun, by id. */
  type Program = (SubId, Store) -> seq<Access>

  /** A cell: its value and its subscriber `Set`, in insertion order. */
  datatype Cell = Cell(value: Value, subscribers: seq<SubId>)

  /** The ambient context slot: none, the recorder installed by `track`, or the recorder
      installed by an autorun run, which subscribes the autorun to every cell read. */
  datatype Context = NoContext | Recording(log: seq<CellId>) | Subscribing(owner: SubId)

  /** An autorun's state: the cells whose unsubscribe closures it holds (its `disposes`
      array, one entry per read), how often its body ran, and the store its last run saw. */
  datatype Autorun = Autorun(held: seq<CellId>, runs: nat, seen: Store)

  datatype World = World(cells: map<CellId, Cell>, notifier: Notifier<SubId>, context: Context, autoruns: map<SubId, Autorun>)

  // ---------------------------------------------------------------------------------------
  // Cells

  /** `subscribe(fn)`: adds to the subscriber set. */
  function Subscribe(c: Cell, s: SubId): (r: Cell)
    ensures r.value == c.value && s in r.subscribers
    ensures Elems(r.subscribers) == Elems(c.subscribers) + {s}
    ensures Distinct(c.subscribers) ==> Distinct(r.subscribers)
  {
    c.(subscribers := Insert(c.subscribers, s))
  }

  /** The closure `subscribe` returns: deletes that subscriber from the set. */
  function Unsubscribe(c: Cell, s: SubId): (r: Cell)
    ensures r.value == c.value && s !in r.subscribers
    ensures Elems(r.subscribers) == Elems(c.subscribers) - {s}
    ensures Distinct(c.subscribers) ==> Distinct(r.subscribers)
  {
    c.(subscribers := Delete(c.subscribers, s))
  }

  /** The value of every cell. */
  function Values(w: World): (s: Store)
    ensures s.Keys == w.cells.Keys
    ensures forall c | c in w.cells :: s[c] == w.cells[c].value
  {
    map c | c in w.cells :: w.cells[c].value
  }

  /** The cells among `cs` that exist, in order. */
  function Present(w: World, cs: seq<CellId>): (r: seq<CellId>)
    ensures forall c | c in r :: c in w.cells
  {
    var r := Keep(cs, w.cells.Keys);
    assert forall c | c in r :: c in Elems(r);
    r
  }

  /** The reads of a body that happen under the body's own context: those not inside `untracked`. */
  function TrackedReads(accs: seq<Access>): seq<CellId> {
    if accs == [] then []
    else (if accs[0].Read? then [accs[0].cell] else []) + TrackedReads(accs[1..])
  }

  lemma {:induction false} TrackedReadsConcat(xs: seq<Access>, ys: seq<Access>)
    ensures TrackedReads(xs + ys) == TrackedReads(xs) + TrackedReads(ys)
    decreases xs
  {
    if xs == [] {
      assert xs + ys == ys;
    } else {
      assert (xs + ys)[0] == xs[0] && (xs + ys)[1..] == xs[1..] + ys;
      TrackedReadsConcat(xs[1..], ys);
    }
  }

  // ---------------------------------------------------------------------------------------
  // The two-way link between subscriber sets and autoruns

  /** The reachable worlds: the notifier is valid and defers only autoruns, subscriber sets have
      no duplicates, and an autorun is in a cell's subscriber set exactly when it holds an
      unsubscribe closure for that cell. */
  ghost predicate Inv(w: World) {
    && Valid(w.notifier)
    && (forall a | a in w.notifier.deferred :: a in w.autoruns)
    && Linked(w.cells, w.autoruns)
  }

  /** The subscriber sets have no duplicates and agree with what the autoruns hold. */
  ghost predicate Linked(cells: map<CellId, Cell>, autoruns: map<SubId, Autorun>) {
    && (forall c | c in cells :: Distinct(cells[c].subscribers))
    && (forall c, a | c in cells && a in cells[c].subscribers :: a in autoruns && c in autoruns[a].held)
    && (forall a, c | a in autoruns && c in autoruns[a].held :: c in cells && a in cells[c].subscribers)
  }

  // ---------------------------------------------------------------------------------------
  // Reading and the context slot

  /** What the current context does when cell `c` is read (`globalContext(self)`). */
  function Register(w: World, c: CellId): (r: World)
    requires c in w.cells
    ensures r == Registered(w, [c])
  {
    match w.context
    case NoContext => w
    case Recording(log) => w.(context := Recording(log + [c]))
    case Subscribing(a) =>
      if a in w.autoruns then
        w.(cells := w.cells[c := Subscribe(w.cells[c], a)],
           autoruns := w.autoruns[a := w.autoruns[a].(held := w.autoruns[a].held + [c])])
      else w
  }

  /** `get()`: the value, and the context told about the read. */
  function Get(w: World, c: CellId): (r: (Value, World))
    requires c in w.cells
    ensures r.0 == w.cells[c].value
    ensures r.1 == Registered(w, [c])
  {
    (w.cells[c].value, Register(w, c))
  }

  /** Reference semantics for reading the cells `cs` in order under the current context. */
  function Registered(w: World, cs: seq<CellId>): (r: World)
    requires forall c | c in cs :: c in w.cells
    ensures r.cells.Keys == w.cells.Keys && Values(r) == Values(w)
    ensures r.notifier == w.notifier && r.autoruns.Keys == w.autoruns.Keys
  {
    match w.context
    case NoContext => w
    case Recording(log) => w.(context := Recording(log + cs))
    case Subscribing(a) =>
      if a in w.autoruns then
        w.(cells := map c | c in w.cells :: if c in cs then Subscribe(w.cells[c], a) else w.cells[c],
           autoruns := w.autoruns[a := w.autoruns[a].(held := w.autoruns[a].held + cs)])
      else w
  }

  /** Reads told to the current context keep the world reachable. */
  lemma RegisteredInv(w: World, cs: seq<CellId>)
    requires Inv(w) && forall c | c in cs :: c in w.cells
    ensures Inv(Registered(w, cs))
  {
    var r := Registered(w, cs);
    if w.context.Subscribing? && w.context.owner in w.autoruns {
      var a := w.context.owner;
      RegisteredDistinct(w, a, cs, r);
      RegisteredHeld(w, a, cs, r);
      RegisteredSubscribed(w, a, cs, r);
      Relinked(w, r);
    }
  }

  /** Changing only subscriber sets and held cells, consistently, keeps the world reachable. */
  lemma Relinked(w: World, r: World)
    requires Inv(w) && r.notifier == w.notifier && r.autoruns.Keys == w.autoruns.Keys
    requires forall c | c in r.cells :: Distinct(r.cells[c].subscribers)
    requires forall c, b | c in r.cells && b in r.cells[c].subscribers :: b in r.autoruns && c in r.autoruns[b].held
    requires forall b, c | b in r.autoruns && c in r.autoruns[b].held :: c in r.cells && b in r.cells[c].subscribers
    ensures Inv(r)
  {
  }

  lemma RegisteredDistinct(w: World, a: SubId, cs: seq<CellId>, r: World)
    requires Inv(w) && a in w.autoruns
    requires r.cells == map c | c in w.cells :: if c in cs then Subscribe(w.cells[c], a) else w.cells[c]
    ensures forall c | c in r.cells :: Distinct(r.cells[c].subscribers)
  {
    forall c | c in r.cells
      ensures Distinct(r.cells[c].subscribers)
    {
      assert Distinct(w.cells[c].subscribers);
    }
  }

  lemma RegisteredHeld(w: World, a: SubId, cs: seq<CellId>, r: World)
    requires Inv(w) && a in w.autoruns
    requires r.cells == map c | c in w.cells :: if c in cs then Subscribe(w.cells[c], a) else w.cells[c]
    requires r.autoruns == w.autoruns[a := w.autoruns[a].(held := w.autoruns[a].held + cs)]
    ensures forall c, b | c in r.cells && b in r.cells[c].subscribers :: b in r.autoruns && c in r.autoruns[b].held
  {
    forall c, b | c in r.cells && b in r.cells[c].subscribers
      ensures b in r.autoruns && c in r.autoruns[b].held
    {
      if b != a || c !in cs {
        assert b in Elems(r.cells[c].subscribers);
        assert b in w.cells[c].subscribers;
      }
    }
  }

  lemma RegisteredSubscribed(w: World, a: SubId, cs: seq<CellId>, r: World)
    requires Inv(w) && a in w.autoruns && forall c | c in cs :: c in w.cells
    requires r.cells == map c | c in w.cells :: if c in cs then Subscribe(w.cells[c], a) else w.cells[c]
    requires r.autoruns == w.autoruns[a := w.autoruns[a].(held := w.autoruns[a].held + cs)]
    ensures forall b, c | b in r.autoruns && c in r.autoruns[b].held :: c in r.cells && b in r.cells[c].subscribers
  {
    forall b, c | b in r.autoruns && c in r.autoruns[b].held
      ensures c in r.cells && b in r.cells[c].subscribers
    {
      if b != a || c !in cs {
        assert c in w.autoruns[b].held;
        assert b in Elems(w.cells[c].subscribers);
        assert b in Elems(r.cells[c].subscribers);
      }
    }
  }

  /** One read keeps the world reachable. */
  lemma ReadInv(w: World, c: CellId)
    requires Inv(w) && c in w.cells
    ensures Inv(Get(w, c).1)
  {
    RegisteredInv(w, [c]);
  }

  /** Runs a body's steps under the current context; reads of ids that name no cell do nothing. */
  function Exec(w: World, accs: seq<Access>): (r: World)
    ensures r.cells.Keys == w.cells.Keys && Values(r) == Values(w)
    ensures r.notifier == w.notifier && r.autoruns.Keys == w.autoruns.Keys
    decreases accs, 0
  {
    if accs == [] then w
    else
      var w' := match accs[0]
        case Read(c) => if c in w.cells then Get(w, c).1 else w
        case Untracked(inner) => RunWithContext(w, NoContext, inner).0;
      Exec(w', accs[1..])
  }

  /** `runWithContext(fn, context)`: installs `ctx`, runs the body, and puts the previous context
      back; the second component is the installed context as the body left it. */
  function RunWithContext(w: World, ctx: Context, accs: seq<Access>): (r: (World, Context))
    ensures r.0.context == w.context
    ensures r.0.cells.Keys == w.cells.Keys && Values(r.0) == Values(w)
    ensures r.0.notifier == w.notifier && r.0.autoruns.Keys == w.autoruns.Keys
    decreases accs, 1
  {
    var w' := Exec(w.(context := ctx), accs);
    (w'.(context := w.context), w'.context)
  }

  // ---------------------------------------------------------------------------------------
  // What a body does to the world

  lemma SubscribeTwice(c: Cell, s: SubId)
    ensures Subscribe(Subscribe(c, s), s) == Subscribe(c, s)
  {
  }

  lemma {:induction false} RegisteredConcat(w: World, xs: seq<CellId>, ys: seq<CellId>)
    requires forall c | c in xs + ys :: c in w.cells
    ensures Registered(Registered(w, xs), ys) == Registered(w, xs + ys)
  {
    match w.context
    case NoContext =>
    case Recording(log) =>
      assert log + xs + ys == log + (xs + ys);
    case Subscribing(a) =>
      if a in w.autoruns {
        var w1 := Registered(w, xs);
        var r1 := Registered(w1, ys);
        var r2 := Registered(w, xs + ys);
        forall c | c in w.cells
          ensures r1.cells[c] == r2.cells[c]
        {
          if c in xs && c in ys {
            SubscribeTwice(w.cells[c], a);
          }
        }
        assert r1.cells == r2.cells;
        assert w.autoruns[a].held + xs + ys == w.autoruns[a].held + (xs + ys);
      }
  }

  lemma RegisteredNothing(w: World)
    ensures Registered(w, []) == w
  {
    match w.context
    case NoContext =>
    case Recording(log) =>
      assert log + [] == log;
    case Subscribing(a) =>
      if a in w.autoruns {
        var r := Registered(w, []);
        assert r.cells == w.cells;
        assert w.autoruns[a].held + [] == w.autoruns[a].held;
        assert r.autoruns == w.autoruns;
      }
  }

  /** Steps run under no context change nothing. */
  lemma {:induction false} ExecWithoutContext(w: World, accs: seq<Access>)
    requires w.context == NoContext
    ensures Exec(w, accs) == w
    decreases accs, 0
  {
    if accs != [] {
      match accs[0] {
        case Read(c) =>
        case Untracked(inner) =>
          UntrackedChangesNothing(w, inner);
      }
      ExecWithoutContext(w, accs[1..]);
    }
  }

  /** `untracked(fn)` = `runWithContext(fn, null)`: whatever the enclosing context, the reads
      inside register nowhere, and the world is left exactly as it was. */
  lemma {:induction false} UntrackedChangesNothing(w: World, accs: seq<Access>)
    ensures RunWithContext(w, NoContext, accs).0 == w
    decreases accs, 1
  {
    ExecWithoutContext(w.(context := NoContext), accs);
  }

  /** Running a body amounts to reading, in order, the existing cells it reads outside
      `untracked`, each read told to the current context. */
  lemma {:induction false} ExecEffect(w: World, accs: seq<Access>)
    ensures Exec(w, accs) == Registered(w, Present(w, TrackedReads(accs)))
    decreases accs
  {
    if accs == [] {
      RegisteredNothing(w);
    } else {
      var rest := accs[1..];
      assert TrackedReads(accs) == (if accs[0].Read? then [accs[0].cell] else []) + TrackedReads(rest);
      match accs[0]
      case Read(c) =>
        KeepConcat([c], TrackedReads(rest), w.cells.Keys);
        if c in w.cells {
          var w' := Get(w, c).1;
          assert Exec(w, accs) == Exec(w', rest);
          ExecEffect(w', rest);
          var p := Present(w, TrackedReads(rest));
          assert Present(w', TrackedReads(rest)) == p;
          assert Keep([c], w.cells.Keys) == [c] by {
            assert Keep([c], w.cells.Keys) == Keep([], w.cells.Keys) + [c];
          }
          assert Present(w, TrackedReads(accs)) == [c] + p;
          RegisteredConcat(w, [c], p);
        } else {
          assert Keep([c], w.cells.Keys) == Keep([], w.cells.Keys) + [] == [];
          assert [c] + TrackedReads(rest) == TrackedReads(accs);
          assert Present(w, TrackedReads(accs)) == [] + Present(w, TrackedReads(rest)) == Present(w, TrackedReads(rest));
          assert Exec(w, accs) == Exec(w, rest);
          ExecEffect(w, rest);
        }
      case Untracked(inner) =>
        UntrackedChangesNothing(w, inner);
        assert Exec(w, accs) == Exec(w, rest);
        assert TrackedReads(accs) == [] + TrackedReads(rest) == TrackedReads(rest);
        ExecEffect(w, rest);
    }
  }

  /** `track(fn)`: runs the body under a fresh recorder and returns the existing cells it read
      outside `untracked`, in read order and with repetitions; it subscribes nothing. */
  function Track(w: World, accs: seq<Access>): (r: (seq<CellId>, World))
    ensures r.0 == Present(w, TrackedReads(accs))
    ensures r.1 == w
  {
    var w0 := w.(context := Recording([]));
    ExecEffect(w0, accs);
    assert Present(w0, TrackedReads(accs)) == Present(w, TrackedReads(accs));
    var (w', ctx) := RunWithContext(w, Recording([]), accs);
    assert ctx == Recording([] + Present(w, TrackedReads(accs)));
    (ctx.log, w')
  }

  // ---------------------------------------------------------------------------------------
  // Autoruns

  /** What one run of autorun `a` leaves in its record: the existing cells its body reads
      outside `untracked` on the current store, one more run, and the store it saw. */
  function Ran(w: World, prog: Program, a: SubId): Autorun
    requires a in w.autoruns
  {
    Autorun(Present(w, TrackedReads(prog(a, Values(w)))), w.autoruns[a].runs + 1, Values(w))
  }

  /** An autorun's `dispose`: runs every held unsubscribe closure, then empties the array. */
  function Release(w: World, a: SubId): (r: World)
    requires a in w.autoruns
    ensures r.cells.Keys == w.cells.Keys && Values(r) == Values(w)
    ensures r.notifier == w.notifier && r.context == w.context
    ensures r.autoruns == w.autoruns[a := w.autoruns[a].(held := [])]
    ensures Inv(w) ==> Inv(r) && forall c | c in r.cells :: a !in r.cells[c].subscribers
  {
    var held := w.autoruns[a].held;
    var r := w.(cells := map c | c in w.cells :: if c in held then Unsubscribe(w.cells[c], a) else w.cells[c],
                autoruns := w.autoruns[a := w.autoruns[a].(held := [])]);
    assert Values(r) == Values(w);
    assert Inv(w) ==> Inv(r) && forall c | c in r.cells :: a !in r.cells[c].subscribers by {
      if Inv(w) {
        ReleasedInv(w, a, r);
      }
    }
    r
  }

  lemma ReleasedInv(w: World, a: SubId, r: World)
    requires Inv(w) && a in w.autoruns
    requires r.notifier == w.notifier
    requires r.cells == map c | c in w.cells :: if c in w.autoruns[a].held then Unsubscribe(w.cells[c], a) else w.cells[c]
    requires r.autoruns == w.autoruns[a := w.autoruns[a].(held := [])]
    ensures Inv(r) && forall c | c in r.cells :: a !in r.cells[c].subscribers
  {
    forall c | c in r.cells
      ensures a !in r.cells[c].subscribers
    {
      if c !in w.autoruns[a].held {
        assert a !in w.cells[c].subscribers;
      }
    }
    forall c, b | c in r.cells && b in r.cells[c].subscribers
      ensures b in r.autoruns && c in r.autoruns[b].held
    {
      assert b in Elems(r.cells[c].subscribers);
      assert b in w.cells[c].subscribers;
    }
    forall b, c | b in r.autoruns && c in r.autoruns[b].held
      ensures c in r.cells && b in r.cells[c].subscribers
    {
      assert b != a && c in w.autoruns[b].held;
      assert b in Elems(w.cells[c].subscribers);
      assert b in Elems(r.cells[c].subscribers);
    }
    forall c | c in r.cells
      ensures Distinct(r.cells[c].subscribers)
    {
      assert Distinct(w.cells[c].subscribers);
    }
    Relinked(w, r);
  }

  /** The autorun's `wrappedFn`: dispose what it holds, then run the body with a context that
      subscribes it to every cell read. */
  function Rerun(w: World, prog: Program, a: SubId): (r: World)
    ensures r.cells.Keys == w.cells.Keys && Values(r) == Values(w)
    ensures r.notifier == w.notifier && r.context == w.context
    ensures r.autoruns == if a in w.autoruns then w.autoruns[a := Ran(w, prog, a)] else w.autoruns
    ensures Inv(w) ==> Inv(r)
  {
    if a !in w.autoruns then w
    else
      var w1 := Release(w, a);
      var store := Values(w1);
      var w2 := w1.(autoruns := w1.autoruns[a := w1.autoruns[a].(runs := w1.autoruns[a].runs + 1, seen := store)]);
      var r := RunWithContext(w2, Subscribing(a), prog(a, store)).0;
      RerunEffect(w, prog, a, w1, w2, r);
      r
  }

  lemma RerunEffect(w: World, prog: Program, a: SubId, w1: World, w2: World, r: World)
    requires a in w.autoruns && w1 == Release(w, a)
    requires w2 == w1.(autoruns := w1.autoruns[a := w1.autoruns[a].(runs := w1.autoruns[a].runs + 1, seen := Values(w1))])
    requires r == RunWithContext(w2, Subscribing(a), prog(a, Values(w1))).0
    ensures r.cells.Keys == w.cells.Keys && Values(r) == Values(w)
    ensures r.notifier == w.notifier && r.context == w.context
    ensures r.autoruns == w.autoruns[a := Ran(w, prog, a)]
    ensures Inv(w) ==> Inv(r)
  {
    var p := Present(w, TrackedReads(prog(a, Values(w))));
    RerunShape(w, prog, a, w1, w2, r, p);
    RerunRecord(w, prog, a, w1, w2, r, p);
    if Inv(w) {
      RerunInv(w, prog, a, w1, w2, r, p);
    }
  }

  lemma RerunInv(w: World, prog: Program, a: SubId, w1: World, w2: World, r: World, p: seq<CellId>)
    requires Inv(w) && a in w.autoruns && w1 == Release(w, a)
    requires w2 == w1.(autoruns := w1.autoruns[a := w1.autoruns[a].(runs := w1.autoruns[a].runs + 1, seen := Values(w1))])
    requires p == Present(w, TrackedReads(prog(a, Values(w))))
    requires r == Registered(w2.(context := Subscribing(a)), p).(context := w.context)
    ensures Inv(r)
  {
    var v := w2.(context := Subscribing(a));
    SubscribedShape(v, a, p);
    assert [] + p == p;
    ResubscribedInv(w1, a, p, r);
  }

  /** What registering reads does while an autorun records its subscriptions. */
  lemma SubscribedShape(v: World, a: SubId, p: seq<CellId>)
    requires v.context == Subscribing(a) && a in v.autoruns && forall c | c in p :: c in v.cells
    ensures var r := Registered(v, p);
      && r.cells == (map c | c in v.cells :: if c in p then Subscribe(v.cells[c], a) else v.cells[c])
      && r.autoruns == v.autoruns[a := v.autoruns[a].(held := v.autoruns[a].held + p)]
  {
  }

  lemma RerunRecord(w: World, prog: Program, a: SubId, w1: World, w2: World, r: World, p: seq<CellId>)
    requires a in w.autoruns && w1 == Release(w, a)
    requires w2 == w1.(autoruns := w1.autoruns[a := w1.autoruns[a].(runs := w1.autoruns[a].runs + 1, seen := Values(w1))])
    requires p == Present(w, TrackedReads(prog(a, Values(w))))
    requires r == Registered(w2.(context := Subscribing(a)), p).(context := w.context)
    ensures r.autoruns == w.autoruns[a := Ran(w, prog, a)]
  {
    assert [] + p == p;
    assert r.autoruns[a] == Ran(w, prog, a);
  }

  lemma RerunShape(w: World, prog: Program, a: SubId, w1: World, w2: World, r: World, p: seq<CellId>)
    requires a in w.autoruns && w1 == Release(w, a)
    requires w2 == w1.(autoruns := w1.autoruns[a := w1.autoruns[a].(runs := w1.autoruns[a].runs + 1, seen := Values(w1))])
    requires r == RunWithContext(w2, Subscribing(a), prog(a, Values(w1))).0
    requires p == Present(w, TrackedReads(prog(a, Values(w))))
    ensures r == Registered(w2.(context := Subscribing(a)), p).(context := w.context)
  {
    var w3 := w2.(context := Subscribing(a));
    ExecEffect(w3, prog(a, Values(w)));
    assert Present(w3, TrackedReads(prog(a, Values(w)))) == p;
  }

  /** After a release, subscribing the autorun to the cells `p` again restores the link. */
  lemma ResubscribedInv(w1: World, a: SubId, p: seq<CellId>, r: World)
    requires Inv(w1) && a in w1.autoruns && w1.autoruns[a].held == []
    requires forall c | c in p :: c in w1.cells
    requires r.notifier == w1.notifier && r.autoruns.Keys == w1.autoruns.Keys
    requires r.cells == map c | c in w1.cells :: if c in p then Subscribe(w1.cells[c], a) else w1.cells[c]
    requires r.autoruns[a].held == p
    requires forall b | b in w1.autoruns && b != a :: r.autoruns[b] == w1.autoruns[b]
    ensures Inv(r)
  {
    ResubscribedDistinct(w1, a, p, r);
    ResubscribedHeld(w1, a, p, r);
    ResubscribedSubscribed(w1, a, p, r);
    Relinked(w1, r);
  }

  lemma ResubscribedDistinct(w1: World, a: SubId, p: seq<CellId>, r: World)
    requires Inv(w1) && a in w1.autoruns && w1.autoruns[a].held == []
    requires forall c | c in p :: c in w1.cells
    requires r.notifier == w1.notifier && r.autoruns.Keys == w1.autoruns.Keys
    requires r.cells == map c | c in w1.cells :: if c in p then Subscribe(w1.cells[c], a) else w1.cells[c]
    requires r.autoruns[a].held == p
    requires forall b | b in w1.autoruns && b != a :: r.autoruns[b] == w1.autoruns[b]
    ensures forall c | c in r.cells :: Distinct(r.cells[c].subscribers)
  {
    forall c | c in r.cells
      ensures Distinct(r.cells[c].subscribers)
    {
      assert Distinct(w1.cells[c].subscribers);
    }
  }

  lemma ResubscribedHeld(w1: World, a: SubId, p: seq<CellId>, r: World)
    requires forall c, b | c in w1.cells && b in w1.cells[c].subscribers :: b in w1.autoruns && c in w1.autoruns[b].held
    requires a in w1.autoruns && w1.autoruns[a].held == [] && r.autoruns.Keys == w1.autoruns.Keys
    requires r.cells == map c | c in w1.cells :: if c in p then Subscribe(w1.cells[c], a) else w1.cells[c]
    requires r.autoruns[a].held == p
    requires forall b | b in w1.autoruns && b != a :: r.autoruns[b] == w1.autoruns[b]
    ensures forall c, b | c in r.cells && b in r.cells[c].subscribers :: b in r.autoruns && c in r.autoruns[b].held
  {
    forall c, b | c in r.cells && b in r.cells[c].subscribers
      ensures b in r.autoruns && c in r.autoruns[b].held
    {
      if c !in p {
        assert r.cells[c] == w1.cells[c];
        assert b in w1.cells[c].subscribers;
      } else if b != a {
        assert b in w1.cells[c].subscribers;
        assert r.autoruns[b] == w1.autoruns[b];
      }
    }
  }

  lemma ResubscribedSubscribed(w1: World, a: SubId, p: seq<CellId>, r: World)
    requires Inv(w1) && a in w1.autoruns && w1.autoruns[a].held == []
    requires forall c | c in p :: c in w1.cells
    requires r.notifier == w1.notifier && r.autoruns.Keys == w1.autoruns.Keys
    requires r.cells == map c | c in w1.cells :: if c in p then Subscribe(w1.cells[c], a) else w1.cells[c]
    requires r.autoruns[a].held == p
    requires forall b | b in w1.autoruns && b != a :: r.autoruns[b] == w1.autoruns[b]
    ensures forall b, c | b in r.autoruns && c in r.autoruns[b].held :: c in r.cells && b in r.cells[c].subscribers
  {
    forall b, c | b in r.autoruns && c in r.autoruns[b].held
      ensures c in r.cells && b in r.cells[c].subscribers
    {
      if b != a {
        assert c in w1.autoruns[b].held;
        assert b in w1.cells[c].subscribers;
      }
    }
  }

  /** Reference semantics: the autoruns `subs` rerun one after another. */
  function RerunAll(w: World, prog: Program, subs: seq<SubId>): (r: World)
    requires Distinct(subs)
    ensures r.cells.Keys == w.cells.Keys && Values(r) == Values(w)
    ensures r.notifier == w.notifier && r.context == w.context
    ensures r.autoruns.Keys == w.autoruns.Keys
    ensures forall a | a in w.autoruns :: r.autoruns[a] == if a in subs then Ran(w, prog, a) else w.autoruns[a]
    ensures Inv(w) ==> Inv(r)
    decreases subs
  {
    if subs == [] then w
    else
      var w' := Rerun(w, prog, subs[0]);
      var r := RerunAll(w', prog, subs[1..]);
      RanElsewhere(w, prog, subs[0]);
      r
  }

  /** Rerunning one autorun changes no other autorun's next run. */
  lemma RanElsewhere(w: World, prog: Program, s: SubId)
    ensures forall a | a in w.autoruns && a != s :: Ran(Rerun(w, prog, s), prog, a) == Ran(w, prog, a)
  {
    var w' := Rerun(w, prog, s);
    forall a | a in w.autoruns && a != s
      ensures Ran(w', prog, a) == Ran(w, prog, a)
    {
      assert w'.autoruns[a] == w.autoruns[a];
      assert Present(w', TrackedReads(prog(a, Values(w)))) == Present(w, TrackedReads(prog(a, Values(w))));
    }
  }

  /** `autorun(fn)`: a new autorun, run once immediately. */
  function StartAutorun(w: World, prog: Program, a: SubId): (r: World)
    requires a !in w.autoruns
    ensures r.cells.Keys == w.cells.Keys && Values(r) == Values(w)
    ensures r.notifier == w.notifier && r.context == w.context
    ensures r.autoruns == w.autoruns[a := Autorun(Present(w, TrackedReads(prog(a, Values(w)))), 1, Values(w))]
    ensures Inv(w) ==> Inv(r)
  {
    var w0 := w.(autoruns := w.autoruns[a := Autorun([], 0, map[])]);
    Enrolled(w, a);
    Rerun(w0, prog, a)
  }

  /** A new autorun that holds nothing keeps the world reachable. */
  lemma Enrolled(w: World, a: SubId)
    requires a !in w.autoruns
    ensures Inv(w) ==> Inv(w.(autoruns := w.autoruns[a := Autorun([], 0, map[])]))
  {
    var r := w.(autoruns := w.autoruns[a := Autorun([], 0, map[])]);
    if Inv(w) {
      forall c, b | c in r.cells && b in r.cells[c].subscribers
        ensures b in r.autoruns && c in r.autoruns[b].held
      {
        assert b in w.autoruns && b != a;
      }
      assert Linked(r.cells, r.autoruns);
    }
  }

  /** The `dispose` closure `autorun` returns, as written: it releases what the autorun holds
      but leaves the autorun in the notifier's deferred set if it is there. */
  function DisposeAsWritten(w: World, a: SubId): (r: World)
    ensures r.cells.Keys == w.cells.Keys && Values(r) == Values(w)
    ensures r.notifier == w.notifier && r.context == w.context
    ensures r.autoruns == if a in w.autoruns then w.autoruns[a := w.autoruns[a].(held := [])] else w.autoruns
    ensures Inv(w) ==> Inv(r) && forall c | c in r.cells :: a !in r.cells[c].subscribers
  {
    if a in w.autoruns then Release(w, a) else w
  }

  /** `dispose` as intended: it also withdraws the autorun from the deferred set, so a pending
      flush cannot run it again. */
  function DisposeAutorun(w: World, a: SubId): (r: World)
    ensures r.cells.Keys == w.cells.Keys && Values(r) == Values(w)
    ensures r.notifier.paused == w.notifier.paused && a !in r.notifier.deferred
    ensures Elems(r.notifier.deferred) == Elems(w.notifier.deferred) - {a}
    ensures r.context == w.context
    ensures r.autoruns == if a in w.autoruns then w.autoruns[a := w.autoruns[a].(held := [])] else w.autoruns
    ensures Inv(w) ==> Inv(r) && forall c | c in r.cells :: a !in r.cells[c].subscribers
  {
    var d := DisposeAsWritten(w, a);
    var r := d.(notifier := d.notifier.(deferred := Delete(d.notifier.deferred, a)));
    assert Inv(w) ==> Inv(r) by {
      if Inv(w) {
        forall b | b in r.notifier.deferred
          ensures b in r.autoruns
        {
          assert b in Elems(r.notifier.deferred);
          assert b in w.notifier.deferred;
        }
      }
    }
    r
  }

  /** An autorun that is disposed: it holds nothing and no flush is pending for it. */
  ghost predicate Dead(w: World, a: SubId) {
    a in w.autoruns && w.autoruns[a].held == [] && a !in w.notifier.deferred
  }

  // ---------------------------------------------------------------------------------------
  // Writing and notifying

  /** `newObservable(initialValue)`: a fresh cell with no subscribers. */
  function NewCell(w: World, c: CellId, v: Value): (r: World)
    requires c !in w.cells
    ensures r.cells.Keys == w.cells.Keys + {c} && Values(r) == Values(w)[c := v]
    ensures r.cells[c].subscribers == []
    ensures r.notifier == w.notifier && r.context == w.context && r.autoruns == w.autoruns
    ensures Inv(w) ==> Inv(r)
  {
    var r := w.(cells := w.cells[c := Cell(v, [])]);
    ValuesUpdate(w, c, Cell(v, []));
    assert Inv(w) ==> Inv(r) by {
      if Inv(w) {
        Relinked(w, r);
      }
    }
    r
  }

  lemma ValuesUpdate(w: World, c: CellId, cell: Cell)
    ensures Values(w.(cells := w.cells[c := cell])) == Values(w)[c := cell.value]
  {
    var r := w.(cells := w.cells[c := cell]);
    assert Values(r).Keys == (Values(w)[c := cell.value]).Keys;
  }

  /** `notifier.notify(subscriber)` for an autorun: rerun now, or defer while paused. */
  function NotifyOne(w: World, prog: Program, s: SubId): (r: World)
    ensures r.cells.Keys == w.cells.Keys && Values(r) == Values(w)
    ensures r.context == w.context && r.autoruns.Keys == w.autoruns.Keys
  {
    var (n, now) := Notify(w.notifier, s);
    if now then Rerun(w, prog, s) else w.(notifier := n)
  }

  /** The delivery loop of `set`: notifies each member of the snapshot in order. */
  function Deliver(w: World, prog: Program, subs: seq<SubId>): (r: World)
    ensures r.cells.Keys == w.cells.Keys && Values(r) == Values(w)
    ensures r.context == w.context && r.autoruns.Keys == w.autoruns.Keys
    ensures w.notifier.paused ==> r == w.(notifier := Notifier(true, AddAll(w.notifier.deferred, subs)))
    ensures !w.notifier.paused && Distinct(subs) ==> r == RerunAll(w, prog, subs)
    decreases subs
  {
    if subs == [] then w
    else Deliver(NotifyOne(w, prog, subs[0]), prog, subs[1..])
  }

  /** Whether `set(c, v)` gets past its `===` guard. */
  predicate Changes(w: World, c: CellId, v: Value) {
    c in w.cells && w.cells[c].value != v
  }

  /** The store after `set(c, v)`: writes to ids that name no cell do nothing. */
  function Stored(w: World, c: CellId, v: Value): (s: Store)
    ensures s.Keys == w.cells.Keys
  {
    if c in w.cells then Values(w)[c := v] else Values(w)
  }

  /** `set(newValue)`: nothing when the value is `===` the current one; otherwise store it and
      notify a snapshot of the subscriber set. While paused the snapshot is only deferred;
      otherwise every autorun of the snapshot reruns exactly once, on the new store, and no
      other autorun does, whatever the reruns do to the subscriber sets meanwhile. */
  function Set(w: World, prog: Program, c: CellId, v: Value): (r: World)
    ensures !Changes(w, c, v) ==> r == w
    ensures r.cells.Keys == w.cells.Keys && Values(r) == Stored(w, c, v)
    ensures r.context == w.context && r.autoruns.Keys == w.autoruns.Keys
    ensures w.notifier.paused ==>
      && r.autoruns == w.autoruns
      && (forall d | d in w.cells :: r.cells[d].subscribers == w.cells[d].subscribers)
      && r.notifier == Notifier(true, if Changes(w, c, v) then AddAll(w.notifier.deferred, w.cells[c].subscribers) else w.notifier.deferred)
    ensures !w.notifier.paused && Inv(w) && Changes(w, c, v) ==> SetReruns(w, prog, c, v, r)
    ensures Inv(w) ==> Inv(r)
  {
    if !Changes(w, c, v) then w
    else
      SetChanged(w, prog, c, v);
      Deliver(Written(w, c, v), prog, w.cells[c].subscribers)
  }

  /** `set` past its guard: the written world, then the delivery. */
  lemma SetChanged(w: World, prog: Program, c: CellId, v: Value)
    requires Changes(w, c, v)
    ensures var r := Deliver(Written(w, c, v), prog, w.cells[c].subscribers);
      && r.cells.Keys == w.cells.Keys && Values(r) == Stored(w, c, v)
      && r.context == w.context && r.autoruns.Keys == w.autoruns.Keys
      && (w.notifier.paused ==>
        && r.autoruns == w.autoruns
        && (forall d | d in w.cells :: r.cells[d].subscribers == w.cells[d].subscribers)
        && r.notifier == Notifier(true, AddAll(w.notifier.deferred, w.cells[c].subscribers)))
      && (!w.notifier.paused && Inv(w) ==> SetReruns(w, prog, c, v, r))
      && (Inv(w) ==> Inv(r))
  {
    if w.notifier.paused {
      SetPaused(w, prog, c, v);
    } else if Inv(w) {
      DeliverReruns(w, prog, c, v, Deliver(Written(w, c, v), prog, w.cells[c].subscribers));
    }
  }

  /** A paused `set` past its guard only defers the snapshot. */
  lemma SetPaused(w: World, prog: Program, c: CellId, v: Value)
    requires Changes(w, c, v) && w.notifier.paused
    ensures var r := Deliver(Written(w, c, v), prog, w.cells[c].subscribers);
      && r.autoruns == w.autoruns
      && (forall d | d in w.cells :: r.cells[d].subscribers == w.cells[d].subscribers)
      && r.notifier == Notifier(true, AddAll(w.notifier.deferred, w.cells[c].subscribers))
      && (Inv(w) ==> Inv(r))
  {
    var w' := Written(w, c, v);
    if Inv(w) {
      forall a | a in w.cells[c].subscribers
        ensures a in w'.autoruns
      {
        assert a in w.autoruns && c in w.autoruns[a].held;
      }
      DeferKeepsInv(w', w.cells[c].subscribers);
    }
  }

  /** The world with the value stored, before any notification. */
  function Written(w: World, c: CellId, v: Value): (r: World)
    requires c in w.cells
    ensures r.cells.Keys == w.cells.Keys && Values(r) == Stored(w, c, v)
    ensures r.notifier == w.notifier && r.context == w.context && r.autoruns == w.autoruns
    ensures forall d | d in w.cells :: r.cells[d].subscribers == w.cells[d].subscribers
    ensures Inv(w) ==> Inv(r)
  {
    var r := w.(cells := w.cells[c := w.cells[c].(value := v)]);
    assert Values(r) == Stored(w, c, v);
    assert Inv(w) ==> Inv(r) by {
      if Inv(w) {
        SameLinks(w, r);
      }
    }
    r
  }

  /** Changing only cell values keeps the invariant. */
  lemma SameLinks(w: World, r: World)
    requires Inv(w) && r.notifier == w.notifier && r.autoruns == w.autoruns && r.cells.Keys == w.cells.Keys
    requires forall d | d in w.cells :: r.cells[d].subscribers == w.cells[d].subscribers
    ensures Inv(r)
  {
  }

  /** The reruns an unpaused `set` performs: each autorun of the snapshot once, on the new store. */
  ghost predicate SetReruns(w: World, prog: Program, c: CellId, v: Value, r: World)
    requires c in w.cells
  {
    && r.notifier == w.notifier
    && forall a | a in w.autoruns ::
         a in r.autoruns &&
         r.autoruns[a] == if a in w.cells[c].subscribers
                          then Autorun(Present(w, TrackedReads(prog(a, Stored(w, c, v)))), w.autoruns[a].runs + 1, Stored(w, c, v))
                          else w.autoruns[a]
  }

  lemma DeliverReruns(w: World, prog: Program, c: CellId, v: Value, r: World)
    requires Inv(w) && !w.notifier.paused && Changes(w, c, v)
    requires r == Deliver(Written(w, c, v), prog, w.cells[c].subscribers)
    ensures SetReruns(w, prog, c, v, r)
  {
    var w' := Written(w, c, v);
    var subs := w.cells[c].subscribers;
    assert r == RerunAll(w', prog, subs);
    WrittenRan(w, prog, c, v);
  }

  /** After the write, an autorun's next run sees the new store. */
  lemma WrittenRan(w: World, prog: Program, c: CellId, v: Value)
    requires c in w.cells
    ensures forall a | a in w.autoruns ::
      Ran(Written(w, c, v), prog, a) == Autorun(Present(w, TrackedReads(prog(a, Stored(w, c, v)))), w.autoruns[a].runs + 1, Stored(w, c, v))
  {
    var w' := Written(w, c, v);
    forall a | a in w.autoruns
      ensures Ran(w', prog, a) == Autorun(Present(w, TrackedReads(prog(a, Stored(w, c, v)))), w.autoruns[a].runs + 1, Stored(w, c, v))
    {
      assert Present(w', TrackedReads(prog(a, Stored(w, c, v)))) == Present(w, TrackedReads(prog(a, Stored(w, c, v))));
    }
  }

  lemma DeferKeepsInv(w: World, subs: seq<SubId>)
    requires Inv(w) && w.notifier.paused && forall a | a in subs :: a in w.autoruns
    ensures Inv(w.(notifier := Notifier(true, AddAll(w.notifier.deferred, subs))))
  {
    var d := AddAll(w.notifier.deferred, subs);
    var r := w.(notifier := Notifier(true, d));
    assert Valid(r.notifier);
    forall a | a in d
      ensures a in r.autoruns
    {
      assert a in Elems(d);
    }
  }

  // ---------------------------------------------------------------------------------------
  // Pausing and transactions

  /** `notifier.pause()` on the world's notifier. */
  function PauseAll(w: World): (r: World)
    ensures r.notifier.paused && r.notifier.deferred == w.notifier.deferred
    ensures r.cells == w.cells && r.context == w.context && r.autoruns == w.autoruns
    ensures Inv(w) ==> Inv(r)
  {
    w.(notifier := Pause(w.notifier))
  }

  /** Running a deferred autorun during the flush: it only reads, so it notifies nobody. */
  function RerunStep(prog: Program): (World, SubId) -> (World, seq<SubId>) {
    (x: World, s: SubId) => (Rerun(x, prog, s), [])
  }

  /** The generic flush, run with autoruns as subscribers, reruns the queue from position `i`
      on, in order, and adds nothing to it. */
  lemma {:induction false} FlushReruns(w: World, prog: Program, q: seq<SubId>, i: nat, u: set<SubId>)
    requires i <= |q| && Distinct(q) && Elems(q) <= u && Closed(RerunStep(prog), u)
    ensures Flush(w, q, i, RerunStep(prog), u).order == q
    ensures var f := Flush(w, q, i, RerunStep(prog), u); f.worlds[|f.worlds| - 1] == RerunAll(w, prog, q[i..])
    decreases |q| - i
  {
    var f := Flush(w, q, i, RerunStep(prog), u);
    if i < |q| {
      var w' := Rerun(w, prog, q[i]);
      var rest := Flush(w', q, i + 1, RerunStep(prog), u);
      FlushRerunHead(w, prog, q, i, u);
      FlushReruns(w', prog, q, i + 1, u);
      RerunAllFrom(w, prog, q, i);
    }
  }

  lemma FlushRerunHead(w: World, prog: Program, q: seq<SubId>, i: nat, u: set<SubId>)
    requires i < |q| && Distinct(q) && Elems(q) <= u && Closed(RerunStep(prog), u)
    ensures var rest := Flush(Rerun(w, prog, q[i]), q, i + 1, RerunStep(prog), u);
      Flush(w, q, i, RerunStep(prog), u) == Flushed(rest.order, [w] + rest.worlds, [[]] + rest.raised)
  {
    assert RerunStep(prog)(w, q[i]) == (Rerun(w, prog, q[i]), []);
    assert AddAll(q, []) == q;
  }

  lemma RerunAllFrom(w: World, prog: Program, q: seq<SubId>, i: nat)
    requires i < |q| && Distinct(q)
    ensures Distinct(q[i..]) && Distinct(q[i + 1..])
    ensures RerunAll(w, prog, q[i..]) == RerunAll(Rerun(w, prog, q[i]), prog, q[i + 1..])
  {
    assert q[i..][0] == q[i] && q[i..][1..] == q[i + 1..];
  }

  /** `notifier.resume()` on the world: the flush reruns every deferred autorun once, in
      insertion order, and the notifier ends empty and unpaused. */
  function ResumeAll(w: World, prog: Program): (r: World)
    requires Inv(w)
    ensures r == RerunAll(w, prog, w.notifier.deferred).(notifier := Initial())
    ensures Inv(r)
  {
    var u := Elems(w.notifier.deferred);
    assert Closed(RerunStep(prog), u);
    var (n, f) := Resume(w.notifier, w, RerunStep(prog), u);
    FlushReruns(w, prog, w.notifier.deferred, 0, u);
    assert w.notifier.deferred[0..] == w.notifier.deferred;
    var flushed := f.worlds[|f.worlds| - 1];
    assert flushed == RerunAll(w, prog, w.notifier.deferred);
    Unpaused(flushed);
    flushed.(notifier := n)
  }

  lemma Unpaused(w: World)
    requires Inv(w)
    ensures Inv(w.(notifier := Initial()))
  {
  }

  /** A step of a transaction body: a write, disposing an autorun with the `dispose` closure as
      written (`Dispose`) or as intended (`DisposeIntended`), a nested `transaction`, or raising
      an error. */
  datatype Action =
    | Write(cell: CellId, value: Value)
    | Dispose(sub: SubId)
    | DisposeIntended(sub: SubId)
    | Nested(body: seq<Action>)
    | Throw

  /** How a body ends: normally, or with an error that propagates to the caller. */
  datatype Outcome = Normal | Raised

  /** Whether running `acts` raises: a `Throw` is reached, directly or in a nested body. */
  predicate Throws(acts: seq<Action>) {
    acts != [] && (acts[0].Throw? || (acts[0].Nested? && Throws(acts[0].body)) || Throws(acts[1..]))
  }

  /** One step of a body that neither nests nor raises. */
  function Apply(w: World, prog: Program, act: Action): (r: World)
    requires Inv(w) && !act.Nested? && !act.Throw?
    ensures Inv(r) && r.context == w.context && r.cells.Keys == w.cells.Keys && r.autoruns.Keys == w.autoruns.Keys
  {
    if act.Write? then Set(w, prog, act.cell, act.value)
    else if act.Dispose? then DisposeAsWritten(w, act.sub)
    else DisposeAutorun(w, act.sub)
  }

  /** Runs a transaction body up to its end or its first error. */
  function Perform(w: World, prog: Program, acts: seq<Action>): (r: (World, Outcome))
    requires Inv(w)
    ensures Inv(r.0) && r.0.context == w.context && r.0.cells.Keys == w.cells.Keys && r.0.autoruns.Keys == w.autoruns.Keys
    ensures r.1 == Raised <==> Throws(acts)
    decreases acts, 0
  {
    if acts == [] then (w, Normal)
    else if acts[0].Throw? then (w, Raised)
    else if acts[0].Nested? then
      var t := Transaction(w, prog, acts[0].body);
      if t.1 == Raised then t else Perform(t.0, prog, acts[1..])
    else Perform(Apply(w, prog, acts[0]), prog, acts[1..])
  }

  /** `transaction(fn)`: pause, run the body, and resume in a `finally`. Whatever the body does,
      the notifier ends unpaused with nothing deferred, and an error the body raised is
      raised again to the caller. */
  function Transaction(w: World, prog: Program, acts: seq<Action>): (r: (World, Outcome))
    requires Inv(w)
    ensures Inv(r.0) && r.0.context == w.context && r.0.cells.Keys == w.cells.Keys && r.0.autoruns.Keys == w.autoruns.Keys
    ensures r.0.notifier == Initial()
    ensures r.1 == Raised <==> Throws(acts)
    decreases acts, 1
  {
    var (w', o) := Perform(PauseAll(w), prog, acts);
    (ResumeAll(w', prog), o)
  }
}
