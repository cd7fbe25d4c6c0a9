/** The derivation helpers of src/observable_util.js, over the world of `Observable`:
    `memo`, `arrayEqual`, `memoPure`, `newReducerObservable` and `reaction`. */
module ObservableUtil {
  import opened Seqs
  import opened Notifications
  import opened Observable
  import opened ObservableProps

  // ---------------------------------------------------------------------------------------
  // Reading a list of cells

  /** Calls `get()` on each cell in turn, as the loops of `memo` do. */
  function ReadAll(w: World, cs: seq<CellId>): World
    requires forall c | c in cs :: c in w.cells
    decreases cs
  {
    if cs == [] then w else ReadAll(Get(w, cs[0]).1, cs[1..])
  }

  /** Reading cells one `get()` at a time tells the context about the same reads, in the same
      order, as reading them all at once. */
  lemma {:induction false} ReadAllRegisters(w: World, cs: seq<CellId>)
    requires forall c | c in cs :: c in w.cells
    ensures ReadAll(w, cs) == Registered(w, cs)
    decreases cs
  {
    if cs == [] {
      RegisteredNothing(w);
    } else {
      var w1 := Get(w, cs[0]).1;
      ReadAllRegisters(w1, cs[1..]);
      RegisteredConcat(w, [cs[0]], cs[1..]);
      assert [cs[0]] + cs[1..] == cs;
    }
  }

  // ---------------------------------------------------------------------------------------
  // memo

  /** A recorded dependency: a cell and the value it held when the memo last ran `fn`. */
  datatype Dep = Dep(cell: CellId, value: Value)

  /** The closure state of `memo(fn)`: whether it has run, the cached value, the dependencies,
      and how often `fn` has been called. */
  datatype Memo = Memo(initialized: bool, value: Value, deps: seq<Dep>, runs: nat)

  /** A memo's `fn`: given the store, the steps it takes and the value it returns. */
  type MemoBody = Store -> (seq<Access>, Value)

  /** `memo(fn)`: nothing runs until the first `get`. */
  function NewMemo(): (m: Memo)
    ensures !m.initialized && m.runs == 0
  {
    Memo(false, 0, [], 0)
  }

  /** The cells of the dependencies, in order. */
  function Cells(deps: seq<Dep>): (cs: seq<CellId>)
    ensures |cs| == |deps| && forall k | 0 <= k < |deps| :: cs[k] == deps[k].cell
  {
    if deps == [] then [] else [deps[0].cell] + Cells(deps[1..])
  }

  /** Every dependency names an existing cell. */
  predicate Known(w: World, deps: seq<Dep>) {
    forall k | 0 <= k < |deps| :: deps[k].cell in w.cells
  }

  /** Every dependency still holds the value recorded for it. */
  predicate Current(w: World, deps: seq<Dep>)
    requires Known(w, deps)
  {
    forall k | 0 <= k < |deps| :: w.cells[deps[k].cell].value == deps[k].value
  }

  /** The change check of `get`: the first dependency whose cell no longer holds its recorded
      value ends the scan with `true`. */
  function Stale(w: World, deps: seq<Dep>): (b: bool)
    requires Known(w, deps)
    ensures b <==> !Current(w, deps)
  {
    if deps == [] then false
    else if deps[0].value != w.cells[deps[0].cell].value then true
    else
      var b := Stale(w, deps[1..]);
      assert Current(w, deps) <==> Current(w, deps[1..]) by {
        assert forall k | 1 <= k < |deps| :: deps[k] == deps[1..][k - 1];
      }
      b
  }

  /** Pairs each cell with its current value, as `recompute` builds `deps`. */
  function Snapshot(w: World, cs: seq<CellId>): (deps: seq<Dep>)
    requires forall c | c in cs :: c in w.cells
    ensures Cells(deps) == cs && Known(w, deps) && Current(w, deps)
  {
    if cs == [] then []
    else
      var rest := Snapshot(w, cs[1..]);
      var deps := [Dep(cs[0], w.cells[cs[0]].value)] + rest;
      assert deps[1..] == rest;
      assert [cs[0]] + cs[1..] == cs;
      deps
  }

  /** `recompute`: runs `fn` under `track`, which subscribes nothing, then reads each cell it
      reported, with the enclosing context, recording the values. */
  function Recompute(w: World, m: Memo, fn: MemoBody): (r: (Memo, World))
    ensures r.0.initialized && r.0.runs == m.runs + 1 && r.0.value == fn(Values(w)).1
    ensures Cells(r.0.deps) == Present(w, TrackedReads(fn(Values(w)).0))
    ensures Known(w, r.0.deps) && Current(w, r.0.deps)
    ensures r.1 == Registered(w, Cells(r.0.deps))
  {
    var (accs, v) := fn(Values(w));
    var (cs, w1) := Track(w, accs);
    ReadAllRegisters(w1, cs);
    (Memo(true, v, Snapshot(w1, cs), m.runs + 1), ReadAll(w1, cs))
  }

  /** The steps of the untracked change check: one read per dependency. */
  function CheckSteps(deps: seq<Dep>): (accs: seq<Access>)
    ensures TrackedReads(accs) == Cells(deps)
  {
    if deps == [] then [] else [Read(deps[0].cell)] + CheckSteps(deps[1..])
  }

  /** `get()` of a memo. On the first call, or when a dependency changed, `fn` runs exactly once
      and the dependencies become the cells it read, with their current values; otherwise `fn`
      does not run and the cached value is returned. On both paths the enclosing context is
      told about exactly the new dependency cells, in order, and about nothing else. */
  function MemoGet(w: World, m: Memo, fn: MemoBody): (r: (Value, Memo, World))
    requires m.initialized ==> Known(w, m.deps)
    ensures r.1.initialized && Known(w, r.1.deps)
    ensures forall c | c in Cells(r.1.deps) :: c in w.cells
    ensures r.2 == Registered(w, Cells(r.1.deps))
    ensures Known(r.2, r.1.deps) && (Inv(w) ==> Inv(r.2))
    ensures m.initialized && Current(w, m.deps) ==> r.0 == m.value && r.1 == m
    ensures !m.initialized || !Current(w, m.deps) ==>
      && r.1.runs == m.runs + 1
      && r.0 == r.1.value == fn(Values(w)).1
      && Cells(r.1.deps) == Present(w, TrackedReads(fn(Values(w)).0))
      && Current(w, r.1.deps)
  {
    if m.initialized then
      var w1 := RunWithContext(w, NoContext, CheckSteps(m.deps)).0;
      UntrackedChangesNothing(w, CheckSteps(m.deps));
      if Stale(w1, m.deps) then
        var (m', w2) := Recompute(w1, m, fn);
        assert Inv(w) ==> Inv(w2) by { if Inv(w) { RegisteredInv(w, Cells(m'.deps)); } }
        (m'.value, m', w2)
      else
        ReadAllRegisters(w1, Cells(m.deps));
        assert Inv(w) ==> Inv(ReadAll(w1, Cells(m.deps))) by { if Inv(w) { RegisteredInv(w, Cells(m.deps)); } }
        (m.value, m, ReadAll(w1, Cells(m.deps)))
    else
      var (m', w2) := Recompute(w, m, fn);
      assert Inv(w) ==> Inv(w2) by { if Inv(w) { RegisteredInv(w, Cells(m'.deps)); } }
      (m'.value, m', w2)
  }

  /** The dependencies hold in the store `s`. */
  predicate Matches(s: Store, deps: seq<Dep>) {
    forall k | 0 <= k < |deps| :: deps[k].cell in s && s[deps[k].cell] == deps[k].value
  }

  /** The cached value is what `fn` returns on any store where the dependencies hold. */
  ghost predicate Faithful(m: Memo, fn: MemoBody) {
    m.initialized ==> forall s :: Matches(s, m.deps) ==> fn(s).1 == m.value
  }

  /** `s2` agrees with `s1` on the cells of `cs` that exist in `s1`. */
  predicate Agree(s1: Store, s2: Store, cs: seq<CellId>) {
    forall c | c in cs && c in s1 :: c in s2 && s2[c] == s1[c]
  }

  /** `fn` reads every cell its value depends on outside `untracked`: two stores that agree on
      those reads give the same value. */
  ghost predicate Honest(fn: MemoBody) {
    forall s1, s2 :: Agree(s1, s2, TrackedReads(fn(s1).0)) ==> fn(s2).1 == fn(s1).1
  }

  /** A memo over an honest `fn` is transparent: `get` always returns what calling `fn` on the
      current store returns, cached or not. */
  lemma MemoTransparent(w: World, m: Memo, fn: MemoBody)
    requires m.initialized ==> Known(w, m.deps)
    requires Honest(fn) && Faithful(m, fn)
    ensures var r := MemoGet(w, m, fn); r.0 == fn(Values(w)).1 && Faithful(r.1, fn)
  {
    var r := MemoGet(w, m, fn);
    var s0 := Values(w);
    if m.initialized && Current(w, m.deps) {
      assert Matches(s0, m.deps);
    } else {
      var p := Present(w, TrackedReads(fn(s0).0));
      forall s | Matches(s, r.1.deps)
        ensures fn(s).1 == r.1.value
      {
        forall c | c in TrackedReads(fn(s0).0) && c in s0
          ensures c in s && s[c] == s0[c]
        {
          assert c in Elems(p);
          var k := IndexOf(p, c);
          assert Cells(r.1.deps)[k] == c;
        }
        assert Agree(s0, s, TrackedReads(fn(s0).0));
      }
    }
  }

  // ---------------------------------------------------------------------------------------
  // arrayEqual and memoPure

  /** `arrayEqual(xs, ys)`: same length and pointwise `===`. */
  method ArrayEqual(xs: seq<Value>, ys: seq<Value>) returns (r: bool)
    ensures r <==> xs == ys
  {
    if |xs| != |ys| {
      return false;
    }
    var i := 0;
    while i < |xs|
      invariant 0 <= i <= |xs|
      invariant xs[..i] == ys[..i]
    {
      if xs[i] != ys[i] {
        return false;
      }
      i := i + 1;
    }
    assert xs == xs[..i] && ys == ys[..i];
    return true;
  }

  /** The closure state of `memoPure(fn)`. */
  datatype PureMemo = PureMemo(initialized: bool, prevArgs: seq<Value>, prevValue: Value)

  function NewPureMemo(): (m: PureMemo)
    ensures !m.initialized
  {
    PureMemo(false, [], 0)
  }

  /** The cached result is `fn` of the cached arguments. */
  ghost predicate PureFaithful(m: PureMemo, fn: seq<Value> -> Value) {
    m.initialized ==> m.prevValue == fn(m.prevArgs)
  }

  /** One call of the function `memoPure(fn)` returns, as written: the closure never sets
      `initialized`, so the guard passes on every call, `fn` runs every time, and the cached
      arguments and value are written but never consulted. */
  method CallPureAsWritten(m: PureMemo, fn: seq<Value> -> Value, args: seq<Value>) returns (value: Value, m': PureMemo, called: bool)
    ensures called <==> !m.initialized || m.prevArgs != args
    ensures called ==> value == fn(args) && m' == PureMemo(m.initialized, args, value)
    ensures !called ==> value == m.prevValue && m' == m
    ensures m'.initialized == m.initialized
    ensures !m.initialized ==> called && value == fn(args)
  {
    var same := false;
    if m.initialized {
      same := ArrayEqual(m.prevArgs, args);
    }
    if !m.initialized || !same {
      value := fn(args);
      m' := m.(prevArgs := args, prevValue := value);
      called := true;
    } else {
      value := m.prevValue;
      m' := m;
      called := false;
    }
  }

  /** As written, two calls of a fresh `memoPure(fn)` with equal arguments both run `fn`. */
  method CallTwiceAsWritten(fn: seq<Value> -> Value, args: seq<Value>) returns (first: Value, second: Value, calls: nat)
    ensures first == fn(args) && second == fn(args)
    ensures calls == 2
  {
    var m0 := NewPureMemo();
    var m1, m2;
    var c1, c2;
    first, m1, c1 := CallPureAsWritten(m0, fn, args);
    second, m2, c2 := CallPureAsWritten(m1, fn, args);
    calls := (if c1 then 1 else 0) + (if c2 then 1 else 0);
  }

  /** One call as intended: the closure records that it has a cached result, so `fn` runs
      exactly when this is the first call or the arguments differ from the previous ones, and
      the result is always what `fn` gives for these arguments. */
  method CallPureIntended(m: PureMemo, fn: seq<Value> -> Value, args: seq<Value>) returns (value: Value, m': PureMemo, called: bool)
    ensures called <==> !m.initialized || m.prevArgs != args
    ensures called ==> value == fn(args) && m' == PureMemo(true, args, value)
    ensures !called ==> value == m.prevValue && m' == m
    ensures PureFaithful(m, fn) ==> value == fn(args) && PureFaithful(m', fn)
  {
    var same := false;
    if m.initialized {
      same := ArrayEqual(m.prevArgs, args);
    }
    if !m.initialized || !same {
      value := fn(args);
      m' := PureMemo(true, args, value);
      called := true;
    } else {
      value := m.prevValue;
      m' := m;
      called := false;
    }
  }

  /** As intended, the second of two calls with equal arguments is served from the cache, with
      the same result. */
  method CallTwiceIntended(fn: seq<Value> -> Value, args: seq<Value>) returns (first: Value, second: Value, calls: nat)
    ensures first == fn(args) && second == fn(args)
    ensures calls == 1
  {
    var m0 := NewPureMemo();
    var m1, m2;
    var c1, c2;
    first, m1, c1 := CallPureIntended(m0, fn, args);
    second, m2, c2 := CallPureIntended(m1, fn, args);
    calls := (if c1 then 1 else 0) + (if c2 then 1 else 0);
  }

  // ---------------------------------------------------------------------------------------
  // newReducerObservable

  /** `dispatch(action)`: reads the cell with the enclosing context, then sets it to
      `reducer(current, action)`. A result `===` to the current value notifies nobody. */
  function Dispatch<A>(w: World, prog: Program, c: CellId, reducer: (Value, A) -> Value, action: A): (r: World)
    requires c in w.cells
    ensures var v := reducer(w.cells[c].value, action);
      && r.cells.Keys == w.cells.Keys && Values(r) == Values(w)[c := v]
      && (v == w.cells[c].value ==> r == Registered(w, [c]))
      && (Inv(w) ==> Inv(r))
  {
    var (cur, w1) := Get(w, c);
    assert Values(w1) == Values(w) && Inv(w) ==> Inv(w1) by {
      if Inv(w) {
        ReadInv(w, c);
      }
    }
    Set(w1, prog, c, reducer(cur, action))
  }

  // ---------------------------------------------------------------------------------------
  // reaction

  /** The body `reaction(dataFn, effectFn)` gives its autorun: `dataFn` runs tracked, then
      `effectFn` runs on its result inside `untracked`. */
  function ReactionSteps(data: Store -> (seq<Access>, Value), effect: (Value, Store) -> seq<Access>, s: Store): seq<Access> {
    data(s).0 + [Untracked(effect(data(s).1, s))]
  }

  /** Only the data part of a reaction is tracked. */
  lemma ReactionTracksData(data: Store -> (seq<Access>, Value), effect: (Value, Store) -> seq<Access>, s: Store)
    ensures TrackedReads(ReactionSteps(data, effect, s)) == TrackedReads(data(s).0)
  {
    TrackedReadsConcat(data(s).0, [Untracked(effect(data(s).1, s))]);
    assert TrackedReads([Untracked(effect(data(s).1, s))]) == [];
  }

  /** A reaction's autorun is subscribed to exactly the cells `dataFn` read, so a write to a
      cell that only `effectFn` reads does not rerun it. */
  lemma ReactionIgnoresEffectReads(w: World, prog: Program, a: SubId, data: Store -> (seq<Access>, Value), effect: (Value, Store) -> seq<Access>, c: CellId, v: Value)
    requires Inv(w) && a in w.autoruns && !w.notifier.paused
    requires forall s :: prog(a, s) == ReactionSteps(data, effect, s)
    requires c in w.cells && c !in TrackedReads(data(Values(w)).0)
    ensures var r := Rerun(w, prog, a);
      && (forall d | d in w.cells :: a in r.cells[d].subscribers <==> d in TrackedReads(data(Values(w)).0))
      && Set(r, prog, c, v).autoruns[a] == r.autoruns[a]
  {
    ReactionTracksData(data, effect, Values(w));
    LiveSubscriptions(w, prog, a);
    var r := Rerun(w, prog, a);
    if Changes(r, c, v) {
      assert SetReruns(r, prog, c, v, Set(r, prog, c, v));
    }
  }
}
