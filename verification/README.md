# dynamic-dom, modelled in Dafny

dynamic-dom is a small browser library in two layers.

- **Observable** (`src/observable.js`) is a reactive runtime. It has:
  - cells with `get`, `set` and `subscribe`;
  - a global notifier that can be paused and resumed, which is what `transaction` does;
  - a global "context" slot that `get` reports reads to;
  - `track`, `untracked`, and `autorun`. An autorun reruns its body whenever a cell it read changes.
- **ObservableUtil** (`src/observable_util.js`) builds helpers on top: `memo`, `arrayEqual`, `memoPure`, `newReducerObservable` and `reaction`.
- **DynamicDom** (`src/dynamic_dom.js`) keeps part of a DOM parent's child list in step with an observable value:
  - `dynList` is a keyed reconciler. It deletes, moves or creates one child per item, after a comment placeholder.
  - `dynIf` shows or removes one child before its placeholder, depending on a boolean.

The model has seven modules.

- `Seqs` holds insertion-ordered sets as duplicate-free sequences: `Set.prototype.add` is `Insert` and `delete` is `Delete`. It also has the filters the proofs use.
- `Notifications` models the notifier. It is generic in the subscriber type. Its flush (`Flush`) lets a running subscriber notify others, which are appended to the set being iterated.
- `Observable` models the runtime as one immutable `World`. A world holds:
  - the cells;
  - the notifier;
  - the context slot;
  - one record per autorun: the cells whose unsubscribe closures it holds, how often it ran, and the store it last saw.

  A computation body is a `Program`: a pure function from the autorun id and the current values to the reads it makes, some of them wrapped in `untracked`. `Inv` says the world is reachable: subscriber sets have no duplicates, and an autorun is subscribed to a cell exactly when it holds that cell's unsubscribe closure.
- `ObservableProps` holds the properties the runtime promises:
  - subscriptions follow the last run;
  - `dispose` is idempotent and unsubscribes the autorun everywhere;
  - a disposed autorun is never rerun, provided no flush is pending for it;
  - a transaction batches its writes;
  - nested transactions are not counted;
  - the dispose-in-transaction discrepancy described under Findings.

  A transaction body is a sequence of `Action`s. `Dispose` is the `dispose` closure as written and `DisposeIntended` is the corrected one, so both can be stated over the same `Transaction`.
- `ObservableUtil` models `memo` as an explicit closure state (`Memo`). Its `get` is `MemoGet`. The module also has `arrayEqual`, one call of `memoPure` as written and as intended (see Findings), `dispatch`, and the body that `reaction` gives its autorun.
- `Dom` models a parent's child list as a sequence of node ids, with `after`, `insertBefore`, `appendChild` and `removeChild`.
- `DynamicDom` models the two subscribers of `dynList` as imperative methods with loop invariants: the first run, the delete pass, `prevISkipDeleted`, and the create-or-move pass. `dynIf` is a function. `create(item)` becomes a counter of fresh node ids plus a function `make` that gives the item's disposers. The disposers that run are returned as a sequence in run order; `runAll` is modelled this way.

The code stores subscribers in a `Set`, so subscribing the same function a second time is absorbed: `Observable.Subscribe` uses `Insert`, and `Notifications.NotifyPausedOnce` and `Observable.SubscribeTwice` state the absorption.

## Model

| member | source | states |
|---|---|---|
| Seqs.Insert | src/observable.js:19 | Adding to a `Set` keeps old members in order, adds the element at most once at the end, and never creates a duplicate |
| Seqs.Delete | src/observable.js:58 | Deleting from a `Set` removes exactly that element, keeps every other one, and never creates a duplicate |
| Seqs.DeleteIsKeep | src/observable.js:58 | Deleting from a `Set` is filtering that element out: every other element stays, in its order |
| Seqs.AddAll | src/observable.js:51-53 | Adding several subscribers in turn extends the set: the old order is a prefix, the members are the union, and there are no duplicates |
| Notifications.Notify | src/observable.js:17-23 | The subscriber runs now exactly when the notifier is not paused; while paused it is deferred, and a subscriber already deferred changes nothing |
| Notifications.Pause | src/observable.js:24-26 | Pausing keeps the deferred set and sets the flag |
| Notifications.NotifyPausedOnce | src/observable.js:17-23 | Notifying the same subscriber twice while paused has the effect of notifying it once |
| Notifications.Flush | src/observable.js:28-30 | The flush visits the deferred set plus everything notified during the flush. The run order has no duplicates, starts with the original queue, and each step is one run of the subscriber at that position |
| Notifications.Resume | src/observable.js:27-33 | After `resume` the notifier is unpaused and empty. The flush ran each deferred or newly notified subscriber exactly once and nothing else: the originally deferred ones first, in insertion order, then the others in the order they were first notified, each step one run on the world the previous step left |
| Notifications.ResumeWithoutReentry | src/observable.js:27-33 | When no subscriber notifies another, resume runs exactly the deferred subscribers in insertion order |
| Observable.Subscribe | src/observable.js:55-56 | Subscribing adds the subscriber to the set once and leaves the value alone |
| Observable.Unsubscribe | src/observable.js:57-59 | The returned closure removes that subscriber and nothing else |
| Observable.SubscribeTwice | src/observable.js:55-56 | A second subscription of the same subscriber is absorbed |
| Observable.Register | src/observable.js:43-45 | Telling the current context about a read of one cell, as `globalContext(self)` does, is the same as the reference semantics of reading that one cell |
| Observable.Get | src/observable.js:42-47 | `get` returns the cell's value and tells the current context about one read of that cell |
| Observable.Registered | src/observable.js:42-47 | Reads told to a context change no value, no notifier state and no set of autoruns. No context ignores them; `track`'s recorder logs them; an autorun's context subscribes it |
| Observable.RegisteredInv | src/observable.js:107-109 | Subscribing an autorun on each read keeps subscriber sets and held closures in agreement |
| Observable.RegisteredConcat | src/observable.js:42-47 | Reading `xs` then `ys` tells the context the same as reading `xs + ys`; subscribing twice to one cell is absorbed |
| Observable.Exec | src/observable.js:81 | Running a body changes no value, no notifier state and no set of cells or autoruns |
| Observable.RunWithContext | src/observable.js:76-86 | The previous context is restored whatever the body did, and the body changes no value, no notifier state and no set of cells or autoruns |
| Observable.UntrackedChangesNothing | src/observable.js:117-119 | Under `untracked`, reads register nowhere and the world is left exactly as it was, whatever the enclosing context |
| Observable.ExecEffect | src/observable.js:76-86 | Running a body is the same as reading, in order, the existing cells it reads outside `untracked`, each read told to the installed context |
| Observable.Track | src/observable.js:88-94 | `track` returns the cells read outside `untracked`, in read order with repetitions, and subscribes nothing |
| Observable.Release | src/observable.js:99-102 | `dispose` removes the autorun from every cell it held and empties its held list; no values or other autoruns change |
| Observable.Rerun | src/observable.js:104-110 | A rerun first disposes, then records exactly the existing cells the body now reads as held, counts one more run, and keeps the world reachable |
| Observable.RerunAll | src/observable.js:51-53 | Rerunning distinct autoruns one after another: each listed autorun ran once on the current store and the others are untouched |
| Observable.StartAutorun | src/observable.js:96-115 | `autorun` runs the body once at once and holds exactly the cells it read |
| Observable.DisposeAsWritten | src/observable.js:99-102 | The `dispose` closure as written releases the autorun's cells but leaves the notifier untouched, including a pending deferral |
| Observable.DisposeAutorun | src/observable.js:99-102 | The corrected `dispose` also withdraws the autorun from the deferred set; afterwards it is in no subscriber set and no flush is pending for it |
| Observable.NewCell | src/observable.js:37-40 | A new cell holds the initial value and has no subscribers; nothing else changes |
| Observable.NotifyOne | src/observable.js:17-23 | Notifying an autorun changes no value and no set of autoruns |
| Observable.Deliver | src/observable.js:51-53 | While paused, delivery only adds the snapshot to the deferred set. Otherwise each subscriber in the snapshot reruns once, in order |
| Observable.Set | src/observable.js:48-54 | A value `===` to the current one changes nothing. Otherwise the value is stored, and each autorun subscribed before the write either reruns on the new store or is deferred while paused |
| Observable.PauseAll | src/observable.js:68 | Pausing keeps the deferred set, the cells and the autoruns |
| Observable.FlushReruns | src/observable.js:28-30 | With autoruns as subscribers the flush adds nothing to its queue and reruns each deferred autorun once, in order |
| Observable.ResumeAll | src/observable.js:27-33 | `resume` reruns every deferred autorun once, in insertion order, and leaves the notifier unpaused and empty |
| Observable.Apply | src/observable.js:70 | One write or `dispose` step of a body keeps the world reachable and the context, and adds or removes no cell and no autorun |
| Observable.Perform | src/observable.js:70 | A transaction body keeps the world reachable; it raises exactly when it reaches a `throw`, directly or in a nested transaction |
| Observable.Transaction | src/observable.js:67-74 | Whatever the body does, the notifier ends unpaused and empty, the world stays reachable, and an error from the body reaches the caller |
| ObservableProps.UnsubscribeUndoesSubscribe | src/observable.js:55-60 | Unsubscribing undoes the subscription it came from |
| ObservableProps.LiveSubscriptions | src/observable.js:104-110 | After a rerun, an autorun is subscribed to exactly the existing cells its body read outside `untracked` on that run; older subscriptions are gone |
| ObservableProps.StartSubscriptions | src/observable.js:96-112 | After `autorun`, the body has run once and the autorun is subscribed to exactly the cells it read |
| ObservableProps.DisposeTwice | src/observable.js:99-102 | Calling `dispose` as written twice is the same as calling it once |
| ObservableProps.DisposeKills | src/observable.js:99-102 | After `dispose` as written the autorun holds nothing; it is dead, with no pending flush, exactly when it was not already deferred |
| ObservableProps.DisposeIntendedTwice | src/observable.js:99-102 | Calling the corrected `dispose` twice is the same as calling it once |
| ObservableProps.DisposeIntendedKills | src/observable.js:99-102 | After the corrected `dispose` the autorun holds nothing and has no pending flush |
| ObservableProps.DeadUnsubscribed | src/observable.js:99-102 | A disposed autorun is in no cell's subscriber set |
| ObservableProps.SetSparesDead | src/observable.js:48-54 | A write never reruns a disposed autorun |
| ObservableProps.ApplySparesDead | src/observable.js:70 | A write, or either `dispose` of any autorun, leaves a dead autorun dead and untouched |
| ObservableProps.PerformSparesDead | src/observable.js:70 | A transaction body, whichever `dispose` it calls, never reruns a dead autorun |
| ObservableProps.TransactionSparesDead | src/observable.js:67-74 | A whole transaction, flush included and whichever `dispose` its body calls, never reruns a dead autorun |
| ObservableProps.DisposedInTransactionRunsAgain | src/observable.js:99-102 | As written: in the transaction `c.set(v); dispose()`, the autorun the write deferred runs again at `resume` on the new values and subscribes again to what it reads |
| ObservableProps.DisposedInTransactionStaysDead | src/observable.js:67-74 | With the corrected `dispose`, the same transaction neither runs nor resubscribes the autorun |
| ObservableProps.ResumeSparesDead | src/observable.js:27-33 | The end-of-transaction flush never reruns a disposed autorun |
| ObservableProps.PausedWrite | src/observable.js:48-54 | A write while paused changes only the stored value and the deferred set; it defers exactly the subscribers of the cell, if the value changed |
| ObservableProps.PerformFlat | src/observable.js:70 | A body of writes cannot raise, and performing it is doing its writes in order |
| ObservableProps.PausedWrites | src/observable.js:48-54 | While paused, a body of writes stores the final values and leaves subscriptions and autoruns untouched |
| ObservableProps.PausedDefers | src/observable.js:17-23 | While paused, a body of writes defers exactly the autoruns subscribed to a cell some write changed |
| ObservableProps.PerformRaises | src/observable.js:70 | A body that raises after some writes has done those writes and skips the rest |
| ObservableProps.TransactionRaises | src/observable.js:67-74 | A transaction whose body raises after some writes delivers them exactly as the transaction of those writes alone, flush included, and passes the error on |
| ObservableProps.TransactionBatches | src/observable.js:67-74 | A transaction of writes reruns every autorun subscribed to a changed cell exactly once, after the body, on the final values. No other autorun runs |
| ObservableProps.NestedResumesEarly | src/observable.js:67-74 | Nested transactions are not counted: the inner `resume` unpauses, so a later write in the outer body is delivered at once |
| ObservableUtil.ReadAllRegisters | src/observable_util.js:61-63 | Calling `get` on each dependency in turn tells the context about exactly those reads, in order |
| ObservableUtil.NewMemo | src/observable_util.js:25-28 | A new memo has not run `fn` |
| ObservableUtil.Stale | src/observable_util.js:50-55 | The change check answers `true` exactly when some dependency no longer holds its recorded value |
| ObservableUtil.Recompute | src/observable_util.js:31-45 | `recompute` calls `fn` once on the current values and caches its value; the dependencies are the existing cells `fn` read outside `untracked`, in order, each with its current value; the enclosing context is told about exactly those reads |
| ObservableUtil.Snapshot | src/observable_util.js:38-44 | `recompute` records each reported cell with its current value, in order |
| ObservableUtil.CheckSteps | src/observable_util.js:51-53 | The change check reads each dependency cell once, in order |
| ObservableUtil.MemoGet | src/observable_util.js:47-71 | `fn` runs exactly on the first `get` or when a dependency changed, and then the dependencies become the cells it read. Otherwise the cached value is returned. Either way the enclosing context learns exactly the dependency cells, in order |
| ObservableUtil.MemoTransparent | src/observable_util.js:25-73 | If `fn`'s value depends only on what it reads outside `untracked`, a memo's `get` always equals calling `fn` on the current store |
| ObservableUtil.ArrayEqual | src/observable_util.js:75-81 | `arrayEqual` is true exactly when both arrays have the same length and the same elements |
| ObservableUtil.NewPureMemo | src/observable_util.js:84-86 | A new `memoPure` closure has no cached call |
| ObservableUtil.CallPureAsWritten | src/observable_util.js:83-94 | As written, `initialized` is never set, so every call runs `fn` and returns its result; the cached arguments and value are written but never consulted |
| ObservableUtil.CallTwiceAsWritten | src/observable_util.js:83-94 | As written, two calls of a fresh `memoPure(fn)` with equal arguments run `fn` twice |
| ObservableUtil.CallPureIntended | src/observable_util.js:83-94 | As intended, `fn` runs exactly on the first call or when the arguments differ from the previous ones, and the result is always `fn` of these arguments |
| ObservableUtil.CallTwiceIntended | src/observable_util.js:83-94 | As intended, the second of two calls with equal arguments is served from the cache with the same result |
| ObservableUtil.Dispatch | src/observable_util.js:19-21 | `dispatch` stores `reducer(current, action)`. A result equal to the current value only registers the read |
| ObservableUtil.ReactionTracksData | src/observable_util.js:4-9 | A reaction's body tracks the reads of `dataFn` and none of `effectFn` |
| ObservableUtil.ReactionIgnoresEffectReads | src/observable_util.js:4-9 | A reaction subscribes exactly to the cells `dataFn` read, so a write to a cell only `effectFn` reads does not rerun it |
| Dom.After | src/dynamic_dom.js:82 | `ref.after(n)` takes `n` out of its old place, if any, and puts it right after `ref`; the other children keep their order, and no child is duplicated |
| Dom.InsertBefore | src/dynamic_dom.js:39 | `insertBefore(n, ref)` takes `n` out of its old place, if any, and puts it right before `ref`; the other children keep their order, and no child is duplicated |
| Dom.AppendChild | src/dynamic_dom.js:73 | `appendChild` makes `n` the last child |
| Dom.RemoveChild | src/dynamic_dom.js:96 | `removeChild` removes exactly that node |
| Dom.AfterFront | src/dynamic_dom.js:117 | Inserting after the last node of a prefix puts the node exactly there, wherever it was |
| Dom.RemoveAt | src/dynamic_dom.js:96 | Removing a node that occurs once leaves the rest in order |
| Dom.NodesDelete | src/dynamic_dom.js:96-97 | When no two items share a node, removing an item's node from the node list removes the item |
| DynamicDom.SkipDeleted | src/dynamic_dom.js:104-108 | The cursor moves past exactly the deleted items and stops at the first surviving one or at the end |
| DynamicDom.RemoveItem | src/dynamic_dom.js:96-97 | Removing an item's node and its map entry leaves the list showing the other items in order |
| DynamicDom.DeletePass | src/dynamic_dom.js:91-100 | The delete pass removes exactly the previous items missing from `items`: their nodes, map entries and disposers. Their disposers run in the previous order, and the survivors keep their nodes in order |
| DynamicDom.PlaceItem | src/dynamic_dom.js:112-129 | One step of the create-or-move loop keeps the placement invariant one item further: the items handled so far sit in order right after the placeholder, followed by the survivors not met yet in their old order; survivors keep their node and disposers; a new item gets the next fresh node and `make`'s disposers; the cursor into the previous items stays on a surviving item; `lastAddedNode` ends as the item's node |
| DynamicDom.PlaceAll | src/dynamic_dom.js:111-130 | The create-or-move loop ends with the placement invariant for all items, and the node and disposer maps hold exactly the items |
| DynamicDom.CreateAll | src/dynamic_dom.js:78-84 | The first-run loop ends with the placement invariant for all items, every one of them new, and the node and disposer maps hold exactly the items |
| DynamicDom.CreateOrMove | src/dynamic_dom.js:102-130 | After the create-or-move pass the nodes after the placeholder are exactly the items' nodes, in order. Survivors keep their node and disposers. New items get fresh nodes, one per new item, with `make`'s disposers |
| DynamicDom.FirstRun | src/dynamic_dom.js:76-87 | The first run gives every item a fresh node, placed in order right after the placeholder |
| DynamicDom.MountList | src/dynamic_dom.js:72-73 | Mounting appends a fresh placeholder and shows no items |
| DynamicDom.DeliverList | src/dynamic_dom.js:75-133 | After a delivery the list shows exactly `items`, in order. Survivors keep their node and disposers, new items get fresh nodes, and the dropped items' disposers ran in the previous order. Delivering the shown list again changes nothing |
| DynamicDom.MountIf | src/dynamic_dom.js:32-33 | Mounting `dynIf` appends a fresh placeholder and shows no child |
| DynamicDom.DeliverIf | src/dynamic_dom.js:35-51 | A delivery records the value, and disposers run only when `false` removes an existing child |
| DynamicDom.BeforePlaceholder | src/dynamic_dom.js:39 | A fresh child lands right before the placeholder |
| DynamicDom.DeliverIfLaid | src/dynamic_dom.js:35-51 | The child is shown exactly when the value is `true`, right before the placeholder. It is created only when the value turns `true`, kept while it stays `true`, and turning `false` runs exactly its disposers |
| DynamicDom.IfOnOff | src/dynamic_dom.js:37-48 | Switching on and then off restores the parent and runs exactly the disposers the child was created with |
| DynamicDom.IfRepeat | src/dynamic_dom.js:36 | Delivering the same value twice is the same as delivering it once |

## Left out

- `h`, `createElement`, `dyn`, the adapters (`src/dynamic_dom_mobx.js`, `src/dynamic_dom_observable.js`), `toJSON` and the example applications are outside the reactive core and the reconcilers.
- `memoExplicit` (a `memoPure` of `fn` called with the `get` of each listed cell) and `action` (`untracked` around `transaction`) are compositions of modelled parts and are not modelled separately. As written, `memoExplicit` inherits the missing caching of `memoPure` described under Findings.
- The real DOM is a sequence of node ids. Node creation, text and attributes are not modelled.
- The disposers that `append` returns are not modelled, including the whole-list teardown (`childDisposes.values().flat()`) and `dynIf`'s teardown closure, and neither is the unsubscribe `append` gets from `subscribe`. The disposers run by a delivery are modelled.
- The subscription that `dynList` and `dynIf` make on their input is not modelled: deliveries are calls of `DeliverList` and `DeliverIf`.
- Computation bodies never write cells, dispose autoruns or throw; only transaction bodies do. So `resume` without a `finally` around the flush never meets a throwing subscriber. A subscriber that throws during the flush would leave the notifier paused; this is not modelled.
- Cell values are integers compared with `==`. `NaN` and `-0`, where `===` differs from equality of values, are not modelled.
- DynamicDom.DeliverIf: takes a `bool`. JavaScript truthiness of other values and the `null` starting value are modelled only as `None`.
- DynamicDom.SkipDeleted: an item equal to `undefined`, which the lookup past the end of `prevItems` would find in `deletedItems`, is not modelled.
- DynamicDom.DeliverList: requires `items` to have no duplicates. The reconciler keys its maps by item, so duplicates are outside what it supports.
- Observable.RunWithContext: a body that throws is not modelled. The source restores the previous context in a `finally` and rethrows; computation bodies here never throw.
- Observable.NewCell: requires a fresh id; in the source every `newObservable` is a new object.
- `create(item)` is a fresh node id from a counter, plus `make(item)` for the disposers. The element's own contents are not modelled.
- Reads of cell ids that name no cell are ignored, since a JavaScript program cannot hold a reference to a cell that does not exist.
- The memo state is threaded explicitly and is not part of the world, so autorun bodies do not call a memo's `get`. `MemoGet` is proved under any enclosing context instead.

## Findings

| source | as written | input that shows it | evidently intended | confidence | as-written member | corrected member |
|---|---|---|---|---|---|---|
| src/observable.js:99-102 | `dispose` runs the unsubscribe closures but does not withdraw `wrappedFn` from the notifier's deferred set | inside `transaction`: `c.set(v)` defers autorun `a`, which is subscribed to `c`; then `a`'s `dispose()` runs. At `resume` the flush still calls `wrappedFn`, which runs the body again and subscribes `a` anew | a disposed autorun never runs again | not executed | ObservableProps.DisposedInTransactionRunsAgain | ObservableProps.DisposedInTransactionStaysDead |
| src/observable_util.js:84-92 | `initialized` starts `false` and is never set to `true`, so the guard's first disjunct `!initialized` always holds and `fn` runs on every call | `const f = memoPure(fn); f(1); f(1);` calls `fn` twice | `fn` runs again only when the arguments differ from the previous call's | not executed | ObservableUtil.CallTwiceAsWritten | ObservableUtil.CallTwiceIntended |
