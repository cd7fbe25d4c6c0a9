/** The keyed list reconciler `dynList` and the boolean toggle `dynIf` of src/dynamic_dom.js,
    over a parent's child list (`Dom`). `create(item)` is a parameter: its node comes from a
    counter of fresh ids and its disposers from the function `make`. */
module DynamicDom {
  import opened Seqs
  import opened Dom

  type Disposer = nat

  datatype Option<T> = None | Some(value: T)

  /** The node the reconciler last placed: the placeholder, or the node of the last item of
      the placed region. */
  function Last<T>(ph: NodeId, m: map<T, NodeId>, a: seq<T>): NodeId
    requires a != [] ==> a[|a| - 1] in m
  {
    if a == [] then ph else m[a[|a| - 1]]
  }

  /** The region `pre + [ph] + Nodes(m, a)` ends with `Last(ph, m, a)`. */
  lemma LastOfFront<T>(pre: seq<NodeId>, ph: NodeId, m: map<T, NodeId>, a: seq<T>)
    requires forall y | y in a :: y in m
    ensures var front := pre + [ph] + Nodes(m, a);
      front != [] && front[|front| - 1] == Last(ph, m, a)
  {
    if a != [] {
      assert a[|a| - 1] in a;
    }
  }

  /** Deleting an item's node from the front region. */
  lemma DeleteFront<T>(pre: seq<NodeId>, ph: NodeId, m: map<T, NodeId>, a: seq<T>, x: T)
    requires forall y | y in a :: y in m
    requires x in m && Injective(m) && m[x] !in pre + [ph]
    ensures Delete(pre + [ph] + Nodes(m, a), m[x]) == pre + [ph] + Nodes(m, Delete(a, x))
  {
    DeleteConcat(pre + [ph], Nodes(m, a), m[x]);
    DeleteAbsent(pre + [ph], m[x]);
    NodesDelete(m, a, x);
  }

  /** Deleting an item's node from the back region. */
  lemma DeleteBack<T>(m: map<T, NodeId>, b: seq<T>, post: seq<NodeId>, x: T)
    requires forall y | y in b :: y in m
    requires x in m && Injective(m) && m[x] !in post
    ensures Delete(Nodes(m, b) + post, m[x]) == Nodes(m, Delete(b, x)) + post
  {
    DeleteConcat(Nodes(m, b), post, m[x]);
    DeleteAbsent(post, m[x]);
    NodesDelete(m, b, x);
  }

  /** The list's children split at the end of the region `a`. */
  lemma SplitRegion<T>(pre: seq<NodeId>, ph: NodeId, m: map<T, NodeId>, a: seq<T>, b: seq<T>, post: seq<NodeId>)
    requires forall y | y in a + b :: y in m
    ensures (forall y | y in a :: y in m) && (forall y | y in b :: y in m)
    ensures pre + [ph] + Nodes(m, a + b) + post == (pre + [ph] + Nodes(m, a)) + (Nodes(m, b) + post)
  {
    assert forall y | y in a :: y in a + b;
    assert forall y | y in b :: y in a + b;
    NodesConcat(m, a, b);
  }

  /** The list's children with the node of `x` between the regions `a` and `b`. */
  lemma JoinRegion<T>(pre: seq<NodeId>, ph: NodeId, m: map<T, NodeId>, a: seq<T>, b: seq<T>, post: seq<NodeId>, x: T)
    requires forall y | y in a + [x] + b :: y in m
    ensures (forall y | y in a :: y in m) && (forall y | y in b :: y in m)
    ensures (pre + [ph] + Nodes(m, a)) + [m[x]] + (Nodes(m, b) + post) == pre + [ph] + Nodes(m, a + [x] + b) + post
  {
    assert forall y | y in a :: y in a + [x] + b;
    assert forall y | y in a + [x] :: y in a + [x] + b;
    assert forall y | y in b :: y in a + [x] + b;
    NodesConcat(m, a + [x], b);
    NodesConcat(m, a, [x]);
  }

  /** Where the node of an item `x` of the region `a + b` is not. */
  lemma MoveFacts<T>(pre: seq<NodeId>, ph: NodeId, m: map<T, NodeId>, a: seq<T>, b: seq<T>, post: seq<NodeId>, x: T)
    requires (forall y | y in a :: y in m) && (forall y | y in b :: y in m)
    requires Injective(m) && x in a + b && (a != [] ==> a[|a| - 1] != x)
    requires Distinct((pre + [ph] + Nodes(m, a)) + (Nodes(m, b) + post))
    ensures m[x] !in pre + [ph] && m[x] !in post
    ensures Last(ph, m, a) in pre + [ph] + Nodes(m, a) && Last(ph, m, a) != m[x]
  {
    var front, back := pre + [ph] + Nodes(m, a), Nodes(m, b) + post;
    var n := m[x];
    DistinctConcat(front, back);
    DistinctConcat(pre + [ph], Nodes(m, a));
    DistinctConcat(Nodes(m, b), post);
    if x in a {
      var i :| 0 <= i < |a| && a[i] == x;
      assert Nodes(m, a)[i] == n;
      assert n in front;
    } else {
      assert x in b;
      var i :| 0 <= i < |b| && b[i] == x;
      assert Nodes(m, b)[i] == n;
      assert n in back;
    }
    LastOfFront(pre, ph, m, a);
    if a != [] {
      assert a[|a| - 1] in a;
      assert Last(ph, m, a) == Nodes(m, a)[|a| - 1];
    }
  }

  /** Moving the node of an item `x` of the region `a + b` right after the region `a`. */
  lemma MoveNode<T>(pre: seq<NodeId>, ph: NodeId, m: map<T, NodeId>, a: seq<T>, b: seq<T>, post: seq<NodeId>, x: T)
    requires forall y | y in a + b :: y in m
    requires Injective(m) && x in a + b && (a != [] ==> a[|a| - 1] != x)
    requires Distinct(pre + [ph] + Nodes(m, a + b) + post)
    ensures forall y | y in Delete(a, x) + [x] + Delete(b, x) :: y in m
    ensures var s := pre + [ph] + Nodes(m, a + b) + post;
      && Last(ph, m, a) in s && Last(ph, m, a) != m[x]
      && After(s, Last(ph, m, a), m[x]) == pre + [ph] + Nodes(m, Delete(a, x) + [x] + Delete(b, x)) + post
  {
    SplitRegion(pre, ph, m, a, b, post);
    var front, back := pre + [ph] + Nodes(m, a), Nodes(m, b) + post;
    var n := m[x];
    MoveFacts(pre, ph, m, a, b, post, x);
    var a', b' := Delete(a, x), Delete(b, x);
    assert forall y | y in a' + [x] + b' :: y in m by {
      assert forall y | y in a' + [x] + b' :: y in a' || y == x || y in b';
    }
    var front', back' := pre + [ph] + Nodes(m, a'), Nodes(m, b') + post;
    assert After(front + back, Last(ph, m, a), n) == front' + [n] + back' by {
      LastOfFront(pre, ph, m, a);
      AfterFront(front, back, n);
      DeleteFront(pre, ph, m, a, x);
      DeleteBack(m, b, post, x);
    }
    JoinRegion(pre, ph, m, a', b', post, x);
  }

  /** Placing a fresh node for a new item `x` right after the region `a`. */
  lemma FreshNode<T>(pre: seq<NodeId>, ph: NodeId, m: map<T, NodeId>, a: seq<T>, b: seq<T>, post: seq<NodeId>, x: T, n: NodeId)
    requires forall y | y in a + b :: y in m
    requires x !in a + b
    requires Distinct(pre + [ph] + Nodes(m, a + b) + post)
    requires n !in pre + [ph] + Nodes(m, a + b) + post
    ensures var s := pre + [ph] + Nodes(m, a + b) + post;
      var m' := m[x := n];
      && Last(ph, m, a) in s && Last(ph, m, a) != n
      && After(s, Last(ph, m, a), n) == pre + [ph] + Nodes(m', a + [x] + b) + post
  {
    SplitRegion(pre, ph, m, a, b, post);
    var front, back := pre + [ph] + Nodes(m, a), Nodes(m, b) + post;
    LastOfFront(pre, ph, m, a);
    assert n !in front && n !in back;
    assert After(front + back, Last(ph, m, a), n) == front + [n] + back by {
      AfterFront(front, back, n);
      DeleteAbsent(front, n);
      DeleteAbsent(back, n);
    }
    var m' := m[x := n];
    assert forall y | y in a + [x] + b :: y in m' by {
      assert forall y | y in a + [x] + b :: y in a + b || y == x;
    }
    assert front == pre + [ph] + Nodes(m', a) by {
      NodesSame(m, m', a);
    }
    assert back == Nodes(m', b) + post by {
      NodesSame(m, m', b);
    }
    JoinRegion(pre, ph, m', a, b, post, x);
  }

  // ---------------------------------------------------------------------------------------
  // The create-or-move pass of `dynList`

  /** What the create-or-move pass works against: the items delivered before (`prev`) and now
      (`items`), the fixed parts of the parent around the list, and the survivors' node and
      disposers when the pass starts. */
  datatype Frame<!T> = Frame(prev: seq<T>, items: seq<T>, pre: seq<NodeId>, ph: NodeId, post: seq<NodeId>,
                            nodes0: map<T, NodeId>, disposers0: map<T, seq<Disposer>>, next0: NodeId,
                            make: T -> seq<Disposer>)

  /** The items delivered both times. */
  function Surv<T>(f: Frame<T>): set<T> {
    Elems(f.prev) * Elems(f.items)
  }

  /** The items delivered now and not before. */
  function New<T>(f: Frame<T>): set<T> {
    Elems(f.items) - Elems(f.prev)
  }

  ghost predicate Framed<T>(f: Frame<T>) {
    && Distinct(f.prev) && Distinct(f.items)
    && (forall y | y in Surv(f) :: y in f.nodes0 && y in f.disposers0)
  }

  /** The order of the list while the pass has handled `items[..j]`: the placed region `a`
      holds `items[..j]` in order (and possibly survivors met early), followed by the region
      `b` of survivors not met yet, in their old order; `prevI` is the cursor into `prev`. */
  ghost predicate Order<T>(f: Frame<T>, deleted: set<T>, j: nat, prevI: nat, a: seq<T>, b: seq<T>, eb: set<T>) {
    && deleted == Elems(f.prev) - Elems(f.items)
    && j <= |f.items| && prevI <= |f.prev|
    && (prevI < |f.prev| ==> f.prev[prevI] !in deleted)
    && |Keep(f.prev[..prevI], Surv(f))| == |Keep(f.items[..j], Surv(f))|
    && Distinct(a + b)
    && Elems(a + b) == Elems(f.items[..j]) + Surv(f)
    && Keep(a, Elems(f.items[..j])) == f.items[..j]
    && (forall y | y in b :: y !in f.items[..j])
    && (forall y | y in a :: y in f.items[..j] || y in f.prev[..prevI])
    && b == Keep(f.prev, eb) && eb <= Surv(f)
    && (j == 0 <==> a == [])
    && (j > 0 ==> a[|a| - 1] == f.items[j - 1])
  }

  /** The parent's children are the regions' nodes, and `last` is the last placed node. */
  ghost predicate Layout<T>(f: Frame<T>, parent: seq<NodeId>, nodes: map<T, NodeId>, next: NodeId, last: NodeId, a: seq<T>, b: seq<T>) {
    && (forall y | y in a + b :: y in nodes)
    && nodes.Keys == Elems(a + b)
    && Injective(nodes)
    && parent == f.pre + [f.ph] + Nodes(nodes, a + b) + f.post
    && Distinct(parent)
    && (forall n | n in parent :: n < next)
    && (forall y | y in nodes :: nodes[y] < next)
    && last == Last(f.ph, nodes, a)
  }

  /** Survivors keep their node and disposers; new items get `make` and a fresh node, one
      per item created. */
  ghost predicate Books<T>(f: Frame<T>, nodes: map<T, NodeId>, disposers: map<T, seq<Disposer>>, next: NodeId, created: seq<T>, j: nat)
    requires j <= |f.items|
  {
    && disposers.Keys == nodes.Keys
    && next == f.next0 + |created|
    && created == Keep(f.items[..j], New(f))
    && (forall y | y in Surv(f) && y in nodes :: y in f.nodes0 && y in f.disposers0 && nodes[y] == f.nodes0[y] && disposers[y] == f.disposers0[y])
    && (forall y | y in nodes && y in New(f) :: disposers[y] == f.make(y) && nodes[y] >= f.next0)
  }

  ghost predicate Placing<T>(f: Frame<T>, deleted: set<T>, parent: seq<NodeId>, nodes: map<T, NodeId>, disposers: map<T, seq<Disposer>>,
                             next: NodeId, created: seq<T>, prevI: nat, j: nat, last: NodeId, a: seq<T>, b: seq<T>, eb: set<T>) {
    && Framed(f)
    && Order(f, deleted, j, prevI, a, b, eb)
    && Layout(f, parent, nodes, next, last, a, b)
    && Books(f, nodes, disposers, next, created, j)
  }

  /** The pass starts with nothing placed and every survivor, in its old order, unmet. */
  lemma StartOrder<T>(f: Frame<T>, deleted: set<T>, prevI: nat)
    requires Framed(f) && deleted == Elems(f.prev) - Elems(f.items)
    requires prevI <= |f.prev| && (forall k | 0 <= k < prevI :: f.prev[k] in deleted)
    requires prevI < |f.prev| ==> f.prev[prevI] !in deleted
    ensures Order(f, deleted, 0, prevI, [], Keep(f.prev, Surv(f)), Surv(f))
  {
    var b := Keep(f.prev, Surv(f));
    KeepDistinct(f.prev, Surv(f));
    assert [] + b == b;
    KeepSkipped(f.prev, Surv(f), 0, prevI);
    assert f.prev[..0] == [] && f.items[..0] == [];
  }

  lemma StartLayout<T>(f: Frame<T>, parent: seq<NodeId>)
    requires f.nodes0.Keys == Surv(f) && Injective(f.nodes0)
    requires forall y | y in Keep(f.prev, Surv(f)) :: y in f.nodes0
    requires parent == f.pre + [f.ph] + Nodes(f.nodes0, Keep(f.prev, Surv(f))) + f.post && Distinct(parent)
    requires (forall n | n in parent :: n < f.next0) && (forall y | y in f.nodes0 :: f.nodes0[y] < f.next0)
    ensures Layout(f, parent, f.nodes0, f.next0, f.ph, [], Keep(f.prev, Surv(f)))
  {
    var b := Keep(f.prev, Surv(f));
    var a: seq<T> := [];
    assert a + b == b;
    assert f.nodes0.Keys == Elems(a + b) by {
      assert Elems(b) == Surv(f);
    }
  }

  lemma StartBooks<T>(f: Frame<T>)
    requires Framed(f) && f.nodes0.Keys == Surv(f) && f.disposers0.Keys == Surv(f)
    ensures Books(f, f.nodes0, f.disposers0, f.next0, [], 0)
  {
    assert f.items[..0] == [];
  }

  /** An item that already has a node is a survivor, met for the first time, and the cursor is
      still inside `prev`. */
  lemma ExistsFacts<T>(f: Frame<T>, deleted: set<T>, j: nat, prevI: nat, a: seq<T>, b: seq<T>, eb: set<T>)
    requires Framed(f) && Order(f, deleted, j, prevI, a, b, eb)
    requires j < |f.items| && f.items[j] in Elems(a + b)
    ensures f.items[j] in Surv(f) && f.items[j] !in f.items[..j] && f.items[j] in a + b
    ensures a != [] ==> a[|a| - 1] != f.items[j]
    ensures prevI < |f.prev|
    ensures f.items[j] == f.prev[prevI] ==> f.items[j] in b && f.items[j] in eb
  {
    var x := f.items[j];
    var s := Surv(f);
    assert x in s;
    assert prevI < |f.prev| by {
      if prevI == |f.prev| {
        CursorInside(f, j, prevI, x);
      }
    }
    if x == f.prev[prevI] {
      assert x !in f.prev[..prevI];
      assert x !in a;
      assert x in Elems(b);
    }
  }

  /** While some survivor is still unmet, the cursor has not run off `prev`. */
  lemma CursorInside<T>(f: Frame<T>, j: nat, prevI: nat, x: T)
    requires Framed(f) && j <= |f.items| && prevI <= |f.prev|
    requires |Keep(f.prev[..prevI], Surv(f))| == |Keep(f.items[..j], Surv(f))|
    requires x in Surv(f) && x !in f.items[..j]
    ensures prevI < |f.prev|
  {
    var s := Surv(f);
    if prevI == |f.prev| {
      var ks := Keep(f.items[..j], s);
      assert f.prev[..prevI] == f.prev;
      KeepDistinct(f.prev, s);
      DistinctCard(Keep(f.prev, s));
      assert Elems(ks) <= s - {x};
      assert Distinct(f.items[..j]);
      KeepDistinct(f.items[..j], s);
      DistinctCard(ks);
      CardMono(Elems(ks), s - {x});
    }
  }

  /** An item without a node is new, and the next fresh node is not a child yet. */
  lemma CreateFacts<T>(f: Frame<T>, deleted: set<T>, parent: seq<NodeId>, nodes: map<T, NodeId>, next: NodeId, last: NodeId,
                       j: nat, prevI: nat, a: seq<T>, b: seq<T>, eb: set<T>)
    requires Order(f, deleted, j, prevI, a, b, eb) && Layout(f, parent, nodes, next, last, a, b)
    requires j < |f.items| && f.items[j] !in nodes
    ensures f.items[j] in New(f) && f.items[j] !in a + b
    ensures next !in parent && (forall y | y in nodes :: nodes[y] != next)
  {
    var x := f.items[j];
    assert x !in Elems(a + b);
    assert x !in f.prev;
  }
  /** The survivors of `eb` up to and including the cursor's `x`, and the ones after it. */
  lemma SkipSplit<T>(prev: seq<T>, eb: set<T>, i: nat)
    requires Distinct(prev) && i < |prev| && prev[i] in eb
    ensures Keep(prev[..i + 1], eb) == Keep(prev[..i], eb) + [prev[i]]
    ensures Keep(prev, eb) == Keep(prev[..i + 1], eb) + Keep(prev, eb - Elems(prev[..i + 1]))
  {
    KeepStep(prev, i, eb);
    var eb' := eb - Elems(prev[..i + 1]);
    var front, back := prev[..i + 1], prev[i + 1..];
    assert prev == front + back;
    var kb := Keep(back, eb);
    assert Keep(prev, eb) == Keep(front, eb) + kb by {
      KeepConcat(front, back, eb);
    }
    assert Keep(prev, eb') == kb by {
      KeepConcat(front, back, eb');
      KeepNone(front, eb');
      assert forall y | y in back :: y !in front by {
        DistinctConcat(front, back);
      }
      KeepAgree(back, eb, eb');
    }
  }

  /** The cursor advanced over one survivor and then over deleted items only. */
  lemma CursorStep<T>(f: Frame<T>, deleted: set<T>, j: nat, prevI: nat, prevI': nat)
    requires Framed(f) && deleted == Elems(f.prev) - Elems(f.items)
    requires j < |f.items| && f.items[j] in Surv(f)
    requires prevI < |f.prev| && f.prev[prevI] !in deleted
    requires prevI + 1 <= prevI' <= |f.prev| && forall k | prevI + 1 <= k < prevI' :: f.prev[k] in deleted
    requires |Keep(f.prev[..prevI], Surv(f))| == |Keep(f.items[..j], Surv(f))|
    ensures |Keep(f.prev[..prevI'], Surv(f))| == |Keep(f.items[..j + 1], Surv(f))|
  {
    var sv := Surv(f);
    KeepSkipped(f.prev, sv, prevI + 1, prevI');
    KeepStep(f.prev, prevI, sv);
    KeepStep(f.items, j, sv);
  }

  /** Keeping the placed items after handling one more. */
  lemma PlacedStep<T>(f: Frame<T>, j: nat)
    requires j < |f.items|
    ensures f.items[..j + 1] == f.items[..j] + [f.items[j]]
    ensures Elems(f.items[..j + 1]) == Elems(f.items[..j]) + {f.items[j]}
  {
    assert f.items[..j + 1] == f.items[..j] + [f.items[j]];
    ElemsConcat(f.items[..j], [f.items[j]]);
  }

  /** The placed region, filtered by the placed items, grows by the item just handled. */
  lemma ExtendPlaced<T>(a: seq<T>, p: seq<T>, x: T, placed: seq<T>)
    requires Keep(a, Elems(placed)) == placed
    requires x !in a && forall y | y in p :: y !in placed && y != x
    ensures Keep(a + p + [x], Elems(placed + [x])) == placed + [x]
  {
    var i0, i1 := Elems(placed), Elems(placed + [x]);
    ElemsConcat(placed, [x]);
    KeepConcat(a + p, [x], i1);
    KeepConcat(a, p, i1);
    KeepNone(p, i1);
    KeepAgree(a, i0, i1);
    assert Keep([x], i1) == [x] by {
      assert [x][..0] == [];
    }
  }

  /** No unmet survivor is placed, the item just handled included. */
  lemma StillUnmet<T>(b: seq<T>, b': seq<T>, placed: seq<T>, x: T)
    requires forall y | y in b :: y !in placed
    requires forall y | y in b' :: y in b && y != x
    ensures forall y | y in b' :: y !in placed + [x]
  {
  }

  /** Survivors filtered by a smaller set that lacks `x`. */
  lemma KeepNarrow<T>(s: seq<T>, eb: set<T>, eb': set<T>, x: T)
    requires eb' <= eb && x !in eb'
    ensures forall y | y in Keep(s, eb') :: y in Keep(s, eb) && y != x
  {
    assert Elems(Keep(s, eb')) == Elems(s) * eb';
    assert Elems(Keep(s, eb)) == Elems(s) * eb;
  }

  /** The unmet survivors the cursor passed lie before it and are not `prev[i]`. */
  lemma PassedSurvivors<T>(prev: seq<T>, eb: set<T>, i: nat)
    requires Distinct(prev) && i < |prev|
    ensures forall y | y in Keep(prev[..i], eb) :: y in Keep(prev, eb) && y != prev[i] && y in prev[..i]
  {
    forall y | y in Keep(prev[..i], eb)
      ensures y in Keep(prev, eb) && y != prev[i] && y in prev[..i]
    {
      assert y in Elems(Keep(prev[..i], eb));
      assert y in prev[..i] && y in eb;
      var k :| 0 <= k < i && prev[..i][k] == y;
      assert prev[k] == y;
      assert y in Elems(Keep(prev, eb));
    }
  }

  /** Every placed item was handled or met by the cursor. */
  lemma PlacedKnown<T>(a: seq<T>, a': seq<T>, items: seq<T>, prev: seq<T>, j: nat, prevI: nat, prevI': nat)
    requires j < |items| && prevI <= prevI' <= |prev|
    requires forall y | y in a :: y in items[..j] || y in prev[..prevI]
    requires forall y | y in a' :: y in a || y == items[j] || y in prev[..prevI]
    ensures forall y | y in a' :: y in items[..j + 1] || y in prev[..prevI']
  {
    assert forall y | y in prev[..prevI] :: y in prev[..prevI'];
    assert forall y | y in items[..j] :: y in items[..j + 1];
    assert items[j] in items[..j + 1];
  }

  /** Handling a survivor adds nothing to the items the regions hold. */
  lemma SameElems<T>(e: set<T>, e0: set<T>, e1: set<T>, sv: set<T>, x: T)
    requires e == e0 + sv && e1 == e0 + {x} && x in sv
    ensures e == e1 + sv
  {
  }

  /** The order bookkeeping after an existing item (a survivor) is handled. */
  lemma OrderStep<T>(f: Frame<T>, deleted: set<T>, j: nat, prevI: nat, a: seq<T>, b: seq<T>, eb: set<T>,
                     prevI': nat, a': seq<T>, b': seq<T>, eb': set<T>)
    requires Framed(f) && Order(f, deleted, j, prevI, a, b, eb)
    requires j < |f.items| && prevI' <= |f.prev|
    requires prevI' < |f.prev| ==> f.prev[prevI'] !in deleted
    requires |Keep(f.prev[..prevI'], Surv(f))| == |Keep(f.items[..j + 1], Surv(f))|
    requires Distinct(a' + b') && Elems(a' + b') == Elems(f.items[..j + 1]) + Surv(f)
    requires Keep(a', Elems(f.items[..j + 1])) == f.items[..j + 1]
    requires forall y | y in b' :: y !in f.items[..j + 1]
    requires forall y | y in a' :: y in f.items[..j + 1] || y in f.prev[..prevI']
    requires b' == Keep(f.prev, eb') && eb' <= Surv(f)
    requires a' != [] && a'[|a'| - 1] == f.items[j]
    ensures Order(f, deleted, j + 1, prevI', a', b', eb')
  {
  }

  /** Skip: the item is the one under the cursor, so nothing moves; the survivors the cursor
      passed join the placed region. */
  lemma SkipOrder<T>(f: Frame<T>, deleted: set<T>, j: nat, prevI: nat, a: seq<T>, b: seq<T>, eb: set<T>, prevI': nat)
    requires Framed(f) && Order(f, deleted, j, prevI, a, b, eb)
    requires j < |f.items| && prevI < |f.prev| && f.items[j] == f.prev[prevI]
    requires f.items[j] in b && f.items[j] in eb && f.items[j] in Surv(f)
    requires prevI + 1 <= prevI' <= |f.prev| && forall k | prevI + 1 <= k < prevI' :: f.prev[k] in deleted
    requires prevI' < |f.prev| ==> f.prev[prevI'] !in deleted
    ensures var a', eb' := a + Keep(f.prev[..prevI], eb) + [f.items[j]], eb - Elems(f.prev[..prevI + 1]);
      && a' + Keep(f.prev, eb') == a + b
      && Order(f, deleted, j + 1, prevI', a', Keep(f.prev, eb'), eb')
  {
    CursorStep(f, deleted, j, prevI, prevI');
    SkipRegions(f.prev, f.items, Surv(f), j, prevI, a, b, eb);
    SkipPlaced(f.prev, f.items, j, prevI, a, b, eb);
    SkipUnmet(f.prev, f.items, j, prevI, b, eb, eb - Elems(f.prev[..prevI + 1]));
    SkipKnown(f.prev, f.items, j, prevI, prevI', a, eb);
    var a' := a + Keep(f.prev[..prevI], eb) + [f.items[j]];
    var eb' := eb - Elems(f.prev[..prevI + 1]);
    OrderStep(f, deleted, j, prevI, a, b, eb, prevI', a', Keep(f.prev, eb'), eb');
  }

  /** Skip keeps the regions' concatenation, so neither the order nor the items change. */
  lemma SkipRegions<T>(prev: seq<T>, items: seq<T>, sv: set<T>, j: nat, prevI: nat, a: seq<T>, b: seq<T>, eb: set<T>)
    requires Distinct(prev) && j < |items| && prevI < |prev| && items[j] == prev[prevI]
    requires items[j] in b && items[j] in sv
    requires Distinct(a + b) && Elems(a + b) == Elems(items[..j]) + sv
    requires b == Keep(prev, eb)
    ensures var a', b' := a + Keep(prev[..prevI], eb) + [items[j]], Keep(prev, eb - Elems(prev[..prevI + 1]));
      && a' + b' == a + b
      && Distinct(a' + b') && Elems(a' + b') == Elems(items[..j + 1]) + sv
  {
    var x := items[j];
    assert x in Elems(b);
    SkipSplit(prev, eb, prevI);
    assert items[..j + 1] == items[..j] + [x];
    ElemsConcat(items[..j], [x]);
  }

  /** After a skip the placed region, filtered by the placed items, is those items. */
  lemma SkipPlaced<T>(prev: seq<T>, items: seq<T>, j: nat, prevI: nat, a: seq<T>, b: seq<T>, eb: set<T>)
    requires Distinct(prev) && j < |items| && prevI < |prev| && items[j] == prev[prevI]
    requires items[j] in b && Distinct(a + b)
    requires Keep(a, Elems(items[..j])) == items[..j]
    requires forall y | y in b :: y !in items[..j]
    requires b == Keep(prev, eb)
    ensures Keep(a + Keep(prev[..prevI], eb) + [items[j]], Elems(items[..j + 1])) == items[..j + 1]
  {
    var x := items[j];
    assert items[..j + 1] == items[..j] + [x];
    DistinctConcat(a, b);
    PassedSurvivors(prev, eb, prevI);
    ExtendPlaced(a, Keep(prev[..prevI], eb), x, items[..j]);
  }

  /** After a skip no unmet survivor is placed. */
  lemma SkipUnmet<T>(prev: seq<T>, items: seq<T>, j: nat, prevI: nat, b: seq<T>, eb: set<T>, eb': set<T>)
    requires j < |items| && prevI < |prev| && items[j] == prev[prevI]
    requires forall y | y in b :: y !in items[..j]
    requires b == Keep(prev, eb) && eb' == eb - Elems(prev[..prevI + 1])
    ensures forall y | y in Keep(prev, eb') :: y !in items[..j + 1]
  {
    var x := items[j];
    assert x !in eb' by {
      assert prev[..prevI + 1][prevI] == x;
    }
    var b' := Keep(prev, eb');
    KeepNarrow(prev, eb, eb', x);
    forall y | y in b'
      ensures y !in items[..j + 1]
    {
      assert y in b && y != x;
      assert items[..j + 1] == items[..j] + [x];
    }
  }

  /** After a skip every placed item was handled or met by the cursor. */
  lemma SkipKnown<T>(prev: seq<T>, items: seq<T>, j: nat, prevI: nat, prevI': nat, a: seq<T>, eb: set<T>)
    requires Distinct(prev) && j < |items| && prevI < prevI' <= |prev|
    requires forall y | y in a :: y in items[..j] || y in prev[..prevI]
    ensures forall y | y in a + Keep(prev[..prevI], eb) + [items[j]] :: y in items[..j + 1] || y in prev[..prevI']
  {
    PassedSurvivors(prev, eb, prevI);
    PlacedKnown(a, a + Keep(prev[..prevI], eb) + [items[j]], items, prev, j, prevI, prevI');
  }

  /** Skip leaves the parent alone, and the last placed node is the item's. */
  lemma SkipLayout<T>(f: Frame<T>, parent: seq<NodeId>, nodes: map<T, NodeId>, next: NodeId, last: NodeId,
                      a: seq<T>, b: seq<T>, a': seq<T>, b': seq<T>)
    requires Layout(f, parent, nodes, next, last, a, b)
    requires a' + b' == a + b && a' != [] && a'[|a'| - 1] in nodes
    ensures Layout(f, parent, nodes, next, nodes[a'[|a'| - 1]], a', b')
  {
  }

  /** An existing item changes neither the maps nor the created items. */
  lemma ExistsBooks<T>(f: Frame<T>, nodes: map<T, NodeId>, disposers: map<T, seq<Disposer>>, next: NodeId, created: seq<T>, j: nat)
    requires j < |f.items| && Books(f, nodes, disposers, next, created, j)
    requires f.items[j] !in New(f)
    ensures Books(f, nodes, disposers, next, created, j + 1)
  {
    KeepStep(f.items, j, New(f));
  }

  /** Move keeps the regions duplicate-free and holding the same items. */
  lemma MoveRegions<T>(items: seq<T>, sv: set<T>, j: nat, a: seq<T>, b: seq<T>)
    requires j < |items| && items[j] in a + b && items[j] in sv
    requires Distinct(a + b) && Elems(a + b) == Elems(items[..j]) + sv
    ensures var x := items[j];
      Distinct(Delete(a, x) + [x] + Delete(b, x)) && Elems(Delete(a, x) + [x] + Delete(b, x)) == Elems(items[..j + 1]) + sv
  {
    var x := items[j];
    var a' := Delete(a, x) + [x];
    DistinctConcat(a, b);
    DistinctConcat(Delete(a, x), [x]);
    DistinctConcat(a', Delete(b, x));
    ElemsConcat(a, b);
    ElemsConcat(Delete(a, x), [x]);
    ElemsConcat(a', Delete(b, x));
    assert items[..j + 1] == items[..j] + [x];
    ElemsConcat(items[..j], [x]);
  }

  /** After a move the placed region, filtered by the placed items, is those items. */
  lemma MovePlaced<T>(items: seq<T>, j: nat, a: seq<T>, b: seq<T>)
    requires j < |items| && items[j] !in items[..j] && Distinct(a + b)
    requires Keep(a, Elems(items[..j])) == items[..j]
    ensures var x := items[j];
      Keep(Delete(a, x) + [x], Elems(items[..j + 1])) == items[..j + 1]
  {
    var x := items[j];
    assert items[..j + 1] == items[..j] + [x];
    DistinctConcat(a, b);
    KeepDelete(a, Elems(items[..j]), x);
    ExtendPlaced(Delete(a, x), [], x, items[..j]);
    assert Delete(a, x) + [] == Delete(a, x);
  }

  /** After a move no unmet survivor is placed. */
  lemma MoveUnmet<T>(items: seq<T>, j: nat, b: seq<T>)
    requires j < |items| && forall y | y in b :: y !in items[..j]
    ensures forall y | y in Delete(b, items[j]) :: y !in items[..j + 1]
  {
    assert items[..j + 1] == items[..j] + [items[j]];
  }

  /** Move: the item's node goes right after the last placed node. */
  lemma MoveOrder<T>(f: Frame<T>, deleted: set<T>, j: nat, prevI: nat, a: seq<T>, b: seq<T>, eb: set<T>, prevI': nat)
    requires Framed(f) && Order(f, deleted, j, prevI, a, b, eb)
    requires j < |f.items| && prevI < |f.prev|
    requires f.items[j] in a + b && f.items[j] in Surv(f) && f.items[j] !in f.items[..j]
    requires prevI + 1 <= prevI' <= |f.prev| && forall k | prevI + 1 <= k < prevI' :: f.prev[k] in deleted
    requires prevI' < |f.prev| ==> f.prev[prevI'] !in deleted
    ensures var x := f.items[j];
      Order(f, deleted, j + 1, prevI', Delete(a, x) + [x], Delete(b, x), eb - {x})
  {
    var x := f.items[j];
    var a', b' := Delete(a, x) + [x], Delete(b, x);
    assert f.prev[prevI] in Surv(f);
    CursorStep(f, deleted, j, prevI, prevI');
    MoveRegions(f.items, Surv(f), j, a, b);
    MovePlaced(f.items, j, a, b);
    MoveUnmet(f.items, j, b);
    PlacedKnown(a, a', f.items, f.prev, j, prevI, prevI');
    DeleteKeep(f.prev, eb, x);
    OrderStep(f, deleted, j, prevI, a, b, eb, prevI', a', b', eb - {x});
  }

  lemma MoveLayout<T>(f: Frame<T>, parent: seq<NodeId>, nodes: map<T, NodeId>, next: NodeId, last: NodeId,
                      a: seq<T>, b: seq<T>, x: T)
    requires Layout(f, parent, nodes, next, last, a, b)
    requires x in a + b && (a != [] ==> a[|a| - 1] != x)
    requires Elems(Delete(a, x) + [x] + Delete(b, x)) == Elems(a + b)
    ensures last in parent && last != nodes[x]
    ensures Layout(f, After(parent, last, nodes[x]), nodes, next, nodes[x], Delete(a, x) + [x], Delete(b, x))
  {
    MoveNode(f.pre, f.ph, nodes, a, b, f.post, x);
    var a', b' := Delete(a, x) + [x], Delete(b, x);
    var parent' := After(parent, last, nodes[x]);
    assert forall y | y in a' + b' :: y in nodes;
    assert nodes.Keys == Elems(a' + b');
    assert parent' == f.pre + [f.ph] + Nodes(nodes, a' + b') + f.post;
    assert Distinct(parent');
    BoundAfter(parent, last, nodes[x], next);
    assert nodes[x] == Last(f.ph, nodes, a');
  }

  /** Inserting a node below a bound keeps every child below it. */
  lemma BoundAfter(s: seq<NodeId>, ref: NodeId, n: NodeId, bound: nat)
    requires ref in s && ref != n && n < bound && forall k | k in s :: k < bound
    ensures forall k | k in After(s, ref, n) :: k < bound
  {
    var r := After(s, ref, n);
    forall k | k in r
      ensures k < bound
    {
      assert k in Elems(r);
      assert k in Elems(s) || k == n;
    }
  }

  /** Create keeps the regions duplicate-free and adds the item. */
  lemma CreateRegions<T>(items: seq<T>, sv: set<T>, j: nat, a: seq<T>, b: seq<T>)
    requires j < |items| && items[j] !in a + b
    requires Distinct(a + b) && Elems(a + b) == Elems(items[..j]) + sv
    ensures var x := items[j];
      Distinct(a + [x] + b) && Elems(a + [x] + b) == Elems(items[..j + 1]) + sv
  {
    var x := items[j];
    DistinctConcat(a, b);
    DistinctConcat(a, [x]);
    DistinctConcat(a + [x], b);
    ElemsConcat(a, b);
    ElemsConcat(a, [x]);
    ElemsConcat(a + [x], b);
    assert items[..j + 1] == items[..j] + [x];
    ElemsConcat(items[..j], [x]);
  }

  /** Create: a fresh node for a new item goes right after the last placed node. */
  lemma CreateOrder<T>(f: Frame<T>, deleted: set<T>, j: nat, prevI: nat, a: seq<T>, b: seq<T>, eb: set<T>)
    requires Framed(f) && Order(f, deleted, j, prevI, a, b, eb)
    requires j < |f.items| && f.items[j] in New(f) && f.items[j] !in a + b
    ensures Order(f, deleted, j + 1, prevI, a + [f.items[j]], b, eb)
  {
    var x := f.items[j];
    CreateCount(f.prev[..prevI], f.items, j, Surv(f));
    CreateRegions(f.items, Surv(f), j, a, b);
    CreatePlaced(f.items, j, a);
    CreateUnmet(f.items, j, b);
    PlacedKnown(a, a + [x], f.items, f.prev, j, prevI, prevI);
    OrderStep(f, deleted, j, prevI, a, b, eb, prevI, a + [x], b, eb);
  }

  /** A new item is not a survivor, so the survivor count of the placed items stays. */
  lemma CreateCount<T>(passed: seq<T>, items: seq<T>, j: nat, sv: set<T>)
    requires j < |items| && items[j] !in sv
    requires |Keep(passed, sv)| == |Keep(items[..j], sv)|
    ensures |Keep(passed, sv)| == |Keep(items[..j + 1], sv)|
  {
    KeepStep(items, j, sv);
  }

  /** After a create no unmet survivor is placed. */
  lemma CreateUnmet<T>(items: seq<T>, j: nat, b: seq<T>)
    requires j < |items| && forall y | y in b :: y !in items[..j] && y != items[j]
    ensures forall y | y in b :: y !in items[..j + 1]
  {
    assert items[..j + 1] == items[..j] + [items[j]];
  }

  /** After a create the new item ends the placed region. */
  lemma CreatePlaced<T>(items: seq<T>, j: nat, a: seq<T>)
    requires j < |items| && items[j] !in a
    requires Keep(a, Elems(items[..j])) == items[..j]
    ensures Keep(a + [items[j]], Elems(items[..j + 1])) == items[..j + 1]
  {
    var x := items[j];
    assert items[..j + 1] == items[..j] + [x];
    ExtendPlaced(a, [], x, items[..j]);
    assert a + [] + [x] == a + [x];
  }

  lemma CreateLayout<T>(f: Frame<T>, parent: seq<NodeId>, nodes: map<T, NodeId>, next: NodeId, last: NodeId,
                        a: seq<T>, b: seq<T>, x: T)
    requires Layout(f, parent, nodes, next, last, a, b)
    requires x !in a + b && next !in parent && (forall y | y in nodes :: nodes[y] != next)
    requires Elems(a + [x] + b) == Elems(a + b) + {x}
    ensures last in parent && last != next
    ensures Layout(f, After(parent, last, next), nodes[x := next], next + 1, next, a + [x], b)
  {
    FreshNode(f.pre, f.ph, nodes, a, b, f.post, x, next);
    var m' := nodes[x := next];
    var parent' := After(parent, last, next);
    assert forall y | y in a + [x] + b :: y in m';
    assert m'.Keys == Elems(a + [x] + b);
    assert Injective(m');
    assert parent' == f.pre + [f.ph] + Nodes(m', a + [x] + b) + f.post;
    assert Distinct(parent');
    BoundAfter(parent, last, next, next + 1);
    assert forall y | y in m' :: m'[y] < next + 1;
    assert next == Last(f.ph, m', a + [x]);
  }

  lemma CreateBooks<T>(f: Frame<T>, nodes: map<T, NodeId>, disposers: map<T, seq<Disposer>>, next: NodeId, created: seq<T>, j: nat)
    requires j < |f.items| && Books(f, nodes, disposers, next, created, j)
    requires f.items[j] in New(f) && forall y | y in nodes :: nodes[y] < next
    ensures var x := f.items[j];
      Books(f, nodes[x := next], disposers[x := f.make(x)], next + 1, created + [x], j + 1)
  {
    KeepStep(f.items, j, New(f));
  }

  /** When every item is handled, the placed region is exactly the items. */
  lemma EndPlacing<T>(f: Frame<T>, deleted: set<T>, parent: seq<NodeId>, nodes: map<T, NodeId>, next: NodeId, last: NodeId,
                      prevI: nat, a: seq<T>, b: seq<T>, eb: set<T>)
    requires Order(f, deleted, |f.items|, prevI, a, b, eb) && Layout(f, parent, nodes, next, last, a, b)
    ensures a == f.items && b == []
    ensures forall y | y in f.items :: y in nodes
    ensures nodes.Keys == Elems(f.items)
    ensures parent == f.pre + [f.ph] + Nodes(nodes, f.items) + f.post
  {
    EndRegions(f.items, Surv(f), a, b);
  }

  lemma EndRegions<T>(items: seq<T>, sv: set<T>, a: seq<T>, b: seq<T>)
    requires sv <= Elems(items)
    requires Elems(a + b) == Elems(items[..|items|]) + sv
    requires Keep(a, Elems(items[..|items|])) == items[..|items|]
    requires forall y | y in b :: y !in items[..|items|]
    ensures a == items && b == [] && a + b == items
  {
    var all := Elems(items);
    assert items[..|items|] == items;
    assert Elems(b) <= Elems(a + b);
    Avoids(b, all);
    assert a + b == a;
    assert forall y | y in a :: y in Elems(a + b);
    KeepAll(a, all);
  }

  // ---------------------------------------------------------------------------------------
  // One step of the create-or-move pass, per branch

  /** The pass can start once the deleted items are gone and the cursor has skipped them. */
  lemma PlaceStart<T>(f: Frame<T>, deleted: set<T>, parent: seq<NodeId>, prevI: nat)
    requires Framed(f) && deleted == Elems(f.prev) - Elems(f.items)
    requires f.nodes0.Keys == Surv(f) && f.disposers0.Keys == Surv(f) && Injective(f.nodes0)
    requires forall y | y in Keep(f.prev, Surv(f)) :: y in f.nodes0
    requires parent == f.pre + [f.ph] + Nodes(f.nodes0, Keep(f.prev, Surv(f))) + f.post && Distinct(parent)
    requires (forall n | n in parent :: n < f.next0) && (forall y | y in f.nodes0 :: f.nodes0[y] < f.next0)
    requires prevI <= |f.prev| && (forall k | 0 <= k < prevI :: f.prev[k] in deleted)
    requires prevI < |f.prev| ==> f.prev[prevI] !in deleted
    ensures Placing(f, deleted, parent, f.nodes0, f.disposers0, f.next0, [], prevI, 0, f.ph, [], Keep(f.prev, Surv(f)), Surv(f))
  {
    StartOrder(f, deleted, prevI);
    StartLayout(f, parent);
    StartBooks(f);
  }

  /** An item that has a node and sits at the cursor stays where it is. */
  lemma PlaceSkip<T>(f: Frame<T>, deleted: set<T>, parent: seq<NodeId>, nodes: map<T, NodeId>, disposers: map<T, seq<Disposer>>,
                     next: NodeId, created: seq<T>, prevI: nat, j: nat, last: NodeId, a: seq<T>, b: seq<T>, eb: set<T>, prevI': nat)
    requires Placing(f, deleted, parent, nodes, disposers, next, created, prevI, j, last, a, b, eb)
    requires j < |f.items| && f.items[j] in nodes && prevI < |f.prev| && f.items[j] == f.prev[prevI]
    requires prevI + 1 <= prevI' <= |f.prev| && (forall k | prevI + 1 <= k < prevI' :: f.prev[k] in deleted)
    requires prevI' < |f.prev| ==> f.prev[prevI'] !in deleted
    ensures var a', eb' := a + Keep(f.prev[..prevI], eb) + [f.items[j]], eb - Elems(f.prev[..prevI + 1]);
      Placing(f, deleted, parent, nodes, disposers, next, created, prevI', j + 1, nodes[f.items[j]], a', Keep(f.prev, eb'), eb')
  {
    ExistsFacts(f, deleted, j, prevI, a, b, eb);
    SkipOrder(f, deleted, j, prevI, a, b, eb, prevI');
    var a', eb' := a + Keep(f.prev[..prevI], eb) + [f.items[j]], eb - Elems(f.prev[..prevI + 1]);
    assert a'[|a'| - 1] == f.items[j];
    SkipLayout(f, parent, nodes, next, last, a, b, a', Keep(f.prev, eb'));
    ExistsBooks(f, nodes, disposers, next, created, j);
  }

  /** An item that has a node but is not at the cursor is moved right after the last placed
      node. */
  lemma PlaceMove<T>(f: Frame<T>, deleted: set<T>, parent: seq<NodeId>, nodes: map<T, NodeId>, disposers: map<T, seq<Disposer>>,
                     next: NodeId, created: seq<T>, prevI: nat, j: nat, last: NodeId, a: seq<T>, b: seq<T>, eb: set<T>, prevI': nat)
    requires Placing(f, deleted, parent, nodes, disposers, next, created, prevI, j, last, a, b, eb)
    requires j < |f.items| && f.items[j] in nodes && prevI < |f.prev| && f.items[j] != f.prev[prevI]
    requires prevI + 1 <= prevI' <= |f.prev| && (forall k | prevI + 1 <= k < prevI' :: f.prev[k] in deleted)
    requires prevI' < |f.prev| ==> f.prev[prevI'] !in deleted
    ensures last in parent && last != nodes[f.items[j]]
    ensures var x := f.items[j];
      Placing(f, deleted, After(parent, last, nodes[x]), nodes, disposers, next, created, prevI', j + 1, nodes[x],
              Delete(a, x) + [x], Delete(b, x), eb - {x})
  {
    var x := f.items[j];
    MovedLayout(f, deleted, parent, nodes, next, prevI, j, last, a, b, eb);
    ExistsFacts(f, deleted, j, prevI, a, b, eb);
    MoveOrder(f, deleted, j, prevI, a, b, eb, prevI');
    ExistsBooks(f, nodes, disposers, next, created, j);
  }

  lemma MovedLayout<T>(f: Frame<T>, deleted: set<T>, parent: seq<NodeId>, nodes: map<T, NodeId>, next: NodeId,
                       prevI: nat, j: nat, last: NodeId, a: seq<T>, b: seq<T>, eb: set<T>)
    requires Framed(f) && Order(f, deleted, j, prevI, a, b, eb) && Layout(f, parent, nodes, next, last, a, b)
    requires j < |f.items| && f.items[j] in nodes
    ensures last in parent && last != nodes[f.items[j]]
    ensures var x := f.items[j];
      Layout(f, After(parent, last, nodes[x]), nodes, next, nodes[x], Delete(a, x) + [x], Delete(b, x))
  {
    var x := f.items[j];
    ExistsFacts(f, deleted, j, prevI, a, b, eb);
    MoveRegions(f.items, Surv(f), j, a, b);
    PlacedStep(f, j);
    MoveLayout(f, parent, nodes, next, last, a, b, x);
  }

  /** An item without a node gets a fresh one right after the last placed node. */
  lemma PlaceCreate<T>(f: Frame<T>, deleted: set<T>, parent: seq<NodeId>, nodes: map<T, NodeId>, disposers: map<T, seq<Disposer>>,
                       next: NodeId, created: seq<T>, prevI: nat, j: nat, last: NodeId, a: seq<T>, b: seq<T>, eb: set<T>)
    requires Placing(f, deleted, parent, nodes, disposers, next, created, prevI, j, last, a, b, eb)
    requires j < |f.items| && f.items[j] !in nodes
    ensures last in parent && last != next
    ensures var x := f.items[j];
      Placing(f, deleted, After(parent, last, next), nodes[x := next], disposers[x := f.make(x)], next + 1, created + [x],
              prevI, j + 1, next, a + [x], b, eb)
  {
    var x := f.items[j];
    CreateFacts(f, deleted, parent, nodes, next, last, j, prevI, a, b, eb);
    CreateRegions(f.items, Surv(f), j, a, b);
    PlacedStep(f, j);
    CreateLayout(f, parent, nodes, next, last, a, b, x);
    CreateOrder(f, deleted, j, prevI, a, b, eb);
    CreateBooks(f, nodes, disposers, next, created, j);
  }

  // ---------------------------------------------------------------------------------------
  // The delete pass of `dynList`

  /** The disposers of the items `xs`, concatenated in order, as running them one item after
      the other does. */
  function DisposersOf<T>(ds: map<T, seq<Disposer>>, xs: seq<T>): seq<Disposer>
    requires forall x | x in xs :: x in ds
  {
    if xs == [] then [] else DisposersOf(ds, xs[..|xs| - 1]) + ds[xs[|xs| - 1]]
  }

  lemma DisposersStep<T>(ds: map<T, seq<Disposer>>, xs: seq<T>, x: T)
    requires (forall y | y in xs :: y in ds) && x in ds
    ensures forall y | y in xs + [x] :: y in ds
    ensures DisposersOf(ds, xs + [x]) == DisposersOf(ds, xs) + ds[x]
  {
    assert (xs + [x])[..|xs|] == xs;
  }

  /** What is left of the list while the delete pass is at `i`: the kept items before `i`,
      then every item from `i` on. */
  function Remaining<T>(prev: seq<T>, keep: set<T>, i: nat): seq<T>
    requires i <= |prev|
  {
    Keep(prev[..i], keep) + prev[i..]
  }

  /** A kept item stays. */
  lemma RemainingKept<T>(prev: seq<T>, keep: set<T>, i: nat)
    requires i < |prev| && prev[i] in keep
    ensures Remaining(prev, keep, i + 1) == Remaining(prev, keep, i)
  {
    KeepStep(prev, i, keep);
    assert prev[i..] == [prev[i]] + prev[i + 1..];
  }

  /** A dropped item leaves a gap between what was kept before it and what follows. */
  lemma RemainingDropped<T>(prev: seq<T>, keep: set<T>, i: nat)
    requires Distinct(prev) && i < |prev| && prev[i] !in keep
    ensures Remaining(prev, keep, i) == Keep(prev[..i], keep) + [prev[i]] + prev[i + 1..]
    ensures Remaining(prev, keep, i + 1) == Keep(prev[..i], keep) + prev[i + 1..]
    ensures prev[i] !in Keep(prev[..i], keep) && prev[i] !in prev[i + 1..]
  {
    KeepStep(prev, i, keep);
    assert prev[i..] == [prev[i]] + prev[i + 1..];
    assert forall k | 0 <= k < i :: prev[..i][k] != prev[i];
    assert forall k | i + 1 <= k < |prev| :: prev[k] != prev[i];
    assert prev[i] !in Elems(Keep(prev[..i], keep));
  }

  /** Removing the node of an item that occurs once in the list. */
  lemma RemoveItem<T>(pre: seq<NodeId>, ph: NodeId, m: map<T, NodeId>, k: seq<T>, x: T, r: seq<T>, post: seq<NodeId>)
    requires forall y | y in k + [x] + r :: y in m
    requires x !in k && x !in r
    requires Distinct(pre + [ph] + Nodes(m, k + [x] + r) + post)
    ensures forall y | y in k + r :: y in m - {x}
    ensures RemoveChild(pre + [ph] + Nodes(m, k + [x] + r) + post, m[x]) == pre + [ph] + Nodes(m - {x}, k + r) + post
  {
    JoinRegion(pre, ph, m, k, r, post, x);
    var front, back := pre + [ph] + Nodes(m, k), Nodes(m, r) + post;
    DistinctConcat(front + [m[x]], back);
    DistinctConcat(front, [m[x]]);
    RemoveAt(front, m[x], back);
    var m' := m - {x};
    assert forall y | y in k + r :: y in k || y in r;
    NodesSame(m, m', k);
    NodesSame(m, m', r);
    SplitRegion(pre, ph, m', k, r, post);
  }

  /** `prevISkipDeleted`: moves the cursor past deleted items. Past the end of `prev` the
      lookup yields no item, which is never deleted, so the loop stops there. */
  method SkipDeleted<T>(prev: seq<T>, deleted: set<T>, i: nat) returns (i': nat)
    requires i <= |prev|
    ensures i <= i' <= |prev|
    ensures forall k | i <= k < i' :: prev[k] in deleted
    ensures i' < |prev| ==> prev[i'] !in deleted
  {
    i' := i;
    while i' < |prev| && prev[i'] in deleted
      invariant i <= i' <= |prev|
      invariant forall k | i <= k < i' :: prev[k] in deleted
      decreases |prev| - i'
    {
      i' := i' + 1;
    }
  }

  /** The delete pass after `i` previous items: the dropped ones among them are gone from the
      list and the maps, and their disposers have run in order. */
  ghost predicate Deleting<T>(prev: seq<T>, keep: set<T>, pre: seq<NodeId>, ph: NodeId, post: seq<NodeId>,
                              parent0: seq<NodeId>, nodes0: map<T, NodeId>, disposers0: map<T, seq<Disposer>>, i: nat,
                              parent: seq<NodeId>, nodes: map<T, NodeId>, disposers: map<T, seq<Disposer>>, deleted: set<T>, ran: seq<Disposer>)
  {
    && Distinct(prev) && i <= |prev|
    && deleted == Elems(prev[..i]) - keep
    && (forall y | y in Remaining(prev, keep, i) :: y in nodes)
    && nodes.Keys == Elems(Remaining(prev, keep, i)) && disposers.Keys == nodes.Keys
    && (forall y | y in nodes :: y in nodes0 && y in disposers0 && nodes[y] == nodes0[y] && disposers[y] == disposers0[y])
    && parent == pre + [ph] + Nodes(nodes, Remaining(prev, keep, i)) + post
    && Distinct(parent) && (forall n | n in parent :: n in parent0)
    && (forall y | y in Keep(prev[..i], Elems(prev) - keep) :: y in disposers0)
    && ran == DisposersOf(disposers0, Keep(prev[..i], Elems(prev) - keep))
  }

  lemma DeletingStart<T>(prev: seq<T>, keep: set<T>, pre: seq<NodeId>, ph: NodeId, post: seq<NodeId>,
                         parent0: seq<NodeId>, nodes0: map<T, NodeId>, disposers0: map<T, seq<Disposer>>)
    requires Distinct(prev) && nodes0.Keys == Elems(prev) && disposers0.Keys == Elems(prev)
    requires forall y | y in prev :: y in nodes0
    requires parent0 == pre + [ph] + Nodes(nodes0, prev) + post && Distinct(parent0)
    ensures Deleting(prev, keep, pre, ph, post, parent0, nodes0, disposers0, 0, parent0, nodes0, disposers0, {}, [])
  {
    assert prev[..0] == [] && prev[0..] == prev;
  }

  /** The filtered prefix grows by the item at `i` exactly when it is kept. */
  lemma PrefixStep<T>(prev: seq<T>, keep: set<T>, i: nat)
    requires i < |prev|
    ensures Elems(prev[..i + 1]) == Elems(prev[..i]) + {prev[i]}
    ensures Keep(prev[..i + 1], keep) == Keep(prev[..i], keep) + (if prev[i] in keep then [prev[i]] else [])
  {
    KeepStep(prev, i, keep);
    assert prev[..i + 1] == prev[..i] + [prev[i]];
  }

  /** An item still delivered is left alone. */
  lemma DeletingKept<T>(prev: seq<T>, keep: set<T>, pre: seq<NodeId>, ph: NodeId, post: seq<NodeId>,
                        parent0: seq<NodeId>, nodes0: map<T, NodeId>, disposers0: map<T, seq<Disposer>>, i: nat,
                        parent: seq<NodeId>, nodes: map<T, NodeId>, disposers: map<T, seq<Disposer>>, deleted: set<T>, ran: seq<Disposer>)
    requires Deleting(prev, keep, pre, ph, post, parent0, nodes0, disposers0, i, parent, nodes, disposers, deleted, ran)
    requires i < |prev| && prev[i] in keep
    ensures Deleting(prev, keep, pre, ph, post, parent0, nodes0, disposers0, i + 1, parent, nodes, disposers, deleted, ran)
  {
    RemainingKept(prev, keep, i);
    PrefixStep(prev, Elems(prev) - keep, i);
    assert deleted == Elems(prev[..i + 1]) - keep;
    assert Keep(prev[..i + 1], Elems(prev) - keep) == Keep(prev[..i], Elems(prev) - keep);
    assert forall y | y in Remaining(prev, keep, i + 1) :: y in nodes;
    assert parent == pre + [ph] + Nodes(nodes, Remaining(prev, keep, i + 1)) + post;
  }

  /** Removing a dropped item's node leaves the list of what remains. */
  lemma DroppedLayout<T>(prev: seq<T>, keep: set<T>, pre: seq<NodeId>, ph: NodeId, post: seq<NodeId>, i: nat,
                         parent: seq<NodeId>, nodes: map<T, NodeId>)
    requires Distinct(prev) && i < |prev| && prev[i] !in keep
    requires forall y | y in Remaining(prev, keep, i) :: y in nodes
    requires parent == pre + [ph] + Nodes(nodes, Remaining(prev, keep, i)) + post && Distinct(parent)
    ensures prev[i] in nodes
    ensures var x, r := prev[i], Remaining(prev, keep, i + 1);
      && Elems(r) == Elems(Remaining(prev, keep, i)) - {x}
      && (forall y | y in r :: y in nodes - {x})
      && RemoveChild(parent, nodes[x]) == pre + [ph] + Nodes(nodes - {x}, r) + post
  {
    var x := prev[i];
    RemainingDropped(prev, keep, i);
    var k, r := Keep(prev[..i], keep), prev[i + 1..];
    assert x in Remaining(prev, keep, i);
    RemoveItem(pre, ph, nodes, k, x, r, post);
    assert Elems(k + r) == Elems(k + [x] + r) - {x};
  }

  /** A dropped item: its disposers run, its node is removed, its entries are dropped. */
  lemma DeletingDropped<T>(prev: seq<T>, keep: set<T>, pre: seq<NodeId>, ph: NodeId, post: seq<NodeId>,
                           parent0: seq<NodeId>, nodes0: map<T, NodeId>, disposers0: map<T, seq<Disposer>>, i: nat,
                           parent: seq<NodeId>, nodes: map<T, NodeId>, disposers: map<T, seq<Disposer>>, deleted: set<T>, ran: seq<Disposer>)
    requires Deleting(prev, keep, pre, ph, post, parent0, nodes0, disposers0, i, parent, nodes, disposers, deleted, ran)
    requires i < |prev| && prev[i] !in keep
    ensures prev[i] in nodes && prev[i] in disposers
    ensures var x := prev[i];
      Deleting(prev, keep, pre, ph, post, parent0, nodes0, disposers0, i + 1,
               RemoveChild(parent, nodes[x]), nodes - {x}, disposers - {x}, deleted + {x}, ran + disposers[x])
  {
    var x := prev[i];
    DroppedLayout(prev, keep, pre, ph, post, i, parent, nodes);
    PrefixStep(prev, Elems(prev) - keep, i);
    DisposersStep(disposers0, Keep(prev[..i], Elems(prev) - keep), x);
  }

  /** After the last item only the kept ones remain, in their previous order. */
  lemma DeletingEnd<T>(prev: seq<T>, keep: set<T>, pre: seq<NodeId>, ph: NodeId, post: seq<NodeId>,
                       parent0: seq<NodeId>, nodes0: map<T, NodeId>, disposers0: map<T, seq<Disposer>>,
                       parent: seq<NodeId>, nodes: map<T, NodeId>, disposers: map<T, seq<Disposer>>, deleted: set<T>, ran: seq<Disposer>)
    requires Deleting(prev, keep, pre, ph, post, parent0, nodes0, disposers0, |prev|, parent, nodes, disposers, deleted, ran)
    ensures deleted == Elems(prev) - keep
    ensures forall y | y in Keep(prev, keep) :: y in nodes
    ensures nodes.Keys == Elems(prev) * keep && disposers.Keys == nodes.Keys
    ensures parent == pre + [ph] + Nodes(nodes, Keep(prev, keep)) + post
    ensures forall y | y in Keep(prev, deleted) :: y in disposers0
    ensures ran == DisposersOf(disposers0, Keep(prev, deleted))
  {
    assert prev[..|prev|] == prev && prev[|prev|..] == [];
    assert Remaining(prev, keep, |prev|) == Keep(prev, keep);
  }

  /** The delete pass: every previous item missing from `items` has its disposers run, its
      node removed and its entries dropped, in the previous order. */
  method DeletePass<T(==)>(prev: seq<T>, items: seq<T>, parent: seq<NodeId>, ghost pre: seq<NodeId>, ph: NodeId, ghost post: seq<NodeId>,
                           nodes: map<T, NodeId>, disposers: map<T, seq<Disposer>>)
    returns (parent': seq<NodeId>, nodes': map<T, NodeId>, disposers': map<T, seq<Disposer>>, deleted: set<T>, ran: seq<Disposer>)
    requires Distinct(prev) && nodes.Keys == Elems(prev) && disposers.Keys == Elems(prev)
    requires forall y | y in prev :: y in nodes
    requires parent == pre + [ph] + Nodes(nodes, prev) + post && Distinct(parent)
    ensures deleted == Elems(prev) - Elems(items)
    ensures nodes'.Keys == Elems(prev) * Elems(items) && disposers'.Keys == nodes'.Keys
    ensures forall y | y in nodes' :: nodes'[y] == nodes[y] && disposers'[y] == disposers[y]
    ensures forall y | y in Keep(prev, Elems(items)) :: y in nodes'
    ensures parent' == pre + [ph] + Nodes(nodes', Keep(prev, Elems(items))) + post
    ensures Distinct(parent') && forall n | n in parent' :: n in parent
    ensures forall y | y in Keep(prev, deleted) :: y in disposers
    ensures ran == DisposersOf(disposers, Keep(prev, deleted))
  {
    ghost var keep := Elems(items);
    parent', nodes', disposers', deleted, ran := parent, nodes, disposers, {}, [];
    DeletingStart(prev, keep, pre, ph, post, parent, nodes, disposers);
    for i := 0 to |prev|
      invariant Deleting(prev, keep, pre, ph, post, parent, nodes, disposers, i, parent', nodes', disposers', deleted, ran)
    {
      var x := prev[i];
      if x !in items {
        DeletingDropped(prev, keep, pre, ph, post, parent, nodes, disposers, i, parent', nodes', disposers', deleted, ran);
        ran := ran + disposers'[x];
        disposers' := disposers' - {x};
        parent' := RemoveChild(parent', nodes'[x]);
        nodes' := nodes' - {x};
        deleted := deleted + {x};
      } else {
        DeletingKept(prev, keep, pre, ph, post, parent, nodes, disposers, i, parent', nodes', disposers', deleted, ran);
      }
    }
    DeletingEnd(prev, keep, pre, ph, post, parent, nodes, disposers, parent', nodes', disposers', deleted, ran);
  }

  // ---------------------------------------------------------------------------------------
  // The create-or-move pass and the first run

  /** One item of the create-or-move pass. */
  method PlaceItem<T(==)>(prev: seq<T>, items: seq<T>, make: T -> seq<Disposer>, ghost f: Frame<T>, deleted: set<T>, parent: seq<NodeId>, nodes: map<T, NodeId>, disposers: map<T, seq<Disposer>>,
                          next: NodeId, ghost created: seq<T>, prevI: nat, j: nat, last: NodeId, ghost a: seq<T>, ghost b: seq<T>, ghost eb: set<T>)
    returns (parent': seq<NodeId>, nodes': map<T, NodeId>, disposers': map<T, seq<Disposer>>, next': NodeId, prevI': nat, last': NodeId,
             ghost created': seq<T>, ghost a': seq<T>, ghost b': seq<T>, ghost eb': set<T>)
    requires f.prev == prev && f.items == items && f.make == make
    requires Placing(f, deleted, parent, nodes, disposers, next, created, prevI, j, last, a, b, eb)
    requires j < |items|
    ensures Placing(f, deleted, parent', nodes', disposers', next', created', prevI', j + 1, last', a', b', eb')
    ensures items[j] in nodes' && last' == nodes'[items[j]]
  {
    var item := items[j];
    if item in nodes {
      ExistsFacts(f, deleted, j, prevI, a, b, eb);
      prevI' := SkipDeleted(prev, deleted, prevI + 1);
      if item == prev[prevI] {
        PlaceSkip(f, deleted, parent, nodes, disposers, next, created, prevI, j, last, a, b, eb, prevI');
        parent', last' := parent, nodes[item];
        a', eb' := a + Keep(prev[..prevI], eb) + [item], eb - Elems(prev[..prevI + 1]);
        b' := Keep(prev, eb');
      } else {
        PlaceMove(f, deleted, parent, nodes, disposers, next, created, prevI, j, last, a, b, eb, prevI');
        parent', last' := After(parent, last, nodes[item]), nodes[item];
        a', b', eb' := Delete(a, item) + [item], Delete(b, item), eb - {item};
      }
      nodes', disposers', next', created' := nodes, disposers, next, created;
    } else {
      PlaceCreate(f, deleted, parent, nodes, disposers, next, created, prevI, j, last, a, b, eb);
      nodes', disposers' := nodes[item := next], disposers[item := make(item)];
      parent', last', next' := After(parent, last, next), next, next + 1;
      prevI', created', a', b', eb' := prevI, created + [item], a + [item], b, eb;
    }
  }

  /** The create-or-move pass: walks `items` with a cursor into `prev`, leaves an item at the
      cursor in place, moves any other surviving item right after the last placed node, and
      creates a node for each new item there. */
  method CreateOrMove<T(==)>(prev: seq<T>, items: seq<T>, deleted: set<T>, parent: seq<NodeId>, ghost pre: seq<NodeId>, ph: NodeId,
                             ghost post: seq<NodeId>, nodes: map<T, NodeId>, disposers: map<T, seq<Disposer>>, next: NodeId,
                             make: T -> seq<Disposer>)
    returns (parent': seq<NodeId>, nodes': map<T, NodeId>, disposers': map<T, seq<Disposer>>, next': NodeId)
    requires Distinct(prev) && Distinct(items) && deleted == Elems(prev) - Elems(items)
    requires nodes.Keys == Elems(prev) * Elems(items) && disposers.Keys == nodes.Keys && Injective(nodes)
    requires forall y | y in Keep(prev, Elems(items)) :: y in nodes
    requires parent == pre + [ph] + Nodes(nodes, Keep(prev, Elems(items))) + post && Distinct(parent)
    requires (forall n | n in parent :: n < next) && (forall y | y in nodes :: nodes[y] < next)
    ensures forall y | y in items :: y in nodes'
    ensures nodes'.Keys == Elems(items) && disposers'.Keys == Elems(items) && Injective(nodes')
    ensures parent' == pre + [ph] + Nodes(nodes', items) + post && Distinct(parent')
    ensures (forall n | n in parent' :: n < next') && (forall y | y in nodes' :: nodes'[y] < next')
    ensures next' == next + |Keep(items, Elems(items) - Elems(prev))|
    ensures forall y | y in nodes :: nodes'[y] == nodes[y] && disposers'[y] == disposers[y]
    ensures forall y | y in items && y !in nodes :: disposers'[y] == make(y) && next <= nodes'[y]
  {
    ghost var f := Frame(prev, items, pre, ph, post, nodes, disposers, next, make);
    var prevI := SkipDeleted(prev, deleted, 0);
    StartOf(f, deleted, parent, prevI);
    ghost var created, last, a, b, eb;
    parent', nodes', disposers', next', prevI, last, created, a, b, eb :=
      PlaceAll(prev, items, make, f, deleted, parent, ph, nodes, disposers, next, prevI);
    EndOf(f, deleted, parent', nodes', disposers', next', created, prevI, last, a, b, eb);
  }

  /** The loop `items.forEach(...)` of the create-or-move pass. */
  method PlaceAll<T(==)>(prev: seq<T>, items: seq<T>, make: T -> seq<Disposer>, ghost f: Frame<T>, deleted: set<T>,
                         parent: seq<NodeId>, ph: NodeId, nodes: map<T, NodeId>, disposers: map<T, seq<Disposer>>, next: NodeId, prevI: nat)
    returns (parent': seq<NodeId>, nodes': map<T, NodeId>, disposers': map<T, seq<Disposer>>, next': NodeId, prevI': nat, last: NodeId,
             ghost created: seq<T>, ghost a: seq<T>, ghost b: seq<T>, ghost eb: set<T>)
    requires f.prev == prev && f.items == items && f.make == make && f.ph == ph
    requires Placing(f, deleted, parent, nodes, disposers, next, [], prevI, 0, ph, [], Keep(prev, Surv(f)), Surv(f))
    ensures Placing(f, deleted, parent', nodes', disposers', next', created, prevI', |items|, last, a, b, eb)
    ensures nodes'.Keys == Elems(items) && disposers'.Keys == Elems(items)
  {
    parent', nodes', disposers', next', prevI', last := parent, nodes, disposers, next, prevI, ph;
    created, a, b, eb := [], [], Keep(prev, Surv(f)), Surv(f);
    for j := 0 to |items|
      invariant Placing(f, deleted, parent', nodes', disposers', next', created, prevI', j, last, a, b, eb)
    {
      parent', nodes', disposers', next', prevI', last, created, a, b, eb :=
        PlaceItem(prev, items, make, f, deleted, parent', nodes', disposers', next', created, prevI', j, last, a, b, eb);
    }
    PlacedKeys(f, deleted, parent', nodes', disposers', next', created, prevI', last, a, b, eb);
  }

  /** Once every item is placed, the maps hold exactly the items. */
  lemma PlacedKeys<T>(f: Frame<T>, deleted: set<T>, parent: seq<NodeId>, nodes: map<T, NodeId>, disposers: map<T, seq<Disposer>>,
                      next: NodeId, created: seq<T>, prevI: nat, last: NodeId, a: seq<T>, b: seq<T>, eb: set<T>)
    requires Placing(f, deleted, parent, nodes, disposers, next, created, prevI, |f.items|, last, a, b, eb)
    ensures nodes.Keys == Elems(f.items) && disposers.Keys == Elems(f.items)
  {
    assert f.items[..|f.items|] == f.items;
  }

  /** The start of the pass, in the terms of `CreateOrMove`'s caller. */
  lemma StartOf<T>(f: Frame<T>, deleted: set<T>, parent: seq<NodeId>, prevI: nat)
    requires Distinct(f.prev) && Distinct(f.items) && deleted == Elems(f.prev) - Elems(f.items)
    requires f.nodes0.Keys == Elems(f.prev) * Elems(f.items) && f.disposers0.Keys == f.nodes0.Keys && Injective(f.nodes0)
    requires forall y | y in Keep(f.prev, Elems(f.items)) :: y in f.nodes0
    requires parent == f.pre + [f.ph] + Nodes(f.nodes0, Keep(f.prev, Elems(f.items))) + f.post && Distinct(parent)
    requires (forall n | n in parent :: n < f.next0) && (forall y | y in f.nodes0 :: f.nodes0[y] < f.next0)
    requires 0 <= prevI <= |f.prev|
    requires forall k | 0 <= k < prevI :: f.prev[k] in deleted
    requires prevI < |f.prev| ==> f.prev[prevI] !in deleted
    ensures Placing(f, deleted, parent, f.nodes0, f.disposers0, f.next0, [], prevI, 0, f.ph, [], Keep(f.prev, Surv(f)), Surv(f))
  {
    KeepAgree(f.prev, Elems(f.items), Surv(f));
    PlaceStart(f, deleted, parent, prevI);
  }

  /** The end of the pass, in the terms of `CreateOrMove`'s caller. */
  lemma EndOf<T>(f: Frame<T>, deleted: set<T>, parent: seq<NodeId>, nodes: map<T, NodeId>, disposers: map<T, seq<Disposer>>,
                 next: NodeId, created: seq<T>, prevI: nat, last: NodeId, a: seq<T>, b: seq<T>, eb: set<T>)
    requires Placing(f, deleted, parent, nodes, disposers, next, created, prevI, |f.items|, last, a, b, eb)
    requires f.nodes0.Keys == Elems(f.prev) * Elems(f.items)
    ensures forall y | y in f.items :: y in nodes
    ensures nodes.Keys == Elems(f.items) && disposers.Keys == Elems(f.items) && Injective(nodes)
    ensures parent == f.pre + [f.ph] + Nodes(nodes, f.items) + f.post && Distinct(parent)
    ensures (forall n | n in parent :: n < next) && (forall y | y in nodes :: nodes[y] < next)
    ensures next == f.next0 + |Keep(f.items, Elems(f.items) - Elems(f.prev))|
    ensures forall y | y in f.nodes0 :: nodes[y] == f.nodes0[y] && disposers[y] == f.disposers0[y]
    ensures forall y | y in f.items && y !in f.nodes0 :: disposers[y] == f.make(y) && f.next0 <= nodes[y]
  {
    EndPlacing(f, deleted, parent, nodes, next, last, prevI, a, b, eb);
    EndBooks(f, nodes, disposers, next, created);
  }

  /** The bookkeeping once every item is placed. */
  lemma EndBooks<T>(f: Frame<T>, nodes: map<T, NodeId>, disposers: map<T, seq<Disposer>>, next: NodeId, created: seq<T>)
    requires Books(f, nodes, disposers, next, created, |f.items|)
    requires nodes.Keys == Elems(f.items) && f.nodes0.Keys == Elems(f.prev) * Elems(f.items)
    ensures disposers.Keys == Elems(f.items)
    ensures next == f.next0 + |Keep(f.items, Elems(f.items) - Elems(f.prev))|
    ensures forall y | y in f.nodes0 :: nodes[y] == f.nodes0[y] && disposers[y] == f.disposers0[y]
    ensures forall y | y in f.items && y !in f.nodes0 :: disposers[y] == f.make(y) && f.next0 <= nodes[y]
  {
    assert f.items[..|f.items|] == f.items;
    forall y | y in f.items && y !in f.nodes0
      ensures y in nodes && y in New(f)
    {
      assert y in Elems(f.items);
    }
  }

  /** On the first run nothing is deleted and nothing survives: every item is created. */
  lemma FirstFresh<T>(f: Frame<T>, deleted: set<T>, parent: seq<NodeId>, nodes: map<T, NodeId>, disposers: map<T, seq<Disposer>>,
                      next: NodeId, created: seq<T>, prevI: nat, j: nat, last: NodeId, a: seq<T>, b: seq<T>, eb: set<T>)
    requires Placing(f, deleted, parent, nodes, disposers, next, created, prevI, j, last, a, b, eb)
    requires f.prev == [] && j < |f.items|
    ensures f.items[j] !in nodes
  {
    assert f.items[j] !in f.items[..j];
  }

  /** The first run: every item gets a node, placed in order right after the placeholder. */
  method FirstRun<T(==)>(items: seq<T>, parent: seq<NodeId>, ghost pre: seq<NodeId>, ph: NodeId, ghost post: seq<NodeId>,
                         next: NodeId, make: T -> seq<Disposer>)
    returns (parent': seq<NodeId>, nodes': map<T, NodeId>, disposers': map<T, seq<Disposer>>, next': NodeId)
    requires Distinct(items)
    requires parent == pre + [ph] + post && Distinct(parent) && forall n | n in parent :: n < next
    ensures forall y | y in items :: y in nodes'
    ensures nodes'.Keys == Elems(items) && disposers'.Keys == Elems(items) && Injective(nodes')
    ensures parent' == pre + [ph] + Nodes(nodes', items) + post && Distinct(parent')
    ensures (forall n | n in parent' :: n < next') && (forall y | y in nodes' :: nodes'[y] < next')
    ensures next' == next + |items|
    ensures forall y | y in items :: disposers'[y] == make(y) && next <= nodes'[y]
  {
    ghost var f := Frame([], items, pre, ph, post, map[], map[], next, make);
    assert Nodes(map[], Keep([], Surv(f))) == [];
    PlaceStart(f, {}, parent, 0);
    ghost var created, last, a, b, eb;
    parent', nodes', disposers', next', last, created, a, b, eb := CreateAll(items, make, f, parent, ph, next);
    EndOf(f, {}, parent', nodes', disposers', next', created, 0, last, a, b, eb);
    KeepAll(items, Elems(items) - Elems(f.prev));
  }

  /** The loop of the first run: every item is created in turn. */
  method CreateAll<T(==)>(items: seq<T>, make: T -> seq<Disposer>, ghost f: Frame<T>, parent: seq<NodeId>, ph: NodeId, next: NodeId)
    returns (parent': seq<NodeId>, nodes': map<T, NodeId>, disposers': map<T, seq<Disposer>>, next': NodeId, last: NodeId,
             ghost created: seq<T>, ghost a: seq<T>, ghost b: seq<T>, ghost eb: set<T>)
    requires f.prev == [] && f.items == items && f.make == make && f.ph == ph
    requires Placing(f, {}, parent, map[], map[], next, [], 0, 0, ph, [], Keep([], Surv(f)), Surv(f))
    ensures Placing(f, {}, parent', nodes', disposers', next', created, 0, |items|, last, a, b, eb)
    ensures nodes'.Keys == Elems(items) && disposers'.Keys == Elems(items)
  {
    parent', nodes', disposers', next', last := parent, map[], map[], next, ph;
    created, a, b, eb := [], [], Keep([], Surv(f)), Surv(f);
    for j := 0 to |items|
      invariant Placing(f, {}, parent', nodes', disposers', next', created, 0, j, last, a, b, eb)
    {
      var item := items[j];
      FirstFresh(f, {}, parent', nodes', disposers', next', created, 0, j, last, a, b, eb);
      PlaceCreate(f, {}, parent', nodes', disposers', next', created, 0, j, last, a, b, eb);
      nodes' := nodes'[item := next'];
      disposers' := disposers'[item := make(item)];
      parent' := After(parent', last, next');
      last := next';
      next' := next' + 1;
      created := created + [item];
      a := a + [item];
    }
    PlacedKeys(f, {}, parent', nodes', disposers', next', created, 0, last, a, b, eb);
  }

  // ---------------------------------------------------------------------------------------
  // `dynList`: the reconciler across deliveries

  /** The closure state of one mounted `dynList`: `prevItems` (`null` before the first run),
      `childNodes` and `childDisposes`. */
  datatype ListState<T> = ListState(prevItems: Option<seq<T>>, childNodes: map<T, NodeId>, childDisposes: map<T, seq<Disposer>>)

  /** The items the list currently shows. */
  function Shown<T>(st: ListState<T>): seq<T> {
    if st.prevItems.Some? then st.prevItems.value else []
  }

  /** Between deliveries the list's children sit right after the placeholder `ph`, one node
      per shown item and in the items' order, amid the parent's other children `pre` and
      `post`; every node id in use is below `next`. */
  ghost predicate Laid<T>(st: ListState<T>, parent: seq<NodeId>, pre: seq<NodeId>, ph: NodeId, post: seq<NodeId>, next: NodeId) {
    && Distinct(Shown(st))
    && (forall y | y in Shown(st) :: y in st.childNodes)
    && st.childNodes.Keys == Elems(Shown(st)) && st.childDisposes.Keys == Elems(Shown(st))
    && Injective(st.childNodes)
    && parent == pre + [ph] + Nodes(st.childNodes, Shown(st)) + post
    && Distinct(parent)
    && (forall n | n in parent :: n < next) && (forall y | y in st.childNodes :: st.childNodes[y] < next)
  }

  /** `append(parent)` of `dynList`: a fresh comment node is appended as the placeholder. */
  method MountList<T>(parent: seq<NodeId>, next: NodeId) returns (st: ListState<T>, parent': seq<NodeId>, ph: NodeId, next': NodeId)
    requires Distinct(parent) && forall n | n in parent :: n < next
    ensures st.prevItems == None && parent' == parent + [ph] && next' == next + 1
    ensures Laid(st, parent', parent, ph, [], next')
  {
    st := ListState(None, map[], map[]);
    ph := next;
    parent' := AppendChild(parent, ph);
    next' := next + 1;
    DeleteAbsent(parent, ph);
    assert Nodes(st.childNodes, Shown(st)) == [];
  }

  /** One delivery of `items` to the subscriber of `dynList`. Afterwards the list shows
      exactly `items`, in order; surviving items keep their node and disposers, new ones get
      fresh nodes and `make`'s disposers, and the disposers of dropped items have run in the
      previous order. `ran` is what ran. */
  method DeliverList<T(==)>(st: ListState<T>, parent: seq<NodeId>, ghost pre: seq<NodeId>, ph: NodeId, ghost post: seq<NodeId>,
                            next: NodeId, items: seq<T>, make: T -> seq<Disposer>)
    returns (st': ListState<T>, parent': seq<NodeId>, next': NodeId, ran: seq<Disposer>)
    requires Laid(st, parent, pre, ph, post, next) && Distinct(items)
    ensures Laid(st', parent', pre, ph, post, next') && st'.prevItems == Some(items)
    ensures parent' == pre + [ph] + Nodes(st'.childNodes, items) + post
    ensures forall y | y in st.childNodes && y in items :: st'.childNodes[y] == st.childNodes[y] && st'.childDisposes[y] == st.childDisposes[y]
    ensures forall y | y in items && y !in st.childNodes :: st'.childDisposes[y] == make(y) && next <= st'.childNodes[y] < next'
    ensures next' == next + |Keep(items, Elems(items) - Elems(Shown(st)))|
    ensures forall y | y in Keep(Shown(st), Elems(Shown(st)) - Elems(items)) :: y in st.childDisposes
    ensures ran == DisposersOf(st.childDisposes, Keep(Shown(st), Elems(Shown(st)) - Elems(items)))
    ensures Shown(st) == items ==> parent' == parent && ran == [] && next' == next
  {
    if st.prevItems == None {
      var nodes, disposers;
      parent', nodes, disposers, next' := FirstRun(items, parent, pre, ph, post, next, make);
      st' := ListState(Some(items), nodes, disposers);
      ran := [];
      KeepAll(items, Elems(items) - Elems(Shown(st)));
    } else {
      var prev := st.prevItems.value;
      var parent1, nodes1, disposers1, deleted;
      parent1, nodes1, disposers1, deleted, ran := DeletePass(prev, items, parent, pre, ph, post, st.childNodes, st.childDisposes);
      var nodes2, disposers2;
      parent', nodes2, disposers2, next' := CreateOrMove(prev, items, deleted, parent1, pre, ph, post, nodes1, disposers1, next, make);
      st' := ListState(Some(items), nodes2, disposers2);
      KeepAgree(items, Elems(items) - Elems(prev), Elems(items) - nodes1.Keys);
    }
    if Shown(st) == items {
      NodesSame(st.childNodes, st'.childNodes, items);
      KeepNone(items, Elems(items) - Elems(items));
    }
  }

  // ---------------------------------------------------------------------------------------
  // `dynIf`

  /** The closure state of one mounted `dynIf`: `childElement`, `childDisposes` and
      `prevValue` (`null` before the first delivery). */
  datatype IfState = IfState(childElement: Option<NodeId>, childDisposes: seq<Disposer>, prevValue: Option<bool>)

  /** The outcome of mounting or of one delivery: the new closure state, the parent's
      children, the next fresh node id and the disposers that ran. */
  datatype IfStep = IfStep(st: IfState, parent: seq<NodeId>, next: NodeId, ran: seq<Disposer>)

  /** The child nodes `dynIf` contributes: the child, if there is one, then the placeholder. */
  function IfNodes(st: IfState, ph: NodeId): seq<NodeId> {
    (if st.childElement.Some? then [st.childElement.value] else []) + [ph]
  }

  /** Between deliveries the child, if any, sits right before the placeholder, and there is a
      child exactly when the last value delivered was `true`. */
  ghost predicate IfLaid(st: IfState, parent: seq<NodeId>, pre: seq<NodeId>, ph: NodeId, post: seq<NodeId>, next: NodeId) {
    && parent == pre + IfNodes(st, ph) + post
    && Distinct(parent) && (forall n | n in parent :: n < next)
    && (st.childElement.Some? <==> st.prevValue == Some(true))
    && (st.childElement == None ==> st.childDisposes == [])
  }

  /** `append(parent)` of `dynIf`: a fresh comment node is appended as the placeholder. */
  function MountIf(parent: seq<NodeId>, next: NodeId): (r: IfStep)
    requires Distinct(parent) && forall n | n in parent :: n < next
    ensures r.st.prevValue == None && r.ran == [] && r.next == next + 1
    ensures IfLaid(r.st, r.parent, parent, next, [], r.next)
  {
    DeleteAbsent(parent, next);
    IfStep(IfState(None, [], None), AppendChild(parent, next), next + 1, [])
  }

  /** One delivery of `value` to the subscriber of `dynIf`. A repeated value does nothing;
      `true` creates the child (node `next`, disposers `made`) right before the placeholder;
      `false` removes the child, if there is one, and runs its disposers. */
  function DeliverIf(st: IfState, parent: seq<NodeId>, ph: NodeId, next: NodeId, value: bool, made: seq<Disposer>): (r: IfStep)
    requires ph in parent && ph != next
    ensures r.st.prevValue == Some(value)
    ensures r.ran != [] ==> !value && st.childElement.Some? && r.ran == st.childDisposes
    ensures r.next == next || r.next == next + 1
  {
    if st.prevValue == Some(value) then IfStep(st, parent, next, [])
    else if value then IfStep(IfState(Some(next), made, Some(true)), InsertBefore(parent, next, ph), next + 1, [])
    else if st.childElement.Some? then IfStep(IfState(None, [], Some(false)), RemoveChild(parent, st.childElement.value), next, st.childDisposes)
    else IfStep(st.(prevValue := Some(false)), parent, next, [])
  }

  /** Inserting a fresh node before the placeholder. */
  lemma BeforePlaceholder(pre: seq<NodeId>, ph: NodeId, post: seq<NodeId>, n: NodeId)
    requires Distinct(pre + [ph] + post) && n !in pre + [ph] + post
    ensures InsertBefore(pre + [ph] + post, n, ph) == pre + [n, ph] + post
  {
    assert ph !in pre by {
      assert forall i | 0 <= i < |pre| :: (pre + [ph] + post)[i] == pre[i];
      assert (pre + [ph] + post)[|pre|] == ph;
    }
    BeforeSplit(pre, ph, post, n);
    DeleteAbsent(pre, n);
    DeleteAbsent(post, n);
  }

  /** A node of a duplicate-free list occurs neither before nor after its position. */
  lemma Lone(pre: seq<NodeId>, n: NodeId, post: seq<NodeId>)
    requires Distinct(pre + [n] + post)
    ensures n !in pre && n !in post
  {
    DistinctConcat(pre + [n], post);
    DistinctConcat(pre, [n]);
  }

  /** Turning the value `true` creates the child right before the placeholder. */
  lemma IfOnLaid(st: IfState, parent: seq<NodeId>, pre: seq<NodeId>, ph: NodeId, post: seq<NodeId>, next: NodeId, made: seq<Disposer>)
    requires IfLaid(st, parent, pre, ph, post, next) && st.prevValue != Some(true)
    ensures ph in parent && ph != next
    ensures var r := DeliverIf(st, parent, ph, next, true, made);
      && r == IfStep(IfState(Some(next), made, Some(true)), pre + [next, ph] + post, next + 1, [])
      && IfLaid(r.st, r.parent, pre, ph, post, r.next)
  {
    assert IfNodes(st, ph) == [ph];
    assert next !in parent;
    BeforePlaceholder(pre, ph, post, next);
    var r := DeliverIf(st, parent, ph, next, true, made);
    assert IfNodes(r.st, ph) == [next, ph];
    assert pre + [next, ph] + post == pre + IfNodes(r.st, ph) + post;
    assert forall n | n in r.parent :: n in parent || n == next;
  }

  /** Turning the value `false` removes the child and runs its disposers. */
  lemma IfOffLaid(st: IfState, parent: seq<NodeId>, pre: seq<NodeId>, ph: NodeId, post: seq<NodeId>, next: NodeId, made: seq<Disposer>)
    requires IfLaid(st, parent, pre, ph, post, next) && st.prevValue != Some(false)
    ensures ph in parent && ph != next
    ensures var r := DeliverIf(st, parent, ph, next, false, made);
      && r == IfStep(IfState(None, [], Some(false)), pre + [ph] + post, next, st.childDisposes)
      && IfLaid(r.st, r.parent, pre, ph, post, r.next)
  {
    assert ph in IfNodes(st, ph);
    if st.childElement.Some? {
      var c := st.childElement.value;
      assert parent == pre + [c] + ([ph] + post);
      Lone(pre, c, [ph] + post);
      RemoveAt(pre, c, [ph] + post);
    } else {
      assert IfNodes(st, ph) == [ph];
    }
  }

  /** What a delivery does to a mounted `dynIf`: the child is there exactly when `value` is
      `true`, right before the placeholder; it is created only when the value turns `true` and
      kept while it stays `true`; turning `false` runs exactly the child's disposers. */
  lemma DeliverIfLaid(st: IfState, parent: seq<NodeId>, pre: seq<NodeId>, ph: NodeId, post: seq<NodeId>, next: NodeId,
                      value: bool, made: seq<Disposer>)
    requires IfLaid(st, parent, pre, ph, post, next)
    ensures ph in parent && ph != next
    ensures var r := DeliverIf(st, parent, ph, next, value, made);
      && IfLaid(r.st, r.parent, pre, ph, post, r.next)
      && (r.st.childElement.Some? <==> value)
      && (value && st.prevValue != Some(true) ==> r.st.childElement == Some(next) && r.st.childDisposes == made && r.next == next + 1)
      && (value && st.prevValue == Some(true) ==> r.st == st && r.parent == parent)
      && r.ran == (if value then [] else st.childDisposes)
  {
    assert ph in IfNodes(st, ph);
    if value && st.prevValue != Some(true) {
      IfOnLaid(st, parent, pre, ph, post, next, made);
    } else if !value && st.prevValue != Some(false) {
      IfOffLaid(st, parent, pre, ph, post, next, made);
    }
  }

  /** Switching a child on and off again leaves the parent as it was and runs exactly the
      disposers the child was created with. */
  lemma IfOnOff(st: IfState, parent: seq<NodeId>, pre: seq<NodeId>, ph: NodeId, post: seq<NodeId>, next: NodeId,
                made: seq<Disposer>, made': seq<Disposer>)
    requires IfLaid(st, parent, pre, ph, post, next) && st.prevValue != Some(true)
    ensures ph in parent && ph != next
    ensures var on := DeliverIf(st, parent, ph, next, true, made);
      && ph in on.parent && ph != on.next
      && var off := DeliverIf(on.st, on.parent, ph, on.next, false, made');
      && off.parent == parent && off.ran == made && off.st.childElement == None
  {
    IfOnLaid(st, parent, pre, ph, post, next, made);
    var on := DeliverIf(st, parent, ph, next, true, made);
    IfOffLaid(on.st, on.parent, pre, ph, post, on.next, made');
    assert IfNodes(st, ph) == [ph];
  }

  /** Delivering the same value twice is the same as delivering it once. */
  lemma IfRepeat(st: IfState, parent: seq<NodeId>, pre: seq<NodeId>, ph: NodeId, post: seq<NodeId>, next: NodeId,
                 value: bool, made: seq<Disposer>, made': seq<Disposer>)
    requires IfLaid(st, parent, pre, ph, post, next)
    ensures ph in parent && ph != next
    ensures var r := DeliverIf(st, parent, ph, next, value, made);
      && ph in r.parent && ph != r.next
      && DeliverIf(r.st, r.parent, ph, r.next, value, made') == IfStep(r.st, r.parent, r.next, [])
  {
    DeliverIfLaid(st, parent, pre, ph, post, next, value, made);
    var r := DeliverIf(st, parent, ph, next, value, made);
    DeliverIfLaid(r.st, r.parent, pre, ph, post, r.next, value, made');
  }
}
