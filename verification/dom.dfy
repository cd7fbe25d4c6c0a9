/** The slice of the DOM that src/dynamic_dom.js touches: a parent's child list as a sequence
    of node ids, and the three mutations the reconciler uses on it. */
module Dom {
  import opened Seqs

  type NodeId = nat

  /** `ref.after(n)`: `n` leaves its current place, if it has one, and is inserted right after
      `ref`; every other node keeps its order. */
  function After(s: seq<NodeId>, ref: NodeId, n: NodeId): (r: seq<NodeId>)
    requires ref in s && ref != n
    ensures Elems(r) == Elems(s) + {n}
    ensures Distinct(s) ==> Distinct(r)
    ensures var i := IndexOf(s, ref);
      r == Delete(s[..i + 1], n) + [n] + Delete(s[i + 1..], n)
  {
    var t := Delete(s, n);
    assert ref in Elems(t);
    var k := IndexOf(t, ref);
    AfterShape(s, ref, n);
    t[..k + 1] + [n] + t[k + 1..]
  }

  /** `parent.insertBefore(n, ref)`: `n` leaves its current place, if it has one, and is
      inserted right before `ref`; every other node keeps its order. */
  function InsertBefore(s: seq<NodeId>, n: NodeId, ref: NodeId): (r: seq<NodeId>)
    requires ref in s && ref != n
    ensures Elems(r) == Elems(s) + {n}
    ensures Distinct(s) ==> Distinct(r)
    ensures var i := IndexOf(s, ref);
      r == Delete(s[..i], n) + [n, ref] + Delete(s[i + 1..], n)
  {
    var t := Delete(s, n);
    assert ref in Elems(t);
    var k := IndexOf(t, ref);
    Spliced(t, k, n);
    BeforeShape(s, ref, n);
    t[..k] + [n] + t[k..]
  }

  /** The list `After` builds, in terms of the first occurrence of `ref` in `s`. */
  lemma AfterShape(s: seq<NodeId>, ref: NodeId, n: NodeId)
    requires ref in s && ref != n
    ensures var i, t := IndexOf(s, ref), Delete(s, n);
      ref in t && var k := IndexOf(t, ref);
      var r := t[..k + 1] + [n] + t[k + 1..];
      && Elems(r) == Elems(s) + {n}
      && (Distinct(s) ==> Distinct(r))
      && r == Delete(s[..i + 1], n) + [n] + Delete(s[i + 1..], n)
  {
    AroundFirst(s, ref, n);
    var i, t := IndexOf(s, ref), Delete(s, n);
    var dx, dy := Delete(s[..i], n), Delete(s[i + 1..], n);
    Spliced(t, |dx| + 1, n);
    assert t[..|dx| + 1] == dx + [ref] && t[|dx| + 1..] == dy;
  }

  /** The list `InsertBefore` builds, in terms of the first occurrence of `ref` in `s`. */
  lemma BeforeShape(s: seq<NodeId>, ref: NodeId, n: NodeId)
    requires ref in s && ref != n
    ensures var i, t := IndexOf(s, ref), Delete(s, n);
      ref in t && var k := IndexOf(t, ref);
      t[..k] + [n] + t[k..] == Delete(s[..i], n) + [n, ref] + Delete(s[i + 1..], n)
  {
    AroundFirst(s, ref, n);
    var i := IndexOf(s, ref);
    SpliceBefore(Delete(s[..i], n), ref, Delete(s[i + 1..], n), n);
  }

  /** Deleting `n` keeps the first `ref` and splits the rest around it. */
  lemma AroundFirst(s: seq<NodeId>, ref: NodeId, n: NodeId)
    requires ref in s && ref != n
    ensures var i, t := IndexOf(s, ref), Delete(s, n);
      var dx, dy := Delete(s[..i], n), Delete(s[i + 1..], n);
      ref in t && t == dx + [ref] + dy && IndexOf(t, ref) == |dx|
      && Delete(s[..i + 1], n) == dx + [ref]
  {
    var i := IndexOf(s, ref);
    var x, y := s[..i], s[i + 1..];
    assert s == x + [ref] + y;
    assert s[..i + 1] == x + [ref];
    DeleteAround(x, ref, y, n);
    IndexOfSplit(Delete(x, n), ref, Delete(y, n));
    DeleteSnoc(x, ref, n);
  }

  /** `parent.appendChild(n)`: `n` leaves its current place, if it has one, and becomes the
      last child. */
  function AppendChild(s: seq<NodeId>, n: NodeId): (r: seq<NodeId>)
    ensures Elems(r) == Elems(s) + {n} && r[|r| - 1] == n
    ensures Distinct(s) ==> Distinct(r)
  {
    var t := Delete(s, n);
    Spliced(t, |t|, n);
    assert t[..|t|] + [n] + t[|t|..] == t + [n];
    t + [n]
  }

  /** `parent.removeChild(n)`. */
  function RemoveChild(s: seq<NodeId>, n: NodeId): (r: seq<NodeId>)
    ensures Elems(r) == Elems(s) - {n}
    ensures Distinct(s) ==> Distinct(r)
  {
    Delete(s, n)
  }

  lemma Spliced(t: seq<NodeId>, i: nat, n: NodeId)
    requires i <= |t|
    ensures Elems(t[..i] + [n] + t[i..]) == Elems(t) + {n}
    ensures Distinct(t) && n !in t ==> Distinct(t[..i] + [n] + t[i..])
  {
    assert t == t[..i] + t[i..];
    ElemsConcat(t[..i], t[i..]);
    ElemsConcat(t[..i] + [n], t[i..]);
    ElemsConcat(t[..i], [n]);
    if Distinct(t) && n !in t {
      var r := t[..i] + [n] + t[i..];
      forall p, q | 0 <= p < q < |r|
        ensures r[p] != r[q]
      {
        if p < i && q > i {
          assert r[q] == t[q - 1];
        } else if p > i {
          assert r[p] == t[p - 1] && r[q] == t[q - 1];
        }
      }
    }
  }

  /** The first occurrence of `x` in `a + [x] + b`, when `a` lacks it, is at `|a|`. */
  lemma IndexOfSplit<T>(a: seq<T>, x: T, b: seq<T>)
    requires x !in a
    ensures IndexOf(a + [x] + b, x) == |a|
    decreases a
  {
    if a != [] {
      assert (a + [x] + b)[1..] == a[1..] + [x] + b;
      IndexOfSplit(a[1..], x, b);
    }
  }

  /** Deleting a node other than `m` from `x + [m] + y`. */
  lemma DeleteAround(x: seq<NodeId>, m: NodeId, y: seq<NodeId>, n: NodeId)
    requires m != n
    ensures Delete(x + [m] + y, n) == Delete(x, n) + [m] + Delete(y, n)
  {
    DeleteConcat(x + [m], y, n);
    DeleteSnoc(x, m, n);
  }

  /** Deleting from a list whose last element is kept. */
  lemma DeleteSnoc(x: seq<NodeId>, m: NodeId, n: NodeId)
    requires m != n
    ensures Delete(x + [m], n) == Delete(x, n) + [m]
  {
    DeleteConcat(x, [m], n);
    assert Delete([m], n) == [m] + Delete([], n);
  }

  /** Inserting after a node `m` whose first occurrence splits the list into `x` and `y`. */
  lemma AfterSplit(x: seq<NodeId>, m: NodeId, y: seq<NodeId>, n: NodeId)
    requires m !in x && m != n
    ensures After(x + [m] + y, m, n) == Delete(x + [m], n) + [n] + Delete(y, n)
  {
    var dx, dy := Delete(x, n), Delete(y, n);
    var t := dx + [m] + dy;
    DeleteAround(x, m, y, n);
    IndexOfSplit(dx, m, dy);
    assert t[..|dx| + 1] == dx + [m] && t[|dx| + 1..] == dy;
    DeleteSnoc(x, m, n);
  }

  /** Inserting after the last node of a prefix `front` of a duplicate-free list. */
  lemma AfterFront(front: seq<NodeId>, back: seq<NodeId>, n: NodeId)
    requires front != [] && Distinct(front + back) && front[|front| - 1] != n
    ensures front[|front| - 1] in front + back
    ensures After(front + back, front[|front| - 1], n) == Delete(front, n) + [n] + Delete(back, n)
  {
    var k := |front| - 1;
    var init, last := front[..k], front[k];
    assert front == init + [last];
    assert last !in init by {
      assert forall i | 0 <= i < k :: (front + back)[i] == init[i];
      assert (front + back)[k] == last;
    }
    AfterSplit(init, last, back, n);
  }

  /** Inserting before a node `m` whose first occurrence splits the list into `x` and `y`. */
  lemma BeforeSplit(x: seq<NodeId>, m: NodeId, y: seq<NodeId>, n: NodeId)
    requires m !in x && m != n
    ensures InsertBefore(x + [m] + y, n, m) == Delete(x, n) + [n, m] + Delete(y, n)
  {
    var dx, dy := Delete(x, n), Delete(y, n);
    DeleteAround(x, m, y, n);
    IndexOfSplit(dx, m, dy);
    SpliceBefore(dx, m, dy, n);
  }

  /** Splicing `n` in at the position of `m`. */
  lemma SpliceBefore(dx: seq<NodeId>, m: NodeId, dy: seq<NodeId>, n: NodeId)
    ensures var t := dx + [m] + dy; t[..|dx|] + [n] + t[|dx|..] == dx + [n, m] + dy
  {
    var t := dx + [m] + dy;
    assert t[..|dx|] == dx && t[|dx|..] == [m] + dy;
    Regroup(dx, n, m, dy);
  }

  lemma Regroup(a: seq<NodeId>, n: NodeId, m: NodeId, b: seq<NodeId>)
    ensures a + [n] + ([m] + b) == a + [n, m] + b
  {
    assert [n] + ([m] + b) == [n, m] + b;
  }

  /** Removing a node that occurs once. */
  lemma RemoveAt(a: seq<NodeId>, n: NodeId, b: seq<NodeId>)
    requires n !in a && n !in b
    ensures RemoveChild(a + [n] + b, n) == a + b
  {
    DeleteConcat(a + [n], b, n);
    DeleteConcat(a, [n], n);
    assert Delete([n], n) == [];
    DeleteAbsent(a, n);
    DeleteAbsent(b, n);
    assert Delete(a + [n], n) == a;
  }

  // ---------------------------------------------------------------------------------------
  // Items and their nodes

  /** No two keys share a node. */
  predicate Injective<T>(m: map<T, NodeId>) {
    forall x, y | x in m && y in m && x != y :: m[x] != m[y]
  }

  /** The nodes of the items `xs`, in order. */
  function Nodes<T>(m: map<T, NodeId>, xs: seq<T>): (r: seq<NodeId>)
    requires forall x | x in xs :: x in m
    ensures |r| == |xs| && forall k | 0 <= k < |xs| :: r[k] == m[xs[k]]
  {
    seq(|xs|, k requires 0 <= k < |xs| => m[xs[k]])
  }

  lemma NodesConcat<T>(m: map<T, NodeId>, a: seq<T>, b: seq<T>)
    requires forall x | x in a + b :: x in m
    ensures Nodes(m, a + b) == Nodes(m, a) + Nodes(m, b)
  {
    assert forall x | x in a :: x in a + b;
    assert forall x | x in b :: x in a + b;
  }

  /** Two maps that agree on the items give the same nodes. */
  lemma NodesSame<T>(m1: map<T, NodeId>, m2: map<T, NodeId>, xs: seq<T>)
    requires forall x | x in xs :: x in m1 && x in m2 && m1[x] == m2[x]
    ensures Nodes(m1, xs) == Nodes(m2, xs)
  {
  }

  /** With no shared nodes, removing an item's node removes the item. */
  lemma {:induction false} NodesDelete<T>(m: map<T, NodeId>, xs: seq<T>, x: T)
    requires x in m && Injective(m) && forall y | y in xs :: y in m
    ensures Delete(Nodes(m, xs), m[x]) == Nodes(m, Delete(xs, x))
    decreases xs
  {
    if xs != [] {
      var rest := Delete(xs[1..], x);
      assert forall y | y in xs[1..] :: y in xs;
      NodesDelete(m, xs[1..], x);
      assert Nodes(m, xs)[1..] == Nodes(m, xs[1..]);
      if xs[0] != x {
        NodesCons(m, xs[0], rest);
      }
    }
  }

  lemma NodesCons<T>(m: map<T, NodeId>, x: T, xs: seq<T>)
    requires x in m && forall y | y in xs :: y in m
    ensures forall y | y in [x] + xs :: y in m
    ensures Nodes(m, [x] + xs) == [m[x]] + Nodes(m, xs)
  {
  }

  /** A node no item maps to is not among the items' nodes. */
  lemma NodesMiss<T>(m: map<T, NodeId>, xs: seq<T>, n: NodeId)
    requires forall x | x in xs :: x in m
    requires forall x | x in m :: m[x] != n
    ensures n !in Nodes(m, xs)
  {
  }
}
