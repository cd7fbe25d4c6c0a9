/** Sequences used as insertion-ordered sets (the iteration order of a JavaScript `Set`),
    and the filters the reconciler and the notifier are specified with. */
module Seqs {

  /** No element occurs twice. */
  predicate Distinct<T(==)>(s: seq<T>) {
    forall i, j | 0 <= i < j < |s| :: s[i] != s[j]
  }

  /** The elements of a sequence, as a set. */
  function Elems<T>(s: seq<T>): set<T> {
    set x | x in s
  }

  lemma ElemsConcat<T>(a: seq<T>, b: seq<T>)
    ensures Elems(a + b) == Elems(a) + Elems(b)
  {
  }

  lemma ConsDistinct<T>(x: T, s: seq<T>)
    requires Distinct(s) && x !in s
    ensures Distinct([x] + s)
  {
  }

  /** `Set.prototype.add`: appends `x` unless it is already present. */
  function Insert<T(==)>(s: seq<T>, x: T): (r: seq<T>)
    ensures Elems(r) == Elems(s) + {x}
    ensures s <= r && |r| <= |s| + 1
    ensures Distinct(s) ==> Distinct(r)
  {
    if x in s then s else s + [x]
  }

  /** `Set.prototype.delete`: removes `x`, keeping the order of the others. */
  function Delete<T(==)>(s: seq<T>, x: T): (r: seq<T>)
    ensures Elems(r) == Elems(s) - {x}
    ensures forall y | y in r :: y in s && y != x
    ensures |r| <= |s|
    ensures Distinct(s) ==> Distinct(r)
  {
    if s == [] then []
    else
      var rest := Delete(s[1..], x);
      assert s == [s[0]] + s[1..];
      ElemsConcat([s[0]], s[1..]);
      if s[0] == x then rest
      else
        ElemsConcat([s[0]], rest);
        assert Distinct(s) ==> s[0] !in s[1..];
        assert Distinct(s) ==> Distinct([s[0]] + rest) by {
          if Distinct(s) {
            assert Distinct(s[1..]) && s[0] !in Elems(rest);
            ConsDistinct(s[0], rest);
          }
        }
        [s[0]] + rest
  }

  /** Adds every element of `xs`, in order, as repeated `Set.prototype.add` calls do. */
  function AddAll<T(==)>(s: seq<T>, xs: seq<T>): (r: seq<T>)
    ensures s <= r
    ensures Elems(r) == Elems(s) + Elems(xs)
    ensures Distinct(s) ==> Distinct(r)
    decreases xs
  {
    if xs == [] then s else AddAll(Insert(s, xs[0]), xs[1..])
  }

  /** The elements of `s` that belong to `keep`, in their order in `s`. */
  function Keep<T>(s: seq<T>, keep: set<T>): (r: seq<T>)
    ensures Elems(r) == Elems(s) * keep
    ensures |r| <= |s|
  {
    if s == [] then []
    else
      assert s == s[..|s| - 1] + [s[|s| - 1]];
      ElemsConcat(s[..|s| - 1], [s[|s| - 1]]);
      var tail := if s[|s| - 1] in keep then [s[|s| - 1]] else [];
      ElemsConcat(Keep(s[..|s| - 1], keep), tail);
      Keep(s[..|s| - 1], keep) + (if s[|s| - 1] in keep then [s[|s| - 1]] else [])
  }

  /** Concatenation of a sequence of sequences. */
  function Flatten<T>(ss: seq<seq<T>>): seq<T> {
    if ss == [] then [] else ss[0] + Flatten(ss[1..])
  }

  lemma FlattenCons<T>(s: seq<T>, ss: seq<seq<T>>)
    ensures Flatten([s] + ss) == s + Flatten(ss)
  {
    assert ([s] + ss)[1..] == ss;
  }

  /** Index of the first occurrence of `x`. */
  function IndexOf<T(==)>(s: seq<T>, x: T): (i: nat)
    requires x in s
    ensures i < |s| && s[i] == x && x !in s[..i]
  {
    if s[0] == x then 0 else 1 + IndexOf(s[1..], x)
  }

  lemma {:induction false} AddAllConcat<T>(s: seq<T>, xs: seq<T>, ys: seq<T>)
    ensures AddAll(AddAll(s, xs), ys) == AddAll(s, xs + ys)
    decreases xs
  {
    if xs == [] {
      assert xs + ys == ys;
    } else {
      assert (xs + ys)[0] == xs[0];
      assert (xs + ys)[1..] == xs[1..] + ys;
      AddAllConcat(Insert(s, xs[0]), xs[1..], ys);
    }
  }

  lemma {:induction false} AddAllPresent<T>(s: seq<T>, xs: seq<T>)
    requires forall x | x in xs :: x in s
    ensures AddAll(s, xs) == s
    decreases xs
  {
    if xs != [] {
      AddAllPresent(s, xs[1..]);
    }
  }

  lemma {:induction false} FlattenAppend<T>(ss: seq<seq<T>>, t: seq<T>)
    ensures Flatten(ss + [t]) == Flatten(ss) + t
    decreases ss
  {
    if ss == [] {
      assert [] + [t] == [t];
    } else {
      assert (ss + [t])[1..] == ss[1..] + [t];
      FlattenAppend(ss[1..], t);
    }
  }

  lemma {:induction false} FlattenEmpties<T>(ss: seq<seq<T>>)
    requires forall k | 0 <= k < |ss| :: ss[k] == []
    ensures Flatten(ss) == []
    decreases ss
  {
    if ss != [] {
      FlattenEmpties(ss[1..]);
    }
  }

  lemma {:induction false} KeepConcat<T>(a: seq<T>, b: seq<T>, keep: set<T>)
    ensures Keep(a + b, keep) == Keep(a, keep) + Keep(b, keep)
    decreases b
  {
    if b == [] {
      assert a + b == a;
    } else {
      var b' := b[..|b| - 1];
      assert (a + b)[..|a + b| - 1] == a + b';
      KeepConcat(a, b', keep);
    }
  }

  lemma KeepDistinct<T>(s: seq<T>, keep: set<T>)
    requires Distinct(s)
    ensures Distinct(Keep(s, keep))
    decreases s
  {
    if s != [] {
      var t := s[..|s| - 1];
      KeepDistinct(t, keep);
      assert s[|s| - 1] !in t;
      assert s[|s| - 1] !in Elems(Keep(t, keep));
    }
  }

  lemma KeepAll<T>(s: seq<T>, keep: set<T>)
    requires forall x | x in s :: x in keep
    ensures Keep(s, keep) == s
    decreases s
  {
    if s != [] {
      KeepAll(s[..|s| - 1], keep);
    }
  }

  lemma KeepNone<T>(s: seq<T>, keep: set<T>)
    requires forall x | x in s :: x !in keep
    ensures Keep(s, keep) == []
    decreases s
  {
    if s != [] {
      KeepNone(s[..|s| - 1], keep);
    }
  }

  /** Filtering with two sets that agree on the elements of `s` gives the same result. */
  lemma KeepAgree<T>(s: seq<T>, k1: set<T>, k2: set<T>)
    requires forall x | x in s :: x in k1 <==> x in k2
    ensures Keep(s, k1) == Keep(s, k2)
    decreases s
  {
    if s != [] {
      KeepAgree(s[..|s| - 1], k1, k2);
    }
  }

  /** A sequence without repetitions has as many elements as its set. */
  lemma {:induction false} DistinctCard<T>(s: seq<T>)
    requires Distinct(s)
    ensures |Elems(s)| == |s|
    decreases s
  {
    if s != [] {
      var t := s[..|s| - 1];
      DistinctCard(t);
      assert Elems(s) == Elems(t) + {s[|s| - 1]};
      assert s[|s| - 1] !in Elems(t);
    }
  }

  /** A sequence without repetitions drawn from a finite set is no longer than the set. */
  lemma DistinctBound<T>(s: seq<T>, u: set<T>)
    requires Distinct(s) && Elems(s) <= u
    ensures |s| <= |u|
  {
    DistinctCard(s);
    CardMono(Elems(s), u);
  }

  lemma CardMono<T>(a: set<T>, b: set<T>)
    requires a <= b
    ensures |a| <= |b|
  {
    assert b == a + (b - a);
  }

  lemma {:induction false} DeleteConcat<T>(a: seq<T>, b: seq<T>, x: T)
    ensures Delete(a + b, x) == Delete(a, x) + Delete(b, x)
    decreases a
  {
    if a == [] {
      assert a + b == b;
    } else {
      assert (a + b)[0] == a[0] && (a + b)[1..] == a[1..] + b;
      DeleteConcat(a[1..], b, x);
    }
  }

  lemma {:induction false} DeleteAbsent<T>(s: seq<T>, x: T)
    requires x !in s
    ensures Delete(s, x) == s
    decreases s
  {
    if s != [] {
      assert s == [s[0]] + s[1..];
      DeleteAbsent(s[1..], x);
    }
  }

  /** Deleting an element just added to a sequence that lacked it gives the sequence back. */
  lemma DeleteAppended<T>(s: seq<T>, x: T)
    requires x !in s
    ensures Delete(s + [x], x) == s
  {
    DeleteConcat(s, [x], x);
    DeleteAbsent(s, x);
    assert Delete([x], x) == Delete([], x) == [];
  }
  /** Filtering one more element of a prefix. */
  lemma KeepStep<T>(s: seq<T>, i: nat, keep: set<T>)
    requires i < |s|
    ensures Keep(s[..i + 1], keep) == Keep(s[..i], keep) + (if s[i] in keep then [s[i]] else [])
  {
    assert s[..i + 1][..i] == s[..i];
  }

  /** Filtering a sequence from its front. */
  lemma KeepFront<T>(x: T, s: seq<T>, keep: set<T>)
    ensures Keep([x] + s, keep) == (if x in keep then [x] else []) + Keep(s, keep)
  {
    var h := if x in keep then [x] else [];
    assert Keep([x], keep) == h by {
      assert [x][..0] == [] && [x][0] == x;
      assert Keep([x], keep) == Keep([], keep) + h;
    }
    KeepConcat([x], s, keep);
  }

  /** Elements skipped over are not kept. */
  lemma KeepSkipped<T>(s: seq<T>, keep: set<T>, i: nat, j: nat)
    requires i <= j <= |s|
    requires forall k | i <= k < j :: s[k] !in keep
    ensures Keep(s[..j], keep) == Keep(s[..i], keep)
  {
    assert s[..j] == s[..i] + s[i..j];
    KeepConcat(s[..i], s[i..j], keep);
    KeepNone(s[i..j], keep);
  }

  /** Filtering twice filters with the intersection. */
  lemma {:induction false} KeepKeep<T>(s: seq<T>, k1: set<T>, k2: set<T>)
    ensures Keep(Keep(s, k1), k2) == Keep(s, k1 * k2)
    decreases s
  {
    if s != [] {
      var t, x := s[..|s| - 1], s[|s| - 1];
      KeepKeep(t, k1, k2);
      assert s[..|s| - 1] == t;
      if x in k1 {
        var u := Keep(t, k1) + [x];
        assert Keep(s, k1) == u;
        assert u[..|u| - 1] == Keep(t, k1);
      } else {
        assert Keep(s, k1) == Keep(t, k1);
        assert Keep(s, k1 * k2) == Keep(t, k1 * k2);
      }
    }
  }

  /** Deleting `x` filters it out: every other element stays, in its order. */
  lemma {:induction false} DeleteIsKeep<T>(s: seq<T>, x: T)
    ensures Delete(s, x) == Keep(s, Elems(s) - {x})
    decreases s
  {
    if s != [] {
      var t := s[1..];
      assert s == [s[0]] + t;
      DeleteIsKeep(t, x);
      KeepFront(s[0], t, Elems(s) - {x});
      KeepAgree(t, Elems(t) - {x}, Elems(s) - {x});
    }
  }

  /** Deleting from a filtered duplicate-free sequence narrows the filter. */
  lemma DeleteKeep<T>(s: seq<T>, keep: set<T>, x: T)
    requires Distinct(s)
    ensures Delete(Keep(s, keep), x) == Keep(s, keep - {x})
  {
    KeepDistinct(s, keep);
    DeleteIsKeep(Keep(s, keep), x);
    KeepKeep(s, keep, Elems(Keep(s, keep)) - {x});
    KeepAgree(s, keep * (Elems(Keep(s, keep)) - {x}), keep - {x});
  }

  /** Deleting an element the filter drops does not change the filtered sequence. */
  lemma KeepDelete<T>(s: seq<T>, keep: set<T>, x: T)
    requires Distinct(s) && x !in keep
    ensures Keep(Delete(s, x), keep) == Keep(s, keep)
  {
    DeleteIsKeep(s, x);
    KeepKeep(s, Elems(s) - {x}, keep);
    KeepAgree(s, (Elems(s) - {x}) * keep, keep);
  }
  /** A concatenation is duplicate-free exactly when both parts are and they share nothing. */
  lemma DistinctConcat<T>(u: seq<T>, v: seq<T>)
    ensures Distinct(u + v) <==> Distinct(u) && Distinct(v) && (forall y | y in u :: y !in v)
  {
    var s := u + v;
    if Distinct(s) {
      assert forall i | 0 <= i < |u| :: s[i] == u[i];
      assert forall i | 0 <= i < |v| :: s[|u| + i] == v[i];
      assert Distinct(u);
      assert Distinct(v) by {
        forall i, j | 0 <= i < j < |v|
          ensures v[i] != v[j]
        {
          assert s[|u| + i] == v[i] && s[|u| + j] == v[j];
        }
      }
    }
    if Distinct(u) && Distinct(v) && (forall y | y in u :: y !in v) {
      forall i, j | 0 <= i < j < |s|
        ensures s[i] != s[j]
      {
        if i < |u| && j >= |u| {
          assert s[i] in u && s[j] == v[j - |u|];
        } else if i >= |u| {
          assert s[i] == v[i - |u|] && s[j] == v[j - |u|];
        }
      }
    }
  }

  /** A sequence drawn from a set but avoiding all of it is empty. */
  lemma Avoids<T>(s: seq<T>, u: set<T>)
    requires Elems(s) <= u && forall y | y in s :: y !in u
    ensures s == []
  {
    assert forall y | y in s :: y in Elems(s);
    KeepAll(s, u);
    KeepNone(s, u);
  }
}
