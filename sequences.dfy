/**
 * Sequence operations the list models of the name filter panel are built from: keeping the elements
 * that satisfy a condition, mapping, removing one occurrence (`ArrayList.remove(Object)`), and adding to
 * an insertion-ordered set (`LinkedHashSet.add`).
 */
module Sequences {

  /** The elements of `xs` that satisfy `p`, in their order in `xs`. */
  function Keep<T>(xs: seq<T>, p: T -> bool): seq<T>
  {
    if xs == [] then []
    else if p(xs[|xs| - 1]) then Keep(xs[..|xs| - 1], p) + [xs[|xs| - 1]]
    else Keep(xs[..|xs| - 1], p)
  }

  /** One more element at the end is kept exactly when it satisfies `p`. */
  lemma KeepSnoc<T>(xs: seq<T>, x: T, p: T -> bool)
    ensures Keep(xs + [x], p) == if p(x) then Keep(xs, p) + [x] else Keep(xs, p)
  {
    assert (xs + [x])[..|xs|] == xs;
  }

  /** Keeping distributes over concatenation, so the kept elements stay in their relative order. */
  lemma {:induction false} KeepConcat<T>(xs: seq<T>, ys: seq<T>, p: T -> bool)
    ensures Keep(xs + ys, p) == Keep(xs, p) + Keep(ys, p)
    decreases |ys|
  {
    if ys == [] {
      assert xs + ys == xs;
    } else {
      var n := |ys| - 1;
      assert xs + ys == (xs + ys[..n]) + [ys[n]];
      assert ys == ys[..n] + [ys[n]];
      KeepSnoc(xs + ys[..n], ys[n], p);
      KeepSnoc(ys[..n], ys[n], p);
      KeepConcat(xs, ys[..n], p);
    }
  }

  /** An element is kept exactly when it occurs and satisfies `p`. */
  lemma {:induction false} KeepMembers<T>(xs: seq<T>, p: T -> bool)
    ensures forall x :: x in Keep(xs, p) <==> x in xs && p(x)
  {
    if xs != [] {
      var n := |xs| - 1;
      KeepMembers(xs[..n], p);
      assert xs == xs[..n] + [xs[n]];
    }
  }

  /** Every kept element keeps all its occurrences; the others lose all of theirs. */
  /** Filtering never lengthens a list. */
  lemma {:induction false} KeepShorter<T>(xs: seq<T>, p: T -> bool)
    ensures |Keep(xs, p)| <= |xs|
  {
    if xs != [] {
      KeepShorter(xs[..|xs| - 1], p);
    }
  }

  lemma {:induction false} KeepCount<T>(xs: seq<T>, p: T -> bool)
    ensures forall x :: multiset(Keep(xs, p))[x] == if p(x) then multiset(xs)[x] else 0
  {
    if xs != [] {
      var n := |xs| - 1;
      KeepCount(xs[..n], p);
      assert xs == xs[..n] + [xs[n]];
    }
  }

  /** `a` occurs somewhere before `b` in `xs`. */
  predicate Precedes<T(==)>(xs: seq<T>, a: T, b: T)
  {
    exists i, j :: 0 <= i < j < |xs| && xs[i] == a && xs[j] == b
  }

  /** Both elements of an ordered pair occur. */
  lemma PrecedesMembers<T>(xs: seq<T>, a: T, b: T)
    ensures Precedes(xs, a, b) ==> a in xs && b in xs
  {
  }

  /** Appending `x` adds exactly the pairs ending in `x`. */
  lemma PrecedesSnoc<T>(xs: seq<T>, x: T, a: T, b: T)
    ensures Precedes(xs + [x], a, b) <==> Precedes(xs, a, b) || (b == x && a in xs)
  {
    var ys := xs + [x];
    if Precedes(ys, a, b) {
      var i, j :| 0 <= i < j < |ys| && ys[i] == a && ys[j] == b;
      if j < |xs| {
        assert xs[i] == a && xs[j] == b;
      } else {
        assert xs[i] == a;
      }
    }
    if Precedes(xs, a, b) {
      var i, j :| 0 <= i < j < |xs| && xs[i] == a && xs[j] == b;
      assert ys[i] == a && ys[j] == b;
    }
    if b == x && a in xs {
      var i :| 0 <= i < |xs| && xs[i] == a;
      assert ys[i] == a && ys[|xs|] == b;
    }
  }

  /** Two kept elements appear in the kept sequence in the same relative order as in `xs`. */
  lemma {:induction false} KeepPrecedes<T>(xs: seq<T>, p: T -> bool, a: T, b: T)
    requires p(a) && p(b)
    ensures Precedes(Keep(xs, p), a, b) <==> Precedes(xs, a, b)
  {
    if xs != [] {
      var n := |xs| - 1;
      assert xs == xs[..n] + [xs[n]];
      KeepPrecedes(xs[..n], p, a, b);
      KeepMembers(xs[..n], p);
      PrecedesSnoc(xs[..n], xs[n], a, b);
      PrecedesSnoc(Keep(xs[..n], p), xs[n], a, b);
    }
  }

  /** Keeping from a sequence without duplicates gives one without duplicates. */
  lemma {:induction false} KeepDistinct<T>(xs: seq<T>, p: T -> bool)
    requires Distinct(xs)
    ensures Distinct(Keep(xs, p))
  {
    if xs != [] {
      var n := |xs| - 1;
      assert Distinct(xs[..n]);
      KeepDistinct(xs[..n], p);
      KeepMembers(xs[..n], p);
      assert xs[n] !in xs[..n];
    }
  }

  /** `f` applied to every element of `xs`, in order. */
  function MapSeq<A, B>(xs: seq<A>, f: A -> B): seq<B>
  {
    seq(|xs|, i requires 0 <= i < |xs| => f(xs[i]))
  }

  /** Mapping distributes over concatenation. */
  lemma MapSeqConcat<A, B>(xs: seq<A>, ys: seq<A>, f: A -> B)
    ensures MapSeq(xs + ys, f) == MapSeq(xs, f) + MapSeq(ys, f)
  {
  }

  /** The image of every element occurs in the mapped sequence. */
  lemma MapSeqMembers<A, B>(xs: seq<A>, f: A -> B)
    ensures forall x :: x in xs ==> f(x) in MapSeq(xs, f)
  {
    forall x | x in xs
      ensures f(x) in MapSeq(xs, f)
    {
      var i :| 0 <= i < |xs| && xs[i] == x;
      assert MapSeq(xs, f)[i] == f(x);
    }
  }

  /** `xs` without its first occurrence of `x`; unchanged when `x` does not occur. */
  function RemoveFirst<T(==)>(xs: seq<T>, x: T): seq<T>
  {
    if xs == [] then []
    else if xs[0] == x then xs[1..]
    else [xs[0]] + RemoveFirst(xs[1..], x)
  }

  /** Removing an element that does not occur changes nothing. */
  lemma {:induction false} RemoveFirstAbsent<T>(xs: seq<T>, x: T)
    requires x !in xs
    ensures RemoveFirst(xs, x) == xs
  {
    if xs != [] {
      assert xs[0] in xs;
      assert forall y :: y in xs[1..] ==> y in xs;
      RemoveFirstAbsent(xs[1..], x);
    }
  }

  /** The occurrence removed is the first one: the elements before and after it stay in order. */
  lemma {:induction false} RemoveFirstAt<T>(xs: seq<T>, x: T, i: nat)
    requires i < |xs| && xs[i] == x && x !in xs[..i]
    ensures RemoveFirst(xs, x) == xs[..i] + xs[i + 1..]
  {
    if i > 0 {
      assert xs[0] in xs[..i];
      assert xs[1..][..i - 1] == xs[1..i];
      assert forall y :: y in xs[1..i] ==> y in xs[..i];
      RemoveFirstAt(xs[1..], x, i - 1);
      assert xs[1..][i..] == xs[i + 1..];
      assert [xs[0]] + xs[1..i] == xs[..i];
    }
  }

  /** Exactly one occurrence of `x` goes, if there is one, and nothing else. */
  lemma {:induction false} RemoveFirstCount<T>(xs: seq<T>, x: T)
    ensures multiset(RemoveFirst(xs, x)) == multiset(xs) - multiset{x}
  {
    if xs != [] {
      assert xs == [xs[0]] + xs[1..];
      if xs[0] != x {
        RemoveFirstCount(xs[1..], x);
      }
    }
  }

  /** Removing an occurrence adds no element. */
  /** Removing the first occurrence shortens the list by one exactly when the element occurs, and every
      other element keeps its membership. */
  lemma RemoveFirstSize<T>(xs: seq<T>, x: T)
    ensures |RemoveFirst(xs, x)| == if x in xs then |xs| - 1 else |xs|
    ensures forall y :: y != x ==> (y in RemoveFirst(xs, x) <==> y in xs)
  {
    RemoveFirstCount(xs, x);
    var r := RemoveFirst(xs, x);
    assert |multiset(r)| == |r| && |multiset(xs)| == |xs|;
    forall y | y != x
      ensures y in r <==> y in xs
    {
      assert y in r <==> y in multiset(r);
      assert y in xs <==> y in multiset(xs);
    }
  }

  lemma RemoveFirstMembers<T>(xs: seq<T>, x: T)
    ensures forall y :: y in RemoveFirst(xs, x) ==> y in xs
  {
    RemoveFirstCount(xs, x);
    forall y | y in RemoveFirst(xs, x)
      ensures y in xs
    {
      assert y in multiset(RemoveFirst(xs, x));
    }
  }

  /** No element occurs twice: the shape of an insertion-ordered set. */
  predicate Distinct<T(==)>(xs: seq<T>)
  {
    forall i, j :: 0 <= i < j < |xs| ==> xs[i] != xs[j]
  }

  /** `LinkedHashSet.add`: append `x` unless it is already present. */
  function AddNew<T(==)>(xs: seq<T>, x: T): seq<T>
  {
    if x in xs then xs else xs + [x]
  }

  /** Adding the elements of `ys` one by one, in order. */
  function AddAllNew<T(==)>(xs: seq<T>, ys: seq<T>): seq<T>
  {
    if ys == [] then xs else AddNew(AddAllNew(xs, ys[..|ys| - 1]), ys[|ys| - 1])
  }

  /** One more element at the end is added unless already present. */
  lemma AddAllNewSnoc<T>(xs: seq<T>, ys: seq<T>, y: T)
    ensures AddAllNew(xs, ys + [y]) == AddNew(AddAllNew(xs, ys), y)
  {
    assert (ys + [y])[..|ys|] == ys;
  }

  /** Adding two runs of elements one after the other is adding their concatenation. */
  lemma {:induction false} AddAllNewConcat<T>(xs: seq<T>, ys: seq<T>, zs: seq<T>)
    ensures AddAllNew(AddAllNew(xs, ys), zs) == AddAllNew(xs, ys + zs)
    decreases |zs|
  {
    if zs == [] {
      assert ys + zs == ys;
    } else {
      var n := |zs| - 1;
      AddAllNewConcat(xs, ys, zs[..n]);
      assert ys + zs == (ys + zs[..n]) + [zs[n]];
      AddAllNewSnoc(xs, ys + zs[..n], zs[n]);
    }
  }

  /** Adding keeps the set free of duplicates and holds exactly the old and the added elements. */
  lemma {:induction false} AddAllNewMembers<T>(xs: seq<T>, ys: seq<T>)
    requires Distinct(xs)
    ensures Distinct(AddAllNew(xs, ys))
    ensures forall x :: x in AddAllNew(xs, ys) <==> x in xs || x in ys
  {
    if ys != [] {
      var n := |ys| - 1;
      AddAllNewMembers(xs, ys[..n]);
      assert ys == ys[..n] + [ys[n]];
    }
  }

  /** Adding elements that are all new, and distinct, appends them in order. */
  lemma {:induction false} AddAllNewFresh<T>(xs: seq<T>, ys: seq<T>)
    requires Distinct(xs + ys)
    ensures AddAllNew(xs, ys) == xs + ys
  {
    if ys != [] {
      var n := |ys| - 1;
      assert xs + ys == (xs + ys[..n]) + [ys[n]];
      assert Distinct(xs + ys[..n]) by {
        forall i, j | 0 <= i < j < |xs + ys[..n]|
          ensures (xs + ys[..n])[i] != (xs + ys[..n])[j]
        {
          assert (xs + ys[..n])[i] == (xs + ys)[i];
          assert (xs + ys[..n])[j] == (xs + ys)[j];
        }
      }
      AddAllNewFresh(xs, ys[..n]);
      assert ys[n] !in xs + ys[..n] by {
        forall i | 0 <= i < |xs + ys[..n]|
          ensures (xs + ys[..n])[i] != ys[n]
        {
          assert (xs + ys[..n])[i] == (xs + ys)[i];
          assert (xs + ys)[|xs| + n] == ys[n];
        }
      }
    }
  }

  /** The elements of a sequence as a set. */
  function Elements<T(==)>(xs: seq<T>): set<T>
  {
    set x | x in xs
  }
}
