/** Sorting as the Go library provides it (sort.Slice, sort.Strings): a
    comparison sort driven by a strict "less" relation. The library's
    algorithm is not part of the program, so it is modelled by a functional
    insertion sort; only what Go promises is relied on elsewhere: the result
    is ordered by the relation and is a permutation of the input. */
module Sorting {

  /** `before` is irreflexive and transitive on the elements of `s`
      (Go requires a strict weak order of the less function). */
  ghost predicate StrictOrderOn<T>(s: seq<T>, before: (T, T) -> bool) {
    && (forall a :: a in s ==> !before(a, a))
    && (forall a, b, c :: a in s && b in s && c in s && before(a, b) && before(b, c) ==> before(a, c))
  }

  /** No later element is strictly before an earlier one. */
  ghost predicate SortedBy<T>(s: seq<T>, before: (T, T) -> bool) {
    forall i, j :: 0 <= i < j < |s| ==> !before(s[j], s[i])
  }

  /** No element occurs twice. */
  ghost predicate NoDup<T>(s: seq<T>) {
    forall i, j :: 0 <= i < j < |s| ==> s[i] != s[j]
  }

  /** A strict order on a sequence is one on every sequence of its elements. */
  lemma StrictOrderSub<T>(s: seq<T>, t: seq<T>, before: (T, T) -> bool)
    requires StrictOrderOn(s, before) && forall a :: a in t ==> a in s
    ensures StrictOrderOn(t, before)
  {
  }

  /** Inserts `x` in front of the first element it is strictly before. */
  function Insert<T>(x: T, r: seq<T>, before: (T, T) -> bool): (r': seq<T>)
    ensures multiset(r') == multiset(r) + multiset{x}
  {
    if r == [] then [x]
    else if before(x, r[0]) then [x] + r
    else
      assert r == [r[0]] + r[1..];
      [r[0]] + Insert(x, r[1..], before)
  }

  /** Inserting into a sorted sequence keeps it sorted. */
  lemma {:induction false} InsertSorted<T>(x: T, r: seq<T>, before: (T, T) -> bool)
    requires StrictOrderOn([x] + r, before) && SortedBy(r, before)
    ensures SortedBy(Insert(x, r, before), before)
    decreases |r|
  {
    if r != [] && !before(x, r[0]) {
      assert r == [r[0]] + r[1..];
      StrictOrderSub([x] + r, [x] + r[1..], before);
      assert SortedBy(r[1..], before);
      InsertSorted(x, r[1..], before);
      var t := Insert(x, r[1..], before);
      forall j | 0 <= j < |t| ensures !before(t[j], r[0]) {
        assert t[j] in multiset(t);
        if t[j] != x {
          assert t[j] in r[1..];
        }
      }
    }
  }

  /** The sort used for every sort.Slice / sort.Strings call. */
  function Sort<T>(s: seq<T>, before: (T, T) -> bool): (r: seq<T>)
    ensures multiset(r) == multiset(s)
    ensures |r| == |s|
    ensures StrictOrderOn(s, before) ==> SortedBy(r, before)
  {
    if s == [] then []
    else
      assert s == [s[0]] + s[1..];
      var sorted := Sort(s[1..], before);
      assert StrictOrderOn(s, before) ==> SortedBy(Insert(s[0], sorted, before), before) by {
        if StrictOrderOn(s, before) {
          StrictOrderSub(s, s[1..], before);
          assert forall a :: a in sorted ==> a in multiset(s[1..]);
          StrictOrderSub(s, [s[0]] + sorted, before);
          InsertSorted(s[0], sorted, before);
        }
      }
      Insert(s[0], sorted, before)
  }

  /** The element-wise image of a sequence. */
  function MapSeq<T, U>(f: T -> U, s: seq<T>): (r: seq<U>)
    ensures |r| == |s|
  {
    if s == [] then [] else [f(s[0])] + MapSeq(f, s[1..])
  }

  lemma {:induction false} MapSeqAt<T, U>(f: T -> U, s: seq<T>)
    ensures forall i :: 0 <= i < |s| ==> MapSeq(f, s)[i] == f(s[i])
    decreases |s|
  {
    if s != [] {
      MapSeqAt(f, s[1..]);
      assert MapSeq(f, s) == [f(s[0])] + MapSeq(f, s[1..]);
      forall i | 1 <= i < |s| ensures MapSeq(f, s)[i] == f(s[i]) {
        assert MapSeq(f, s)[i] == MapSeq(f, s[1..])[i - 1];
        assert s[1..][i - 1] == s[i];
      }
    }
  }

  lemma {:induction false} MapSeqAppend<T, U>(f: T -> U, a: seq<T>, b: seq<T>)
    ensures MapSeq(f, a + b) == MapSeq(f, a) + MapSeq(f, b)
    decreases |a|
  {
    if a == [] {
      assert a + b == b;
    } else {
      assert (a + b)[0] == a[0] && (a + b)[1..] == a[1..] + b;
      MapSeqAppend(f, a[1..], b);
      assert MapSeq(f, a + b) == [f(a[0])] + MapSeq(f, a[1..] + b);
    }
  }

  lemma RemoveAt<T>(r: seq<T>, k: nat)
    requires k < |r|
    ensures multiset(r[..k] + r[k + 1..]) == multiset(r) - multiset{r[k]}
  {
    assert r == r[..k] + [r[k]] + r[k + 1..];
  }

  lemma MultisetSplit<U>(a: seq<U>, x: U, b: seq<U>)
    ensures multiset(a + ([x] + b)) == multiset(a + b) + multiset{x}
  {
  }

  lemma MapSplit<T, U>(f: T -> U, r: seq<T>, k: nat)
    requires k < |r|
    ensures MapSeq(f, r) == MapSeq(f, r[..k]) + ([f(r[k])] + MapSeq(f, r[k + 1..]))
  {
    var front, x, back := r[..k], r[k], r[k + 1..];
    assert r == front + ([x] + back);
    MapSeqAppend(f, front, [x] + back);
    assert MapSeq(f, [x] + back) == [f(x)] + MapSeq(f, back);
  }

  lemma MapRemoveAt<T, U>(f: T -> U, r: seq<T>, k: nat)
    requires k < |r|
    ensures multiset(MapSeq(f, r)) == multiset(MapSeq(f, r[..k] + r[k + 1..])) + multiset{f(r[k])}
  {
    MapSplit(f, r, k);
    MapSeqAppend(f, r[..k], r[k + 1..]);
    MultisetSplit(MapSeq(f, r[..k]), f(r[k]), MapSeq(f, r[k + 1..]));
  }

  /** Where the first element of `s` sits in its permutation `r`, and what
      is left on both sides once it is taken out. */
  lemma PermutationHead<T>(s: seq<T>, r: seq<T>) returns (k: nat)
    requires multiset(r) == multiset(s) && s != []
    ensures k < |r| && r[k] == s[0]
    ensures multiset(r[..k] + r[k + 1..]) == multiset(s[1..])
  {
    assert s[0] in multiset(r);
    k :| 0 <= k < |r| && r[k] == s[0];
    assert s == [s[0]] + s[1..];
    RemoveAt(r, k);
  }

  /** Permuting a sequence permutes its image. */
  lemma {:induction false} MapPermutation<T, U>(f: T -> U, s: seq<T>, r: seq<T>)
    requires multiset(r) == multiset(s)
    ensures multiset(MapSeq(f, r)) == multiset(MapSeq(f, s))
    decreases |s|
  {
    if s != [] {
      var x := s[0];
      var k := PermutationHead(s, r);
      var r' := r[..k] + r[k + 1..];
      MapPermutation(f, s[1..], r');
      assert multiset(MapSeq(f, s)) == multiset{f(x)} + multiset(MapSeq(f, s[1..])) by {
        assert MapSeq(f, s) == [f(x)] + MapSeq(f, s[1..]);
      }
      MapRemoveAt(f, r, k);
    }
  }

  lemma {:induction false} NoDupMultiplicity<T>(s: seq<T>, x: T)
    requires NoDup(s)
    ensures multiset(s)[x] <= 1
    decreases |s|
  {
    if s != [] {
      var s' := s[..|s| - 1];
      assert s == s' + [s[|s| - 1]];
      assert NoDup(s');
      NoDupMultiplicity(s', x);
      if x == s[|s| - 1] {
        assert x !in s';
      }
    }
  }

  /** A permutation of a sequence without repetitions has none either. */
  lemma NoDupPermutation<T>(s: seq<T>, r: seq<T>)
    requires multiset(r) == multiset(s) && NoDup(s)
    ensures NoDup(r)
  {
    forall i, j | 0 <= i < j < |r| ensures r[i] != r[j] {
      if r[i] == r[j] {
        var x := r[i];
        assert r == r[..j] + r[j..];
        assert x in r[..j] && x in r[j..];
        assert multiset(r)[x] == multiset(r[..j])[x] + multiset(r[j..])[x];
        NoDupMultiplicity(s, x);
        assert false;
      }
    }
  }
}
