/**
 Array.prototype.sort of ECMA-262 (section 23.1.3.30): with a consistent comparator the result is sorted and stable.
 Any two results that are sorted and stable are equal, so these two facts say everything about it.
 */
module StableSort {

  /** A consistent comparator: its sign is antisymmetric, and "not after" is transitive. */
  ghost predicate Consistent<T(!new)>(cmp: (T, T) -> int) {
    && (forall a, b :: cmp(a, b) < 0 <==> cmp(b, a) > 0)
    && (forall a, b, c :: cmp(a, b) <= 0 && cmp(b, c) <= 0 ==> cmp(a, c) <= 0)
  }

  ghost predicate Sorted<T>(cmp: (T, T) -> int, s: seq<T>) {
    forall i, j :: 0 <= i < j < |s| ==> cmp(s[i], s[j]) <= 0
  }

  /** The elements that compare equal to x, in the order they have. */
  ghost function Ties<T>(cmp: (T, T) -> int, s: seq<T>, x: T): seq<T> {
    if s == [] then [] else (if cmp(s[0], x) == 0 then [s[0]] else []) + Ties(cmp, s[1..], x)
  }

  /** ys is xs sorted, with ties in the order they have in xs. */
  ghost predicate IsStableSort<T(!new)>(cmp: (T, T) -> int, xs: seq<T>, ys: seq<T>) {
    Sorted(cmp, ys) && forall x :: Ties(cmp, ys, x) == Ties(cmp, xs, x)
  }

  function Insert<T>(cmp: (T, T) -> int, x: T, s: seq<T>): seq<T> {
    if s == [] || cmp(x, s[0]) <= 0 then [x] + s else [s[0]] + Insert(cmp, x, s[1..])
  }

  function Sort<T>(cmp: (T, T) -> int, s: seq<T>): seq<T> {
    if s == [] then [] else Insert(cmp, s[0], Sort(cmp, s[1..]))
  }

  lemma Trans<T(!new)>(cmp: (T, T) -> int, a: T, b: T, c: T)
    requires Consistent(cmp) && cmp(a, b) <= 0 && cmp(b, c) <= 0
    ensures cmp(a, c) <= 0
  {
  }

  lemma Flip<T(!new)>(cmp: (T, T) -> int, a: T, b: T)
    requires Consistent(cmp)
    ensures cmp(a, b) < 0 <==> cmp(b, a) > 0
    ensures cmp(a, b) == 0 <==> cmp(b, a) == 0
  {
  }

  lemma {:induction false} InsertElements<T>(cmp: (T, T) -> int, x: T, s: seq<T>)
    ensures multiset(Insert(cmp, x, s)) == multiset{x} + multiset(s)
  {
    if s != [] && cmp(x, s[0]) > 0 {
      InsertElements(cmp, x, s[1..]);
      assert s == [s[0]] + s[1..];
    }
  }

  lemma {:induction false} InsertSorted<T(!new)>(cmp: (T, T) -> int, x: T, s: seq<T>)
    requires Consistent(cmp) && Sorted(cmp, s)
    ensures Sorted(cmp, Insert(cmp, x, s))
  {
    hide Consistent;
    if s == [] {
    } else if cmp(x, s[0]) <= 0 {
      forall j | 0 <= j < |s|
        ensures cmp(x, s[j]) <= 0
      {
        if j > 0 { Trans(cmp, x, s[0], s[j]); }
      }
    } else {
      InsertSorted(cmp, x, s[1..]);
      InsertElements(cmp, x, s[1..]);
      Flip(cmp, s[0], x);
      var tail := Insert(cmp, x, s[1..]);
      forall j | 0 <= j < |tail|
        ensures cmp(s[0], tail[j]) <= 0
      {
        assert tail[j] in multiset(tail);
        assert tail[j] == x || tail[j] in s[1..];
      }
    }
  }

  lemma {:induction false} InsertTies<T(!new)>(cmp: (T, T) -> int, x: T, s: seq<T>, y: T)
    requires Consistent(cmp)
    ensures Ties(cmp, Insert(cmp, x, s), y) == Ties(cmp, [x] + s, y)
  {
    hide Consistent;
    assert ([x] + s)[1..] == s;
    if s != [] && cmp(x, s[0]) > 0 {
      InsertTies(cmp, x, s[1..], y);
      var r := Insert(cmp, x, s);
      assert r[1..] == Insert(cmp, x, s[1..]);
      assert ([x] + s[1..])[1..] == s[1..];
      Flip(cmp, s[0], y);
      if cmp(x, y) <= 0 && cmp(y, s[0]) <= 0 {
        Trans(cmp, x, y, s[0]);
        assert false;
      }
    }
  }

  /** Sorting gives a sorted, stable result. */
  lemma {:induction false} SortIsStable<T(!new)>(cmp: (T, T) -> int, s: seq<T>)
    requires Consistent(cmp)
    ensures IsStableSort(cmp, s, Sort(cmp, s))
  {
    if s != [] {
      var tail := Sort(cmp, s[1..]);
      SortIsStable(cmp, s[1..]);
      InsertSorted(cmp, s[0], tail);
      forall x
        ensures Ties(cmp, Sort(cmp, s), x) == Ties(cmp, s, x)
      {
        InsertTies(cmp, s[0], tail, x);
        assert ([s[0]] + tail)[1..] == tail;
      }
    }
  }

  lemma {:induction false} TiesMembers<T>(cmp: (T, T) -> int, s: seq<T>, x: T)
    ensures forall e :: e in Ties(cmp, s, x) <==> e in s && cmp(e, x) == 0
  {
    if s != [] {
      TiesMembers(cmp, s[1..], x);
      assert forall e :: e in s <==> e == s[0] || e in s[1..];
    }
  }

  lemma {:induction false} TiesCount<T>(cmp: (T, T) -> int, s: seq<T>, x: T)
    requires cmp(x, x) == 0
    ensures multiset(Ties(cmp, s, x))[x] == multiset(s)[x]
  {
    if s != [] {
      TiesCount(cmp, s[1..], x);
      assert s == [s[0]] + s[1..];
    }
  }

  /** A stable result holds the same elements, each as often. */
  lemma {:induction false} StableIsPermutation<T(!new)>(cmp: (T, T) -> int, xs: seq<T>, ys: seq<T>)
    requires Consistent(cmp) && IsStableSort(cmp, xs, ys)
    ensures multiset(ys) == multiset(xs) && |ys| == |xs|
  {
    forall x
      ensures multiset(ys)[x] == multiset(xs)[x]
    {
      assert cmp(x, x) == 0;
      TiesCount(cmp, xs, x);
      TiesCount(cmp, ys, x);
    }
    assert multiset(ys) == multiset(xs);
    assert |multiset(ys)| == |ys| && |multiset(xs)| == |xs|;
  }

  lemma {:induction false} FirstsAgree<T(!new)>(cmp: (T, T) -> int, ys: seq<T>, zs: seq<T>)
    requires Consistent(cmp) && Sorted(cmp, ys) && Sorted(cmp, zs) && ys != []
    requires forall x :: Ties(cmp, ys, x) == Ties(cmp, zs, x)
    ensures zs != [] && zs[0] == ys[0]
  {
    var y := ys[0];
    assert cmp(y, y) == 0;
    TiesMembers(cmp, ys, y);
    TiesMembers(cmp, zs, y);
    assert y in zs;
    var z := zs[0];
    assert cmp(z, z) == 0;
    TiesMembers(cmp, ys, z);
    TiesMembers(cmp, zs, z);
    assert z in ys;
    assert cmp(z, y) <= 0 && cmp(y, z) <= 0;
    assert Ties(cmp, ys, y)[0] == y && Ties(cmp, zs, y)[0] == z;
  }

  lemma {:induction false} TailTies<T>(cmp: (T, T) -> int, ys: seq<T>, zs: seq<T>, x: T)
    requires ys != [] && zs != [] && ys[0] == zs[0]
    requires Ties(cmp, ys, x) == Ties(cmp, zs, x)
    ensures Ties(cmp, ys[1..], x) == Ties(cmp, zs[1..], x)
  {
    if cmp(ys[0], x) == 0 {
      assert Ties(cmp, ys[1..], x) == Ties(cmp, ys, x)[1..];
      assert Ties(cmp, zs[1..], x) == Ties(cmp, zs, x)[1..];
    } else {
      assert Ties(cmp, ys[1..], x) == Ties(cmp, ys, x);
      assert Ties(cmp, zs[1..], x) == Ties(cmp, zs, x);
    }
  }

  /** There is only one stable sort of a list. */
  lemma {:induction false} StableSortUnique<T(!new)>(cmp: (T, T) -> int, ys: seq<T>, zs: seq<T>)
    requires Consistent(cmp) && Sorted(cmp, ys) && Sorted(cmp, zs)
    requires forall x :: Ties(cmp, ys, x) == Ties(cmp, zs, x)
    ensures ys == zs
  {
    hide Consistent;
    if ys == [] {
      if zs != [] { FirstsAgree(cmp, zs, ys); }
    } else {
      FirstsAgree(cmp, ys, zs);
      forall x
        ensures Ties(cmp, ys[1..], x) == Ties(cmp, zs[1..], x)
      {
        TailTies(cmp, ys, zs, x);
      }
      StableSortUnique(cmp, ys[1..], zs[1..]);
      assert ys == [ys[0]] + ys[1..] && zs == [zs[0]] + zs[1..];
    }
  }
}
