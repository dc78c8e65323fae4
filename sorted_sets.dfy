/**
 * Sets of Java `int`s and the ascending lists a `TreeSet` hands out when it is iterated or copied
 * into an `ArrayList`.
 */
module SortedSets {
  import opened JavaInts

  predicate StrictlyAscending(xs: seq<int32>) {
    forall i, j :: 0 <= i < j < |xs| ==> xs[i] < xs[j]
  }

  /** `m` is the least element of `s`. */
  predicate IsLeast(m: int32, s: set<int32>) {
    m in s && forall x :: x in s ==> m <= x
  }

  /** A non-empty finite set has a least element. */
  lemma {:induction false} HasMin(s: set<int32>)
    requires s != {}
    ensures exists m :: IsLeast(m, s)
    decreases s
  {
    var y :| y in s;
    var rest := s - {y};
    if rest == {} {
      forall x | x in s ensures y <= x {
        assert x !in rest;
      }
      assert IsLeast(y, s);
    } else {
      HasMin(rest);
      var m :| IsLeast(m, rest);
      var least := if y < m then y else m;
      forall x | x in s ensures least <= x {
        if x != y {
          assert x in rest;
        }
      }
      assert IsLeast(least, s);
    }
  }

  /** A strictly ascending list stays so when an element above all of its elements is appended. */
  lemma AscendingSnoc(xs: seq<int32>, x: int32)
    requires StrictlyAscending(xs)
    requires forall i :: 0 <= i < |xs| ==> xs[i] < x
    ensures StrictlyAscending(xs + [x])
  {
  }

  /** The elements of a list, as a set. */
  function Elems(xs: seq<int32>): (r: set<int32>)
    ensures forall x :: x in r <==> x in xs
  {
    if xs == [] then {} else {xs[0]} + Elems(xs[1..])
  }

  /** The least element of a non-empty set. */
  ghost function Min(s: set<int32>): (m: int32)
    requires s != {}
    ensures m in s && forall x :: x in s ==> m <= x
  {
    HasMin(s);
    var m :| IsLeast(m, s);
    m
  }

  /** The elements of `s` in ascending order, as `new ArrayList<>(treeSet)` lists them. */
  ghost function Sorted(s: set<int32>): seq<int32>
    decreases s
  {
    if s == {} then [] else [Min(s)] + Sorted(s - {Min(s)})
  }

  /** `Sorted(s)` is strictly ascending and holds exactly the elements of `s`. */
  lemma {:induction false} SortedIs(s: set<int32>)
    ensures StrictlyAscending(Sorted(s))
    ensures |Sorted(s)| == |s|
    ensures forall x :: x in Sorted(s) <==> x in s
    decreases s
  {
    if s != {} {
      var m := Min(s);
      var rest := Sorted(s - {m});
      SortedIs(s - {m});
      assert Sorted(s) == [m] + rest;
      forall i | 0 <= i < |rest| ensures m < rest[i] {
        assert rest[i] in s - {m};
      }
    }
  }

  /** A strictly ascending list is determined by its elements. */
  lemma {:induction false} AscendingUnique(a: seq<int32>, b: seq<int32>)
    requires StrictlyAscending(a) && StrictlyAscending(b)
    requires forall x :: x in a <==> x in b
    ensures a == b
    decreases |a|
  {
    AscendingSize(a);
    AscendingSize(b);
    assert Elems(a) == Elems(b);
    if a != [] {
      HeadIsLeast(a);
      HeadIsLeast(b);
      assert a[0] == b[0] by {
        assert a[0] in b && b[0] in a;
      }
      TailElems(a);
      TailElems(b);
      AscendingUnique(a[1..], b[1..]);
      assert a == [a[0]] + a[1..];
      assert b == [b[0]] + b[1..];
    }
  }

  lemma HeadIsLeast(a: seq<int32>)
    requires StrictlyAscending(a) && a != []
    ensures forall x :: x in a ==> a[0] <= x
  {
    forall x | x in a ensures a[0] <= x {
      var i :| 0 <= i < |a| && a[i] == x;
      assert i == 0 || a[0] < a[i];
    }
  }

  /** The tail of a strictly ascending list holds every element but the head. */
  lemma TailElems(a: seq<int32>)
    requires StrictlyAscending(a) && a != []
    ensures StrictlyAscending(a[1..])
    ensures forall x :: x in a[1..] <==> x in a && x != a[0]
  {
    forall x | x in a && x != a[0] ensures x in a[1..] {
      var i :| 0 <= i < |a| && a[i] == x;
      assert a[1..][i - 1] == x;
    }
    forall x | x in a[1..] ensures x != a[0] {
      var i :| 0 <= i < |a[1..]| && a[1..][i] == x;
      assert a[i + 1] == x;
    }
  }

  /** Any strictly ascending list holding exactly the elements of `s` is `Sorted(s)`. */
  lemma IsSorted(xs: seq<int32>, s: set<int32>)
    requires StrictlyAscending(xs)
    requires forall x :: x in xs <==> x in s
    ensures xs == Sorted(s)
  {
    SortedIs(s);
    AscendingUnique(xs, Sorted(s));
  }

  /** A strictly ascending list has no repeats, so its length is the size of its element set. */
  lemma {:induction false} AscendingSize(xs: seq<int32>)
    requires StrictlyAscending(xs)
    ensures |Elems(xs)| == |xs|
  {
    if xs != [] {
      var tail := xs[1..];
      forall i, j | 0 <= i < j < |tail| ensures tail[i] < tail[j] {
        assert tail[i] == xs[i + 1] && tail[j] == xs[j + 1];
      }
      AscendingSize(tail);
      assert xs[0] !in tail by {
        forall i | 0 <= i < |tail| ensures tail[i] != xs[0] {
          assert tail[i] == xs[i + 1];
        }
      }
      var e := Elems(tail);
      assert Elems(xs) == {xs[0]} + e;
      assert xs[0] !in e;
      assert |{xs[0]} + e| == |e| + 1;
    }
  }

  /** `new ArrayList<>(treeSet)`: the set's elements, smallest first. */
  method ToSortedList(s: set<int32>) returns (r: seq<int32>)
    ensures r == Sorted(s)
  {
    r := [];
    var rest := s;
    while rest != {}
      invariant StrictlyAscending(r)
      invariant rest !! set x | x in r
      invariant forall x :: x in s <==> x in r || x in rest
      invariant forall x, y :: x in r && y in rest ==> x < y
      decreases rest
    {
      ghost var least := Min(rest);
      var m :| m in rest && forall x :: x in rest ==> m <= x;
      forall i | 0 <= i < |r| ensures r[i] < m {
        assert r[i] in r;
      }
      r := r + [m];
      rest := rest - {m};
    }
    IsSorted(r, s);
  }

  /** The index of `x` in a list that holds it once. */
  function IndexOf(xs: seq<int32>, x: int32): (i: nat)
    requires x in xs
    ensures i < |xs| && xs[i] == x
  {
    if xs[0] == x then 0 else 1 + IndexOf(xs[1..], x)
  }

  /** In a strictly ascending list, the index of the element at `k` is `k`. */
  lemma {:induction false} IndexOfAscending(xs: seq<int32>, k: nat)
    requires StrictlyAscending(xs) && k < |xs|
    ensures IndexOf(xs, xs[k]) == k
  {
    if xs[0] != xs[k] {
      assert 0 < k;
      assert xs[1..][k - 1] == xs[k];
      IndexOfAscending(xs[1..], k - 1);
    }
  }
}
