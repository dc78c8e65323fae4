/** Lists without repeats, and the set of a list's elements. */
module Lists {
  /** No element occurs twice. */
  predicate NoDup<T(==)>(xs: seq<T>) {
    forall i, j :: 0 <= i < j < |xs| ==> xs[i] != xs[j]
  }

  /** The elements of a list. */
  function ToSet<T>(xs: seq<T>): set<T> {
    set x | x in xs
  }

  /** Appending an element not yet present keeps a list free of repeats and adds it to the set. */
  lemma NoDupSnoc<T>(xs: seq<T>, x: T)
    requires NoDup(xs) && x !in xs
    ensures NoDup(xs + [x]) && ToSet(xs + [x]) == ToSet(xs) + {x}
  {
    var ys := xs + [x];
    forall i, j | 0 <= i < j < |ys| ensures ys[i] != ys[j] {
      if j == |xs| {
        assert ys[i] == xs[i];
      }
    }
  }

  /** A list without repeats has as many elements as its set. */
  lemma {:induction false} NoDupSize<T>(xs: seq<T>)
    requires NoDup(xs)
    ensures |ToSet(xs)| == |xs|
  {
    if xs != [] {
      var init := xs[..|xs| - 1];
      var x := xs[|xs| - 1];
      assert xs == init + [x];
      assert NoDup(init);
      assert x !in init by {
        forall i | 0 <= i < |init| ensures init[i] != x {
          assert xs[i] == init[i];
        }
      }
      NoDupSize(init);
      NoDupSnoc(init, x);
    }
  }
}
