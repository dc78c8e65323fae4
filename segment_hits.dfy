/**
 * The per-segment hit maps the search services build: segment id to the set of doc ids found in
 * that segment (`Map<String, Set<Integer>>`), and the two ways the services change them: adding
 * the ids of a postings list under a segment id, and intersecting with the next term's map.
 */
module SegmentHits {
  import opened JavaInts
  import opened Wrappers
  import opened SortedSets
  import opened IndexSegment

  /** Segment id to the doc ids found in that segment. */
  type Hits = map<string, set<int32>>

  /** A (segment id, doc id) pair. */
  type Hit = (string, int32)

  /** The (segment id, doc id) pairs of a hit map. */
  function Pairs(acc: Hits): set<Hit> {
    set s, d | s in acc && d in acc[s] :: (s, d)
  }

  /** The pairs of the segments in `keys`. */
  ghost function PairsOf(acc: Hits, keys: set<string>): set<Hit> {
    set s, d | s in keys && s in acc && d in acc[s] :: (s, d)
  }

  /** A pair is in `Pairs(acc)` exactly when its doc id is in its segment's set. */
  lemma PairsHas(acc: Hits, p: Hit)
    ensures p in Pairs(acc) <==> p.0 in acc && p.1 in acc[p.0]
  {
    if p.0 in acc && p.1 in acc[p.0] {
      assert (p.0, p.1) in Pairs(acc);
    }
  }

  /** The pairs of one segment id and a set of its doc ids. */
  function SegPairs(s: string, docs: set<int32>): set<Hit> {
    set d | d in docs :: (s, d)
  }

  /** Adding one more segment's pairs. */
  lemma PairsOfAdd(acc: Hits, keys: set<string>, s: string)
    requires s in acc
    ensures PairsOf(acc, keys + {s}) == PairsOf(acc, keys) + SegPairs(s, acc[s])
  {
  }

  /** All segments' pairs are the pairs of the map. */
  lemma PairsOfAll(acc: Hits)
    ensures PairsOf(acc, acc.Keys) == Pairs(acc)
  {
  }

  // ---------------------------------------------------------------- adding ids

  /** `computeIfAbsent(id, k -> new HashSet<>()).add(d)` for every `d` of `xs`, in order. */
  function AddAll(m: Hits, id: string, xs: seq<int32>): (r: Hits)
    ensures r.Keys == if xs == [] then m.Keys else m.Keys + {id}
    ensures forall s :: s in m && s != id ==> r[s] == m[s]
    ensures xs != [] ==> forall d :: d in r[id] <==> d in xs || (id in m && d in m[id])
  {
    if xs == [] then m else m[id := (if id in m then m[id] else {}) + Elems(xs)]
  }

  /** The loop that adds the ids of one list. */
  method AddEach(m: Hits, id: string, xs: seq<int32>) returns (r: Hits)
    ensures r == AddAll(m, id, xs)
  {
    r := m;
    for j := 0 to |xs|
      invariant r == AddAll(m, id, xs[..j])
    {
      AddAllSnoc(m, id, xs[..j], xs[j]);
      assert xs[..j + 1] == xs[..j] + [xs[j]];
      r := r[id := (if id in r then r[id] else {}) + {xs[j]}];
    }
    assert xs[..|xs|] == xs;
  }

  lemma AddAllSnoc(m: Hits, id: string, xs: seq<int32>, x: int32)
    ensures var r := AddAll(m, id, xs);
      AddAll(m, id, xs + [x]) == r[id := (if id in r then r[id] else {}) + {x}]
  {
    var r := AddAll(m, id, xs);
    var r' := AddAll(m, id, xs + [x]);
    assert r'[id] == (if id in r then r[id] else {}) + {x};
  }

  // ---------------------------------------------------------------- intersecting

  /**
   * The per-segment intersection: a segment stays with the ids in both maps, and leaves when none
   * is left.
   */
  function Intersect(acc: Hits, local: Hits): (r: Hits)
    ensures r.Keys <= acc.Keys * local.Keys
    ensures forall s :: s in r ==> r[s] != {}
  {
    map s | s in acc && s in local && acc[s] * local[s] != {} :: acc[s] * local[s]
  }

  /** A pair survives the intersection exactly when both maps have it. */
  lemma IntersectHas(acc: Hits, local: Hits, s: string, d: int32)
    ensures (s in Intersect(acc, local) && d in Intersect(acc, local)[s])
      <==> (s in acc && d in acc[s] && s in local && d in local[s])
  {
    if s in acc && d in acc[s] && s in local && d in local[s] {
      assert d in acc[s] * local[s];
    }
  }

  /** The map after the keys outside `todo` have been intersected. */
  ghost function Retained(acc: Hits, local: Hits, todo: set<string>): Hits {
    map s | s in acc && (s in todo || (s in local && acc[s] * local[s] != {})) ::
      if s in todo then acc[s] else acc[s] * local[s]
  }

  /**
   * The loop over a copy of the key set: keep in each segment's set the ids the next map has for
   * that segment (`getOrDefault(seg, Set.of())`), and drop the segment when its set empties.
   */
  method RetainAll(acc: Hits, local: Hits) returns (r: Hits)
    ensures r == Intersect(acc, local)
  {
    r := acc;
    var todo := acc.Keys;
    while todo != {}
      invariant todo <= acc.Keys
      invariant r == Retained(acc, local, todo)
      decreases |todo|
    {
      var s :| s in todo;
      var cur := r[s] * (if s in local then local[s] else {});
      RetainedStep(acc, local, todo, s);
      if cur == {} {
        r := r - {s};
      } else {
        r := r[s := cur];
      }
      todo := todo - {s};
    }
    RetainedDone(acc, local);
  }

  lemma RetainedDone(acc: Hits, local: Hits)
    ensures Retained(acc, local, {}) == Intersect(acc, local)
  {
  }

  lemma RetainedStep(acc: Hits, local: Hits, todo: set<string>, s: string)
    requires todo <= acc.Keys && s in todo
    ensures var r := Retained(acc, local, todo);
      var cur := r[s] * (if s in local then local[s] else {});
      Retained(acc, local, todo - {s}) == if cur == {} then r - {s} else r[s := cur]
  {
  }

  /** Intersecting with an empty map empties; an empty map stays empty. */
  lemma IntersectEmpty(acc: Hits, local: Hits)
    ensures Intersect(acc, map[]) == map[] && Intersect(map[], local) == map[]
  {
  }

  /** Intersecting a map with itself keeps it, once no segment has an empty set. */
  lemma IntersectSelf(acc: Hits)
    requires forall s :: s in acc ==> acc[s] != {}
    ensures Intersect(acc, acc) == acc
  {
    assert forall s :: s in acc ==> acc[s] * acc[s] == acc[s];
  }

  // ---------------------------------------------------------------- the per-term maps

  /**
   * What one segment adds to a term's map: nothing when its filter rules the term out
   * (`mightContainTerm`), else its raw list (`getRawPostings`) or, with `live`, its list without
   * the deleted ids (`getPostings`).
   */
  function Listed(seg: Segment, t: Term, live: bool): seq<int32> {
    if !MayHold(seg, t) then [] else if live then Postings(seg, t) else RawPostings(seg, t)
  }

  /** A term's map: the ids every segment lists, added under its id in list order (`computeIfAbsent(...).add(id)`). */
  function UnionLocal(segs: seq<Segment>, t: Term, live: bool): Hits {
    if segs == [] then map[]
    else
      var last := segs[|segs| - 1];
      AddAll(UnionLocal(segs[..|segs| - 1], t, live), last.id, Listed(last, t, live))
  }

  /** A pair is in a term's map exactly when some segment with that id lists the doc id. */
  lemma {:induction false} UnionLocalHas(segs: seq<Segment>, t: Term, live: bool, s: string, d: int32)
    ensures (s in UnionLocal(segs, t, live) && d in UnionLocal(segs, t, live)[s])
      <==> exists k :: 0 <= k < |segs| && segs[k].id == s && d in Listed(segs[k], t, live)
  {
    if segs != [] {
      var n := |segs|;
      var prefix := segs[..n - 1];
      var last := segs[n - 1];
      UnionLocalHas(prefix, t, live, s, d);
      UnionLocalStep(segs, t, live, s, d);
      ListedSnoc(segs, t, live, s, d);
    }
  }

  /** Some segment of `segs` lists the pair exactly when one before the last does or the last does. */
  lemma ListedSnoc(segs: seq<Segment>, t: Term, live: bool, s: string, d: int32)
    requires segs != []
    ensures var prefix := segs[..|segs| - 1];
      var last := segs[|segs| - 1];
      (exists k :: 0 <= k < |segs| && segs[k].id == s && d in Listed(segs[k], t, live))
      <==> ((exists k :: 0 <= k < |prefix| && prefix[k].id == s && d in Listed(prefix[k], t, live))
            || (last.id == s && d in Listed(last, t, live)))
  {
    ExistsSnoc(segs, segs[..|segs| - 1], (seg: Segment) => seg.id == s && d in Listed(seg, t, live));
  }

  /** An element satisfies `p` exactly when one before the last does or the last does. */
  lemma ExistsSnoc<T>(xs: seq<T>, prefix: seq<T>, p: T -> bool)
    requires xs != [] && prefix == xs[..|xs| - 1]
    ensures (exists k :: 0 <= k < |xs| && p(xs[k]))
      <==> ((exists k :: 0 <= k < |prefix| && p(prefix[k])) || p(xs[|xs| - 1]))
  {
    var n := |xs|;
    if exists k :: 0 <= k < n && p(xs[k]) {
      var k :| 0 <= k < n && p(xs[k]);
      if k < n - 1 {
        assert prefix[k] == xs[k];
      }
    }
    if exists k :: 0 <= k < n - 1 && p(prefix[k]) {
      var k :| 0 <= k < n - 1 && p(prefix[k]);
      assert xs[k] == prefix[k];
    }
  }

  /** The last segment's step: a pair is in the map when it was before or the last segment lists it. */
  lemma UnionLocalStep(segs: seq<Segment>, t: Term, live: bool, s: string, d: int32)
    requires segs != []
    ensures var before := UnionLocal(segs[..|segs| - 1], t, live);
      var u := UnionLocal(segs, t, live);
      var last := segs[|segs| - 1];
      (s in u && d in u[s]) <==> (s in before && d in before[s]) || (s == last.id && d in Listed(last, t, live))
  {
    var last := segs[|segs| - 1];
    AddAllHas(UnionLocal(segs[..|segs| - 1], t, live), last.id, Listed(last, t, live), s, d);
  }

  /** A pair is in `AddAll(m, id, xs)` exactly when it was in `m` or it is `(id, d)` for a `d` of `xs`. */
  lemma AddAllHas(m: Hits, id: string, xs: seq<int32>, s: string, d: int32)
    ensures var r := AddAll(m, id, xs);
      (s in r && d in r[s]) <==> (s in m && d in m[s]) || (s == id && d in xs)
  {
  }

  /** The loop over the segments that builds one term's map. */
  method BuildLocal(segs: seq<Segment>, t: Term, live: bool) returns (local: Hits)
    ensures local == UnionLocal(segs, t, live)
  {
    local := map[];
    for k := 0 to |segs|
      invariant local == UnionLocal(segs[..k], t, live)
    {
      assert segs[..k + 1][..k] == segs[..k];
      var seg := segs[k];
      if MayHold(seg, t) {
        var xs: seq<int32>;
        if live {
          xs := GetPostings(seg, t);
        } else {
          xs := RawPostings(seg, t);
        }
        local := AddEach(local, seg.id, xs);
      }
    }
    assert segs[..|segs|] == segs;
  }

  /** The maps of the terms of a query, in query order. */
  function Locals(segs: seq<Segment>, terms: seq<Term>, live: bool): seq<Hits> {
    seq(|terms|, k requires 0 <= k < |terms| => UnionLocal(segs, terms[k], live))
  }

  lemma LocalsSnoc(segs: seq<Segment>, terms: seq<Term>, i: nat, live: bool)
    requires i < |terms|
    ensures Locals(segs, terms[..i + 1], live) == Locals(segs, terms[..i], live) + [UnionLocal(segs, terms[i], live)]
  {
    var prev := Locals(segs, terms[..i], live);
    var next := Locals(segs, terms[..i + 1], live);
    forall k | 0 <= k < i ensures next[k] == prev[k] {
      assert terms[..i + 1][k] == terms[..i][k];
    }
    assert next[i] == UnionLocal(segs, terms[i], live);
    SnocOf(prev, next, UnionLocal(segs, terms[i], live));
  }

  /** A list that agrees with `prev` and then ends in `x` is `prev + [x]`. */
  lemma SnocOf<T>(prev: seq<T>, next: seq<T>, x: T)
    requires |next| == |prev| + 1 && next[|prev|] == x
    requires forall k :: 0 <= k < |prev| ==> next[k] == prev[k]
    ensures next == prev + [x]
  {
  }

  lemma LocalsAt(segs: seq<Segment>, terms: seq<Term>, live: bool, k: nat)
    requires k < |terms|
    ensures Locals(segs, terms, live)[k] == UnionLocal(segs, terms[k], live)
  {
  }

  // ---------------------------------------------------------------- combining the terms

  /**
   * The AND over the terms' maps with a `null`-initialised accumulator: nothing for no term, the
   * first map for the first term, and the intersection with each later map.
   */
  function AndAll(locals: seq<Hits>): Option<Hits> {
    if locals == [] then None
    else
      var prev := AndAll(locals[..|locals| - 1]);
      var local := locals[|locals| - 1];
      Some(if prev.None? then local else Intersect(prev.value, local))
  }

  lemma AndAllSnoc(locals: seq<Hits>, local: Hits)
    ensures AndAll(locals + [local])
      == Some(if AndAll(locals).None? then local else Intersect(AndAll(locals).value, local))
  {
    assert (locals + [local])[..|locals|] == locals;
  }

  /** A pair survives the AND exactly when every term's map has it. */
  lemma {:induction false} AndAllHas(locals: seq<Hits>, s: string, d: int32)
    requires locals != []
    ensures (s in AndAll(locals).value && d in AndAll(locals).value[s])
      <==> forall k :: 0 <= k < |locals| ==> s in locals[k] && d in locals[k][s]
  {
    var n := |locals|;
    var prefix := locals[..n - 1];
    assert locals == prefix + [locals[n - 1]];
    AndAllSnoc(prefix, locals[n - 1]);
    if n > 1 {
      AndAllHas(prefix, s, d);
      IntersectHas(AndAll(prefix).value, locals[n - 1], s, d);
      assert forall k :: 0 <= k < n - 1 ==> prefix[k] == locals[k];
    }
  }

  /** Once the AND is empty, no later term brings anything back. */
  lemma AndAllEmptyStays(locals: seq<Hits>, local: Hits)
    requires AndAll(locals) == Some(map[])
    ensures AndAll(locals + [local]) == Some(map[])
  {
    AndAllSnoc(locals, local);
    IntersectEmpty(map[], local);
  }

  /**
   * The combination with an accumulator that starts as the empty map and is replaced by the next
   * term's map whenever it is empty (`if (segToDocSet.isEmpty()) segToDocSet = local`).
   */
  function Revive(locals: seq<Hits>): Hits {
    if locals == [] then map[]
    else
      var prev := Revive(locals[..|locals| - 1]);
      var local := locals[|locals| - 1];
      if prev == map[] then local else Intersect(prev, local)
  }

  lemma ReviveSnoc(locals: seq<Hits>, local: Hits)
    ensures Revive(locals + [local]) == if Revive(locals) == map[] then local else Intersect(Revive(locals), local)
  {
    assert (locals + [local])[..|locals|] == locals;
  }

  /** An emptied combination is replaced by the next term's map. */
  lemma ReviveRestarts(locals: seq<Hits>, local: Hits)
    requires Revive(locals) == map[]
    ensures Revive(locals + [local]) == local
  {
    ReviveSnoc(locals, local);
  }

  /** While no prefix of the terms empties it, the combination is the AND. */
  lemma {:induction false} ReviveIsAnd(locals: seq<Hits>)
    requires locals != []
    requires forall k :: 1 <= k < |locals| ==> Revive(locals[..k]) != map[]
    ensures Revive(locals) == AndAll(locals).value
  {
    var n := |locals|;
    var prefix := locals[..n - 1];
    assert locals == prefix + [locals[n - 1]];
    ReviveSnoc(prefix, locals[n - 1]);
    AndAllSnoc(prefix, locals[n - 1]);
    if n > 1 {
      forall k | 1 <= k < |prefix| ensures Revive(prefix[..k]) != map[] {
        assert prefix[..k] == locals[..k];
      }
      ReviveIsAnd(prefix);
    } else {
      assert prefix == [];
    }
  }
}
