/**
 * `IndexSegment.merge`: unions the raw postings of its segments term by term and keeps the old ids;
 * `maxDocId` becomes the size of the largest union. It writes the merged segment's file before
 * returning it. (`mergeWithRemap` is in module RemapMerge.)
 *
 * The segments are taken as values; the file system's answer to writing the file is a parameter.
 */
module SegmentMerge {
  import opened JavaInts
  import opened Wrappers
  import opened SortedSets
  import opened JavaCharsets
  import opened IndexSegment
  import opened SegmentFormat
  import BF = BloomFilter

  /** The `agg` map of both merges: the ids collected so far for each term. */
  type Agg = map<Term, set<int32>>

  /** `agg.computeIfAbsent(t, k -> new TreeSet<>()).addAll(ids)`. */
  function AddIds(agg: Agg, t: Term, ids: set<int32>): (r: Agg)
    ensures r.Keys == agg.Keys + {t}
  {
    agg[t := (if t in agg then agg[t] else {}) + ids]
  }

  /** The postings a merged segment stores: each collected set as an ascending list. */
  ghost function SortedLists(agg: Agg): (p: map<Term, seq<int32>>)
    ensures p.Keys == agg.Keys
  {
    map t | t in agg :: Sorted(agg[t])
  }

  /** `out.postings.put(t, new ArrayList<>(agg.get(t)))` for every term of `agg`. */
  method SortedPostings(agg: Agg) returns (p: map<Term, seq<int32>>)
    ensures p == SortedLists(agg)
  {
    p := map[];
    var rest := agg.Keys;
    while rest != {}
      invariant rest <= agg.Keys
      invariant forall t :: t in p <==> t in agg && t !in rest
      invariant forall t :: t in p ==> p[t] == Sorted(agg[t])
      decreases rest
    {
      var t :| t in rest;
      var list := ToSortedList(agg[t]);
      p := p[t := list];
      rest := rest - {t};
    }
  }

  /** A new filter of the segment's size with every term of `terms` added. */
  method BuildBloom(terms: set<Term>) returns (f: BF.Filter)
    ensures f == BloomOf(terms)
  {
    var bloom := new BF.BloomFilter(BLOOM_BITS, BLOOM_PROBES);
    BloomOfNothing();
    var rest := terms;
    ghost var done: set<Term> := {};
    while rest != {}
      invariant rest + done == terms && rest !! done
      invariant bloom.Value() == BloomOf(done)
      decreases rest
    {
      var t :| t in rest;
      AddTerm(bloom, done, t);
      done := done + {t};
      rest := rest - {t};
    }
    f := bloom.Value();
  }

  /** `bloom.add(term)` on a filter that holds the probes of the terms of `done`. */
  method AddTerm(bloom: BF.BloomFilter, ghost done: set<Term>, t: Term)
    requires bloom.Value() == BloomOf(done)
    modifies bloom
    ensures bloom.Value() == BloomOf(done + {t})
  {
    bloom.Add(Utf8(t));
    BloomOfInsert(done, t);
  }

  // ---------------------------------------------------------------- merge

  /** The union of the raw lists of `s` for the terms of `keys`, added to `agg`. */
  function AddRaw(agg: Agg, s: Segment, keys: set<Term>): Agg
    requires keys <= s.postings.Keys
  {
    map t | t in agg.Keys + keys :: (if t in agg then agg[t] else {}) + (if t in keys then Elems(s.postings[t]) else {})
  }

  /** The inner loop of `merge` over one segment's entries: add each raw list to its term's set. */
  method AddSegment(agg0: Agg, s: Segment) returns (agg: Agg)
    ensures agg == AddRaw(agg0, s, s.postings.Keys)
  {
    agg := agg0;
    ghost var done: set<Term> := {};
    var rest := s.postings.Keys;
    while rest != {}
      invariant rest + done == s.postings.Keys && rest !! done
      invariant Collected(agg0, s, done, agg)
      decreases rest
    {
      var t :| t in rest;
      CollectedStep(agg0, s, done, agg, t);
      agg := AddIds(agg, t, Elems(s.postings[t]));
      done := done + {t};
      rest := rest - {t};
    }
    AddRawIs(agg0, s, done, agg);
  }

  /** `agg` holds `agg0` with the raw lists of the terms of `keys` added. */
  ghost predicate Collected(agg0: Agg, s: Segment, keys: set<Term>, agg: Agg)
    requires keys <= s.postings.Keys
  {
    && agg.Keys == agg0.Keys + keys
    && forall u :: u in agg ==>
         agg[u] == (if u in agg0 then agg0[u] else {}) + (if u in keys then Elems(s.postings[u]) else {})
  }

  lemma CollectedStep(agg0: Agg, s: Segment, keys: set<Term>, agg: Agg, t: Term)
    requires keys <= s.postings.Keys && t in s.postings && t !in keys
    requires Collected(agg0, s, keys, agg)
    ensures Collected(agg0, s, keys + {t}, AddIds(agg, t, Elems(s.postings[t])))
  {
  }

  /** A map with the keys and the sets of `AddRaw` is `AddRaw`. */
  lemma AddRawIs(agg0: Agg, s: Segment, keys: set<Term>, agg: Agg)
    requires keys <= s.postings.Keys
    requires Collected(agg0, s, keys, agg)
    ensures agg == AddRaw(agg0, s, keys)
  {
  }

  /** `agg` after the first loop of `merge`: every term of every segment with the union of its raw lists. */
  function RawAgg(segs: seq<Segment>): Agg
    decreases |segs|
  {
    if segs == [] then map[]
    else
      var last := segs[|segs| - 1];
      AddRaw(RawAgg(segs[..|segs| - 1]), last, last.postings.Keys)
  }

  /** A term is collected exactly when some segment has it, with every raw id any segment lists for it. */
  lemma {:induction false} RawAggHas(segs: seq<Segment>, t: Term, d: int32)
    ensures t in RawAgg(segs) <==> exists j :: 0 <= j < |segs| && t in segs[j].postings
    ensures t in RawAgg(segs) ==> (d in RawAgg(segs)[t] <==> exists j :: 0 <= j < |segs| && d in RawPostings(segs[j], t))
    decreases |segs|
  {
    if segs != [] {
      var n := |segs| - 1;
      var init := segs[..n];
      RawAggHas(init, t, d);
      assert forall j :: 0 <= j < n ==> init[j] == segs[j];
      if t in RawAgg(segs) && d in RawAgg(segs)[t] {
        if d !in Elems(RawPostings(segs[n], t)) {
          var j :| 0 <= j < n && d in RawPostings(init[j], t);
          assert d in RawPostings(segs[j], t);
        }
      }
    }
  }

  /** `m` is what `mapToInt(TreeSet::size).max().orElse(0)` gives for the sets of `keys`. */
  predicate IsLargest(m: int32, agg: Agg, keys: set<Term>)
    requires keys <= agg.Keys
  {
    && (keys == {} ==> m == 0)
    && (keys != {} ==> exists t :: t in keys && m == Wrap32(|agg[t]|))
    && forall t :: t in keys ==> Wrap32(|agg[t]|) <= m
  }

  lemma {:induction false} LargestExists(agg: Agg, keys: set<Term>)
    requires keys <= agg.Keys
    ensures exists m :: IsLargest(m, agg, keys)
    decreases keys
  {
    if keys == {} {
      assert IsLargest(0, agg, keys);
    } else {
      var t :| t in keys;
      var rest := keys - {t};
      var size := Wrap32(|agg[t]|);
      if rest == {} {
        assert keys == {t};
        assert IsLargest(size, agg, keys);
      } else {
        LargestExists(agg, rest);
        var m :| IsLargest(m, agg, rest);
        var u :| u in rest && m == Wrap32(|agg[u]|);
        var big := if size > m then size else m;
        assert big == Wrap32(|agg[if size > m then t else u]|);
        assert IsLargest(big, agg, keys);
      }
    }
  }

  lemma LargestUnique(m1: int32, m2: int32, agg: Agg, keys: set<Term>)
    requires keys <= agg.Keys
    requires IsLargest(m1, agg, keys) && IsLargest(m2, agg, keys)
    ensures m1 == m2
  {
    if keys != {} {
      var t1 :| t1 in keys && m1 == Wrap32(|agg[t1]|);
      var t2 :| t2 in keys && m2 == Wrap32(|agg[t2]|);
    }
  }

  /** The largest set size of `agg`, 0 when it is empty. */
  ghost function Largest(agg: Agg): (m: int32)
    ensures IsLargest(m, agg, agg.Keys)
  {
    LargestExists(agg, agg.Keys);
    var m :| IsLargest(m, agg, agg.Keys);
    m
  }

  /** `agg.values().stream().mapToInt(TreeSet::size).max().orElse(0)`. */
  method LargestSize(agg: Agg) returns (m: int32)
    ensures m == Largest(agg)
  {
    m := 0;
    var found := false;
    var rest := agg.Keys;
    ghost var done: set<Term> := {};
    while rest != {}
      invariant rest + done == agg.Keys && rest !! done
      invariant found <==> done != {}
      invariant IsLargest(m, agg, done)
      decreases rest
    {
      var t :| t in rest;
      var size := Wrap32(|agg[t]|);
      if !found || size > m {
        m := size;
      }
      found := true;
      done := done + {t};
      rest := rest - {t};
    }
    LargestUnique(m, Largest(agg), agg, agg.Keys);
  }

  /** The segment `merge(dir, newId, segs)` builds: sorted unions of raw lists, nothing deleted, fresh filter. */
  ghost function MergeSpec(newId: string, segs: seq<Segment>): Segment {
    var agg := RawAgg(segs);
    Segment(newId, SortedLists(agg), {}, Largest(agg), BloomOf(agg.Keys))
  }

  /**
   * `merge(dir, newId, segs)`: collect every term's raw ids, store them as ascending lists, add every
   * term to a new filter, set `maxDocId` to the largest set size and write the file.
   */
  method Merge(newId: string, segs: seq<Segment>, io: Option<JavaError>) returns (r: Result<Segment>)
    ensures r == Saved(MergeSpec(newId, segs), io)
  {
    var agg: Agg := map[];
    for i := 0 to |segs|
      invariant agg == RawAgg(segs[..i])
    {
      agg := AddSegment(agg, segs[i]);
      assert segs[..i + 1][..i] == segs[..i];
    }
    assert segs[..|segs|] == segs;
    var postings := SortedPostings(agg);
    var bloom := BuildBloom(agg.Keys);
    var maxDocId := LargestSize(agg);
    r := Saved(Segment(newId, postings, {}, maxDocId, bloom), io);
  }

  // ---------------------------------------------------------------- properties of merge

  /** The merged segment has exactly the terms of the inputs, each with the union of their raw lists, ascending. */
  lemma MergeUnionsRaw(newId: string, segs: seq<Segment>, t: Term, d: int32)
    ensures var out := MergeSpec(newId, segs);
      && (t in out.postings <==> exists j :: 0 <= j < |segs| && t in segs[j].postings)
      && StrictlyAscending(RawPostings(out, t))
      && (d in RawPostings(out, t) <==> exists j :: 0 <= j < |segs| && d in RawPostings(segs[j], t))
  {
    RawAggHas(segs, t, d);
    var agg := RawAgg(segs);
    if t in agg {
      SortedIs(agg[t]);
    }
  }

  /**
   * Deleted ids come back: an id a segment lists for a term but has deleted is live again in the
   * result of merging that segment, because the raw lists are merged and the result deletes nothing.
   */
  lemma MergeRevivesDeleted(newId: string, seg: Segment, t: Term, d: int32)
    requires d in RawPostings(seg, t) && d in seg.deleted
    ensures d !in Postings(seg, t)
    ensures d in Postings(MergeSpec(newId, [seg]), t)
  {
    RawAggHas([seg], t, d);
    assert [seg][0] == seg;
    SortedIs(RawAgg([seg])[t]);
    WithoutDeletedHas(RawPostings(seg, t), seg.deleted);
    WithoutNothingDeleted(RawPostings(MergeSpec(newId, [seg]), t));
  }

  /** `maxDocId` of the result is the size of the largest union, not the largest id. */
  lemma MergeMaxDocId(newId: string, segs: seq<Segment>)
    ensures var out := MergeSpec(newId, segs);
      && (out.postings == map[] ==> out.maxDocId == 0)
      && (out.postings != map[] ==> exists t :: t in out.postings && out.maxDocId == Wrap32(|RawAgg(segs)[t]|))
      && forall t :: t in out.postings ==> Wrap32(|RawAgg(segs)[t]|) <= out.maxDocId
  {
    var agg := RawAgg(segs);
    if agg != map[] {
      var u :| u in agg;
    }
  }

  /** One segment holding id 5 for one term merges into a segment whose `maxDocId` is 1. */
  lemma MergeMaxDocIdIsNotLargestId()
    ensures var seg := EmptySegment("s").(postings := map["a" := [5]]);
      && MergeSpec("m", [seg]).maxDocId == 1
      && 5 in RawPostings(MergeSpec("m", [seg]), "a")
  {
    var seg := EmptySegment("s").(postings := map["a" := [5]]);
    RawAggHas([seg], "a", 5);
    assert [seg][0] == seg;
    var agg := RawAgg([seg]);
    assert agg.Keys == {"a"} by {
      assert [seg][..0] == [];
    }
    assert agg["a"] == {5} by {
      assert forall d :: d in agg["a"] <==> d == 5 by {
        forall d ensures d in agg["a"] <==> d == 5 {
          RawAggHas([seg], "a", d);
        }
      }
    }
    assert Wrap32(|agg["a"]|) == 1;
  }

  /** Every term of the merged segment passes its filter. */
  lemma MergeAdmitsTerms(newId: string, segs: seq<Segment>, t: Term)
    requires t in MergeSpec(newId, segs).postings
    ensures MayHold(MergeSpec(newId, segs), t)
  {
    BloomOfAdmits(MergeSpec(newId, segs).postings.Keys, t);
  }
}
