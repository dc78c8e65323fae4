/**
 * What `IndexSegment.mergeWithRemap` promises about its result: one `remap` entry per live doc, new
 * ids that are `remap` indices, and postings that are the parts' live postings under the new ids.
 */
module RemapFacts {
  import opened JavaInts
  import opened SortedSets
  import opened IndexSegment
  import opened SegmentMerge
  import opened RemapMerge
  import opened JavaCharsets
  import BF = BloomFilter

  /** The number of live docs of the first `n` parts. */
  ghost function LiveCount(parts: seq<Segment>, n: nat): nat
    requires n <= |parts|
  {
    if n == 0 then 0 else LiveCount(parts, n - 1) + |LiveDocs(parts[n - 1])|
  }

  /** `remap` has one entry per live doc of the parts. */
  lemma {:induction false} RemapSize(parts: seq<Segment>, n: nat)
    requires n <= |parts|
    ensures |Remap(parts, n)| == LiveCount(parts, n)
  {
    if n > 0 {
      RemapSize(parts, n - 1);
      BlockSize(parts[n - 1]);
    }
  }

  lemma LiveListAscending(s: Segment)
    ensures StrictlyAscending(LiveList(s))
  {
    SortedIs(LiveDocs(s));
  }

  /** A part contributes one pointer per live doc. */
  lemma BlockSize(s: Segment)
    ensures |Pointers(s.id, LiveList(s))| == |LiveDocs(s)|
  {
    SortedIs(LiveDocs(s));
  }

  /** The listed live docs are the live docs. */
  lemma LiveListHas(s: Segment)
    ensures forall d :: d in LiveList(s) <==> d in LiveDocs(s)
  {
    SortedIs(LiveDocs(s));
  }

  /** The listed live docs have no repeats: the `i`-th is found at `i`. */
  lemma LiveListIndex(s: Segment, i: nat)
    requires i < |LiveList(s)|
    ensures IndexOf(LiveList(s), LiveList(s)[i]) == i
  {
    LiveListAscending(s);
    IndexOfAscending(LiveList(s), i);
  }

  /** Part `j`'s `i`-th live doc sits at `|Remap(parts, j)| + i` in `remap`. */
  lemma {:induction false} RemapAt(parts: seq<Segment>, n: nat, j: nat, i: nat)
    requires j < n <= |parts| && i < |LiveList(parts[j])|
    ensures |Remap(parts, j)| + i < |Remap(parts, n)|
    ensures Remap(parts, n)[|Remap(parts, j)| + i] == DocPointer(parts[j].id, LiveList(parts[j])[i])
  {
    if n > j + 1 {
      RemapAt(parts, n - 1, j, i);
    }
  }

  /** Every index of `remap` lies in the block of some part. */
  lemma {:induction false} RemapBlock(parts: seq<Segment>, n: nat, k: nat) returns (j: nat)
    requires n <= |parts| && k < |Remap(parts, n)|
    ensures j < n && |Remap(parts, j)| <= k < |Remap(parts, j)| + |LiveList(parts[j])|
  {
    var before := |Remap(parts, n - 1)|;
    if k < before {
      j := RemapBlock(parts, n - 1, k);
    } else {
      j := n - 1;
    }
  }

  /** Where live doc `d` of part `j` lands in `remap`: the part's offset plus `d`'s rank among its live docs. */
  ghost function Slot(parts: seq<Segment>, j: nat, d: int32): nat
    requires j < |parts| && d in LiveList(parts[j])
  {
    |Remap(parts, j)| + IndexOf(LiveList(parts[j]), d)
  }

  /**
   * Every live doc `d` of part `j` gets a new id: its index `k` in `remap`, where `remap` points
   * back to `(parts[j].id, d)`. The index is the part's offset plus `d`'s rank among the part's live
   * docs; the id is that index as an `int`.
   */
  lemma RemapPointsBack(parts: seq<Segment>, j: nat, d: int32)
    requires j < |parts| && d in LiveDocs(parts[j])
    ensures d in LiveList(parts[j])
    ensures Slot(parts, j, d) < |Remap(parts, |parts|)|
    ensures Remap(parts, |parts|)[Slot(parts, j, d)] == DocPointer(parts[j].id, d)
    ensures d in Renumbering(parts, j) && Renumbering(parts, j)[d] == Wrap32(Slot(parts, j, d))
  {
    LiveListHas(parts[j]);
    var i := IndexOf(LiveList(parts[j]), d);
    RemapAt(parts, |parts|, j, i);
    RenumberingRank(parts, j, i);
  }

  lemma NumberFromAt(base: int, xs: seq<int32>, d: int32)
    requires d in xs
    ensures d in NumberFrom(base, xs) && NumberFrom(base, xs)[d] == NewId(base, xs, d)
  {
  }

  /**
   * Every entry of `remap` is a live doc of a part, whose new id is the entry's index: new ids run
   * over `0..N-1` with no gap.
   */
  lemma RemapFromLive(parts: seq<Segment>, k: nat)
    requires k < |Remap(parts, |parts|)|
    ensures var p := Remap(parts, |parts|)[k];
      exists j :: 0 <= j < |parts| && p.segId == parts[j].id && p.docId in LiveDocs(parts[j])
        && p.docId in Renumbering(parts, j) && Renumbering(parts, j)[p.docId] == Wrap32(k)
  {
    var j := RemapBlock(parts, |parts|, k);
    var i := k - |Remap(parts, j)|;
    RemapFromPart(parts, j, i);
    assert |Remap(parts, j)| + i == k;
  }

  /** `RemapFromLive` for the entry of part `j`'s `i`-th live doc. */
  lemma RemapFromPart(parts: seq<Segment>, j: nat, i: nat)
    requires j < |parts| && i < |LiveList(parts[j])|
    ensures |Remap(parts, j)| + i < |Remap(parts, |parts|)|
    ensures var k := |Remap(parts, j)| + i;
      var p := Remap(parts, |parts|)[k];
      && p.segId == parts[j].id && p.docId in LiveDocs(parts[j])
      && p.docId in Renumbering(parts, j) && Renumbering(parts, j)[p.docId] == Wrap32(k)
  {
    RemapEntry(parts, j, i);
    RenumberingRank(parts, j, i);
  }

  /** The entry of `remap` for part `j`'s `i`-th live doc. */
  lemma RemapEntry(parts: seq<Segment>, j: nat, i: nat)
    requires j < |parts| && i < |LiveList(parts[j])|
    ensures |Remap(parts, j)| + i < |Remap(parts, |parts|)|
    ensures Remap(parts, |parts|)[|Remap(parts, j)| + i] == DocPointer(parts[j].id, LiveList(parts[j])[i])
    ensures LiveList(parts[j])[i] in LiveDocs(parts[j])
  {
    RemapAt(parts, |parts|, j, i);
    LiveListHas(parts[j]);
    assert LiveList(parts[j])[i] in LiveList(parts[j]);
  }

  /** The new id of part `j`'s `i`-th live doc is `|Remap(parts, j)| + i` as an `int`. */
  lemma RenumberingRank(parts: seq<Segment>, j: nat, i: nat)
    requires j < |parts| && i < |LiveList(parts[j])|
    ensures LiveList(parts[j])[i] in Renumbering(parts, j)
    ensures Renumbering(parts, j)[LiveList(parts[j])[i]] == Wrap32(|Remap(parts, j)| + i)
  {
    LiveListIndex(parts[j], i);
    NumberFromAt(|Remap(parts, j)|, LiveList(parts[j]), LiveList(parts[j])[i]);
  }

  /** `remap` has as many entries as there are live docs, `maxDocId` is that count as an `int`, and nothing is deleted. */
  lemma RemapCounts(newId: string, parts: seq<Segment>)
    ensures var out := MergeWithRemapSpec(newId, parts);
      && |out.remap| == LiveCount(parts, |parts|)
      && out.segment.maxDocId == Wrap32(LiveCount(parts, |parts|))
      && out.segment.deleted == {}
  {
    RemapSize(parts, |parts|);
  }

  /** The terms and the ids `agg` collects over the first `n` parts, part `j` renumbered by `ms[j]`. */
  lemma AggOverHas(parts: seq<Segment>, ms: seq<map<int32, int32>>, n: nat, t: Term, x: int32)
    requires n <= |parts| == |ms|
    ensures t in AggOver(parts, ms, n) <==> exists j :: 0 <= j < n && LivePostings(parts[j], t) != {}
    ensures t in AggOver(parts, ms, n) ==>
      (x in AggOver(parts, ms, n)[t] <==> exists j :: 0 <= j < n && MapsTo(parts, ms, j, t, x))
  {
    AggOverKeys(parts, ms, n, t);
    if t in AggOver(parts, ms, n) {
      AggOverIds(parts, ms, n, t, x);
    }
  }

  /** The terms `agg` collects over the first `n` parts are those with a live posting in one of them. */
  lemma {:induction false} AggOverKeys(parts: seq<Segment>, ms: seq<map<int32, int32>>, n: nat, t: Term)
    requires n <= |parts| == |ms|
    ensures t in AggOver(parts, ms, n) <==> exists j :: 0 <= j < n && LivePostings(parts[j], t) != {}
  {
    if n > 0 {
      var prev := AggOver(parts, ms, n - 1);
      AggOverKeys(parts, ms, n - 1, t);
      AddRenumberedHas(prev, parts[n - 1], ms[n - 1], t, 0);
      if t in prev {
        var j :| 0 <= j < n - 1 && LivePostings(parts[j], t) != {};
        assert 0 <= j < n && LivePostings(parts[j], t) != {};
      }
    }
  }

  /** The ids `agg` collects for a term over the first `n` parts are the renumbered live postings. */
  lemma AggOverIds(parts: seq<Segment>, ms: seq<map<int32, int32>>, n: nat, t: Term, x: int32)
    requires n <= |parts| == |ms| && t in AggOver(parts, ms, n)
    ensures x in AggOver(parts, ms, n)[t] <==> exists j :: 0 <= j < n && MapsTo(parts, ms, j, t, x)
  {
    AggOverIsUnion(parts, ms, n, t);
    MappedByHas(parts, ms, n, t, x);
  }

  /** The renumbered live postings for `t` of the first `n` parts. */
  ghost function MappedBy(parts: seq<Segment>, ms: seq<map<int32, int32>>, n: nat, t: Term): set<int32>
    requires n <= |parts| == |ms|
  {
    if n == 0 then {} else MappedBy(parts, ms, n - 1, t) + Renamed(ms[n - 1], LivePostings(parts[n - 1], t))
  }

  lemma {:induction false} MappedByHas(parts: seq<Segment>, ms: seq<map<int32, int32>>, n: nat, t: Term, x: int32)
    requires n <= |parts| == |ms|
    ensures x in MappedBy(parts, ms, n, t) <==> exists j :: 0 <= j < n && MapsTo(parts, ms, j, t, x)
  {
    if n > 0 {
      MappedByHas(parts, ms, n - 1, t, x);
      if x in MappedBy(parts, ms, n - 1, t) {
        var j :| 0 <= j < n - 1 && MapsTo(parts, ms, j, t, x);
        assert 0 <= j < n && MapsTo(parts, ms, j, t, x);
      } else if x in Renamed(ms[n - 1], LivePostings(parts[n - 1], t)) {
        assert MapsTo(parts, ms, n - 1, t, x);
      }
    }
  }

  /** A term's entry in `agg` is the union of its renumbered live postings; a term without one has none. */
  lemma {:induction false} AggOverIsUnion(parts: seq<Segment>, ms: seq<map<int32, int32>>, n: nat, t: Term)
    requires n <= |parts| == |ms|
    ensures t in AggOver(parts, ms, n) ==> AggOver(parts, ms, n)[t] == MappedBy(parts, ms, n, t)
    ensures t !in AggOver(parts, ms, n) ==> MappedBy(parts, ms, n, t) == {}
  {
    if n > 0 {
      var prev := AggOver(parts, ms, n - 1);
      AddRenumberedAt(prev, parts[n - 1], ms[n - 1], t);
      AggOverIsUnion(parts, ms, n - 1, t);
    }
  }

  lemma RenamedNothing(m: map<int32, int32>, ids: set<int32>)
    ensures ids == {} ==> Renamed(m, ids) == {}
  {
  }

  /** One part's step on a term's entry. */
  lemma AddRenumberedAt(agg: Agg, s: Segment, m: map<int32, int32>, t: Term)
    ensures var next := AddRenumbered(agg, s, m, s.postings.Keys);
      && (t in next <==> t in agg || LivePostings(s, t) != {})
      && (t in next ==> next[t] == (if t in agg then agg[t] else {}) + Renamed(m, LivePostings(s, t)))
  {
    RenamedNothing(m, LivePostings(s, t));
  }

  /** `x` is the new id `ms[j]` gives one of part `j`'s live postings for `t`. */
  ghost predicate MapsTo(parts: seq<Segment>, ms: seq<map<int32, int32>>, j: nat, t: Term, x: int32)
    requires j < |parts| == |ms|
  {
    x in Renamed(ms[j], LivePostings(parts[j], t))
  }

  /** Only a term with live postings in part `j` maps anything. */
  lemma MapsToLive(parts: seq<Segment>, ms: seq<map<int32, int32>>, j: nat, t: Term, x: int32)
    requires j < |parts| == |ms| && MapsTo(parts, ms, j, t, x)
    ensures LivePostings(parts[j], t) != {}
  {
  }

  /** One part's step: a term is kept when it was there or the part has live postings for it. */
  lemma AddRenumberedHas(agg: Agg, s: Segment, m: map<int32, int32>, t: Term, x: int32)
    ensures var next := AddRenumbered(agg, s, m, s.postings.Keys);
      && (t in next <==> t in agg || LivePostings(s, t) != {})
      && (t in next ==> (x in next[t] <==> (t in agg && x in agg[t]) || x in Renamed(m, LivePostings(s, t))))
  {
  }

  /** `x` is the new id part `j` gives one of its live postings for `t`. */
  ghost predicate NewIdFor(parts: seq<Segment>, j: nat, t: Term, x: int32)
    requires j < |parts|
  {
    exists d :: d in Postings(parts[j], t) && d in Renumbering(parts, j) && Renumbering(parts, j)[d] == x
  }

  /**
   * The merged segment keeps exactly the terms some part has a live posting for, and lists for each
   * the new ids of those postings, ascending.
   */
  lemma RemapPostingsHold(newId: string, parts: seq<Segment>, t: Term, x: int32)
    ensures var out := MergeWithRemapSpec(newId, parts).segment;
      && (t in out.postings <==> exists j :: 0 <= j < |parts| && Postings(parts[j], t) != [])
      && StrictlyAscending(RawPostings(out, t))
      && (x in RawPostings(out, t) <==> exists j :: 0 <= j < |parts| && NewIdFor(parts, j, t, x))
  {
    var ms := Renumberings(parts, |parts|);
    AggOverHas(parts, ms, |parts|, t, x);
    var agg := RemapAgg(parts, |parts|);
    assert agg == AggOver(parts, ms, |parts|);
    if t in agg {
      SortedIs(agg[t]);
    }
    forall j | 0 <= j < |parts|
      ensures (LivePostings(parts[j], t) != {} <==> Postings(parts[j], t) != [])
      ensures MapsTo(parts, ms, j, t, x) <==> NewIdFor(parts, j, t, x)
    {
      assert ms[j] == Renumbering(parts, j);
      LivePostingsAre(parts[j], ms[j], t);
    }
  }

  /** While there are at most `Integer.MAX_VALUE` live docs, every stored id is below `maxDocId`. */
  lemma RemapIdsInRange(newId: string, parts: seq<Segment>, t: Term, x: int32)
    requires LiveCount(parts, |parts|) <= INT_MAX
    requires x in RawPostings(MergeWithRemapSpec(newId, parts).segment, t)
    ensures 0 <= x < MergeWithRemapSpec(newId, parts).segment.maxDocId
  {
    RemapPostingsHold(newId, parts, t, x);
    RemapCounts(newId, parts);
    var j :| 0 <= j < |parts| && NewIdFor(parts, j, t, x);
    var d :| d in Postings(parts[j], t) && d in Renumbering(parts, j) && Renumbering(parts, j)[d] == x;
    PostingIsLive(parts[j], t, d);
    RemapPointsBack(parts, j, d);
  }

  /** Every term of the merged segment passes its rebuilt filter. */
  lemma RemapAdmitsTerms(newId: string, parts: seq<Segment>, t: Term)
    requires t in MergeWithRemapSpec(newId, parts).segment.postings
    ensures MayHold(MergeWithRemapSpec(newId, parts).segment, t)
  {
    BloomOfAdmits(MergeWithRemapSpec(newId, parts).segment.postings.Keys, t);
  }
}
