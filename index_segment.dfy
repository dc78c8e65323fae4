/**
 * `IndexSegment`: one segment of the inverted index. It maps each term to the list of local doc
 * ids that contain it, keeps a set of deleted doc ids, the last doc id handed out (`maxDocId`)
 * and a Bloom filter over its terms (2^20 bits, 7 probes).
 *
 * The class `IndexSegment` holds the state `addDoc` and `deleteDoc` change in place. Everything
 * else reads a segment, and the rest of the index only reads segments once they are published,
 * so those operations take the state as a value, `Segment`.
 */
module IndexSegment {
  import opened JavaInts
  import opened SortedSets
  import opened JavaCharsets
  import BF = BloomFilter

  /** A term: a token of the indexed text. */
  type Term = string

  /** `new BloomFilter(1 << 20, 7)`. */
  const BLOOM_BITS: BF.Width := 0x10_0000
  const BLOOM_PROBES: int32 := 7

  /** A segment's state as a value: id, postings, deleted ids, last doc id and Bloom filter. */
  datatype Segment = Segment(
    id: string,
    postings: map<Term, seq<int32>>,
    deleted: set<int32>,
    maxDocId: int32,
    bloom: BF.Filter)

  /** The Bloom filter of a new segment: nothing set. */
  function EmptyBloom(): BF.Filter {
    BF.Filter(BLOOM_BITS, BLOOM_PROBES, {})
  }

  /** `new IndexSegment(dir, segId)`: no postings, no deletions, `maxDocId == 0`. */
  function EmptySegment(id: string): Segment {
    Segment(id, map[], {}, 0, EmptyBloom())
  }

  /** The bytes the filter hashes for each of a set of terms. */
  function TermBytes(terms: set<Term>): set<seq<uint8>> {
    set t | t in terms :: Utf8(t)
  }

  /** A filter of the segment's size and probe count holding exactly the probes of `terms`. */
  function BloomOf(terms: set<Term>): BF.Filter {
    BF.Filter(BLOOM_BITS, BLOOM_PROBES, BF.ProbesOfAll(BLOOM_BITS, BLOOM_PROBES, TermBytes(terms)))
  }

  // ---------------------------------------------------------------- reading a segment

  /** `getRawPostings(t)`: the stored list, deleted ids included; empty for an unknown term. */
  function RawPostings(seg: Segment, t: Term): seq<int32> {
    if t in seg.postings then seg.postings[t] else []
  }

  /** The ids of `xs` that are not in `del`, in the order of `xs`. */
  function WithoutDeleted(xs: seq<int32>, del: set<int32>): (r: seq<int32>)
    ensures |r| <= |xs|
  {
    Kept(xs, del, |xs|)
  }

  /** The ids among the first `n` of `xs` that are not in `del`, in order. */
  function Kept(xs: seq<int32>, del: set<int32>, n: nat): (r: seq<int32>)
    requires n <= |xs|
    ensures |r| <= n
  {
    if n == 0 then [] else Kept(xs, del, n - 1) + (if xs[n - 1] in del then [] else [xs[n - 1]])
  }

  /** The kept ids are the ids among the first `n` that are not in `del`. */
  lemma {:induction false} KeptHas(xs: seq<int32>, del: set<int32>, n: nat, x: int32)
    requires n <= |xs|
    ensures x in Kept(xs, del, n) <==> x !in del && exists i :: 0 <= i < n && xs[i] == x
  {
    if n > 0 {
      KeptHas(xs, del, n - 1, x);
    }
  }

  /** The filtered list holds exactly the ids of `xs` that are not in `del`. */
  lemma WithoutDeletedHas(xs: seq<int32>, del: set<int32>)
    ensures forall x :: x in WithoutDeleted(xs, del) <==> x in xs && x !in del
  {
    forall x ensures x in WithoutDeleted(xs, del) <==> x in xs && x !in del {
      KeptHas(xs, del, |xs|, x);
    }
  }

  /** `getPostings(t)`: the raw postings with the deleted ids taken out. */
  function Postings(seg: Segment, t: Term): seq<int32> {
    WithoutDeleted(RawPostings(seg, t), seg.deleted)
  }

  /** `mightContainTerm(t)`: the Bloom filter's answer for the term's UTF-8 bytes. */
  predicate MayHold(seg: Segment, t: Term) {
    BF.Admits(seg.bloom, Utf8(t))
  }

  /** `deletedRatio()`: 0 when `maxDocId` is 0, else the deleted count divided by `maxDocId`, whatever its sign. */
  function DeletedRatio(seg: Segment): (r: real)
    ensures seg.maxDocId == 0 ==> r == 0.0
    ensures seg.maxDocId != 0 ==> r * seg.maxDocId as real == |seg.deleted| as real
    ensures seg.maxDocId > 0 ==> r >= 0.0
    ensures seg.maxDocId < 0 ==> r <= 0.0
  {
    if seg.maxDocId == 0 then 0.0 else |seg.deleted| as real / seg.maxDocId as real
  }

  /** What one term adds to the size estimate: its length in UTF-16 units and 4 bytes per posting. */
  function TermCost(p: map<Term, seq<int32>>, t: Term): int
    requires t in p
  {
    JavaLength(t) + 4 * |p[t]|
  }

  /** The sum of `TermCost` over `keys`, in whatever order the keys are taken. */
  ghost function TotalSize(p: map<Term, seq<int32>>, keys: set<Term>): int
    requires keys <= p.Keys
    decreases keys
  {
    if keys == {} then 0
    else
      var t :| t in keys;
      TermCost(p, t) + TotalSize(p, keys - {t})
  }

  /** Taking any key first gives the same sum: the estimate does not depend on map order. */
  lemma {:induction false} TotalSizeRemove(p: map<Term, seq<int32>>, keys: set<Term>, t: Term)
    requires keys <= p.Keys && t in keys
    ensures TotalSize(p, keys) == TermCost(p, t) + TotalSize(p, keys - {t})
    decreases keys
  {
    var u :| u in keys && TotalSize(p, keys) == TermCost(p, u) + TotalSize(p, keys - {u});
    if u != t {
      TotalSizeRemove(p, keys - {u}, t);
      TotalSizeRemove(p, keys - {t}, u);
      assert keys - {u} - {t} == keys - {t} - {u};
    }
  }

  /** `sizeBytesEstimate()`: the sum over terms of length plus four bytes per posting, in `int` arithmetic. */
  ghost function SizeEstimate(seg: Segment): int32 {
    Wrap32(TotalSize(seg.postings, seg.postings.Keys))
  }

  /** `getPostings(t)`: copy the ids that are not deleted. */
  method GetPostings(seg: Segment, t: Term) returns (r: seq<int32>)
    ensures r == Postings(seg, t)
  {
    var p := RawPostings(seg, t);
    r := [];
    for i := 0 to |p|
      invariant r == Kept(p, seg.deleted, i)
    {
      if p[i] !in seg.deleted {
        r := r + [p[i]];
      }
    }
  }

  /** Each step of `sum += len; sum += size * 4` wraps, which is the same as wrapping the total once. */
  lemma WrapSteps(sum: int, len: int, size: int)
    ensures Wrap32(Wrap32(Wrap32(sum) + len) + Wrap32(size * 4)) == Wrap32(sum + len + size * 4)
  {
    Wrap32Add(sum, len);
    var a := Wrap32(sum + len);
    assert (a + Wrap32(size * 4) - (a + size * 4)) % TWO_32 == 0;
    Wrap32Congruent(a + Wrap32(size * 4), a + size * 4);
    Wrap32Add(sum + len, size * 4);
  }

  /** One more term in the running sum of `sizeBytesEstimate()`. */
  lemma AddCost(p: map<Term, seq<int32>>, done: set<Term>, t: Term)
    requires done <= p.Keys && t in p && t !in done
    ensures TotalSize(p, done + {t}) == TotalSize(p, done) + JavaLength(t) + |p[t]| * 4
  {
    TotalSizeRemove(p, done + {t}, t);
    assert done + {t} - {t} == done;
  }

  /** `sizeBytesEstimate()`: visit the terms in map order and add up their costs. */
  method SizeBytesEstimate(seg: Segment) returns (sum: int32)
    ensures sum == SizeEstimate(seg)
  {
    var p := seg.postings;
    sum := 0;
    ghost var done: set<Term> := {};
    var rest := p.Keys;
    while rest != {}
      invariant rest !! done && rest + done == p.Keys
      invariant sum == Wrap32(TotalSize(p, done))
      decreases rest
    {
      var t :| t in rest;
      AddCost(p, done, t);
      WrapSteps(TotalSize(p, done), JavaLength(t), |p[t]|);
      sum := Wrap32(sum + JavaLength(t));
      sum := Wrap32(sum + Wrap32(|p[t]| * 4));
      done := done + {t};
      rest := rest - {t};
    }
  }

  // ---------------------------------------------------------------- the state addDoc builds

  /**
   * A segment built by `addDoc` and `deleteDoc` from a new one: every list is non-empty, strictly
   * ascending and within `[1, maxDocId]`, and the Bloom filter holds exactly the probes of its terms.
   */
  ghost predicate WellFormed(seg: Segment) {
    && seg.maxDocId >= 0
    && seg.bloom == BloomOf(seg.postings.Keys)
    && forall t :: t in seg.postings ==>
         && seg.postings[t] != []
         && StrictlyAscending(seg.postings[t])
         && forall i :: 0 <= i < |seg.postings[t]| ==> 1 <= seg.postings[t][i] <= seg.maxDocId
  }

  /** The distinct terms of a list. */
  function TermSet(xs: seq<Term>): (r: set<Term>)
    ensures forall t :: t in r <==> t in xs
  {
    if xs == [] then {} else TermSet(xs[..|xs| - 1]) + {xs[|xs| - 1]}
  }

  /** The postings with `docId` appended to the list of each term of `added`. */
  function WithDoc(seg: Segment, added: set<Term>, docId: int32): map<Term, seq<int32>> {
    seg.postings + map t | t in added :: RawPostings(seg, t) + [docId]
  }

  lemma WithDocInsert(seg: Segment, added: set<Term>, docId: int32, t: Term)
    ensures WithDoc(seg, added + {t}, docId) == WithDoc(seg, added, docId)[t := RawPostings(seg, t) + [docId]]
  {
  }

  lemma WithDocAt(seg: Segment, added: set<Term>, docId: int32, t: Term)
    requires t in added
    ensures WithDoc(seg, added, docId)[t] == RawPostings(seg, t) + [docId]
  {
  }

  /** The segment with `docId` recorded for every term of `added`: postings, counter and filter. */
  function Ingested(seg: Segment, added: set<Term>, docId: int32): Segment {
    seg.(postings := WithDoc(seg, added, docId),
         maxDocId := docId,
         bloom := seg.bloom.(bits := seg.bloom.bits + BF.ProbesOfAll(seg.bloom.m, seg.bloom.k, TermBytes(added))))
  }

  /** Recording one more term appends the id to its list and adds its probes to the filter. */
  lemma IngestedInsert(seg: Segment, added: set<Term>, docId: int32, t: Term)
    ensures var before := Ingested(seg, added, docId);
      Ingested(seg, added + {t}, docId)
        == before.(postings := before.postings[t := RawPostings(seg, t) + [docId]],
                   bloom := BF.Added(before.bloom, Utf8(t)))
  {
    var before := Ingested(seg, added, docId);
    var after := Ingested(seg, added + {t}, docId);
    assert after.postings == before.postings[t := RawPostings(seg, t) + [docId]] by {
      WithDocInsert(seg, added, docId, t);
    }
    assert after.bloom == BF.Added(before.bloom, Utf8(t)) by {
      TermBytesInsert(added, t);
      BF.ProbesOfAllInsert(seg.bloom.m, seg.bloom.k, TermBytes(added), Utf8(t));
    }
  }

  lemma TermBytesInsert(added: set<Term>, t: Term)
    ensures TermBytes(added + {t}) == TermBytes(added) + {Utf8(t)}
  {
    TermBytesUnion(added, {t});
    assert TermBytes({t}) == {Utf8(t)};
  }

  /** Adding one more term to a filter built from a term set gives the filter of the larger set. */
  lemma BloomOfInsert(terms: set<Term>, t: Term)
    ensures BloomOf(terms + {t}) == BF.Added(BloomOf(terms), Utf8(t))
  {
    TermBytesInsert(terms, t);
    BF.ProbesOfAllInsert(BLOOM_BITS, BLOOM_PROBES, TermBytes(terms), Utf8(t));
  }

  /** A filter built from a set of terms admits each of them. */
  lemma BloomOfAdmits(terms: set<Term>, t: Term)
    requires t in terms
    ensures BF.Admits(BloomOf(terms), Utf8(t))
  {
    assert Utf8(t) in TermBytes(terms);
    BF.ProbesOfAllHas(BLOOM_BITS, BLOOM_PROBES, TermBytes(terms), Utf8(t));
  }

  /** A new segment's filter is that of the empty term set. */
  lemma BloomOfNothing()
    ensures BloomOf({}) == EmptyBloom()
  {
    assert TermBytes({}) == {};
    assert BF.ProbesOfAll(BLOOM_BITS, BLOOM_PROBES, {}) == {};
  }

  /** `addDoc(terms)` as a value: the next id is appended once to the list of each distinct term. */
  function AddDocSpec(seg: Segment, terms: seq<Term>): Segment {
    Ingested(seg, TermSet(terms), Wrap32(seg.maxDocId + 1))
  }

  lemma EmptyWellFormed(id: string)
    ensures WellFormed(EmptySegment(id))
  {
    assert TermBytes({}) == {};
    assert BF.ProbesOfAll(BLOOM_BITS, BLOOM_PROBES, {}) == {};
  }

  /** The bytes of a union of term sets are the union of their bytes. */
  lemma TermBytesUnion(a: set<Term>, b: set<Term>)
    ensures TermBytes(a + b) == TermBytes(a) + TermBytes(b)
  {
  }

  /** The filter `addDoc` leaves behind holds exactly the probes of the old and the new terms. */
  lemma AddDocBloom(seg: Segment, terms: seq<Term>)
    requires seg.bloom == BloomOf(seg.postings.Keys)
    ensures AddDocSpec(seg, terms).bloom == BloomOf(seg.postings.Keys + TermSet(terms))
  {
    var added := TermSet(terms);
    TermBytesUnion(seg.postings.Keys, added);
    BF.ProbesOfAllUnion(BLOOM_BITS, BLOOM_PROBES, TermBytes(seg.postings.Keys), TermBytes(added));
  }

  /** Each stored list of a well-formed segment, or the empty list of an unknown term, is ascending and in range. */
  lemma WellFormedList(seg: Segment, t: Term)
    requires WellFormed(seg)
    ensures StrictlyAscending(RawPostings(seg, t))
    ensures forall i :: 0 <= i < |RawPostings(seg, t)| ==> 1 <= RawPostings(seg, t)[i] <= seg.maxDocId
  {
  }

  /** The list `addDoc` leaves for a term of the doc: the old one with the new id at the end. */
  lemma AddDocList(seg: Segment, terms: seq<Term>, t: Term)
    requires WellFormed(seg) && seg.maxDocId < INT_MAX && t in terms
    ensures var xs := AddDocSpec(seg, terms).postings[t];
      && xs != [] && StrictlyAscending(xs)
      && forall i :: 0 <= i < |xs| ==> 1 <= xs[i] <= seg.maxDocId + 1
  {
    var prev := RawPostings(seg, t);
    var docId := seg.maxDocId + 1;
    assert Wrap32(seg.maxDocId + 1) == docId;
    assert t in TermSet(terms);
    WithDocAt(seg, TermSet(terms), docId, t);
    WellFormedList(seg, t);
    AscendingSnoc(prev, docId);
  }

  /**
   * `addDoc` keeps a well-formed segment well-formed, as long as `maxDocId` has not reached the
   * largest `int` (the next `++maxDocId` would wrap to a negative id).
   */
  lemma AddDocKeepsWellFormed(seg: Segment, terms: seq<Term>)
    requires WellFormed(seg) && seg.maxDocId < INT_MAX
    ensures WellFormed(AddDocSpec(seg, terms))
  {
    var s := AddDocSpec(seg, terms);
    AddDocBloom(seg, terms);
    assert s.postings.Keys == seg.postings.Keys + TermSet(terms);
    forall t | t in s.postings
      ensures s.postings[t] != [] && StrictlyAscending(s.postings[t])
      ensures forall i :: 0 <= i < |s.postings[t]| ==> 1 <= s.postings[t][i] <= s.maxDocId
    {
      if t in terms {
        AddDocList(seg, terms, t);
      }
    }
  }

  /** The new id appears exactly once in the list of every term of the doc, and in no other list. */
  lemma AddDocOnce(seg: Segment, terms: seq<Term>, t: Term)
    requires WellFormed(seg) && seg.maxDocId < INT_MAX
    ensures var s := AddDocSpec(seg, terms);
      && s.maxDocId == seg.maxDocId + 1
      && (t in terms ==> RawPostings(s, t) == RawPostings(seg, t) + [s.maxDocId])
      && (t !in terms ==> RawPostings(s, t) == RawPostings(seg, t))
      && s.maxDocId !in RawPostings(seg, t)
  {
  }

  /** After `addDoc`, the filter admits every term of the doc. */
  lemma AddDocAdmitsTerms(seg: Segment, terms: seq<Term>, t: Term)
    requires t in terms
    ensures MayHold(AddDocSpec(seg, terms), t)
  {
    var added := TermSet(terms);
    assert Utf8(t) in TermBytes(added);
    BF.ProbesOfAllHas(seg.bloom.m, seg.bloom.k, TermBytes(added), Utf8(t));
  }

  /** `deleteDoc` keeps a well-formed segment well-formed. */
  lemma DeleteDocKeepsWellFormed(seg: Segment, d: int32)
    requires WellFormed(seg)
    ensures WellFormed(seg.(deleted := seg.deleted + {d}))
  {
  }

  /** In a well-formed segment the filter has no false negatives for the terms it holds. */
  lemma WellFormedAdmitsTerms(seg: Segment, t: Term)
    requires WellFormed(seg) && t in seg.postings
    ensures MayHold(seg, t)
  {
    assert Utf8(t) in TermBytes(seg.postings.Keys);
    BF.ProbesOfAllHas(BLOOM_BITS, BLOOM_PROBES, TermBytes(seg.postings.Keys), Utf8(t));
  }

  /** Filtering a strictly ascending list leaves it strictly ascending. */
  lemma WithoutDeletedAscending(xs: seq<int32>, del: set<int32>)
    requires StrictlyAscending(xs)
    ensures StrictlyAscending(WithoutDeleted(xs, del))
  {
    KeptAscending(xs, del, |xs|);
  }

  lemma {:induction false} KeptAscending(xs: seq<int32>, del: set<int32>, n: nat)
    requires StrictlyAscending(xs) && n <= |xs|
    ensures StrictlyAscending(Kept(xs, del, n))
  {
    if n > 0 {
      KeptAscending(xs, del, n - 1);
      var prev := Kept(xs, del, n - 1);
      forall k | 0 <= k < |prev| ensures prev[k] < xs[n - 1] {
        KeptHas(xs, del, n - 1, prev[k]);
      }
      if xs[n - 1] !in del {
        AscendingSnoc(prev, xs[n - 1]);
      }
    }
  }

  /** With nothing deleted, `getPostings` and `getRawPostings` agree. */
  lemma WithoutNothingDeleted(xs: seq<int32>)
    ensures WithoutDeleted(xs, {}) == xs
  {
    KeptAll(xs, |xs|);
    assert xs[..|xs|] == xs;
  }

  lemma {:induction false} KeptAll(xs: seq<int32>, n: nat)
    requires n <= |xs|
    ensures Kept(xs, {}, n) == xs[..n]
  {
    if n > 0 {
      KeptAll(xs, n - 1);
      assert xs[..n] == xs[..n - 1] + [xs[n - 1]];
    }
  }

  // ---------------------------------------------------------------- the mutable segment

  /** The segment object: `addDoc` and `deleteDoc` change its postings, deleted ids, counter and filter. */
  class IndexSegment {
    const id: string
    var postings: map<Term, seq<int32>>
    var deletedDocs: set<int32>
    var maxDocId: int32
    var bloom: BF.BloomFilter

    /** The segment's state as a value. */
    function Value(): Segment
      reads this, bloom
    {
      Segment(id, postings, deletedDocs, maxDocId, bloom.Value())
    }

    /** `new IndexSegment(dir, segId)`. */
    constructor (id: string)
      ensures Value() == EmptySegment(id)
      ensures fresh(bloom)
    {
      this.id := id;
      postings := map[];
      deletedDocs := {};
      maxDocId := 0;
      bloom := new BF.BloomFilter(BLOOM_BITS, BLOOM_PROBES);
    }

    /** `addDoc(terms)`: take the next id and record it once for each distinct term. */
    method AddDoc(terms: seq<Term>) returns (docId: int32)
      modifies this, bloom
      ensures bloom == old(bloom)
      ensures docId == Wrap32(old(maxDocId) + 1)
      ensures Value() == AddDocSpec(old(Value()), terms)
    {
      ghost var start := Value();
      maxDocId := Wrap32(maxDocId + 1);
      docId := maxDocId;
      var seen: set<Term> := {};
      for i := 0 to |terms|
        invariant seen == TermSet(terms[..i])
        invariant bloom == old(bloom)
        invariant Value() == Ingested(start, seen, docId)
      {
        var t := terms[i];
        assert TermSet(terms[..i + 1]) == seen + {t} by {
          assert terms[..i + 1][..i] == terms[..i];
        }
        if t !in seen {
          Record(t, start, seen, docId);
          seen := seen + {t};
        }
      }
      assert terms[..|terms|] == terms;
    }

    /** One step of `addDoc`'s loop for a term not seen yet: append the id to its list and add it to the filter. */
    method Record(t: Term, ghost start: Segment, ghost seen: set<Term>, docId: int32)
      requires Value() == Ingested(start, seen, docId) && t !in seen
      modifies this, bloom
      ensures bloom == old(bloom)
      ensures Value() == Ingested(start, seen + {t}, docId)
    {
      var list := if t in postings then postings[t] else [];
      assert list == RawPostings(start, t);
      IngestedInsert(start, seen, docId, t);
      postings := postings[t := list + [docId]];
      bloom.Add(Utf8(t));
    }

    /** `deleteDoc(docId)`: mark the id deleted; the postings, counter and filter stay as they are. */
    method DeleteDoc(docId: int32)
      modifies this
      ensures Value() == old(Value()).(deleted := old(deletedDocs) + {docId})
    {
      deletedDocs := deletedDocs + {docId};
    }

    /** `mightContainTerm(t)`: ask the filter about the term's UTF-8 bytes. */
    method MightContainTerm(t: Term) returns (b: bool)
      ensures b == MayHold(Value(), t)
    {
      b := bloom.MightContain(Utf8(t));
    }
  }
}
