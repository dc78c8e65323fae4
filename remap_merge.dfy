/**
 * `IndexSegment.mergeWithRemap`: merge segments into one whose doc ids are renumbered contiguously
 * from 0, and return with it the list that takes each new id back to its source `(segId, docId)`.
 *
 * The live docs of a part are the ids its deletion-filtered postings list. They are numbered part
 * by part, in the order the parts are given, and within a part in ascending old id. Each term then
 * holds the new ids of its live postings in every part; a term no part has a live posting for is
 * not kept. Nothing is deleted in the result, `maxDocId` is the number of ids handed out, the filter
 * is rebuilt from the kept terms and the segment's file is written.
 *
 * The parts are taken as values, by position; the file system's answer to writing the file is a
 * parameter.
 */
module RemapMerge {
  import opened JavaInts
  import opened Wrappers
  import opened SortedSets
  import opened IndexSegment
  import opened SegmentFormat
  import opened SegmentMerge

  /** `IndexSegment.DocPointer`: a doc of a source segment. */
  datatype DocPointer = DocPointer(segId: string, docId: int32)

  /** `IndexSegment.MergedResult`: the merged segment and, at index `i`, the source of new id `i`. */
  datatype MergedResult = MergedResult(segment: Segment, remap: seq<DocPointer>)

  // ---------------------------------------------------------------- step 0: live docs

  /**
   * The ids the filtered postings of the terms of `keys` list: those a raw list holds and the
   * tombstones do not.
   */
  ghost function LiveOver(s: Segment, keys: set<Term>): set<int32> {
    set t, d | t in keys && t in s.postings && d in s.postings[t] && d !in s.deleted :: d
  }

  /** The live docs of a segment: every id some term's filtered postings list. */
  ghost function LiveDocs(s: Segment): set<int32> {
    LiveOver(s, s.postings.Keys)
  }

  lemma LiveOverInsert(s: Segment, keys: set<Term>, t: Term)
    ensures LiveOver(s, keys + {t}) == LiveOver(s, keys) + Elems(Postings(s, t))
  {
    WithoutDeletedHas(RawPostings(s, t), s.deleted);
  }

  /** The first loop: `live.addAll(s.getPostings(term))` for every term of the part. */
  method LiveSet(s: Segment) returns (live: set<int32>)
    ensures live == LiveDocs(s)
  {
    live := {};
    ghost var done: set<Term> := {};
    var rest := s.postings.Keys;
    while rest != {}
      invariant rest + done == s.postings.Keys && rest !! done
      invariant live == LiveOver(s, done)
      decreases rest
    {
      var t :| t in rest;
      var p := GetPostings(s, t);
      LiveOverInsert(s, done, t);
      live := live + Elems(p);
      done := done + {t};
      rest := rest - {t};
    }
  }

  // ---------------------------------------------------------------- step 1: new ids

  /** The pointers `remap` gets for the ids of `xs`, in order. */
  function Pointers(id: string, xs: seq<int32>): (r: seq<DocPointer>)
    ensures |r| == |xs|
  {
    seq(|xs|, i requires 0 <= i < |xs| => DocPointer(id, xs[i]))
  }

  /** The `oldToNew` map of a part whose ids, in order, are `xs` and whose first new id is `base`. */
  function NumberFrom(base: int, xs: seq<int32>): map<int32, int32> {
    map d | d in xs :: NewId(base, xs, d)
  }

  /** The new id of `d`: `base` plus its position in `xs`, as an `int`. */
  function NewId(base: int, xs: seq<int32>, d: int32): int32
    requires d in xs
  {
    Wrap32(base + IndexOf(xs, d))
  }

  /** The live docs of a part in the order the `TreeSet` hands them out. */
  ghost function LiveList(s: Segment): seq<int32> {
    Sorted(LiveDocs(s))
  }

  /** `remap` after the first `n` parts. */
  ghost function Remap(parts: seq<Segment>, n: nat): seq<DocPointer>
    requires n <= |parts|
  {
    if n == 0 then [] else Remap(parts, n - 1) + Pointers(parts[n - 1].id, LiveList(parts[n - 1]))
  }

  /** The `oldToNew` map of part `j`: its live ids numbered after those of the parts before it. */
  ghost function Renumbering(parts: seq<Segment>, j: nat): map<int32, int32>
    requires j < |parts|
  {
    NumberFrom(|Remap(parts, j)|, LiveList(parts[j]))
  }

  /** The `oldToNew` maps of the first `n` parts. */
  ghost function Renumberings(parts: seq<Segment>, n: nat): (r: seq<map<int32, int32>>)
    requires n <= |parts|
    ensures |r| == n
  {
    seq(n, j requires 0 <= j < n => Renumbering(parts, j))
  }

  lemma RenumberingsSnoc(parts: seq<Segment>, n: nat)
    requires n < |parts|
    ensures Renumberings(parts, n + 1) == Renumberings(parts, n) + [Renumbering(parts, n)]
  {
    var a := Renumberings(parts, n + 1);
    var b := Renumberings(parts, n) + [Renumbering(parts, n)];
    forall j | 0 <= j < n + 1 ensures a[j] == b[j] {
      if j < n {
        assert b[j] == Renumberings(parts, n)[j];
      }
    }
  }

  /** The second loop for one part: number its live ids in ascending order from `|remap0|`. */
  method NumberPart(id: string, live: set<int32>, remap0: seq<DocPointer>, next0: int32)
    returns (m: map<int32, int32>, remap: seq<DocPointer>, next: int32)
    requires next0 == Wrap32(|remap0|)
    ensures remap == remap0 + Pointers(id, Sorted(live))
    ensures next == Wrap32(|remap|)
    ensures m == NumberFrom(|remap0|, Sorted(live))
  {
    var xs := ToSortedList(live);
    SortedIs(live);
    m, remap, next := NumberList(id, xs, remap0, next0);
  }

  method NumberList(id: string, xs: seq<int32>, remap0: seq<DocPointer>, next0: int32)
    returns (m: map<int32, int32>, remap: seq<DocPointer>, next: int32)
    requires StrictlyAscending(xs)
    requires next0 == Wrap32(|remap0|)
    ensures remap == remap0 + Pointers(id, xs)
    ensures next == Wrap32(|remap|)
    ensures m == NumberFrom(|remap0|, xs)
  {
    m := map[];
    remap := remap0;
    next := next0;
    for k := 0 to |xs|
      invariant ListedUpTo(id, remap0, xs, k, m, remap, next)
    {
      var oldId := xs[k];
      ListedStep(id, remap0, xs, k, m, remap, next);
      m := m[oldId := next];
      remap := remap + [DocPointer(id, oldId)];
      next := Wrap32(next + 1);
    }
    ListedAll(id, remap0, xs, m, remap);
  }

  /** After `k` ids of `xs`: `remap` and `m` cover them and `next` is the next index of `remap`. */
  ghost predicate ListedUpTo(id: string, remap0: seq<DocPointer>, xs: seq<int32>, k: nat,
                             m: map<int32, int32>, remap: seq<DocPointer>, next: int32) {
    && k <= |xs|
    && remap == remap0 + Pointers(id, xs[..k])
    && next == Wrap32(|remap|)
    && NumberedUpTo(|remap0|, xs, k, m)
  }

  lemma ListedStep(id: string, remap0: seq<DocPointer>, xs: seq<int32>, k: nat,
                   m: map<int32, int32>, remap: seq<DocPointer>, next: int32)
    requires StrictlyAscending(xs) && k < |xs|
    requires ListedUpTo(id, remap0, xs, k, m, remap, next)
    ensures ListedUpTo(id, remap0, xs, k + 1, m[xs[k] := next], remap + [DocPointer(id, xs[k])], Wrap32(next + 1))
  {
    assert |remap| == |remap0| + k;
    NumberedStep(|remap0|, xs, k, m);
    PointersSnoc(id, xs, k);
    NextId(|remap|, next);
  }

  lemma ListedAll(id: string, remap0: seq<DocPointer>, xs: seq<int32>, m: map<int32, int32>, remap: seq<DocPointer>)
    requires ListedUpTo(id, remap0, xs, |xs|, m, remap, Wrap32(|remap|))
    ensures remap == remap0 + Pointers(id, xs)
    ensures m == NumberFrom(|remap0|, xs)
  {
    assert xs[..|xs|] == xs;
    NumberFromIs(|remap0|, xs, m);
  }

  /** `nextNewId++` on an `int`. */
  lemma NextId(a: int, next: int32)
    requires next == Wrap32(a)
    ensures Wrap32(next + 1) == Wrap32(a + 1)
  {
    Wrap32Add(a, 1);
  }

  /** `m` numbers the first `k` ids of `xs` from `base`. */
  ghost predicate NumberedUpTo(base: int, xs: seq<int32>, k: nat, m: map<int32, int32>)
    requires k <= |xs|
  {
    && (forall d :: d in m <==> d in xs[..k])
    && (forall d :: d in m ==> m[d] == NewId(base, xs, d))
  }

  lemma NumberedStep(base: int, xs: seq<int32>, k: nat, m: map<int32, int32>)
    requires StrictlyAscending(xs) && k < |xs|
    requires NumberedUpTo(base, xs, k, m)
    ensures NumberedUpTo(base, xs, k + 1, m[xs[k] := Wrap32(base + k)])
  {
    IndexOfAscending(xs, k);
    assert xs[..k + 1] == xs[..k] + [xs[k]];
  }

  lemma PointersSnoc(id: string, xs: seq<int32>, k: nat)
    requires k < |xs|
    ensures Pointers(id, xs[..k + 1]) == Pointers(id, xs[..k]) + [DocPointer(id, xs[k])]
  {
  }

  /** A map that numbers all of `xs` from `base` is `NumberFrom(base, xs)`. */
  lemma NumberFromIs(base: int, xs: seq<int32>, m: map<int32, int32>)
    requires NumberedUpTo(base, xs, |xs|, m)
    ensures m == NumberFrom(base, xs)
  {
    assert xs[..|xs|] == xs;
  }

  // ---------------------------------------------------------------- step 2: remapped postings

  /** The new ids `map.get(oldId)` gives for the ids of `xs`. */
  function Image(m: map<int32, int32>, xs: seq<int32>): set<int32> {
    set x | x in xs && x in m :: m[x]
  }

  /** `for (int oldId : srcPost) dst.add(map.get(oldId))`. */
  method MapIds(m: map<int32, int32>, xs: seq<int32>) returns (ids: set<int32>)
    requires forall i :: 0 <= i < |xs| ==> xs[i] in m
    ensures ids == Image(m, xs)
  {
    ids := {};
    for i := 0 to |xs|
      invariant ids == Image(m, xs[..i])
    {
      assert xs[..i + 1] == xs[..i] + [xs[i]];
      ids := ids + {m[xs[i]]};
    }
    assert xs[..|xs|] == xs;
  }

  /**
   * The third loop for one part: every term of `keys` with live postings gets their new ids; a term
   * whose filtered postings are empty is skipped.
   */
  ghost function AddRenumbered(agg: Agg, s: Segment, m: map<int32, int32>, keys: set<Term>): Agg {
    map t | t in agg.Keys + keys && (t in agg || LivePostings(s, t) != {}) ::
      (if t in agg then agg[t] else {}) + (if t in keys then Renamed(m, LivePostings(s, t)) else {})
  }

  /** The ids `getPostings(t)` lists, as a set. */
  ghost function LivePostings(s: Segment, t: Term): set<int32> {
    set d | t in s.postings && d in s.postings[t] && d !in s.deleted
  }

  /** The new ids `m` gives the ids of `ids`. */
  ghost function Renamed(m: map<int32, int32>, ids: set<int32>): set<int32> {
    set d | d in ids && d in m :: m[d]
  }

  /** `getPostings(t)` lists the ids of `LivePostings(s, t)`, so renaming either gives the same ids. */
  lemma LivePostingsAre(s: Segment, m: map<int32, int32>, t: Term)
    ensures forall d :: d in Postings(s, t) <==> d in LivePostings(s, t)
    ensures Postings(s, t) != [] <==> LivePostings(s, t) != {}
    ensures Image(m, Postings(s, t)) == Renamed(m, LivePostings(s, t))
  {
    WithoutDeletedHas(RawPostings(s, t), s.deleted);
    if Postings(s, t) != [] {
      assert Postings(s, t)[0] in LivePostings(s, t);
    }
  }

  /** `agg` after the first `n` parts. */
  ghost function RemapAgg(parts: seq<Segment>, n: nat): Agg
    requires n <= |parts|
  {
    AggOver(parts, Renumberings(parts, |parts|), n)
  }

  /** `agg` after the first `n` parts, part `j` renumbered by `ms[j]`. */
  ghost function AggOver(parts: seq<Segment>, ms: seq<map<int32, int32>>, n: nat): Agg
    requires n <= |parts| == |ms|
  {
    if n == 0 then map[]
    else AddRenumbered(AggOver(parts, ms, n - 1), parts[n - 1], ms[n - 1], parts[n - 1].postings.Keys)
  }

  /** A live posting of a part is a live doc of it. */
  lemma PostingIsLive(s: Segment, t: Term, d: int32)
    requires d in Postings(s, t)
    ensures d in LiveDocs(s)
  {
    WithoutDeletedHas(RawPostings(s, t), s.deleted);
    assert t in s.postings;
  }

  /** The third loop over one part's entries, with the part's `oldToNew` map. */
  method AddPart(agg0: Agg, s: Segment, m: map<int32, int32>) returns (agg: Agg)
    requires LiveDocs(s) <= m.Keys
    ensures agg == AddRenumbered(agg0, s, m, s.postings.Keys)
  {
    agg := agg0;
    ghost var done: set<Term> := {};
    var rest := s.postings.Keys;
    while rest != {}
      invariant rest + done == s.postings.Keys && rest !! done
      invariant Renumbered(agg0, s, m, done, agg)
      decreases rest
    {
      var t :| t in rest;
      var src := GetPostings(s, t);
      ghost var before := agg;
      if src != [] {
        forall i | 0 <= i < |src| ensures src[i] in m {
          PostingIsLive(s, t, src[i]);
        }
        var ids := MapIds(m, src);
        agg := AddIds(agg, t, ids);
      }
      RenumberedStep(agg0, s, m, done, before, t);
      done := done + {t};
      rest := rest - {t};
    }
    AddRenumberedIs(agg0, s, m, done, agg);
  }

  /** `agg` holds `agg0` with the new ids of the live postings of the terms of `keys` added. */
  ghost predicate Renumbered(agg0: Agg, s: Segment, m: map<int32, int32>, keys: set<Term>, agg: Agg) {
    RenumberedKeys(agg0, s, keys, agg) && RenumberedSets(agg0, s, m, keys, agg)
  }

  ghost predicate RenumberedKeys(agg0: Agg, s: Segment, keys: set<Term>, agg: Agg) {
    forall u :: u in agg <==> u in agg0 || (u in keys && Postings(s, u) != [])
  }

  ghost predicate RenumberedSets(agg0: Agg, s: Segment, m: map<int32, int32>, keys: set<Term>, agg: Agg) {
    forall u :: u in agg ==>
      agg[u] == (if u in agg0 then agg0[u] else {}) + (if u in keys then Image(m, Postings(s, u)) else {})
  }

  /** One more entry of the part: its ids are added when its live postings are not empty. */
  lemma RenumberedStep(agg0: Agg, s: Segment, m: map<int32, int32>, keys: set<Term>, agg: Agg, t: Term)
    requires Renumbered(agg0, s, m, keys, agg) && t !in keys
    ensures Renumbered(agg0, s, m, keys + {t},
      if Postings(s, t) != [] then AddIds(agg, t, Image(m, Postings(s, t))) else agg)
  {
    RenumberedKeysStep(agg0, s, m, keys, agg, t);
    RenumberedSetsStep(agg0, s, m, keys, agg, t);
  }

  lemma RenumberedKeysStep(agg0: Agg, s: Segment, m: map<int32, int32>, keys: set<Term>, agg: Agg, t: Term)
    requires RenumberedKeys(agg0, s, keys, agg) && t !in keys
    ensures RenumberedKeys(agg0, s, keys + {t},
      if Postings(s, t) != [] then AddIds(agg, t, Image(m, Postings(s, t))) else agg)
  {
  }

  lemma RenumberedSetsStep(agg0: Agg, s: Segment, m: map<int32, int32>, keys: set<Term>, agg: Agg, t: Term)
    requires RenumberedKeys(agg0, s, keys, agg) && RenumberedSets(agg0, s, m, keys, agg) && t !in keys
    ensures RenumberedSets(agg0, s, m, keys + {t},
      if Postings(s, t) != [] then AddIds(agg, t, Image(m, Postings(s, t))) else agg)
  {
    var p := Postings(s, t);
    if p != [] {
      var next := AddIds(agg, t, Image(m, p));
      forall u | u in next
        ensures next[u] == (if u in agg0 then agg0[u] else {}) + (if u in keys + {t} then Image(m, Postings(s, u)) else {})
      {
        if u != t {
          assert next[u] == agg[u];
        }
      }
    }
  }

  /** A map with the keys and the sets of `AddRenumbered` is `AddRenumbered`. */
  lemma AddRenumberedIs(agg0: Agg, s: Segment, m: map<int32, int32>, keys: set<Term>, agg: Agg)
    requires Renumbered(agg0, s, m, keys, agg)
    ensures agg == AddRenumbered(agg0, s, m, keys)
  {
    forall u {
      LivePostingsAre(s, m, u);
    }
  }

  // ---------------------------------------------------------------- the whole merge

  /** The result `mergeWithRemap(dir, newId, parts)` builds before writing the file. */
  ghost function MergeWithRemapSpec(newId: string, parts: seq<Segment>): MergedResult {
    var agg := RemapAgg(parts, |parts|);
    var remap := Remap(parts, |parts|);
    MergedResult(Segment(newId, SortedLists(agg), {}, Wrap32(|remap|), BloomOf(agg.Keys)), remap)
  }

  /** `out.persist()` followed by `return new MergedResult(out, remap)`. */
  function Returned(res: MergedResult, io: Option<JavaError>): (r: Result<MergedResult>)
    ensures r.Ok? <==> Saved(res.segment, io).Ok?
    ensures r.Ok? ==> r.value == res
    ensures r.Err? ==> r.error == Saved(res.segment, io).error
  {
    match Saved(res.segment, io)
    case Ok(_) => Ok(res)
    case Err(e) => Err(e)
  }

  /** `mergeWithRemap(dir, newId, parts)`: live docs, new ids, remapped postings, filter, file. */
  method MergeWithRemap(newId: string, parts: seq<Segment>, io: Option<JavaError>) returns (r: Result<MergedResult>)
    ensures r == Returned(MergeWithRemapSpec(newId, parts), io)
  {
    var lives := LiveSets(parts);
    var oldToNew, remap, nextNewId := NumberParts(parts, lives);
    RenumberingsCoverLive(parts);
    var agg := RemapPostings(parts, oldToNew);
    var postings := SortedPostings(agg);
    var bloom := BuildBloom(agg.Keys);
    var out := Segment(newId, postings, {}, nextNewId, bloom);
    r := Returned(MergedResult(out, remap), io);
  }

  /** Step 0: `livePerSeg`, by position. */
  method LiveSets(parts: seq<Segment>) returns (lives: seq<set<int32>>)
    ensures |lives| == |parts|
    ensures forall j :: 0 <= j < |parts| ==> lives[j] == LiveDocs(parts[j])
  {
    lives := [];
    for j := 0 to |parts|
      invariant |lives| == j
      invariant forall i :: 0 <= i < j ==> lives[i] == LiveDocs(parts[i])
    {
      var live := LiveSet(parts[j]);
      lives := lives + [live];
    }
  }

  /** Step 1: `remap`, `oldToNew` by position, and `nextNewId`. */
  method NumberParts(parts: seq<Segment>, lives: seq<set<int32>>)
    returns (oldToNew: seq<map<int32, int32>>, remap: seq<DocPointer>, nextNewId: int32)
    requires |lives| == |parts|
    requires forall j :: 0 <= j < |parts| ==> lives[j] == LiveDocs(parts[j])
    ensures oldToNew == Renumberings(parts, |parts|)
    ensures remap == Remap(parts, |parts|)
    ensures nextNewId == Wrap32(|remap|)
  {
    remap := [];
    oldToNew := [];
    nextNewId := 0;
    for j := 0 to |parts|
      invariant oldToNew == Renumberings(parts, j)
      invariant remap == Remap(parts, j)
      invariant nextNewId == Wrap32(|remap|)
    {
      var m;
      m, remap, nextNewId := NumberNext(parts, j, lives[j], remap, nextNewId);
      RenumberingsSnoc(parts, j);
      oldToNew := oldToNew + [m];
    }
  }

  /** One iteration of step 1: part `j` numbered after the parts before it. */
  method NumberNext(parts: seq<Segment>, j: nat, live: set<int32>, remap0: seq<DocPointer>, next0: int32)
    returns (m: map<int32, int32>, remap: seq<DocPointer>, next: int32)
    requires j < |parts| && live == LiveDocs(parts[j])
    requires remap0 == Remap(parts, j) && next0 == Wrap32(|remap0|)
    ensures remap == Remap(parts, j + 1) && next == Wrap32(|remap|)
    ensures m == Renumbering(parts, j)
  {
    m, remap, next := NumberPart(parts[j].id, live, remap0, next0);
    NumberPartIs(parts, j, live, m, remap0, remap);
  }

  /** What `NumberPart` returns for part `j` is that part's renumbering and `remap` up to it. */
  lemma NumberPartIs(parts: seq<Segment>, j: nat, live: set<int32>, m: map<int32, int32>,
                     remap0: seq<DocPointer>, remap: seq<DocPointer>)
    requires j < |parts| && live == LiveDocs(parts[j]) && remap0 == Remap(parts, j)
    requires remap == remap0 + Pointers(parts[j].id, Sorted(live))
    requires m == NumberFrom(|remap0|, Sorted(live))
    ensures remap == Remap(parts, j + 1) && m == Renumbering(parts, j)
  {
  }

  /** Step 2: `agg`, from each part's live postings and `oldToNew` map. */
  method RemapPostings(parts: seq<Segment>, oldToNew: seq<map<int32, int32>>) returns (agg: Agg)
    requires |oldToNew| == |parts|
    requires forall j :: 0 <= j < |parts| ==> LiveDocs(parts[j]) <= oldToNew[j].Keys
    ensures agg == AggOver(parts, oldToNew, |parts|)
  {
    agg := map[];
    for j := 0 to |parts|
      invariant agg == AggOver(parts, oldToNew, j)
    {
      agg := AddPartAt(parts, oldToNew, j, agg);
    }
  }

  /** One iteration of step 2: part `j` added with its own map. */
  method AddPartAt(parts: seq<Segment>, oldToNew: seq<map<int32, int32>>, j: nat, agg0: Agg) returns (agg: Agg)
    requires j < |parts| == |oldToNew|
    requires LiveDocs(parts[j]) <= oldToNew[j].Keys
    requires agg0 == AggOver(parts, oldToNew, j)
    ensures agg == AggOver(parts, oldToNew, j + 1)
  {
    agg := AddPart(agg0, parts[j], oldToNew[j]);
  }

  /** Every live doc of a part has a new id. */
  lemma RenumberingCoversLive(parts: seq<Segment>, j: nat)
    requires j < |parts|
    ensures LiveDocs(parts[j]) <= Renumbering(parts, j).Keys
  {
    SortedIs(LiveDocs(parts[j]));
  }

  /** Every `oldToNew` map covers the live docs of its part. */
  lemma RenumberingsCoverLive(parts: seq<Segment>)
    ensures forall j :: 0 <= j < |parts| ==> LiveDocs(parts[j]) <= Renumberings(parts, |parts|)[j].Keys
  {
    forall j | 0 <= j < |parts| ensures LiveDocs(parts[j]) <= Renumberings(parts, |parts|)[j].Keys {
      RenumberingCoversLive(parts, j);
    }
  }
}
