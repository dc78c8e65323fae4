/**
 * `SearchService`: the two boolean-AND queries over a snapshot of the live segments, with the
 * manifest tables as values.
 *
 * `searchFileIdsLegacy` lower-cases and trims the query, splits it on runs of whitespace, skips
 * blank terms, keeps per segment the raw ids of each term (`put`, so a later segment with the same
 * id replaces an earlier one), intersects term by term with a `null`-initialised accumulator,
 * stops as soon as nothing is left, and returns the distinct file ids of the surviving pairs.
 *
 * `searchV2` splits on runs of spaces only, starts from an empty map that the next term's map
 * replaces whenever it is empty, and returns one row per surviving pair whose file id resolves and
 * is not file-tombstoned.
 *
 * The order of both results follows hash map iteration, so the methods pick keys in an unspecified
 * order and their results are stated as sets.
 */
module SearchService {
  import opened JavaInts
  import opened Wrappers
  import opened JavaStrings
  import opened SortedSets
  import opened IndexSegment
  import opened ManifestStore
  import opened Lists
  import opened SegmentHits

  /** The ids of a list of segments. */
  function Ids(segs: seq<Segment>): set<string> {
    set k | 0 <= k < |segs| :: segs[k].id
  }

  /** No two segments share an id. */
  predicate DistinctIds(segs: seq<Segment>) {
    forall i, j :: 0 <= i < j < |segs| ==> segs[i].id != segs[j].id
  }

  /** The file ids the doc map gives the pairs; pairs without a row are dropped. */
  function FileIdsOf(m: Manifest, ps: set<Hit>): set<string> {
    set p | p in ps && p in m.docmap :: m.docmap[p]
  }

  lemma FileIdsOfAdd(m: Manifest, ps: set<Hit>, p: Hit)
    ensures FileIdsOf(m, ps + {p}) == FileIdsOf(m, ps) + (if p in m.docmap then {m.docmap[p]} else {})
  {
  }

  lemma FileIdsOfUnion(m: Manifest, a: set<Hit>, b: set<Hit>)
    ensures FileIdsOf(m, a + b) == FileIdsOf(m, a) + FileIdsOf(m, b)
  {
  }

  // ---------------------------------------------------------------- searchFileIdsLegacy

  /** `q.toLowerCase().trim().split("\\s+")`. */
  function LegacyTerms(q: string): seq<string> {
    JavaSplit(RegexSpace, Trim(Lower(q)))
  }

  /**
   * The legacy map of one term: every segment whose filter admits the term and whose raw list is
   * not empty puts the set of that list under its id, a later one replacing an earlier one.
   */
  function PutLocal(segs: seq<Segment>, t: Term): (r: Hits)
    ensures r.Keys <= Ids(segs)
  {
    if segs == [] then map[]
    else
      var prev := PutLocal(segs[..|segs| - 1], t);
      var seg := segs[|segs| - 1];
      var docs := Elems(RawPostings(seg, t));
      if MayHold(seg, t) && docs != {} then prev[seg.id := docs] else prev
  }

  /** The maps of the non-blank terms, in query order (`if (t.isBlank()) continue`). */
  function LegacyLocals(segs: seq<Segment>, terms: seq<string>): seq<Hits> {
    if terms == [] then []
    else
      var t := terms[|terms| - 1];
      LegacyLocals(segs, terms[..|terms| - 1]) + if IsBlank(t) then [] else [PutLocal(segs, t)]
  }

  /**
   * `searchFileIdsLegacy(q)` as a set: a `NullPointerException` when no term is non-blank (the
   * accumulator is still `null` when the results are collected), else the file ids of the
   * surviving pairs. No tombstone is consulted.
   */
  function Legacy(segs: seq<Segment>, m: Manifest, q: string): Result<set<string>> {
    match AndAll(LegacyLocals(segs, LegacyTerms(q)))
    case None => Err(NullPointer)
    case Some(acc) => Ok(FileIdsOf(m, Pairs(acc)))
  }

  /**
   * `searchFileIdsLegacy(q)`: the term loop with its early `return List.of()`, then the file ids
   * collected into a `LinkedHashSet` (no repeats).
   */
  method SearchFileIdsLegacy(segs: seq<Segment>, m: Manifest, q: string) returns (r: Result<seq<string>>)
    ensures r.Err? <==> Legacy(segs, m, q).Err?
    ensures r.Err? ==> r.error == NullPointer
    ensures r.Ok? ==> NoDup(r.value) && ToSet(r.value) == Legacy(segs, m, q).value
  {
    var terms := LegacyTerms(q);
    var acc: Option<Hits> := None;
    for i := 0 to |terms|
      invariant acc == AndAll(LegacyLocals(segs, terms[..i]))
    {
      var t := terms[i];
      LegacyStep(segs, terms, i);
      if !IsBlank(t) {
        var local := BuildPutLocal(segs, t);
        acc := Combine(acc, local);
        if acc.value == map[] {
          LegacyStaysEmpty(segs, terms, i + 1);
          LegacyNothingLeft(segs, m, q);
          return Ok([]);
        }
      }
    }
    assert terms[..|terms|] == terms;
    if acc.None? {
      return Err(NullPointer);
    }
    var ids := CollectFileIds(m, acc.value);
    return Ok(ids);
  }

  /**
   * One term's step: the first map is taken as it is; a later one first drops the keys the map
   * lacks (`keySet().retainAll`), then intersects segment by segment.
   */
  method Combine(acc: Option<Hits>, local: Hits) returns (r: Option<Hits>)
    ensures r == Some(if acc.None? then local else Intersect(acc.value, local))
  {
    if acc.None? {
      r := Some(local);
    } else {
      var kept := map s | s in acc.value && s in local :: acc.value[s];
      IntersectRestricted(acc.value, local);
      var next := RetainAll(kept, local);
      r := Some(next);
    }
  }

  /** An emptied accumulator returns the empty list. */
  lemma LegacyNothingLeft(segs: seq<Segment>, m: Manifest, q: string)
    requires AndAll(LegacyLocals(segs, LegacyTerms(q))) == Some(map[])
    ensures Legacy(segs, m, q) == Ok({})
  {
    assert Pairs(map[]) == {};
    assert FileIdsOf(m, {}) == {};
  }

  /** What one more term does to the accumulator: nothing for a blank term, else one AND step. */
  lemma LegacyStep(segs: seq<Segment>, terms: seq<string>, i: nat)
    requires i < |terms|
    ensures var prev := AndAll(LegacyLocals(segs, terms[..i]));
      var local := PutLocal(segs, terms[i]);
      AndAll(LegacyLocals(segs, terms[..i + 1]))
        == if IsBlank(terms[i]) then prev else Some(if prev.None? then local else Intersect(prev.value, local))
  {
    LegacyLocalsSnoc(segs, terms, i);
    var ls := LegacyLocals(segs, terms[..i]);
    if IsBlank(terms[i]) {
      assert ls + [] == ls;
    } else {
      AndAllSnoc(ls, PutLocal(segs, terms[i]));
    }
  }

  lemma LegacyLocalsSnoc(segs: seq<Segment>, terms: seq<string>, i: nat)
    requires i < |terms|
    ensures LegacyLocals(segs, terms[..i + 1])
      == LegacyLocals(segs, terms[..i]) + if IsBlank(terms[i]) then [] else [PutLocal(segs, terms[i])]
  {
    assert terms[..i + 1][..i] == terms[..i];
  }

  /** Dropping the keys the next map lacks first (`keySet().retainAll`) does not change the intersection. */
  lemma IntersectRestricted(acc: Hits, local: Hits)
    ensures Intersect(map s | s in acc && s in local :: acc[s], local) == Intersect(acc, local)
  {
  }

  /** Once the accumulator is empty after `i` terms, it is empty after all of them. */
  lemma {:induction false} LegacyStaysEmpty(segs: seq<Segment>, terms: seq<string>, i: nat)
    requires i <= |terms| && AndAll(LegacyLocals(segs, terms[..i])) == Some(map[])
    ensures AndAll(LegacyLocals(segs, terms)) == Some(map[])
    decreases |terms| - i
  {
    if i == |terms| {
      assert terms[..i] == terms;
    } else {
      LegacyLocalsSnoc(segs, terms, i);
      var prev := LegacyLocals(segs, terms[..i]);
      if IsBlank(terms[i]) {
        assert LegacyLocals(segs, terms[..i + 1]) == prev;
      } else {
        AndAllEmptyStays(prev, PutLocal(segs, terms[i]));
      }
      LegacyStaysEmpty(segs, terms, i + 1);
    }
  }

  /** The loop over the segments that builds one term's legacy map. */
  method BuildPutLocal(segs: seq<Segment>, t: Term) returns (local: Hits)
    ensures local == PutLocal(segs, t)
  {
    local := map[];
    for k := 0 to |segs|
      invariant local == PutLocal(segs[..k], t)
    {
      assert segs[..k + 1][..k] == segs[..k];
      var seg := segs[k];
      if MayHold(seg, t) {
        var docs := Elems(RawPostings(seg, t));
        if docs != {} {
          local := local[seg.id := docs];
        }
      }
    }
    assert segs[..|segs|] == segs;
  }

  /** The collection loop: each surviving pair's file id, once, when the doc map has a row for it. */
  method CollectFileIds(m: Manifest, acc: Hits) returns (ids: seq<string>)
    ensures NoDup(ids) && ToSet(ids) == FileIdsOf(m, Pairs(acc))
  {
    ids := [];
    var todo := acc.Keys;
    ghost var done: set<string> := {};
    while todo != {}
      invariant todo + done == acc.Keys && todo !! done
      invariant NoDup(ids) && ToSet(ids) == FileIdsOf(m, PairsOf(acc, done))
      decreases |todo|
    {
      var s :| s in todo;
      ghost var before := ids;
      ids := AddFileIds(m, s, acc[s], ids);
      CollectFileIdsStep(m, acc, done, s, before, ids);
      todo := todo - {s};
      done := done + {s};
    }
    assert done == acc.Keys;
    PairsOfAll(acc);
  }

  lemma CollectFileIdsStep(m: Manifest, acc: Hits, done: set<string>, s: string, ids: seq<string>, ids': seq<string>)
    requires s in acc
    requires ToSet(ids) == FileIdsOf(m, PairsOf(acc, done))
    requires ToSet(ids') == ToSet(ids) + FileIdsOf(m, SegPairs(s, acc[s]))
    ensures ToSet(ids') == FileIdsOf(m, PairsOf(acc, done + {s}))
  {
    PairsOfAdd(acc, done, s);
    FileIdsOfUnion(m, PairsOf(acc, done), SegPairs(s, acc[s]));
  }

  /** The inner loop over one segment's doc ids. */
  method AddFileIds(m: Manifest, s: string, docs: set<int32>, ids: seq<string>) returns (r: seq<string>)
    requires NoDup(ids)
    ensures NoDup(r) && ToSet(r) == ToSet(ids) + FileIdsOf(m, SegPairs(s, docs))
  {
    r := ids;
    var todo := docs;
    ghost var done: set<int32> := {};
    while todo != {}
      invariant todo + done == docs
      invariant NoDup(r) && ToSet(r) == ToSet(ids) + FileIdsOf(m, SegPairs(s, done))
      decreases |todo|
    {
      var d :| d in todo;
      ghost var before := r;
      if (s, d) in m.docmap {
        var f := m.docmap[(s, d)];
        if f !in r {
          r := r + [f];
        }
      }
      AddFileIdStep(m, s, ids, before, done, d, r);
      todo := todo - {d};
      done := done + {d};
    }
  }

  lemma AddFileIdStep(m: Manifest, s: string, ids: seq<string>, r: seq<string>, done: set<int32>, d: int32, r': seq<string>)
    requires NoDup(r) && ToSet(r) == ToSet(ids) + FileIdsOf(m, SegPairs(s, done))
    requires r' == if (s, d) in m.docmap && m.docmap[(s, d)] !in r then r + [m.docmap[(s, d)]] else r
    ensures NoDup(r') && ToSet(r') == ToSet(ids) + FileIdsOf(m, SegPairs(s, done + {d}))
  {
    assert SegPairs(s, done + {d}) == SegPairs(s, done) + {(s, d)};
    FileIdsOfAdd(m, SegPairs(s, done), (s, d));
    if r' != r {
      NoDupSnoc(r, m.docmap[(s, d)]);
    }
  }

  // ---------------------------------------------------------------- properties of the legacy search

  lemma {:induction false} LegacyLocalsAre(segs: seq<Segment>, terms: seq<string>, x: Hits)
    ensures x in LegacyLocals(segs, terms) <==> exists t :: t in terms && !IsBlank(t) && x == PutLocal(segs, t)
  {
    if terms != [] {
      var n := |terms|;
      LegacyLocalsAre(segs, terms[..n - 1], x);
      assert terms == terms[..n - 1] + [terms[n - 1]];
    }
  }

  /**
   * A file id is returned exactly when some pair maps to it in the doc map and, for every
   * non-blank term, the pair is in that term's legacy map; a query without a non-blank term fails.
   */
  lemma LegacySurvivors(segs: seq<Segment>, m: Manifest, q: string, f: string)
    ensures Legacy(segs, m, q).Err? <==> forall t :: t in LegacyTerms(q) ==> IsBlank(t)
    ensures Legacy(segs, m, q).Ok? ==>
      (f in Legacy(segs, m, q).value <==>
        exists p: Hit :: p in m.docmap && m.docmap[p] == f &&
          forall t :: t in LegacyTerms(q) && !IsBlank(t) ==> p.0 in PutLocal(segs, t) && p.1 in PutLocal(segs, t)[p.0])
  {
    var terms := LegacyTerms(q);
    var ls := LegacyLocals(segs, terms);
    if ls == [] {
      forall t | t in terms ensures IsBlank(t) {
        LegacyLocalsAre(segs, terms, PutLocal(segs, t));
      }
    } else {
      var x := ls[0];
      LegacyLocalsAre(segs, terms, x);
      var acc := AndAll(ls).value;
      forall p: Hit ensures (p in Pairs(acc)) <==>
        forall t :: t in terms && !IsBlank(t) ==> p.0 in PutLocal(segs, t) && p.1 in PutLocal(segs, t)[p.0]
      {
        PairsHas(acc, p);
        AndAllHas(ls, p.0, p.1);
        forall t | t in terms && !IsBlank(t) ensures PutLocal(segs, t) in ls {
          LegacyLocalsAre(segs, terms, PutLocal(segs, t));
        }
        forall k | 0 <= k < |ls| ensures exists t :: t in terms && !IsBlank(t) && ls[k] == PutLocal(segs, t) {
          LegacyLocalsAre(segs, terms, ls[k]);
        }
      }
    }
  }

  /** With distinct segment ids, a pair is in a term's legacy map exactly when its segment lists the doc id. */
  lemma {:induction false} PutLocalIsUnion(segs: seq<Segment>, t: Term)
    requires DistinctIds(segs)
    ensures PutLocal(segs, t) == UnionLocal(segs, t, false)
  {
    if segs != [] {
      var n := |segs|;
      var prefix := segs[..n - 1];
      var seg := segs[n - 1];
      assert DistinctIds(prefix);
      PutLocalIsUnion(prefix, t);
      assert seg.id !in Ids(prefix);
      UnionLocalKeys(prefix, t, false);
      var xs := Listed(seg, t, false);
      var u := UnionLocal(prefix, t, false);
      if MayHold(seg, t) && Elems(RawPostings(seg, t)) != {} {
        assert xs == RawPostings(seg, t) && xs != [];
        assert AddAll(u, seg.id, xs)[seg.id] == Elems(RawPostings(seg, t));
      } else {
        assert xs == [];
      }
    }
  }

  lemma {:induction false} UnionLocalKeys(segs: seq<Segment>, t: Term, live: bool)
    ensures UnionLocal(segs, t, live).Keys <= Ids(segs)
  {
    if segs != [] {
      var n := |segs|;
      UnionLocalKeys(segs[..n - 1], t, live);
      forall x | x in Ids(segs[..n - 1]) ensures x in Ids(segs) {
        var k :| 0 <= k < n - 1 && segs[..n - 1][k].id == x;
        assert segs[k] == segs[..n - 1][k];
      }
    }
  }

  // ---------------------------------------------------------------- searchV2

  /** `query.toLowerCase().split("\s+")`: in a Java string literal `\s` is a space, so this splits on runs of spaces only. */
  function V2Terms(query: string): seq<string> {
    JavaSplit(Space, Lower(query))
  }

  /** One hit of `searchV2`: the map with keys `segId`, `docId` and `fileId`. */
  datatype Row = Row(segId: string, docId: int32, fileId: string)

  /** The rows of the pairs whose file id resolves and is not file-tombstoned. */
  function RowsOf(m: Manifest, ps: set<Hit>): set<Row> {
    set p | p in ps && p in m.docmap && !IsTombstonedFileId(m, m.docmap[p]) :: Row(p.0, p.1, m.docmap[p])
  }

  lemma RowsOfHas(m: Manifest, ps: set<Hit>, row: Row)
    ensures row in RowsOf(m, ps) <==>
      var p := (row.segId, row.docId);
      p in ps && p in m.docmap && m.docmap[p] == row.fileId && !IsTombstonedFileId(m, row.fileId)
  {
    var p := (row.segId, row.docId);
    if p in ps && p in m.docmap && m.docmap[p] == row.fileId && !IsTombstonedFileId(m, row.fileId) {
      assert row == Row(p.0, p.1, m.docmap[p]);
    }
  }

  /** `searchV2(query)` as a set of rows. */
  function V2(segs: seq<Segment>, m: Manifest, query: string): set<Row> {
    RowsOf(m, Pairs(Revive(Locals(segs, V2Terms(query), false))))
  }

  /** `searchV2(query)`: the term loop, then one row per surviving pair. */
  method SearchV2(segs: seq<Segment>, m: Manifest, query: string) returns (hits: seq<Row>)
    ensures NoDup(hits) && ToSet(hits) == V2(segs, m, query)
  {
    var terms := V2Terms(query);
    var acc: Hits := map[];
    for i := 0 to |terms|
      invariant acc == Revive(Locals(segs, terms[..i], false))
    {
      LocalsSnoc(segs, terms, i, false);
      var local := BuildLocal(segs, terms[i], false);
      ReviveSnoc(Locals(segs, terms[..i], false), local);
      if acc == map[] {
        acc := local;
      } else {
        acc := RetainAll(acc, local);
      }
    }
    assert terms[..|terms|] == terms;
    hits := CollectRows(m, acc);
  }

  /** The row loop: one row per surviving pair, none twice. */
  method CollectRows(m: Manifest, acc: Hits) returns (hits: seq<Row>)
    ensures NoDup(hits) && ToSet(hits) == RowsOf(m, Pairs(acc))
  {
    hits := [];
    var todo := acc.Keys;
    ghost var done: set<string> := {};
    while todo != {}
      invariant todo + done == acc.Keys && todo !! done
      invariant NoDup(hits) && ToSet(hits) == RowsOf(m, PairsOf(acc, done))
      decreases |todo|
    {
      var s :| s in todo;
      RowsOfSegs(m, acc, done, s, hits);
      ghost var before := hits;
      hits := AddRows(m, s, acc[s], hits);
      CollectRowsStep(m, acc, done, s, before, hits);
      todo := todo - {s};
      done := done + {s};
    }
    assert done == acc.Keys;
    PairsOfAll(acc);
  }

  lemma CollectRowsStep(m: Manifest, acc: Hits, done: set<string>, s: string, hits: seq<Row>, hits': seq<Row>)
    requires s in acc
    requires ToSet(hits) == RowsOf(m, PairsOf(acc, done))
    requires ToSet(hits') == ToSet(hits) + RowsOf(m, SegPairs(s, acc[s]))
    ensures ToSet(hits') == RowsOf(m, PairsOf(acc, done + {s}))
  {
    PairsOfAdd(acc, done, s);
    RowsOfUnion(m, PairsOf(acc, done), SegPairs(s, acc[s]));
  }

  lemma RowsOfUnion(m: Manifest, a: set<Hit>, b: set<Hit>)
    ensures RowsOf(m, a + b) == RowsOf(m, a) + RowsOf(m, b)
  {
  }

  /** The rows collected so far belong to other segments. */
  lemma RowsOfSegs(m: Manifest, acc: Hits, done: set<string>, s: string, hits: seq<Row>)
    requires ToSet(hits) == RowsOf(m, PairsOf(acc, done)) && s !in done
    ensures forall row :: row in hits ==> row.segId != s
  {
    forall row | row in hits ensures row.segId != s {
      assert row in ToSet(hits);
      RowsOfHas(m, PairsOf(acc, done), row);
    }
  }

  /** The inner loop over one segment's doc ids. */
  method AddRows(m: Manifest, s: string, docs: set<int32>, hits: seq<Row>) returns (r: seq<Row>)
    requires NoDup(hits) && forall row :: row in hits ==> row.segId != s
    ensures NoDup(r) && ToSet(r) == ToSet(hits) + RowsOf(m, SegPairs(s, docs))
  {
    r := hits;
    var todo := docs;
    ghost var done: set<int32> := {};
    while todo != {}
      invariant todo + done == docs && todo !! done
      invariant NoDup(r) && ToSet(r) == ToSet(hits) + RowsOf(m, SegPairs(s, done))
      decreases |todo|
    {
      var d :| d in todo;
      ghost var before := r;
      if (s, d) in m.docmap && !IsTombstonedFileId(m, m.docmap[(s, d)]) {
        r := r + [Row(s, d, m.docmap[(s, d)])];
      }
      AddRowStep(m, s, hits, before, done, d, r);
      todo := todo - {d};
      done := done + {d};
    }
  }

  lemma AddRowStep(m: Manifest, s: string, hits: seq<Row>, r: seq<Row>, done: set<int32>, d: int32, r': seq<Row>)
    requires forall row :: row in hits ==> row.segId != s
    requires NoDup(r) && ToSet(r) == ToSet(hits) + RowsOf(m, SegPairs(s, done)) && d !in done
    requires r' == if (s, d) in m.docmap && !IsTombstonedFileId(m, m.docmap[(s, d)]) then r + [Row(s, d, m.docmap[(s, d)])] else r
    ensures NoDup(r') && ToSet(r') == ToSet(hits) + RowsOf(m, SegPairs(s, done + {d}))
  {
    assert SegPairs(s, done + {d}) == SegPairs(s, done) + {(s, d)};
    if r' != r {
      var row := Row(s, d, m.docmap[(s, d)]);
      forall x | x in r ensures x != row {
        assert x in ToSet(r);
        if x !in hits {
          RowsOfHas(m, SegPairs(s, done), x);
        }
      }
      NoDupSnoc(r, row);
    }
  }

  // ---------------------------------------------------------------- properties of searchV2

  /**
   * `searchV2` as the boolean AND it is meant to be: with a `null`-initialised accumulator an
   * emptied intersection stays empty.
   */
  function V2Intended(segs: seq<Segment>, m: Manifest, query: string): set<Row> {
    match AndAll(Locals(segs, V2Terms(query), false))
    case None => {}
    case Some(acc) => RowsOf(m, Pairs(acc))
  }

  /**
   * The intended result: a row exactly when the query has a term, the pair is in every term's map,
   * it resolves to the row's file id and that file id is not tombstoned.
   */
  lemma V2IntendedIsAnd(segs: seq<Segment>, m: Manifest, query: string, row: Row)
    ensures row in V2Intended(segs, m, query) <==>
      V2Terms(query) != []
      && (row.segId, row.docId) in m.docmap && m.docmap[(row.segId, row.docId)] == row.fileId
      && !IsTombstonedFileId(m, row.fileId)
      && forall k :: 0 <= k < |V2Terms(query)| ==> InLocal(segs, V2Terms(query)[k], false, row.segId, row.docId)
  {
    var terms := V2Terms(query);
    var ls := Locals(segs, terms, false);
    if terms != [] {
      var acc := AndAll(ls).value;
      RowsOfHas(m, Pairs(acc), row);
      PairsHas(acc, (row.segId, row.docId));
      AndAllHas(ls, row.segId, row.docId);
      forall k | 0 <= k < |terms| ensures ls[k] == UnionLocal(segs, terms[k], false) {
        LocalsAt(segs, terms, false, k);
      }
    }
  }

  /** While no prefix of the terms empties the accumulator, `searchV2` returns the intended rows. */
  lemma V2MatchesIntended(segs: seq<Segment>, m: Manifest, query: string)
    requires V2Terms(query) != []
    requires forall k :: 1 <= k < |V2Terms(query)| ==> Revive(Locals(segs, V2Terms(query), false)[..k]) != map[]
    ensures V2(segs, m, query) == V2Intended(segs, m, query)
  {
    ReviveIsAnd(Locals(segs, V2Terms(query), false));
  }

  /**
   * The query "b zzz b" over one segment holding one document with the single term "b": no
   * document has "zzz", so the AND is empty, yet the emptied accumulator is replaced by the hits of
   * the last "b" and the document comes back.
   */
  lemma V2RevivesEmptiedAnd()
    ensures var seg := AddDocSpec(EmptySegment("delta-1"), ["b"]);
      var m := MapDoc(Empty, "delta-1", 1, "f");
      && V2Terms("b zzz b") == ["b", "zzz", "b"]
      && RawPostings(seg, "zzz") == []
      && V2([seg], m, "b zzz b") == {Row("delta-1", 1, "f")}
      && V2Intended([seg], m, "b zzz b") == {}
  {
    var seg := AddDocSpec(EmptySegment("delta-1"), ["b"]);
    OneDoc();
    RevivalExample(seg, MapDoc(Empty, "delta-1", 1, "f"));
  }

  /** The segment after `addDoc(["b"])` on a new segment named "delta-1". */
  lemma OneDoc()
    ensures var seg := AddDocSpec(EmptySegment("delta-1"), ["b"]);
      seg.id == "delta-1" && MayHold(seg, "b") && RawPostings(seg, "b") == [1] && RawPostings(seg, "zzz") == []
  {
    var seg := AddDocSpec(EmptySegment("delta-1"), ["b"]);
    var one: int32 := 1;
    assert Wrap32(0 + 1) == one;
    assert TermSet(["b"]) == {"b"};
    assert seg.postings.Keys == {"b"};
    assert seg.postings["b"] == [one];
    AddDocAdmitsTerms(EmptySegment("delta-1"), ["b"], "b");
  }

  /** "b zzz b" over one segment whose only doc, 1, has "b" and not "zzz", mapped to file "f". */
  lemma RevivalExample(seg: Segment, m: Manifest)
    requires seg.id == "delta-1" && MayHold(seg, "b") && RawPostings(seg, "b") == [1] && RawPostings(seg, "zzz") == []
    requires ("delta-1", 1 as int32) in m.docmap && m.docmap[("delta-1", 1 as int32)] == "f" && !IsTombstonedFileId(m, "f")
    ensures V2Terms("b zzz b") == ["b", "zzz", "b"]
    ensures V2([seg], m, "b zzz b") == {Row("delta-1", 1, "f")}
    ensures V2Intended([seg], m, "b zzz b") == {}
  {
    var one: int32 := 1;
    var hitB: Hits := map["delta-1" := {one}];
    SplitExample();
    RevivalLocals(seg);
    assert "delta-1" in hitB;
    EmptiedInTheMiddle(hitB);
    PairsOfOne("delta-1", one);
    RowsOfOne(m, "delta-1", one, "f");
    NoPairs(m);
  }

  lemma RevivalLocals(seg: Segment)
    requires seg.id == "delta-1" && MayHold(seg, "b") && RawPostings(seg, "b") == [1] && RawPostings(seg, "zzz") == []
    ensures Locals([seg], ["b", "zzz", "b"], false) == [map["delta-1" := {1 as int32}], map[], map["delta-1" := {1 as int32}]]
  {
    OneDocLocals(seg);
    ThreeLocals([seg], "b", "zzz", false);
  }

  lemma NoPairs(m: Manifest)
    ensures RowsOf(m, Pairs(map[])) == {}
  {
    assert Pairs(map[]) == {};
  }

  lemma SplitExample()
    ensures V2Terms("b zzz b") == ["b", "zzz", "b"]
  {
    var q := "b zzz b";
    LowerExample();
    JoinExample();
    PiecesOfJoin(["b", "zzz", "b"]);
    assert IsSeparator(Space, q[1]);
    assert !NoSeparator(Space, q);
  }

  lemma LowerExample()
    ensures Lower("b zzz b") == "b zzz b"
  {
    var q := "b zzz b";
    forall i | 0 <= i < |q| ensures Lower(q)[i] == q[i] {
      assert !('A' <= q[i] <= 'Z');
    }
  }

  lemma JoinExample()
    ensures JoinSpaces(["b", "zzz", "b"]) == "b zzz b"
  {
    var words := ["b", "zzz", "b"];
    assert words[1..] == ["zzz", "b"] && words[1..][1..] == ["b"];
  }

  /** The maps of "b" and "zzz" over that segment. */
  lemma OneDocLocals(seg: Segment)
    requires seg.id == "delta-1" && MayHold(seg, "b") && RawPostings(seg, "b") == [1] && RawPostings(seg, "zzz") == []
    ensures UnionLocal([seg], "b", false) == map["delta-1" := {1 as int32}]
    ensures UnionLocal([seg], "zzz", false) == map[]
  {
    var one: int32 := 1;
    assert Listed(seg, "b", false) == [one];
    assert Listed(seg, "zzz", false) == [];
    assert [seg][..0] == [];
    assert Elems([one]) == {one};
    var empty: Hits := map[];
    assert UnionLocal([seg], "b", false) == AddAll(empty, "delta-1", [one]);
    assert AddAll(empty, "delta-1", [one]) == empty["delta-1" := {} + Elems([one])];
    assert {} + Elems([one]) == {one};
  }

  /** Three maps whose middle one is empty: the AND is empty, the reviving combination is the last map. */
  lemma EmptiedInTheMiddle(h: Hits)
    requires h != map[]
    ensures Revive([h, map[], h]) == h && AndAll([h, map[], h]) == Some(map[])
  {
    IntersectEmpty(h, map[]);
    IntersectEmpty(map[], h);
    assert [h] == [] + [h];
    assert [h, map[]] == [h] + [map[]];
    assert [h, map[], h] == [h, map[]] + [h];
    ReviveSnoc([], h);
    assert Revive([h]) == h;
    ReviveSnoc([h], map[]);
    assert Revive([h, map[]]) == map[];
    ReviveSnoc([h, map[]], h);
    AndAllSnoc([], h);
    assert AndAll([h]) == Some(h);
    AndAllSnoc([h], map[]);
    assert AndAll([h, map[]]) == Some(map[]);
    AndAllSnoc([h, map[]], h);
  }

  lemma ThreeLocals(segs: seq<Segment>, t1: Term, t2: Term, live: bool)
    ensures Locals(segs, [t1, t2, t1], live) == [UnionLocal(segs, t1, live), UnionLocal(segs, t2, live), UnionLocal(segs, t1, live)]
  {
    var terms := [t1, t2, t1];
    LocalsAt(segs, terms, live, 0);
    LocalsAt(segs, terms, live, 1);
    LocalsAt(segs, terms, live, 2);
  }

  lemma PairsOfOne(s: string, d: int32)
    ensures Pairs(map[s := {d}]) == {(s, d)}
  {
    forall p | p in Pairs(map[s := {d}]) ensures p == (s, d) {
      PairsHas(map[s := {d}], p);
    }
    PairsHas(map[s := {d}], (s, d));
  }

  lemma RowsOfOne(m: Manifest, s: string, d: int32, f: string)
    requires (s, d) in m.docmap && m.docmap[(s, d)] == f && !IsTombstonedFileId(m, f)
    ensures RowsOf(m, {(s, d)}) == {Row(s, d, f)}
  {
    forall row | row in RowsOf(m, {(s, d)}) ensures row == Row(s, d, f) {
      RowsOfHas(m, {(s, d)}, row);
    }
    RowsOfHas(m, {(s, d)}, Row(s, d, f));
  }

  /** The pair is in the term's map. */
  predicate InLocal(segs: seq<Segment>, t: Term, live: bool, s: string, d: int32) {
    s in UnionLocal(segs, t, live) && d in UnionLocal(segs, t, live)[s]
  }

  /** Once the accumulator is empty, the next term's hits come back whatever the earlier terms were. */
  lemma V2Revives(segs: seq<Segment>, terms: seq<Term>, t: Term)
    requires Revive(Locals(segs, terms, false)) == map[]
    ensures Revive(Locals(segs, terms + [t], false)) == UnionLocal(segs, t, false)
  {
    var all := terms + [t];
    assert all[..|terms|] == terms && all[..|terms| + 1] == all;
    LocalsSnoc(segs, all, |terms|, false);
    ReviveRestarts(Locals(segs, terms, false), UnionLocal(segs, t, false));
  }
}
