/**
 * `SearchService_backup.search`: the older boolean-AND query that answers with one `int` per
 * surviving (segment id, doc id) pair.
 *
 * The query is lower-cased (not trimmed) and split on runs of whitespace; each term's map holds,
 * per segment whose Bloom filter admits the term, the live postings (`getPostings`, deleted ids
 * taken out) added to the set under the segment's id. The accumulator starts as `null`, takes the
 * first term's map and is then intersected with each later map; a query with no terms answers the
 * empty list. Each surviving pair becomes `Objects.hash(segId, docId)` and the list is sorted.
 *
 * The hash is not injective (see `PairHashCollides`), so the "unique per seg+doc" promise of the
 * code's comment does not hold: two surviving pairs can give the same value, which then appears
 * twice in the answer.
 */
module SearchServiceBackup {
  import opened JavaInts
  import opened Wrappers
  import opened JavaStrings
  import opened JavaCharsets
  import opened IndexSegment
  import opened Lists
  import opened SegmentHits

  // ---------------------------------------------------------------- the hash of a pair

  /**
   * `Objects.hash(segId, docId)`: `Arrays.hashCode` over the two values, that is
   * `31 * (31 * 1 + segId.hashCode()) + docId` in `int` arithmetic.
   */
  function PairHash(p: Hit): int32 {
    Wrap32(31 * Wrap32(31 + StringHash(p.0)) + p.1)
  }

  /** The hashes of a list of pairs, in the same order. */
  function HashList(ps: seq<Hit>): seq<int32> {
    if ps == [] then [] else HashList(ps[..|ps| - 1]) + [PairHash(ps[|ps| - 1])]
  }

  lemma HashListSnoc(ps: seq<Hit>, p: Hit)
    ensures HashList(ps + [p]) == HashList(ps) + [PairHash(p)]
  {
    assert (ps + [p])[..|ps|] == ps;
  }

  /** Each value of `HashList(ps)` is the hash of the pair at the same position. */
  lemma {:induction false} HashListAt(ps: seq<Hit>)
    ensures |HashList(ps)| == |ps|
    ensures forall i :: 0 <= i < |ps| ==> HashList(ps)[i] == PairHash(ps[i])
  {
    if ps != [] {
      HashListAt(ps[..|ps| - 1]);
    }
  }

  /** "Aa" and "BB" have the same `String.hashCode()`, so the pairs ("Aa", d) and ("BB", d) share a hash. */
  lemma PairHashCollides(d: int32)
    ensures ("Aa", d) != ("BB", d)
    ensures PairHash(("Aa", d)) == PairHash(("BB", d))
  {
    assert Utf16("Aa") == [65, 97] by {
      assert Utf16("a") == [97];
    }
    assert Utf16("BB") == [66, 66] by {
      assert Utf16("B") == [66];
    }
    assert HashUnits([65, 97], 0) == 2112 by {
      assert HashUnits([97], 65) == 2112;
    }
    assert HashUnits([66, 66], 0) == 2112 by {
      assert HashUnits([66], 66) == 2112;
    }
  }

  // ---------------------------------------------------------------- sorting

  /** In ascending order, repeats allowed (`Collections.sort` on `Integer`). */
  predicate Ascending(xs: seq<int32>) {
    forall k :: 0 < k < |xs| ==> xs[k - 1] <= xs[k]
  }

  /** `x` put in front of the first element of `xs` that is not smaller. */
  function Insert(x: int32, xs: seq<int32>): (r: seq<int32>)
    requires Ascending(xs)
    ensures Ascending(r)
    ensures multiset(r) == multiset(xs) + multiset{x}
    ensures r[0] == x || (xs != [] && r[0] == xs[0])
  {
    if xs == [] || x <= xs[0] then [x] + xs
    else
      assert xs == [xs[0]] + xs[1..];
      [xs[0]] + Insert(x, xs[1..])
  }

  /** `Collections.sort`: the same values in ascending order. */
  function SortInts(xs: seq<int32>): (r: seq<int32>)
    ensures Ascending(r)
    ensures multiset(r) == multiset(xs)
  {
    if xs == [] then []
    else
      assert xs == [xs[0]] + xs[1..];
      Insert(xs[0], SortInts(xs[1..]))
  }

  // ---------------------------------------------------------------- the query

  /** `query.toLowerCase().split("\\s+")`: no trimming, so leading whitespace gives an empty first term. */
  function BackupTerms(query: string): seq<string> {
    JavaSplit(RegexSpace, Lower(query))
  }

  /** The accumulator after the term loop: `null` (`None`) when the query has no terms. */
  function Survivors(segs: seq<Segment>, query: string): Option<Hits> {
    AndAll(Locals(segs, BackupTerms(query), true))
  }

  /** The surviving (segment id, doc id) pairs; none without an accumulator. */
  function SurvivorPairs(segs: seq<Segment>, query: string): set<Hit> {
    match Survivors(segs, query)
    case None => {}
    case Some(acc) => Pairs(acc)
  }

  /** `search(query)` over a snapshot of the live segments. */
  method Search(segs: seq<Segment>, query: string) returns (out: seq<int32>, ghost order: seq<Hit>)
    ensures NoDup(order) && ToSet(order) == SurvivorPairs(segs, query)
    ensures Ascending(out) && multiset(out) == multiset(HashList(order))
    ensures |out| == |SurvivorPairs(segs, query)| && ToSet(out) == HashesOf(SurvivorPairs(segs, query))
  {
    var terms := BackupTerms(query);
    var acc: Option<Hits> := None;
    for i := 0 to |terms|
      invariant acc == AndAll(Locals(segs, terms[..i], true))
    {
      var local := BuildLocal(segs, terms[i], true);
      acc := Accumulate(acc, local);
      BackupStep(segs, terms, i);
    }
    assert terms[..|terms|] == terms;
    if acc.None? {
      return [], [];
    }
    out, order := CollectHashes(acc.value);
    out := SortInts(out);
    HashListSet(order, SurvivorPairs(segs, query), out);
  }

  /** `segToDocs = local` for the first term, the in-place `retainAll` for the others. */
  method Accumulate(acc: Option<Hits>, local: Hits) returns (r: Option<Hits>)
    ensures r == Some(if acc.None? then local else Intersect(acc.value, local))
  {
    if acc.None? {
      r := Some(local);
    } else {
      var kept := RetainAll(acc.value, local);
      r := Some(kept);
    }
  }

  lemma BackupStep(segs: seq<Segment>, terms: seq<string>, i: nat)
    requires i < |terms|
    ensures var prev := AndAll(Locals(segs, terms[..i], true));
      var local := UnionLocal(segs, terms[i], true);
      AndAll(Locals(segs, terms[..i + 1], true))
        == Some(if prev.None? then local else Intersect(prev.value, local))
  {
    LocalsSnoc(segs, terms, i, true);
    AndAllSnoc(Locals(segs, terms[..i], true), UnionLocal(segs, terms[i], true));
  }

  /** The loop that turns the surviving pairs into hashes; `order` is the order it visits them in. */
  method CollectHashes(acc: Hits) returns (out: seq<int32>, ghost order: seq<Hit>)
    ensures NoDup(order) && ToSet(order) == Pairs(acc)
    ensures out == HashList(order)
    ensures |out| == |Pairs(acc)| && ToSet(out) == HashesOf(Pairs(acc))
  {
    out, order := [], [];
    var todo := acc.Keys;
    ghost var done: set<string> := {};
    while todo != {}
      invariant todo + done == acc.Keys && todo !! done
      invariant NoDup(order) && ToSet(order) == PairsOf(acc, done)
      invariant out == HashList(order)
      decreases |todo|
    {
      var s :| s in todo;
      OtherSegments(acc, done, s, order);
      ghost var before := order;
      out, order := AddHashes(s, acc[s], out, order);
      CollectHashesStep(acc, done, s, before, order);
      todo := todo - {s};
      done := done + {s};
    }
    assert done == acc.Keys;
    PairsOfAll(acc);
    HashListSet(order, Pairs(acc), out);
  }

  /** The pairs visited so far belong to other segments. */
  lemma OtherSegments(acc: Hits, done: set<string>, s: string, order: seq<Hit>)
    requires ToSet(order) == PairsOf(acc, done) && s !in done
    ensures forall p :: p in order ==> p.0 != s
  {
    forall p | p in order ensures p.0 != s {
      assert p in ToSet(order);
    }
  }

  lemma CollectHashesStep(acc: Hits, done: set<string>, s: string, order: seq<Hit>, order': seq<Hit>)
    requires s in acc
    requires ToSet(order) == PairsOf(acc, done)
    requires ToSet(order') == ToSet(order) + SegPairs(s, acc[s])
    ensures ToSet(order') == PairsOf(acc, done + {s})
  {
    PairsOfAdd(acc, done, s);
  }

  /** The inner loop over one segment's doc ids: one more hash per doc id. */
  method AddHashes(s: string, docs: set<int32>, out: seq<int32>, ghost order: seq<Hit>)
    returns (r: seq<int32>, ghost order': seq<Hit>)
    requires NoDup(order) && out == HashList(order)
    requires forall p :: p in order ==> p.0 != s
    ensures NoDup(order') && ToSet(order') == ToSet(order) + SegPairs(s, docs)
    ensures r == HashList(order')
    ensures |r| == |out| + |docs| && r[..|out|] == out
  {
    r, order' := out, order;
    var todo := docs;
    ghost var done: set<int32> := {};
    while todo != {}
      invariant todo + done == docs && todo !! done
      invariant NoDup(order') && ToSet(order') == ToSet(order) + SegPairs(s, done)
      invariant r == HashList(order')
      invariant |r| == |out| + |done| && r[..|out|] == out
      decreases |todo|
    {
      var d :| d in todo;
      AddHashStep(s, order, order', done, d);
      HashListSnoc(order', (s, d));
      r, order' := r + [PairHash((s, d))], order' + [(s, d)];
      todo := todo - {d};
      done := done + {d};
    }
  }

  lemma AddHashStep(s: string, order: seq<Hit>, order': seq<Hit>, done: set<int32>, d: int32)
    requires forall p :: p in order ==> p.0 != s
    requires NoDup(order') && ToSet(order') == ToSet(order) + SegPairs(s, done) && d !in done
    ensures NoDup(order' + [(s, d)])
    ensures ToSet(order' + [(s, d)]) == ToSet(order) + SegPairs(s, done + {d})
  {
    assert SegPairs(s, done + {d}) == SegPairs(s, done) + {(s, d)};
    forall x | x in order' ensures x != (s, d) {
      assert x in ToSet(order');
    }
    NoDupSnoc(order', (s, d));
  }

  // ---------------------------------------------------------------- properties

  /**
   * A pair survives exactly when every term of the query finds the doc id live in some segment
   * with that id whose filter admits the term; with no terms there is no accumulator at all.
   */
  lemma BackupSurvivors(segs: seq<Segment>, query: string, s: string, d: int32)
    ensures Survivors(segs, query).None? <==> BackupTerms(query) == []
    ensures Survivors(segs, query).Some? ==>
      ((s in Survivors(segs, query).value && d in Survivors(segs, query).value[s])
        <==> forall k :: 0 <= k < |BackupTerms(query)| ==> LiveIn(segs, BackupTerms(query)[k], s, d))
  {
    var terms := BackupTerms(query);
    var locals := Locals(segs, terms, true);
    if terms != [] {
      assert AndAll(locals).Some?;
      AndAllHas(locals, s, d);
      forall k | 0 <= k < |terms|
        ensures (s in locals[k] && d in locals[k][s]) <==> LiveIn(segs, terms[k], s, d)
      {
        LocalsAt(segs, terms, true, k);
        UnionLocalHas(segs, terms[k], true, s, d);
      }
    }
  }

  /** Some segment with id `s` admits `t` and lists `d` among its live postings for it. */
  predicate LiveIn(segs: seq<Segment>, t: Term, s: string, d: int32) {
    exists k :: 0 <= k < |segs| && segs[k].id == s && MayHold(segs[k], t) && d in Postings(segs[k], t)
  }

  /** A doc deleted in every segment with its segment id is never found. */
  lemma DeletedNeverFound(segs: seq<Segment>, t: Term, s: string, d: int32)
    requires forall k :: 0 <= k < |segs| && segs[k].id == s ==> d in segs[k].deleted
    ensures !LiveIn(segs, t, s, d)
  {
    forall k | 0 <= k < |segs| && segs[k].id == s
      ensures d !in Postings(segs[k], t)
    {
      WithoutDeletedHas(RawPostings(segs[k], t), segs[k].deleted);
    }
  }

  /**
   * An answer as `Search` describes it has one value per surviving pair, and its values are
   * exactly the hashes of those pairs; colliding pairs therefore show up as a repeated value.
   */
  lemma AnswerCounts(out: seq<int32>, order: seq<Hit>, ps: set<Hit>, h: int32)
    requires NoDup(order) && ToSet(order) == ps
    requires multiset(out) == multiset(HashList(order))
    ensures |out| == |ps|
    ensures h in out <==> exists p :: p in ps && PairHash(p) == h
  {
    NoDupSize(order);
    HashListAt(order);
    assert |out| == |multiset(out)| == |HashList(order)|;
    assert h in out <==> h in HashList(order) by {
      assert h in out <==> h in multiset(out);
    }
    if h in HashList(order) {
      var i :| 0 <= i < |order| && HashList(order)[i] == h;
      assert order[i] in ps;
    }
    if p :| p in ps && PairHash(p) == h {
      assert p in ToSet(order);
      var i :| 0 <= i < |order| && order[i] == p;
      assert HashList(order)[i] == h;
    }
  }

  /** The hash values of a set of pairs. */
  function HashesOf(ps: set<Hit>): set<int32> {
    set p | p in ps :: PairHash(p)
  }

  /** An answer as `Search` describes it has as many values as pairs, and its values are the pairs' hashes. */
  lemma HashListSet(order: seq<Hit>, ps: set<Hit>, out: seq<int32>)
    requires NoDup(order) && ToSet(order) == ps
    requires multiset(out) == multiset(HashList(order))
    ensures |out| == |ps| && ToSet(out) == HashesOf(ps)
  {
    AnswerCounts(out, order, ps, 0);
    forall h ensures h in ToSet(out) <==> h in HashesOf(ps) {
      AnswerCounts(out, order, ps, h);
    }
  }

  /** Unlike `searchV2`, an emptied accumulator stays empty for the rest of the query. */
  lemma {:induction false} BackupStaysEmpty(segs: seq<Segment>, terms: seq<string>, i: nat)
    requires i <= |terms|
    requires AndAll(Locals(segs, terms[..i], true)) == Some(map[])
    ensures AndAll(Locals(segs, terms, true)) == Some(map[])
    decreases |terms| - i
  {
    if i == |terms| {
      assert terms[..i] == terms;
    } else {
      LocalsSnoc(segs, terms, i, true);
      AndAllEmptyStays(Locals(segs, terms[..i], true), UnionLocal(segs, terms[i], true));
      BackupStaysEmpty(segs, terms, i + 1);
    }
  }
}
