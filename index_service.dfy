/**
 * `IndexService`, the coordinator: it turns each file event into a one-document delta segment,
 * keeps the list of live segments and the manifest tables, and merges a planner's choice of
 * segments into one.
 *
 * The service is modelled sequentially: one call runs at a time, so the copy-on-write list and the
 * atomic counter are a plain sequence and a plain `int`. The file system, the clock and the
 * metrics are not modelled: whether writing a segment file fails is a parameter `io`, the time
 * that names a merged segment is a parameter `millis`, and deleting old segment files is left out.
 */
module Coordinator {
  import opened JavaInts
  import opened Wrappers
  import opened IndexSegment
  import opened Tokenizer
  import opened SegmentFormat
  import opened RemapMerge
  import opened ManifestStore
  import opened SearchService
  import DP = DPMergePlanner
  import Greedy = GreedyMergePlanner

  // ---------------------------------------------------------------- events

  datatype EventType = Add | Update | Delete

  /** A `FileEvent` as the coordinator reads it; `None` stands for a null field. */
  datatype FileEvent = FileEvent(fileId: Option<string>, kind: Option<EventType>, text: Option<string>)

  /** Every event but a DELETE adds a document; a null type is not DELETE, so it adds one too. */
  predicate AddsDoc(e: FileEvent) {
    e.kind != Some(Delete)
  }

  // ---------------------------------------------------------------- names and paths

  function DigitChar(d: nat): char
    requires d < 10
  {
    ('0' as int + d) as char
  }

  /** The decimal digits of `n`, most significant first, without leading zeros. */
  function Decimal(n: nat): (r: string)
    ensures r != [] && forall i :: 0 <= i < |r| ==> '0' <= r[i] <= '9'
    ensures |r| == 1 <==> n < 10
  {
    if n < 10 then [DigitChar(n)] else Decimal(n / 10) + [DigitChar(n % 10)]
  }

  /** `Integer.toString(n)` / `Long.toString(n)`: a minus sign for negative numbers, then the digits. */
  function IntToString(n: int): string {
    if n < 0 then "-" + Decimal(-n) else Decimal(n)
  }

  /** The id of the delta segment of the event that moved the counter to `n`. */
  function DeltaName(n: int32): string {
    "delta-" + IntToString(n)
  }

  /** The id of a merged segment made at time `millis`. */
  function MergeName(millis: int): string {
    "merge-" + IntToString(millis)
  }

  /** No two separators in a row. */
  predicate SingleSlashes(p: string) {
    forall i :: 0 <= i < |p| - 1 ==> !(p[i] == '/' && p[i + 1] == '/')
  }

  /** Each run of '/' in a path string reduced to one '/'. */
  function CollapseSlashes(p: string): (r: string)
    ensures |r| <= |p| && (p == [] <==> r == [])
    ensures p != [] ==> r[0] == p[0] && r[|r| - 1] == p[|p| - 1]
    ensures SingleSlashes(r)
    ensures SingleSlashes(p) ==> r == p
  {
    if |p| <= 1 then p
    else if p[|p| - 2] == '/' && p[|p| - 1] == '/' then CollapseSlashes(p[..|p| - 1])
    else
      var init := p[..|p| - 1];
      assert SingleSlashes(p) ==> SingleSlashes(init) by {
        if SingleSlashes(p) {
          forall i | 0 <= i < |init| - 1 ensures !(init[i] == '/' && init[i + 1] == '/') {
            assert init[i] == p[i] && init[i + 1] == p[i + 1];
          }
        }
      }
      CollapseSlashes(init) + [p[|p| - 1]]
  }

  /** A path string as `Path.of` keeps it on Unix: runs of '/' collapsed, a trailing '/' dropped except for the root. */
  predicate Normalized(p: string) {
    SingleSlashes(p) && (|p| > 1 ==> p[|p| - 1] != '/')
  }

  /** `Path.of(p).toString()` on Unix. */
  function NormPath(p: string): (r: string)
    ensures Normalized(r)
    ensures Normalized(p) ==> r == p
    ensures (p == [] <==> r == []) && (p != [] && p[0] == '/' <==> r != [] && r[0] == '/')
  {
    var c := CollapseSlashes(p);
    if |c| > 1 && c[|c| - 1] == '/' then
      assert c[|c| - 2] != '/';
      var d := c[..|c| - 1];
      assert SingleSlashes(d) by {
        forall i | 0 <= i < |d| - 1 ensures !(d[i] == '/' && d[i + 1] == '/') {
          assert d[i] == c[i] && d[i + 1] == c[i + 1];
        }
      }
      d
    else c
  }

  /** `base.resolve(child)` on Unix, for two normalised paths: an absolute or empty child, an empty or root base, else one '/' between. */
  function Resolve(base: string, child: string): (r: string)
    requires Normalized(base) && Normalized(child)
    ensures Normalized(r)
    ensures child != [] && child[0] != '/' && base != [] && base != "/" ==> r == base + "/" + child
  {
    if child != [] && child[0] == '/' then child
    else if child == [] then base
    else if base == [] then child
    else if base == "/" then
      assert forall i :: 0 <= i < |child| ==> ("/" + child)[i + 1] == child[i];
      "/" + child
    else
      var r := base + "/" + child;
      assert forall i :: 0 <= i < |base| ==> r[i] == base[i];
      assert forall i :: 0 <= i < |child| ==> r[|base| + 1 + i] == child[i];
      r
  }

  /** `segDir.resolve(id + ".seg").toString()`, with `segDir` built by `Path.of(dir)`. */
  function SegPath(dir: string, id: string): string {
    Resolve(NormPath(dir), NormPath(id + ".seg"))
  }

  /** A path string without any '/' is already normalised. */
  lemma NoSlashNormalized(p: string)
    requires forall i :: 0 <= i < |p| ==> p[i] != '/'
    ensures Normalized(p)
  {
  }

  /** A name without '/' resolved against a plain directory name: one '/' between them. */
  lemma SegPathPlain(dir: string, id: string)
    requires dir != [] && forall i :: 0 <= i < |dir| ==> dir[i] != '/'
    requires forall i :: 0 <= i < |id| ==> id[i] != '/'
    ensures SegPath(dir, id) == dir + "/" + id + ".seg"
  {
    var name := id + ".seg";
    NoSlashNormalized(dir);
    assert forall i :: 0 <= i < |name| ==> name[i] != '/' by {
      assert forall i :: 0 <= i < |id| ==> name[i] == id[i];
      assert name[|id|..] == ".seg";
    }
    NoSlashNormalized(name);
    assert dir + "/" + id + ".seg" == dir + "/" + name;
  }

  /** A trailing '/' on the directory does not reach the path. */
  lemma SegPathTrailingSlash()
    ensures SegPath("segments/", "delta-1") == "segments/delta-1.seg"
  {
    var p := "segments/";
    assert SingleSlashes(p) by {
      forall i | 0 <= i < |p| - 1 ensures !(p[i] == '/' && p[i + 1] == '/') {
        assert p[i] != '/';
      }
    }
    assert NormPath(p) == "segments";
    SegPathPlain("segments", "delta-1");
  }

  /** The root directory gets no second '/'. */
  lemma SegPathRoot()
    ensures SegPath("/", "delta-1") == "/delta-1.seg"
  {
    assert Normalized("/");
    var name := "delta-1.seg";
    NoSlashNormalized(name);
  }

  /** A repeated '/' inside the directory is collapsed. */
  lemma SegPathRepeatedSlash()
    ensures SegPath("a//b", "x") == "a/b/x.seg"
  {
    var p := "a//b";
    assert p[..3] == "a//" && "a//"[..2] == "a/";
    assert SingleSlashes("a/");
    assert CollapseSlashes("a//") == "a/";
    assert CollapseSlashes(p) == "a/b";
    assert Normalized("a/b");
    NoSlashNormalized("x.seg");
    assert Resolve("a/b", "x.seg") == "a/b/x.seg";
  }

  /** Different numbers have different decimal forms. */
  lemma {:induction false} DecimalInjective(a: nat, b: nat)
    requires Decimal(a) == Decimal(b)
    ensures a == b
    decreases a
  {
    var da, db := Decimal(a), Decimal(b);
    if a >= 10 {
      assert da[..|da| - 1] == Decimal(a / 10);
      assert db[..|db| - 1] == Decimal(b / 10);
      DecimalInjective(a / 10, b / 10);
      assert da[|da| - 1] == DigitChar(a % 10);
      assert db[|db| - 1] == DigitChar(b % 10);
    }
  }

  /** Only a negative number's string starts with a minus sign. */
  lemma SignFirst(n: int)
    ensures IntToString(n) != [] && (IntToString(n)[0] == '-' <==> n < 0)
  {
    if n >= 0 {
      assert IntToString(n)[0] == Decimal(n)[0];
    }
  }

  lemma IntToStringInjective(a: int, b: int)
    requires IntToString(a) == IntToString(b)
    ensures a == b
  {
    SignFirst(a);
    SignFirst(b);
    var sa, sb := IntToString(a), IntToString(b);
    if a < 0 {
      assert sa[1..] == Decimal(-a) && sb[1..] == Decimal(-b);
      DecimalInjective(-a, -b);
    } else {
      DecimalInjective(a, b);
    }
  }

  /** Different counter values name different delta segments. */
  lemma DeltaNamesDistinct(a: int32, b: int32)
    ensures DeltaName(a) == DeltaName(b) <==> a == b
  {
    if DeltaName(a) == DeltaName(b) {
      var p := "delta-";
      assert DeltaName(a)[|p|..] == IntToString(a);
      assert DeltaName(b)[|p|..] == IntToString(b);
      IntToStringInjective(a, b);
    }
  }

  /** A delta segment and a merged segment never share an id. */
  lemma DeltaIsNotMerge(n: int32, millis: int)
    ensures DeltaName(n) != MergeName(millis)
  {
    assert DeltaName(n)[0] == 'd' && MergeName(millis)[0] == 'm';
  }

  // ---------------------------------------------------------------- what an event does

  /** Tombstoning the docs previously mapped to the event's file id: only doc-level tombstones. */
  function Tombstoned(m: Manifest, fileId: Option<string>): Manifest {
    match fileId
    case None => m
    case Some(f) => m.(tombstones := m.tombstones + FindDocsByFileId(m, f))
  }

  /** The delta segment an event produces, before it is written. */
  function EventSegment(name: string, e: FileEvent): Segment {
    if AddsDoc(e) then AddDocSpec(EmptySegment(name), Tokenize(e.text)) else EmptySegment(name)
  }

  /** The manifest once the event's rows are in, before the segment row. */
  function EventManifest(m: Manifest, e: FileEvent, name: string): Manifest {
    var m1 := Tombstoned(m, e.fileId);
    if AddsDoc(e) && e.fileId.Some? then MapDoc(m1, name, 1, e.fileId.value) else m1
  }

  /**
   * The event's doc rows: every doc mapped to the file id before the event is now tombstoned, the
   * file id itself is not, and a non-DELETE event maps (delta id, 1) to the file id.
   */
  lemma EventManifestRows(m: Manifest, e: FileEvent, name: string, s: string, d: int32)
    ensures IsTombstoned(EventManifest(m, e, name), s, d)
      <==> IsTombstoned(m, s, d) || (e.fileId.Some? && ResolveFileId(m, s, d) == e.fileId)
    ensures EventManifest(m, e, name).fileTombstones == m.fileTombstones
    ensures EventManifest(m, e, name).segments == m.segments
    ensures ResolveFileId(EventManifest(m, e, name), s, d)
      == if AddsDoc(e) && e.fileId.Some? && (s, d) == (name, 1) then e.fileId else ResolveFileId(m, s, d)
  {
  }

  /**
   * The delta segment holds one document, id 1, listed under exactly the event's tokens (none for a
   * DELETE), and nothing is deleted in it.
   */
  lemma EventSegmentDocs(name: string, e: FileEvent, t: Term)
    ensures EventSegment(name, e).id == name
    ensures EventSegment(name, e).maxDocId == if AddsDoc(e) then 1 else 0
    ensures EventSegment(name, e).deleted == {}
    ensures RawPostings(EventSegment(name, e), t) == if AddsDoc(e) && t in Tokenize(e.text) then [1] else []
  {
    if AddsDoc(e) {
      FreshDoc(EmptySegment(name), Tokenize(e.text), t);
    }
  }

  /** The first document added to a segment without postings gets id 1 and is listed under each of its terms. */
  lemma FreshDoc(seg: Segment, terms: seq<Term>, t: Term)
    requires seg.postings == map[] && seg.maxDocId == 0
    ensures AddDocSpec(seg, terms).id == seg.id && AddDocSpec(seg, terms).deleted == seg.deleted
    ensures AddDocSpec(seg, terms).maxDocId == 1
    ensures RawPostings(AddDocSpec(seg, terms), t) == if t in terms then [1] else []
  {
    var added := TermSet(terms);
    assert Wrap32(seg.maxDocId + 1) == 1;
    var p := WithDoc(seg, added, 1);
    assert AddDocSpec(seg, terms).postings == p;
    assert RawPostings(seg, t) == [];
    if t in terms {
      assert t in added;
      assert p[t] == [1];
    } else {
      assert t !in added;
      assert t !in p;
    }
  }

  // ---------------------------------------------------------------- what a merge does

  /** The doc map rows the merged segment gets from the first `n` pointers of its remap. */
  function Rebuild(m: Manifest, id: string, remap: seq<DocPointer>, n: nat): Manifest
    requires n <= |remap| <= INT_MAX
  {
    if n == 0 then m
    else
      var prev := Rebuild(m, id, remap, n - 1);
      var src := remap[n - 1];
      match ResolveFileId(prev, src.segId, src.docId)
      case None => prev
      case Some(f) => MapDoc(prev, id, (n - 1) as int32, f)
  }

  /**
   * When no pointer names the merged segment itself, new doc `i` resolves to the file of the doc it
   * came from, keeps its old row if that doc has none, and every other row is kept.
   */
  lemma {:induction false} RebuildRows(m: Manifest, id: string, remap: seq<DocPointer>, n: nat, s: string, d: int32)
    requires n <= |remap| <= INT_MAX
    requires forall k :: 0 <= k < |remap| ==> remap[k].segId != id
    ensures Rebuild(m, id, remap, n).segments == m.segments
    ensures Rebuild(m, id, remap, n).tombstones == m.tombstones
    ensures ResolveFileId(Rebuild(m, id, remap, n), s, d)
      == if s == id && 0 <= d < n && ResolveFileId(m, remap[d].segId, remap[d].docId).Some?
         then ResolveFileId(m, remap[d].segId, remap[d].docId)
         else ResolveFileId(m, s, d)
  {
    if n > 0 {
      var src := remap[n - 1];
      RebuildRows(m, id, remap, n - 1, s, d);
      RebuildRows(m, id, remap, n - 1, src.segId, src.docId);
    }
  }

  /** `liveSegments.remove(s)`: the first occurrence of `x` taken out, if there is one. */
  function RemoveFirst<T(==)>(xs: seq<T>, x: T): seq<T> {
    if xs == [] then []
    else if xs[0] == x then xs[1..]
    else [xs[0]] + RemoveFirst(xs[1..], x)
  }

  /** The live list once each chosen segment has been removed, in the order of the choice. */
  function RemoveAll<T(==)>(xs: seq<T>, choice: seq<T>): seq<T> {
    if choice == [] then xs
    else RemoveFirst(RemoveAll(xs, choice[..|choice| - 1]), choice[|choice| - 1])
  }

  /** The manifest once each chosen segment's row and doc map rows are deleted. */
  function Retire(m: Manifest, choice: seq<Segment>): Manifest {
    if choice == [] then m
    else
      var id := choice[|choice| - 1].id;
      DeleteDocmapBySegment(Remove(Retire(m, choice[..|choice| - 1]), id), id)
  }

  /** The retired segments are gone from the segment table and the doc map; nothing else changes. */
  lemma {:induction false} RetireRows(m: Manifest, choice: seq<Segment>, s: string, d: int32)
    ensures ListIds(Retire(m, choice)) == ListIds(m) - Ids(choice)
    ensures Retire(m, choice).tombstones == m.tombstones
    ensures Retire(m, choice).fileTombstones == m.fileTombstones
    ensures ResolveFileId(Retire(m, choice), s, d) == if s in Ids(choice) then None else ResolveFileId(m, s, d)
  {
    if choice != [] {
      var init := choice[..|choice| - 1];
      RetireRows(m, init, s, d);
      IdsSnoc(choice);
    }
  }

  lemma IdsSnoc(segs: seq<Segment>)
    requires segs != []
    ensures Ids(segs) == Ids(segs[..|segs| - 1]) + {segs[|segs| - 1].id}
  {
    var init := segs[..|segs| - 1];
    forall x | x in Ids(segs) ensures x in Ids(init) + {segs[|segs| - 1].id} {
      var k :| 0 <= k < |segs| && segs[k].id == x;
      if k < |init| {
        assert init[k] == segs[k];
      }
    }
    forall x | x in Ids(init) ensures x in Ids(segs) {
      var k :| 0 <= k < |init| && init[k].id == x;
      assert segs[k] == init[k];
    }
  }

  /** `RemoveFirst` takes away one copy of `x`, if there is one, and nothing else. */
  lemma {:induction false} RemoveFirstCounts<T>(xs: seq<T>, x: T)
    ensures multiset(RemoveFirst(xs, x)) == multiset(xs) - multiset{x}
  {
    if xs != [] {
      assert xs == [xs[0]] + xs[1..];
      if xs[0] != x {
        RemoveFirstCounts(xs[1..], x);
      }
    }
  }

  /** The live list keeps every copy that the choice does not take away. */
  lemma {:induction false} RemoveAllCounts<T>(xs: seq<T>, choice: seq<T>)
    ensures multiset(RemoveAll(xs, choice)) == multiset(xs) - multiset(choice)
  {
    if choice != [] {
      var init := choice[..|choice| - 1];
      var c := choice[|choice| - 1];
      RemoveAllCounts(xs, init);
      RemoveFirstCounts(RemoveAll(xs, init), c);
      MultisetSnoc(choice);
      DifferenceTwice(multiset(xs), multiset(init), c);
    }
  }

  lemma MultisetSnoc<T>(xs: seq<T>)
    requires xs != []
    ensures multiset(xs) == multiset(xs[..|xs| - 1]) + multiset{xs[|xs| - 1]}
  {
    assert xs == xs[..|xs| - 1] + [xs[|xs| - 1]];
  }

  lemma DifferenceTwice<T>(a: multiset<T>, b: multiset<T>, c: T)
    ensures (a - b) - multiset{c} == a - (b + multiset{c})
  {
  }

  /** `a` occurs in `b` in order, possibly with other elements between. */
  predicate Subseq<T(==)>(a: seq<T>, b: seq<T>)
    decreases |b|
  {
    a == [] || (b != [] && ((a[0] == b[0] && Subseq(a[1..], b[1..])) || Subseq(a, b[1..])))
  }

  lemma {:induction false} SubseqRefl<T>(a: seq<T>)
    ensures Subseq(a, a)
  {
    if a != [] {
      SubseqRefl(a[1..]);
    }
  }

  lemma {:induction false} SubseqTrans<T>(a: seq<T>, b: seq<T>, c: seq<T>)
    requires Subseq(a, b) && Subseq(b, c)
    ensures Subseq(a, c)
    decreases |c|
  {
    if a != [] {
      if Subseq(b, c[1..]) {
        SubseqTrans(a, b, c[1..]);
      } else if Subseq(a, b[1..]) {
        SubseqTrans(a, b[1..], c[1..]);
      } else {
        SubseqTrans(a[1..], b[1..], c[1..]);
      }
    }
  }

  lemma {:induction false} RemoveFirstSubseq<T>(xs: seq<T>, x: T)
    ensures Subseq(RemoveFirst(xs, x), xs)
  {
    if xs != [] {
      if xs[0] == x {
        SubseqRefl(xs[1..]);
      } else {
        RemoveFirstSubseq(xs[1..], x);
        assert RemoveFirst(xs, x)[1..] == RemoveFirst(xs[1..], x);
      }
    }
  }

  /** The segments left in the live list keep their relative order. */
  lemma {:induction false} RemoveAllSubseq<T>(xs: seq<T>, choice: seq<T>)
    ensures Subseq(RemoveAll(xs, choice), xs)
  {
    if choice == [] {
      SubseqRefl(xs);
    } else {
      var init := choice[..|choice| - 1];
      RemoveAllSubseq(xs, init);
      RemoveFirstSubseq(RemoveAll(xs, init), choice[|choice| - 1]);
      SubseqTrans(RemoveAll(xs, choice), RemoveAll(xs, init), xs);
    }
  }

  /** A segment the choice names as often as the live list holds it is gone afterwards. */
  lemma ChosenGone<T>(xs: seq<T>, choice: seq<T>, x: T)
    requires multiset(xs)[x] <= multiset(choice)[x]
    ensures x !in RemoveAll(xs, choice)
  {
    RemoveAllCounts(xs, choice);
  }

  /**
   * What merging `choice` does to the live list and the manifest (`live0`, `m0` before, `live1`,
   * `m1` after) and what it returns: nothing for an empty choice; the exception of
   * `mergeWithRemap`; otherwise the merged segment's doc rows, the chosen segments retired, the
   * merged segment listed and registered, and the size of the choice.
   */
  ghost predicate Merged(dir: string, live0: seq<Segment>, m0: Manifest, choice: seq<Segment>, millis: int,
                         io: Option<JavaError>, r: Result<int>, live1: seq<Segment>, m1: Manifest)
  {
    var same := live1 == live0 && m1 == m0;
    if choice == [] then r == Ok(0) && same
    else
      var id := MergeName(millis);
      match Returned(MergeWithRemapSpec(id, choice), io)
      case Err(x) => r == Err(x) && same
      case Ok(res) =>
        if |res.remap| > INT_MAX then r == Err(OutOfMemory) && same
        else
          r == Ok(|choice|)
          && live1 == RemoveAll(live0, choice) + [res.segment]
          && m1 == Upsert(Retire(Rebuild(m0, id, res.remap, |res.remap|), choice), id, SegPath(dir, id))
  }

  /**
   * After a merge: the segments not chosen stay in their relative order and keep every copy the
   * choice does not take, followed by the merged segment; the chosen ids are gone from the segment
   * table and the doc map, the merged id is registered, each merged doc resolves to the file of the
   * doc it came from, and the tombstones are untouched.
   */
  lemma MergeEffects(dir: string, live0: seq<Segment>, m0: Manifest, choice: seq<Segment>, id: string,
                     remap: seq<DocPointer>, merged: Segment, live1: seq<Segment>, m1: Manifest, i: int32)
    requires |remap| <= INT_MAX && id !in Ids(choice)
    requires forall k :: 0 <= k < |remap| ==> remap[k].segId != id
    requires live1 == RemoveAll(live0, choice) + [merged]
    requires m1 == Upsert(Retire(Rebuild(m0, id, remap, |remap|), choice), id, SegPath(dir, id))
    ensures live1[|live1| - 1] == merged
    ensures Subseq(live1[..|live1| - 1], live0)
    ensures multiset(live1[..|live1| - 1]) == multiset(live0) - multiset(choice)
    ensures ListIds(m1) == (ListIds(m0) - Ids(choice)) + {id}
    ensures forall s :: s in Ids(choice) ==> ResolveFileId(m1, s, i) == None
    ensures 0 <= i < |remap| && ResolveFileId(m0, remap[i].segId, remap[i].docId).Some? ==>
      ResolveFileId(m1, id, i) == ResolveFileId(m0, remap[i].segId, remap[i].docId)
    ensures m1.tombstones == m0.tombstones
  {
    var rest := RemoveAll(live0, choice);
    assert live1[..|live1| - 1] == rest;
    RemoveAllSubseq(live0, choice);
    RemoveAllCounts(live0, choice);
    var rebuilt := Rebuild(m0, id, remap, |remap|);
    forall s | s in Ids(choice) ensures ResolveFileId(m1, s, i) == None {
      RetireRows(rebuilt, choice, s, i);
    }
    RetireRows(rebuilt, choice, id, i);
    RebuildRows(m0, id, remap, |remap|, id, i);
    RebuildRows(m0, id, remap, |remap|, id, 0);
  }

  /**
   * A merged id that equals one of the chosen ids (`merge-<millis>` named twice in one millisecond):
   * the id stays registered, but `deleteDocmapBySegment` has removed the rows just written for it,
   * so none of the merged docs resolves to a file.
   */
  lemma MergeIdReused(dir: string, m0: Manifest, choice: seq<Segment>, id: string, remap: seq<DocPointer>, i: int32)
    requires |remap| <= INT_MAX && id in Ids(choice)
    ensures var m1 := Upsert(Retire(Rebuild(m0, id, remap, |remap|), choice), id, SegPath(dir, id));
      id in ListIds(m1) && ResolveFileId(m1, id, i) == None
  {
    RetireRows(Rebuild(m0, id, remap, |remap|), choice, id, i);
  }

  // ---------------------------------------------------------------- the service

  /** The loop of `addTombstone` calls over the rows `findDocsByFileId` returned. */
  method TombstoneAll(m: Manifest, rows: set<DocKey>) returns (r: Manifest)
    ensures r == m.(tombstones := m.tombstones + rows)
  {
    r := m;
    var todo := rows;
    ghost var done: set<DocKey> := {};
    while todo != {}
      invariant todo + done == rows && todo !! done
      invariant r == m.(tombstones := m.tombstones + done)
      decreases |todo|
    {
      var row :| row in todo;
      TombstoneStep(m, rows, todo, done, row);
      r := AddTombstone(r, row.0, row.1);
      todo, done := todo - {row}, done + {row};
    }
  }

  lemma TombstoneStep(m: Manifest, rows: set<DocKey>, todo: set<DocKey>, done: set<DocKey>, row: DocKey)
    requires todo + done == rows && todo !! done && row in todo
    ensures (todo - {row}) + (done + {row}) == rows && (todo - {row}) !! (done + {row})
    ensures |todo - {row}| < |todo|
    ensures AddTombstone(m.(tombstones := m.tombstones + done), row.0, row.1)
      == m.(tombstones := m.tombstones + (done + {row}))
  {
  }

  /** `new IndexSegment(segDir, name)`, then `addDoc` of the event's tokens unless it is a DELETE. */
  method NewDelta(name: string, e: FileEvent) returns (delta: Segment, docId: int32)
    ensures delta == EventSegment(name, e)
    ensures AddsDoc(e) ==> docId == 1
  {
    var seg := new IndexSegment(name);
    docId := 0;
    if AddsDoc(e) {
      docId := seg.AddDoc(Tokenize(e.text));
    }
    delta := seg.Value();
  }

  class IndexService {
    const segDir: string
    var live: seq<Segment>
    var counter: int32
    var manifest: Manifest

    /**
     * A service over `dir` whose reload from the manifest produced `loaded`: the segments whose
     * files could be read, in the order the manifest listed their ids.
     */
    constructor (dir: string, m: Manifest, loaded: seq<Segment>)
      ensures segDir == NormPath(dir) && manifest == m && live == loaded && counter == 0
    {
      segDir := NormPath(dir);
      manifest := m;
      live := loaded;
      counter := 0;
    }

    /** `currentSegments()`: a copy of the live list, which later calls do not change. */
    method CurrentSegments() returns (r: seq<Segment>)
      ensures r == live
    {
      r := live;
    }

    /**
     * `applyEvent(e)`. `io` is the failure, if any, of writing the delta's file; a failure is
     * thrown (`thrown`) after the counter and the doc rows have changed, but before the delta is
     * listed or registered.
     */
    method ApplyEvent(e: FileEvent, io: Option<JavaError>) returns (thrown: Option<JavaError>)
      modifies this
      ensures counter == Wrap32(old(counter) + 1)
      ensures var name := DeltaName(counter);
        var m := EventManifest(old(manifest), e, name);
        match Saved(EventSegment(name, e), io)
        case Ok(delta) =>
          thrown == None && live == old(live) + [delta] && manifest == Upsert(m, name, SegPath(segDir, name))
        case Err(x) =>
          thrown == Some(x) && live == old(live) && manifest == m
    {
      counter := Wrap32(counter + 1);
      var name := DeltaName(counter);
      if e.fileId.Some? {
        var previous := FindDocsByFileId(manifest, e.fileId.value);
        manifest := TombstoneAll(manifest, previous);
      }
      var delta, docId := NewDelta(name, e);
      if AddsDoc(e) && e.fileId.Some? {
        manifest := MapDoc(manifest, name, docId, e.fileId.value);
      }
      var saved := Saved(delta, io);
      if saved.Err? {
        thrown := Some(saved.error);
      } else {
        live := live + [delta];
        manifest := Upsert(manifest, name, SegPath(segDir, name));
        thrown := None;
      }
    }

    /**
     * The part both merge entry points share, once the planner has chosen: nothing for an empty
     * choice; otherwise the merged segment, its doc map rows, the chosen segments retired, the
     * merged segment listed and registered, and the size of the choice returned.
     */
    method ApplyMerge(choice: seq<Segment>, millis: int, io: Option<JavaError>) returns (r: Result<int>)
      modifies this
      ensures Merged(segDir, old(live), old(manifest), choice, millis, io, r, live, manifest)
      ensures counter == old(counter)
    {
      if choice == [] {
        return Ok(0);
      }
      var id := MergeName(millis);
      var result := MergeWithRemap(id, choice, io);
      if result.Err? {
        return Err(result.error);
      }
      var res := result.value;
      if |res.remap| > INT_MAX {
        return Err(OutOfMemory);
      }
      for i := 0 to |res.remap|
        invariant manifest == Rebuild(old(manifest), id, res.remap, i)
        invariant live == old(live) && counter == old(counter)
      {
        var src := res.remap[i];
        var fileId := ResolveFileId(manifest, src.segId, src.docId);
        if fileId.Some? {
          manifest := MapDoc(manifest, id, i as int32, fileId.value);
        }
      }
      ghost var rebuilt := manifest;
      for k := 0 to |choice|
        invariant live == RemoveAll(old(live), choice[..k])
        invariant manifest == Retire(rebuilt, choice[..k])
        invariant counter == old(counter)
      {
        assert choice[..k + 1][..k] == choice[..k];
        var s := choice[k];
        live := RemoveFirst(live, s);
        manifest := Remove(manifest, s.id);
        manifest := DeleteDocmapBySegment(manifest, s.id);
      }
      assert choice[..|choice|] == choice;
      live := live + [res.segment];
      manifest := Upsert(manifest, id, SegPath(segDir, id));
      r := Ok(|choice|);
    }

    /** `mergeWithDPBudget(budgetBytes)`: the knapsack planner's choice, or its exception. */
    method MergeWithDPBudget(budget: int32, millis: int, io: Option<JavaError>) returns (r: Result<int>)
      requires |live| <= INT_MAX
      modifies this
      ensures match DP.PlanSpec(old(live), budget)
        case Err(x) => r == Err(x) && live == old(live) && manifest == old(manifest)
        case Ok(choice) => Merged(segDir, old(live), old(manifest), choice, millis, io, r, live, manifest)
      ensures counter == old(counter)
    {
      var segments := CurrentSegments();
      var choice := DP.Plan(segments, budget);
      if choice.Err? {
        return Err(choice.error);
      }
      r := ApplyMerge(choice.value, millis, io);
    }

    /** `mergeGreedy(maxPick)`: the `maxPick` segments with the highest deleted ratios, or the planner's exception. */
    method MergeGreedy(maxPick: int32, millis: int, io: Option<JavaError>) returns (r: Result<int>)
      modifies this
      ensures match Greedy.Plan(old(live), maxPick)
        case Err(x) => r == Err(x) && live == old(live) && manifest == old(manifest)
        case Ok(choice) => Merged(segDir, old(live), old(manifest), choice, millis, io, r, live, manifest)
      ensures counter == old(counter)
    {
      var segments := CurrentSegments();
      var choice := Greedy.Plan(segments, maxPick);
      if choice.Err? {
        return Err(choice.error);
      }
      r := ApplyMerge(choice.value, millis, io);
    }
  }
}
