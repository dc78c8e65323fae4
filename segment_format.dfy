/**
 * The segment file: `persist` writes, and `load` reads back,
 *
 *   maxDocId : int
 *   n        : int                      (the number of terms)
 *   n times  : term (writeUTF), len : int, len bytes of var-byte postings
 *   d        : int                      (the number of deleted ids)
 *   d times  : id : int
 *
 * with every `int` big-endian in 4 bytes and `writeUTF` a 2-byte big-endian length followed by the
 * term's modified UTF-8. The map and the set are written in their iteration order, which is a
 * parameter here. `load` rebuilds the Bloom filter by adding every term it reads.
 */
module SegmentFormat {
  import opened JavaInts
  import opened Wrappers
  import opened JavaCharsets
  import opened VarByteCodec
  import opened IndexSegment
  import opened SortedSets
  import BF = BloomFilter

  // ---------------------------------------------------------------- DataOutputStream / DataInputStream

  /** `writeInt`: the bit pattern, high byte first. */
  function IntBytes(x: int32): (r: seq<uint8>)
    ensures |r| == 4
  {
    var u := ToUnsigned(x);
    [u / 0x100_0000, (u / 0x1_0000) % 0x100, (u / 0x100) % 0x100, u % 0x100]
  }

  /** The number four bytes spell, high byte first. */
  function BigEndian(b0: uint8, b1: uint8, b2: uint8, b3: uint8): (u: uint32) {
    b0 as int * 0x100_0000 + b1 as int * 0x1_0000 + b2 as int * 0x100 + b3 as int
  }

  /** `readInt`: four bytes, high byte first; fewer than four left is the end of the file. */
  function ReadInt(bytes: seq<uint8>): Result<(int32, seq<uint8>)> {
    if |bytes| < 4 then Err(EndOfFile)
    else Ok((FromUnsigned(BigEndian(bytes[0], bytes[1], bytes[2], bytes[3])), bytes[4..]))
  }

  /** Splitting a 32-bit pattern into bytes and joining them again gives it back. */
  lemma BigEndianBytes(u: uint32)
    ensures BigEndian(u / 0x100_0000, (u / 0x1_0000) % 0x100, (u / 0x100) % 0x100, u % 0x100) == u
  {
    var a := u / 0x100;
    var b := a / 0x100;
    var c := b / 0x100;
    assert u == a * 0x100 + u % 0x100;
    assert a == b * 0x100 + a % 0x100;
    assert b == c * 0x100 + b % 0x100;
    assert u / 0x1_0000 == b;
    assert u / 0x100_0000 == c;
  }

  /** `readInt` reads back what `writeInt` wrote, and nothing more. */
  lemma ReadIntBytes(x: int32, rest: seq<uint8>)
    ensures ReadInt(IntBytes(x) + rest) == Ok((x, rest))
  {
    var u := ToUnsigned(x);
    var bs := IntBytes(x) + rest;
    assert bs[4..] == rest;
    BigEndianBytes(u);
    assert BigEndian(bs[0], bs[1], bs[2], bs[3]) == u;
  }

  /** A term `writeUTF` accepts: its modified UTF-8 fits the 2-byte length. */
  predicate FitsUtf(t: Term) {
    |ModifiedUtf8(t)| <= 0xFFFF
  }

  /** `writeUTF`: a 2-byte length and the modified UTF-8; a longer encoding throws. */
  function WriteUtf(t: Term): (r: Result<seq<uint8>>)
    ensures r.Ok? <==> FitsUtf(t)
  {
    var b := ModifiedUtf8(t);
    if |b| > 0xFFFF then Err(UtfDataFormat) else Ok([|b| / 0x100, |b| % 0x100] + b)
  }

  /**
   * `readUTF`: the 2-byte length, that many bytes (else the end of the file), decoded from modified
   * UTF-8 (else malformed input) into code units that must pair up into characters.
   */
  function ReadUtf(bytes: seq<uint8>): Result<(Term, seq<uint8>)> {
    if |bytes| < 2 then Err(EndOfFile)
    else
      var n := bytes[0] as int * 0x100 + bytes[1] as int;
      if |bytes| < 2 + n then Err(EndOfFile)
      else
        match DecodeModified(bytes[2..2 + n])
        case Err(e) => Err(e)
        case Ok(units) =>
          match FromUtf16(units)
          case Err(e) => Err(e)
          case Ok(t) => Ok((t, bytes[2 + n..]))
  }

  /** `readUTF` reads back what `writeUTF` wrote. */
  lemma ReadUtfBytes(t: Term, rest: seq<uint8>)
    requires FitsUtf(t)
    ensures ReadUtf(WriteUtf(t).value + rest) == Ok((t, rest))
  {
    var b := ModifiedUtf8(t);
    var bs := WriteUtf(t).value + rest;
    assert bs[0] as int * 0x100 + bs[1] as int == |b|;
    assert bs[2..2 + |b|] == b;
    assert bs[2 + |b|..] == rest;
    StringRoundTrip(t);
  }

  /** `readNBytes(len)`: up to `len` bytes, fewer at the end of the file; a negative length throws. */
  function ReadNBytes(bytes: seq<uint8>, len: int32): (r: Result<(seq<uint8>, seq<uint8>)>)
    ensures len >= 0 <==> r.Ok?
    ensures r.Ok? ==> r.value.0 + r.value.1 == bytes && |r.value.0| == if len <= |bytes| then len as int else |bytes|
  {
    if len < 0 then Err(NegativeLength)
    else
      var n := if len <= |bytes| then len as int else |bytes|;
      Ok((bytes[..n], bytes[n..]))
  }

  // ---------------------------------------------------------------- persist

  /** `order` lists every element of `s` exactly once. */
  ghost predicate Enumerates<T(!new)>(order: seq<T>, s: set<T>) {
    && (forall i, j :: 0 <= i < j < |order| ==> order[i] != order[j])
    && (forall x :: x in order <==> x in s)
  }

  /** One postings entry: the term, the length of the var-byte postings and the postings. */
  function EntryBytes(t: Term, ids: seq<int32>): (r: Result<seq<uint8>>)
    ensures r.Ok? <==> FitsUtf(t) && |Encoded(ids)| <= INT_MAX
  {
    var enc := Encoded(ids);
    match WriteUtf(t)
    case Err(e) => Err(e)
    case Ok(u) => if |enc| > INT_MAX then Err(OutOfMemory) else Ok(u + IntBytes(|enc|) + enc)
  }

  /** The entries of `p` in the order `order`; the first entry that cannot be written stops the stream. */
  function EntriesBytes(p: map<Term, seq<int32>>, order: seq<Term>): Result<seq<uint8>>
    requires forall t :: t in order ==> t in p
  {
    if order == [] then Ok([])
    else
      match EntryBytes(order[0], p[order[0]])
      case Err(e) => Err(e)
      case Ok(head) =>
        match EntriesBytes(p, order[1..])
        case Err(e) => Err(e)
        case Ok(tail) => Ok(head + tail)
  }

  /** The deleted ids, one `writeInt` each. */
  function IdsBytes(ids: seq<int32>): seq<uint8> {
    if ids == [] then [] else IntBytes(ids[0]) + IdsBytes(ids[1..])
  }

  /**
   * `persist()`: the bytes of the segment file. The terms come in `termOrder` and the deleted ids in
   * `delOrder` (the map's and the set's iteration orders); the counts are `size()`, an `int`.
   */
  function Persist(seg: Segment, termOrder: seq<Term>, delOrder: seq<int32>): Result<seq<uint8>>
    requires Enumerates(termOrder, seg.postings.Keys) && Enumerates(delOrder, seg.deleted)
  {
    match EntriesBytes(seg.postings, termOrder)
    case Err(e) => Err(e)
    case Ok(entries) =>
      Ok(IntBytes(seg.maxDocId) + IntBytes(Wrap32(|seg.postings|)) + entries
         + IntBytes(Wrap32(|seg.deleted|)) + IdsBytes(delOrder))
  }

  /** `persist` fails exactly when some term is too long for `writeUTF` or some postings too long for an array. */
  lemma {:induction false} EntriesBytesOk(p: map<Term, seq<int32>>, order: seq<Term>)
    requires forall t :: t in order ==> t in p
    ensures EntriesBytes(p, order).Ok? <==> forall t :: t in order ==> FitsUtf(t) && |Encoded(p[t])| <= INT_MAX
  {
    if order != [] {
      EntriesBytesOk(p, order[1..]);
      assert forall t :: t in order ==> t == order[0] || t in order[1..];
    }
  }

  /** Every entry can be written: each term fits `writeUTF` and each encoded list fits an array. */
  predicate Writable(seg: Segment) {
    forall t :: t in seg.postings ==> FitsUtf(t) && |Encoded(seg.postings[t])| <= INT_MAX
  }

  /** The exception of a segment that cannot be written: `writeUTF`'s if some term is too long, else the allocation's. */
  function WriteError(seg: Segment): JavaError {
    if exists t :: t in seg.postings && !FitsUtf(t) then UtfDataFormat else OutOfMemory
  }

  /**
   * What a caller of `persist()` sees: the file system's failure `io` (creating the directory or
   * opening the file), else the encoding's failure, else success with the segment in hand.
   */
  function Saved(seg: Segment, io: Option<JavaError>): (r: Result<Segment>)
    ensures r.Ok? <==> io.None? && Writable(seg)
    ensures r.Ok? ==> r.value == seg
    ensures io.Some? ==> r == Err(io.value)
  {
    if io.Some? then Err(io.value) else if Writable(seg) then Ok(seg) else Err(WriteError(seg))
  }

  /** `persist` produces bytes exactly for the segments `Saved` accepts, whatever the iteration orders. */
  lemma PersistOkIffWritable(seg: Segment, termOrder: seq<Term>, delOrder: seq<int32>)
    requires Enumerates(termOrder, seg.postings.Keys) && Enumerates(delOrder, seg.deleted)
    ensures Persist(seg, termOrder, delOrder).Ok? <==> Writable(seg)
  {
    EntriesBytesOk(seg.postings, termOrder);
  }

  /** A failed stream names the first entry's failure: a term too long for `writeUTF`, or postings too long for an array. */
  lemma {:induction false} EntriesBytesError(p: map<Term, seq<int32>>, order: seq<Term>)
    requires forall t :: t in order ==> t in p
    ensures EntriesBytes(p, order).Err? ==>
      || (EntriesBytes(p, order).error == UtfDataFormat && exists t :: t in order && !FitsUtf(t))
      || (EntriesBytes(p, order).error == OutOfMemory && exists t :: t in order && |Encoded(p[t])| > INT_MAX)
  {
    if order != [] {
      EntriesBytesError(p, order[1..]);
      assert forall t :: t in order[1..] ==> t in order;
    }
  }

  /**
   * Where only one kind of entry can fail, `Saved` reports the exception `persist` throws for every
   * iteration order of the terms.
   */
  lemma SavedErrorIsPersistError(seg: Segment, termOrder: seq<Term>, delOrder: seq<int32>)
    requires Enumerates(termOrder, seg.postings.Keys) && Enumerates(delOrder, seg.deleted)
    requires (forall t :: t in seg.postings ==> FitsUtf(t))
          || (forall t :: t in seg.postings ==> |Encoded(seg.postings[t])| <= INT_MAX)
    ensures Persist(seg, termOrder, delOrder).Err? <==> Saved(seg, None).Err?
    ensures Persist(seg, termOrder, delOrder).Err? ==>
      Saved(seg, None).error == Persist(seg, termOrder, delOrder).error
  {
    PersistOkIffWritable(seg, termOrder, delOrder);
    EntriesBytesError(seg.postings, termOrder);
  }

  // ---------------------------------------------------------------- load

  /** One entry as `load` reads it: the term, the postings bytes and what follows them. */
  datatype Entry = Entry(term: Term, enc: seq<uint8>, rest: seq<uint8>)

  /** `readUTF`, `readInt` and `readNBytes` for one entry. */
  function ReadEntry(bytes: seq<uint8>): Result<Entry> {
    match ReadUtf(bytes)
    case Err(e) => Err(e)
    case Ok(r1) =>
      match ReadInt(r1.1)
      case Err(e) => Err(e)
      case Ok(r2) =>
        match ReadNBytes(r2.1, r2.0)
        case Err(e) => Err(e)
        case Ok(r3) => Ok(Entry(r1.0, r3.0, r3.1))
  }

  /** `postings.put(term, ids)` followed by `bloom.add(term)`. */
  function Put(seg: Segment, t: Term, ids: seq<int32>): Segment {
    seg.(postings := seg.postings[t := ids], bloom := BF.Added(seg.bloom, Utf8(t)))
  }

  /** The loop over the terms: `n` entries, each put into the map (a later one overwrites) and added to the filter. */
  function LoadEntries(bytes: seq<uint8>, n: int, seg: Segment): Result<(Segment, seq<uint8>)>
    decreases n
  {
    if n <= 0 then Ok((seg, bytes))
    else
      match ReadEntry(bytes)
      case Err(e) => Err(e)
      case Ok(entry) => LoadEntries(entry.rest, n - 1, Put(seg, entry.term, Decoded(entry.enc)))
  }

  /** The loop over the deleted ids: `n` ids, each added to the set. */
  function LoadDeleted(bytes: seq<uint8>, n: int, seg: Segment): Result<Segment>
    decreases n
  {
    if n <= 0 then Ok(seg)
    else
      match ReadInt(bytes)
      case Err(e) => Err(e)
      case Ok(r) => LoadDeleted(r.1, n - 1, seg.(deleted := seg.deleted + {r.0}))
  }

  /**
   * `load(dir, segId)`: a new segment (empty filter) whose `maxDocId`, postings and deleted ids are
   * read from the file. Bytes after the last deleted id are not read.
   */
  function Load(bytes: seq<uint8>, id: string): Result<Segment> {
    match ReadInt(bytes)
    case Err(e) => Err(e)
    case Ok(r1) =>
      match ReadInt(r1.1)
      case Err(e) => Err(e)
      case Ok(r2) =>
        match LoadEntries(r2.1, r2.0, EmptySegment(id).(maxDocId := r1.0))
        case Err(e) => Err(e)
        case Ok(r3) =>
          match ReadInt(r3.1)
          case Err(e) => Err(e)
          case Ok(r4) => LoadDeleted(r4.1, r4.0, r3.0)
  }

  // ---------------------------------------------------------------- properties

  /** Every term in the map passes the filter, and the segment keeps its id. */
  predicate AdmitsAllTerms(seg: Segment) {
    forall t :: t in seg.postings ==> MayHold(seg, t)
  }

  /** `put` then `add` keeps every term admitted: the new one by construction, the old ones because bits only grow. */
  lemma PutAdmits(seg: Segment, t: Term, ids: seq<int32>)
    requires AdmitsAllTerms(seg)
    ensures AdmitsAllTerms(Put(seg, t, ids))
  {
    var next := Put(seg, t, ids);
    forall u | u in next.postings ensures MayHold(next, u) {
      if u == t {
        BF.NoFalseNegatives(seg.bloom, Utf8(t));
      } else {
        BF.AddKeepsAdmitted(seg.bloom, Utf8(t), Utf8(u));
      }
    }
  }

  lemma LoadEntriesAdmits(bytes: seq<uint8>, n: int, seg: Segment)
    requires AdmitsAllTerms(seg)
    ensures LoadEntries(bytes, n, seg).Ok? ==> AdmitsAllTerms(LoadEntries(bytes, n, seg).value.0)
    decreases n
  {
    if n > 0 {
      match ReadEntry(bytes)
      case Err(_) =>
      case Ok(entry) =>
        var next := Put(seg, entry.term, Decoded(entry.enc));
        PutAdmits(seg, entry.term, Decoded(entry.enc));
        LoadEntriesAdmits(entry.rest, n - 1, next);
    }
  }

  lemma LoadEntriesKeepId(bytes: seq<uint8>, n: int, seg: Segment)
    ensures LoadEntries(bytes, n, seg).Ok? ==> LoadEntries(bytes, n, seg).value.0.id == seg.id
    decreases n
  {
    if n > 0 {
      match ReadEntry(bytes)
      case Err(_) =>
      case Ok(entry) =>
        LoadEntriesKeepId(entry.rest, n - 1, Put(seg, entry.term, Decoded(entry.enc)));
    }
  }

  lemma {:induction false} LoadDeletedKeeps(bytes: seq<uint8>, n: int, seg: Segment)
    ensures LoadDeleted(bytes, n, seg).Ok? ==>
      var s := LoadDeleted(bytes, n, seg).value;
      s.postings == seg.postings && s.bloom == seg.bloom && s.id == seg.id
    decreases n
  {
    if n > 0 && ReadInt(bytes).Ok? {
      var r := ReadInt(bytes).value;
      LoadDeletedKeeps(r.1, n - 1, seg.(deleted := seg.deleted + {r.0}));
    }
  }

  /** Whatever the bytes, a loaded segment's filter admits every term it holds: no false negatives. */
  lemma LoadAdmitsTerms(bytes: seq<uint8>, id: string)
    ensures Load(bytes, id).Ok? ==> Load(bytes, id).value.id == id && AdmitsAllTerms(Load(bytes, id).value)
  {
    if ReadInt(bytes).Ok? {
      var r1 := ReadInt(bytes).value;
      if ReadInt(r1.1).Ok? {
        var r2 := ReadInt(r1.1).value;
        var start := EmptySegment(id).(maxDocId := r1.0);
        LoadEntriesAdmits(r2.1, r2.0, start);
        LoadEntriesKeepId(r2.1, r2.0, start);
        if LoadEntries(r2.1, r2.0, start).Ok? {
          var r3 := LoadEntries(r2.1, r2.0, start).value;
          if ReadInt(r3.1).Ok? {
            var r4 := ReadInt(r3.1).value;
            LoadDeletedKeeps(r4.1, r4.0, r3.0);
          }
        }
      }
    }
  }

  /** The segment after the term loop has put the entries of `order`, in that order. */
  function Restored(seg: Segment, p: map<Term, seq<int32>>, order: seq<Term>): Segment
    requires forall t :: t in order ==> t in p
    decreases |order|
  {
    if order == [] then seg else Restored(Put(seg, order[0], p[order[0]]), p, order[1..])
  }

  /** Putting the entries of `order` leaves the id, the counter and the deleted ids alone. */
  lemma {:induction false} RestoredKeeps(seg: Segment, p: map<Term, seq<int32>>, order: seq<Term>)
    requires forall t :: t in order ==> t in p
    ensures var r := Restored(seg, p, order);
      r.id == seg.id && r.maxDocId == seg.maxDocId && r.deleted == seg.deleted
    decreases |order|
  {
    if order != [] {
      RestoredKeeps(Put(seg, order[0], p[order[0]]), p, order[1..]);
    }
  }

  /** After the entries of `order`, each of their terms maps to its list in `p`; other terms are as before. */
  lemma {:induction false} RestoredPostings(seg: Segment, p: map<Term, seq<int32>>, order: seq<Term>)
    requires forall t :: t in order ==> t in p
    ensures var r := Restored(seg, p, order).postings;
      && (forall t :: t in r <==> t in seg.postings || t in order)
      && (forall t :: t in order ==> r[t] == p[t])
      && (forall t :: t in seg.postings && t !in order ==> r[t] == seg.postings[t])
    decreases |order|
  {
    if order != [] {
      RestoredPostings(Put(seg, order[0], p[order[0]]), p, order[1..]);
      assert forall t :: t in order <==> t == order[0] || t in order[1..];
    }
  }

  /** After the entries of `order`, the filter holds the probes it held plus those of every term of `order`. */
  lemma {:induction false} RestoredBloom(seg: Segment, p: map<Term, seq<int32>>, order: seq<Term>)
    requires forall t :: t in order ==> t in p
    ensures Restored(seg, p, order).bloom
         == seg.bloom.(bits := seg.bloom.bits + BF.ProbesOfAll(seg.bloom.m, seg.bloom.k, TermBytes(ElemSet(order))))
    decreases |order|
  {
    if order == [] {
      assert TermBytes({}) == {};
      assert BF.ProbesOfAll(seg.bloom.m, seg.bloom.k, {}) == {};
    } else {
      var t := order[0];
      var next := Put(seg, t, p[t]);
      RestoredBloom(next, p, order[1..]);
      var later := TermBytes(ElemSet(order[1..]));
      assert TermBytes(ElemSet(order)) == later + {Utf8(t)} by {
        assert ElemSet(order) == ElemSet(order[1..]) + {t};
        TermBytesInsert(ElemSet(order[1..]), t);
      }
      BF.ProbesOfAllInsert(seg.bloom.m, seg.bloom.k, later, Utf8(t));
    }
  }

  /** One entry's bytes read back as the term and its postings bytes. */
  lemma ReadEntryBytes(t: Term, ids: seq<int32>, rest: seq<uint8>)
    requires EntryBytes(t, ids).Ok?
    ensures ReadEntry(EntryBytes(t, ids).value + rest) == Ok(Entry(t, Encoded(ids), rest))
  {
    var enc := Encoded(ids);
    var u := WriteUtf(t).value;
    var bs := EntryBytes(t, ids).value + rest;
    assert bs == u + (IntBytes(|enc|) + (enc + rest));
    ReadUtfBytes(t, IntBytes(|enc|) + (enc + rest));
    ReadIntBytes(|enc|, enc + rest);
    assert (enc + rest)[..|enc|] == enc && (enc + rest)[|enc|..] == rest;
  }

  /** The term loop reads back the entries `persist` wrote, in their order, and stops where they end. */
  lemma {:induction false} LoadEntriesOf(p: map<Term, seq<int32>>, order: seq<Term>, seg: Segment, rest: seq<uint8>)
    requires forall t :: t in order ==> t in p
    requires EntriesBytes(p, order).Ok?
    ensures LoadEntries(EntriesBytes(p, order).value + rest, |order|, seg) == Ok((Restored(seg, p, order), rest))
  {
    if order == [] {
      assert EntriesBytes(p, order).value + rest == rest;
    } else {
      var t := order[0];
      var head := EntryBytes(t, p[t]).value;
      var tail := EntriesBytes(p, order[1..]).value;
      assert EntriesBytes(p, order).value + rest == head + (tail + rest);
      ReadEntryBytes(t, p[t], tail + rest);
      RoundTrip(p[t]);
      LoadEntriesOf(p, order[1..], Put(seg, t, p[t]), rest);
    }
  }

  /** The elements of a list of terms, as a set. */
  function ElemSet(order: seq<Term>): (r: set<Term>)
    ensures forall t :: t in r <==> t in order
  {
    if order == [] then {} else {order[0]} + ElemSet(order[1..])
  }

  /** The deleted-id loop reads back what `persist` wrote. */
  lemma {:induction false} LoadDeletedOf(ids: seq<int32>, seg: Segment, rest: seq<uint8>)
    ensures LoadDeleted(IdsBytes(ids) + rest, |ids|, seg) == Ok(seg.(deleted := seg.deleted + Elems(ids)))
  {
    if ids == [] {
      assert seg.deleted + Elems(ids) == seg.deleted;
    } else {
      assert IdsBytes(ids) + rest == IntBytes(ids[0]) + (IdsBytes(ids[1..]) + rest);
      ReadIntBytes(ids[0], IdsBytes(ids[1..]) + rest);
      LoadDeletedOf(ids[1..], seg.(deleted := seg.deleted + {ids[0]}), rest);
      assert seg.deleted + {ids[0]} + Elems(ids[1..]) == seg.deleted + Elems(ids);
    }
  }

  /** An enumeration is as long as the set it enumerates. */
  lemma {:induction false} EnumerationSize<T(!new)>(order: seq<T>, s: set<T>)
    requires Enumerates(order, s)
    ensures |order| == |s|
  {
    if order != [] {
      var x := order[0];
      assert Enumerates(order[1..], s - {x}) by {
        forall y | y in s - {x} ensures y in order[1..] {
          var i :| 0 <= i < |order| && order[i] == y;
          assert i != 0;
          assert order[1..][i - 1] == y;
        }
      }
      EnumerationSize(order[1..], s - {x});
    } else {
      assert forall x :: x !in s;
      assert s == {};
    }
  }

  /**
   * Loading what `persist` wrote restores `maxDocId`, the postings and the deleted ids, and the
   * rebuilt filter equals that of a segment built by `addDoc` (it holds exactly the probes of the
   * terms). Bytes after the file's end are ignored.
   */
  lemma LoadPersisted(seg: Segment, termOrder: seq<Term>, delOrder: seq<int32>, rest: seq<uint8>)
    requires Enumerates(termOrder, seg.postings.Keys) && Enumerates(delOrder, seg.deleted)
    requires seg.bloom == BloomOf(seg.postings.Keys)
    requires |seg.postings| <= INT_MAX && |seg.deleted| <= INT_MAX
    requires Persist(seg, termOrder, delOrder).Ok?
    ensures Load(Persist(seg, termOrder, delOrder).value + rest, seg.id) == Ok(seg)
  {
    EnumerationSize(termOrder, seg.postings.Keys);
    EnumerationSize(delOrder, seg.deleted);
    var start := EmptySegment(seg.id).(maxDocId := seg.maxDocId);
    LoadPersistedBytes(seg, termOrder, delOrder, rest);
    RestoredAll(seg, termOrder, delOrder);
  }

  /** Reading the bytes of `persist` runs the term loop over `termOrder` and the deleted-id loop over `delOrder`. */
  lemma LoadPersistedBytes(seg: Segment, termOrder: seq<Term>, delOrder: seq<int32>, rest: seq<uint8>)
    requires Enumerates(termOrder, seg.postings.Keys) && Enumerates(delOrder, seg.deleted)
    requires |termOrder| == |seg.postings| <= INT_MAX && |delOrder| == |seg.deleted| <= INT_MAX
    requires Persist(seg, termOrder, delOrder).Ok?
    ensures Load(Persist(seg, termOrder, delOrder).value + rest, seg.id)
         == Ok(Restored(EmptySegment(seg.id).(maxDocId := seg.maxDocId), seg.postings, termOrder).(deleted := Elems(delOrder)))
  {
    var entries := EntriesBytes(seg.postings, termOrder).value;
    var n := Wrap32(|seg.postings|);
    var d := Wrap32(|seg.deleted|);
    var dels := IdsBytes(delOrder);
    var start := EmptySegment(seg.id).(maxDocId := seg.maxDocId);
    var loaded := Restored(start, seg.postings, termOrder);
    var r3 := IntBytes(d) + (dels + rest);
    PersistLayout(seg, termOrder, delOrder, rest);
    assert LoadEntries(entries + r3, n, start) == Ok((loaded, r3)) by {
      assert n == |termOrder|;
      LoadEntriesOf(seg.postings, termOrder, start, r3);
    }
    assert LoadDeleted(dels + rest, d, loaded) == Ok(loaded.(deleted := Elems(delOrder))) by {
      assert d == |delOrder|;
      LoadDeletedOf(delOrder, loaded, rest);
      RestoredKeeps(start, seg.postings, termOrder);
      assert loaded.deleted + Elems(delOrder) == Elems(delOrder);
    }
    LoadLayout(seg.id, seg.maxDocId, n, entries, d, dels, rest, loaded, loaded.(deleted := Elems(delOrder)));
  }

  /** The bytes of `persist`, grouped the way `load` reads them. */
  lemma PersistLayout(seg: Segment, termOrder: seq<Term>, delOrder: seq<int32>, rest: seq<uint8>)
    requires Enumerates(termOrder, seg.postings.Keys) && Enumerates(delOrder, seg.deleted)
    requires Persist(seg, termOrder, delOrder).Ok?
    ensures Persist(seg, termOrder, delOrder).value + rest
         == IntBytes(seg.maxDocId) + (IntBytes(Wrap32(|seg.postings|)) + (EntriesBytes(seg.postings, termOrder).value
            + (IntBytes(Wrap32(|seg.deleted|)) + (IdsBytes(delOrder) + rest))))
  {
    var a := IntBytes(seg.maxDocId);
    var b := IntBytes(Wrap32(|seg.postings|));
    var c := EntriesBytes(seg.postings, termOrder).value;
    var d := IntBytes(Wrap32(|seg.deleted|));
    var e := IdsBytes(delOrder);
    assert Persist(seg, termOrder, delOrder).value == a + b + c + d + e;
    Regroup(a, b, c, d, e, rest);
  }

  lemma Regroup(a: seq<uint8>, b: seq<uint8>, c: seq<uint8>, d: seq<uint8>, e: seq<uint8>, f: seq<uint8>)
    ensures a + b + c + d + e + f == a + (b + (c + (d + (e + f))))
  {
    assert a + b + c + d + e + f == a + (b + c + d + e + f);
    assert b + c + d + e + f == b + (c + d + e + f);
    assert c + d + e + f == c + (d + e + f);
    assert d + e + f == d + (e + f);
  }

  /** `load` of a file laid out as `persist` writes it: the counts, the entries, the deleted ids. */
  lemma LoadLayout(id: string, m: int32, n: int32, entries: seq<uint8>, d: int32, dels: seq<uint8>,
                   rest: seq<uint8>, loaded: Segment, final: Segment)
    requires LoadEntries(entries + (IntBytes(d) + (dels + rest)), n, EmptySegment(id).(maxDocId := m))
          == Ok((loaded, IntBytes(d) + (dels + rest)))
    requires LoadDeleted(dels + rest, d, loaded) == Ok(final)
    ensures Load(IntBytes(m) + (IntBytes(n) + (entries + (IntBytes(d) + (dels + rest)))), id) == Ok(final)
  {
    var r3 := IntBytes(d) + (dels + rest);
    ReadIntBytes(m, IntBytes(n) + (entries + r3));
    ReadIntBytes(n, entries + r3);
    ReadIntBytes(d, dels + rest);
  }

  /** The term loop over an enumeration of the keys, from a new segment, rebuilds the segment exactly. */
  lemma RestoredAll(seg: Segment, termOrder: seq<Term>, delOrder: seq<int32>)
    requires Enumerates(termOrder, seg.postings.Keys) && Enumerates(delOrder, seg.deleted)
    requires seg.bloom == BloomOf(seg.postings.Keys)
    ensures Restored(EmptySegment(seg.id).(maxDocId := seg.maxDocId), seg.postings, termOrder).(deleted := Elems(delOrder)) == seg
  {
    var start := EmptySegment(seg.id).(maxDocId := seg.maxDocId);
    var loaded := Restored(start, seg.postings, termOrder);
    RestoredKeeps(start, seg.postings, termOrder);
    RestoredAllPostings(seg.id, seg.maxDocId, seg.postings, termOrder);
    RestoredAllBloom(seg.id, seg.maxDocId, seg.postings, termOrder);
    assert Elems(delOrder) == seg.deleted;
  }

  lemma RestoredAllPostings(id: string, m: int32, p: map<Term, seq<int32>>, order: seq<Term>)
    requires forall t :: t in order <==> t in p
    ensures Restored(EmptySegment(id).(maxDocId := m), p, order).postings == p
  {
    var r := Restored(EmptySegment(id).(maxDocId := m), p, order).postings;
    RestoredPostings(EmptySegment(id).(maxDocId := m), p, order);
    assert r.Keys == p.Keys;
    assert forall t :: t in r ==> r[t] == p[t];
  }

  lemma RestoredAllBloom(id: string, m: int32, p: map<Term, seq<int32>>, order: seq<Term>)
    requires forall t :: t in order <==> t in p
    ensures Restored(EmptySegment(id).(maxDocId := m), p, order).bloom == BloomOf(p.Keys)
  {
    RestoredBloom(EmptySegment(id).(maxDocId := m), p, order);
    assert ElemSet(order) == p.Keys;
  }

  /** The file starts with `maxDocId` and the term count; fewer than 8 bytes cannot be loaded. */
  lemma ShortFileFails(bytes: seq<uint8>, id: string)
    requires |bytes| < 8
    ensures Load(bytes, id) == Err(EndOfFile)
  {
  }

  /** A negative postings length stops `load` with the exception `readNBytes` throws. */
  lemma NegativeLengthFails(t: Term, x: int32, rest: seq<uint8>, id: string)
    requires FitsUtf(t) && x < 0
    ensures Load(IntBytes(0) + IntBytes(1) + WriteUtf(t).value + IntBytes(x) + rest, id) == Err(NegativeLength)
  {
    var tail := IntBytes(x) + rest;
    var r2 := WriteUtf(t).value + tail;
    assert IntBytes(0) + IntBytes(1) + WriteUtf(t).value + IntBytes(x) + rest == IntBytes(0) + (IntBytes(1) + r2);
    ReadIntBytes(0, IntBytes(1) + r2);
    ReadIntBytes(1, r2);
    ReadUtfBytes(t, tail);
    ReadIntBytes(x, rest);
  }
}
