/**
 * The per-segment membership filter: a bit set of size `m` and `k` probes. Probe `i` hashes the
 * term's bytes with the seed `1337 + 101 i`, folding `h = h * 31 + b` over the SIGNED bytes with
 * Java's 32-bit wrap-around, and takes `(h & 0x7fffffff) % m` as the bit to set or test.
 *
 * The bit set is the set of its set bits (a `java.util.BitSet` is a growable set of
 * non-negative ints). Strings reach the filter as their UTF-8 bytes.
 */
module BloomFilter {
  import opened JavaInts

  /** A bit-set size the filter can hash into. */
  type Width = m: int | 0 < m <= 0x7FFF_FFFF witness 1

  /** The seed of probe `i`: `1337 + i * 101` in `int` arithmetic. */
  function Seed(i: int): int32 {
    Wrap32(1337 + i * 101)
  }

  /** The fold `h = h * 31 + b` over the bytes, each read as a signed Java `byte`. */
  function HashFold(data: seq<uint8>, h: int32): int32 {
    if data == [] then h else HashFold(data[1..], Wrap32(h * 31 + SignedByte(data[0])))
  }

  /** The bit `hash(data, seed)` selects: the fold with its sign bit cleared, modulo `m`. */
  function Index(data: seq<uint8>, seed: int32, m: Width): (r: int)
    ensures 0 <= r < m
  {
    ClearSignBit(HashFold(data, seed)) % m
  }

  /** The filter's state: its size, its probe count and the bits that are set. */
  datatype Filter = Filter(m: Width, k: int32, bits: set<int>)

  /** The bits the first `n` probes of `data` select (none when `n <= 0`). */
  function ProbeSet(data: seq<uint8>, m: Width, n: int): set<int>
    decreases n
  {
    if n <= 0 then {} else ProbeSet(data, m, n - 1) + {Index(data, Seed(n - 1), m)}
  }

  /** Probe `i < n` is among the first `n` probes. */
  lemma {:induction false} ProbeSetHas(data: seq<uint8>, m: Width, n: int, i: int)
    requires 0 <= i < n
    ensures Index(data, Seed(i), m) in ProbeSet(data, m, n)
    decreases n
  {
    if i < n - 1 {
      ProbeSetHas(data, m, n - 1, i);
    }
  }

  /** The bits the `k` probes of `data` select. */
  function Probes(f: Filter, data: seq<uint8>): set<int> {
    ProbeSet(data, f.m, f.k)
  }

  /** The filter after `add(data)`: the probed bits are set, no bit is cleared. */
  function Added(f: Filter, data: seq<uint8>): Filter {
    f.(bits := f.bits + Probes(f, data))
  }

  /** What `mightContain(data)` answers: every probed bit is set. */
  predicate Admits(f: Filter, data: seq<uint8>) {
    Probes(f, data) <= f.bits
  }

  /** The filter after adding every item of `items`, in order. */
  function AddedAll(f: Filter, items: seq<seq<uint8>>): (r: Filter)
    ensures r.m == f.m && r.k == f.k && f.bits <= r.bits
    ensures forall j :: 0 <= j < |items| ==> Admits(r, items[j])
    decreases |items|
  {
    if items == [] then f else AddedAll(Added(f, items[0]), items[1..])
  }

  /** No false negatives: once added, always admitted. */
  lemma NoFalseNegatives(f: Filter, data: seq<uint8>)
    ensures Admits(Added(f, data), data)
  {
  }

  /** `add` only sets bits, so whatever was admitted before is admitted after. */
  lemma AddKeepsAdmitted(f: Filter, data: seq<uint8>, other: seq<uint8>)
    requires Admits(f, other)
    ensures Admits(Added(f, data), other)
  {
  }

  /** Adding the same bytes twice leaves the same bits as adding them once. */
  lemma AddIdempotent(f: Filter, data: seq<uint8>)
    ensures Added(Added(f, data), data) == Added(f, data)
  {
  }

  /** With no probes (`k <= 0`) every item is admitted. */
  lemma NoProbesAdmitsAll(f: Filter, data: seq<uint8>)
    requires f.k <= 0
    ensures Admits(f, data)
  {
  }

  /** Every bit some probe of some item of `items` selects, for a filter of size `m` with `k` probes. */
  function ProbesOfAll(m: Width, k: int32, items: set<seq<uint8>>): set<int> {
    set d, x | d in items && x in ProbeSet(d, m, k) :: x
  }

  /** The bits after adding a list of items are the bits before plus every item's probes: the order does not matter. */
  lemma {:induction false} AddedAllBits(f: Filter, items: seq<seq<uint8>>)
    ensures AddedAll(f, items).bits == f.bits + ProbesOfAll(f.m, f.k, set d | d in items)
    decreases |items|
  {
    if items == [] {
      assert ProbesOfAll(f.m, f.k, set d | d in items) == {};
    } else {
      var g := Added(f, items[0]);
      AddedAllBits(g, items[1..]);
      var rest := set d | d in items[1..];
      assert (set d | d in items) == rest + {items[0]};
      ProbesOfAllInsert(f.m, f.k, rest, items[0]);
    }
  }

  /** Every item's probes are among the bits of the set it belongs to. */
  lemma ProbesOfAllHas(m: Width, k: int32, items: set<seq<uint8>>, d: seq<uint8>)
    requires d in items
    ensures ProbeSet(d, m, k) <= ProbesOfAll(m, k, items)
  {
  }

  /** The probes of a union of item sets are the union of their probes. */
  lemma ProbesOfAllUnion(m: Width, k: int32, a: set<seq<uint8>>, b: set<seq<uint8>>)
    ensures ProbesOfAll(m, k, a + b) == ProbesOfAll(m, k, a) + ProbesOfAll(m, k, b)
  {
    forall x | x in ProbesOfAll(m, k, a + b)
      ensures x in ProbesOfAll(m, k, a) + ProbesOfAll(m, k, b)
    {
      var e :| e in a + b && x in ProbeSet(e, m, k);
      if e in a {
        assert x in ProbesOfAll(m, k, a);
      } else {
        assert x in ProbesOfAll(m, k, b);
      }
    }
    forall x | x in ProbesOfAll(m, k, a) + ProbesOfAll(m, k, b)
      ensures x in ProbesOfAll(m, k, a + b)
    {
      if x in ProbesOfAll(m, k, a) {
        var e :| e in a && x in ProbeSet(e, m, k);
        assert e in a + b;
      } else {
        var e :| e in b && x in ProbeSet(e, m, k);
        assert e in a + b;
      }
    }
  }

  /** One more item contributes exactly its own probes. */
  lemma ProbesOfAllInsert(m: Width, k: int32, items: set<seq<uint8>>, d: seq<uint8>)
    ensures ProbesOfAll(m, k, items + {d}) == ProbesOfAll(m, k, items) + ProbeSet(d, m, k)
  {
    forall x | x in ProbesOfAll(m, k, items + {d})
      ensures x in ProbesOfAll(m, k, items) + ProbeSet(d, m, k)
    {
      var e :| e in items + {d} && x in ProbeSet(e, m, k);
      if e != d {
        assert x in ProbesOfAll(m, k, items);
      }
    }
    forall x | x in ProbesOfAll(m, k, items) + ProbeSet(d, m, k)
      ensures x in ProbesOfAll(m, k, items + {d})
    {
      if x in ProbeSet(d, m, k) {
        assert d in items + {d};
      } else {
        var e :| e in items && x in ProbeSet(e, m, k);
        assert e in items + {d};
      }
    }
  }

  /** `java.util.BitSet` together with the filter's `m` and `k`: the class `BloomFilter`. */
  class BloomFilter {
    const m: Width
    const k: int32
    var bits: set<int>

    /** The filter's state as a value. */
    function Value(): Filter
      reads this
    {
      Filter(m, k, bits)
    }

    /** `new BloomFilter(m, k)`: no bit set. */
    constructor (m: Width, k: int32)
      ensures Value() == Filter(m, k, {})
    {
      this.m := m;
      this.k := k;
      this.bits := {};
    }

    /** `hash(data, seed)`: the fold over the bytes, then the index in `[0, m)`. */
    method Hash(data: seq<uint8>, seed: int32) returns (idx: int)
      ensures idx == Index(data, seed, m)
      ensures 0 <= idx < m
    {
      var h: int32 := seed;
      for i := 0 to |data|
        invariant HashFold(data, seed) == HashFold(data[i..], h)
      {
        assert data[i..][1..] == data[i + 1..];
        h := Wrap32(h * 31 + SignedByte(data[i]));
      }
      idx := ClearSignBit(h) % m;
    }

    /** `add(s)`: set the bit of each of the `k` probes. */
    method Add(data: seq<uint8>)
      modifies this
      ensures Value() == Added(old(Value()), data)
    {
      var i := 0;
      while i < k
        invariant 0 <= i <= k || i == 0
        invariant bits == old(bits) + ProbeSet(data, m, i)
      {
        var idx := Hash(data, Seed(i));
        bits := bits + {idx};
        i := i + 1;
      }
      assert i == k || (k < 0 && i == 0);
      assert ProbeSet(data, m, i) == ProbeSet(data, m, k);
    }

    /** `mightContain(s)`: false at the first probe whose bit is clear; reads the bits only. */
    method MightContain(data: seq<uint8>) returns (r: bool)
      ensures r == Admits(Value(), data)
    {
      var i := 0;
      while i < k
        invariant 0 <= i <= k || i == 0
        invariant ProbeSet(data, m, i) <= bits
      {
        var idx := Hash(data, Seed(i));
        if idx !in bits {
          ProbeSetHas(data, m, k, i);
          return false;
        }
        i := i + 1;
      }
      assert i == k || (k < 0 && i == 0);
      assert ProbeSet(data, m, i) == ProbeSet(data, m, k);
      r := true;
    }
  }
}
