/** The term Bloom filter: built in place (splitsetbuild.go, rust/src/splitset.rs) and probed from
    its stored form (rust/src/splitset.rs). The mixer is a parameter: nothing depends on it. */
module Bloom {
  import opened Bytes

  /** The two base hashes of a key, and the hash count for a number of bits a key (before it is
      clamped). */
  datatype Hashes = Hashes(h1: nat -> nat, h2: nat -> nat, round: nat -> nat)

  const LARGEST: nat := 0xFFFF_FFF8

  function Max(a: nat, b: nat): nat { if a < b then b else a }

  function Min(a: nat, b: nat): nat { if a < b then a else b }

  function BloomK(h: Hashes, bitsPerKey: nat): (k: nat)
    ensures 1 <= k <= 16 && (1 <= h.round(bitsPerKey) <= 16 ==> k == h.round(bitsPerKey))
    ensures (h.round(bitsPerKey) < 1 ==> k == 1) && (h.round(bitsPerKey) > 16 ==> k == 16)
  {
    Min(Max(h.round(bitsPerKey), 1), 16)
  }

  /** The filter's size in bits: the least multiple of eight that gives each key its bits, at least 64,
      and at most what its 32-bit field holds. */
  function Nbits(n: nat, bitsPerKey: nat): (bits: nat)
    ensures 64 <= bits <= 0xFFFF_FFF8 && bits % 8 == 0
    ensures var want := (if n == 0 then 1 else n) * bitsPerKey;
            if want > 0xFFFF_FFF8 then bits == 0xFFFF_FFF8 else want <= bits && (bits > 64 ==> bits < want + 8)
  {
    var want := Max(Max(n, 1) * bitsPerKey, 64);
    var rounded := if want % 8 != 0 then want + (8 - want % 8) else want;
    Min(rounded, LARGEST)
  }

  /** The `i`-th hash of a key, in 64-bit arithmetic. */
  function Hash(h: Hashes, key: nat, i: nat): nat {
    (h.h1(key) + i * h.h2(key)) % TWO_64
  }

  /** The first hash is the first base hash, and each further one adds the second, wrapping around. */
  lemma HashSteps(h: Hashes, key: nat, i: nat)
    requires h.h1(key) < TWO_64
    ensures Hash(h, key, 0) == h.h1(key)
    ensures Hash(h, key, i + 1) == (Hash(h, key, i) + h.h2(key)) % TWO_64
  {
    var a, b := h.h1(key), h.h2(key);
    assert a + (i + 1) * b == (a + i * b) + b;
    WrapsOnce(a + i * b, b);
    hide Hash;
  }

  lemma WrapsOnce(x: nat, y: nat)
    ensures (x + y) % TWO_64 == (x % TWO_64 + y) % TWO_64
  {
    var q, r := x / TWO_64, x % TWO_64;
    assert x + y == (r + y) + TWO_64 * q;
  }

  /** The `i`-th bit a key maps to. */
  function Position(h: Hashes, key: nat, i: nat, nbits: nat): (pos: nat)
    requires nbits > 0
    ensures pos < nbits
  {
    Hash(h, key, i) % nbits
  }

  // ----- bits of a byte -----

  function Bit(b: nat, j: nat): bool {
    if j == 0 then b % 2 == 1 else Bit(b / 2, j - 1)
  }

  function Pow2(n: nat): nat {
    if n == 0 then 1 else 2 * Pow2(n - 1)
  }

  /** `b` with bit `j` set. */
  function WithBit(b: nat, j: nat): nat {
    if j == 0 then (if b % 2 == 1 then b else b + 1) else 2 * WithBit(b / 2, j - 1) + b % 2
  }

  lemma {:induction false} WithBitFits(b: nat, j: nat, n: nat)
    requires b < Pow2(n) && j < n
    ensures WithBit(b, j) < Pow2(n)
    decreases n
  {
    var p := Pow2(n - 1);
    assert Pow2(n) == 2 * p;
    hide Pow2;
    HalfFits(b, p);
    if j > 0 {
      WithBitFits(b / 2, j - 1, n - 1);
    }
  }

  lemma HalfFits(b: nat, p: nat)
    requires b < 2 * p
    ensures b / 2 < p && (b % 2 == 0 ==> b + 1 < 2 * p)
  {
  }

  lemma {:induction false} WithBitSets(b: nat, j: nat, i: nat)
    ensures Bit(WithBit(b, j), i) <==> i == j || Bit(b, i)
    decreases j
  {
    if j > 0 && i > 0 {
      WithBitSets(b / 2, j - 1, i - 1);
      assert WithBit(b, j) / 2 == WithBit(b / 2, j - 1);
    }
    if j == 0 && i > 0 {
      assert WithBit(b, 0) / 2 == b / 2;
    }
  }

  function SetIn(b: byte, j: nat): byte
    requires j < 8
  {
    assert Pow2(8) == 256 by { assert Pow2(4) == 2 * Pow2(3) == 16; assert Pow2(6) == 2 * Pow2(5) == 64; }
    WithBitFits(b, j, 8);
    WithBit(b, j)
  }

  /** Whether bit `pos` of a run of bytes is set. */
  function BitAt(bits: bytes, pos: nat): bool {
    pos / 8 < |bits| && Bit(bits[pos / 8], pos % 8)
  }

  // ----- what a filter answers -----

  /** The stored filter admits the key: each of its bits is set. A filter that is cut short or has
      an impossible header admits everything. */
  function Contains(h: Hashes, bloom: bytes, key: nat): bool {
    if |bloom| < 8 then true
    else
      var k, nbits := Field(bloom, 0, 4), Field(bloom, 4, 4);
      if k == 0 || k > 64 || nbits == 0 then true
      else ProbeFrom(h, bloom[8..], key, k, nbits, 0)
  }

  /** The probes from the `i`-th on: the first bit past the end admits, the first clear bit refuses. */
  function ProbeFrom(h: Hashes, bits: bytes, key: nat, k: nat, nbits: nat, i: nat): bool
    requires nbits > 0
    decreases k - i
  {
    if i >= k then true
    else
      var pos := Position(h, key, i, nbits);
      if pos / 8 >= |bits| then true
      else if !Bit(bits[pos / 8], pos % 8) then false
      else ProbeFrom(h, bits, key, k, nbits, i + 1)
  }

  /** Some inserted key maps to this bit. */
  ghost predicate Marked(h: Hashes, keys: seq<nat>, k: nat, nbits: nat, pos: nat)
    requires nbits > 0
  {
    exists a, i: nat :: 0 <= a < |keys| && i < k && Position(h, keys[a], i, nbits) == pos
  }

  /** The bits set are exactly those some inserted key maps to. */
  ghost predicate MarksAre(h: Hashes, keys: seq<nat>, k: nat, nbits: nat, bits: bytes)
    requires nbits > 0
  {
    |bits| * 8 == nbits && forall pos: nat :: pos < nbits ==> (BitAt(bits, pos) <==> Marked(h, keys, k, nbits, pos))
  }

  lemma {:induction false} ProbesAll(h: Hashes, bits: bytes, key: nat, k: nat, nbits: nat, i: nat)
    requires nbits > 0 && |bits| * 8 == nbits
    ensures ProbeFrom(h, bits, key, k, nbits, i) <==> forall j: nat :: i <= j < k ==>
              BitAt(bits, Position(h, key, j, nbits))
    decreases k - i
  {
    if i < k {
      ProbesAll(h, bits, key, k, nbits, i + 1);
      assert Position(h, key, i, nbits) / 8 < |bits|;
    }
  }

  /** The filter as it is stored. */
  function Stored(k: nat, nbits: nat, bits: bytes): bytes {
    LE(k, 4) + LE(nbits, 4) + bits
  }

  lemma StoredReads(k: nat, nbits: nat, bits: bytes)
    requires k < TWO_32 && nbits < TWO_32
    ensures var b := Stored(k, nbits, bits);
              |b| >= 8 && Field(b, 0, 4) == k && Field(b, 4, 4) == nbits && b[8..] == bits
  {
    PowerLiterals();
    FieldRoundTrip(k, 4);
    FieldRoundTrip(nbits, 4);
    var b := Stored(k, nbits, bits);
    assert b[0..4] == LE(k, 4) && b[4..8] == LE(nbits, 4) && b[8..] == bits;
  }

  /** A key is admitted exactly when each bit it maps to is one some inserted key maps to. */
  lemma AdmitsExactly(h: Hashes, keys: seq<nat>, bitsPerKey: nat, bits: bytes, key: nat)
    requires MarksAre(h, keys, BloomK(h, bitsPerKey), Nbits(|keys|, bitsPerKey), bits)
    ensures var k, nbits := BloomK(h, bitsPerKey), Nbits(|keys|, bitsPerKey);
            Contains(h, Stored(k, nbits, bits), key) <==> forall i: nat :: i < k ==>
              Marked(h, keys, k, nbits, Position(h, key, i, nbits))
  {
    hide BloomK, Nbits, Marked, BitAt, Position, Stored;
    var k, nbits := BloomK(h, bitsPerKey), Nbits(|keys|, bitsPerKey);
    StoredReads(k, nbits, bits);
    ProbesAll(h, bits, key, k, nbits, 0);
    forall i: nat | i < k ensures BitAt(bits, Position(h, key, i, nbits))
      <==> Marked(h, keys, k, nbits, Position(h, key, i, nbits)) {
      PositionWithin(h, key, i, nbits);
    }
  }

  lemma PositionWithin(h: Hashes, key: nat, i: nat, nbits: nat)
    requires nbits > 0
    ensures Position(h, key, i, nbits) < nbits
  {
  }

  /** No false negatives: an inserted key is always admitted, whatever the mixer, and also when
      the size was rounded or clamped. */
  lemma NoFalseNegatives(h: Hashes, keys: seq<nat>, bitsPerKey: nat, bits: bytes, key: nat)
    requires MarksAre(h, keys, BloomK(h, bitsPerKey), Nbits(|keys|, bitsPerKey), bits) && key in keys
    ensures Contains(h, Stored(BloomK(h, bitsPerKey), Nbits(|keys|, bitsPerKey), bits), key)
  {
    hide BloomK, Nbits, Contains, Stored, MarksAre, Position;
    var k, nbits := BloomK(h, bitsPerKey), Nbits(|keys|, bitsPerKey);
    var a :| 0 <= a < |keys| && keys[a] == key;
    AdmitsExactly(h, keys, bitsPerKey, bits, key);
    forall i: nat | i < k ensures Marked(h, keys, k, nbits, Position(h, key, i, nbits)) {
      assert Position(h, keys[a], i, nbits) == Position(h, key, i, nbits);
    }
  }

  /** A filter of no keys admits none. */
  lemma EmptyAdmitsNone(h: Hashes, bitsPerKey: nat, bits: bytes, key: nat)
    requires MarksAre(h, [], BloomK(h, bitsPerKey), Nbits(0, bitsPerKey), bits)
    ensures !Contains(h, Stored(BloomK(h, bitsPerKey), Nbits(0, bitsPerKey), bits), key)
  {
    hide BloomK, Nbits, Contains, Stored, MarksAre, Position;
    AdmitsExactly(h, [], bitsPerKey, bits, key);
    assert !Marked(h, [], BloomK(h, bitsPerKey), Nbits(0, bitsPerKey), Position(h, key, 0, Nbits(0, bitsPerKey)));
  }

  // ----- building -----

  /** The bits set so far, as a set. */
  ghost predicate Holds(bits: bytes, marks: set<nat>) {
    forall pos: nat :: pos < |bits| * 8 ==> (BitAt(bits, pos) <==> pos in marks)
  }

  lemma BitOfUpdated(bits: bytes, at: nat, pos: nat)
    requires at / 8 < |bits| && pos / 8 < |bits|
    ensures BitAt(bits[at / 8 := SetIn(bits[at / 8], at % 8)], pos) <==> pos == at || BitAt(bits, pos)
  {
    WithBitSets(bits[at / 8], at % 8, pos % 8);
    assert pos / 8 == at / 8 && pos % 8 == at % 8 ==> pos == at;
  }

  lemma HoldsNext(bits: bytes, marks: set<nat>, at: nat)
    requires Holds(bits, marks) && at < |bits| * 8
    ensures at / 8 < |bits| && Holds(bits[at / 8 := SetIn(bits[at / 8], at % 8)], marks + {at})
  {
    hide BitAt, SetIn;
    assert at / 8 < |bits|;
    forall pos: nat | pos < |bits| * 8
      ensures BitAt(bits[at / 8 := SetIn(bits[at / 8], at % 8)], pos) <==> pos in marks + {at}
    {
      BitOfUpdated(bits, at, pos);
    }
  }

  /** The positions of the first `a` keys and the first `i` of the next. */
  ghost predicate MarksUpTo(h: Hashes, keys: seq<nat>, k: nat, nbits: nat, a: nat, i: nat, marks: set<nat>)
    requires nbits > 0 && a <= |keys|
  {
    forall pos: nat :: pos in marks
      <==> Marked(h, keys[..a], k, nbits, pos) || (a < |keys| && Marked(h, [keys[a]], i, nbits, pos))
  }

  lemma MarkNext(h: Hashes, keys: seq<nat>, k: nat, nbits: nat, a: nat, i: nat, marks: set<nat>)
    requires nbits > 0 && a < |keys| && MarksUpTo(h, keys, k, nbits, a, i, marks)
    ensures MarksUpTo(h, keys, k, nbits, a, i + 1, marks + {Position(h, keys[a], i, nbits)})
  {
    var at := Position(h, keys[a], i, nbits);
    forall pos: nat ensures Marked(h, [keys[a]], i + 1, nbits, pos)
      <==> Marked(h, [keys[a]], i, nbits, pos) || pos == at {
      assert [keys[a]][0] == keys[a];
    }
  }

  lemma MarkKey(h: Hashes, keys: seq<nat>, k: nat, nbits: nat, a: nat, marks: set<nat>)
    requires nbits > 0 && a < |keys| && MarksUpTo(h, keys, k, nbits, a, k, marks)
    ensures MarksUpTo(h, keys, k, nbits, a + 1, 0, marks)
  {
    forall pos: nat ensures Marked(h, keys[..a + 1], k, nbits, pos)
      <==> Marked(h, keys[..a], k, nbits, pos) || Marked(h, [keys[a]], k, nbits, pos) {
      MarkedSplit(h, keys, k, nbits, a, pos);
    }
  }

  lemma MarkedSplit(h: Hashes, keys: seq<nat>, k: nat, nbits: nat, a: nat, pos: nat)
    requires nbits > 0 && a < |keys|
    ensures Marked(h, keys[..a + 1], k, nbits, pos)
            <==> Marked(h, keys[..a], k, nbits, pos) || Marked(h, [keys[a]], k, nbits, pos)
  {
    hide Position;
    var more, front := keys[..a + 1], keys[..a];
    assert [keys[a]][0] == keys[a] == more[a];
    if Marked(h, more, k, nbits, pos) {
      var b, i: nat :| 0 <= b < |more| && i < k && Position(h, more[b], i, nbits) == pos;
      assert b < a ==> front[b] == more[b];
    }
    if Marked(h, front, k, nbits, pos) {
      var b, i: nat :| 0 <= b < |front| && i < k && Position(h, front[b], i, nbits) == pos;
      assert more[b] == front[b];
    }
  }

  /** Builds the filter: every key sets its `k` bits in place. The stored filter admits a key
      exactly when each bit it maps to is one some inserted key maps to, so it admits every
      inserted key. */
  method BloomBuild(h: Hashes, keys: seq<nat>, bitsPerKey: nat) returns (out: bytes)
    ensures var k, nbits := BloomK(h, bitsPerKey), Nbits(|keys|, bitsPerKey);
            forall key: nat :: Contains(h, out, key) <==> forall i: nat :: i < k ==>
              Marked(h, keys, k, nbits, Position(h, key, i, nbits))
    ensures forall key :: key in keys ==> Contains(h, out, key)
  {
    hide Holds, MarksUpTo, Marked, BitAt, SetIn, BloomK, Nbits, Position, Contains, Stored, MarksAre;
    var k, nbits := BloomK(h, bitsPerKey), Nbits(|keys|, bitsPerKey);
    SizeFacts(h, |keys|, bitsPerKey);
    var buf := new byte[nbits / 8](_ => 0);
    ghost var marks: set<nat> := {};
    NothingMarked(h, keys, k, nbits, buf[..]);
    for a := 0 to |keys|
      invariant Holds(buf[..], marks) && MarksUpTo(h, keys, k, nbits, a, 0, marks)
    {
      for i := 0 to k
        invariant Holds(buf[..], marks) && MarksUpTo(h, keys, k, nbits, a, i, marks)
      {
        var pos := Position(h, keys[a], i, nbits);
        PositionWithin(h, keys[a], i, nbits);
        HoldsNext(buf[..], marks, pos);
        MarkNext(h, keys, k, nbits, a, i, marks);
        ghost var was := buf[..];
        buf[pos / 8] := SetIn(buf[pos / 8], pos % 8);
        assert buf[..] == was[pos / 8 := SetIn(was[pos / 8], pos % 8)];
        marks := marks + {pos};
      }
      MarkKey(h, keys, k, nbits, a, marks);
    }
    ghost var bits := buf[..];
    AllMarked(h, keys, k, nbits, bits, marks);
    out := Stored(k, nbits, buf[..]);
    forall key: nat ensures Contains(h, out, key) <==> forall i: nat :: i < k ==>
      Marked(h, keys, k, nbits, Position(h, key, i, nbits)) {
      AdmitsExactly(h, keys, bitsPerKey, bits, key);
    }
    forall key | key in keys ensures Contains(h, out, key) {
      NoFalseNegatives(h, keys, bitsPerKey, bits, key);
    }
  }

  lemma SizeFacts(h: Hashes, n: nat, bitsPerKey: nat)
    ensures Nbits(n, bitsPerKey) > 0 && Nbits(n, bitsPerKey) / 8 * 8 == Nbits(n, bitsPerKey)
  {
    hide Nbits;
    var v := Nbits(n, bitsPerKey);
    assert 64 <= v && v % 8 == 0 by { NbitsFacts(n, bitsPerKey); }
  }

  lemma NbitsFacts(n: nat, bitsPerKey: nat)
    ensures 64 <= Nbits(n, bitsPerKey) <= LARGEST && Nbits(n, bitsPerKey) % 8 == 0
  {
  }

  lemma NothingMarked(h: Hashes, keys: seq<nat>, k: nat, nbits: nat, bits: bytes)
    requires nbits > 0 && forall i :: 0 <= i < |bits| ==> bits[i] == 0
    ensures Holds(bits, {}) && MarksUpTo(h, keys, k, nbits, 0, 0, {})
  {
    forall j: nat ensures !Bit(0, j) {
      ZeroBit(j);
    }
  }

  lemma {:induction false} ZeroBit(j: nat)
    ensures !Bit(0, j)
  {
    if j > 0 {
      ZeroBit(j - 1);
    }
  }

  lemma AllMarked(h: Hashes, keys: seq<nat>, k: nat, nbits: nat, bits: bytes, marks: set<nat>)
    requires nbits > 0 && |bits| * 8 == nbits && Holds(bits, marks) && MarksUpTo(h, keys, k, nbits, |keys|, 0, marks)
    ensures MarksAre(h, keys, k, nbits, bits)
  {
    hide BitAt, Marked;
    assert keys[..|keys|] == keys;
  }

  /** The reader's probe, from the stored bytes. */
  /** The bit of the `j`-th hash is in the filter and clear. */
  ghost predicate ClearAt(h: Hashes, bits: bytes, key: nat, nbits: nat, j: nat)
    requires nbits > 0
  {
    var pos := Position(h, key, j, nbits);
    pos / 8 < |bits| && !Bit(bits[pos / 8], pos % 8)
  }

  ghost predicate InFilter(h: Hashes, bits: bytes, key: nat, nbits: nat, j: nat)
    requires nbits > 0
  {
    Position(h, key, j, nbits) / 8 < |bits|
  }

  /** The `j`-th probe is the one, from the `i`-th on, that finds a clear bit. */
  ghost predicate FindsClear(h: Hashes, bits: bytes, key: nat, nbits: nat, i: nat, j: nat)
    requires nbits > 0
  {
    i <= j && ClearAt(h, bits, key, nbits, j) && forall l: nat :: i <= l < j ==> InFilter(h, bits, key, nbits, l)
  }

  ghost predicate Refuses(h: Hashes, bits: bytes, key: nat, k: nat, nbits: nat, i: nat)
    requires nbits > 0
  {
    exists j: nat :: j < k && FindsClear(h, bits, key, nbits, i, j)
  }

  lemma RefusesNext(h: Hashes, bits: bytes, key: nat, k: nat, nbits: nat, i: nat)
    requires nbits > 0 && i < k
    ensures Refuses(h, bits, key, k, nbits, i)
            <==> InFilter(h, bits, key, nbits, i) && (ClearAt(h, bits, key, nbits, i)
                                                      || Refuses(h, bits, key, k, nbits, i + 1))
  {
    assert ClearAt(h, bits, key, nbits, i) ==> InFilter(h, bits, key, nbits, i);
    hide ClearAt, InFilter;
    if ClearAt(h, bits, key, nbits, i) {
      assert FindsClear(h, bits, key, nbits, i, i);
    }
    if j: nat :| j < k && FindsClear(h, bits, key, nbits, i, j) {
      if j > i {
        assert FindsClear(h, bits, key, nbits, i + 1, j);
      }
    }
    var next := i + 1;
    if j: nat :| j < k && FindsClear(h, bits, key, nbits, next, j) {
      if InFilter(h, bits, key, nbits, i) {
        assert FindsClear(h, bits, key, nbits, i, j);
      }
    }
  }

  lemma {:induction false} ProbeRefuses(h: Hashes, bits: bytes, key: nat, k: nat, nbits: nat, i: nat)
    requires nbits > 0
    ensures !ProbeFrom(h, bits, key, k, nbits, i) <==> Refuses(h, bits, key, k, nbits, i)
    decreases k - i
  {
    if i < k {
      RefusesNext(h, bits, key, k, nbits, i);
      hide Refuses, Position, Bit;
      ProbeRefuses(h, bits, key, k, nbits, i + 1);
    }
  }

  /** Any bytes at all: a filter refuses a key exactly when its header is possible and, before a probe
      leaves the filter, some probed bit is clear. */
  lemma RefusesExactly(h: Hashes, bloom: bytes, key: nat)
    ensures !Contains(h, bloom, key)
            <==> |bloom| >= 8 && 1 <= Field(bloom, 0, 4) <= 64 && Field(bloom, 4, 4) > 0
                 && Refuses(h, bloom[8..], key, Field(bloom, 0, 4), Field(bloom, 4, 4), 0)
  {
    hide Field, Position, Refuses, ProbeFrom;
    if |bloom| >= 8 && Field(bloom, 4, 4) > 0 {
      ProbeRefuses(h, bloom[8..], key, Field(bloom, 0, 4), Field(bloom, 4, 4), 0);
    }
  }

  method BloomContains(h: Hashes, bloom: bytes, key: nat) returns (found: bool)
    ensures found == Contains(h, bloom, key)
  {
    if |bloom| < 8 {
      return true;
    }
    var k, nbits := Field(bloom, 0, 4), Field(bloom, 4, 4);
    if k == 0 || k > 64 || nbits == 0 {
      return true;
    }
    var bits := bloom[8..];
    for i := 0 to k
      invariant ProbeFrom(h, bits, key, k, nbits, 0) == ProbeFrom(h, bits, key, k, nbits, i)
    {
      var pos := Position(h, key, i, nbits);
      if pos / 8 >= |bits| {
        return true;
      }
      if !Bit(bits[pos / 8], pos % 8) {
        return false;
      }
    }
    found := true;
  }
}
