/** The symbol table of src/hash.hpp: a fixed-capacity, open-addressing,
    linear-probe hash map from identifier text to a value, keyed by the
    32-bit FNV-1a hash of the identifier's bytes.

  The capacity N of `Table<K, V, N>` is the length of `slots`. Slots are
  never freed, so a table only ever gains keys. */
module Hash {
  import opened Results
  import opened Arith

  const FnvPrime: bv32 := 16777619
  const FnvOffsetBasis: bv32 := 2166136261
  const Two32: nat := 0x1_0000_0000

  /** One FNV-1a round: xor the byte into the state, then multiply by the
      prime modulo 2^32. */
  function FnvUpdate(h: bv32, b: bv8): bv32
  {
    (h ^ (b as bv32)) * FnvPrime
  }

  /** FNV-1a, 32 bits: start at the offset basis and apply one round per
      byte, first byte first. */
  function Fnv1a32(bytes: seq<bv8>): bv32
  {
    if |bytes| == 0 then FnvOffsetBasis
    else FnvUpdate(Fnv1a32(bytes[..|bytes| - 1]), bytes[|bytes| - 1])
  }

  /** The bit of weight w in n, placed as mask m. */
  function BitAt(n: int, w: nat, m: bv8): bv8
    requires 0 < w
  {
    if (n / w) % 2 == 1 then m else 0
  }

  /** The low eight bits of a character code: the source hashes the
      characters of a key reinterpreted as unsigned bytes. */
  function Byte(c: char): bv8
  {
    var n := c as int;
    BitAt(n, 1, 0x01) | BitAt(n, 2, 0x02) | BitAt(n, 4, 0x04) | BitAt(n, 8, 0x08) |
    BitAt(n, 16, 0x10) | BitAt(n, 32, 0x20) | BitAt(n, 64, 0x40) | BitAt(n, 128, 0x80)
  }

  /** The bytes of a key. */
  function Bytes(key: string): (b: seq<bv8>)
    ensures |b| == |key|
    ensures forall k :: 0 <= k < |key| ==> b[k] == Byte(key[k])
  {
    seq(|key|, k requires 0 <= k < |key| => Byte(key[k]))
  }

  /** hash(): the FNV-1a state of the key's bytes, as an unsigned 32-bit number. */
  function HashKey(key: string): (h: nat)
    ensures h < Two32
  {
    Fnv1a32(Bytes(key)) as nat
  }

  /** The slot inspected at probe step i. The addition is done in 32 bits, so
      it wraps before the reduction modulo the capacity. */
  function ProbeIndex(h: nat, i: nat, n: nat): (j: nat)
    requires 0 < n
    ensures j < n
  {
    ((h + i) % Two32) % n
  }

  datatype Slot<V> = Free | Alive(key: string, value: V)

  /** `len` is the source's fill counter; the capacity is `|slots|`. */
  datatype Table<V> = Table(slots: seq<Slot<V>>, len: nat)

  /** A zero-initialised table: every slot free, nothing counted. */
  function Empty<V>(n: nat): (t: Table<V>)
    ensures |t.slots| == n && t.len == 0
    ensures forall s :: 0 <= s < n ==> t.slots[s].Free?
  {
    Table(seq(n, _ => Free), 0)
  }

  /** The probe stops at a slot that is free or holds an equal key. */
  predicate Stops<V>(slots: seq<Slot<V>>, key: string, j: nat)
    requires j < |slots|
  {
    slots[j].Free? || slots[j].key == key
  }

  /** The probe loop of find_slot from step i on; yields the step at which it
      stops. */
  function ProbeFrom<V>(slots: seq<Slot<V>>, key: string, h: nat, i: nat): (r: Result<nat>)
    decreases |slots| - i
    ensures r.Success? ==>
              && i <= r.value < |slots|
              && Stops(slots, key, ProbeIndex(h, r.value, |slots|))
              && forall p :: i <= p < r.value ==> !Stops(slots, key, ProbeIndex(h, p, |slots|))
    ensures r.Failure? ==>
              forall p :: i <= p < |slots| ==> !Stops(slots, key, ProbeIndex(h, p, |slots|))
  {
    if |slots| <= i then Failure
    else if Stops(slots, key, ProbeIndex(h, i, |slots|)) then Success(i)
    else ProbeFrom(slots, key, h, i + 1)
  }

  /** find_slot: the first slot along the probe sequence of `key` that is
      free or holds `key`; a failure once N probes found none. */
  function FindSlot<V>(slots: seq<Slot<V>>, key: string): (r: Result<nat>)
    ensures r.Success? ==> r.value < |slots| && Stops(slots, key, r.value)
    ensures r.Failure? <==>
              forall p :: 0 <= p < |slots| ==> !Stops(slots, key, ProbeIndex(HashKey(key), p, |slots|))
  {
    var p :- ProbeFrom(slots, key, HashKey(key), 0);
    Success(ProbeIndex(HashKey(key), p, |slots|))
  }

  /** lookup: the value of the slot the probe stops at, if that slot is alive. */
  function Lookup<V>(t: Table<V>, key: string): (r: Result<Option<V>>)
    ensures r.Success? <==> FindSlot(t.slots, key).Success?
    ensures r.Success? ==>
              (r.value.Some? <==> t.slots[FindSlot(t.slots, key).value].Alive?)
    ensures r.Success? && r.value.Some? ==>
              t.slots[FindSlot(t.slots, key).value] == Alive(key, r.value.value)
  {
    var j :- FindSlot(t.slots, key);
    if t.slots[j].Alive? then Success(Some(t.slots[j].value)) else Success(None)
  }

  /** insert: refuse when the table already counts N entries, then store the
      pair at the probed slot, counting it only if that slot was free. */
  function Insert<V>(t: Table<V>, key: string, value: V): (r: Result<Table<V>>)
    ensures |t.slots| <= t.len ==> r.Failure?
    ensures r.Failure? <==> |t.slots| <= t.len || FindSlot(t.slots, key).Failure?
    ensures r.Success? ==>
              && |r.value.slots| == |t.slots|
              && Lookup(t, key).Success?
              && r.value.len == t.len + (if Lookup(t, key).value.None? then 1 else 0)
  {
    if |t.slots| <= t.len then Failure
    else
      var j :- FindSlot(t.slots, key);
      Success(Table(t.slots[j := Alive(key, value)], if t.slots[j].Free? then t.len + 1 else t.len))
  }

  /** Number of alive slots. */
  function AliveCount<V>(slots: seq<Slot<V>>): (c: nat)
    ensures c <= |slots|
  {
    if |slots| == 0 then 0
    else AliveCount(slots[..|slots| - 1]) + (if slots[|slots| - 1].Alive? then 1 else 0)
  }

  /** The representation invariant kept by every reachable table: `len` counts
      the alive slots, and every alive key is found by its own probe at its own
      slot (nothing is ever deleted, so no probe crosses a hole). */
  ghost predicate Valid<V>(t: Table<V>)
  {
    && t.len == AliveCount(t.slots)
    && forall s :: 0 <= s < |t.slots| && t.slots[s].Alive? ==>
         FindSlot(t.slots, t.slots[s].key) == Success(s)
  }

  // ---------------------------------------------------------------------------
  // FNV-1a

  /** Single FNV-1a rounds on the states met by the vectors below. */
  lemma FooRounds()
    ensures FnvUpdate(FnvOffsetBasis, 0x61) == 0xe40c292c
    ensures FnvUpdate(FnvOffsetBasis, 0x66) == 0xe30c2799
    ensures FnvUpdate(0xe30c2799, 0x6f) == 0x6222e842
    ensures FnvUpdate(0x6222e842, 0x6f) == 0xa9f37ed7
  {
  }

  lemma BarRounds()
    ensures FnvUpdate(0xa9f37ed7, 0x62) == 0x3f5076ef
    ensures FnvUpdate(0x3f5076ef, 0x61) == 0x39aaa18a
    ensures FnvUpdate(0x39aaa18a, 0x72) == 0xbf9cf968
  {
  }

  lemma FoobarBytes()
    ensures Bytes("a") == [0x61]
    ensures Bytes("foobar") == [0x66, 0x6f, 0x6f, 0x62, 0x61, 0x72]
  {
    assert Byte('f') == 0x66 && Byte('o') == 0x6f && Byte('b') == 0x62;
    assert Byte('a') == 0x61 && Byte('r') == 0x72;
  }

  lemma FoobarChain(f: seq<bv8>)
    requires f == [0x66, 0x6f, 0x6f, 0x62, 0x61, 0x72]
    ensures Fnv1a32(f) == 0xbf9cf968
  {
    FooRounds();
    BarRounds();
    assert Fnv1a32(f[..1]) == 0xe30c2799 by { assert f[..1][..0] == []; }
    assert Fnv1a32(f[..2]) == 0x6222e842 by { assert f[..2][..1] == f[..1]; }
    assert Fnv1a32(f[..3]) == 0xa9f37ed7 by { assert f[..3][..2] == f[..2]; }
    assert Fnv1a32(f[..4]) == 0x3f5076ef by { assert f[..4][..3] == f[..3]; }
    assert Fnv1a32(f[..5]) == 0x39aaa18a by { assert f[..5][..4] == f[..4]; }
    assert f[..6] == f;
  }

  /** The offset basis and the published FNV-1a test vectors "a" and "foobar". */
  lemma FnvVectors()
    ensures Fnv1a32([]) == 0x811c9dc5
    ensures HashKey("a") == 0xe40c292c
    ensures HashKey("foobar") == 0xbf9cf968
  {
    FooRounds();
    FoobarBytes();
    assert [0x61 as bv8][..0] == [];
    FoobarChain(Bytes("foobar"));
  }

  // ---------------------------------------------------------------------------
  // Probing

  /** The probe result is determined by its first stopping step. */
  lemma FindSlotIs<V>(slots: seq<Slot<V>>, key: string, p: nat)
    requires p < |slots|
    requires Stops(slots, key, ProbeIndex(HashKey(key), p, |slots|))
    requires forall q :: 0 <= q < p ==> !Stops(slots, key, ProbeIndex(HashKey(key), q, |slots|))
    ensures FindSlot(slots, key) == Success(ProbeIndex(HashKey(key), p, |slots|))
  {
    var r := ProbeFrom(slots, key, HashKey(key), 0);
    assert r.Success? && r.value == p;
  }

  /** Without a wrap, the probe from h reaches every slot s within N steps. */
  lemma ProbeReaches(h: nat, n: nat, s: nat) returns (i: nat)
    requires 0 < n && h + n <= Two32 && s < n
    ensures i < n && ProbeIndex(h, i, n) == s
  {
    var r := h % n;
    var q := h / n;
    assert h == q * n + r;
    if r <= s {
      i := s - r;
      ModOfMultiplePlus(q, n, s);
      assert (h + i) % Two32 == h + i;
    } else {
      i := s - r + n;
      MulStep(q, n);
      ModOfMultiplePlus(q + 1, n, s);
      assert (h + i) % Two32 == h + i;
    }
  }

  /** Without a 32-bit wrap within N steps the probe visits every slot, so
      find_slot fails only on a table whose every slot holds another key. */
  lemma NoWrapFailureMeansFull<V>(slots: seq<Slot<V>>, key: string)
    requires HashKey(key) + |slots| <= Two32
    requires FindSlot(slots, key).Failure?
    ensures forall s :: 0 <= s < |slots| ==> slots[s].Alive? && slots[s].key != key
  {
    forall s | 0 <= s < |slots|
      ensures slots[s].Alive? && slots[s].key != key
    {
      var i := ProbeReaches(HashKey(key), |slots|, s);
      assert !Stops(slots, key, ProbeIndex(HashKey(key), i, |slots|));
    }
  }

  lemma WrappingRounds()
    ensures FnvUpdate(FnvOffsetBasis, 0x71) == 0xf40c425c
    ensures FnvUpdate(0xf40c425c, 0x4f) == 0x424c03e9
    ensures FnvUpdate(0x424c03e9, 0x5a) == 0x10a9d2c9
    ensures FnvUpdate(0x10a9d2c9, 0x4a) == 0xbe566439
    ensures FnvUpdate(0xbe566439, 0x67) == 0xFFFF_FFFA
  {
  }

  lemma WrappingBytes()
    ensures Bytes("qOZJg") == [0x71, 0x4f, 0x5a, 0x4a, 0x67]
  {
    assert Byte('q') == 0x71 && Byte('O') == 0x4f && Byte('Z') == 0x5a;
    assert Byte('J') == 0x4a && Byte('g') == 0x67;
  }

  lemma WrappingChain(q: seq<bv8>)
    requires q == [0x71, 0x4f, 0x5a, 0x4a, 0x67]
    ensures Fnv1a32(q) == 0xFFFF_FFFA
  {
    WrappingRounds();
    assert Fnv1a32(q[..1]) == 0xf40c425c by { assert q[..1][..0] == []; }
    assert Fnv1a32(q[..2]) == 0x424c03e9 by { assert q[..2][..1] == q[..1]; }
    assert Fnv1a32(q[..3]) == 0x10a9d2c9 by { assert q[..3][..2] == q[..2]; }
    assert Fnv1a32(q[..4]) == 0xbe566439 by { assert q[..4][..3] == q[..3]; }
    assert q[..5] == q;
  }

  /** "qOZJg" hashes to 2^32 - 6. */
  lemma WrappingKeyHash()
    ensures HashKey("qOZJg") == 0xFFFF_FFFA
  {
    WrappingBytes();
    WrappingChain(Bytes("qOZJg"));
  }

  /** The 32-bit wrap: "qOZJg" hashes to 2^32 - 6, so in a table of capacity
      131 (the variable table) its probe sequence is 111..116 then 0..124 and
      never reaches slots 125..130; with slots 0..124 taken by other keys,
      find_slot fails although six slots are free. */
  lemma WrappedProbeMissesSlots<V>(slots: seq<Slot<V>>)
    requires |slots| == 131
    requires forall s :: 0 <= s < 125 ==> slots[s].Alive? && slots[s].key != "qOZJg"
    ensures HashKey("qOZJg") == 0xFFFF_FFFA
    ensures forall i :: 0 <= i < 131 ==> ProbeIndex(HashKey("qOZJg"), i, 131) < 125
    ensures FindSlot(slots, "qOZJg").Failure?
  {
    WrappingKeyHash();
    forall i | 0 <= i < 131
      ensures ProbeIndex(HashKey("qOZJg"), i, 131) < 125
    {
      WrappedProbeStep(i);
    }
  }

  /** The probe from 2^32 - 6 over 131 slots: steps 0..5 visit 111..116, and
      after the wrap step i visits i - 6. */
  lemma WrappedProbeStep(i: nat)
    requires i < 131
    ensures ProbeIndex(0xFFFF_FFFA, i, 131) == if i < 6 then 111 + i else i - 6
  {
    if i < 6 {
      assert (0xFFFF_FFFA + i) % Two32 == 0xFFFF_FFFA + i;
      assert 0xFFFF_FFFA + i == 131 * 32786009 + (111 + i);
      ModOfMultiplePlus(32786009, 131, 111 + i);
    } else {
      assert (0xFFFF_FFFA + i) % Two32 == i - 6;
    }
  }

  // ---------------------------------------------------------------------------
  // Counting alive slots

  lemma {:induction false} AliveCountUpdate<V>(slots: seq<Slot<V>>, j: nat, x: Slot<V>)
    requires j < |slots| && x.Alive?
    ensures AliveCount(slots[j := x]) == AliveCount(slots) + (if slots[j].Free? then 1 else 0)
  {
    var n := |slots|;
    var u := slots[j := x];
    if j == n - 1 {
      assert u[..n - 1] == slots[..n - 1];
    } else {
      assert u[..n - 1] == slots[..n - 1][j := x];
      AliveCountUpdate(slots[..n - 1], j, x);
    }
  }

  lemma {:induction false} AllFreeCount<V>(slots: seq<Slot<V>>)
    requires forall s :: 0 <= s < |slots| ==> slots[s].Free?
    ensures AliveCount(slots) == 0
  {
    if |slots| > 0 {
      AllFreeCount(slots[..|slots| - 1]);
    }
  }

  // ---------------------------------------------------------------------------
  // Table properties

  /** A fresh table is valid. */
  lemma EmptyValid<V>(n: nat)
    ensures Valid(Empty<V>(n))
  {
    AllFreeCount(Empty<V>(n).slots);
  }

  /** A valid table's fill counter never exceeds its capacity, and its alive
      keys are pairwise distinct. */
  lemma ValidShape<V>(t: Table<V>)
    requires Valid(t)
    ensures t.len <= |t.slots|
    ensures forall s1, s2 ::
              (0 <= s1 < |t.slots| && 0 <= s2 < |t.slots| && t.slots[s1].Alive? && t.slots[s2].Alive? &&
               t.slots[s1].key == t.slots[s2].key) ==> s1 == s2
  {
  }

  /** In a valid table, lookup finds every stored key with its value, and
      "absent" means no alive slot holds the key. */
  lemma ValidLookup<V>(t: Table<V>, key: string)
    requires Valid(t)
    ensures forall s :: 0 <= s < |t.slots| && t.slots[s].Alive? && t.slots[s].key == key ==>
              Lookup(t, key) == Success(Some(t.slots[s].value))
    ensures Lookup(t, key) == Success(None) ==>
              forall s :: 0 <= s < |t.slots| && t.slots[s].Alive? ==> t.slots[s].key != key
  {
  }

  /** After a successful insert the key is found at the same slot, which now
      holds the new value: lookup returns the inserted value. A repeated
      insert therefore overwrites. */
  lemma InsertThenLookup<V>(t: Table<V>, key: string, value: V)
    requires Insert(t, key, value).Success?
    ensures FindSlot(Insert(t, key, value).value.slots, key) == FindSlot(t.slots, key)
    ensures Lookup(Insert(t, key, value).value, key) == Success(Some(value))
  {
    var t' := Insert(t, key, value).value;
    var n := |t.slots|;
    var h := HashKey(key);
    var p := ProbeFrom(t.slots, key, h, 0).value;
    var j := ProbeIndex(h, p, n);
    assert FindSlot(t.slots, key) == Success(j);
    assert t'.slots == t.slots[j := Alive(key, value)];
    forall q | 0 <= q < p
      ensures !Stops(t'.slots, key, ProbeIndex(h, q, n))
    {
      assert !Stops(t.slots, key, ProbeIndex(h, q, n));
    }
    FindSlotIs(t'.slots, key, p);
  }

  /** Inserting `key` does not move the probe of another key that stops on an
      alive slot. */
  lemma FindSlotAfterInsert<V>(t: Table<V>, key: string, value: V, other: string)
    requires Insert(t, key, value).Success?
    requires other != key
    requires FindSlot(t.slots, other).Success?
    requires t.slots[FindSlot(t.slots, other).value].Alive?
    ensures FindSlot(Insert(t, key, value).value.slots, other) == FindSlot(t.slots, other)
  {
    var t' := Insert(t, key, value).value;
    var n := |t.slots|;
    var j := FindSlot(t.slots, key).value;
    assert t'.slots == t.slots[j := Alive(key, value)];
    var h := HashKey(other);
    var p := ProbeFrom(t.slots, other, h, 0).value;
    var s := ProbeIndex(h, p, n);
    assert FindSlot(t.slots, other) == Success(s);
    assert s != j;
    forall q | 0 <= q < p
      ensures !Stops(t'.slots, other, ProbeIndex(h, q, n))
    {
      assert !Stops(t.slots, other, ProbeIndex(h, q, n));
    }
    FindSlotIs(t'.slots, other, p);
  }

  /** What insert(key) does to the lookup of any other key: a stored value is
      kept, a failing probe keeps failing, and whenever the new lookup succeeds
      it agrees with the old one. An absent key may start to fail: once the
      table is full its probe finds no free slot. */
  lemma InsertFrame<V>(t: Table<V>, key: string, value: V, other: string)
    requires Valid(t)
    requires Insert(t, key, value).Success?
    requires other != key
    ensures Lookup(t, other).Success? && Lookup(t, other).value.Some? ==>
              Lookup(Insert(t, key, value).value, other) == Lookup(t, other)
    ensures Lookup(t, other).Failure? ==> Lookup(Insert(t, key, value).value, other).Failure?
    ensures Lookup(Insert(t, key, value).value, other).Success? ==>
              Lookup(Insert(t, key, value).value, other) == Lookup(t, other)
  {
    if Lookup(t, other).Success? && Lookup(t, other).value.Some? {
      FindSlotAfterInsert(t, key, value, other);
    }
    if Lookup(t, other).Failure? {
      InsertKeepsFailing(t, key, value, other);
    }
    if Lookup(Insert(t, key, value).value, other).Success? {
      InsertAgrees(t, key, value, other);
    }
  }

  /** A probe that found neither the key nor a free slot still finds none:
      insert only turns a slot alive. */
  lemma InsertKeepsFailing<V>(t: Table<V>, key: string, value: V, other: string)
    requires Insert(t, key, value).Success?
    requires FindSlot(t.slots, other).Failure?
    ensures FindSlot(Insert(t, key, value).value.slots, other).Failure?
  {
    var t' := Insert(t, key, value).value;
    var n := |t.slots|;
    var j := FindSlot(t.slots, key).value;
    assert t'.slots == t.slots[j := Alive(key, value)];
    var h := HashKey(other);
    forall p | 0 <= p < n
      ensures !Stops(t'.slots, other, ProbeIndex(h, p, n))
    {
      assert !Stops(t.slots, other, ProbeIndex(h, p, n));
    }
  }

  /** A successful lookup of another key after an insert gives the answer it
      gave before. */
  lemma InsertAgrees<V>(t: Table<V>, key: string, value: V, other: string)
    requires Valid(t)
    requires Insert(t, key, value).Success?
    requires other != key
    requires Lookup(Insert(t, key, value).value, other).Success?
    ensures Lookup(Insert(t, key, value).value, other) == Lookup(t, other)
  {
    var t' := Insert(t, key, value).value;
    var j := FindSlot(t.slots, key).value;
    assert t'.slots == t.slots[j := Alive(key, value)];
    var s' := FindSlot(t'.slots, other).value;
    if t'.slots[s'].Alive? {
      assert s' != j;
      assert t.slots[s'] == t'.slots[s'];
      assert FindSlot(t.slots, other) == Success(s');
    } else {
      if FindSlot(t.slots, other).Failure? {
        InsertKeepsFailing(t, key, value, other);
      } else if Lookup(t, other).value.Some? {
        FindSlotAfterInsert(t, key, value, other);
      }
    }
  }

  /** Insert keeps the representation invariant: the counter moves exactly
      when a free slot is taken, and every alive key is still found at its
      own slot. */
  lemma InsertValid<V>(t: Table<V>, key: string, value: V)
    requires Valid(t)
    requires Insert(t, key, value).Success?
    ensures Valid(Insert(t, key, value).value)
  {
    var t' := Insert(t, key, value).value;
    var j := FindSlot(t.slots, key).value;
    assert t'.slots == t.slots[j := Alive(key, value)];
    AliveCountUpdate(t.slots, j, Alive(key, value));
    InsertThenLookup(t, key, value);
    forall s | 0 <= s < |t'.slots| && t'.slots[s].Alive?
      ensures FindSlot(t'.slots, t'.slots[s].key) == Success(s)
    {
      if s != j {
        var k' := t.slots[s].key;
        assert FindSlot(t.slots, k') == Success(s);
        FindSlotAfterInsert(t, key, value, k');
      }
    }
  }

  /** The fill level may reach the capacity: in a one-slot table the first
      insert succeeds and fills it, after which looking up any other key no
      longer answers "absent" but fails. */
  lemma FullTableLookupFails()
    ensures Lookup(Empty<int>(1), "y") == Success(None)
    ensures Insert(Empty<int>(1), "x", 0).Success?
    ensures Insert(Empty<int>(1), "x", 0).value.len == 1
    ensures Lookup(Insert(Empty<int>(1), "x", 0).value, "y").Failure?
  {
    var t := Empty<int>(1);
    assert ProbeIndex(HashKey("x"), 0, 1) == 0;
    assert ProbeIndex(HashKey("y"), 0, 1) == 0;
    assert FindSlot(t.slots, "y") == Success(0);
    assert FindSlot(t.slots, "x") == Success(0);
    var t' := Insert(t, "x", 0).value;
    assert t'.slots == [Alive("x", 0)];
    assert !Stops(t'.slots, "y", ProbeIndex(HashKey("y"), 0, 1));
  }
}
