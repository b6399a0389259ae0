/**
 * The fixed-capacity open-addressing hash table of the foundation library,
 * modelled sequentially. A table is a sequence of (key, value) slots; the
 * capacity is the number of slots. A key is hashed with the MurmurHash3
 * finaliser of the table's width, probing starts at `hash % capacity` and
 * moves one slot forward at a time, wrapping at the end. Key 0 marks an
 * empty slot; value 0 marks an erased or absent entry. Erasing a key only
 * zeroes its value, so the key stays behind as a tombstone and a slot's key,
 * once written, changes again only when the whole table is cleared.
 *
 * The 32-bit and the 64-bit tables are the same code over different word
 * widths, so one model covers both: `Table.width` selects the hash.
 */
module HashTable {
  import opened Options
  import opened MurmurHash

  datatype Slot = Slot(key: nat, value: nat)

  /** The all-zero slot of a freshly initialised or cleared table. */
  const EmptySlot: Slot := Slot(0, 0)

  datatype Table = Table(width: Width, slots: seq<Slot>)

  /** Number of slots, fixed when the table is initialised. */
  function Capacity(t: Table): nat
  {
    |t.slots|
  }

  /** Every slot of `t` is the all-zero slot. */
  predicate AllEmpty(t: Table)
  {
    forall i :: 0 <= i < |t.slots| ==> t.slots[i] == EmptySlot
  }

  // ---------------------------------------------------------------------
  // Probe geometry
  // ---------------------------------------------------------------------

  /** The slot visited `n` steps after `start` when probing forward with wrap-around. */
  function Pos(start: nat, n: nat, cap: nat): (ie: nat)
    requires start < cap && n < cap
    ensures ie < cap
  {
    if start + n < cap then start + n else start + n - cap
  }

  /** Number of forward steps from `start` to slot `i`. */
  function Dist(start: nat, i: nat, cap: nat): (n: nat)
    requires start < cap && i < cap
    ensures n < cap && Pos(start, n, cap) == i
  {
    if start <= i then i - start else i + cap - start
  }

  /** Each step of `Pos` is the source's `ie = (ie + 1) % capacity`. */
  lemma PosStep(start: nat, n: nat, cap: nat)
    requires start < cap && n + 1 < cap
    ensures Pos(start, n + 1, cap) == (Pos(start, n, cap) + 1) % cap
  {
    var ie := Pos(start, n, cap);
    if ie + 1 == cap {
      assert (ie + 1) % cap == 0;
    } else {
      assert (ie + 1) % cap == ie + 1;
    }
  }

  /**
   * Within one lap the probe visits distinct slots, and it returns to its
   * start (the source's `ie == eend` exit) only after `cap` steps.
   */
  lemma PosInjective(start: nat, a: nat, b: nat, cap: nat)
    requires start < cap && a < cap && b < cap
    requires Pos(start, a, cap) == Pos(start, b, cap)
    ensures a == b
  {
  }

  /** The home slot of `key`: where every probe for it begins. */
  function Start(t: Table, key: nat): (ie: nat)
    requires |t.slots| > 0 && IsWord(t.width, key)
    ensures ie < |t.slots|
  {
    Hash(t.width, key) % |t.slots|
  }

  /** A probe for `key` stops at slot `ie`: the slot holds `key`, or is empty. */
  predicate StopsAt(s: seq<Slot>, key: nat, ie: nat)
    requires ie < |s|
  {
    s[ie].key == key || s[ie].key == 0
  }

  /**
   * The shared probe loop of get, set and erase: the first step `m >= n`
   * from `start` whose slot holds `key` or is empty, or `|s|` once the probe
   * has wrapped all the way round.
   */
  function Probe(s: seq<Slot>, key: nat, start: nat, n: nat): (m: nat)
    requires start < |s| && n <= |s|
    ensures n <= m <= |s|
    ensures m < |s| ==> StopsAt(s, key, Pos(start, m, |s|))
    ensures forall j :: n <= j < m ==> !StopsAt(s, key, Pos(start, j, |s|))
    decreases |s| - n
  {
    if n == |s| then n
    else if StopsAt(s, key, Pos(start, n, |s|)) then n
    else Probe(s, key, start, n + 1)
  }

  /** The step at which the probe for `key` from its home slot stops. */
  function Search(t: Table, key: nat): (m: nat)
    requires |t.slots| > 0 && IsWord(t.width, key)
    ensures m <= |t.slots|
  {
    Probe(t.slots, key, Start(t, key), 0)
  }

  /** The probe depends only on the keys of the slots, never on their values. */
  lemma ProbeKeysOnly(s: seq<Slot>, s': seq<Slot>, key: nat, start: nat)
    requires start < |s| && |s'| == |s|
    requires forall i :: 0 <= i < |s| ==> s'[i].key == s[i].key
    ensures Probe(s', key, start, 0) == Probe(s, key, start, 0)
  {
  }

  /** If any slot would stop the probe, the probe stops before wrapping round. */
  lemma ProbeFindsStop(s: seq<Slot>, key: nat, start: nat, i: nat)
    requires start < |s| && i < |s| && StopsAt(s, key, i)
    ensures Probe(s, key, start, 0) < |s|
  {
    var d := Dist(start, i, |s|);
    assert StopsAt(s, key, Pos(start, d, |s|));
  }

  // ---------------------------------------------------------------------
  // Operations
  // ---------------------------------------------------------------------

  /** `hashtable_initialize`: `buckets` slots, every key and value zero. */
  function Initialize(w: Width, buckets: nat): (t: Table)
    ensures t.width == w && Capacity(t) == buckets
    ensures AllEmpty(t)
  {
    Table(w, seq(buckets, _ => EmptySlot))
  }

  /**
   * `hashtable_get`: the value under `key`, or 0 when the probe meets an
   * empty slot or wraps round without meeting the key.
   */
  function Get(t: Table, key: nat): (v: nat)
    requires |t.slots| > 0 && key != 0 && IsWord(t.width, key)
    ensures v != 0 ==> exists i :: 0 <= i < |t.slots| && t.slots[i] == Slot(key, v)
  {
    var m := Search(t, key);
    if m == |t.slots| then 0
    else
      var ie := Pos(Start(t, key), m, |t.slots|);
      if t.slots[ie].key == key then t.slots[ie].value else 0
  }

  /** There is room for `key`: it is already present, or some slot is empty. */
  predicate CanSet(t: Table, key: nat)
  {
    exists i :: 0 <= i < |t.slots| && StopsAt(t.slots, key, i)
  }

  /** With room for `key`, the probe for it stops before wrapping round. */
  lemma CanSetProbeStops(t: Table, key: nat)
    requires |t.slots| > 0 && IsWord(t.width, key) && CanSet(t, key)
    ensures Search(t, key) < |t.slots|
  {
    var i :| 0 <= i < |t.slots| && StopsAt(t.slots, key, i);
    ProbeFindsStop(t.slots, key, Start(t, key), i);
  }

  /** The slot `Set` writes: where the probe for `key` stops. */
  function SetSlot(t: Table, key: nat): (ie: nat)
    requires |t.slots| > 0 && IsWord(t.width, key) && CanSet(t, key)
    ensures Search(t, key) < |t.slots| && ie == Pos(Start(t, key), Search(t, key), |t.slots|)
    ensures StopsAt(t.slots, key, ie)
  {
    CanSetProbeStops(t, key);
    Pos(Start(t, key), Search(t, key), |t.slots|)
  }

  /**
   * `hashtable_set`: stores `value` in the first slot of the probe that holds
   * `key` or is empty, claiming the empty slot for `key` in the latter case.
   * The source spins forever when neither exists, hence `CanSet`.
   */
  function Set(t: Table, key: nat, value: nat): (r: Table)
    requires |t.slots| > 0 && key != 0 && value != 0 && IsWord(t.width, key)
    requires CanSet(t, key)
    ensures r.width == t.width && |r.slots| == |t.slots|
    ensures exists ie :: 0 <= ie < |t.slots| && StopsAt(t.slots, key, ie)
                         && r.slots == t.slots[ie := Slot(key, value)]
    ensures forall i :: 0 <= i < |t.slots| && t.slots[i].key != 0 ==> r.slots[i].key == t.slots[i].key
  {
    Table(t.width, t.slots[SetSlot(t, key) := Slot(key, value)])
  }

  /**
   * `hashtable_erase`: zeroes the value of the slot holding `key`, if the
   * probe finds one; the key itself stays in place.
   */
  function Erase(t: Table, key: nat): (r: Table)
    requires |t.slots| > 0 && key != 0 && IsWord(t.width, key)
    ensures r.width == t.width && |r.slots| == |t.slots|
    ensures forall i :: 0 <= i < |t.slots| ==> r.slots[i].key == t.slots[i].key
    ensures forall i :: 0 <= i < |t.slots| && r.slots[i] != t.slots[i] ==> r.slots[i] == Slot(key, 0)
  {
    var m := Search(t, key);
    if m == |t.slots| then t
    else
      var ie := Pos(Start(t, key), m, |t.slots|);
      if t.slots[ie].key == key then Table(t.width, t.slots[ie := Slot(key, 0)]) else t
  }

  /** `hashtable_raw`: the value of slot `slot`, or 0 when the slot is empty. */
  function Raw(t: Table, slot: nat): (v: nat)
    requires slot < |t.slots|
    ensures t.slots[slot].key == 0 ==> v == 0
    ensures t.slots[slot].key != 0 ==> v == t.slots[slot].value
  {
    if t.slots[slot].key == 0 then 0 else t.slots[slot].value
  }

  /** A slot counted by `size`: a key with a nonzero value. */
  predicate IsLive(x: Slot)
  {
    x.key != 0 && x.value != 0
  }

  /** Indices of the live slots. */
  function LiveSlots(s: seq<Slot>): set<nat>
  {
    set i | 0 <= i < |s| && IsLive(s[i])
  }

  /** `hashtable_size`: one pass over the slots counting the live ones. */
  method Size(t: Table) returns (count: nat)
    ensures count == |LiveSlots(t.slots)|
    ensures count <= Capacity(t)
  {
    count := 0;
    var ie := 0;
    while ie < |t.slots|
      invariant 0 <= ie <= |t.slots|
      invariant count == |set i | 0 <= i < ie && IsLive(t.slots[i])|
    {
      ghost var before := set i | 0 <= i < ie && IsLive(t.slots[i]);
      if IsLive(t.slots[ie]) {
        assert (set i | 0 <= i < ie + 1 && IsLive(t.slots[i])) == before + {ie};
        count := count + 1;
      } else {
        assert (set i | 0 <= i < ie + 1 && IsLive(t.slots[i])) == before;
      }
      ie := ie + 1;
    }
    assert (set i | 0 <= i < ie && IsLive(t.slots[i])) == LiveSlots(t.slots);
    LiveSlotsBound(t.slots);
  }

  /** There are no more live slots than slots. */
  lemma {:induction false} LiveSlotsBound(s: seq<Slot>)
    ensures |LiveSlots(s)| <= |s|
  {
    if |s| > 0 {
      var p := s[..|s| - 1];
      LiveSlotsBound(p);
      if IsLive(s[|s| - 1]) {
        assert LiveSlots(s) == LiveSlots(p) + {|s| - 1};
      } else {
        assert LiveSlots(s) == LiveSlots(p);
      }
    }
  }

  /** `hashtable_clear`: every slot back to key 0 and value 0, capacity unchanged. */
  function Clear(t: Table): (r: Table)
    ensures r.width == t.width && Capacity(r) == Capacity(t)
    ensures AllEmpty(r)
  {
    Table(t.width, seq(|t.slots|, _ => EmptySlot))
  }

  // ---------------------------------------------------------------------
  // The table invariant and the reference semantics
  // ---------------------------------------------------------------------

  /** No nonzero key occurs in two slots. */
  predicate KeysUnique(s: seq<Slot>)
  {
    forall i, j :: 0 <= i < j < |s| && s[i].key != 0 ==> s[i].key != s[j].key
  }

  /**
   * Slot `i` is reachable by the probe for its key: the key is a word of the
   * table's width and no slot between the key's home slot and `i` is empty.
   */
  predicate Placed(t: Table, i: nat)
    requires i < |t.slots|
  {
    var k := t.slots[i].key;
    k == 0 ||
    (IsWord(t.width, k) &&
     forall n :: 0 <= n < Dist(Start(t, k), i, |t.slots|) ==>
       t.slots[Pos(Start(t, k), n, |t.slots|)].key != 0)
  }

  /** Every stored key fits the table's word width. */
  predicate KeysAreWords(t: Table)
  {
    forall i :: 0 <= i < |t.slots| ==> IsWord(t.width, t.slots[i].key)
  }

  /** The invariant every reachable table keeps. */
  predicate Valid(t: Table)
  {
    && |t.slots| > 0
    && KeysUnique(t.slots)
    && KeysAreWords(t)
    && forall i :: 0 <= i < |t.slots| ==> Placed(t, i)
  }

  /** Linear scan from `from` for the first slot holding `key`. */
  function FindKey(s: seq<Slot>, key: nat, from: nat): (r: Option<nat>)
    requires from <= |s|
    ensures r.Some? ==> from <= r.value < |s| && s[r.value].key == key
    ensures r.None? ==> forall i :: from <= i < |s| ==> s[i].key != key
    decreases |s| - from
  {
    if from == |s| then None
    else if s[from].key == key then Some(from)
    else FindKey(s, key, from + 1)
  }

  /**
   * Reference semantics of the table: the value stored with `key` anywhere
   * in the slots, found by a plain scan with no hashing, or 0.
   */
  function Lookup(s: seq<Slot>, key: nat): nat
  {
    match FindKey(s, key, 0)
    case Some(i) => s[i].value
    case None => 0
  }

  /** With unique keys, the reference lookup reads the one slot holding the key. */
  lemma LookupAt(s: seq<Slot>, key: nat, j: nat)
    requires KeysUnique(s) && key != 0 && j < |s| && s[j].key == key
    ensures Lookup(s, key) == s[j].value
  {
  }

  /** Set of keys held by the slots. */
  function Keys(s: seq<Slot>): set<nat>
  {
    set i | 0 <= i < |s| && s[i].key != 0 :: s[i].key
  }

  // ---------------------------------------------------------------------
  // Properties
  // ---------------------------------------------------------------------

  /**
   * In a valid table the probe for a stored key reaches that key's slot:
   * every slot before it on the probe path is occupied by another key.
   */
  lemma ProbeFindsKey(t: Table, key: nat, j: nat)
    requires Valid(t) && key != 0 && j < |t.slots| && t.slots[j].key == key
    ensures Search(t, key) < |t.slots|
    ensures Pos(Start(t, key), Search(t, key), |t.slots|) == j
  {
    var s := t.slots;
    assert Placed(t, j);
    var st := Start(t, key);
    var d := Dist(st, j, |s|);
    var m := Search(t, key);
    forall n | 0 <= n < d
      ensures !StopsAt(s, key, Pos(st, n, |s|))
    {
      var p := Pos(st, n, |s|);
      if p == j {
        PosInjective(st, n, d, |s|);
      }
      assert s[p].key != 0;
      if p < j {
        assert s[p].key != s[j].key;
      } else if j < p {
        assert s[j].key != s[p].key;
      }
    }
  }

  /** In a valid table, `get` agrees with the reference lookup for every key. */
  lemma GetIsLookup(t: Table, key: nat)
    requires Valid(t) && key != 0 && IsWord(t.width, key)
    ensures Get(t, key) == Lookup(t.slots, key)
  {
    var r := FindKey(t.slots, key, 0);
    if r.Some? {
      ProbeFindsKey(t, key, r.value);
      LookupAt(t.slots, key, r.value);
    }
  }

  /** `get` returns 0 for a key that no slot holds. */
  lemma GetAbsent(t: Table, key: nat)
    requires |t.slots| > 0 && key != 0 && IsWord(t.width, key)
    requires forall i :: 0 <= i < |t.slots| ==> t.slots[i].key != key
    ensures Get(t, key) == 0
  {
  }

  /** A table whose slots are all empty is valid, holds no key and has size 0. */
  lemma EmptyTable(t: Table)
    requires |t.slots| > 0 && AllEmpty(t)
    ensures Valid(t)
    ensures forall key :: key != 0 && IsWord(t.width, key) ==> Get(t, key) == 0
    ensures LiveSlots(t.slots) == {}
  {
    forall key | key != 0 && IsWord(t.width, key)
      ensures Get(t, key) == 0
    {
      GetAbsent(t, key);
    }
  }

  /** `initialize` followed by any probe sees an empty, valid table. */
  lemma InitializeEmpty(w: Width, buckets: nat)
    requires buckets > 0
    ensures Valid(Initialize(w, buckets))
    ensures forall key :: key != 0 && IsWord(w, key) ==> Get(Initialize(w, buckets), key) == 0
    ensures LiveSlots(Initialize(w, buckets).slots) == {}
  {
    EmptyTable(Initialize(w, buckets));
  }

  /** `clear` returns the table to its freshly initialised state. */
  lemma ClearResets(t: Table)
    requires |t.slots| > 0
    ensures Clear(t) == Initialize(t.width, Capacity(t))
    ensures Valid(Clear(t))
    ensures forall key :: key != 0 && IsWord(t.width, key) ==> Get(Clear(t), key) == 0
    ensures LiveSlots(Clear(t).slots) == {}
  {
    EmptyTable(Clear(t));
  }

  /** `get` right after `set` returns the value just stored. */
  lemma GetAfterSet(t: Table, key: nat, value: nat)
    requires |t.slots| > 0 && key != 0 && value != 0 && IsWord(t.width, key)
    requires CanSet(t, key)
    ensures Get(Set(t, key, value), key) == value
  {
    var s, st := t.slots, Start(t, key);
    var m := Search(t, key);
    var ie := SetSlot(t, key);
    var r := Set(t, key, value);
    assert Start(r, key) == st;
    forall j | 0 <= j < m
      ensures !StopsAt(r.slots, key, Pos(st, j, |s|))
    {
      if Pos(st, j, |s|) == ie {
        PosInjective(st, j, m, |s|);
      }
    }
  }

  /** Keys only change from 0 to a key when `set` claims an empty slot. */
  lemma SetKeys(t: Table, key: nat, value: nat)
    requires |t.slots| > 0 && key != 0 && value != 0 && IsWord(t.width, key)
    requires CanSet(t, key)
    ensures Keys(Set(t, key, value).slots) == Keys(t.slots) + {key}
  {
    var s, ie := t.slots, SetSlot(t, key);
    var s' := Set(t, key, value).slots;
    assert s'[ie].key == key;
    forall k | k in Keys(s) + {key}
      ensures k in Keys(s')
    {
      if k != key {
        var i :| 0 <= i < |s| && s[i].key != 0 && s[i].key == k;
        assert s'[i].key == k;
      }
    }
    forall k | k in Keys(s')
      ensures k in Keys(s) + {key}
    {
      var i :| 0 <= i < |s'| && s'[i].key != 0 && s'[i].key == k;
      if i != ie {
        assert s[i].key == k;
      }
    }
  }

  /**
   * `set` on a key already present overwrites the value in that key's own
   * slot and claims no new slot.
   */
  lemma SetExistingKey(t: Table, key: nat, value: nat, j: nat)
    requires Valid(t) && key != 0 && value != 0 && IsWord(t.width, key)
    requires j < |t.slots| && t.slots[j].key == key
    ensures CanSet(t, key)
    ensures Set(t, key, value).slots == t.slots[j := Slot(key, value)]
    ensures Keys(Set(t, key, value).slots) == Keys(t.slots)
  {
    assert StopsAt(t.slots, key, j);
    ProbeFindsKey(t, key, j);
    SetKeys(t, key, value);
    assert key in Keys(t.slots);
  }

  /** Tables with the same keys in the same slots are valid together. */
  lemma SameKeysValid(t: Table, r: Table)
    requires Valid(t)
    requires r.width == t.width && |r.slots| == |t.slots|
    requires forall i :: 0 <= i < |t.slots| ==> r.slots[i].key == t.slots[i].key
    ensures Valid(r)
  {
    forall i | 0 <= i < |r.slots|
      ensures Placed(r, i)
    {
      assert Placed(t, i);
      var k := t.slots[i].key;
      if k != 0 {
        var st := Start(t, k);
        assert Start(r, k) == st;
        forall n | 0 <= n < Dist(st, i, |t.slots|)
          ensures r.slots[Pos(st, n, |t.slots|)].key != 0
        {
          assert t.slots[Pos(st, n, |t.slots|)].key != 0;
        }
      }
    }
  }

  /** `set` preserves the table invariant. */
  lemma SetPreservesValid(t: Table, key: nat, value: nat)
    requires Valid(t) && key != 0 && value != 0 && IsWord(t.width, key)
    requires CanSet(t, key)
    ensures Valid(Set(t, key, value))
  {
    var s, st, m := t.slots, Start(t, key), Search(t, key);
    var ie := SetSlot(t, key);
    var r := Set(t, key, value);
    var s' := r.slots;
    if s[ie].key == key {
      SameKeysValid(t, r);
    } else {
      // The slot was empty, so `key` was held nowhere before.
      forall j | 0 <= j < |s|
        ensures s[j].key != key
      {
        if s[j].key == key {
          ProbeFindsKey(t, key, j);
        }
      }
      assert KeysUnique(s');
      forall i | 0 <= i < |s'|
        ensures Placed(r, i)
      {
        if i == ie {
          assert Start(r, key) == st;
          var d := Dist(st, ie, |s|);
          PosInjective(st, d, m, |s|);
          forall n | 0 <= n < d
            ensures s'[Pos(st, n, |s|)].key != 0
          {
            assert !StopsAt(s, key, Pos(st, n, |s|));
          }
        } else {
          assert Placed(t, i);
          var k := s[i].key;
          if k != 0 {
            var sk := Start(t, k);
            assert Start(r, k) == sk;
            forall n | 0 <= n < Dist(sk, i, |s|)
              ensures s'[Pos(sk, n, |s|)].key != 0
            {
              assert s[Pos(sk, n, |s|)].key != 0;
            }
          }
        }
      }
    }
  }

  /** `set` leaves `get` unchanged for every other key of a valid table. */
  lemma SetLeavesOthers(t: Table, key: nat, value: nat, other: nat)
    requires Valid(t) && key != 0 && value != 0 && IsWord(t.width, key)
    requires CanSet(t, key)
    requires other != 0 && other != key && IsWord(t.width, other)
    ensures Get(Set(t, key, value), other) == Get(t, other)
  {
    var r := Set(t, key, value);
    var ie := SetSlot(t, key);
    SetPreservesValid(t, key, value);
    GetIsLookup(t, other);
    GetIsLookup(r, other);
    var f := FindKey(t.slots, other, 0);
    if f.Some? {
      var j := f.value;
      assert j != ie;
      LookupAt(r.slots, other, j);
    } else {
      assert FindKey(r.slots, other, 0).None?;
    }
  }

  /** `erase` makes `get` return 0 for the erased key. */
  lemma GetAfterErase(t: Table, key: nat)
    requires |t.slots| > 0 && key != 0 && IsWord(t.width, key)
    ensures Get(Erase(t, key), key) == 0
  {
    ProbeKeysOnly(t.slots, Erase(t, key).slots, key, Start(t, key));
  }

  /** `erase` leaves `get` unchanged for every other key. */
  lemma EraseLeavesOthers(t: Table, key: nat, other: nat)
    requires |t.slots| > 0 && key != 0 && IsWord(t.width, key)
    requires other != 0 && other != key && IsWord(t.width, other)
    ensures Get(Erase(t, key), other) == Get(t, other)
  {
    var r := Erase(t, key);
    ProbeKeysOnly(t.slots, r.slots, other, Start(t, other));
    assert Start(r, other) == Start(t, other);
  }

  /** `erase` keeps the key in place, so the table stays valid and holds the same keys. */
  lemma EraseKeepsKeys(t: Table, key: nat)
    requires Valid(t) && key != 0 && IsWord(t.width, key)
    ensures Valid(Erase(t, key))
    ensures Keys(Erase(t, key).slots) == Keys(t.slots)
  {
    var r := Erase(t, key);
    SameKeysValid(t, r);
    forall k | k in Keys(t.slots)
      ensures k in Keys(r.slots)
    {
      var i :| 0 <= i < |t.slots| && t.slots[i].key != 0 && t.slots[i].key == k;
      assert r.slots[i].key == k;
    }
    forall k | k in Keys(r.slots)
      ensures k in Keys(t.slots)
    {
      var i :| 0 <= i < |r.slots| && r.slots[i].key != 0 && r.slots[i].key == k;
      assert t.slots[i].key == k;
    }
  }

  /** Overwriting one slot changes the live count by that slot's liveness. */
  lemma LiveSlotsUpdate(s: seq<Slot>, ie: nat, x: Slot)
    requires ie < |s|
    ensures LiveSlots(s[ie := x]) == if IsLive(x) then LiveSlots(s) + {ie} else LiveSlots(s) - {ie}
  {
  }

  /** `set` adds one to `size` exactly when the key had no nonzero value. */
  lemma SetSize(t: Table, key: nat, value: nat)
    requires |t.slots| > 0 && key != 0 && value != 0 && IsWord(t.width, key)
    requires CanSet(t, key)
    ensures |LiveSlots(Set(t, key, value).slots)| == |LiveSlots(t.slots)| + (if Get(t, key) == 0 then 1 else 0)
  {
    var ie := SetSlot(t, key);
    var before := LiveSlots(t.slots);
    assert Set(t, key, value).slots == t.slots[ie := Slot(key, value)];
    LiveSlotsUpdate(t.slots, ie, Slot(key, value));
    assert Get(t, key) == (if t.slots[ie].key == key then t.slots[ie].value else 0);
    assert ie in before <==> Get(t, key) != 0;
    if ie in before {
      assert before + {ie} == before;
    } else {
      assert |before + {ie}| == |before| + 1;
    }
  }

  /** `erase` takes one from `size` exactly when the key had a nonzero value. */
  lemma EraseSize(t: Table, key: nat)
    requires |t.slots| > 0 && key != 0 && IsWord(t.width, key)
    ensures |LiveSlots(Erase(t, key).slots)| == |LiveSlots(t.slots)| - (if Get(t, key) != 0 then 1 else 0)
  {
    var m := Search(t, key);
    if m < |t.slots| {
      var ie := Pos(Start(t, key), m, |t.slots|);
      if t.slots[ie].key == key {
        LiveSlotsUpdate(t.slots, ie, Slot(key, 0));
      }
    }
  }

  /**
   * `raw` reads a slot directly: nonzero exactly on the slots `size` counts,
   * and in a valid table equal to `get` of the key the slot holds.
   */
  lemma RawIsGet(t: Table, slot: nat)
    requires Valid(t) && slot < |t.slots|
    ensures Raw(t, slot) != 0 <==> slot in LiveSlots(t.slots)
    ensures t.slots[slot].key != 0 ==> Get(t, t.slots[slot].key) == Raw(t, slot)
  {
    var k := t.slots[slot].key;
    if k != 0 {
      assert Placed(t, slot);
      ProbeFindsKey(t, k, slot);
    }
  }
}
