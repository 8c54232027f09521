/**
 The runtime's string map: open addressing with linear probing, tombstones, and
 doubling at three quarters full.  It refines a finite map for every hash function.
 */
module HashMap {
  import opened CheckedArith
  import opened Sequences
  import opened Wrappers

  /** With fewer entries than this, the load test of `Set` stays within int32. */
  const ENTRY_LIMIT: nat := 0x1800_0000

  /** The largest capacity whose load test stays within int32. */
  const MAX_CAP: nat := 0x2000_0000

  type u32 = h: int | 0 <= h < 0x1_0000_0000

  /** The hash is kept in the slot; a deleted entry leaves a tombstone. */
  datatype Slot = Empty | Occupied(key: string, value: string, hash: u32) | Tombstone

  type Hash = string -> u32

  // ----- the probe sequence -----

  predicate PowerOfTwo(n: nat) {
    n == 1 || (n > 1 && n % 2 == 0 && PowerOfTwo(n / 2))
  }

  /** `hash & (cap - 1)`; capacities are powers of two. */
  function Home(h: u32, cap: nat): nat
    requires cap > 0
    ensures Home(h, cap) < cap
  {
    h % cap
  }

  /** The slot probed in step `i`: the home plus `i`, wrapped around once. */
  function Probe(h: u32, i: nat, cap: nat): (p: nat)
    requires i < cap
    ensures p < cap
  {
    var p := Home(h, cap) + i;
    if p < cap then p else p - cap
  }

  lemma ProbeWraps(h: u32, i: nat, cap: nat)
    requires i < cap
    ensures Probe(h, i, cap) == (h + i) % cap
  {
    WrapOnce(Home(h, cap) + i, cap);
    SameResidue(h, i, cap);
  }

  lemma SameResidue(h: nat, i: nat, cap: nat)
    requires cap > 0
    ensures (h % cap + i) % cap == (h + i) % cap
  {
    var a, x := h / cap, h % cap + i;
    var b := x / cap;
    EuclidUnique(h + i, cap, a + b, x % cap, (h + i) / cap);
    assert cap * (a + b) == cap * a + cap * b;
  }

  lemma WrapOnce(p: nat, cap: nat)
    requires p < 2 * cap
    ensures p % cap == if p < cap then p else p - cap
  {
    var q := p / cap;
    assert p == q * cap + p % cap;
    assert q >= 2 ==> q * cap >= 2 * cap;
    assert q == 1 ==> q * cap == cap;
  }

  /** The step in which a slot is probed. */
  function Distance(h: u32, p: nat, cap: nat): (i: nat)
    requires p < cap
    ensures i < cap && Probe(h, i, cap) == p
    ensures forall j: nat :: j < cap && Probe(h, j, cap) == p ==> j == i
  {
    if p >= Home(h, cap) then p - Home(h, cap) else p + cap - Home(h, cap)
  }

  // ----- the table invariant -----

  /** `at` locates every key: exactly the occupied slots, under their right hashes, and
      with no empty slot on the way from a key's home to its slot. */
  ghost predicate Placed(s: seq<Slot>, at: map<string, nat>, hash: Hash) {
    (forall k :: k in at ==> at[k] < |s| && s[at[k]].Occupied? && s[at[k]].key == k) &&
    (forall p :: 0 <= p < |s| && s[p].Occupied? ==>
       s[p].key in at && at[s[p].key] == p && s[p].hash == hash(s[p].key)) &&
    (forall k, i: nat :: k in at && i < Distance(hash(k), at[k], |s|) ==> !s[Probe(hash(k), i, |s|)].Empty?)
  }

  /** The finite map a table stands for. */
  ghost function Entries(s: seq<Slot>, at: map<string, nat>): map<string, string>
    requires forall k :: k in at ==> at[k] < |s| && s[at[k]].Occupied?
  {
    map k | k in at :: s[at[k]].value
  }

  ghost predicate HasEmpty(s: seq<Slot>) { exists p :: 0 <= p < |s| && s[p].Empty? }

  ghost predicate NoTombstones(s: seq<Slot>) { forall p :: 0 <= p < |s| ==> !s[p].Tombstone? }

  /** The first `n` probes for `h` meet neither an empty slot nor the key. */
  ghost predicate Passed(s: seq<Slot>, h: u32, key: string, n: nat)
    requires n <= |s|
  {
    forall i: nat :: i < n ==>
      var slot := s[Probe(h, i, |s|)]; !slot.Empty? && !(slot.Occupied? && slot.key == key)
  }

  /** The first slot probed for `h` that holds no entry: a tombstone or an empty slot. */
  ghost predicate FirstFree(s: seq<Slot>, h: u32, n: nat)
    requires n < |s|
  {
    !s[Probe(h, n, |s|)].Occupied? && forall i: nat :: i < n ==> s[Probe(h, i, |s|)].Occupied?
  }

  /** The table with a new entry at the first free slot of its probe sequence. */
  ghost predicate Inserted(s: seq<Slot>, s': seq<Slot>, key: string, value: string, h: u32) {
    exists n: nat :: n < |s| && FirstFree(s, h, n) && s' == s[Probe(h, n, |s|) := Occupied(key, value, h)]
  }

  /** The slots that deletions left behind. */
  ghost function Graves(s: seq<Slot>): set<nat> { set p: nat | p < |s| && s[p].Tombstone? }

  lemma FilledGraves(s: seq<Slot>, p: nat, slot: Slot)
    requires p < |s| && slot.Occupied?
    ensures Graves(s[p := slot]) <= Graves(s)
  {
  }

  lemma InsertedGraves(s: seq<Slot>, s': seq<Slot>, key: string, value: string, h: u32)
    requires Inserted(s, s', key, value, h)
    ensures Graves(s') <= Graves(s)
  {
    var n: nat :| n < |s| && s' == s[Probe(h, n, |s|) := Occupied(key, value, h)];
    FilledGraves(s, Probe(h, n, |s|), Occupied(key, value, h));
  }

  /** A probe that reaches an empty slot, or goes all around, proves the key absent. */
  lemma AbsentWhenPassed(s: seq<Slot>, at: map<string, nat>, hash: Hash, key: string, n: nat)
    requires Placed(s, at, hash) && n <= |s| && Passed(s, hash(key), key, n)
    requires n == |s| || s[Probe(hash(key), n, |s|)].Empty?
    ensures key !in at
  {
    if key in at {
      var d := Distance(hash(key), at[key], |s|);
    }
  }

  // ----- what the elementary changes do -----

  /** Filling a free slot that the probe sequence reaches without meeting an empty one. */
  lemma PlaceNew(s: seq<Slot>, at: map<string, nat>, hash: Hash, key: string, value: string, n: nat)
    requires Placed(s, at, hash) && key !in at && n < |s| && Passed(s, hash(key), key, n)
    requires !s[Probe(hash(key), n, |s|)].Occupied?
    ensures var p := Probe(hash(key), n, |s|);
            var s', at' := s[p := Occupied(key, value, hash(key))], at[key := p];
            Placed(s', at', hash) && Entries(s', at') == Entries(s, at)[key := value]
  {
    var p := Probe(hash(key), n, |s|);
    assert Distance(hash(key), p, |s|) == n;
  }

  lemma Overwrite(s: seq<Slot>, at: map<string, nat>, hash: Hash, key: string, value: string)
    requires Placed(s, at, hash) && key in at
    ensures var s' := s[at[key] := Occupied(key, value, hash(key))];
            Placed(s', at, hash) && Entries(s', at) == Entries(s, at)[key := value]
  {
  }

  lemma Bury(s: seq<Slot>, at: map<string, nat>, hash: Hash, key: string)
    requires Placed(s, at, hash) && key in at
    ensures var s', at' := s[at[key] := Tombstone], at - {key};
            Placed(s', at', hash) && Entries(s', at') == Entries(s, at) - {key}
  {
  }

  // ----- counting -----

  lemma RemoveOne(m: map<string, nat>, key: string)
    requires key in m
    ensures |m - {key}| == |m| - 1
  {
    assert m.Keys == (m - {key}).Keys + {key};
  }

  lemma {:induction false} ValuesSize(m: map<string, nat>)
    ensures |m.Values| <= |m|
  {
    if m != map[] {
      var k :| k in m;
      var m' := m - {k};
      ValuesSize(m');
      assert m.Keys == m'.Keys + {k};
      assert m.Values <= m'.Values + {m[k]} by {
        forall v | v in m.Values ensures v in m'.Values + {m[k]} {
          var k' :| k' in m && m[k'] == v;
          if k' != k { assert k' in m' && m'[k'] == v; }
        }
      }
      SubsetSize(m.Values, m'.Values + {m[k]});
    }
  }

  /** A table without tombstones that is not full has an empty slot. */
  lemma RoomLeft(s: seq<Slot>, at: map<string, nat>, hash: Hash)
    requires Placed(s, at, hash) && NoTombstones(s) && |at| < |s|
    ensures HasEmpty(s)
  {
    if !HasEmpty(s) {
      assert Upto(|s|) <= at.Values by {
        forall p | p in Upto(|s|) ensures p in at.Values {
          assert s[p].Occupied? && at[s[p].key] == p;
        }
      }
      SubsetSize(Upto(|s|), at.Values);
      ValuesSize(at);
    }
  }

  /** A table without an empty slot is filled by entries and tombstones. */
  lemma FullTable(s: seq<Slot>, at: map<string, nat>, hash: Hash)
    requires Placed(s, at, hash) && !HasEmpty(s)
    ensures |s| <= |at| + |Graves(s)|
  {
    assert Upto(|s|) <= at.Values + Graves(s) by {
      forall p | p in Upto(|s|) && p !in Graves(s) ensures p in at.Values {
        assert s[p].Occupied? && at[s[p].key] == p;
      }
    }
    SubsetSize(Upto(|s|), at.Values + Graves(s));
    ValuesSize(at);
  }

  /** The first empty slot of a probe sequence exists when the table has an empty slot. */
  lemma EmptyIsProbed(s: seq<Slot>, h: u32)
    requires HasEmpty(s)
    ensures exists i: nat :: i < |s| && s[Probe(h, i, |s|)].Empty?
  {
    var p :| 0 <= p < |s| && s[p].Empty?;
    assert s[Probe(h, Distance(h, p, |s|), |s|)].Empty?;
  }

  // ----- the map object -----

  class OscMap {
    const hash: Hash
    var slots: array<Slot>
    var len: nat
    ghost var at: map<string, nat>

    function Cap(): nat
      reads this
    {
      slots.Length
    }

    ghost predicate Valid()
      reads this, slots
    {
      Cap() >= 16 && PowerOfTwo(Cap()) && Placed(slots[..], at, hash) && len == |at| && 4 * len <= 3 * Cap()
    }

    /** The map this table stands for. */
    ghost function Model(): map<string, string>
      requires Valid()
      reads this, slots
    {
      Entries(slots[..], at)
    }

    /** The load test on entry to `Set`. */
    ghost predicate MustGrow()
      reads this
    {
      len * 4 >= Cap() * 3
    }

    lemma ModelSize()
      requires Valid()
      ensures |Model()| == len
    {
      assert Model().Keys == at.Keys;
    }

    constructor (hash: Hash)
      ensures Valid() && fresh(slots) && this.hash == hash
      ensures Model() == map[] && len == 0 && Cap() == 16 && forall p :: 0 <= p < 16 ==> slots[p].Empty?
    {
      this.hash := hash;
      slots := new Slot[16](_ => Empty);
      len := 0;
      at := map[];
      new;
      assert PowerOfTwo(8);
    }

    /** Rehash every occupied slot into a table of twice the size. */
    method Grow()
      requires Valid()
      modifies this`slots, this`len, this`at
      ensures Valid() && fresh(slots) && Cap() == 2 * old(Cap())
      ensures Model() == old(Model()) && len == old(len) && NoTombstones(slots[..])
      ensures !MustGrow()
    {
      ghost var oldSlots, oldAt := slots[..], at;
      var newSlots := new Slot[slots.Length * 2](_ => Empty);
      var count;
      ghost var newAt;
      count, newAt := Rehash(newSlots);
      MovedAll(oldSlots, oldAt, newSlots[..], newAt, hash);
      Doubled(slots.Length);
      slots, len, at := newSlots, count, newAt;
    }

    method Rehash(newSlots: array<Slot>) returns (count: nat, ghost newAt: map<string, nat>)
      requires Valid() && newSlots != slots && newSlots.Length == 2 * slots.Length
      requires forall p :: 0 <= p < newSlots.Length ==> newSlots[p].Empty?
      modifies newSlots
      ensures Moved(slots[..], at, newSlots[..], newAt, hash, slots.Length) && count == |newAt|
    {
      ghost var s := slots[..];
      newAt := map[];
      count := 0;
      for i := 0 to slots.Length
        invariant slots[..] == s && Moved(s, at, newSlots[..], newAt, hash, i) && count == |newAt|
      {
        ghost var before := newSlots[..];
        if slots[i].Occupied? {
          var slot := slots[i];
          assert slot == s[i];
          MovedIsSmaller(s, at, before, newAt, hash, i);
          var p := Reinsert(newSlots, newAt, slot.key, slot.value, slot.hash);
          MovedStep(s, at, before, newAt, hash, i, p, newSlots[..]);
          newAt := newAt[slot.key := p];
          count := count + 1;
        } else {
          MovedSkip(s, at, before, newAt, hash, i);
        }
      }
    }

    /** Probe for the first empty slot of a table without tombstones and fill it. */
    method Reinsert(table: array<Slot>, ghost tableAt: map<string, nat>, key: string, value: string, h: u32)
      returns (p: nat)
      requires Placed(table[..], tableAt, hash) && NoTombstones(table[..]) && key !in tableAt
      requires |tableAt| < table.Length && h == hash(key)
      modifies table
      ensures p < table.Length && old(table[p]).Empty?
      ensures table[..] == old(table[..])[p := Occupied(key, value, h)]
      ensures Placed(table[..], tableAt[key := p], hash) && NoTombstones(table[..])
    {
      var cap := table.Length;
      ghost var s := table[..];
      RoomLeft(s, tableAt, hash);
      EmptyIsProbed(s, h);
      ghost var last: nat :| last < cap && s[Probe(h, last, cap)].Empty?;
      var i := 0;
      while table[Probe(h, i, cap)] != Empty
        invariant i <= last && Passed(s, h, key, i)
        decreases last - i
      {
        assert s[Probe(h, i, cap)] == table[Probe(h, i, cap)];
        i := i + 1;
      }
      p := Probe(h, i, cap);
      PlaceNew(s, tableAt, hash, key, value, i);
      table[p] := Occupied(key, value, h);
      assert table[..] == s[p := Occupied(key, value, h)];
    }

    /** The slot that holds the key. */
    method FindSlot(key: string) returns (found: Option<nat>)
      requires Valid()
      ensures found.None? <==> key !in at
      ensures found.Some? ==> found.value == at[key]
    {
      var h := hash(key);
      for i := 0 to slots.Length
        invariant Passed(slots[..], h, key, i)
      {
        var si := Probe(h, i, slots.Length);
        assert slots[..][si] == slots[si];
        match slots[si] {
          case Empty =>
            AbsentWhenPassed(slots[..], at, hash, key, i);
            return None;
          case Occupied(k, _, kh) =>
            if kh == h && k == key { return Some(si); }
          case Tombstone =>
        }
      }
      AbsentWhenPassed(slots[..], at, hash, key, slots.Length);
      return None;
    }

    /** Panics, returning `None`, exactly on a missing key. */
    method Get(key: string) returns (value: Option<string>)
      requires Valid()
      ensures value == if key in Model() then Some(Model()[key]) else None
    {
      var found := FindSlot(key);
      if found.None? { return None; }
      assert slots[..][found.value] == slots[found.value];
      return Some(slots[found.value].value);
    }

    method Has(key: string) returns (present: bool)
      requires Valid()
      ensures present <==> key in Model()
    {
      var found := FindSlot(key);
      return found.Some?;
    }

    method Len() returns (n: nat)
      requires Valid()
      ensures n == |Model()|
    {
      ModelSize();
      return len;
    }

    method Delete(key: string)
      requires Valid()
      modifies this`len, this`at, slots
      ensures Valid() && Model() == old(Model()) - {key}
      ensures slots[..] == old(if key in at then slots[..][at[key] := Tombstone] else slots[..])
    {
      var found := FindSlot(key);
      if found.Some? {
        ghost var s, at' := slots[..][found.value := Tombstone], at - {key};
        assert Placed(s, at', hash) && Entries(s, at') == Model() - {key} && |at'| == len - 1 by {
          Bury(slots[..], at, hash, key);
          RemoveOne(at, key);
        }
        slots[found.value] := Tombstone;
        assert slots[..] == s;
        len := len - 1;
        at := at';
      }
    }

    /** Stores the value, or panics with `ok == false`: exactly when the table does not
        grow, has no empty slot, and does not hold the key - even if tombstones are free. */
    method Set(key: string, value: string) returns (ok: bool)
      requires Valid() && Cap() * 3 <= INT32_MAX as int
      modifies this, slots
      ensures Valid() && (slots == old(slots) || fresh(slots))
      ensures !ok <==> old(!MustGrow() && !HasEmpty(slots[..]) && key !in Model())
      ensures Model() == if ok then old(Model())[key := value] else old(Model())
      ensures Cap() == if old(4 * len >= 3 * Cap()) then 2 * old(Cap()) else old(Cap())
      ensures ok && !old(MustGrow()) && key !in old(Model()) ==>
                slots == old(slots) && Inserted(old(slots[..]), slots[..], key, value, hash(key))
      ensures old(NoTombstones(slots[..])) ==> ok && NoTombstones(slots[..])
      ensures Graves(slots[..]) <= old(Graves(slots[..])) && (!ok ==> slots[..] == old(slots[..]))
    {
      if len * 4 >= Cap() * 3 { Grow(); }
      if NoTombstones(slots[..]) { RoomLeft(slots[..], at, hash); }
      ghost var s, present := slots[..], key in at;
      ghost var p := if present then at[key] else 0;
      ok := Store(key, value);
      if present {
        FilledGraves(s, p, slots[..][p]);
      } else if ok {
        InsertedGraves(s, slots[..], key, value, hash(key));
      }
    }

    /** One round of probing: update in place, or fill the first tombstone or the empty
        slot that ends the probe. */
    method Store(key: string, value: string) returns (ok: bool)
      requires Valid() && !MustGrow()
      modifies this`len, this`at, slots
      ensures Valid()
      ensures !ok <==> old(!HasEmpty(slots[..]) && key !in Model())
      ensures Model() == if ok then old(Model())[key := value] else old(Model())
      ensures ok && key !in old(Model()) ==> Inserted(old(slots[..]), slots[..], key, value, hash(key))
      ensures key in old(Model()) ==> slots[..] == old(slots[..])[old(at[key]) := Occupied(key, value, hash(key))]
      ensures !ok ==> slots[..] == old(slots[..])
    {
      var h := hash(key);
      var tomb: Option<nat> := None;
      ghost var s := slots[..];
      for i := 0 to slots.Length
        invariant slots[..] == s && Valid() && at == old(at) && len == old(len)
        invariant Passed(s, h, key, i)
        invariant tomb.Some? ==> tomb.value < i && s[Probe(h, tomb.value, |s|)].Tombstone?
        invariant forall j: nat :: j < (if tomb.Some? then tomb.value else i) ==> s[Probe(h, j, |s|)].Occupied?
      {
        var si := Probe(h, i, slots.Length);
        assert s[si] == slots[si];
        match slots[si]
        case Empty =>
          AbsentWhenPassed(s, at, hash, key, i);
          var n := if tomb.Some? then tomb.value else i;
          assert HasEmpty(s) && FirstFree(s, h, n);
          Insert(key, value, h, n);
          return true;
        case Tombstone =>
          if tomb.None? { tomb := Some(i); }
        case Occupied(k, _, kh) =>
          if kh == h && k == key {
            Replace(si, key, value);
            return true;
          }
      }
      AbsentWhenPassed(s, at, hash, key, slots.Length);
      if HasEmpty(s) { EmptyIsProbed(s, h); }
      return false;
    }

    /** Overwrite the value in the key's slot. */
    method Replace(p: nat, key: string, value: string)
      requires Valid() && key in at && p == at[key]
      modifies slots
      ensures Valid() && Model() == old(Model())[key := value]
      ensures slots[..] == old(slots[..])[p := Occupied(key, value, hash(key))]
    {
      ghost var s' := slots[..][p := Occupied(key, value, hash(key))];
      assert Placed(s', at, hash) && Entries(s', at) == Model()[key := value] by {
        Overwrite(slots[..], at, hash, key, value);
      }
      assert slots[..][p] == slots[p];
      slots[p] := slots[p].(value := value);
      assert slots[..] == s';
    }

    /** Fill the free slot probed in step `n`. */
    method Insert(key: string, value: string, h: u32, n: nat)
      requires Valid() && !MustGrow() && key !in at && h == hash(key)
      requires n < slots.Length && Passed(slots[..], h, key, n) && !slots[Probe(h, n, slots.Length)].Occupied?
      modifies this`len, this`at, slots
      ensures Valid() && Model() == old(Model())[key := value]
      ensures slots[..] == old(slots[..])[Probe(h, n, slots.Length) := Occupied(key, value, h)]
    {
      ghost var s := slots[..];
      var p := Probe(h, n, slots.Length);
      ghost var s', at' := s[p := Occupied(key, value, h)], at[key := p];
      assert Placed(s', at', hash) && Entries(s', at') == Model()[key := value] by {
        PlaceNew(s, at, hash, key, value, n);
      }
      slots[p] := Occupied(key, value, h);
      assert slots[..] == s';
      len := len + 1;
      at := at';
      QuarterFree(len - 1, slots.Length);
    }
  }

  /** One more entry keeps the load at or below three quarters. */
  lemma QuarterFree(len: nat, cap: nat)
    requires 4 * len < 3 * cap && PowerOfTwo(cap) && cap >= 16
    ensures 4 * (len + 1) <= 3 * cap
  {
    var half := cap / 2;
    assert PowerOfTwo(half);
    var quarter := half / 2;
    assert cap == 2 * half && half == 2 * quarter;
  }

  // ----- growth -----

  lemma Doubled(cap: nat)
    requires PowerOfTwo(cap)
    ensures PowerOfTwo(2 * cap)
  {
    assert 2 * cap / 2 == cap;
  }

  /** The occupied slots below `i` have been moved to the new table, and nothing else. */
  ghost predicate Moved(s: seq<Slot>, at: map<string, nat>, s': seq<Slot>, at': map<string, nat>, hash: Hash, i: nat)
  {
    Placed(s, at, hash) && Placed(s', at', hash) && NoTombstones(s') &&
    (forall k :: k in at' <==> k in at && at[k] < i) &&
    forall k :: k in at' ==> s'[at'[k]].value == s[at[k]].value
  }

  lemma MovedStep(s: seq<Slot>, at: map<string, nat>, s': seq<Slot>, at': map<string, nat>, hash: Hash,
                  i: nat, p: nat, s'': seq<Slot>)
    requires Moved(s, at, s', at', hash, i) && i < |s| && s[i].Occupied? && p < |s'|
    requires s'' == s'[p := s[i]] && !s'[p].Occupied?
    requires Placed(s'', at'[s[i].key := p], hash) && NoTombstones(s'')
    ensures Moved(s, at, s'', at'[s[i].key := p], hash, i + 1)
  {
  }

  lemma MovedSkip(s: seq<Slot>, at: map<string, nat>, s': seq<Slot>, at': map<string, nat>, hash: Hash, i: nat)
    requires Moved(s, at, s', at', hash, i) && i < |s| && !s[i].Occupied?
    ensures Moved(s, at, s', at', hash, i + 1)
  {
  }

  lemma MovedIsSmaller(s: seq<Slot>, at: map<string, nat>, s': seq<Slot>, at': map<string, nat>, hash: Hash, i: nat)
    requires Moved(s, at, s', at', hash, i)
    ensures |at'| <= |at|
  {
    assert at'.Keys <= at.Keys;
    assert at.Keys == at'.Keys + (at.Keys - at'.Keys);
  }

  lemma MovedAll(s: seq<Slot>, at: map<string, nat>, s': seq<Slot>, at': map<string, nat>, hash: Hash)
    requires Moved(s, at, s', at', hash, |s|)
    ensures Entries(s', at') == Entries(s, at) && |at'| == |at|
  {
    assert at'.Keys == at.Keys;
  }

  // ----- whole runs -----

  datatype Op = SetOp(key: string, value: string) | DeleteOp(key: string)

  /** What a sequence of operations does to a finite map. */
  function Effect(ops: seq<Op>): map<string, string> {
    if ops == [] then map[] else ApplyOp(Effect(ops[..|ops| - 1]), ops[|ops| - 1])
  }

  function ApplyOp(m: map<string, string>, op: Op): map<string, string> {
    match op
    case SetOp(k, v) => m[k := v]
    case DeleteOp(k) => m - {k}
  }

  function Deletions(ops: seq<Op>): nat {
    if ops == [] then 0
    else Deletions(ops[..|ops| - 1]) + if ops[|ops| - 1].DeleteOp? then 1 else 0
  }

  lemma {:induction false} DeletionsGrow(ops: seq<Op>, n: nat)
    requires n <= |ops|
    ensures Deletions(ops[..n]) <= Deletions(ops)
  {
    if n < |ops| {
      DeletionsGrow(ops[..|ops| - 1], n);
      assert ops[..|ops| - 1][..n] == ops[..n];
    } else {
      assert ops[..n] == ops;
    }
  }

  /** No set comes after a set on so many entries that it grows the table beyond the range
      of the load test. */
  ghost predicate LoadTestFits(ops: seq<Op>) {
    forall i, j :: 0 <= i < j < |ops| && ops[i].SetOp? && ops[j].SetOp? ==> |Effect(ops[..i])| < ENTRY_LIMIT
  }

  /** Entries and tombstones fill a table that need not grow. */
  ghost predicate Full(m: OscMap)
    reads m, m.slots
  {
    16 <= m.Cap() <= m.len + |Graves(m.slots[..])| && !m.MustGrow()
  }

  method Perform(m: OscMap, op: Op) returns (ok: bool)
    requires m.Valid() && (op.SetOp? ==> m.Cap() <= MAX_CAP)
    modifies m, m.slots
    ensures m.Valid() && (m.slots == old(m.slots) || fresh(m.slots))
    ensures m.Cap() == old(m.Cap()) || (ok && op.SetOp? && (old(m.len) < ENTRY_LIMIT ==> m.Cap() <= MAX_CAP))
    ensures !ok ==> op.SetOp? && op.key !in old(m.Model()) && m.Model() == old(m.Model()) && Full(m)
    ensures ok ==> m.Model() == ApplyOp(old(m.Model()), op)
    ensures |Graves(m.slots[..])| <= |old(Graves(m.slots[..]))| + if op.DeleteOp? then 1 else 0
  {
    ghost var graves := Graves(m.slots[..]);
    match op
    case SetOp(k, v) =>
      GrowthInRange(m.Cap());
      m.ModelSize();
      ok := m.Set(k, v);
      m.ModelSize();
      SubsetSize(Graves(m.slots[..]), graves);
      if !ok { FullTable(m.slots[..], m.at, m.hash); }
    case DeleteOp(k) =>
      ghost var more := if k in m.at then graves + {m.at[k]} else graves;
      m.Delete(k);
      SubsetSize(Graves(m.slots[..]), more);
      ok := true;
  }

  lemma {:induction false} PowersApart(a: nat, b: nat)
    requires PowerOfTwo(a) && PowerOfTwo(b) && a < b
    ensures 2 * a <= b
  {
    if a > 1 { PowersApart(a / 2, b / 2); }
  }

  lemma {:induction false} PowerProduct(a: nat, b: nat)
    requires PowerOfTwo(a) && PowerOfTwo(b)
    ensures PowerOfTwo(a * b)
  {
    if a > 1 {
      PowerProduct(a / 2, b);
      Doubled(a / 2 * b);
      assert 2 * (a / 2 * b) == a * b;
    }
  }

  /** The table grows only at three quarters, so never beyond the largest capacity. */
  lemma GrowthInRange(cap: nat)
    requires PowerOfTwo(cap)
    ensures 3 * cap < 4 * ENTRY_LIMIT ==> 2 * cap <= MAX_CAP
  {
    if cap < MAX_CAP {
      PowerProduct(0x20, 0x20);
      PowerProduct(0x400, 0x400);
      PowerProduct(0x10_0000, 0x20);
      PowerProduct(0x200_0000, 0x10);
      PowersApart(cap, MAX_CAP);
    }
  }

  /** The map after the first `n` operations of a run. */
  ghost predicate Ran(m: OscMap, ops: seq<Op>, n: nat)
    requires n <= |ops|
    reads m, m.slots
  {
    m.Valid() && m.Model() == Effect(ops[..n]) && |Graves(m.slots[..])| <= Deletions(ops[..n]) &&
    (m.Cap() <= MAX_CAP || NoMoreSets(ops, n))
  }

  ghost predicate NoMoreSets(ops: seq<Op>, n: nat) { forall j :: n <= j < |ops| ==> ops[j].DeleteOp? }

  /** An operation that leaves the table in range, unless no set comes after it. */
  ghost predicate StaysInRange(ops: seq<Op>, n: nat)
    requires n < |ops|
  {
    ops[n].SetOp? ==> |Effect(ops[..n])| < ENTRY_LIMIT || NoMoreSets(ops, n + 1)
  }

  lemma AllStayInRange(ops: seq<Op>, n: nat)
    requires LoadTestFits(ops) && n < |ops|
    ensures StaysInRange(ops, n)
  {
  }

  method Continue(m: OscMap, ops: seq<Op>, n: nat) returns (ok: bool)
    requires n < |ops| && Ran(m, ops, n) && StaysInRange(ops, n)
    modifies m, m.slots
    ensures Ran(m, ops, if ok then n + 1 else n) && (m.slots == old(m.slots) || fresh(m.slots))
    ensures !ok ==> ops[n].SetOp? && ops[n].key !in Effect(ops[..n]) && Full(m)
  {
    m.ModelSize();
    NextPrefix(ops, n);
    ok := Perform(m, ops[n]);
  }

  lemma NextPrefix(ops: seq<Op>, n: nat)
    requires n < |ops|
    ensures Effect(ops[..n + 1]) == ApplyOp(Effect(ops[..n]), ops[n])
    ensures Deletions(ops[..n + 1]) == Deletions(ops[..n]) + if ops[n].DeleteOp? then 1 else 0
  {
    assert ops[..n + 1][..n] == ops[..n];
  }

  /** Run operations on a new map until the end or the first panic.  The table then holds
      the effect of the operations done; a panic takes five deletions, and more than a third
      as many deletions as there are entries. */
  method RunOps(hash: Hash, ops: seq<Op>, probe: string) returns (done: nat, n: nat, value: Option<string>)
    requires LoadTestFits(ops)
    ensures done <= |ops| && n == |Effect(ops[..done])|
    ensures value == if probe in Effect(ops[..done]) then Some(Effect(ops[..done])[probe]) else None
    ensures Deletions(ops) < 5 ==> done == |ops|
    ensures done < |ops| ==> ops[done].SetOp? && ops[done].key !in Effect(ops[..done])
    ensures done < |ops| ==> Deletions(ops[..done]) >= 5 && 3 * Deletions(ops[..done]) > n
  {
    var m := new OscMap(hash);
    done := 0;
    var ok := true;
    while ok && done < |ops|
      invariant done <= |ops| && fresh(m) && fresh(m.slots) && Ran(m, ops, done)
      invariant !ok ==> done < |ops| && ops[done].SetOp? && ops[done].key !in Effect(ops[..done]) && Full(m)
      decreases |ops| - done, ok
    {
      AllStayInRange(ops, done);
      ok := Continue(m, ops, done);
      if ok { done := done + 1; }
    }
    m.ModelSize();
    DeletionsGrow(ops, done);
    n := m.Len();
    value := m.Get(probe);
  }

  // ----- tombstones fill the table -----

  /** Where the probes for the keys start. */
  function Homes(hash: Hash, keys: seq<string>, cap: nat): (homes: seq<nat>)
    requires cap > 0
    ensures |homes| == |keys| && forall i :: 0 <= i < |keys| ==> homes[i] == Home(hash(keys[i]), cap)
  {
    seq(|keys|, i requires 0 <= i < |keys| => Home(hash(keys[i]), cap))
  }

  /** The first `n` of the given slots are used, and no others. */
  ghost predicate UsedAt(s: seq<Slot>, homes: seq<nat>, n: nat)
    requires n <= |homes|
  {
    (forall i :: 0 <= i < n ==> homes[i] < |s| && !s[homes[i]].Empty?) &&
    forall p :: 0 <= p < |s| && p !in homes[..n] ==> s[p].Empty?
  }

  /** Setting the next key fills its home, and burying it there leaves it used. */
  lemma NextUsed(s: seq<Slot>, s': seq<Slot>, homes: seq<nat>, n: nat, key: string, value: string, h: u32)
    requires Distinct(homes) && n < |homes| && UsedAt(s, homes, n)
    requires |s| > 0 && homes[n] == Home(h, |s|) && Inserted(s, s', key, value, h)
    ensures s' == s[homes[n] := Occupied(key, value, h)]
    ensures UsedAt(s', homes, n + 1) && UsedAt(s'[homes[n] := Tombstone], homes, n + 1)
  {
    assert homes[n] !in homes[..n];
    assert Probe(h, 0, |s|) == homes[n];
    assert homes[..n + 1] == homes[..n] + [homes[n]];
  }

  /** As many different homes as slots: all slots are used. */
  lemma NoneEmpty(s: seq<Slot>, homes: seq<nat>)
    requires Distinct(homes) && |homes| == |s| && UsedAt(s, homes, |homes|)
    ensures !HasEmpty(s)
  {
    assert homes[..|homes|] == homes;
    assert Elements(homes) == Upto(|s|) by {
      assert forall p :: p in Elements(homes) ==> p < |s|;
      DistinctSize(homes);
      SubsetSize(Elements(homes), Upto(|s|));
    }
    forall p | 0 <= p < |s| ensures !s[p].Empty? { assert p in Upto(|s|); }
  }

  /** Such keys exist: for one, keys of different lengths when the length is the hash. */
  lemma LengthsApart(keys: seq<string>)
    requires |keys| <= 16 && forall i :: 0 <= i < |keys| ==> |keys[i]| == i
    ensures Distinct(Homes(LengthHash, keys, 16))
  {
    forall i, j | 0 <= i < j < |keys| ensures Home(LengthHash(keys[i]), 16) != Home(LengthHash(keys[j]), 16) {
      assert LengthHash(keys[i]) == i && LengthHash(keys[j]) == j;
    }
  }

  function LengthHash(key: string): u32 { |key| % 0x1_0000_0000 }

  /** Set a key whose home is the next unused slot. */
  method SetNext(m: OscMap, key: string, value: string, ghost homes: seq<nat>, ghost i: nat)
    requires m.Valid() && key !in m.Model() && m.Cap() == 16 && m.len < 12
    requires Distinct(homes) && i < |homes| && homes[i] == Home(m.hash(key), 16) && UsedAt(m.slots[..], homes, i)
    modifies m, m.slots
    ensures m.Valid() && m.slots == old(m.slots) && m.Model() == old(m.Model())[key := value]
    ensures m.len == old(m.len) + 1 && m.slots[..] == old(m.slots[..])[homes[i] := Occupied(key, value, m.hash(key))]
    ensures UsedAt(m.slots[..], homes, i + 1) && UsedAt(m.slots[..][homes[i] := Tombstone], homes, i + 1)
  {
    m.ModelSize();
    ghost var s := m.slots[..];
    assert homes[i] !in homes[..i] && s[homes[i]].Empty?;
    var ok := m.Set(key, value);
    NextUsed(s, m.slots[..], homes, i, key, value, m.hash(key));
    m.ModelSize();
  }

  /** Delete the key just set. */
  method DeleteNext(m: OscMap, key: string, ghost homes: seq<nat>, ghost i: nat)
    requires m.Valid() && m.Model().Keys == {key} && m.Cap() == 16 && i < |homes|
    requires homes[i] < 16 && m.slots[homes[i]].Occupied? && m.slots[homes[i]].key == key
    requires UsedAt(m.slots[..][homes[i] := Tombstone], homes, i + 1)
    modifies m, m.slots
    ensures m.Valid() && m.slots == old(m.slots) && m.Model() == map[] && UsedAt(m.slots[..], homes, i + 1)
  {
    assert m.slots[..][homes[i]] == m.slots[homes[i]] && m.at[key] == homes[i];
    m.Delete(key);
  }

  method BuryFirst(m: OscMap, keys: seq<string>, buried: nat, value: string, ghost homes: seq<nat>)
    requires m.Valid() && m.Model() == map[] && m.Cap() == 16 && UsedAt(m.slots[..], homes, 0)
    requires Distinct(homes) && homes == Homes(m.hash, keys, 16) && buried <= |keys|
    modifies m, m.slots
    ensures m.Valid() && m.slots == old(m.slots) && m.Model() == map[] && UsedAt(m.slots[..], homes, buried)
  {
    for i := 0 to buried
      invariant m.Valid() && m.slots == old(m.slots) && m.Model() == map[] && UsedAt(m.slots[..], homes, i)
    {
      m.ModelSize();
      SetNext(m, keys[i], value, homes, i);
      DeleteNext(m, keys[i], homes, i);
    }
  }

  /** All keys from `from` to `i` are set, and their homes and those before are used. */
  ghost predicate SetSince(m: OscMap, keys: seq<string>, from: nat, i: nat, homes: seq<nat>)
    requires from <= i <= |keys| <= |homes|
    reads m, m.slots
  {
    m.Valid() && m.Cap() == 16 && UsedAt(m.slots[..], homes, i) &&
    m.Model().Keys == Elements(keys[from..i]) && m.len == i - from
  }

  method SetOthers(m: OscMap, keys: seq<string>, buried: nat, value: string, ghost homes: seq<nat>)
    requires m.Valid() && m.Model() == map[] && m.Cap() == 16 && |keys| == 16 && 5 <= buried <= 16
    requires Distinct(homes) && homes == Homes(m.hash, keys, 16) && UsedAt(m.slots[..], homes, buried)
    modifies m, m.slots
    ensures SetSince(m, keys, buried, 16, homes) && m.slots == old(m.slots)
  {
    m.ModelSize();
    for i := buried to 16
      invariant SetSince(m, keys, buried, i, homes) && m.slots == old(m.slots)
    {
      SetOneMore(m, keys, buried, i, value, homes);
    }
  }

  method SetOneMore(m: OscMap, keys: seq<string>, buried: nat, i: nat, value: string, ghost homes: seq<nat>)
    requires |keys| == 16 && 5 <= buried <= i < 16 && Distinct(homes) && homes == Homes(m.hash, keys, 16)
    requires SetSince(m, keys, buried, i, homes)
    modifies m, m.slots
    ensures SetSince(m, keys, buried, i + 1, homes) && m.slots == old(m.slots)
  {
    NewKey(homes, m.hash, keys, buried, i);
    SetNext(m, keys[i], value, homes, i);
  }

  lemma NewKey(homes: seq<nat>, hash: Hash, keys: seq<string>, from: nat, i: nat)
    requires homes == Homes(hash, keys, 16) && Distinct(homes) && from <= i < |keys|
    ensures keys[i] !in keys[from..i] && Elements(keys[from..i + 1]) == Elements(keys[from..i]) + {keys[i]}
  {
    SliceSnoc(keys, from, i);
    forall j | from <= j < i ensures keys[j] != keys[i] { assert homes[j] != homes[i]; }
  }

  lemma AllUsed(m: OscMap, keys: seq<string>, buried: nat, homes: seq<nat>)
    requires |keys| == 16 == |homes| && buried <= 16 && Distinct(homes) && SetSince(m, keys, buried, 16, homes)
    ensures m.Model().Keys == Elements(keys[buried..]) && |m.Model()| == m.len == 16 - buried
    ensures !HasEmpty(m.slots[..])
  {
    NoneEmpty(m.slots[..], homes);
    m.ModelSize();
    assert keys[buried..16] == keys[buried..];
  }

  method FillTable(m: OscMap, keys: seq<string>, buried: nat, value: string)
    requires m.Valid() && m.Model() == map[] && m.Cap() == 16 && forall p :: 0 <= p < 16 ==> m.slots[p].Empty?
    requires |keys| == 16 && Distinct(Homes(m.hash, keys, 16)) && 5 <= buried <= 16
    modifies m, m.slots
    ensures m.Valid() && m.Model().Keys == Elements(keys[buried..]) && |m.Model()| == m.len == 16 - buried
    ensures !HasEmpty(m.slots[..]) && m.Cap() == 16 && m.slots == old(m.slots)
  {
    ghost var homes := Homes(m.hash, keys, 16);
    assert UsedAt(m.slots[..], homes, 0);
    BuryFirst(m, keys, buried, value, homes);
    SetOthers(m, keys, buried, value, homes);
    AllUsed(m, keys, buried, homes);
  }

  /** Whatever the hash: of 16 keys with different homes, set and delete five or more, then
      set the others.  The map has at most eleven entries, and yet it cannot take a new one. */
  method TombstonesFillTable(hash: Hash, keys: seq<string>, buried: nat, key: string, value: string)
    returns (n: nat, ok: bool)
    requires |keys| == 16 && Distinct(Homes(hash, keys, 16)) && 5 <= buried <= 16 && key !in keys[buried..]
    ensures n == 16 - buried && !ok
  {
    var m := new OscMap(hash);
    FillTable(m, keys, buried, value);
    ok := m.Set(key, value);
    n := m.Len();
  }
}
