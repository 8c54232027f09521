/**
 The typed map from i32 to i32: the string map with decimal keys and values.  It refines
 an integer map, with 0 for a missing key; only a stored INT32_MIN cannot be read back.
 */
module IntMap {
  import opened CheckedArith
  import opened Wrappers
  import Decimal
  import HashMap

  ghost function Text(n: i32): string { Decimal.Dec(n as int) }

  /** The string map holds exactly the printed entries of the integer map. */
  ghost predicate Prints(ints: map<i32, i32>, texts: map<string, string>) {
    (forall n :: n in ints ==> Text(n) in texts && texts[Text(n)] == Text(ints[n])) &&
    forall k :: k in texts ==> exists n :: n in ints && Text(n) == k
  }

  lemma TextInjective(a: i32, b: i32)
    ensures Text(a) == Text(b) <==> a == b
  {
    if Text(a) == Text(b) { Decimal.DecInjective(a as int, b as int); }
  }

  lemma KeyPrinted(ints: map<i32, i32>, texts: map<string, string>, n: i32)
    requires Prints(ints, texts)
    ensures Text(n) in texts <==> n in ints
  {
    if Text(n) in texts {
      var m :| m in ints && Text(m) == Text(n);
      TextInjective(m, n);
    }
  }

  lemma SetPrinted(ints: map<i32, i32>, texts: map<string, string>, n: i32, v: i32)
    requires Prints(ints, texts)
    ensures Prints(ints[n := v], texts[Text(n) := Text(v)])
  {
    var ints', texts' := ints[n := v], texts[Text(n) := Text(v)];
    forall m | m in ints' ensures Text(m) in texts' && texts'[Text(m)] == Text(ints'[m]) {
      TextInjective(m, n);
    }
    forall k | k in texts' ensures exists m :: m in ints' && Text(m) == k {
      if k == Text(n) {
        assert n in ints';
      } else {
        var m :| m in ints && Text(m) == k;
        assert m in ints';
      }
    }
  }

  lemma DeletePrinted(ints: map<i32, i32>, texts: map<string, string>, n: i32)
    requires Prints(ints, texts)
    ensures Prints(ints - {n}, texts - {Text(n)})
  {
    var ints', texts' := ints - {n}, texts - {Text(n)};
    forall m | m in ints' ensures Text(m) in texts' && texts'[Text(m)] == Text(ints'[m]) {
      TextInjective(m, n);
    }
    forall k | k in texts' ensures exists m :: m in ints' && Text(m) == k {
      var m :| m in ints && Text(m) == k;
      assert m in ints';
    }
  }

  ghost function Texts(keys: set<i32>): set<string> { set n | n in keys :: Text(n) }

  lemma {:induction false} TextsSize(keys: set<i32>)
    ensures |Texts(keys)| == |keys|
  {
    if keys != {} {
      var n :| n in keys;
      var rest := keys - {n};
      TextsSize(rest);
      forall m | m in rest ensures Text(m) != Text(n) { TextInjective(m, n); }
      assert Texts(keys) == Texts(rest) + {Text(n)};
    }
  }

  lemma SameSize(ints: map<i32, i32>, texts: map<string, string>)
    requires Prints(ints, texts)
    ensures |ints| == |texts|
  {
    TextsSize(ints.Keys);
    assert texts.Keys == Texts(ints.Keys);
  }

  class I32Map {
    const texts: HashMap.OscMap
    ghost var ints: map<i32, i32>

    ghost predicate Valid()
      reads this, texts, texts.slots
    {
      texts.Valid() && Prints(ints, texts.Model())
    }

    constructor (hash: HashMap.Hash)
      ensures Valid() && fresh(texts) && fresh(texts.slots) && ints == map[]
    {
      texts := new HashMap.OscMap(hash);
      ints := map[];
    }

    method Set(key: i32, value: i32) returns (ok: bool)
      requires Valid() && texts.Cap() * 3 <= INT32_MAX as int
      modifies this, texts, texts.slots
      ensures Valid() && (texts.slots == old(texts.slots) || fresh(texts.slots))
      ensures ints == if ok then old(ints)[key := value] else old(ints)
      ensures !ok <==> old(!texts.MustGrow() && !HashMap.HasEmpty(texts.slots[..]) && key !in ints)
      ensures old(HashMap.NoTombstones(texts.slots[..])) ==> ok && HashMap.NoTombstones(texts.slots[..])
    {
      var k := Print(key);
      var v := Print(value);
      ghost var before, full := texts.Model(), !texts.MustGrow() && !HashMap.HasEmpty(texts.slots[..]);
      KeyPrinted(ints, before, key);
      SetPrinted(ints, before, key, value);
      ints := if full && key !in ints then ints else ints[key := value];
      ok := texts.Set(k, v);
    }

    /** 0 for a missing key; no specified value (`None`) for a stored INT32_MIN, where
        the source reads the number out of an error result. */
    method Get(key: i32) returns (value: Option<i32>)
      requires Valid()
      ensures key !in ints ==> value == Some(0)
      ensures key in ints ==> value == if ints[key] == INT32_MIN then None else Some(ints[key])
    {
      var k := Print(key);
      KeyPrinted(ints, texts.Model(), key);
      var found := texts.FindSlot(k);
      if found.None? { return Some(0); }
      var stored := texts.Get(k);
      Decimal.ParseUndoesDec(ints[key]);
      var parsed := Decimal.ParseI32(stored.value);
      return if parsed.Parsed? then Some(parsed.value) else None;
    }

    method Has(key: i32) returns (present: bool)
      requires Valid()
      ensures present <==> key in ints
    {
      var k := Print(key);
      KeyPrinted(ints, texts.Model(), key);
      present := texts.Has(k);
    }

    method Delete(key: i32)
      requires Valid()
      modifies this, texts, texts.slots
      ensures Valid() && texts.slots == old(texts.slots) && ints == old(ints) - {key}
    {
      var k := Print(key);
      DeletePrinted(ints, texts.Model(), key);
      texts.Delete(k);
      ints := ints - {key};
    }

    method Len() returns (n: nat)
      requires Valid()
      ensures n == |ints|
    {
      SameSize(ints, texts.Model());
      n := texts.Len();
    }
  }

  /** The decimal key or value text of a number. */
  method Print(n: i32) returns (s: string)
    ensures s == Text(n)
  {
    var buf := new char[16];
    Decimal.TextLength(n);
    var written := Decimal.FormatI32Dec(buf, n);
    s := buf[..written];
  }
}
