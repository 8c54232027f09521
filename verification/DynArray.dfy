/**
 The runtime's growable array.  It refines a sequence, also when a value handed in points
 into the array itself and when an array is extended by itself; growing copies fewer than
 two elements per push.
 */
module DynArray {
  import opened CheckedArith
  import opened Sequences
  import opened Wrappers

  const MAX: int := INT32_MAX as int
  const DEFAULT_CAPACITY := 4

  /** A pointer to an element, possibly one of the array it is passed to. */
  datatype Ptr<!T> = Ptr(data: array<T>, index: nat)

  ghost predicate Readable<T>(p: Ptr<T>) { p.index < p.data.Length }

  ghost function Target<T>(p: Ptr<T>): T
    requires Readable(p)
    reads p.data
  {
    p.data[p.index]
  }

  // ----- growth -----

  /** The capacity after doubling until `required` fits, or exactly `required` once
      doubling would leave the int32 range. */
  ghost function Grown(cap: nat, required: nat): (c: nat)
    requires cap > 0
    ensures c >= required && c >= cap
    ensures cap <= MAX && required <= MAX ==> c <= MAX
    ensures required == cap + 1 && 2 * cap <= MAX ==> c == 2 * cap
    decreases required - cap
  {
    if cap >= required then cap else if cap > MAX / 2 then required else Grown(2 * cap, required)
  }

  /** `n` elements copied from `src` to `dst`; the regions do not overlap. */
  method CopyElements<T>(dst: array<T>, at: nat, src: array<T>, from: nat, n: nat)
    requires at + n <= dst.Length && from + n <= src.Length
    requires dst != src || from + n <= at || at + n <= from
    modifies dst
    ensures dst[..at] == old(dst[..at]) && dst[at + n..] == old(dst[at + n..])
    ensures dst[at..at + n] == old(src[from..from + n])
  {
    ghost var before := src[..];
    for k := 0 to n
      invariant dst[..at] == old(dst[..at]) && dst[at + n..] == old(dst[at + n..])
      invariant forall j :: at <= j < at + k ==> dst[j] == before[from + j - at]
      invariant forall j :: from <= j < from + n ==> src[j] == before[j]
    {
      dst[at + k] := src[from + k];
    }
    assert before[from..from + n] == old(src[from..from + n]);
  }

  /** Elements from `index` on move one place up, the last one first. */
  method ShiftUp<T>(d: array<T>, index: nat, len: nat)
    requires index <= len < d.Length
    modifies d
    ensures d[..index] == old(d[..index]) && d[index + 1..len + 1] == old(d[index..len])
  {
    ghost var before := d[..];
    var i := len;
    while i > index
      invariant index <= i <= len
      invariant forall k :: 0 <= k <= i ==> d[k] == before[k]
      invariant forall k :: i < k <= len ==> d[k] == before[k - 1]
    {
      d[i] := d[i - 1];
      i := i - 1;
    }
    assert before[index..len] == old(d[index..len]) && before[..index] == old(d[..index]);
  }

  /** Elements after `index` move one place down, the first one first. */
  method ShiftDown<T>(d: array<T>, index: nat, len: nat)
    requires index < len <= d.Length
    modifies d
    ensures d[..index] == old(d[..index]) && d[index..len - 1] == old(d[index + 1..len])
  {
    ghost var before := d[..];
    var i := index;
    while i + 1 < len
      invariant index <= i < len
      invariant forall k :: 0 <= k < index ==> d[k] == before[k]
      invariant forall k :: index <= k < i ==> d[k] == before[k + 1]
      invariant forall k :: i <= k < len ==> d[k] == before[k]
    {
      d[i] := d[i + 1];
      i := i + 1;
    }
    assert before[index + 1..len] == old(d[index + 1..len]) && before[..index] == old(d[..index]);
  }

  /** Copies of the value, which may itself be among the elements overwritten. */
  method FillWith<T>(d: array<T>, n: nat, value: Ptr<T>)
    requires n <= d.Length && Readable(value)
    modifies d
    ensures forall k :: 0 <= k < n ==> d[k] == old(Target(value))
  {
    for i := 0 to n
      invariant Target(value) == old(Target(value))
      invariant forall k :: 0 <= k < i ==> d[k] == old(Target(value))
    {
      d[i] := value.data[value.index];
    }
  }

  class DynArray<T(0)> {
    /** The largest value of the machine's size type. */
    const sizeMax: nat
    const elemSize: i32
    var data: array<T>
    var len: nat
    /** Elements copied by growing so far. */
    ghost var copied: nat

    ghost predicate Valid()
      reads this
    {
      elemSize > 0 && 0 < data.Length <= MAX && data.Length <= Limit(sizeMax, elemSize) && len <= data.Length
    }

    ghost function Contents(): (c: seq<T>)
      requires Valid()
      reads this, data
    {
      data[..len]
    }

    /** Whether `n` elements can be stored, growing if necessary. */
    ghost predicate Fits(n: nat)
      requires Valid()
      reads this
    {
      n <= MAX && Grown(data.Length, n) <= Limit(sizeMax, elemSize)
    }

    constructor Allocate(sizeMax: nat, elemSize: i32, capacity: nat)
      requires elemSize > 0 && 0 < capacity <= MAX && capacity <= Limit(sizeMax, elemSize)
      ensures Valid() && fresh(data) && data.Length == capacity && Contents() == [] && copied == 0
      ensures this.sizeMax == sizeMax && this.elemSize == elemSize
    {
      this.sizeMax := sizeMax;
      this.elemSize := elemSize;
      data := new T[capacity];
      len := 0;
      copied := 0;
    }

    /** Makes room for `required` elements; the doubling loop ends because the capacity
        is positive, and no doubling overflows. */
    method Reserve(required: nat) returns (ok: bool)
      requires Valid() && required <= MAX
      modifies this`data, this`copied
      ensures ok <==> old(Fits(required))
      ensures Valid() && Contents() == old(Contents())
      ensures ok ==> required <= data.Length == Grown(old(data.Length), required)
      ensures data == old(data) || (fresh(data) && ok)
      ensures copied == old(copied) + if data == old(data) then 0 else len
      ensures ok && required <= old(data.Length) ==> data == old(data)
    {
      if required <= data.Length { return true; }
      var need := required as i32;
      var newCap := data.Length as i32;
      while newCap < need
        invariant 0 < newCap && Grown(newCap as int, required) == Grown(data.Length, required)
        decreases need as int - newCap as int
      {
        if newCap > INT32_MAX / 2 {
          newCap := need;
          break;
        }
        newCap := newCap * 2;
      }
      if newCap as int > Limit(sizeMax, elemSize) { return false; }
      var newData := new T[newCap as int];
      CopyElements(newData, 0, data, 0, len);
      assert newData[..len] == data[..len];
      data := newData;
      copied := copied + len;
      return true;
    }

    method Get(index: int) returns (p: Option<Ptr<T>>)
      requires Valid()
      ensures p.Some? <==> 0 <= index < len
      ensures p.Some? ==> p.value.data == data && Readable(p.value) && Target(p.value) == Contents()[index]
    {
      if index < 0 || index >= len { return None; }
      return Some(Ptr(data, index));
    }

    method Set(index: int, value: Ptr<T>) returns (ok: bool)
      requires Valid() && Readable(value)
      modifies data
      ensures Valid() && (ok <==> 0 <= index < len)
      ensures Contents() == if ok then old(Contents())[index := old(Target(value))] else old(Contents())
    {
      if index < 0 || index >= len { return false; }
      data[index] := value.data[value.index];
      return true;
    }

    /** The value may live in the array: growing leaves the old block as it was. */
    method Push(value: Ptr<T>) returns (ok: bool)
      requires Valid() && Readable(value)
      modifies this`data, this`len, this`copied, data
      ensures Valid() && (ok <==> old(len < MAX && Fits(len + 1)))
      ensures Contents() == if ok then old(Contents()) + [old(Target(value))] else old(Contents())
      ensures data == old(data) || (ok && fresh(data))
      ensures ok ==> data.Length == Grown(old(data.Length), old(len) + 1)
      ensures copied == old(copied) + if old(len) < old(data.Length) || !ok then 0 else old(len)
    {
      if len == MAX { return false; }
      ok := Reserve(len + 1);
      if !ok { return; }
      ghost var c := Contents();
      data[len] := value.data[value.index];
      len := len + 1;
      assert data[..len] == c + [data[len - 1]];
    }

    /** The removed element stays readable where it was. */
    method Pop() returns (p: Option<Ptr<T>>)
      requires Valid()
      modifies this`len
      ensures Valid() && (p.None? <==> old(len) == 0)
      ensures p.None? ==> Contents() == old(Contents())
      ensures p.Some? ==> Readable(p.value) && p.value.data == data
      ensures p.Some? ==> old(Contents()) == Contents() + [Target(p.value)]
    {
      if len <= 0 { return None; }
      len := len - 1;
      return Some(Ptr(data, len));
    }

    method Swap(left: int, right: int) returns (ok: bool)
      requires Valid()
      modifies data
      ensures Valid() && (ok <==> 0 <= left < len && 0 <= right < len)
      ensures !ok ==> Contents() == old(Contents())
      ensures ok ==> Contents() == old(Contents()[left := Contents()[right]][right := Contents()[left]])
    {
      if left < 0 || left >= len || right < 0 || right >= len { return false; }
      if left == right { return true; }
      var tmp := data[left];
      data[left] := data[right];
      data[right] := tmp;
      return true;
    }

    method Reverse()
      requires Valid()
      modifies data
      ensures Valid() && Contents() == Reversed(old(Contents()))
    {
      var left, right: int := 0, len - 1;
      ghost var c := Contents();
      while left < right
        invariant 0 <= left && left + right == len - 1 && right >= left - 1
        invariant forall k :: 0 <= k < len && !(left <= k <= right) ==> Contents()[k] == c[len - 1 - k]
        invariant forall k :: left <= k <= right ==> Contents()[k] == c[k]
      {
        var ok := Swap(left, right);
        left := left + 1;
        right := right - 1;
      }
    }

    method Fill(value: Ptr<T>)
      requires Valid() && Readable(value)
      modifies data
      ensures Valid() && Contents() == Copies(old(Target(value)), len)
    {
      FillWith(data, len, value);
      assert Contents() == Copies(old(Target(value)), len);
    }

    method Clear()
      requires Valid()
      modifies this`len
      ensures Valid() && Contents() == []
    {
      len := 0;
    }

    /** Appends the elements of `source`, which may be this array itself. */
    method Extend(source: DynArray<T>) returns (ok: bool)
      requires Valid() && source.Valid() && (source != this ==> source.data != data)
      modifies this`data, this`len, this`copied, data
      ensures Valid() && source.Valid() && (data == old(data) || fresh(data))
      ensures ok <==> elemSize == source.elemSize &&
                      (old(source.len) == 0 || old(Fits(len + source.len)))
      ensures Contents() == if ok then old(Contents()) + old(source.Contents()) else old(Contents())
      ensures source != this ==> source.Contents() == old(source.Contents())
    {
      if elemSize != source.elemSize { return false; }
      var sourceLen := source.len;
      if sourceLen == 0 { return true; }
      if len > MAX - sourceLen { return false; }
      ok := Reserve(len + sourceLen);
      if !ok { return; }
      CopyFrom(source);
    }

    /** Appends the elements of `source`, for which there is room. */
    method CopyFrom(source: DynArray<T>)
      requires Valid() && source.Valid() && (source != this ==> source.data != data)
      requires len + source.len <= data.Length
      modifies this`len, data
      ensures Valid() && Contents() == old(Contents()) + old(source.Contents())
      ensures source != this ==> source.Contents() == old(source.Contents())
    {
      var sourceLen := source.len;
      ghost var c, added := Contents(), source.Contents();
      assert source.data[0..sourceLen] == added;
      CopyElements(data, len, source.data, 0, sourceLen);
      Concatenated(data[..], c, added);
      len := len + sourceLen;
    }

    /** The value is copied out first, so it may be one of the elements that move. */
    method Insert(index: int, value: Ptr<T>) returns (ok: bool)
      requires Valid() && Readable(value)
      modifies this`data, this`len, this`copied, data
      ensures Valid() && (data == old(data) || fresh(data))
      ensures ok <==> 0 <= index <= old(len) && old(len < MAX && Fits(len + 1))
      ensures Contents() == if ok then old(Contents()[..index] + [Target(value)] + Contents()[index..])
                            else old(Contents())
    {
      if index < 0 || index > len || len == MAX { return false; }
      var valueCopy := value.data[value.index];
      ok := Reserve(len + 1);
      if !ok { return; }
      ghost var c := Contents();
      ShiftUp(data, index, len);
      data[index] := valueCopy;
      len := len + 1;
      Opened(data[..], c, index, valueCopy);
    }

    method RemoveAt(index: int) returns (out: Option<T>)
      requires Valid()
      modifies this`len, data
      ensures Valid() && (out.Some? <==> 0 <= index < old(len))
      ensures out.None? ==> Contents() == old(Contents())
      ensures out.Some? ==> out.value == old(Contents()[index]) &&
                            Contents() == old(Contents()[..index] + Contents()[index + 1..])
    {
      if index < 0 || index >= len { return None; }
      ghost var c := Contents();
      out := Some(data[index]);
      ShiftDown(data, index, len);
      len := len - 1;
      assert data[..len] == data[..index] + data[index..len];
    }

    /** A new array, or a panic, with the elements of `[start, end)`. */
    method Slice(start: int, end: int) returns (r: Option<DynArray<T>>)
      requires Valid()
      ensures r.Some? <==> 0 <= start <= end <= len && StartCapacity(end - start) <= Limit(sizeMax, elemSize)
      ensures r.Some? ==> fresh(r.value) && r.value.Valid() && fresh(r.value.data)
      ensures r.Some? ==> r.value.sizeMax == sizeMax && r.value.elemSize == elemSize
      ensures r.Some? ==> r.value.Contents() == Contents()[start..end]
    {
      if start < 0 || end < start || end > len { return None; }
      var count := end - start;
      r := New(sizeMax, elemSize, count as i32);
      if r.None? { return; }
      assert Contents()[start..end] == data[start..start + count];
      CopyElements(r.value.data, 0, data, start, count);
      r.value.len := count;
    }

    method Clone() returns (r: Option<DynArray<T>>)
      requires Valid()
      ensures r.Some? <==> StartCapacity(len) <= Limit(sizeMax, elemSize)
      ensures r.Some? ==> fresh(r.value) && r.value.Valid() && fresh(r.value.data)
      ensures r.Some? ==> r.value.sizeMax == sizeMax && r.value.elemSize == elemSize
      ensures r.Some? ==> r.value.Contents() == Contents()
    {
      r := New(sizeMax, elemSize, len as i32);
      if r.None? { return; }
      CopyElements(r.value.data, 0, data, 0, len);
      r.value.len := len;
    }
  }

  lemma Concatenated<T>(s: seq<T>, c: seq<T>, d: seq<T>)
    requires |c| + |d| <= |s| && s[..|c|] == c && s[|c|..|c| + |d|] == d
    ensures s[..|c| + |d|] == c + d
  {
  }

  lemma Opened<T>(s: seq<T>, c: seq<T>, index: nat, v: T)
    requires index <= |c| < |s| && s[..index] == c[..index] && s[index] == v && s[index + 1..|c| + 1] == c[index..]
    ensures s[..|c| + 1] == c[..index] + [v] + c[index..]
  {
  }

  /** How many elements of a size the machine can count the bytes of. */
  function Limit(sizeMax: nat, elemSize: i32): (n: nat)
    requires elemSize > 0
  {
    sizeMax / elemSize as int
  }

  function StartCapacity(initial: int): int { if initial > 0 then initial else DEFAULT_CAPACITY }

  method New<T(0)>(sizeMax: nat, elemSize: i32, initialCapacity: i32) returns (r: Option<DynArray<T>>)
    ensures r.Some? <==> elemSize > 0 && initialCapacity >= 0 &&
                         StartCapacity(initialCapacity as int) <= Limit(sizeMax, elemSize)
    ensures r.Some? ==> fresh(r.value) && r.value.Valid() && fresh(r.value.data) && r.value.Contents() == []
    ensures r.Some? ==> r.value.data.Length == StartCapacity(initialCapacity as int) && r.value.copied == 0
    ensures r.Some? ==> r.value.data.Length == if initialCapacity > 0 then initialCapacity as int else 4
    ensures r.Some? ==> r.value.sizeMax == sizeMax && r.value.elemSize == elemSize
  {
    if elemSize <= 0 || initialCapacity < 0 { return None; }
    var capacity := StartCapacity(initialCapacity as int);
    if capacity > Limit(sizeMax, elemSize) { return None; }
    var a := new DynArray<T>.Allocate(sizeMax, elemSize, capacity);
    return Some(a);
  }

  /** An array of `count` copies of a value. */
  method Repeat<T(0)>(sizeMax: nat, elemSize: i32, value: Ptr<T>, count: i32) returns (r: Option<DynArray<T>>)
    requires Readable(value)
    ensures r.Some? <==> elemSize > 0 && count >= 0 && StartCapacity(count as int) <= Limit(sizeMax, elemSize)
    ensures r.Some? ==> fresh(r.value) && r.value.Valid() && fresh(r.value.data)
    ensures r.Some? ==> r.value.sizeMax == sizeMax && r.value.elemSize == elemSize
    ensures r.Some? ==> r.value.Contents() == Copies(Target(value), count as int)
  {
    if count < 0 { return None; }
    r := New(sizeMax, elemSize, count);
    if r.None? { return; }
    FillWith(r.value.data, count as int, value);
    r.value.len := count as int;
    assert r.value.Contents() == Copies(Target(value), count as int);
  }

  function Copies<T>(v: T, n: nat): (c: seq<T>)
    ensures |c| == n && forall k :: 0 <= k < n ==> c[k] == v
  {
    seq(n, _ => v)
  }

  // ----- amortised cost -----

  /** Pushing `n` values onto an empty array copies fewer than `2 * n` elements, as long
      as doubling stays in the int32 range. */
  method PushAll<T(0)>(a: DynArray<T>, values: array<T>) returns (pushed: nat)
    requires a.Valid() && a.len == 0 && a.copied == 0 && values != a.data
    modifies a, a.data
    ensures a.Valid() && pushed <= values.Length && a.Contents() == values[..pushed]
    ensures pushed == values.Length || !a.Fits(pushed + 1) || pushed == MAX
    ensures a.data.Length <= MAX / 2 ==> a.copied == 0 || a.copied < 2 * pushed
  {
    ghost var start := a.data.Length;
    for i := 0 to values.Length
      invariant a.Valid() && (a.data == old(a.data) || fresh(a.data)) && values != a.data
      invariant values[..] == old(values[..]) && a.Contents() == values[..i]
      invariant a.data.Length >= start
      invariant a.data.Length <= MAX / 2 ==> a.copied == a.data.Length - start
      invariant a.data.Length <= MAX / 2 ==> a.copied == 0 || a.data.Length < 2 * i
    {
      var ok := a.Push(Ptr(values, i));
      if !ok { return i; }
      assert values[..i + 1] == values[..i] + [values[i]];
    }
    return values.Length;
  }

  // ----- whole runs -----

  /** Where a stored value comes from: outside, or an element of some array. */
  datatype Source<T> = Value(v: T) | Element(of: nat, index: int)

  datatype Place = AtEnd | At(index: int) | Before(index: int) | Everywhere

  datatype Edit = DropLast | Remove(index: int) | Exchange(left: int, right: int) | TurnAround | Empty

  /** Operations on arrays that are numbered in the order of their creation. */
  datatype Op<T> =
    | NewOp(capacity: i32)
    | RepeatOp(value: Source<T>, count: i32)
    | CloneOp(of: nat)
    | SliceOp(of: nat, start: int, end: int)
    | StoreOp(to: nat, place: Place, value: Source<T>)
    | EditOp(of: nat, edit: Edit)
    | ExtendOp(to: nat, from: nat)

  /** Storing a value in a sequence; `None` where the runtime panics. */
  ghost function Stored<T>(c: seq<T>, place: Place, v: T): Option<seq<T>> {
    match place
    case AtEnd => if |c| < MAX then Some(c + [v]) else None
    case At(i) => if 0 <= i < |c| then Some(c[i := v]) else None
    case Before(i) => if 0 <= i <= |c| < MAX then Some(c[..i] + [v] + c[i..]) else None
    case Everywhere => Some(Copies(v, |c|))
  }

  ghost function Edited<T>(c: seq<T>, edit: Edit): Option<seq<T>> {
    match edit
    case DropLast => if c == [] then None else Some(c[..|c| - 1])
    case Remove(i) => if 0 <= i < |c| then Some(c[..i] + c[i + 1..]) else None
    case Exchange(l, r) => if 0 <= l < |c| && 0 <= r < |c| then Some(c[l := c[r]][r := c[l]]) else None
    case TurnAround => Some(Reversed(c))
    case Empty => Some([])
  }

  ghost function Joined<T>(c: seq<T>, d: seq<T>): Option<seq<T>> {
    if |c| + |d| <= MAX then Some(c + d) else None
  }

  ghost function Fetched<T>(views: seq<seq<T>>, source: Source<T>): Option<T> {
    match source
    case Value(v) => Some(v)
    case Element(i, k) => if i < |views| && 0 <= k < |views[i]| then Some(views[i][k]) else None
  }

  ghost function Replaced<T>(views: seq<seq<T>>, i: nat, c: Option<seq<T>>): Option<seq<seq<T>>>
    requires i < |views|
  {
    if c.Some? then Some(views[i := c.value]) else None
  }

  /** What an operation does to a list of sequences, which share nothing. */
  ghost function Apply<T>(views: seq<seq<T>>, op: Op<T>): Option<seq<seq<T>>> {
    match op
    case NewOp(capacity) => if capacity >= 0 then Some(views + [[]]) else None
    case RepeatOp(value, count) =>
      var v := Fetched(views, value);
      if v.Some? && count >= 0 then Some(views + [Copies(v.value, count as int)]) else None
    case CloneOp(i) => if i < |views| then Some(views + [views[i]]) else None
    case SliceOp(i, start, end) =>
      if i < |views| && 0 <= start <= end <= |views[i]| then Some(views + [views[i][start..end]]) else None
    case StoreOp(i, place, value) =>
      var v := Fetched(views, value);
      if i < |views| && v.Some? then Replaced(views, i, Stored(views[i], place, v.value)) else None
    case EditOp(i, edit) => if i < |views| then Replaced(views, i, Edited(views[i], edit)) else None
    case ExtendOp(i, j) =>
      if i < |views| && j < |views| then Replaced(views, i, Joined(views[i], views[j])) else None
  }

  /** The contents after a run, up to the first panic. */
  ghost function Outcome<T>(ops: seq<Op<T>>): Option<seq<seq<T>>> {
    if ops == [] then Some([])
    else
      var before := Outcome(ops[..|ops| - 1]);
      if before.None? then None else Apply(before.value, ops[|ops| - 1])
  }

  /** No two arrays are the same object or share their elements. */
  ghost predicate Apart<T(0)>(pool: seq<DynArray<T>>)
    reads pool
  {
    forall i, j :: 0 <= i < j < |pool| ==> pool[i] != pool[j] && pool[i].data != pool[j].data
  }

  /** The arrays of a program whose elements have one size, and their contents. */
  ghost predicate Represents<T(0)>(pool: seq<DynArray<T>>, views: seq<seq<T>>, sizeMax: nat, elemSize: i32)
    reads pool, set a | a in pool :: a.data
  {
    |pool| == |views| && Apart(pool) &&
    forall i :: 0 <= i < |pool| ==>
      pool[i].Valid() && pool[i].Contents() == views[i] && pool[i].sizeMax == sizeMax && pool[i].elemSize == elemSize
  }

  /** A change of one array: done as specified or, with a panic, not at all.  The panics
      are exactly those of the specification when the machine can count the bytes of
      every array length. */
  twostate predicate Changed<T(0)>(a: DynArray<T>, ok: bool, c: Option<seq<T>>)
    requires old(a.Valid())
    reads a, a.data
  {
    && a.Valid() && (a.data == old(a.data) || fresh(a.data))
    && (ok ==> c.Some? && a.Contents() == c.value)
    && (!ok ==> a.Contents() == old(a.Contents()))
    && (c.Some? && Limit(a.sizeMax, a.elemSize) >= MAX ==> ok)
  }

  method Store<T(0)>(a: DynArray<T>, place: Place, p: Ptr<T>) returns (ok: bool)
    requires a.Valid() && Readable(p)
    modifies a, a.data
    ensures Changed(a, ok, Stored(old(a.Contents()), place, old(Target(p))))
  {
    match place
    case AtEnd => ok := a.Push(p);
    case At(i) => ok := a.Set(i, p);
    case Before(i) => ok := a.Insert(i, p);
    case Everywhere =>
      a.Fill(p);
      ok := true;
  }

  method Perform<T(0)>(a: DynArray<T>, edit: Edit) returns (ok: bool)
    requires a.Valid()
    modifies a, a.data
    ensures Changed(a, ok, Edited(old(a.Contents()), edit))
  {
    match edit
    case DropLast =>
      var p := a.Pop();
      ok := p.Some?;
    case Remove(i) =>
      var out := a.RemoveAt(i);
      ok := out.Some?;
    case Exchange(l, r) => ok := a.Swap(l, r);
    case TurnAround =>
      a.Reverse();
      ok := true;
    case Empty =>
      a.Clear();
      ok := true;
  }

  method Fetch<T(0)>(pool: seq<DynArray<T>>, ghost views: seq<seq<T>>, source: Source<T>, sizeMax: nat, elemSize: i32)
    returns (p: Option<Ptr<T>>)
    requires Represents(pool, views, sizeMax, elemSize)
    ensures p.Some? <==> Fetched(views, source).Some?
    ensures p.Some? ==> Readable(p.value) && Target(p.value) == Fetched(views, source).value
  {
    match source
    case Value(v) =>
      var cell := new T[1](_ => v);
      p := Some(Ptr(cell, 0));
    case Element(i, k) =>
      if i >= |pool| { return None; }
      p := pool[i].Get(k);
  }

  /** The arrays after an operation: the old ones, perhaps with new blocks, and new ones. */
  twostate predicate Continues<T(0)>(pool: seq<DynArray<T>>, new pool': seq<DynArray<T>>)
    reads pool'
  {
    && pool <= pool'
    && (forall i :: 0 <= i < |pool| ==> pool'[i].data == old(pool[i].data) || fresh(pool'[i].data))
    && forall i :: |pool| <= i < |pool'| ==> fresh(pool'[i]) && fresh(pool'[i].data)
  }

  /** One operation on the arrays of a program. */
  method Step<T(0)>(pool: seq<DynArray<T>>, ghost views: seq<seq<T>>, op: Op<T>, sizeMax: nat, elemSize: i32)
    returns (ok: bool, pool': seq<DynArray<T>>)
    requires elemSize > 0 && Represents(pool, views, sizeMax, elemSize)
    modifies pool, set a | a in pool :: a.data
    ensures Continues(pool, pool')
    ensures ok ==> Apply(views, op).Some? && Represents(pool', Apply(views, op).value, sizeMax, elemSize)
    ensures !ok ==> pool' == pool && Represents(pool, views, sizeMax, elemSize)
    ensures Apply(views, op).Some? && Limit(sizeMax, elemSize) >= MAX ==> ok
  {
    if op.StoreOp? || op.EditOp? || op.ExtendOp? {
      ok := StepInPlace(pool, views, op, sizeMax, elemSize);
      pool' := pool;
    } else {
      var made := StepNew(pool, views, op, sizeMax, elemSize);
      ok := made.Some?;
      pool' := if ok then pool + [made.value] else pool;
    }
  }

  /** The operations that make a new array. */
  method StepNew<T(0)>(pool: seq<DynArray<T>>, ghost views: seq<seq<T>>, op: Op<T>, sizeMax: nat, elemSize: i32)
    returns (made: Option<DynArray<T>>)
    requires op.NewOp? || op.RepeatOp? || op.CloneOp? || op.SliceOp?
    requires elemSize > 0 && Represents(pool, views, sizeMax, elemSize)
    ensures made.Some? ==> fresh(made.value) && fresh(made.value.data) && made.value.Valid()
    ensures made.Some? ==> made.value.sizeMax == sizeMax && made.value.elemSize == elemSize
    ensures made.Some? ==> Apply(views, op) == Some(views + [made.value.Contents()])
    ensures Apply(views, op).Some? && Limit(sizeMax, elemSize) >= MAX ==> made.Some?
  {
    match op
    case NewOp(capacity) => made := New(sizeMax, elemSize, capacity);
    case RepeatOp(value, count) =>
      var p := Fetch(pool, views, value, sizeMax, elemSize);
      if p.None? { return None; }
      made := Repeat(sizeMax, elemSize, p.value, count);
    case CloneOp(i) =>
      if i >= |pool| { return None; }
      made := pool[i].Clone();
    case SliceOp(i, start, end) =>
      if i >= |pool| { return None; }
      made := pool[i].Slice(start, end);
  }

  /** The arrays after the change `c` of array `i`, or after a panic. */
  ghost predicate Result<T(0)>(pool: seq<DynArray<T>>, views: seq<seq<T>>, i: nat, ok: bool, c: Option<seq<T>>,
                               sizeMax: nat, elemSize: i32)
    requires i < |views| && elemSize > 0
    reads pool, set a | a in pool :: a.data
  {
    && (ok ==> c.Some?) && (c.Some? && Limit(sizeMax, elemSize) >= MAX ==> ok)
    && Represents(pool, if ok then views[i := c.value] else views, sizeMax, elemSize)
  }

  method StoreStep<T(0)>(pool: seq<DynArray<T>>, ghost views: seq<seq<T>>, i: nat, place: Place, p: Ptr<T>,
                         ghost sizeMax: nat, ghost elemSize: i32)
    returns (ok: bool)
    requires elemSize > 0 && Represents(pool, views, sizeMax, elemSize) && i < |pool| && Readable(p)
    modifies pool[i], pool[i].data
    ensures pool[i].data == old(pool[i].data) || fresh(pool[i].data)
    ensures Result(pool, views, i, ok, Stored(views[i], place, old(Target(p))), sizeMax, elemSize)
  {
    ok := Store(pool[i], place, p);
  }

  method EditStep<T(0)>(pool: seq<DynArray<T>>, ghost views: seq<seq<T>>, i: nat, edit: Edit,
                        ghost sizeMax: nat, ghost elemSize: i32)
    returns (ok: bool)
    requires elemSize > 0 && Represents(pool, views, sizeMax, elemSize) && i < |pool|
    modifies pool[i], pool[i].data
    ensures pool[i].data == old(pool[i].data) || fresh(pool[i].data)
    ensures Result(pool, views, i, ok, Edited(views[i], edit), sizeMax, elemSize)
  {
    ok := Perform(pool[i], edit);
  }

  method ExtendStep<T(0)>(pool: seq<DynArray<T>>, ghost views: seq<seq<T>>, i: nat, j: nat,
                          ghost sizeMax: nat, ghost elemSize: i32)
    returns (ok: bool)
    requires elemSize > 0 && Represents(pool, views, sizeMax, elemSize) && i < |pool| && j < |pool|
    modifies pool[i], pool[i].data
    ensures pool[i].data == old(pool[i].data) || fresh(pool[i].data)
    ensures Result(pool, views, i, ok, Joined(views[i], views[j]), sizeMax, elemSize)
  {
    ok := pool[i].Extend(pool[j]);
  }

  /** The operations that change one array. */
  method StepInPlace<T(0)>(pool: seq<DynArray<T>>, ghost views: seq<seq<T>>, op: Op<T>, sizeMax: nat, elemSize: i32)
    returns (ok: bool)
    requires op.StoreOp? || op.EditOp? || op.ExtendOp?
    requires elemSize > 0 && Represents(pool, views, sizeMax, elemSize)
    modifies pool, set a | a in pool :: a.data
    ensures forall a :: a in pool ==> a.data == old(a.data) || fresh(a.data)
    ensures ok ==> Apply(views, op).Some? && Represents(pool, Apply(views, op).value, sizeMax, elemSize)
    ensures !ok ==> Represents(pool, views, sizeMax, elemSize)
    ensures Apply(views, op).Some? && Limit(sizeMax, elemSize) >= MAX ==> ok
  {
    match op
    case StoreOp(i, place, value) =>
      var p := Fetch(pool, views, value, sizeMax, elemSize);
      if i >= |pool| || p.None? { return false; }
      ok := StoreStep(pool, views, i, place, p.value, sizeMax, elemSize);
    case EditOp(i, edit) =>
      if i >= |pool| { return false; }
      ok := EditStep(pool, views, i, edit, sizeMax, elemSize);
    case ExtendOp(i, j) =>
      if i >= |pool| || j >= |pool| { return false; }
      ok := ExtendStep(pool, views, i, j, sizeMax, elemSize);
  }

  /** Every run has the effect it has on a list of sequences, and panics when that is
      undefined: arrays never disturb each other. */
  method RunOps<T(0)>(sizeMax: nat, elemSize: i32, ops: seq<Op<T>>) returns (ok: bool, contents: seq<seq<T>>)
    requires elemSize > 0
    ensures ok ==> Outcome(ops) == Some(contents)
    ensures Outcome(ops).Some? && Limit(sizeMax, elemSize) >= MAX ==> ok
  {
    var pool: seq<DynArray<T>> := [];
    for i := 0 to |ops|
      invariant forall a :: a in pool ==> fresh(a) && fresh(a.data)
      invariant Outcome(ops[..i]).Some? && Represents(pool, Outcome(ops[..i]).value, sizeMax, elemSize)
    {
      assert ops[..i + 1][..i] == ops[..i];
      ok, pool := Step(pool, Outcome(ops[..i]).value, ops[i], sizeMax, elemSize);
      if !ok {
        if Outcome(ops[..i + 1]).None? { StaysPanicked(ops, i + 1); }
        return false, [];
      }
    }
    assert ops[..|ops|] == ops;
    contents := Snapshot(pool, Outcome(ops).value, sizeMax, elemSize);
    ok := true;
  }

  method Snapshot<T(0)>(pool: seq<DynArray<T>>, ghost views: seq<seq<T>>, sizeMax: nat, elemSize: i32)
    returns (contents: seq<seq<T>>)
    requires Represents(pool, views, sizeMax, elemSize)
    ensures contents == views
  {
    contents := [];
    for i := 0 to |pool|
      invariant contents == views[..i]
    {
      contents := contents + [pool[i].data[..pool[i].len]];
    }
  }

  lemma {:induction false} StaysPanicked<T>(ops: seq<Op<T>>, n: nat)
    requires n <= |ops| && Outcome(ops[..n]).None?
    ensures Outcome(ops).None?
    decreases |ops| - n
  {
    if n < |ops| {
      assert ops[..n + 1][..n] == ops[..n];
      StaysPanicked(ops, n + 1);
    } else {
      assert ops[..n] == ops;
    }
  }
}
