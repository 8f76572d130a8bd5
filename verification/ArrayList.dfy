/**
 The growable array of `util/arraylist.c`: a buffer of bytes that is shifted and resized byte by byte,
 and that behaves as a sequence of entries for every entry size. `vmalloc` is a fresh array and
 `vrealloc` a fresh array with the old contents as its prefix.
 */
module ArrayList {
  import opened Basics

  // ---------------------------------------------------------------- bytes as entries

  /** The bytes of `n` entries: the product `n * entrySize`, by repeated addition. */
  function Bytes(n: nat, entrySize: nat): nat {
    if n == 0 then 0 else Bytes(n - 1, entrySize) + entrySize
  }

  lemma {:induction false} BytesIsProduct(n: nat, entrySize: nat)
    ensures Bytes(n, entrySize) == n * entrySize
  {
    if n > 0 {
      BytesIsProduct(n - 1, entrySize);
      assert n * entrySize == (n - 1) * entrySize + entrySize;
    }
  }

  lemma {:induction false} BytesAdd(i: nat, j: nat, entrySize: nat)
    ensures Bytes(i + j, entrySize) == Bytes(i, entrySize) + Bytes(j, entrySize)
  {
    if j > 0 {
      BytesAdd(i, j - 1, entrySize);
    }
  }

  /** A buffer of exactly `n` entries, cut into entries. */
  function Entries(bytes: seq<Byte>, entrySize: nat, n: nat): (r: seq<seq<Byte>>)
    requires |bytes| == Bytes(n, entrySize)
    ensures |r| == n
    decreases n
  {
    if n == 0 then []
    else
      var front := Bytes(n - 1, entrySize);
      Entries(bytes[..front], entrySize, n - 1) + [bytes[front..]]
  }

  /** Buffers put end to end are their entries put end to end. */
  lemma {:induction false} EntriesConcat(a: seq<Byte>, i: nat, b: seq<Byte>, j: nat, entrySize: nat)
    requires |a| == Bytes(i, entrySize) && |b| == Bytes(j, entrySize)
    ensures |a + b| == Bytes(i + j, entrySize)
    ensures Entries(a + b, entrySize, i + j) == Entries(a, entrySize, i) + Entries(b, entrySize, j)
    decreases j
  {
    BytesAdd(i, j, entrySize);
    if j == 0 {
      assert a + b == a;
    } else {
      var front := Bytes(j - 1, entrySize);
      BytesAdd(i, j - 1, entrySize);
      assert (a + b)[..|a| + front] == a + b[..front];
      assert (a + b)[|a| + front..] == b[front..];
      EntriesConcat(a, i, b[..front], j - 1, entrySize);
    }
  }

  lemma {:induction false} OneEntry(e: seq<Byte>, entrySize: nat)
    requires |e| == entrySize
    ensures Bytes(1, entrySize) == entrySize && Entries(e, entrySize, 1) == [e]
  {
    assert Bytes(0, entrySize) == 0;
    assert e[0..] == e;
  }

  /** The entries before one, that one, and the entries after it. */
  lemma {:induction false} EntriesJoined(x: seq<Byte>, k: nat, e: seq<Byte>, y: seq<Byte>, j: nat, entrySize: nat)
    requires |x| == Bytes(k, entrySize) && |e| == entrySize && |y| == Bytes(j, entrySize)
    ensures |x + e + y| == Bytes(k + 1 + j, entrySize)
    ensures Entries(x + e + y, entrySize, k + 1 + j) == Entries(x, entrySize, k) + [e] + Entries(y, entrySize, j)
  {
    OneEntry(e, entrySize);
    EntriesConcat(x, k, e, 1, entrySize);
    EntriesConcat(x + e, k + 1, y, j, entrySize);
  }

  /** Where entry `k` of a buffer lies, and what lies behind it. */
  lemma {:induction false} EntryPlace(n: nat, k: nat, entrySize: nat)
    requires k < n
    ensures Bytes(n, entrySize) == Bytes(k, entrySize) + entrySize + Bytes(n - k - 1, entrySize)
  {
    BytesAdd(k, n - k, entrySize);
    BytesAdd(1, n - k - 1, entrySize);
  }

  /** Taking the bytes of one entry out of a buffer takes out exactly that entry. */
  lemma {:induction false} CutDeletes(a: seq<Byte>, b: seq<Byte>, entrySize: nat, n: nat, k: nat)
    requires k < n && |a| == Bytes(n, entrySize)
    requires var from := Bytes(k, entrySize); from + entrySize <= |a| && b == a[..from] + a[from + entrySize..]
    ensures |b| == Bytes(n - 1, entrySize) && Entries(b, entrySize, n - 1) == Without(Entries(a, entrySize, n), k)
  {
    var from := Bytes(k, entrySize);
    EntryPlace(n, k, entrySize);
    var x, e, y := a[..from], a[from..from + entrySize], a[from + entrySize..];
    assert a == x + e + y;
    EntriesJoined(x, k, e, y, n - k - 1, entrySize);
    EntriesConcat(x, k, y, n - k - 1, entrySize);
  }

  lemma ReplaceMiddle<T>(x: seq<T>, e: T, f: T, y: seq<T>)
    ensures (x + [e] + y)[|x| := f] == x + [f] + y
  {
  }

  lemma {:induction false} ReplaceEntry(x: seq<Byte>, k: nat, e: seq<Byte>, entry: seq<Byte>,
                                        y: seq<Byte>, j: nat, entrySize: nat)
    requires |x| == Bytes(k, entrySize) && |e| == |entry| == entrySize && |y| == Bytes(j, entrySize)
    ensures |x + e + y| == |x + entry + y| == Bytes(k + 1 + j, entrySize)
    ensures Entries(x + entry + y, entrySize, k + 1 + j) == Entries(x + e + y, entrySize, k + 1 + j)[k := entry]
  {
    EntriesJoined(x, k, e, y, j, entrySize);
    EntriesJoined(x, k, entry, y, j, entrySize);
    ReplaceMiddle(Entries(x, entrySize, k), e, entry, Entries(y, entrySize, j));
  }

  /** Overwriting the bytes of one entry replaces exactly that entry. */
  lemma {:induction false} WriteReplaces(a: seq<Byte>, b: seq<Byte>, entrySize: nat, n: nat, k: nat, entry: seq<Byte>)
    requires k < n && |a| == Bytes(n, entrySize) && |entry| == entrySize
    requires var from := Bytes(k, entrySize);
             from + entrySize <= |a| && b == a[..from] + entry + a[from + entrySize..]
    ensures |b| == |a| && Entries(b, entrySize, n) == Entries(a, entrySize, n)[k := entry]
  {
    var from, j := Bytes(k, entrySize), n - k - 1;
    EntryPlace(n, k, entrySize);
    var x, e, y := a[..from], a[from..from + entrySize], a[from + entrySize..];
    assert a == x + e + y && n == k + 1 + j;
    ReplaceEntry(x, k, e, entry, y, j, entrySize);
  }

  lemma {:induction false} EntriesInit(a: seq<Byte>, entrySize: nat, n: nat)
    requires |a| == Bytes(n + 1, entrySize)
    ensures Entries(a, entrySize, n + 1)[..n] == Entries(a[..Bytes(n, entrySize)], entrySize, n)
  {
  }

  // ---------------------------------------------------------------- sizes

  /** The number of entries and the room for them. */
  datatype Shape = Shape(size: nat, capacity: nat)

  predicate PowerOfTwo(n: nat) {
    n == 1 || (n > 1 && n % 2 == 0 && PowerOfTwo(n / 2))
  }

  /** Room for nothing, or for a power of two of which at least half is in use. */
  predicate ShapeOk(s: Shape) {
    s.size <= s.capacity && s.capacity / 2 <= s.size && (s.capacity == 0 || PowerOfTwo(s.capacity))
  }

  function AddShape(s: Shape): Shape {
    if s.capacity == 0 then Shape(1, 1)
    else if s.size + 1 <= s.capacity then Shape(s.size + 1, s.capacity)
    else Shape(s.size + 1, s.capacity * 2)
  }

  function RemoveShape(s: Shape): Shape
    requires s.size > 0
  {
    if s.size - 1 >= s.capacity / 2 then Shape(s.size - 1, s.capacity) else Shape(s.size - 1, s.capacity / 2)
  }

  /** Each shrink has room for the survivors, and removal never takes all room away. */
  lemma ShapeKept(s: Shape)
    requires ShapeOk(s)
    ensures ShapeOk(AddShape(s)) && AddShape(s).size == s.size + 1
    ensures s.size > 0 ==> ShapeOk(RemoveShape(s)) && RemoveShape(s).capacity > 0
  {
    assert PowerOfTwo(s.capacity) ==> PowerOfTwo(s.capacity * 2);
  }

  /** The shape after a run of additions (true) and removals (false; on an empty list they change nothing). */
  function RunShape(s: Shape, ops: seq<bool>): Shape
    decreases |ops|
  {
    if ops == [] then s
    else RunShape(if ops[0] then AddShape(s) else if s.size == 0 then s else RemoveShape(s), ops[1..])
  }

  lemma {:induction false} RunShapeOk(s: Shape, ops: seq<bool>)
    requires ShapeOk(s)
    ensures ShapeOk(RunShape(s, ops))
    decreases |ops|
  {
    if ops != [] {
      ShapeKept(s);
      RunShapeOk(if ops[0] then AddShape(s) else if s.size == 0 then s else RemoveShape(s), ops[1..]);
    }
  }

  // ---------------------------------------------------------------- the list

  /** `vrealloc`: a fresh buffer that starts with the old contents. */
  method Vrealloc(old_: array<Byte>, newSize: nat) returns (r: array<Byte>)
    ensures fresh(r) && r.Length == newSize
    ensures forall i :: 0 <= i < newSize && i < old_.Length ==> r[i] == old_[i]
  {
    r := new Byte[newSize];
    var len := if old_.Length < newSize then old_.Length else newSize;
    for i := 0 to len
      invariant forall j :: 0 <= j < i ==> r[j] == old_[j]
    {
      r[i] := old_[i];
    }
  }

  /** Bytes overwritten inside the first `n` are overwritten in the first `n`. */
  lemma SpliceSlices(bytes: seq<Byte>, n: nat, from: nat, entry: seq<Byte>)
    requires from + |entry| <= n <= |bytes|
    ensures (bytes[..from] + entry + bytes[from + |entry|..])[..n] ==
            bytes[..n][..from] + entry + bytes[..n][from + |entry|..]
  {
  }

  lemma CutSlices(bytes: seq<Byte>, used: seq<Byte>, from: nat, to: nat, entrySize: nat)
    requires from <= to && to + entrySize <= |bytes| && used == bytes[..to + entrySize]
    ensures used[..from] == bytes[..from] && used[from + entrySize..] == bytes[from + entrySize..to + entrySize]
  {
  }

  class List {
    const entrySize: nat
    var l: array?<Byte>
    var size: nat
    var capacity: nat

    /** The buffer has room for the entries. */
    ghost predicate Room()
      reads this
    {
      && entrySize > 0 && size <= capacity
      && (capacity == 0 <==> l == null)
      && (l != null ==> l.Length == Bytes(capacity, entrySize))
    }

    ghost predicate Valid()
      reads this
    {
      Room() && ShapeOk(Shape(size, capacity))
    }

    /** The bytes of the entries in use. */
    ghost function Used(): (r: seq<Byte>)
      requires Room()
      reads this, l
      ensures |r| == Bytes(size, entrySize)
    {
      if l == null then []
      else
        BytesAdd(size, capacity - size, entrySize);
        l[..Bytes(size, entrySize)]
    }

    ghost function Contents(): (r: seq<seq<Byte>>)
      requires Room()
      reads this, l
      ensures |r| == size
    {
      Entries(Used(), entrySize, size)
    }

    /** `arraylist_new`. */
    constructor (entrySize: nat)
      requires entrySize > 0
      ensures Valid() && Contents() == [] && this.entrySize == entrySize && l == null
    {
      this.entrySize := entrySize;
      l, size, capacity := null, 0, 0;
    }

    /** The reallocation of `arraylist_add`: twice the room, the same bytes. */
    method Double()
      requires Room() && size == capacity > 0
      modifies this
      ensures Room() && fresh(l) && Contents() == old(Contents())
      ensures size == old(size) && capacity == 2 * old(capacity)
    {
      ghost var used := Used();
      BytesAdd(capacity, capacity, entrySize);
      capacity := capacity * 2;
      var bigger := Vrealloc(l, Bytes(capacity, entrySize));
      l := bigger;
      assert Used() == used;
    }

    /** Takes the next entry of a buffer that has room for it. */
    method Extend() returns (index: nat)
      requires Room() && size < capacity
      modifies this`size
      ensures Room() && index == old(size) && size == index + 1
      ensures Contents()[..index] == old(Contents())
    {
      ghost var used := Used();
      index, size := size, size + 1;
      BytesAdd(size, capacity - size, entrySize);
      assert Used()[..Bytes(index, entrySize)] == used;
      EntriesInit(Used(), entrySize, index);
    }

    /** `arraylist_add`: one more entry, with unspecified bytes, behind the old ones. */
    method Add() returns (index: nat)
      requires Valid()
      modifies this
      ensures Valid() && (l == old(l) || fresh(l))
      ensures index == old(size) && Shape(size, capacity) == AddShape(old(Shape(size, capacity)))
      ensures Contents()[..index] == old(Contents())
    {
      ghost var shape, was := Shape(size, capacity), Contents();
      if capacity == 0 {
        First();
        index := 0;
      } else {
        if size + 1 > capacity {
          Double();
        }
        index := Extend();
      }
      assert Room() && Shape(size, capacity) == AddShape(shape) && Contents()[..index] == was;
      ShapeKept(shape);
    }

    /** The first allocation of `arraylist_add`. */
    method First()
      requires Room() && capacity == 0
      modifies this
      ensures Room() && fresh(l) && size == 1 && capacity == 1
    {
      capacity, size := 1, 1;
      l := new Byte[Bytes(1, entrySize)];
    }

    /** What a client does with the entry it was given: overwrite its bytes. */
    method Write(index: nat, entry: seq<Byte>)
      requires Room() && index < size && |entry| == entrySize
      modifies l
      ensures Room() && Contents() == old(Contents())[index := entry]
    {
      ghost var used, bytes, n := Used(), l[..], Bytes(size, entrySize);
      var from := Bytes(index, entrySize);
      EntryPlace(size, index, entrySize);
      BytesAdd(size, capacity - size, entrySize);
      CopyBytes(l, from, entry);
      assert Used() == l[..][..n] && used == bytes[..n];
      SpliceSlices(bytes, n, from, entry);
      WriteReplaces(used, Used(), entrySize, size, index, entry);
    }

    method CopyBytes(a: array<Byte>, from: nat, entry: seq<Byte>)
      requires from + |entry| <= a.Length
      modifies a
      ensures a[..] == old(a[..from]) + entry + old(a[from + |entry|..])
    {
      ghost var bytes := a[..];
      for i := 0 to |entry|
        invariant a[..] == bytes[..from] + entry[..i] + bytes[from + i..]
      {
        a[from + i] := entry[i];
        assert entry[..i + 1] == entry[..i] + [entry[i]];
      }
      assert entry[..|entry|] == entry;
    }

    /** The bytes without those of entry `k`. */
    ghost function Cut(bytes: seq<Byte>, k: nat): seq<Byte>
      requires Bytes(k, entrySize) + entrySize <= |bytes|
    {
      bytes[..Bytes(k, entrySize)] + bytes[Bytes(k, entrySize) + entrySize..]
    }

    /** The in-place path of `arraylist_remove`. */
    method RemoveInPlace(index: nat)
      requires Room() && index < size
      modifies this`size, l
      ensures Room() && size == old(size) - 1
      ensures Bytes(index, entrySize) + entrySize <= |old(Used())| && Used() == Cut(old(Used()), index)
    {
      BytesAdd(index, size - 1 - index, entrySize);
      BytesAdd(size, capacity - size, entrySize);
      ghost var used, bytes, from := Used(), l[..], Bytes(index, entrySize);
      ghost var to := Bytes(size - 1, entrySize);
      ShiftInPlace(l, index, size - 1);
      assert l[..to] == Cut(used, index) by { CutSlices(bytes, used, from, to, entrySize); }
      size := size - 1;
    }

    /** The shrinking path of `arraylist_remove`. */
    method RemoveShrinking(index: nat)
      requires Room() && index < size && 0 < capacity / 2 && size - 1 <= capacity / 2
      modifies this
      ensures Room() && fresh(l) && size == old(size) - 1 && capacity == old(capacity) / 2
      ensures Bytes(index, entrySize) + entrySize <= |old(Used())| && Used() == Cut(old(Used()), index)
    {
      var newSize, newCapacity := size - 1, capacity / 2;
      BytesAdd(index, newSize - index, entrySize);
      BytesAdd(size, capacity - size, entrySize);
      BytesAdd(newSize, newCapacity - newSize, entrySize);
      ghost var to := Bytes(newSize, entrySize);
      CutSlices(l[..], Used(), Bytes(index, entrySize), to, entrySize);
      var newList := CopyWithout(l, newCapacity, index, newSize);
      l := newList;
      capacity := newCapacity;
      size := newSize;
      assert Used() == l[..to];
    }

    /** `arraylist_remove`: deletes entry `index`, in place or into a buffer of half the room. */
    method Remove(index: nat) returns (ok: bool)
      requires Valid()
      modifies this, l
      ensures Valid() && (l == old(l) || fresh(l))
      ensures ok == (index < old(size))
      ensures !ok ==> Contents() == old(Contents()) && Shape(size, capacity) == old(Shape(size, capacity))
      ensures ok ==> Contents() == Without(old(Contents()), index)
      ensures ok ==> Shape(size, capacity) == RemoveShape(old(Shape(size, capacity)))
    {
      if index >= size {
        return false;
      }
      ghost var used := Used();
      ShapeKept(Shape(size, capacity));
      if size - 1 >= capacity / 2 {
        RemoveInPlace(index);
      } else {
        RemoveShrinking(index);
      }
      CutDeletes(used, Used(), entrySize, size + 1, index);
      return true;
    }

    /** The byte loop of the in-place path. */
    method ShiftInPlace(a: array<Byte>, index: nat, newSize: nat)
      requires index <= newSize && Bytes(newSize, entrySize) + entrySize <= a.Length
      requires Bytes(index, entrySize) <= Bytes(newSize, entrySize)
      modifies a
      ensures var from, to := Bytes(index, entrySize), Bytes(newSize, entrySize);
              a[..to] == old(a[..from]) + old(a[from + entrySize..to + entrySize])
    {
      var from, to := Bytes(index, entrySize), Bytes(newSize, entrySize);
      ghost var bytes := a[..];
      for i := from to to
        invariant a[..i] == bytes[..from] + bytes[from + entrySize..i + entrySize]
        invariant a[i..] == bytes[i..]
      {
        assert a[i + entrySize] == a[i..][entrySize];
        a[i] := a[i + entrySize];
        assert a[..i + 1] == a[..i] + [a[i]];
      }
    }

    /** The two byte loops of the shrinking path. */
    method CopyWithout(a: array<Byte>, newCapacity: nat, index: nat, newSize: nat) returns (r: array<Byte>)
      requires index <= newSize && Bytes(newSize, entrySize) + entrySize <= a.Length
      requires Bytes(index, entrySize) <= Bytes(newSize, entrySize) <= Bytes(newCapacity, entrySize)
      ensures fresh(r) && r.Length == Bytes(newCapacity, entrySize)
      ensures var from, to := Bytes(index, entrySize), Bytes(newSize, entrySize);
              r[..to] == a[..from] + a[from + entrySize..to + entrySize]
    {
      var from, to := Bytes(index, entrySize), Bytes(newSize, entrySize);
      r := new Byte[Bytes(newCapacity, entrySize)];
      for i := 0 to from
        invariant r[..i] == a[..i]
      {
        r[i] := a[i];
        assert r[..i + 1] == r[..i] + [r[i]];
      }
      for i := from to to
        invariant r[..i] == a[..from] + a[from + entrySize..i + entrySize]
      {
        r[i] := a[i + entrySize];
        assert r[..i + 1] == r[..i] + [r[i]];
      }
    }
  }
}
