/** `RingP`, the fixed-size value ring of ringp.go.

    The storage is allocated once by `NewRingP` and never changes length. One
    slot is always left unused, so the ring holds at most `len(items) - 1`
    values; adding to a full ring first drops the oldest value. `Next` and
    `Peek` return the zero value of `T` when there is nothing to return; that
    value is passed in as `zero`. */
module BoundedRing {
  import opened RingCore

  /** `mask` is kept as a field, as in the source, and is always
      `len(items) - 1`. */
  datatype RingP<T> = RingP(items: seq<T>, mask: nat, tail: nat, head: nat)

  /** A ring made by `NewRingP`: a power-of-two storage of at least two
      slots (which, being a Go slice, has an `int` length), with both indices
      inside it. */
  predicate Valid<T>(r: RingP<T>)
  {
    && 2 <= |r.items| <= IntMax && IsPow2(|r.items|)
    && r.mask == |r.items| - 1
    && r.tail < |r.items| && r.head < |r.items|
  }

  /** `NewRingP(sizePlus1)`: panics unless `sizePlus1` is a power of two of
      at least 2; otherwise an empty ring over `sizePlus1` zero values. */
  function NewRingP<T>(sizePlus1: int, zero: T): (res: Result<RingP<T>>)
    requires IsGoInt(sizePlus1)
    ensures res.Success? ==> Valid(res.value) && res.value.head == res.value.tail
  {
    if sizePlus1 < 2 || BitAnd(sizePlus1, sizePlus1 - 1) != 0 then
      Failure("sizePlus1 must be a power of 2, and minimum 2")
    else
      PowerOfTwoTest(sizePlus1);
      Success(RingP(Fill(sizePlus1, zero), sizePlus1 - 1, 0, 0))
  }

  /** `Capacity()`: the mask, which is the most values the ring holds: one
      less than the storage length. */
  function Capacity<T>(r: RingP<T>): (c: int)
    ensures Valid(r) ==> 1 <= c == |r.items| - 1
  {
    r.mask
  }

  /** `Len()`: `(head - tail) & mask`. */
  function Len<T>(r: RingP<T>): (n: nat)
    requires Valid(r)
    ensures n <= Capacity(r)
    ensures n == 0 <==> r.head == r.tail
  {
    Count(r.head, r.tail, |r.items|)
  }

  /** `IsFull()`: one more `Add` would drop the oldest value, because every
      slot but the unused one is live. */
  function IsFull<T>(r: RingP<T>): (full: bool)
    requires Valid(r)
    ensures full <==> |Content(r)| == |r.items| - 1
  {
    Len(r) == Capacity(r)
  }

  /** The live values, oldest first. */
  function Content<T>(r: RingP<T>): seq<T>
    requires Valid(r)
  {
    Window(r.items, r.tail, Len(r))
  }

  /** What `Next()` does to the ring: nothing when it is empty, otherwise the
      tail moves one slot on. `Add` calls `Next()` for this effect alone. */
  function Pop<T>(r: RingP<T>): (r': RingP<T>)
    requires Valid(r)
    ensures Valid(r') && r'.items == r.items && r'.mask == r.mask && r'.head == r.head
  {
    if Len(r) == 0 then r else r.(tail := Slot(r.tail, 1, |r.items|))
  }

  /** `Next()`: the ring afterwards and the value returned. */
  function Next<T>(r: RingP<T>, zero: T): (res: (RingP<T>, T))
    requires Valid(r)
    ensures Valid(res.0) && res.0.items == r.items
    ensures Len(r) == 0 ==> res.1 == zero && Len(res.0) == 0
    ensures Len(r) > 0 ==> res.1 == Content(r)[0] && Len(res.0) == Len(r) - 1
  {
    (Pop(r), if Len(r) == 0 then zero else r.items[r.tail])
  }

  /** `Peek(i)`: the value `i` places after the oldest, or the zero value
      when `uint(i)` is not below `Len()`; a negative `i` converts to a huge
      unsigned index and so also gives the zero value. */
  function Peek<T>(r: RingP<T>, i: int, zero: T): (v: T)
    requires Valid(r) && IsGoInt(i)
    ensures i < 0 || i >= |Content(r)| ==> v == zero
  {
    var length := Len(r);
    var ui := ToUint(i);
    if ui >= length then zero else r.items[Slot(r.tail, ui, |r.items|)]
  }

  /** `Add(item)`: drop the oldest value when full, then store `item` at the
      head. The storage keeps its length. */
  function Add<T>(r: RingP<T>, item: T): (r': RingP<T>)
    requires Valid(r)
    ensures Valid(r') && |r'.items| == |r.items| && Capacity(r') == Capacity(r)
  {
    var p := if IsFull(r) then Pop(r) else r;
    RingP(p.items[p.head := item], p.mask, p.tail, Slot(p.head, 1, |p.items|))
  }

  /** `NewRingP` accepts exactly the powers of two from 2 on, and then makes
      an empty ring holding up to `sizePlus1 - 1` values. */
  lemma NewRingPAccepts<T>(sizePlus1: int, zero: T)
    requires IsGoInt(sizePlus1)
    ensures NewRingP(sizePlus1, zero).Success? <==> sizePlus1 >= 2 && IsPow2(sizePlus1)
    ensures NewRingP(sizePlus1, zero).Success? ==>
              && Content(NewRingP(sizePlus1, zero).value) == []
              && Capacity(NewRingP(sizePlus1, zero).value) == sizePlus1 - 1
  {
    if sizePlus1 >= 2 {
      PowerOfTwoTest(sizePlus1);
    }
  }

  /** `Len()` is the source's masked difference. */
  lemma LenIsMaskedDifference<T>(r: RingP<T>)
    requires Valid(r)
    ensures Len(r) == (r.head - r.tail) % (r.mask + 1)
    ensures Len(r) == BitAnd((r.head - r.tail) % UintModulus, r.mask)
    ensures IsFull(r) <==> |Content(r)| == |r.items| - 1
  {
    CountIsMaskedDifference(r.head, r.tail, |r.items|);
    CountIsMasked(r.head, r.tail, |r.items|);
  }

  /** `Next()` on an empty ring returns the zero value and changes nothing;
      otherwise it returns the oldest value and removes it. */
  lemma NextTakesOldest<T>(r: RingP<T>, zero: T)
    requires Valid(r)
    ensures Content(r) == [] ==> Next(r, zero).0 == r && Next(r, zero).1 == zero
    ensures Content(r) != [] ==>
              && Next(r, zero).1 == Content(r)[0]
              && Content(Next(r, zero).0) == Content(r)[1..]
  {
    if Len(r) > 0 {
      WindowDrop(r.items, r.tail, Len(r), 1);
    }
  }

  /** `Peek(i)` is the `i`-th oldest value for `0 <= i < Len()` and the zero
      value for every other `i`, negative ones included. */
  lemma PeekIsIndex<T>(r: RingP<T>, i: int, zero: T)
    requires Valid(r) && IsGoInt(i)
    ensures Peek(r, i, zero) == if 0 <= i < |Content(r)| then Content(r)[i] else zero
  {
  }

  /** `Add(item)` appends `item`, after dropping the oldest value when the
      ring was full. */
  lemma AddAppends<T>(r: RingP<T>, item: T)
    requires Valid(r)
    ensures Content(Add(r, item)) == (if IsFull(r) then Content(r)[1..] else Content(r)) + [item]
  {
    var p := if IsFull(r) then Pop(r) else r;
    if IsFull(r) {
      WindowDrop(r.items, r.tail, Len(r), 1);
    }
    HeadIsSlot(p.head, p.tail, |p.items|);
    WindowPush(p.items, p.tail, Len(p), item);
  }

  /** The `add` step of ringp_test.go: drop from the front while the expected
      values fill the capacity, then append. */
  function ExpectedAdd<T>(val: seq<T>, capacity: nat, item: T): (v: seq<T>)
    ensures 1 <= |v| <= |val| + 1 && v[|v| - 1] == item
    ensures 1 <= capacity && |val| <= capacity ==> |v| <= capacity
    decreases |val|
  {
    if |val| == capacity && |val| > 0 then ExpectedAdd(val[1..], capacity, item) else val + [item]
  }

  /** `Add` agrees with the test's expected values. */
  lemma AddMatchesTest<T>(r: RingP<T>, item: T)
    requires Valid(r)
    ensures Content(Add(r, item)) == ExpectedAdd(Content(r), Capacity(r), item)
  {
    AddAppends(r, item);
  }

  /** One `Add` keeps the newest `Capacity()` values. */
  lemma AddKeepsNewest<T>(r: RingP<T>, item: T)
    requires Valid(r)
    ensures Content(Add(r, item)) == Newest(Content(r) + [item], Capacity(r))
  {
    AddAppends(r, item);
    NewestPush(Content(r), item, Capacity(r));
  }

  /** `Add` of each element of `xs` in turn. */
  function AddAll<T>(r: RingP<T>, xs: seq<T>): (r': RingP<T>)
    requires Valid(r)
    ensures Valid(r') && |r'.items| == |r.items| && Capacity(r') == Capacity(r)
    decreases |xs|
  {
    if xs == [] then r else AddAll(Add(r, xs[0]), xs[1..])
  }

  /** After any run of `Add`s the ring holds the newest `Capacity()` values of
      its old content followed by the added ones, in the order added. */
  lemma {:induction false} AddAllKeepsNewest<T>(r: RingP<T>, xs: seq<T>)
    requires Valid(r)
    ensures Content(AddAll(r, xs)) == Newest(Content(r) + xs, Capacity(r))
    decreases |xs|
  {
    if xs == [] {
      assert Content(r) + xs == Content(r);
    } else {
      AddKeepsNewest(r, xs[0]);
      AddAllKeepsNewest(Add(r, xs[0]), xs[1..]);
      NewestCons(Content(r), xs, Capacity(r));
    }
  }

  /** Filling a fresh ring: it holds the last `sizePlus1 - 1` values added. */
  lemma FreshRingKeepsNewest<T>(sizePlus1: int, zero: T, xs: seq<T>)
    requires IsGoInt(sizePlus1) && NewRingP(sizePlus1, zero).Success?
    ensures Content(AddAll(NewRingP(sizePlus1, zero).value, xs)) == Newest(xs, sizePlus1 - 1)
  {
    var r := NewRingP(sizePlus1, zero).value;
    NewRingPAccepts(sizePlus1, zero);
    AddAllKeepsNewest(r, xs);
    assert Content(r) + xs == xs;
  }
}
