/** `RingT`, the pointer ring of ringt.go bounded by a maximum element count.

    The storage starts empty and grows lazily: `Add` doubles it (to at least
    two slots) when it is empty or has no free slot besides the one that is
    always left unused. Adding to a ring that holds `maxSize` elements first
    drops the oldest. A Go pointer `*T` is an `Option<T>`, `nil` being `None`;
    a slot that no longer holds a live element is set to `nil`. */
module GrowingRing {
  import opened RingCore

  /** `mask` is `len(items) - 1`, or 0 before the first growth. */
  datatype RingT<T> = RingT(items: seq<Option<T>>, mask: nat, tail: nat, head: nat, maxSize: int)

  /** A ring made by `NewRingT` and changed only by its operations: storage of
      no slots or a power of two of them, at most `maxSize` live elements,
      and `nil` in every slot outside the live region. */
  predicate Valid<T>(r: RingT<T>)
  {
    && 1 <= r.maxSize <= IntMax
    && (if |r.items| == 0 then r.mask == 0 else IsPow2(|r.items|) && |r.items| >= 2 && r.mask == |r.items| - 1)
    && Indices(r.head, r.tail, |r.items|)
    && Count(r.head, r.tail, |r.items|) <= r.maxSize
    && Cleared(r.items, r.head, r.tail)
  }

  /** `NewRingT(maxSize)`: panics when `maxSize < 1`; otherwise an empty ring
      with no storage. */
  function NewRingT<T>(maxSize: int): (res: Result<RingT<T>>)
    requires IsGoInt(maxSize)
    ensures res.Success? <==> maxSize >= 1
    ensures res.Success? ==> Valid(res.value) && res.value.items == [] && res.value.maxSize == maxSize
  {
    if maxSize < 1 then Failure("RingT size must be at least 1")
    else Success(RingT([], 0, 0, 0, maxSize))
  }

  /** `MaxSize()`: the bound on the element count, which `NewRingT` makes
      sure is at least 1. */
  function MaxSize<T>(r: RingT<T>): (m: int)
    ensures Valid(r) ==> 1 <= m <= IntMax
  {
    r.maxSize
  }

  /** `Len()`: `(head - tail) & mask`. */
  function Len<T>(r: RingT<T>): (n: nat)
    requires Valid(r)
    ensures n <= MaxSize(r)
    ensures n == 0 <==> r.head == r.tail
    ensures |r.items| > 0 ==> n < |r.items|
  {
    Count(r.head, r.tail, |r.items|)
  }

  /** `IsFull()`: one more `Add` would drop the oldest element, because the
      ring holds `maxSize` of them. */
  function IsFull<T>(r: RingT<T>): (full: bool)
    requires Valid(r)
    ensures full <==> |Content(r)| == MaxSize(r)
  {
    Len(r) == MaxSize(r)
  }

  /** The live elements, oldest first. */
  function Content<T>(r: RingT<T>): seq<Option<T>>
    requires Valid(r)
  {
    Window(r.items, r.tail, Len(r))
  }

  /** What `Next()` does to the ring: nothing when it is empty, otherwise the
      oldest slot is set to `nil` and the tail moves one slot on. */
  function Pop<T>(r: RingT<T>): (r': RingT<T>)
    requires Valid(r)
    ensures Valid(r') && |r'.items| == |r.items| && r'.mask == r.mask && r'.head == r.head
    ensures r'.maxSize == r.maxSize
    ensures Len(r') == if Len(r) == 0 then 0 else Len(r) - 1
  {
    if Len(r) == 0 then r
    else
      ClearedAfterPop(r.items, r.head, r.tail);
      RingT(r.items[r.tail := None], r.mask, Slot(r.tail, 1, |r.items|), r.head, r.maxSize)
  }

  /** `Next()`: the ring afterwards and the pointer returned, `nil` when the
      ring is empty. */
  function Next<T>(r: RingT<T>): (res: (RingT<T>, Option<T>))
    requires Valid(r)
    ensures Valid(res.0) && res.0.maxSize == r.maxSize
    ensures Len(r) == 0 ==> res.1 == None && Len(res.0) == 0
    ensures Len(r) > 0 ==> res.1 == Content(r)[0] && Len(res.0) == Len(r) - 1
  {
    (Pop(r), if Len(r) == 0 then None else r.items[r.tail])
  }

  /** `Peek(i)`: the element `i` places after the oldest, or `nil` when
      `uint(i)` is not below `Len()`, as for every negative `i`. */
  function Peek<T>(r: RingT<T>, i: int): (v: Option<T>)
    requires Valid(r) && IsGoInt(i)
    ensures i < 0 || i >= |Content(r)| ==> v == None
  {
    var length := Len(r);
    var ui := ToUint(i);
    if ui >= length then None else r.items[Slot(r.tail, ui, |r.items|)]
  }

  /** The loop `for i := 0; i < n; i++ { newItems[i] = r.Next() }` of the
      growth step, from iteration `i` on: each element taken from `r` goes to
      the next slot of `dst`. */
  function Drain<T>(r: RingT<T>, dst: seq<Option<T>>, i: nat, n: nat): (d: seq<Option<T>>)
    requires Valid(r) && i + Len(r) == n <= |dst|
    ensures |d| == |dst|
    ensures forall k :: 0 <= k < i ==> d[k] == dst[k]
    ensures forall k :: n <= k < |dst| ==> d[k] == dst[k]
    decreases n - i
  {
    if i == n then dst
    else
      var next := Next(r);
      Drain(next.0, dst[i := next.1], i + 1, n)
  }

  /** The storage size after growth: double, and at least 2. */
  function GrownSize(size: nat): nat
  {
    if size * 2 < 2 then 2 else size * 2
  }

  /** The growth step of `Add`: move the `n` live elements to the front of a
      fresh storage of `GrownSize` slots, all `nil` past them, with the tail
      at 0 and the head at `n`. */
  function Grow<T>(r: RingT<T>): (g: RingT<T>)
    requires Valid(r)
    ensures IsPow2(|g.items|) && |g.items| >= 2 && |g.items| >= 2 * |r.items|
    ensures g.tail == 0 && g.head == Len(r) && g.maxSize == r.maxSize
    ensures forall k :: Len(r) <= k < |g.items| ==> g.items[k] == None
  {
    var newSize := GrownSize(|r.items|);
    assert IsPow2(newSize) by {
      if |r.items| > 0 {
        assert newSize / 2 == |r.items|;
      }
    }
    var n := Len(r);
    var newItems := Drain(r, Fill(newSize, None), 0, n);
    RingT(newItems, newSize - 1, 0, n, r.maxSize)
  }

  /** The first two steps of `Add`: drop the oldest element when
      `Len() == maxSize`, then grow when there is no storage or no free slot. */
  function MakeRoom<T>(r: RingT<T>): (g: RingT<T>)
    requires Valid(r)
    ensures Valid(g) && g.maxSize == r.maxSize && |g.items| > 0
    ensures Len(g) < g.maxSize && Len(g) + 1 < |g.items|
  {
    var p := if Len(r) == r.maxSize then Pop(r) else r;
    GrowValid(p);
    if |p.items| == 0 || Len(p) == |p.items| - 1 then Grow(p) else p
  }

  /** The last step of `Add`: store `item` at the head and move the head on. */
  function Push<T>(g: RingT<T>, item: Option<T>): (p: RingT<T>)
    requires Valid(g) && |g.items| > 0
    ensures |p.items| == |g.items| && p.tail == g.tail && p.maxSize == g.maxSize
    ensures p.items[g.head] == item
    ensures forall j :: 0 <= j < |g.items| && j != g.head ==> p.items[j] == g.items[j]
  {
    RingT(g.items[g.head := item], g.mask, g.tail, Slot(g.head, 1, |g.items|), g.maxSize)
  }

  /** `Add(item)`: make room, then store `item` at the head. */
  function Add<T>(r: RingT<T>, item: Option<T>): (r': RingT<T>)
    requires Valid(r)
    ensures Valid(r') && r'.maxSize == r.maxSize
  {
    MakeRoomSpec(r);
    PushAppends(MakeRoom(r), item);
    Push(MakeRoom(r), item)
  }

  /** After making room the ring is valid, holds fewer than `maxSize`
      elements, has a free slot besides the unused one, and holds the old
      content less the oldest element when it held `maxSize` of them. */
  lemma MakeRoomSpec<T>(r: RingT<T>)
    requires Valid(r)
    ensures var g := MakeRoom(r);
            && Valid(g) && g.maxSize == r.maxSize && |g.items| > 0
            && Len(g) < g.maxSize && Len(g) + 1 < |g.items|
            && Content(g) == if IsFull(r) then Content(r)[1..] else Content(r)
  {
    var p := if Len(r) == r.maxSize then Pop(r) else r;
    if Len(r) == r.maxSize {
      NextTakesOldest(r);
    }
    GrowValid(p);
  }

  /** Storing at the head of a ring with room appends the element. */
  lemma PushAppends<T>(g: RingT<T>, item: Option<T>)
    requires Valid(g) && |g.items| > 0 && Len(g) < g.maxSize && Len(g) + 1 < |g.items|
    ensures Valid(Push(g, item)) && Push(g, item).maxSize == g.maxSize
    ensures Content(Push(g, item)) == Content(g) + [item]
  {
    ClearedAfterPush(g.items, g.head, g.tail, item);
    HeadIsSlot(g.head, g.tail, |g.items|);
    WindowPush(g.items, g.tail, Len(g), item);
  }

  /** Taking the remaining elements of `r` into `dst` from slot `i` on puts
      them at `i, i+1, ...` in order and leaves every other slot alone. */
  lemma {:induction false} DrainMovesContent<T>(r: RingT<T>, dst: seq<Option<T>>, i: nat, n: nat)
    requires Valid(r) && i + Len(r) == n <= |dst|
    ensures forall k :: 0 <= k < |dst| ==>
              Drain(r, dst, i, n)[k] == if i <= k < n then Content(r)[k - i] else dst[k]
    decreases n - i
  {
    if i < n {
      var next := Next(r);
      NextTakesOldest(r);
      DrainMovesContent(next.0, dst[i := next.1], i + 1, n);
    }
  }

  /** Growth leaves a valid ring, with the same content, starting at slot 0
      of a power-of-two storage that is twice as large (at least 2). */
  lemma GrowValid<T>(r: RingT<T>)
    requires Valid(r)
    ensures var g := Grow(r);
            && Valid(g) && Len(g) == Len(r) && g.maxSize == r.maxSize
            && |g.items| == GrownSize(|r.items|) && g.tail == 0 && g.head == Len(r)
            && Content(g) == Content(r)
  {
    var g := Grow(r);
    var newSize := GrownSize(|r.items|);
    var n := Len(r);
    var blank := Fill(newSize, None);
    DrainMovesContent(r, blank, 0, n);
    assert Len(g) == n;
    forall j | 0 <= j < newSize && Count(j, 0, newSize) >= n
      ensures g.items[j] == None
    {
    }
    var a := Content(g);
    forall k | 0 <= k < n
      ensures a[k] == Content(r)[k]
    {
    }
  }

  /** `NewRingT` fails exactly for a maximum below 1; otherwise the ring is
      empty and reports that maximum. */
  lemma NewRingTIsEmpty<T>(maxSize: int)
    requires IsGoInt(maxSize) && maxSize >= 1
    ensures var r := NewRingT<T>(maxSize).value;
            Content(r) == [] && MaxSize(r) == maxSize && !IsFull(r)
  {
  }

  /** `Len()` is the source's masked difference, with the zero mask of a ring
      that has no storage yet. */
  lemma LenIsMaskedDifference<T>(r: RingT<T>)
    requires Valid(r)
    ensures Len(r) == (r.head - r.tail) % (r.mask + 1)
    ensures |r.items| <= IntMax ==>
              Len(r) == BitAnd((r.head - r.tail) % UintModulus, r.mask)
  {
    if |r.items| > 0 {
      CountIsMaskedDifference(r.head, r.tail, |r.items|);
      if |r.items| <= IntMax {
        CountIsMasked(r.head, r.tail, |r.items|);
      }
    }
  }

  /** `Next()` returns `nil` and changes nothing on an empty ring; otherwise
      it returns the oldest element and removes it. */
  lemma NextTakesOldest<T>(r: RingT<T>)
    requires Valid(r)
    ensures Content(r) == [] ==> Next(r).0 == r && Next(r).1 == None
    ensures Content(r) != [] ==>
              && Next(r).1 == Content(r)[0]
              && Content(Next(r).0) == Content(r)[1..]
  {
    if Len(r) > 0 {
      var r' := Next(r).0;
      WindowDrop(r.items, r.tail, Len(r), 1);
      WindowFrame(r.items, r'.items, r'.tail, Len(r'));
    }
  }

  /** Every slot that `Next()` leaves outside the live region is `nil`: the
      ring keeps no reference to an element it no longer holds. */
  lemma NextClearsSlot<T>(r: RingT<T>)
    requires Valid(r) && Len(r) > 0
    ensures Next(r).0.items[r.tail] == None
    ensures forall j :: 0 <= j < |r.items| && j != r.tail ==> Next(r).0.items[j] == r.items[j]
  {
  }

  /** `Peek(i)` is the `i`-th oldest element for `0 <= i < Len()` and `nil`
      for every other `i`, negative ones included. */
  lemma PeekIsIndex<T>(r: RingT<T>, i: int)
    requires Valid(r) && IsGoInt(i)
    ensures Peek(r, i) == if 0 <= i < |Content(r)| then Content(r)[i] else None
  {
  }

  /** `Add(item)` appends `item`, after dropping the oldest element when the
      ring held `maxSize` of them, whether or not the storage grew. */
  lemma AddAppends<T>(r: RingT<T>, item: Option<T>)
    requires Valid(r)
    ensures Content(Add(r, item)) == (if IsFull(r) then Content(r)[1..] else Content(r)) + [item]
  {
    MakeRoomSpec(r);
    PushAppends(MakeRoom(r), item);
  }

  /** Growth happens exactly when there is no storage or no free slot, and
      then the storage doubles (to at least 2) with the content moved to
      the front. */
  lemma AddGrows<T>(r: RingT<T>, item: Option<T>)
    requires Valid(r)
    ensures var p := if Len(r) == r.maxSize then Pop(r) else r;
            var r' := Add(r, item);
            && (|p.items| == 0 || Len(p) == |p.items| - 1 ==> |r'.items| == GrownSize(|r.items|) && r'.tail == 0)
            && (|p.items| > 0 && Len(p) < |p.items| - 1 ==> r'.items == p.items[p.head := item])
  {
    var p := if Len(r) == r.maxSize then Pop(r) else r;
    GrowValid(p);
  }

  /** The `add` step of ringt_test.go: drop from the front while the expected
      elements number `MaxSize()`, then append. */
  function ExpectedAdd<T>(val: seq<Option<T>>, maxSize: int, item: Option<T>): (v: seq<Option<T>>)
    ensures 1 <= |v| <= |val| + 1 && v[|v| - 1] == item
    ensures 1 <= maxSize && |val| <= maxSize ==> |v| <= maxSize
    decreases |val|
  {
    if |val| == maxSize && |val| > 0 then ExpectedAdd(val[1..], maxSize, item) else val + [item]
  }

  /** `Add` agrees with the test's expected elements. */
  lemma AddMatchesTest<T>(r: RingT<T>, item: Option<T>)
    requires Valid(r)
    ensures Content(Add(r, item)) == ExpectedAdd(Content(r), MaxSize(r), item)
  {
    AddAppends(r, item);
  }

  /** One `Add` keeps the newest `maxSize` elements. */
  lemma AddKeepsNewest<T>(r: RingT<T>, item: Option<T>)
    requires Valid(r)
    ensures Content(Add(r, item)) == Newest(Content(r) + [item], r.maxSize)
  {
    AddAppends(r, item);
    NewestPush(Content(r), item, r.maxSize);
  }

  /** `Add` of each element of `xs` in turn. */
  function AddAll<T>(r: RingT<T>, xs: seq<Option<T>>): (r': RingT<T>)
    requires Valid(r)
    ensures Valid(r') && r'.maxSize == r.maxSize
    decreases |xs|
  {
    if xs == [] then r else AddAll(Add(r, xs[0]), xs[1..])
  }

  /** After any run of `Add`s the ring holds the newest `maxSize` elements of
      its old content followed by the added ones, in the order added. */
  lemma {:induction false} AddAllKeepsNewest<T>(r: RingT<T>, xs: seq<Option<T>>)
    requires Valid(r)
    ensures Content(AddAll(r, xs)) == Newest(Content(r) + xs, r.maxSize)
    decreases |xs|
  {
    if xs == [] {
      assert Content(r) + xs == Content(r);
    } else {
      AddKeepsNewest(r, xs[0]);
      AddAllKeepsNewest(Add(r, xs[0]), xs[1..]);
      NewestCons(Content(r), xs, r.maxSize);
    }
  }
}
