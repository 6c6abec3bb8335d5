/** `WeightedRingT`, the weighted pointer ring of weighted.go.

    Every element carries an integer weight, and the ring keeps the running
    sum of the weights of its live elements. `Add` makes the storage grow
    (doubling, to at least four slots) when it is empty or has no free slot
    besides the one that is always left unused, then drops the oldest
    elements while the new one would take the total past `maxWeight`, then
    stores the new one. The number of elements is not bounded. A slot that
    no longer holds a live element has its pointer set to `nil`; its weight
    is left as it was. */
module WeightedRing {
  import opened RingCore

  /** One live element: the pointer and its weight. */
  datatype Entry<T> = Entry(item: Option<T>, weight: int)

  /** The fields of the source's struct; `mask()` is computed from the
      storage length, so it is not a field here either. */
  datatype WeightedRingT<T> = WeightedRingT(
    maxWeight: int,
    weight: int,
    items: seq<Option<T>>,
    weights: seq<int>,
    tail: nat,
    head: nat)

  /** The sum of the weights of `es`. */
  function TotalWeight<T>(es: seq<Entry<T>>): int
    decreases |es|
  {
    if es == [] then 0 else es[0].weight + TotalWeight(es[1..])
  }

  /** The total weight of two runs of elements is the sum of theirs. */
  lemma {:induction false} TotalWeightAppend<T>(a: seq<Entry<T>>, b: seq<Entry<T>>)
    ensures TotalWeight(a + b) == TotalWeight(a) + TotalWeight(b)
    decreases |a|
  {
    if a == [] {
      assert a + b == b;
    } else {
      assert (a + b)[1..] == a[1..] + b;
      TotalWeightAppend(a[1..], b);
    }
  }

  /** A storage length the ring can have: none before the first `Add`,
      otherwise a power of two of at least four. */
  predicate StorageSize(size: nat)
  {
    size == 0 || (size >= 4 && IsPow2(size))
  }

  /** The two parallel slices have one length, and the indices are inside
      them. */
  predicate Shape<T>(r: WeightedRingT<T>)
  {
    && |r.items| == |r.weights|
    && StorageSize(|r.items|)
    && Indices(r.head, r.tail, |r.items|)
  }

  /** `Len()`: `(head - tail) & mask()`. With no storage `mask()` is the
      all-ones `uint`, and both indices are 0. */
  function Len<T>(r: WeightedRingT<T>): (n: nat)
    requires Shape(r)
    ensures n == 0 <==> r.head == r.tail
    ensures |r.items| > 0 ==> n < |r.items|
  {
    Count(r.head, r.tail, |r.items|)
  }

  /** Pairs each pointer with the weight at the same position. */
  function Zip<T>(xs: seq<Option<T>>, ws: seq<int>): (es: seq<Entry<T>>)
    requires |xs| == |ws|
    ensures |es| == |xs|
  {
    seq(|xs|, k requires 0 <= k < |xs| => Entry(xs[k], ws[k]))
  }

  lemma ZipDrop<T>(xs: seq<Option<T>>, ws: seq<int>)
    requires |xs| == |ws| > 0
    ensures Zip(xs[1..], ws[1..]) == Zip(xs, ws)[1..]
  {
  }

  lemma ZipPush<T>(xs: seq<Option<T>>, ws: seq<int>, x: Option<T>, w: int)
    requires |xs| == |ws|
    ensures Zip(xs + [x], ws + [w]) == Zip(xs, ws) + [Entry(x, w)]
  {
  }

  /** The live elements, oldest first. */
  function Content<T>(r: WeightedRingT<T>): seq<Entry<T>>
    requires Shape(r)
  {
    Zip(Window(r.items, r.tail, Len(r)), Window(r.weights, r.tail, Len(r)))
  }

  /** A ring made by `NewWeightedRingT` (or Go's zero value) and changed only
      by its operations: `weight` is the total weight of the live elements,
      and every slot outside the live region holds `nil`. */
  predicate Valid<T>(r: WeightedRingT<T>)
  {
    && Shape(r)
    && Cleared(r.items, r.head, r.tail)
    && r.weight == TotalWeight(Content(r))
  }

  /** `NewWeightedRingT(maxWeight)`: an empty ring with no storage. Any
      maximum is accepted, a negative one included. */
  function NewWeightedRingT<T>(maxWeight: int): (r: WeightedRingT<T>)
    ensures Valid(r) && Content(r) == [] && r.maxWeight == maxWeight
  {
    WeightedRingT(maxWeight, 0, [], [], 0, 0)
  }

  /** `Weight()`: the running total, which on a valid ring is the total
      weight of the live elements. */
  function Weight<T>(r: WeightedRingT<T>): (w: int)
    ensures Valid(r) ==> w == TotalWeight(Content(r))
  {
    r.weight
  }

  /** What `Next()` does to a non-empty ring: the running total loses the
      oldest weight, the oldest slot's pointer becomes `nil`, and the tail
      moves one slot on. */
  function Pop<T>(r: WeightedRingT<T>): (p: WeightedRingT<T>)
    requires Shape(r) && Len(r) > 0
    ensures Shape(p) && p.head == r.head && p.weights == r.weights && p.maxWeight == r.maxWeight
    ensures p.weight == r.weight - r.weights[r.tail] && p.tail == Slot(r.tail, 1, |r.items|)
  {
    WeightedRingT(r.maxWeight, r.weight - r.weights[r.tail], r.items[r.tail := None], r.weights,
                  Slot(r.tail, 1, |r.items|), r.head)
  }

  /** Popping removes exactly the oldest element, which sits at the tail. */
  lemma PopTakesOldest<T>(r: WeightedRingT<T>)
    requires Shape(r) && Len(r) > 0
    ensures Shape(Pop(r)) && Len(Pop(r)) == Len(r) - 1
    ensures Content(r)[0] == Entry(r.items[r.tail], r.weights[r.tail])
    ensures Content(Pop(r)) == Content(r)[1..]
  {
    var p := Pop(r);
    var n := Len(r);
    assert Len(p) == n - 1;
    WindowDrop(r.items, r.tail, n, 1);
    WindowDrop(r.weights, r.tail, n, 1);
    WindowFrame(r.items, p.items, p.tail, n - 1);
    ZipDrop(Window(r.items, r.tail, n), Window(r.weights, r.tail, n));
    assert Content(p) == Content(r)[1..];
  }

  /** Popping keeps the ring valid: the pointer it drops is cleared and its
      weight leaves the running total. */
  lemma PopKeepsValid<T>(r: WeightedRingT<T>)
    requires Valid(r) && Len(r) > 0
    ensures Valid(Pop(r)) && Weight(Pop(r)) == Weight(r) - Content(r)[0].weight
  {
    PopTakesOldest(r);
    ClearedAfterPop(r.items, r.head, r.tail);
    var c := Content(r);
    assert TotalWeight(c) == c[0].weight + TotalWeight(c[1..]);
  }

  /** The three results of `Next()`, with the ring afterwards. */
  datatype NextResult<T> = NextResult(ring: WeightedRingT<T>, haveItem: bool, item: Option<T>, weight: int)

  /** `Next()`: `(false, nil, 0)` on an empty ring; otherwise the oldest
      pointer and its weight, which leave the ring. */
  function Next<T>(r: WeightedRingT<T>): (res: NextResult<T>)
    requires Shape(r)
    ensures Shape(res.ring) && res.ring.maxWeight == r.maxWeight
    ensures |res.ring.items| == |r.items| && res.ring.head == r.head
    ensures Len(res.ring) == if Len(r) == 0 then 0 else Len(r) - 1
  {
    if Len(r) == 0 then NextResult(r, false, None, 0)
    else
      PopTakesOldest(r);
      NextResult(Pop(r), true, r.items[r.tail], r.weights[r.tail])
  }

  /** `Next()` reports nothing and changes nothing on an empty ring;
      otherwise it returns the oldest element, removes it, and takes its
      weight off the running total. */
  lemma NextTakesOldest<T>(r: WeightedRingT<T>)
    requires Shape(r)
    ensures Content(r) == [] ==> Next(r) == NextResult(r, false, None, 0)
    ensures Content(r) != [] ==>
              var res := Next(r);
              && res.haveItem
              && Entry(res.item, res.weight) == Content(r)[0]
              && Content(res.ring) == Content(r)[1..]
              && Weight(res.ring) == Weight(r) - res.weight
  {
    if Len(r) > 0 {
      PopTakesOldest(r);
    }
  }

  /** `Next()` keeps the ring valid: the running total stays the total
      weight of what is left. */
  lemma NextKeepsValid<T>(r: WeightedRingT<T>)
    requires Valid(r)
    ensures Valid(Next(r).ring)
  {
    if Len(r) > 0 {
      PopKeepsValid(r);
    }
  }

  /** `Next()` sets the pointer it returned to `nil` and touches no other
      pointer and no weight. */
  lemma NextClearsSlot<T>(r: WeightedRingT<T>)
    requires Shape(r) && Len(r) > 0
    ensures Next(r).ring.items[r.tail] == None
    ensures forall j :: 0 <= j < |r.items| && j != r.tail ==> Next(r).ring.items[j] == r.items[j]
    ensures Next(r).ring.weights == r.weights
  {
  }

  /** The loop `for i := 0; i < n; i++ { _, item, w := r.Next(); ... }` of
      the growth step, from iteration `i` on: each pointer and weight taken
      from `r` go to the next position of the new slices. */
  function Drain<T>(r: WeightedRingT<T>, xs: seq<Option<T>>, ws: seq<int>, i: nat, n: nat)
    : (d: (seq<Option<T>>, seq<int>))
    requires Shape(r) && i + Len(r) == n <= |xs| && |xs| == |ws|
    ensures |d.0| == |xs| && |d.1| == |ws|
    ensures forall k :: 0 <= k < i || n <= k < |xs| ==> d.0[k] == xs[k] && d.1[k] == ws[k]
    decreases n - i
  {
    if i == n then (xs, ws)
    else
      var next := Next(r);
      Drain(next.ring, xs[i := next.item], ws[i := next.weight], i + 1, n)
  }

  /** The drain loop on a sequence of elements: `c[0]` goes to position
      `i`, `c[1]` to `i + 1`, and so on. */
  function DrainSeq<T>(c: seq<Entry<T>>, xs: seq<Option<T>>, ws: seq<int>, i: nat)
    : (d: (seq<Option<T>>, seq<int>))
    requires i + |c| <= |xs| && |xs| == |ws|
    ensures |d.0| == |xs| && |d.1| == |ws|
    decreases |c|
  {
    if c == [] then (xs, ws)
    else DrainSeq(c[1..], xs[i := c[0].item], ws[i := c[0].weight], i + 1)
  }

  /** Draining a ring takes its elements in order, oldest first. */
  lemma {:induction false} DrainFollowsContent<T>(r: WeightedRingT<T>, xs: seq<Option<T>>, ws: seq<int>, i: nat, n: nat)
    requires Shape(r) && i + Len(r) == n <= |xs| && |xs| == |ws|
    ensures Drain(r, xs, ws, i, n) == DrainSeq(Content(r), xs, ws, i)
    decreases n - i
  {
    if i < n {
      var next := Next(r);
      PopTakesOldest(r);
      DrainFollowsContent(next.ring, xs[i := next.item], ws[i := next.weight], i + 1, n);
      assert Content(next.ring) == Content(r)[1..];
      assert next.item == Content(r)[0].item && next.weight == Content(r)[0].weight;
    } else {
      assert Content(r) == [];
    }
  }

  /** `DrainSeq` puts the elements at positions `i, i+1, ...` and leaves
      every other position alone. */
  lemma {:induction false} DrainSeqPlaces<T>(c: seq<Entry<T>>, xs: seq<Option<T>>, ws: seq<int>, i: nat)
    requires i + |c| <= |xs| && |xs| == |ws|
    ensures forall k :: 0 <= k < |xs| ==>
              DrainSeq(c, xs, ws, i).0[k] == if i <= k < i + |c| then c[k - i].item else xs[k]
    ensures forall k :: 0 <= k < |ws| ==>
              DrainSeq(c, xs, ws, i).1[k] == if i <= k < i + |c| then c[k - i].weight else ws[k]
    decreases |c|
  {
    if c != [] {
      DrainSeqPlaces(c[1..], xs[i := c[0].item], ws[i := c[0].weight], i + 1);
    }
  }

  /** The storage size after growth: double, and at least 4. */
  function GrownSize(size: nat): nat
  {
    if size * 2 < 4 then 4 else size * 2
  }

  /** The growth step of `Add`: move the `n` live elements to the front of
      fresh slices of `GrownSize` slots, with the tail at 0, the head at `n`
      and the running total restored to what it was before the loop. */
  function Grow<T>(r: WeightedRingT<T>): (g: WeightedRingT<T>)
    requires Valid(r)
    ensures Shape(g) && |g.items| >= 4 && |g.items| >= 2 * |r.items|
    ensures g.tail == 0 && g.head == Len(r) && g.weight == r.weight && g.maxWeight == r.maxWeight
    ensures forall k :: Len(r) <= k < |g.items| ==> g.items[k] == None
  {
    var newSize := GrownSize(|r.items|);
    assert IsPow2(newSize) by {
      if |r.items| > 0 {
        assert newSize / 2 == |r.items|;
      }
    }
    var n := Len(r);
    var d := Drain(r, Fill(newSize, None), Fill(newSize, 0), 0, n);
    WeightedRingT(r.maxWeight, r.weight, d.0, d.1, 0, n)
  }

  /** Growth keeps the elements, their order and the total weight, and
      leaves them at the front of a power-of-two storage twice as large
      (at least 4). */
  lemma GrowValid<T>(r: WeightedRingT<T>)
    requires Valid(r)
    ensures var g := Grow(r);
            && Valid(g) && g.maxWeight == r.maxWeight
            && |g.items| == GrownSize(|r.items|) && g.tail == 0 && g.head == Len(r)
            && Content(g) == Content(r) && Weight(g) == Weight(r)
  {
    var g := Grow(r);
    var newSize := GrownSize(|r.items|);
    var n := Len(r);
    DrainFollowsContent(r, Fill(newSize, None), Fill(newSize, 0), 0, n);
    DrainSeqPlaces(Content(r), Fill(newSize, None), Fill(newSize, 0), 0);
    assert Len(g) == n;
    forall j | 0 <= j < newSize && Count(j, 0, newSize) >= n
      ensures g.items[j] == None
    {
    }
    var a := Content(g);
    forall k | 0 <= k < n
      ensures a[k] == Content(r)[k]
    {
    }
    assert a == Content(r);
  }

  /** The first step of `Add`: grow when there is no storage or no free
      slot. */
  function MakeRoom<T>(r: WeightedRingT<T>): (g: WeightedRingT<T>)
    requires Valid(r)
    ensures Valid(g) && g.maxWeight == r.maxWeight && g.weight == r.weight
    ensures |g.items| > 0 && Len(g) + 1 < |g.items|
  {
    GrowValid(r);
    if |r.items| == 0 || Len(r) == |r.items| - 1 then Grow(r) else r
  }

  /** After making room the ring holds the same elements and weight and has
      a free slot besides the unused one. */
  lemma MakeRoomSpec<T>(r: WeightedRingT<T>)
    requires Valid(r)
    ensures var g := MakeRoom(r);
            && Valid(g) && g.maxWeight == r.maxWeight
            && |g.items| > 0 && Len(g) + 1 < |g.items|
            && Content(g) == Content(r) && Weight(g) == Weight(r)
  {
    GrowValid(r);
  }

  /** The eviction loop of `Add`: drop the oldest element while the new
      weight `w` would take the total past `maxWeight` and the ring is not
      empty. The loop calls `Next()` only for its effect on the ring. */
  function Evict<T>(r: WeightedRingT<T>, w: int): (e: WeightedRingT<T>)
    requires Shape(r)
    ensures Shape(e) && e.maxWeight == r.maxWeight
    ensures |e.items| == |r.items| && e.head == r.head && Len(e) <= Len(r)
    decreases Len(r)
  {
    if r.weight + w > r.maxWeight && Len(r) != 0 then
      PopTakesOldest(r);
      Evict(Pop(r), w)
    else
      r
  }

  /** Eviction keeps the ring valid. */
  lemma {:induction false} EvictKeepsValid<T>(r: WeightedRingT<T>, w: int)
    requires Valid(r)
    ensures Valid(Evict(r, w))
    decreases Len(r)
  {
    if r.weight + w > r.maxWeight && Len(r) != 0 {
      PopTakesOldest(r);
      PopKeepsValid(r);
      EvictKeepsValid(Pop(r), w);
    }
  }

  /** The last step of `Add`: store `item` and `w` at the head, add `w` to
      the running total and move the head on. */
  function Push<T>(e: WeightedRingT<T>, w: int, item: Option<T>): (p: WeightedRingT<T>)
    requires Valid(e) && |e.items| > 0 && Len(e) + 1 < |e.items|
    ensures Shape(p) && |p.items| == |e.items| && p.tail == e.tail
    ensures p.maxWeight == e.maxWeight && p.weight == e.weight + w
    ensures p.items[e.head] == item && p.weights[e.head] == w
    ensures forall j :: 0 <= j < |e.items| && j != e.head ==> p.items[j] == e.items[j] && p.weights[j] == e.weights[j]
  {
    WeightedRingT(e.maxWeight, e.weight + w, e.items[e.head := item], e.weights[e.head := w],
                  e.tail, Slot(e.head, 1, |e.items|))
  }

  /** Storing at the head of a ring with room appends the element and adds
      its weight. */
  lemma PushAppends<T>(e: WeightedRingT<T>, w: int, item: Option<T>)
    requires Valid(e) && |e.items| > 0 && Len(e) + 1 < |e.items|
    ensures Valid(Push(e, w, item)) && Push(e, w, item).maxWeight == e.maxWeight
    ensures Content(Push(e, w, item)) == Content(e) + [Entry(item, w)]
    ensures Weight(Push(e, w, item)) == Weight(e) + w
    ensures |Push(e, w, item).items| == |e.items|
  {
    var n := Len(e);
    ClearedAfterPush(e.items, e.head, e.tail, item);
    HeadIsSlot(e.head, e.tail, |e.items|);
    WindowPush(e.items, e.tail, n, item);
    WindowPush(e.weights, e.tail, n, w);
    ZipPush(Window(e.items, e.tail, n), Window(e.weights, e.tail, n), item, w);
    TotalWeightAppend(Content(e), [Entry(item, w)]);
    assert TotalWeight([Entry(item, w)]) == w;
  }

  /** `Add(weight, item)`: make room, drop the oldest elements while the
      new weight does not fit, then store the new element. */
  function Add<T>(r: WeightedRingT<T>, w: int, item: Option<T>): (r': WeightedRingT<T>)
    requires Valid(r)
    ensures Valid(r') && r'.maxWeight == r.maxWeight
    ensures 1 <= Len(r') <= Len(r) + 1
    ensures Content(r')[Len(r') - 1] == Entry(item, w)
  {
    MakeRoomSpec(r);
    EvictKeepsValid(MakeRoom(r), w);
    var e := Evict(MakeRoom(r), w);
    PushAppends(e, w, item);
    Push(e, w, item)
  }

  /** The `add` step of weighted_test.go on the expected elements `val` and
      their total `valW`: drop from the front while the new element does not
      fit, then append it. */
  function ExpectedAdd<T>(val: seq<Entry<T>>, valW: int, maxWeight: int, x: Entry<T>)
    : (res: (seq<Entry<T>>, int))
    ensures 1 <= |res.0| <= |val| + 1
    ensures res.0[|res.0| - 1] == x
    decreases |val|
  {
    if valW + x.weight > maxWeight && |val| != 0 then
      ExpectedAdd(val[1..], valW - val[0].weight, maxWeight, x)
    else
      (val + [x], valW + x.weight)
  }

  /** The expected elements are the newest of the old ones followed by the
      new one. */
  lemma {:induction false} ExpectedAddKeepsSuffix<T>(val: seq<Entry<T>>, valW: int, maxWeight: int, x: Entry<T>)
    ensures var v := ExpectedAdd(val, valW, maxWeight, x).0;
            v == val[|val| + 1 - |v|..] + [x]
    decreases |val|
  {
    if valW + x.weight > maxWeight && |val| != 0 {
      var v := ExpectedAdd(val, valW, maxWeight, x).0;
      ExpectedAddKeepsSuffix(val[1..], valW - val[0].weight, maxWeight, x);
      DropAfterDrop(val, |val| - |v|);
    } else {
      assert val[0..] == val;
    }
  }

  lemma DropAfterDrop<T>(s: seq<T>, m: nat)
    requires m < |s|
    ensures s[1..][m..] == s[m + 1..]
  {
  }

  /** Started from the true total, the expectation stops once the new
      element fits after the `m` old ones it dropped (or when none is left),
      and its total is that of what it keeps. */
  lemma {:induction false} ExpectedAddFits<T>(val: seq<Entry<T>>, valW: int, maxWeight: int, x: Entry<T>)
    requires valW == TotalWeight(val)
    ensures var res := ExpectedAdd(val, valW, maxWeight, x);
            var m := |val| + 1 - |res.0|;
            && (TotalWeight(val[m..]) + x.weight <= maxWeight || m == |val|)
            && res.1 == TotalWeight(val[m..]) + x.weight
    decreases |val|
  {
    if valW + x.weight > maxWeight && |val| != 0 {
      var rest := val[1..];
      var res := ExpectedAdd(rest, valW - val[0].weight, maxWeight, x);
      var m := |val| + 1 - |res.0|;
      assert TotalWeight(val) == val[0].weight + TotalWeight(rest);
      ExpectedAddFits(rest, valW - val[0].weight, maxWeight, x);
      assert val[m..] == rest[m - 1..];
    } else {
      assert val[0..] == val;
    }
  }

  /** The expectation drops no more old elements than it must: after
      dropping fewer than `m` of them the new element would not fit. */
  lemma {:induction false} ExpectedAddDropsLeast<T>(val: seq<Entry<T>>, valW: int, maxWeight: int, x: Entry<T>)
    requires valW == TotalWeight(val)
    ensures var m := |val| + 1 - |ExpectedAdd(val, valW, maxWeight, x).0|;
            forall j :: 0 <= j < m ==> TotalWeight(val[j..]) + x.weight > maxWeight
    decreases |val|
  {
    if valW + x.weight > maxWeight && |val| != 0 {
      var rest := val[1..];
      var m := |val| + 1 - |ExpectedAdd(rest, valW - val[0].weight, maxWeight, x).0|;
      assert TotalWeight(val) == val[0].weight + TotalWeight(rest);
      ExpectedAddDropsLeast(rest, valW - val[0].weight, maxWeight, x);
      forall j | 0 <= j < m
        ensures TotalWeight(val[j..]) + x.weight > maxWeight
      {
        if j == 0 {
          assert val[j..] == val;
        } else {
          assert val[j..] == rest[j - 1..];
        }
      }
    }
  }

  /** The test's expectation, started from a ring's elements and total, is
      the same as started after that ring's eviction loop. */
  lemma {:induction false} EvictMatchesTest<T>(r: WeightedRingT<T>, w: int, item: Option<T>)
    requires Shape(r)
    ensures var e := Evict(r, w);
            var res := ExpectedAdd(Content(r), r.weight, r.maxWeight, Entry(item, w));
            res.0 == Content(e) + [Entry(item, w)] && res.1 == e.weight + w
    decreases Len(r)
  {
    var c := Content(r);
    var x := Entry(item, w);
    if r.weight + w > r.maxWeight && Len(r) != 0 {
      var p := Pop(r);
      PopTakesOldest(r);
      EvictStep(r, w);
      EvictMatchesTest(p, w, item);
      ExpectedAddStep(c, r.weight, r.maxWeight, x, Content(p), p.weight);
    }
  }

  /** One round of the ring's eviction loop: over the limit, evicting from
      the ring is evicting from the ring without its oldest element. */
  lemma EvictStep<T>(r: WeightedRingT<T>, w: int)
    requires Shape(r) && r.weight + w > r.maxWeight && Len(r) != 0
    ensures Evict(r, w) == Evict(Pop(r), w)
  {
  }

  /** One round of the reference's loop: drop the oldest expected element and
      its weight. */
  lemma ExpectedAddStep<T>(val: seq<Entry<T>>, valW: int, maxWeight: int, x: Entry<T>,
                           rest: seq<Entry<T>>, restW: int)
    requires valW + x.weight > maxWeight && |val| != 0
    requires rest == val[1..] && restW == valW - val[0].weight
    ensures ExpectedAdd(val, valW, maxWeight, x) == ExpectedAdd(rest, restW, maxWeight, x)
  {
  }

  /** `Add` agrees with the test's expected elements and total weight. */
  lemma AddMatchesTest<T>(r: WeightedRingT<T>, w: int, item: Option<T>)
    requires Valid(r)
    ensures var res := ExpectedAdd(Content(r), Weight(r), r.maxWeight, Entry(item, w));
            res.0 == Content(Add(r, w, item)) && res.1 == Weight(Add(r, w, item))
  {
    MakeRoomSpec(r);
    var g := MakeRoom(r);
    EvictMatchesTest(g, w, item);
    EvictKeepsValid(g, w);
    PushAppends(Evict(g, w), w, item);
  }

  /** After `Add` the ring holds the newest of its old elements followed by
      the new one, and that is one element at least. */
  lemma AddKeepsSuffix<T>(r: WeightedRingT<T>, w: int, item: Option<T>)
    requires Valid(r)
    ensures var c := Content(Add(r, w, item));
            && 1 <= |c| <= |Content(r)| + 1
            && c == Content(r)[|Content(r)| + 1 - |c|..] + [Entry(item, w)]
  {
    AddMatchesTest(r, w, item);
    ExpectedAddKeepsSuffix(Content(r), Weight(r), r.maxWeight, Entry(item, w));
  }

  /** The running total stays within `maxWeight`, except when the new
      element alone exceeds it, in which case it is the only element. */
  lemma AddWeightBound<T>(r: WeightedRingT<T>, w: int, item: Option<T>)
    requires Valid(r)
    ensures Weight(Add(r, w, item)) <= r.maxWeight || Content(Add(r, w, item)) == [Entry(item, w)]
  {
    var c := Content(r);
    var x := Entry(item, w);
    AddMatchesTest(r, w, item);
    ExpectedAddKeepsSuffix(c, Weight(r), r.maxWeight, x);
    ExpectedAddFits(c, Weight(r), r.maxWeight, x);
    var v := ExpectedAdd(c, Weight(r), r.maxWeight, x).0;
    if |v| == 1 {
      assert c[|c|..] == [];
    }
  }

  /** `Add` drops as few old elements as it can: the number dropped is the
      least `m` for which the remaining ones and the new one fit, or all of
      them when none does. */
  lemma AddEvictsLeast<T>(r: WeightedRingT<T>, w: int, item: Option<T>)
    requires Valid(r)
    ensures var m := Len(r) + 1 - Len(Add(r, w, item));
            && (TotalWeight(Content(r)[m..]) + w <= r.maxWeight || m == Len(r))
            && forall j :: 0 <= j < m ==> TotalWeight(Content(r)[j..]) + w > r.maxWeight
  {
    AddMatchesTest(r, w, item);
    ExpectedAddFits(Content(r), Weight(r), r.maxWeight, Entry(item, w));
    ExpectedAddDropsLeast(Content(r), Weight(r), r.maxWeight, Entry(item, w));
  }

  /** Growth happens exactly when there is no storage or no free slot, and
      then the storage doubles (to at least 4); otherwise its length is
      unchanged. */
  lemma AddGrows<T>(r: WeightedRingT<T>, w: int, item: Option<T>)
    requires Valid(r)
    ensures |Add(r, w, item).items| ==
              if |r.items| == 0 || Len(r) == |r.items| - 1 then GrownSize(|r.items|) else |r.items|
  {
    GrowValid(r);
    MakeRoomSpec(r);
    EvictKeepsValid(MakeRoom(r), w);
    PushAppends(Evict(MakeRoom(r), w), w, item);
  }

  /** `peek(i)`: the pointer and weight in slot `(tail + i) & mask()`, the
      sum wrapping as a `uint`. With no storage the slice index is out of
      range, which panics; otherwise masking with `len - 1` keeps the
      remainder modulo the power-of-two length, which is a valid slot. */
  function Peek<T>(r: WeightedRingT<T>, i: nat): (res: Result<(Option<T>, int)>)
    requires Shape(r) && i < UintModulus
    ensures res.Failure? <==> |r.items| == 0
    ensures res.Success? ==>
              var j := ((r.tail + i) % UintModulus) % |r.items|;
              res.value == (r.items[j], r.weights[j])
  {
    if |r.items| == 0 then Failure("index out of range")
    else
      var x := (r.tail + i) % UintModulus;
      MaskIsMod(x, |r.items|);
      var j := BitAnd(x, |r.items| - 1);
      Success((r.items[j], r.weights[j]))
  }

  /** `peek(i)` panics with no storage. Otherwise it is the `k`-th oldest
      element, `k` being `i` modulo the storage length, when `k < Len()`,
      and a `nil` pointer (with whatever weight the slot last held) for
      every other `i`. */
  lemma PeekIsIndex<T>(r: WeightedRingT<T>, i: nat)
    requires Valid(r) && i < UintModulus && |r.items| <= IntMax
    ensures |r.items| == 0 <==> Peek(r, i).Failure?
    ensures |r.items| > 0 && i % |r.items| < Len(r) ==>
              var e := Content(r)[i % |r.items|];
              Peek(r, i) == Success((e.item, e.weight))
    ensures |r.items| > 0 && i % |r.items| >= Len(r) ==> Peek(r, i).value.0 == None
  {
    if |r.items| > 0 {
      var size := |r.items|;
      var k := i % size;
      WrappedSlot(r.tail, i, size);
      var j := Slot(r.tail, k, size);
      assert Count(j, r.tail, size) == k;
      if k < Len(r) {
        assert Content(r)[k] == Entry(r.items[j], r.weights[j]);
      }
    }
  }

  /** The slot `(tail + i) & mask()` with the sum wrapping as a `uint` is the
      slot `i mod len` places after the tail: the length, a power of two no
      larger than `2^64`, divides `2^64`. */
  lemma WrappedSlot(tail: nat, i: nat, size: nat)
    requires IsPow2(size) && tail < size <= IntMax && i < UintModulus
    ensures ((tail + i) % UintModulus) % size == Slot(tail, i % size, size)
  {
    WordWrapKeepsRemainder(tail + i, size);
    SlotOfSum(tail, i, size);
  }
}
