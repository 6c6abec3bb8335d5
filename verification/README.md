# ringbuffer in Dafny

A model of the Go package `ringbuffer`. The package holds four circular buffers, and all four index their storage the same way:

- the storage length is 0 or a power of two;
- the element count is `(head - tail) & (len - 1)`;
- `head == tail` means empty;
- one slot is always left unused, so at most `len - 1` elements are live.

The model has one module per buffer, plus a shared core:

- `RingCore` (ring_core.dfy) holds the shared index discipline:
  - `Count` is `(head - tail) & mask` and `Slot` is `(i + k) & mask`. Both are written linearly on indices below the storage length.
  - `BitAnd` is Go's `&` on non-negative integers. `MaskIsMod` shows that `x & (n - 1)` is `x mod n` for a power of two `n`. `CountIsMasked` and `SlotIsMasked` use it to show that `Count` and `Slot` equal the source's masked `uint` formulas, wrap-around of the difference included.
  - `Window` is the live elements, oldest first.
  - `Cleared` says every slot outside the live region holds `nil`.
  - `Fill`, `Copy` and `CopyInto` model `make` and Go's `copy`.
  - `Option` and `Result` model pointers and panics.
- `ByteRing` (ringbuffer.go's `Ring`) is the byte FIFO:
  - the stream calls `Write` and `Read`;
  - the zero-copy calls `DirectWrite` and `DirectRead`, which hand out a slice of the storage that stops at its physical end;
  - `ensureCapacity`, which doubles the storage from 64 bytes and, when the unread region wraps, copies its front part just past the old end.
- `BoundedRing` (`RingP`) is the fixed-size value ring. When it is full, it overwrites the oldest element.
- `GrowingRing` (`RingT`) is the pointer ring bounded by `maxSize`. It grows lazily by doubling and sets vacated slots to `nil`.
- `WeightedRing` (`WeightedRingT`) is the pointer ring bounded by total weight:
  - it grows by doubling, to at least 4 slots;
  - it evicts the oldest elements until the new one fits;
  - it keeps a running total of the weights.

Each ring is an immutable datatype with two companions:

- a validity predicate, the representation invariant;
- an abstraction function `Content` to the live elements, oldest first. For `Ring` this is the `ringContent` helper of ringbuffer_test.go.

Each operation is a pure function. Lemmas relate each operation to the abstract sequence. For three rings they also relate it to the `val` reference model in the package's tests (`ExpectedAdd`): `RingP`, `RingT` and `WeightedRingT`.

Several Go idioms are modelled explicitly:

- A Go pointer `*T` is an `Option<T>`, with `nil` as `None`.
- The zero value of a type parameter is passed in as `zero`.
- A panic is a `Failure` result.
- A slice handed out by the direct calls is a value: its bytes plus the storage index of its first byte.
- `uint(i)` of a negative `int` is `ToUint`, which adds 2^64.

The struct comment at weighted.go:21 claims that the total weight never exceeds `MaxWeight`. The code does not guarantee this. A single element heavier than `MaxWeight` is stored on its own and leaves the total above the maximum, as the comment at weighted.go:85 intends. The model follows the code. `WeightedRing.AddWeightBound` states the property that actually holds.

## Model

| member | source | states |
|---|---|---|
| RingCore.PowerOfTwoTest | ringp.go:28 | for `n >= 1`, `n & (n - 1) == 0` holds exactly when `n` is a power of two |
| RingCore.CountIsMaskedDifference | ringbuffer.go:31-33 | for indices inside a power-of-two storage, the linear `Count` equals `(head - tail)` reduced modulo the length, which is what the source's `& mask` computes for a power-of-two length |
| RingCore.SlotIsMaskedSum | ringp.go:62 | the linear `Slot` equals `(i + k)` modulo the power-of-two length, the source's `(i + k) & mask` |
| RingCore.MaskIsMod | ringbuffer.go:107-109 | for a power of two `n`, `x & (n - 1)` is `x mod n`: masking with `len - 1` reduces modulo the storage length |
| RingCore.CountIsMasked | ringbuffer.go:31-33 | for indices inside a power-of-two storage that a Go slice can hold, `Count` is exactly `(head - tail) & (len - 1)`, with the difference wrapped modulo 2^64 as a `uint` when `head < tail` |
| RingCore.SlotIsMasked | ringp.go:77 | `Slot(i, k)` is exactly the `uint` expression `(i + k) & (len - 1)` |
| RingCore.ToUint | ringp.go:72 | `uint(i)` is `i` for non-negative `i` and is at least 2^63 for negative `i` |
| ByteRing.ZeroIsEmpty | ringbuffer.go:23-28 | the zero-value `Ring` has no unread bytes |
| ByteRing.Len | ringbuffer.go:30-33 | the count is 0 exactly when `head == tail`, it is 0 with no storage, and it is below the storage length otherwise |
| ByteRing.LenIsMaskedDifference | ringbuffer.go:31-33 | with storage, `Len` is `(head - tail) mod len(data)`, and for any storage a Go slice can hold it is exactly the wrapped `uint` difference masked with `len(data) - 1` |
| ByteRing.ContentIsRingContent | ringbuffer_test.go:14-32 | the model's content (a window from the tail) equals the test's `ringContent`, which copies the run up to the head or the end and then the wrapped part, and it has `Len()` bytes |
| ByteRing.GrowCap | ringbuffer.go:119-125 | the doubling loop ends at a capacity that is at least the need and the start, stays a power of two, and is the first doubling that reaches the need |
| ByteRing.EnsureCapacity | ringbuffer.go:112-139 | afterwards the storage holds `forBytes + Len() + 1`; the ring is unchanged when it already did; otherwise the storage at least doubles and is 64 or the least power of two that fits; the tail stays, and a wrapped head moves past the old end so that `tail <= head` |
| ByteRing.EnsureCapacityKeepsContent | ringbuffer.go:112-139 | growth keeps the unread bytes exactly, oldest first |
| ByteRing.GrownSlots | ringbuffer.go:126-138 | after growth the `k`-th unread byte sits at slot `tail + k`, one contiguous run |
| ByteRing.DirectWrite | ringbuffer.go:44-52 | the returned slice is never nil, is at most `numBytes` long, lies inside the storage, and leaves the head at slot 0 when it is short; the storage exceeds `2 * Len() + numBytes`, because `Len()` is counted twice |
| ByteRing.DirectWriteAppends | ringbuffer.go:40-41 | `Len()` grows by exactly the slice length and the unread bytes become the old ones followed by the slice |
| ByteRing.DirectWriteStart | ringbuffer.go:45-49 | the slice starts at the old head, moved past the old end when the storage grew while wrapped; the tail does not move |
| ByteRing.DirectWriteSlice | ringbuffer.go:46-49 | the slice is the storage from its start, `min(numBytes, len(data) - start)` bytes long |
| ByteRing.DirectWriteNewest | ringbuffer.go:49-51 | the slice holds the newest unread bytes and ends where the head now is |
| ByteRing.ShortDirectWriteThenFull | ringbuffer_test.go:94-108 | when a `DirectWrite` is cut short at the physical end, a second one for the remainder returns all of it |
| ByteRing.CopyToSliceContent | ringbuffer.go:94 | copying into a slice that holds the newest unread bytes replaces exactly those bytes |
| ByteRing.ReserveAtHead | ringbuffer.go:46-51 | once the storage has room, the slice `DirectWrite` returns starts at the head and holds the `min(numBytes, len - head)` storage bytes from there; the new head is `(head + len(slice))` modulo the storage length, `Len()` grows by the slice length, and the storage and the tail stay as they were |
| ByteRing.CopyToSlice | ringbuffer.go:94-97 | copying into a slice that `DirectWrite` returned changes no index and not the storage length (`CopyToSliceContent` states the bytes) |
| ByteRing.DirectWriteCopy | ringbuffer.go:93-94 | `copy(r.DirectWrite(n), src)` fills at most `n` bytes, fills fewer only when the head wraps to slot 0, and leaves storage larger than `2 * Len() + n` (`DirectWriteCopyAppendsAt` states the bytes) |
| ByteRing.DirectWriteCopyAppendsAt | ringbuffer.go:93-94 | `copy(r.DirectWrite(n), src)` appends the first `len(slice)` bytes of `src` |
| ByteRing.WriteRest | ringbuffer.go:95-98 | the second `DirectWrite` in `Write` can grow the ring again after the head wrapped to 0, and it still returns the whole remainder |
| ByteRing.Write | ringbuffer.go:91-100 | `Write` always reports a nil error |
| ByteRing.WriteAppends | ringbuffer.go:91-100 | `Write(b)` reports `len(b)`, and the unread bytes become the old ones followed by `b` |
| ByteRing.DirectRead | ringbuffer.go:61-74 | the slice has `min(numBytes, Len(), len(data) - tail)` bytes, or none when that is not positive; in that case the result is nil and the ring is unchanged; the head and storage are untouched, and reading up to the physical end moves the tail to 0 |
| ByteRing.DirectReadContent | ringbuffer.go:54-58 | the slice is the oldest unread bytes, and exactly those are removed |
| ByteRing.DirectReadTwice | ringbuffer_test.go:43-52 | two `DirectRead`s, the second for the rest or for at least as much again, together return the `min(numBytes, Len())` oldest bytes and remove exactly those |
| ByteRing.Read | ringbuffer.go:77-89 | `Read` never replaces the storage, and the buffer it fills keeps the length `len(b)` |
| ByteRing.ReadTakes | ringbuffer.go:77-83 | `Read(b)` reports `min(len(b), Len())` and removes exactly that many of the oldest bytes |
| ByteRing.ReadFills | ringbuffer.go:78-81 | `Read(b)` puts the bytes it took at the front of `b` and leaves the rest of `b` as it was |
| ByteRing.FillBuffer | ringbuffer.go:79-81 | the two copies into `b` keep its length (`ReadFills` states where the bytes land) |
| ByteRing.ReadEndOfFile | ringbuffer.go:84-88 | `Read` reports `io.EOF` exactly when it took nothing and the ring is empty |
| ByteRing.EmptyReadIsEndOfFile | ringbuffer_test.go:67-71 | a `Read` from an empty ring returns 0 and `io.EOF`, whatever the buffer |
| ByteRing.ReadWhole | ringbuffer.go:77-89 | a `Read` into a buffer as long as the unread bytes fills it with exactly those bytes, reports their number and empties the ring; `io.EOF` comes only for an empty buffer |
| ByteRing.WriteReadRoundTrip | ringbuffer_test.go:54-71 | writing `b` into an empty ring and reading `len(b)` bytes gives back exactly `b` and empties the ring; `io.EOF` comes exactly when `b` is empty; a last `Read` then reports 0 and `io.EOF` |
| ByteRing.FreshDirectWriteCopy | ringbuffer_test.go:87-88 | on a fresh ring, `DirectWrite(len(b))` returns the whole slice, and copying `b` into it makes the unread bytes exactly `b` |
| ByteRing.DirectWriteReadRoundTrip | ringbuffer_test.go:82-92 | the direct-read half of the test: on a fresh ring, one `DirectWrite` of `len(b)` returns the whole slice; after copying `b` into it, two `DirectRead`s give back `b` and empty the ring, and a last `Read` reports 0 and `io.EOF` |
| ByteRing.DirectWriteThenRead | ringbuffer_test.go:82-92 | the `Read` half of the test: after the same `DirectWrite` and copy, a `Read` into a `len(b)` buffer reports `len(b)`, no error unless `b` is empty, and fills the buffer with `b`; a last `Read` reports 0 and `io.EOF` |
| ByteRing.WriteThenDirectReads | ringbuffer_test.go:43-52 | `Write(b)` into an empty ring followed by two `DirectRead`s of `len(b)` gives back `b` and empties the ring, even when the write wrapped |
| BoundedRing.NewRingP | ringp.go:27-37 | a ring that `NewRingP` accepts is valid and empty |
| BoundedRing.NewRingPAccepts | ringp.go:24-42 | `NewRingP` succeeds exactly for powers of two from 2 on, and then the ring is empty with `Capacity() == sizePlus1 - 1` |
| BoundedRing.Capacity | ringp.go:39-42 | on a valid ring `Capacity()` is one less than the storage length, and at least 1 |
| BoundedRing.Len | ringp.go:50-53 | `Len() <= Capacity()`, and the count is 0 exactly when `head == tail` |
| BoundedRing.IsFull | ringp.go:44-48 | `IsFull()` holds exactly when every slot but the unused one is live |
| BoundedRing.LenIsMaskedDifference | ringp.go:44-53 | `Len()` is `(head - tail) mod (mask + 1)` and is exactly the wrapped `uint` difference masked with `mask`; `IsFull()` holds exactly when the ring holds `len(items) - 1` elements |
| BoundedRing.Next | ringp.go:55-65 | `Next` keeps the storage; on an empty ring it returns the zero value and the ring stays empty; otherwise it returns the oldest value and the count drops by one |
| BoundedRing.NextTakesOldest | ringp.go:55-65 | on an empty ring `Next` returns the zero value and changes nothing; otherwise it returns the oldest element and removes it |
| BoundedRing.Pop | ringp.go:61-64 | the effect of `Next` keeps the ring valid, the storage and the head; only the tail moves (`NextTakesOldest` states which element leaves) |
| BoundedRing.Peek | ringp.go:67-79 | `Peek(i)` returns the zero value for every `i` outside `0 <= i < Len()`, negative ones included |
| BoundedRing.PeekIsIndex | ringp.go:67-79 | `Peek(i)` is the `i`-th oldest element for `0 <= i < Len()` and the zero value for every other `i`, negative ones included |
| BoundedRing.Add | ringp.go:81-90 | `Add` keeps the ring valid and never changes the storage length or the capacity |
| BoundedRing.AddAppends | ringp.go:81-90 | `Add(x)` drops the oldest element when the ring is full, then appends `x` |
| BoundedRing.AddMatchesTest | ringp_test.go:40-50 | `Add` does what the test's reference `add` does to the expected elements |
| BoundedRing.ExpectedAdd | ringp_test.go:40-50 | the test's reference `add` ends with the new element, adds at most one, and never holds more than `Capacity()` when it starts within it |
| BoundedRing.AddKeepsNewest | ringp.go:81-90 | after `Add(x)` the ring holds the newest `Capacity()` elements of the old content followed by `x` |
| BoundedRing.AddAll | ringp.go:81-90 | a run of `Add`s keeps the ring valid, its storage length and its capacity |
| BoundedRing.AddAllKeepsNewest | ringp_test.go:40-50 | after any run of `Add`s the ring holds the newest `Capacity()` elements of the old content followed by the added ones |
| BoundedRing.FreshRingKeepsNewest | ringp.go:24-26 | a fresh ring after any run of `Add`s holds the last `sizePlus1 - 1` elements added, in the order added |
| GrowingRing.NewRingT | ringt.go:24-35 | `NewRingT` panics exactly when `maxSize < 1`; otherwise the ring is valid, has no storage and reports that maximum |
| GrowingRing.NewRingTIsEmpty | ringt.go:28-40 | a new ring is empty, reports `MaxSize() == maxSize` and is not full |
| GrowingRing.MaxSize | ringt.go:37-40 | on a valid ring `MaxSize()` is at least 1 and fits an `int` |
| GrowingRing.IsFull | ringt.go:42-46 | `IsFull()` holds exactly when the ring holds `maxSize` elements |
| GrowingRing.Len | ringt.go:48-51 | `Len() <= maxSize`, the count is 0 exactly when `head == tail`, and it is below the storage length |
| GrowingRing.LenIsMaskedDifference | ringt.go:49-51 | `Len()` is `(head - tail) mod (mask + 1)`, including the zero mask of a ring with no storage, and for storage a Go slice can hold it is exactly the wrapped `uint` difference masked with `mask` |
| GrowingRing.Pop | ringt.go:54-62 | the effect of `Next` keeps the ring valid, with every slot outside the live region `nil`, and lowers the count by one on a non-empty ring |
| GrowingRing.Next | ringt.go:53-63 | `Next` keeps the ring valid and its maximum; on an empty ring it returns `nil` and the ring stays empty; otherwise it returns the oldest element and the count drops by one |
| GrowingRing.NextTakesOldest | ringt.go:53-63 | on an empty ring `Next` returns `nil` and changes nothing; otherwise it returns the oldest element and removes it |
| GrowingRing.NextClearsSlot | ringt.go:61 | `Next` sets the slot it vacates to `nil` and touches no other slot |
| GrowingRing.PeekIsIndex | ringt.go:65-76 | `Peek(i)` is the `i`-th oldest element for `0 <= i < Len()` and `nil` for every other `i`, negative ones included |
| GrowingRing.Peek | ringt.go:65-76 | `Peek(i)` returns `nil` for every `i` outside `0 <= i < Len()`, negative ones included |
| GrowingRing.Drain | ringt.go:93-97 | the copy loop keeps the length of the new storage and touches no slot before `i` or from `n` on |
| GrowingRing.DrainMovesContent | ringt.go:93-97 | the copy loop of the growth step puts the elements, oldest first, into slots `i, i+1, ...` of the new storage and leaves the other slots alone |
| GrowingRing.Grow | ringt.go:86-102 | the grown storage is a power of two, at least 2 and at least double the old length; the tail is 0, the head is the old count, and every slot from the head on is `nil` |
| GrowingRing.GrowValid | ringt.go:86-102 | growth yields a valid ring, with `nil` everywhere outside the live region, and the same content; the storage is double the old length (at least 2) with `tail = 0` and `head = n` |
| GrowingRing.MakeRoom | ringt.go:81-102 | after the eviction and growth steps the ring is valid, keeps its maximum, holds fewer than `maxSize` elements and has a free slot besides the unused one |
| GrowingRing.MakeRoomSpec | ringt.go:81-102 | after the eviction and growth steps the ring holds fewer than `maxSize` elements and has a free slot; it holds the old content, less the oldest element when it was full |
| GrowingRing.PushAppends | ringt.go:104-105 | storing at the head of a ring with room appends the element and keeps the ring valid |
| GrowingRing.Push | ringt.go:104-105 | storing at the head writes the new element into the head slot and touches no other slot, the tail or the maximum (`PushAppends` states the content) |
| GrowingRing.Add | ringt.go:78-106 | `Add` keeps the ring valid and keeps its maximum |
| GrowingRing.AddAppends | ringt.go:78-106 | `Add(x)` drops the oldest element when `Len() == maxSize`, then appends `x` |
| GrowingRing.AddGrows | ringt.go:86-102 | growth happens exactly when there is no storage or no free slot; the storage then doubles (at least 2) with the tail at 0; otherwise only the head slot changes |
| GrowingRing.AddMatchesTest | ringt_test.go:39-49 | `Add` does what the test's reference `add` does to the expected elements |
| GrowingRing.ExpectedAdd | ringt_test.go:39-49 | the test's reference `add` ends with the new element, adds at most one, and never holds more than `MaxSize()` when it starts within it |
| GrowingRing.AddKeepsNewest | ringt.go:78-106 | after `Add(x)` the ring holds the newest `maxSize` elements of the old content followed by `x` |
| GrowingRing.AddAll | ringt.go:78-106 | a run of `Add`s keeps the ring valid and its maximum |
| GrowingRing.AddAllKeepsNewest | ringt_test.go:39-49 | after any run of `Add`s the ring holds the newest `maxSize` elements of the old content followed by the added ones |
| WeightedRing.TotalWeightAppend | weighted.go:22 | the total weight of two runs of elements is the sum of their totals |
| WeightedRing.NewWeightedRingT | weighted.go:29-34 | a new ring is valid and empty, for any maximum |
| WeightedRing.Len | weighted.go:36-39 | the count is 0 exactly when `head == tail`, and it is below the storage length |
| WeightedRing.Weight | weighted.go:41-44 | on a valid ring `Weight()` is the total weight of the live elements |
| WeightedRing.PopTakesOldest | weighted.go:51-55 | the effect of `Next` on a non-empty ring removes exactly the oldest element, the pointer and weight at the tail |
| WeightedRing.Pop | weighted.go:51-55 | the effect of `Next` on a non-empty ring keeps the storage shape, the head, the weights and the maximum, moves the tail one slot on and takes the tail's weight off the total (`PopTakesOldest` states which element leaves) |
| WeightedRing.PopKeepsValid | weighted.go:53-55 | it keeps the running total equal to the sum of the live weights, and `nil` outside the live region |
| WeightedRing.Next | weighted.go:46-57 | `Next` keeps the storage length, the head and the maximum, and lowers the count by one on a non-empty ring |
| WeightedRing.NextTakesOldest | weighted.go:46-57 | on an empty ring `Next` returns `(false, nil, 0)` and changes nothing; otherwise it returns `true` with the oldest pointer and weight, removes them and lowers `Weight()` by that weight |
| WeightedRing.NextKeepsValid | weighted.go:41-44 | after `Next`, `Weight()` is still the sum of the live weights |
| WeightedRing.NextClearsSlot | weighted.go:55 | `Next` sets the pointer it returned to `nil` and touches no other slot and no weight |
| WeightedRing.Drain | weighted.go:71-76 | the copy loop keeps the lengths of the new slices and touches no position before `i` or from `n` on, in either slice |
| WeightedRing.DrainFollowsContent | weighted.go:71-76 | the copy loop of the growth step takes the ring's elements in order, oldest first |
| WeightedRing.DrainSeqPlaces | weighted.go:72-76 | that loop writes the `k`-th element and its weight to slot `i + k` of the new slices and leaves the other slots alone |
| WeightedRing.Grow | weighted.go:62-82 | the grown slices have one length, a power of two of at least 4 and at least double the old length; the tail is 0, the head is the old count, every pointer from the head on is `nil`, and the running total is restored |
| WeightedRing.GrowValid | weighted.go:62-82 | growth keeps the elements, their order, their weights and the running total; the storage is double the old length (at least 4) with `tail = 0` and `head = n` |
| WeightedRing.MakeRoomSpec | weighted.go:62-82 | after the growth step the ring has the same content and weight and a free slot besides the unused one |
| WeightedRing.MakeRoom | weighted.go:62-82 | after the growth step the ring is valid, keeps its total and maximum, and has a free slot besides the unused one (`MakeRoomSpec` states the content is kept) |
| WeightedRing.Evict | weighted.go:84-88 | the eviction loop keeps the storage and the head and never adds elements |
| WeightedRing.EvictKeepsValid | weighted.go:86-88 | the eviction loop keeps the running total equal to the sum of the live weights |
| WeightedRing.PushAppends | weighted.go:90-93 | storing at the head appends `(item, weight)` and adds `weight` to the total |
| WeightedRing.Push | weighted.go:90-93 | storing at the head writes the pointer and weight into the head slot, adds the weight to the total, and touches no other slot, the tail or the maximum (`PushAppends` states the content) |
| WeightedRing.Add | weighted.go:59-94 | `Add` keeps the ring valid and its maximum, adds at most one element, and leaves the new element and its weight as the newest element (`AddKeepsSuffix` states what else is kept) |
| WeightedRing.ExpectedAdd | weighted_test.go:48-61 | the test's reference `add` adds at most one element and ends with the new one |
| WeightedRing.ExpectedAddKeepsSuffix | weighted_test.go:54-58 | the reference keeps the newest of the old elements and appends the new one |
| WeightedRing.ExpectedAddFits | weighted_test.go:54-59 | started from the true total, the reference stops as soon as the new element fits (or nothing is left), and its total is the sum of what it keeps |
| WeightedRing.ExpectedAddDropsLeast | weighted_test.go:54-57 | the reference drops no old element it did not have to |
| WeightedRing.EvictMatchesTest | weighted.go:84-93 | the ring's eviction loop followed by the store does what the reference does to the ring's elements and total |
| WeightedRing.AddMatchesTest | weighted_test.go:48-61 | `Add` gives the reference's expected elements and expected total weight |
| WeightedRing.AddKeepsSuffix | weighted.go:84-93 | after `Add` the ring holds the newest of its old elements followed by the new one |
| WeightedRing.AddWeightBound | weighted.go:84-93 | after `Add`, `Weight() <= MaxWeight`, unless the ring holds only the new element |
| WeightedRing.AddEvictsLeast | weighted.go:84-88 | `Add` drops the least number `m` of oldest elements after which the rest and the new one fit, or all of them when no such `m` exists |
| WeightedRing.AddGrows | weighted.go:62-67 | the storage doubles (at least 4) exactly when it is empty or has no free slot, and keeps its length otherwise |
| WeightedRing.WrappedSlot | weighted.go:103 | `(tail + i) & mask()`, with the sum wrapping at 2^64, is the slot `i mod len` places after the tail |
| WeightedRing.Peek | weighted.go:100-105 | `peek(i)` panics exactly when there is no storage; otherwise the masked slot it reads is `(tail + i)`, wrapped as a `uint`, modulo the storage length |
| WeightedRing.PeekIsIndex | weighted.go:100-105 | `peek(i)` panics exactly when there is no storage; for `k = i mod len(items)` below `Len()` it returns the `k`-th oldest pointer and weight, and otherwise a `nil` pointer |

## Left out

- The `io.Reader` and `io.Writer` plumbing is not modelled; `io.EOF` is a result tag.
- The returned slices of `DirectWrite` and `DirectRead` share memory with the storage in Go. The model treats each slice as a value plus the storage range it occupies. Writing into a `DirectWrite` slice is modelled only as the immediate `copy` (`CopyToSlice`). Later writes through a stale slice are not modelled.
- Allocation (`make`, the `append` loop) is not modelled. GC reclamation is not modelled; clearing a slot is writing `None`.
- Panics are modelled as `Failure` results, and so are out-of-range slice indices.
- A negative `numBytes` to `DirectWrite` is not modelled: `ByteRing.DirectWrite` takes a `nat`. In Go such a call never returns normally. When `2 * Len() + numBytes + 1` is still at least 0, it panics at ringbuffer.go:49, because `r.data[head : head+numBytes]` has its high bound below its low bound. Otherwise `needCap` wraps to more than 2^63 at ringbuffer.go:114, the doubling loop at ringbuffer.go:123-125 takes `cap` to 2^63 and then wraps it to 0, and the loop never ends.
- The stored `uint` indices always stay below the storage length, so the rings keep them as naturals and compute `Count` and `Slot` linearly. `RingCore.CountIsMasked` and `RingCore.SlotIsMasked` show that these equal the wrapped, masked `uint` formulas. `WeightedRing.Peek` computes `peek`'s sum with the 2^64 wrap, and `WeightedRing.WrappedSlot` covers it.
- Overflow of `int` weights and of the running total is not modelled. Weights are unbounded integers.
- Storage lengths beyond Go's `int` range are not modelled. `WeightedRing.Add` does not bound how far the storage grows. An unbounded stream of zero-weight elements exhausts memory in Go.
- `WeightedRing.PeekIsIndex`: requires the storage length to fit a Go `int`, which every real slice does.
- The weights slice is not cleared when an element leaves, as in the code. So the weight a `peek` beyond `Len()` returns is whatever the slot last held, and the model does not pin it down.
- weighted_test.go calls a bounds-checked `Peek(i)` that returns three values. weighted.go defines no such method, only the unchecked `peek(i uint)`. The model covers `peek` only.
- generic_test.go is a stale test that does not compile against the package: it redeclares names and calls methods `RingT` lacks. It is not modelled.
- The zero value of `RingP` is not modelled. It has no storage and a zero mask, so `Add` indexes an empty slice and panics (ringp.go:84-88). Only rings made by `NewRingP` are valid.
- The zero value of `RingT` is not modelled; only rings made by `NewRingT` are valid. Its `maxSize` is 0. Its first `Add` calls `Next()` on the empty ring, which changes nothing, then grows the storage to 2 slots and stores the element (ringt.go:81-105). After that the eviction test `Len() == maxSize` never holds again, so the ring grows without bound. `GrowingRing.Valid` requires `maxSize >= 1`, as `NewRingT` ensures.
- The test helpers `dump` and `makeTruth` and the `TestSanity` check are not modelled.
