/** `Ring`, the byte FIFO of ringbuffer.go.

    The storage is a byte slice whose length is 0 (the zero value, before the
    first write) or a power of two of at least `DefaultSize`. Besides the
    stream calls `Write` and `Read`, the ring hands out slices of its own
    storage through `DirectWrite` and `DirectRead`; such a slice stops at the
    physical end of the storage, so a caller may need a second call.

    A slice handed out is modelled as its bytes plus the storage index of its
    first byte. Writing into a slice returned by `DirectWrite` is `CopyToSlice`.

    The operations are plain computations whose contracts state the shape of
    the result; what they do to the unread bytes is stated by the lemmas that
    follow each of them. */
module ByteRing {
  import opened RingCore

  newtype byte = x: int | 0 <= x < 0x100

  /** Storage size allocated on the first write. */
  const DefaultSize: nat := 64

  datatype Ring = Ring(head: nat, tail: nat, data: seq<byte>)

  /** A slice returned by `DirectWrite` or `DirectRead`; `Nil` is Go's nil slice. */
  datatype Slice = Nil | View(start: nat, bytes: seq<byte>)
  {
    function Bytes(): seq<byte>
    {
      if Nil? then [] else bytes
    }
  }

  /** The ring after a direct call, and the slice that call returned. */
  datatype Direct = Direct(ring: ValidRing, slice: Slice)

  /** The `error` of `Read` and `Write`: `nil` or `io.EOF`. */
  datatype IoError = NoError | EndOfFile

  datatype WriteResult = WriteResult(ring: ValidRing, n: nat, err: IoError)

  /** The ring after `Read(b)`, the new contents of `b`, the count and the error. */
  datatype ReadResult = ReadResult(ring: ValidRing, buf: seq<byte>, n: nat, err: IoError)

  /** The zero value of `Ring`. */
  const Zero: ValidRing := Ring(0, 0, [])

  predicate Valid(r: Ring)
  {
    && Indices(r.head, r.tail, |r.data|)
    && (|r.data| == 0 || (IsPow2(|r.data|) && |r.data| >= DefaultSize))
  }
  /** A ring whose indices and storage size are consistent. */
  type ValidRing = r: Ring | Valid(r) witness Ring(0, 0, [])


  /** The number of unread bytes, `(head - tail) & mask`. With no storage the
      mask is all ones but head and tail are both 0, so the count is 0. */
  function Len(r: ValidRing): (n: nat)
    ensures n == 0 <==> r.head == r.tail
    ensures |r.data| == 0 ==> n == 0
    ensures |r.data| > 0 ==> n < |r.data|
  {
    Count(r.head, r.tail, |r.data|)
  }

  /** `Len` is the source's masked difference: with storage, the remainder of
      `head - tail` modulo the (power-of-two) storage size, and so the
      wrapped `uint` difference masked with `len(data) - 1` for any storage
      a Go slice can hold. */
  lemma LenIsMaskedDifference(r: ValidRing)
    requires |r.data| > 0
    ensures Len(r) == (r.head - r.tail) % |r.data|
    ensures |r.data| <= IntMax ==>
              Len(r) == BitAnd((r.head - r.tail) % UintModulus, |r.data| - 1)
  {
    CountIsMaskedDifference(r.head, r.tail, |r.data|);
    if |r.data| <= IntMax {
      CountIsMasked(r.head, r.tail, |r.data|);
    }
  }

  /** The unread bytes, oldest first. */
  function Content(r: ValidRing): (c: seq<byte>)
  {
    Window(r.data, r.tail, Len(r))
  }

  /** `ringContent` of the package's tests: the bytes from the tail up to the
      head, or up to the physical end followed by those before the head when
      the unread region wraps. */
  function RingContent(r: ValidRing): seq<byte>
  {
    if r.head >= r.tail then r.data[r.tail..r.head] else r.data[r.tail..] + r.data[..r.head]
  }

  lemma ContentIsRingContent(r: ValidRing)
    ensures Content(r) == RingContent(r)
    ensures |Content(r)| == Len(r)
  {
    if |r.data| > 0 {
      var a := Content(r);
      var b := RingContent(r);
      assert |a| == |b|;
      forall k | 0 <= k < |a|
        ensures a[k] == b[k]
      {
      }
    }
  }

  /** The zero value is an empty ring. */
  lemma ZeroIsEmpty()
    ensures Len(Zero) == 0 && Content(Zero) == []
  {
  }

  /** The loop `for cap < needCap { cap *= 2 }` of `ensureCapacity`. */
  function GrowCap(cap: nat, need: nat): (c: nat)
    requires cap >= 1
    ensures c >= need && c >= cap
    ensures IsPow2(cap) ==> IsPow2(c)
    ensures cap >= need ==> c == cap
    ensures cap < need ==> c >= 2 * cap && c / 2 < need
    decreases if cap >= need then 0 else need - cap
  {
    if cap >= need then cap else GrowCap(2 * cap, need)
  }

  /** `ensureCapacity(forBytes)`: make room for `forBytes` more bytes on top of
      the unread ones and the one reserved slot. When the storage grows and the
      unread region wrapped, the part before the head is copied just past the
      old end, so the unread region becomes one contiguous run. */
  function EnsureCapacity(r: ValidRing, forBytes: nat): (g: ValidRing)
    ensures Len(g) == Len(r) && g.tail == r.tail
    ensures |g.data| >= forBytes + Len(r) + 1
    ensures forBytes + Len(r) + 1 <= |r.data| ==> g == r
    ensures forBytes + Len(r) + 1 > |r.data| ==>
              && |g.data| >= 2 * |r.data|
              && (|g.data| == DefaultSize || |g.data| / 2 < forBytes + Len(r) + 1)
              && g.tail <= g.head
              && g.head == (if r.head < r.tail then r.head + |r.data| else r.head)
  {
    var needCap := forBytes + Len(r) + 1;
    if needCap <= |r.data| then r
    else
      var orgCap := |r.data|;
      var newCap := GrowCap(if orgCap < DefaultSize then DefaultSize else orgCap, needCap);
      var data := r.data + Fill(newCap - orgCap, 0 as byte);
      if r.head < r.tail then
        Ring(r.head + orgCap, r.tail, CopyInto(data, orgCap, orgCap + r.head, data[..r.head]))
      else
        Ring(r.head, r.tail, data)
  }

  /** Growing keeps the unread bytes: they keep their slots from the tail up
      to the old end, and the ones that wrapped now follow them. */
  lemma EnsureCapacityKeepsContent()
    ensures forall r: ValidRing, forBytes: nat :: Content(EnsureCapacity(r, forBytes)) == Content(r)
  {
    forall r: ValidRing, forBytes: nat
      ensures Content(EnsureCapacity(r, forBytes)) == Content(r)
    {
      if forBytes + Len(r) + 1 > |r.data| {
        var g := EnsureCapacity(r, forBytes);
        GrownSlots(r, forBytes);
        var a := Content(g);
        var b := Content(r);
        forall k | 0 <= k < Len(r)
          ensures a[k] == b[k]
        {
          assert Slot(r.tail, k, |g.data|) == r.tail + k;
        }
      }
    }
  }

  /** After growth, the `k`-th unread byte sits at slot `tail + k`. */
  lemma GrownSlots(r: ValidRing, forBytes: nat)
    requires forBytes + Len(r) + 1 > |r.data|
    ensures var g := EnsureCapacity(r, forBytes);
            forall k :: 0 <= k < Len(r) ==> g.data[r.tail + k] == r.data[Slot(r.tail, k, |r.data|)]
  {
    var g := EnsureCapacity(r, forBytes);
    var orgCap := |r.data|;
    var data := r.data + Fill(|g.data| - orgCap, 0 as byte);
    if r.head < r.tail {
      WrappedSlots(r, data, |g.data|);
    } else {
      assert g.data == data;
    }
  }

  /** Copying the wrapped part of the unread region just past the old end
      puts the `k`-th unread byte at slot `tail + k`. */
  lemma WrappedSlots(r: ValidRing, data: seq<byte>, newCap: nat)
    requires r.head < r.tail && |data| == newCap >= 2 * |r.data| && data[..|r.data|] == r.data
    ensures var d := CopyInto(data, |r.data|, |r.data| + r.head, data[..r.head]);
            forall k :: 0 <= k < Len(r) ==> d[r.tail + k] == r.data[Slot(r.tail, k, |r.data|)]
  {
    var orgCap := |r.data|;
    CopyIntoIndex(data, orgCap, orgCap + r.head, data[..r.head]);
    forall k | 0 <= k < Len(r)
      ensures CopyInto(data, orgCap, orgCap + r.head, data[..r.head])[r.tail + k] == r.data[Slot(r.tail, k, orgCap)]
    {
      var j := r.tail + k;
      if j < orgCap {
        assert data[j] == data[..orgCap][j];
      } else {
        assert data[j - orgCap] == data[..orgCap][j - orgCap];
      }
    }
  }

  /** `DirectWrite(numBytes)`: grow for `Len() + numBytes` more bytes, then hand
      out the storage from the head, at most up to the physical end, and count
      it as written. The slice is cut short only where the storage ends, and
      then the head has wrapped to slot 0. */
  function DirectWrite(r: ValidRing, numBytes: nat): (w: Direct)
    ensures w.slice.View?
    ensures |w.slice.bytes| <= numBytes
    ensures |w.slice.bytes| < numBytes ==> w.ring.head == 0
    ensures w.slice.start + |w.slice.bytes| <= |w.ring.data|
    ensures |w.ring.data| > 2 * Len(r) + numBytes
  {
    ReserveAtHead(EnsureCapacity(r, Len(r) + numBytes), numBytes)
  }

  /** The second half of `DirectWrite`, once the storage has room: the slots
      from the head, at most `numBytes` and at most up to the physical end,
      with the head moved past them. */
  function ReserveAtHead(g: ValidRing, numBytes: nat): (w: Direct)
    requires |g.data| > Len(g) + numBytes
    ensures w.slice.View? && w.ring.data == g.data && w.ring.tail == g.tail
    ensures w.slice.start == g.head && |w.slice.bytes| == Min(numBytes, |g.data| - g.head)
    ensures w.slice.bytes == g.data[g.head..g.head + |w.slice.bytes|]
    ensures w.ring.head == (g.head + |w.slice.bytes|) % |g.data|
    ensures Len(w.ring) == Len(g) + |w.slice.bytes|
  {
    var n := Min(numBytes, |g.data| - g.head);
    AdvanceHead(g, n);
    if g.head + n < |g.data| then
      ModUnique(g.head + n, |g.data|, 0, g.head + n);
      Direct(Ring(g.head + n, g.tail, g.data), View(g.head, g.data[g.head..g.head + n]))
    else
      ModUnique(g.head + n, |g.data|, 1, 0);
      Direct(Ring(0, g.tail, g.data), View(g.head, g.data[g.head..g.head + n]))
  }

  /** Advancing the head over `n` bytes that do not cross the physical end
      appends those bytes to the content. */
  lemma AdvanceHead(g: ValidRing, n: nat)
    requires |g.data| > 0 && g.head + n <= |g.data| && Len(g) + n < |g.data|
    ensures var r' := Ring(Slot(g.head, n, |g.data|), g.tail, g.data);
            && Valid(r') && Len(r') == Len(g) + n
            && Content(r') == Content(g) + g.data[g.head..g.head + n]
  {
    WindowExtend(g.data, g.tail, Len(g), n);
  }

  /** The bytes a `DirectWrite` hands out are counted as written: the content
      grows by exactly the slice. */
  lemma DirectWriteAppends(r: ValidRing, numBytes: nat)
    ensures var w := DirectWrite(r, numBytes);
            && Len(w.ring) == Len(r) + |w.slice.bytes|
            && Content(w.ring) == Content(r) + w.slice.bytes
  {
    EnsureCapacityKeepsContent();
    ReserveAtHeadAppends();
  }

  /** Reserving slots at the head of a ring with room for them appends them
      to the content. */
  lemma ReserveAtHeadAppends()
    ensures forall g: ValidRing, numBytes: nat | |g.data| > Len(g) + numBytes ::
              && Len(ReserveAtHead(g, numBytes).ring) == Len(g) + |ReserveAtHead(g, numBytes).slice.bytes|
              && Content(ReserveAtHead(g, numBytes).ring) == Content(g) + ReserveAtHead(g, numBytes).slice.bytes
  {
    forall g: ValidRing, numBytes: nat | |g.data| > Len(g) + numBytes
      ensures && Len(ReserveAtHead(g, numBytes).ring) == Len(g) + |ReserveAtHead(g, numBytes).slice.bytes|
              && Content(ReserveAtHead(g, numBytes).ring) == Content(g) + ReserveAtHead(g, numBytes).slice.bytes
    {
      AdvanceHead(g, Min(numBytes, |g.data| - g.head));
    }
  }

  /** Where the slice of a `DirectWrite` starts: at the head after growth,
      which is the old head, moved past the old end when the storage grew
      and the unread region wrapped. The tail stays where it was. */
  lemma DirectWriteStart(r: ValidRing, numBytes: nat)
    ensures var w := DirectWrite(r, numBytes);
            && w.ring.tail == r.tail
            && (|w.ring.data| == |r.data| || |w.ring.data| >= 2 * |r.data|)
            && w.slice.start
               == (if |w.ring.data| > |r.data| && r.head < r.tail then r.head + |r.data| else r.head)
  {
  }

  /** The slice of a `DirectWrite` is the storage from its start, `min(numBytes,
      len(data) - start)` bytes long. */
  lemma DirectWriteSlice(r: ValidRing, numBytes: nat)
    ensures var w := DirectWrite(r, numBytes);
            && |w.slice.bytes| == Min(numBytes, |w.ring.data| - w.slice.start)
            && w.slice.bytes == w.ring.data[w.slice.start..w.slice.start + |w.slice.bytes|]
  {
  }

  /** `s` is a view of the storage of `r` that holds its `|s.bytes|` newest
      unread bytes and does not cross the physical end. */
  predicate NewestSlice(r: ValidRing, s: Slice)
  {
    && s.View? && s.start < |r.data|
    && |s.bytes| <= Len(r) && s.start + |s.bytes| <= |r.data|
    && Slot(s.start, |s.bytes|, |r.data|) == r.head
    && s.bytes == r.data[s.start..s.start + |s.bytes|]
  }

  /** The slice of a `DirectWrite` holds the newest bytes of the ring it
      returns, right after the bytes that were unread before. */
  lemma DirectWriteNewest(r: ValidRing, numBytes: nat)
    ensures var w := DirectWrite(r, numBytes);
            NewestSlice(w.ring, w.slice)
  {
    DirectWriteAppends(r, numBytes);
    DirectWriteSlice(r, numBytes);
  }

  /** A `DirectWrite` from slot 0 of a storage larger than the request, or of
      no storage at all, returns all of it, even when the storage has to grow
      first. */
  lemma DirectWriteFromSlotZero()
    ensures forall r: ValidRing, numBytes: nat | r.head == 0 && (|r.data| == 0 || numBytes < |r.data|) ::
              |DirectWrite(r, numBytes).slice.bytes| == numBytes
  {
    forall r: ValidRing, numBytes: nat | r.head == 0 && (|r.data| == 0 || numBytes < |r.data|)
      ensures |DirectWrite(r, numBytes).slice.bytes| == numBytes
    {
      DirectWriteStart(r, numBytes);
      DirectWriteSlice(r, numBytes);
    }
  }

  /** A `DirectWrite` cut short at the physical end is followed by one that
      returns all of the remainder: the first call left the head at slot 0 and
      the storage larger than the whole request. */
  lemma ShortDirectWriteThenFull(r: ValidRing, numBytes: nat)
    requires |DirectWrite(r, numBytes).slice.bytes| < numBytes
    ensures var w := DirectWrite(r, numBytes);
            var rest := numBytes - |w.slice.bytes|;
            |DirectWrite(w.ring, rest).slice.bytes| == rest
  {
    DirectWriteFromSlotZero();
  }

  /** `copy(slice, src)` into a slice that `DirectWrite` returned: the storage
      under the slice takes the copied bytes. */
  function CopyToSlice(r: ValidRing, s: Slice, src: seq<byte>): (r': ValidRing)
    requires s.View? && s.start + |s.bytes| <= |r.data|
    ensures r'.head == r.head && r'.tail == r.tail && |r'.data| == |r.data|
  {
    r.(data := CopyInto(r.data, s.start, s.start + |s.bytes|, src))
  }

  /** Copying into a slice that holds the newest unread bytes replaces them. */
  lemma CopyToSliceContent(r: ValidRing, s: Slice, src: seq<byte>)
    requires NewestSlice(r, s)
    ensures Len(CopyToSlice(r, s, src)) == Len(r)
    ensures Content(CopyToSlice(r, s, src)) == Content(r)[..Len(r) - |s.bytes|] + Copy(s.bytes, src)
  {
    var r' := CopyToSlice(r, s, src);
    assert s.start == Slot(r.tail, Len(r) - |s.bytes|, |r.data|);
    var lo := s.start;
    var hi := s.start + |s.bytes|;
    CopyIntoIndex(r.data, lo, hi, src);
    CopyIndex(s.bytes, src);
    var a := Content(r');
    var b := Content(r)[..Len(r) - |s.bytes|] + Copy(s.bytes, src);
    assert |a| == |b|;
    forall k | 0 <= k < |a|
      ensures a[k] == b[k]
    {
      var j := Slot(r.tail, k, |r.data|);
      if k < Len(r) - |s.bytes| {
        assert j < lo || j >= hi;
      } else {
        assert j == lo + (k - (Len(r) - |s.bytes|));
      }
    }
  }

  /** `copy(r.DirectWrite(numBytes), src)`: the ring after copying `src` into
      the slice, and the length of that slice. */
  datatype Chunk = Chunk(ring: ValidRing, n: nat)

  function DirectWriteCopy(r: ValidRing, numBytes: nat, src: seq<byte>): (c: Chunk)
    ensures c.n <= numBytes && (c.n < numBytes ==> c.ring.head == 0)
    ensures |c.ring.data| > 2 * Len(r) + numBytes
  {
    var w := DirectWrite(r, numBytes);
    Chunk(CopyToSlice(w.ring, w.slice, src), |w.slice.bytes|)
  }

  /** Copying into the slice of a `DirectWrite` appends the copied bytes. */
  lemma DirectWriteCopyAppendsAt(r: ValidRing, numBytes: nat, src: seq<byte>)
    requires numBytes <= |src|
    ensures Content(DirectWriteCopy(r, numBytes, src).ring)
            == Content(r) + src[..DirectWriteCopy(r, numBytes, src).n]
  {
    var w := DirectWrite(r, numBytes);
    DirectWriteNewest(r, numBytes);
    DirectWriteAppends(r, numBytes);
    CopyToSliceContent(w.ring, w.slice, src);
    CopyPrefix(w.slice.bytes, src);
    assert Content(w.ring)[..Len(w.ring) - |w.slice.bytes|] == Content(r);
  }

  /** `Write(b)`: append all of `b`, by one `DirectWrite` and, when that one is
      cut short at the physical end, a second for the rest. The count is the
      sum of the two slice lengths; `WriteAppends` shows it is always `len(b)`,
      the count Go returns. */
  function Write(r: ValidRing, b: seq<byte>): (res: WriteResult)
    ensures res.err == NoError
  {
    var c1 := DirectWriteCopy(r, |b|, b);
    if c1.n != |b| then
      var c2 := DirectWriteCopy(c1.ring, |b| - c1.n, b[c1.n..]);
      WriteResult(c2.ring, c1.n + c2.n, NoError)
    else
      WriteResult(c1.ring, c1.n, NoError)
  }

  /** The second `DirectWrite` of `Write` takes all of the rest: the first one
      was cut short, so it left the head at slot 0 of a storage with room for
      the whole request. */
  lemma WriteRest(r: ValidRing, b: seq<byte>)
    requires DirectWriteCopy(r, |b|, b).n != |b|
    ensures var c1 := DirectWriteCopy(r, |b|, b);
            var c2 := DirectWriteCopy(c1.ring, |b| - c1.n, b[c1.n..]);
            && c2.n == |b| - c1.n
            && Content(c2.ring) == Content(r) + b
  {
    var c1 := DirectWriteCopy(r, |b|, b);
    var rest := b[c1.n..];
    assert |rest| == |b| - c1.n;
    WriteFromSlotZero(c1.ring, rest);
    DirectWriteCopyAppendsAt(r, |b|, b);
    AppendSplit(Content(r), b, c1.n);
  }

  /** A `DirectWrite` and copy from slot 0 of a storage larger than `src`
      appends all of `src`. */
  lemma WriteFromSlotZero(r: ValidRing, src: seq<byte>)
    requires r.head == 0 && |r.data| > |src|
    ensures var c := DirectWriteCopy(r, |src|, src);
            c.n == |src| && Content(c.ring) == Content(r) + src
  {
    DirectWriteFromSlotZero();
    DirectWriteCopyAppendsAt(r, |src|, src);
    assert src[..|src|] == src;
  }

  /** Appending the first `n` elements of `b` and then the rest appends `b`. */
  lemma AppendSplit(x: seq<byte>, b: seq<byte>, n: nat)
    requires n <= |b|
    ensures (x + b[..n]) + b[n..] == x + b
  {
    assert b[..n] + b[n..] == b;
  }

  /** `Write` appends all of `b` and reports its length. */
  lemma WriteAppends(r: ValidRing, b: seq<byte>)
    ensures Write(r, b).n == |b|
    ensures Content(Write(r, b).ring) == Content(r) + b
  {
    var c1 := DirectWriteCopy(r, |b|, b);
    if c1.n != |b| {
      WriteRest(r, b);
    } else {
      DirectWriteCopyAppendsAt(r, |b|, b);
      assert b[..c1.n] == b;
    }
  }

  /** `DirectRead(numBytes)`: hand out the oldest unread bytes, at most
      `numBytes`, at most `Len()`, and at most up to the physical end, and
      count them as read; nil and no change when that is nothing. */
  function DirectRead(r: ValidRing, numBytes: int): (t: Direct)
    ensures t.ring.data == r.data && t.ring.head == r.head
    ensures var m := Min(Min(numBytes, Len(r)), |r.data| - r.tail);
            |t.slice.Bytes()| == if m <= 0 then 0 else m
    ensures t.slice.Bytes() == [] ==> t == Direct(r, Nil)
    ensures r.tail + |t.slice.Bytes()| == |r.data| ==> t.ring.tail == 0
  {
    var m1 := if numBytes > Len(r) then Len(r) else numBytes;
    var m := if m1 > |r.data| - r.tail then |r.data| - r.tail else m1;
    if m <= 0 then Direct(r, Nil)
    else Direct(Ring(r.head, Slot(r.tail, m, |r.data|), r.data), View(r.tail, r.data[r.tail..r.tail + m]))
  }

  /** The bytes a `DirectRead` hands out are the oldest unread ones, and they
      are no longer unread afterwards. */
  lemma DirectReadContent()
    ensures forall r: ValidRing, numBytes: int ::
              && DirectRead(r, numBytes).slice.Bytes() == Content(r)[..|DirectRead(r, numBytes).slice.Bytes()|]
              && Content(DirectRead(r, numBytes).ring) == Content(r)[|DirectRead(r, numBytes).slice.Bytes()|..]
  {
    forall r: ValidRing, numBytes: int 
      ensures && DirectRead(r, numBytes).slice.Bytes() == Content(r)[..|DirectRead(r, numBytes).slice.Bytes()|]
              && Content(DirectRead(r, numBytes).ring) == Content(r)[|DirectRead(r, numBytes).slice.Bytes()|..]
    {
      var m := |DirectRead(r, numBytes).slice.Bytes()|;
      if m > 0 {
        WindowDrop(r.data, r.tail, Len(r), m);
        WindowContiguous(r.data, r.tail, m);
        assert Content(r)[..m] == Window(r.data, r.tail, m);
      }
    }
  }

  /** The slices of two successive direct reads `t1` and `t2` from `r` are
      together the `n` oldest bytes of `r`, and the bytes after them are
      what `t2` leaves unread. */
  predicate ReadsInTwo(r: ValidRing, t1: Direct, t2: Direct, n: int)
  {
    && |t1.slice.Bytes()| + |t2.slice.Bytes()| == n && n <= Len(r)
    && t1.slice.Bytes() + t2.slice.Bytes() == Content(r)[..n]
    && Content(t2.ring) == Content(r)[n..]
  }

  /** Two `DirectRead` calls return the `min(numBytes, Len())` oldest bytes
      when the second asks for the rest of the request, or when the request
      covers the whole content and the second asks for at least as much again:
      if the first stops at the physical end, the second starts at slot 0. */
  lemma DirectReadTwice(r: ValidRing, numBytes: nat, rest: int)
    requires var s1 := DirectRead(r, numBytes).slice.Bytes();
             rest == numBytes - |s1| || (numBytes >= Len(r) && rest >= numBytes)
    ensures ReadsInTwo(r, DirectRead(r, numBytes), DirectRead(DirectRead(r, numBytes).ring, rest), Min(numBytes, Len(r)))
  {
    var t1 := DirectRead(r, numBytes);
    var s1 := t1.slice.Bytes();
    var n := Min(numBytes, Len(r));
    var t2 := DirectRead(t1.ring, rest);
    var s2 := t2.slice.Bytes();
    DirectReadContent();
    if |s1| < n {
      assert t1.ring.tail == 0;
      assert |s2| == n - |s1|;
      assert s2 == Content(r)[|s1|..][..n - |s1|];
      assert Content(r)[..n] == Content(r)[..|s1|] + Content(r)[|s1|..][..n - |s1|];
    } else {
      assert s2 == [];
    }
  }

  /** The buffer `b` after `copy(b, s1)` and `copy(b[len(s1):], s2)`. */
  function FillBuffer(b: seq<byte>, s1: seq<byte>, s2: seq<byte>): (buf: seq<byte>)
    requires |s1| <= |b|
    ensures |buf| == |b|
  {
    CopyInto(Copy(b, s1), |s1|, |b|, s2)
  }

  /** When both slices fit, they end up side by side at the front of the
      buffer, and the rest of `b` is unchanged. */
  lemma FillBufferSides(b: seq<byte>, s1: seq<byte>, s2: seq<byte>)
    requires |s1| + |s2| <= |b|
    ensures FillBuffer(b, s1, s2) == (s1 + s2) + b[|s1| + |s2|..]
  {
    var n := |s1| + |s2|;
    var x := Copy(b, s1);
    CopyPrefix(b, s1);
    assert x[|s1|..|b|] == b[|s1|..];
    CopyPrefix(b[|s1|..], s2);
    assert b[|s1|..][|s2|..] == b[n..];
    CopyIntoIndex(x, |s1|, |b|, s2);
    var buf := FillBuffer(b, s1, s2);
    forall i | 0 <= i < |b|
      ensures buf[i] == ((s1 + s2) + b[n..])[i]
    {
      if |s1| <= i {
        assert Copy(b[|s1|..], s2)[i - |s1|] == (s2 + b[n..])[i - |s1|];
      }
    }
  }

  /** `Read(b)`: copy and remove the `min(len(b), Len())` oldest bytes. The
      error is `io.EOF` exactly when nothing was copied and the ring is empty. */
  function Read(r: ValidRing, b: seq<byte>): (res: ReadResult)
    ensures res.ring.data == r.data && |res.buf| == |b|
  {
    var t1 := DirectRead(r, |b|);
    var s1 := t1.slice.Bytes();
    var t2 := DirectRead(t1.ring, |b| - |s1|);
    var s2 := t2.slice.Bytes();
    var total := |s1| + |s2|;
    ReadResult(t2.ring, FillBuffer(b, s1, s2), total,
               if total == 0 && Len(t2.ring) == 0 then EndOfFile else NoError)
  }

  /** What `Read` takes from the ring: the `min(len(b), Len())` oldest bytes. */
  lemma ReadTakes(r: ValidRing, b: seq<byte>)
    ensures var res := Read(r, b);
            && res.n == Min(|b|, Len(r))
            && Content(res.ring) == Content(r)[res.n..]
  {
    DirectReadTwice(r, |b|, |b| - |DirectRead(r, |b|).slice.Bytes()|);
  }

  /** Where `Read` puts the bytes it takes: at the front of `b`, leaving the
      rest of `b` as it was. */
  lemma ReadFills(r: ValidRing, b: seq<byte>)
    ensures var res := Read(r, b);
            && res.n <= |b| && res.n <= Len(r)
            && res.buf[..res.n] == Content(r)[..res.n]
            && forall i :: res.n <= i < |b| ==> res.buf[i] == b[i]
  {
    ReadFillsFront(r, b);
    ReadFillsBack(r, b);
  }

  lemma ReadFillsFront(r: ValidRing, b: seq<byte>)
    ensures var res := Read(r, b);
            res.n == Min(|b|, Len(r)) && res.buf[..res.n] == Content(r)[..res.n]
  {
    var t1 := DirectRead(r, |b|);
    var s1 := t1.slice.Bytes();
    var s2 := DirectRead(t1.ring, |b| - |s1|).slice.Bytes();
    ReadSlices(r, b);
    var n := Min(|b|, Len(r));
    FillBufferPrefix(b, s1, s2, Content(r), n);
  }

  lemma ReadFillsBack(r: ValidRing, b: seq<byte>)
    ensures var res := Read(r, b);
            res.n <= |b| && forall i :: res.n <= i < |b| ==> res.buf[i] == b[i]
  {
    var t1 := DirectRead(r, |b|);
    var s1 := t1.slice.Bytes();
    var s2 := DirectRead(t1.ring, |b| - |s1|).slice.Bytes();
    FillBufferRest(b, s1, s2);
  }

  /** The slots of `b` past both slices keep their bytes. */
  lemma FillBufferRest(b: seq<byte>, s1: seq<byte>, s2: seq<byte>)
    requires |s1| + |s2| <= |b|
    ensures forall i :: |s1| + |s2| <= i < |b| ==> FillBuffer(b, s1, s2)[i] == b[i]
  {
    CopyIndex(b, s1);
    CopyIntoIndex(Copy(b, s1), |s1|, |b|, s2);
  }

  /** The two slices `Read` copies are together its `min(len(b), Len())`
      oldest bytes. */
  lemma ReadSlices(r: ValidRing, b: seq<byte>)
    ensures var s1 := DirectRead(r, |b|).slice.Bytes();
            var s2 := DirectRead(DirectRead(r, |b|).ring, |b| - |s1|).slice.Bytes();
            && Min(|b|, Len(r)) <= |Content(r)|
            && |s1| + |s2| == Min(|b|, Len(r))
            && s1 + s2 == Content(r)[..Min(|b|, Len(r))]
  {
    var s1 := DirectRead(r, |b|).slice.Bytes();
    DirectReadTwice(r, |b|, |b| - |s1|);
  }

  /** When the two slices are together the first `n` elements of `c`, the
      filled buffer starts with those and keeps the rest of `b`. */
  lemma FillBufferPrefix(b: seq<byte>, s1: seq<byte>, s2: seq<byte>, c: seq<byte>, n: nat)
    requires |s1| + |s2| == n <= |b| && n <= |c| && s1 + s2 == c[..n]
    ensures FillBuffer(b, s1, s2)[..n] == c[..n] && FillBuffer(b, s1, s2)[n..] == b[n..]
  {
    FillBufferSides(b, s1, s2);
  }

  /** `Read` reports `io.EOF` exactly when it took nothing from an empty ring. */
  lemma ReadEndOfFile(r: ValidRing, b: seq<byte>)
    ensures var res := Read(r, b);
            res.err == EndOfFile <==> res.n == 0 && Len(r) == 0
  {
    ReadTakes(r, b);
    var res := Read(r, b);
    assert |Content(res.ring)| == Len(r) - res.n;
  }

  /** Two sequences of the same length whose prefixes of that length agree are equal. */
  lemma WholePrefix<T>(x: seq<T>, y: seq<T>)
    requires |x| == |y| && x[..|x|] == y[..|y|]
    ensures x == y
  {
    assert x == x[..|x|] && y == y[..|y|];
  }

  /** Reading from an empty ring takes nothing and reports `io.EOF`,
      whatever the buffer. */
  lemma EmptyReadIsEndOfFile(r: ValidRing, b: seq<byte>)
    requires Len(r) == 0
    ensures Read(r, b).n == 0 && Read(r, b).err == EndOfFile
  {
    ReadTakes(r, b);
    ReadEndOfFile(r, b);
  }

  /** `Read` into a buffer exactly as long as the unread bytes returns all
      of them and empties the ring; `io.EOF` comes only for an empty buffer. */
  lemma ReadWhole(r: ValidRing, buf: seq<byte>)
    requires |buf| == Len(r)
    ensures var rd := Read(r, buf);
            && rd.buf == Content(r) && rd.n == |buf| && Len(rd.ring) == 0
            && (rd.err == EndOfFile <==> |buf| == 0)
  {
    ReadTakes(r, buf);
    ReadFills(r, buf);
    ReadEndOfFile(r, buf);
    var rd := Read(r, buf);
    WholePrefix(rd.buf, Content(r));
  }

  /** Writing `b` into an empty ring and reading `len(b)` bytes back returns
      exactly `b` and empties the ring, whether or not the storage grew or the
      write wrapped around the physical end; a last `Read` reports `io.EOF`. */
  lemma WriteReadRoundTrip(r: ValidRing, b: seq<byte>, buf: seq<byte>, last: seq<byte>)
    requires Len(r) == 0 && |buf| == |b|
    ensures var rd := Read(Write(r, b).ring, buf);
            && rd.buf == b && rd.n == |b| && Len(rd.ring) == 0
            && (rd.err == EndOfFile <==> |b| == 0)
            && Read(rd.ring, last).n == 0 && Read(rd.ring, last).err == EndOfFile
  {
    var w := Write(r, b);
    WriteAppends(r, b);
    assert Content(r) == [];
    assert Content(w.ring) == b;
    ReadWhole(w.ring, buf);
    EmptyReadIsEndOfFile(Read(w.ring, buf).ring, last);
  }

  /** On a fresh ring, `copy(r.DirectWrite(len(b)), b)` stores all of `b`:
      the slice is the whole request. */
  lemma FreshDirectWriteCopy(b: seq<byte>)
    ensures |DirectWrite(Zero, |b|).slice.bytes| == |b|
    ensures DirectWriteCopy(Zero, |b|, b).n == |b|
    ensures Content(DirectWriteCopy(Zero, |b|, b).ring) == b
  {
    DirectWriteFromSlotZero();
    DirectWriteCopyAppendsAt(Zero, |b|, b);
    assert b[..|b|] == b;
  }

  /** The test round trip on a fresh ring: one `DirectWrite` of `len(b)` bytes,
      a copy into the returned slice, and two `DirectRead`s of `len(b)` give
      back `b` and leave the ring empty, so that a last `Read` reports
      `io.EOF`. */
  lemma DirectWriteReadRoundTrip(b: seq<byte>, last: seq<byte>)
    ensures |DirectWrite(Zero, |b|).slice.bytes| == |b|
    ensures var c := DirectWriteCopy(Zero, |b|, b);
            var t1 := DirectRead(c.ring, |b|);
            var t2 := DirectRead(t1.ring, |b|);
            && t1.slice.Bytes() + t2.slice.Bytes() == b
            && Len(t2.ring) == 0
            && Read(t2.ring, last).n == 0 && Read(t2.ring, last).err == EndOfFile
  {
    FreshDirectWriteCopy(b);
    var c := DirectWriteCopy(Zero, |b|, b);
    DirectReadTwice(c.ring, |b|, |b|);
    var t2 := DirectRead(DirectRead(c.ring, |b|).ring, |b|);
    assert |Content(t2.ring)| == 0;
    EmptyReadIsEndOfFile(t2.ring, last);
  }

  /** The other half of the test round trip: after the same `DirectWrite`
      and copy, one `Read` into a buffer of `len(b)` bytes reports `len(b)`,
      no error unless `b` is empty, and fills the buffer with `b`; a last
      `Read` then reports `io.EOF`. */
  lemma DirectWriteThenRead(b: seq<byte>, buf: seq<byte>, last: seq<byte>)
    requires |buf| == |b|
    ensures var c := DirectWriteCopy(Zero, |b|, b);
            var rd := Read(c.ring, buf);
            && rd.buf == b && rd.n == |b| && (rd.err == EndOfFile <==> |b| == 0)
            && Read(rd.ring, last).n == 0 && Read(rd.ring, last).err == EndOfFile
  {
    FreshDirectWriteCopy(b);
    var c := DirectWriteCopy(Zero, |b|, b);
    ReadWhole(c.ring, buf);
    EmptyReadIsEndOfFile(Read(c.ring, buf).ring, last);
  }

  /** `Write(b)` into an empty ring, then two `DirectRead`s of `len(b)`, give
      back `b` and empty the ring, even when the write wrapped around the
      physical end. */
  lemma WriteThenDirectReads(r: ValidRing, b: seq<byte>)
    requires Len(r) == 0
    ensures var w := Write(r, b);
            var t1 := DirectRead(w.ring, |b|);
            var t2 := DirectRead(t1.ring, |b|);
            && t1.slice.Bytes() + t2.slice.Bytes() == b
            && Len(t2.ring) == 0
  {
    var w := Write(r, b);
    WriteAppends(r, b);
    assert Content(r) == [];
    assert Content(w.ring) == b;
    DirectReadTwice(w.ring, |b|, |b|);
    var t2 := DirectRead(DirectRead(w.ring, |b|).ring, |b|);
    assert |Content(t2.ring)| == 0;
  }
}
