/** The circular-indexing discipline shared by the four rings of the package.

    Every ring keeps a storage array whose length is zero or a power of two,
    a `tail` (the slot of the oldest live element) and a `head` (the next free
    slot). The number of live elements is `(head - tail) & (len - 1)`; one slot
    is always left unused, so `head == tail` means empty and at most `len - 1`
    elements are live.

    Indices always stay below the storage length, so the masked sums and
    differences of the source can be written here without bit operations:
    `Slot` and `Count` below are exact for such indices. `MaskIsMod` shows
    that masking with `len - 1` is the remainder modulo a power-of-two
    length, and `SlotIsMasked` and `CountIsMasked` tie `Slot` and `Count` to
    the source's masked `uint` formulas. */
module RingCore {

  /** A Go pointer `*T`: `None` is `nil`. */
  datatype Option<+T> = None | Some(value: T)

  /** A constructor that either returns a ring or panics with a message. */
  datatype Result<+T> = Success(value: T) | Failure(message: string)

  function Min(a: int, b: int): int
  {
    if a < b then a else b
  }

  /** The largest Go `int` (64-bit). */
  const IntMax: int := 0x7fff_ffff_ffff_ffff

  /** `i` fits in a Go `int`. */
  predicate IsGoInt(i: int)
  {
    -IntMax - 1 <= i <= IntMax
  }

  /** Go's conversion `uint(i)` of a 64-bit `int`: negative values wrap
      around to `i + 2^64`. */
  function ToUint(i: int): (u: nat)
    requires IsGoInt(i)
    ensures i >= 0 ==> u == i
    ensures i < 0 ==> u > IntMax
  {
    if i < 0 then i + UintModulus else i
  }

  /** `n` is 1, 2, 4, 8, ... */
  predicate IsPow2(n: nat)
    decreases n
  {
    if n <= 1 then n == 1 else n % 2 == 0 && IsPow2(n / 2)
  }

  /** Bitwise AND of two naturals, least significant bit first. */
  function BitAnd(a: nat, b: nat): nat
    decreases a
  {
    if a == 0 || b == 0 then 0
    else 2 * BitAnd(a / 2, b / 2) + (if a % 2 == 1 && b % 2 == 1 then 1 else 0)
  }

  lemma {:induction false} BitAndSelf(a: nat)
    ensures BitAnd(a, a) == a
    decreases a
  {
    if a != 0 {
      BitAndSelf(a / 2);
    }
  }

  /** The classic test `n & (n - 1) == 0` recognises exactly the powers of two
      among the positive integers. */
  lemma {:induction false} PowerOfTwoTest(n: nat)
    requires n >= 1
    ensures BitAnd(n, n - 1) == 0 <==> IsPow2(n)
    decreases n
  {
    if n == 1 {
    } else if n % 2 == 0 {
      assert (n - 1) / 2 == n / 2 - 1;
      PowerOfTwoTest(n / 2);
    } else {
      assert (n - 1) / 2 == n / 2;
      BitAndSelf(n / 2);
      assert BitAnd(n, n - 1) == 2 * (n / 2);
    }
  }

  /** `2^64`, the modulus of Go's `uint` arithmetic. */
  const UintModulus: int := 0x1_0000_0000_0000_0000

  /** The product of two powers of two is one. */
  lemma {:induction false} Pow2Product(a: nat, b: nat)
    requires IsPow2(a) && IsPow2(b)
    ensures IsPow2(a * b)
    decreases b
  {
    if b > 1 {
      var h := b / 2;
      Pow2Product(a, h);
      Pow2Double(a * h);
      MulTwice(a, h);
    }
  }

  lemma MulTwice(a: nat, h: nat)
    ensures a * (2 * h) == 2 * (a * h)
  {
  }

  lemma Pow2Double(n: nat)
    requires IsPow2(n)
    ensures IsPow2(2 * n)
  {
    assert (2 * n) / 2 == n;
  }

  lemma UintModulusIsPow2()
    ensures IsPow2(UintModulus)
  {
    assert IsPow2(0x100);
    Pow2Product(0x100, 0x100);
    Pow2Product(0x1_0000, 0x1_0000);
    Pow2Product(0x1_0000_0000, 0x1_0000_0000);
  }

  /** A positive multiple of `a` is at least `a`. */
  lemma {:induction false} MulAtLeast(a: int, m: int)
    requires a > 0 && m >= 1
    ensures a * m >= a
    decreases m
  {
    if m > 1 {
      MulAtLeast(a, m - 1);
      assert a * m == a * (m - 1) + a;
    }
  }

  /** The remainder of Euclidean division by `a` is the only `r` in
      `[0, a)` that differs from `z` by a multiple of `a`. */
  lemma ModUnique(z: int, a: int, k: int, r: int)
    requires a > 0 && 0 <= r < a && z == a * k + r
    ensures z % a == r
  {
    var d := z / a;
    var m := z % a;
    assert a * d + m == a * k + r;
    if d > k {
      assert a * (d - k) == r - m;
      MulAtLeast(a, d - k);
    } else if d < k {
      assert a * (k - d) == m - r;
      MulAtLeast(a, k - d);
    }
  }

  /** A power of two divides every larger power of two. */
  lemma {:induction false} Pow2Divides(a: nat, b: nat)
    requires IsPow2(a) && IsPow2(b) && a <= b
    ensures b % a == 0
    decreases a
  {
    if a > 1 {
      Pow2Divides(a / 2, b / 2);
      var q := (b / 2) / (a / 2);
      assert b / 2 == (a / 2) * q;
      ModUnique(b, a, q, 0);
    }
  }

  /** Reducing modulo a multiple `m` of `a` first does not change the
      remainder modulo `a`. */
  lemma ModMod(x: int, m: nat, a: nat)
    requires a > 0 && m > 0 && m % a == 0
    ensures (x % m) % a == x % a
  {
    var c := m / a;
    var y := x % m;
    assert m == a * c;
    assert x == m * (x / m) + y;
    assert y == a * (y / a) + y % a;
    assert x == a * (c * (x / m) + y / a) + y % a;
    ModUnique(x, a, c * (x / m) + y / a, y % a);
  }

  /** Adding a multiple of `a` does not change the remainder modulo `a`. */
  lemma ModShift(x: nat, q: nat, a: nat)
    requires a > 0
    ensures (x + a * q) % a == x % a
  {
    assert x + a * q == a * (x / a + q) + x % a;
    ModUnique(x + a * q, a, x / a + q, x % a);
  }

  /** The remainder modulo `2h` is built from the remainder of `x / 2`
      modulo `h` and the low bit of `x`. */
  lemma HalveMod(x: nat, h: nat)
    requires h > 0
    ensures x % (2 * h) == 2 * ((x / 2) % h) + x % 2
  {
    var q := (x / 2) / h;
    var r := (x / 2) % h;
    assert x / 2 == h * q + r;
    assert x == 2 * (x / 2) + x % 2;
    assert (2 * h) * q == 2 * (h * q);
    ModUnique(x, 2 * h, q, 2 * r + x % 2);
  }

  /** One step of `BitAnd` against the all-ones mask `2h - 1`. */
  lemma LowBitStep(x: nat, h: nat)
    requires x != 0 && h > 0
    ensures BitAnd(x, 2 * h - 1) == 2 * BitAnd(x / 2, h - 1) + x % 2
  {
    var m := 2 * h - 1;
    assert m / 2 == h - 1 && m % 2 == 1;
  }

  /** The induction step of `MaskIsMod`: from `x / 2` masked by `h - 1` to
      `x` masked by `2h - 1`. */
  lemma MaskStep(x: nat, h: nat)
    requires x != 0 && h > 0 && BitAnd(x / 2, h - 1) == (x / 2) % h
    ensures BitAnd(x, 2 * h - 1) == x % (2 * h)
  {
    LowBitStep(x, h);
    HalveMod(x, h);
  }

  /** Masking with `n - 1` keeps the remainder modulo a power of two `n`:
      `x & (n - 1)` is `x mod n`. */
  lemma {:induction false} MaskIsMod(x: nat, n: nat)
    requires IsPow2(n)
    ensures BitAnd(x, n - 1) == x % n
    decreases n
  {
    if n > 1 && x != 0 {
      var h := n / 2;
      assert n == 2 * h && IsPow2(h);
      MaskIsMod(x / 2, h);
      MaskStep(x, h);
    }
  }

  /** Indices of a ring whose storage holds `size` slots: both are zero when
      there is no storage, and both are below `size` otherwise. */
  predicate Indices(head: nat, tail: nat, size: nat)
  {
    if size == 0 then head == 0 && tail == 0 else head < size && tail < size
  }

  /** `(head - tail) & (size - 1)`: the number of live elements. */
  function Count(head: nat, tail: nat, size: nat): (n: nat)
    requires Indices(head, tail, size)
    ensures size > 0 ==> n < size
    ensures n == 0 <==> head == tail
  {
    if head >= tail then head - tail else head + size - tail
  }

  /** `(i + k) & (size - 1)`: the slot `k` places after slot `i`. */
  function Slot(i: nat, k: nat, size: nat): (j: nat)
    requires i < size && k < size
    ensures j < size
  {
    if i + k < size then i + k else i + k - size
  }

  /** `Count` agrees with the Euclidean remainder of `head - tail`, which is
      what masking an unsigned difference computes for a power-of-two size. */
  lemma CountIsMaskedDifference(head: nat, tail: nat, size: nat)
    requires size > 0 && Indices(head, tail, size)
    ensures Count(head, tail, size) == (head - tail) % size
  {
  }

  /** `Slot` agrees with the Euclidean remainder of `i + k`. */
  lemma SlotIsMaskedSum(i: nat, k: nat, size: nat)
    requires i < size && k < size
    ensures Slot(i, k, size) == (i + k) % size
  {
    if i + k < size {
      ModUnique(i + k, size, 0, i + k);
    } else {
      ModUnique(i + k, size, 1, i + k - size);
    }
  }

  /** `Count` is the source's `(head - tail) & mask` on `uint`s: the
      difference wraps modulo `2^64` when `head < tail`, and masking keeps
      its remainder modulo the power-of-two size. */
  lemma CountIsMasked(head: nat, tail: nat, size: nat)
    requires IsPow2(size) && size <= IntMax && Indices(head, tail, size)
    ensures Count(head, tail, size) == BitAnd((head - tail) % UintModulus, size - 1)
  {
    MaskIsMod((head - tail) % UintModulus, size);
    WordWrapKeepsRemainder(head - tail, size);
    CountIsMaskedDifference(head, tail, size);
  }

  /** `Slot` is the source's `(i + k) & mask` on `uint`s. */
  lemma SlotIsMasked(i: nat, k: nat, size: nat)
    requires IsPow2(size) && size <= IntMax && i < size && k < size
    ensures Slot(i, k, size) == BitAnd((i + k) % UintModulus, size - 1)
  {
    MaskIsMod((i + k) % UintModulus, size);
    WordWrapKeepsRemainder(i + k, size);
    SlotIsMaskedSum(i, k, size);
  }

  /** Wrapping modulo `2^64` does not change the remainder modulo a power
      of two no larger than `2^64`. */
  lemma WordWrapKeepsRemainder(x: int, size: nat)
    requires IsPow2(size) && size <= IntMax
    ensures (x % UintModulus) % size == x % size
  {
    UintModulusIsPow2();
    Pow2Divides(size, UintModulus);
    ModMod(x, UintModulus, size);
  }

  /** The remainder of `tail + i` is the slot `i mod size` places after
      `tail`. */
  lemma SlotOfSum(tail: nat, i: nat, size: nat)
    requires tail < size
    ensures (tail + i) % size == Slot(tail, i % size, size)
  {
    var k := i % size;
    var q := i / size;
    assert i == k + size * q;
    ModShift(tail + k, q, size);
    SlotIsMaskedSum(tail, k, size);
  }

  /** The head sits `Count` slots after the tail. */
  lemma HeadIsSlot(head: nat, tail: nat, size: nat)
    requires size > 0 && Indices(head, tail, size)
    ensures Slot(tail, Count(head, tail, size), size) == head
  {
  }

  /** The `n` live elements of a circular storage `s`, oldest first, starting
      at slot `tail`. */
  function Window<T>(s: seq<T>, tail: nat, n: nat): (w: seq<T>)
    requires n == 0 || (tail < |s| && n < |s|)
    ensures |w| == n
  {
    seq(n, k requires 0 <= k < n => s[Slot(tail, k, |s|)])
  }

  /** Advancing the tail by `m` slots drops the `m` oldest live elements. */
  lemma WindowDrop<T>(s: seq<T>, tail: nat, n: nat, m: nat)
    requires tail < |s| && m <= n < |s|
    ensures Window(s, Slot(tail, m, |s|), n - m) == Window(s, tail, n)[m..]
  {
    var a := Window(s, Slot(tail, m, |s|), n - m);
    var b := Window(s, tail, n)[m..];
    forall k | 0 <= k < n - m
      ensures a[k] == b[k]
    {
      assert Slot(Slot(tail, m, |s|), k, |s|) == Slot(tail, m + k, |s|);
    }
  }

  /** The live elements do not depend on the slots outside the live region. */
  lemma WindowFrame<T>(s: seq<T>, s': seq<T>, tail: nat, n: nat)
    requires |s| == |s'| && (n == 0 || (tail < |s| && n < |s|))
    requires forall k :: 0 <= k < n ==> s'[Slot(tail, k, |s|)] == s[Slot(tail, k, |s|)]
    ensures Window(s', tail, n) == Window(s, tail, n)
  {
  }

  /** Writing the slot just past the live region appends one element. */
  lemma WindowPush<T>(s: seq<T>, tail: nat, n: nat, x: T)
    requires tail < |s| && n + 1 < |s|
    ensures Window(s[Slot(tail, n, |s|) := x], tail, n + 1) == Window(s, tail, n) + [x]
  {
    var s' := s[Slot(tail, n, |s|) := x];
    var a := Window(s', tail, n + 1);
    var b := Window(s, tail, n) + [x];
    forall k | 0 <= k < n + 1
      ensures a[k] == b[k]
    {
      if k < n {
        assert Slot(tail, k, |s|) != Slot(tail, n, |s|);
      }
    }
  }

  /** A live region that does not cross the physical end is a plain slice. */
  lemma WindowContiguous<T>(s: seq<T>, tail: nat, n: nat)
    requires tail + n <= |s| && n < |s|
    requires n == 0 || tail < |s|
    ensures Window(s, tail, n) == s[tail..tail + n]
  {
  }

  /** Growing a window by `k` elements whose slots do not cross the physical
      end appends the slice that follows the old head. */
  lemma WindowExtend<T>(s: seq<T>, tail: nat, n: nat, k: nat)
    requires tail < |s| && n + k < |s|
    requires Slot(tail, n, |s|) + k <= |s|
    ensures Window(s, tail, n + k)
         == Window(s, tail, n) + s[Slot(tail, n, |s|)..Slot(tail, n, |s|) + k]
  {
    var h := Slot(tail, n, |s|);
    var a := Window(s, tail, n + k);
    var b := Window(s, tail, n) + s[h..h + k];
    forall j | 0 <= j < n + k
      ensures a[j] == b[j]
    {
      if j >= n {
        assert Slot(tail, j, |s|) == h + (j - n);
      }
    }
  }

  /** The `n` newest elements of `s`, or all of `s` when it is shorter. */
  function Newest<T>(s: seq<T>, n: nat): (w: seq<T>)
    ensures |w| == Min(|s|, n)
  {
    if |s| <= n then s else s[|s| - n..]
  }

  /** Keeping the newest `n` before appending `t` and again afterwards keeps
      the same elements as keeping the newest `n` only at the end. */
  lemma NewestAppend<T>(s: seq<T>, t: seq<T>, n: nat)
    ensures Newest(Newest(s, n) + t, n) == Newest(s + t, n)
  {
    if |s| > n && |t| > 0 {
      var u := s[|s| - n..];
      assert Newest(s, n) == u;
      assert Newest(u + t, n) == (u + t)[|t|..];
      assert Newest(s + t, n) == (s + t)[|s| + |t| - n..];
      SuffixOfAppend(s, t, n);
    }
  }

  /** The slice identity behind `NewestAppend`. */
  lemma SuffixOfAppend<T>(s: seq<T>, t: seq<T>, n: nat)
    requires |s| > n
    ensures (s[|s| - n..] + t)[|t|..] == (s + t)[|s| + |t| - n..]
  {
    var a := (s[|s| - n..] + t)[|t|..];
    var b := (s + t)[|s| + |t| - n..];
    assert |a| == |b| == n;
    forall i | 0 <= i < n
      ensures a[i] == b[i]
    {
    }
  }

  /** Appending one element to at most `n` and keeping the newest `n` drops
      the oldest exactly when there were already `n`. */
  lemma NewestPush<T>(c: seq<T>, x: T, n: nat)
    requires 0 < n && |c| <= n
    ensures Newest(c + [x], n) == (if |c| == n then c[1..] else c) + [x]
  {
    if |c| == n {
      assert (c + [x])[1..] == c[1..] + [x];
    }
  }

  /** The same, one element at a time: keeping the newest `n` after
      appending `xs[0]`, and again after appending the rest. */
  lemma NewestCons<T>(c: seq<T>, xs: seq<T>, n: nat)
    requires |xs| > 0
    ensures Newest(Newest(c + [xs[0]], n) + xs[1..], n) == Newest(c + xs, n)
  {
    NewestAppend(c + [xs[0]], xs[1..], n);
    assert c + [xs[0]] + xs[1..] == c + xs;
  }

  /** Every slot outside the live region holds `nil`, so that a ring of
      pointers keeps nothing alive that it no longer contains. */
  predicate Cleared<T>(s: seq<Option<T>>, head: nat, tail: nat)
    requires Indices(head, tail, |s|)
  {
    forall j :: 0 <= j < |s| && Count(j, tail, |s|) >= Count(head, tail, |s|) ==> s[j] == None
  }

  /** Removing the oldest element and clearing its slot keeps the slots
      outside the live region clear. */
  lemma ClearedAfterPop<T>(s: seq<Option<T>>, head: nat, tail: nat)
    requires Indices(head, tail, |s|) && |s| >= 2 && head != tail
    requires Cleared(s, head, tail)
    ensures Indices(head, Slot(tail, 1, |s|), |s[tail := None]|)
    ensures Cleared(s[tail := None], head, Slot(tail, 1, |s|))
  {
    var s' := s[tail := None];
    var t' := Slot(tail, 1, |s|);
    forall j | 0 <= j < |s'| && Count(j, t', |s'|) >= Count(head, t', |s'|)
      ensures s'[j] == None
    {
      if j != tail {
        assert Count(j, tail, |s|) >= Count(head, tail, |s|);
      }
    }
  }

  /** Storing an element at the head and advancing it keeps the slots outside
      the live region clear. */
  lemma ClearedAfterPush<T>(s: seq<Option<T>>, head: nat, tail: nat, x: Option<T>)
    requires Indices(head, tail, |s|) && |s| >= 2 && Count(head, tail, |s|) + 1 < |s|
    requires Cleared(s, head, tail)
    ensures Indices(Slot(head, 1, |s|), tail, |s[head := x]|)
    ensures Cleared(s[head := x], Slot(head, 1, |s|), tail)
  {
    var s' := s[head := x];
    var h' := Slot(head, 1, |s|);
    forall j | 0 <= j < |s'| && Count(j, tail, |s'|) >= Count(h', tail, |s'|)
      ensures s'[j] == None
    {
      assert j != head;
      assert Count(j, tail, |s|) >= Count(head, tail, |s|);
    }
  }

  /** `n` copies of `x`: a fresh Go slice filled with the zero value. */
  function Fill<T>(n: nat, x: T): (s: seq<T>)
    ensures |s| == n
    ensures forall i :: 0 <= i < n ==> s[i] == x
  {
    seq(n, _ => x)
  }

  /** Go's `copy(dst, src)`: the first `min(len(dst), len(src))` elements of
      `dst` are replaced by those of `src`. */
  function Copy<T>(dst: seq<T>, src: seq<T>): (d: seq<T>)
    ensures |d| == |dst|
  {
    seq(|dst|, i requires 0 <= i < |dst| => if i < |src| then src[i] else dst[i])
  }

  /** Element by element, `copy` takes from `src` while it lasts and keeps
      `dst` after that. */
  lemma CopyIndex<T>(dst: seq<T>, src: seq<T>)
    ensures forall i :: 0 <= i < |dst| ==> Copy(dst, src)[i] == (if i < |src| then src[i] else dst[i])
  {
  }

  /** The same, as slices: all of a shorter `src` followed by the rest of
      `dst`, or the front of a longer `src`. */
  lemma CopyPrefix<T>(dst: seq<T>, src: seq<T>)
    ensures |src| <= |dst| ==> Copy(dst, src)[..|src|] == src && Copy(dst, src)[|src|..] == dst[|src|..]
    ensures |src| >= |dst| ==> Copy(dst, src) == src[..|dst|]
  {
  }

  /** Go's `copy(s[lo:hi], src)`: the result of copying into a sub-slice. */
  function CopyInto<T>(s: seq<T>, lo: nat, hi: nat, src: seq<T>): (d: seq<T>)
    requires lo <= hi <= |s|
    ensures |d| == |s|
  {
    seq(|s|, i requires 0 <= i < |s| => if lo <= i < hi && i - lo < |src| then src[i - lo] else s[i])
  }

  /** Copying into `s[lo:hi]` changes only the slots from `lo` to `hi`, and
      those take the elements of `src` while it lasts. */
  lemma CopyIntoIndex<T>(s: seq<T>, lo: nat, hi: nat, src: seq<T>)
    requires lo <= hi <= |s|
    ensures forall i :: 0 <= i < |s| ==>
              CopyInto(s, lo, hi, src)[i]
              == (if lo <= i < hi && i - lo < |src| then src[i - lo] else s[i])
  {
    CopyIndex(s[lo..hi], src);
  }
}
