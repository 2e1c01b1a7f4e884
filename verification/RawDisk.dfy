/** RAW containers of sim_disk.c: sector transfers to a device whose own storage sectors are
    larger than, or not aligned with, the sectors of the simulated disk. */
module RawDisk {
  import opened Arithmetic
  import opened Bytes
  import opened HostFiles

  // ------------------------------------------------------------------ element order

  predicate ElementSize(e: nat) { e == 1 || e == 2 || e == 4 || e == 8 }

  function Reversed(s: seq<byte>): (r: seq<byte>)
    ensures |r| == |s| && forall i :: 0 <= i < |s| ==> r[i] == s[|s| - 1 - i]
  {
    seq<byte>(|s|, i requires 0 <= i < |s| => s[|s| - 1 - i])
  }

  /** Every whole element of e bytes reversed; a rest shorter than e stays. */
  function Swapped(s: seq<byte>, e: nat): (r: seq<byte>)
    requires e > 0
    ensures |r| == |s|
  {
    if |s| < e then s else Reversed(s[..e]) + Swapped(s[e..], e)
  }

  lemma SwapSplit(a: seq<byte>, b: seq<byte>, e: nat)
    requires 0 < e == |a|
    ensures Swapped(a + b, e) == Reversed(a) + Swapped(b, e)
  {
    hide Reversed;
    var s := a + b;
    assert s[..e] == a && s[e..] == b;
  }

  lemma ReversedTwice(a: seq<byte>)
    ensures Reversed(Reversed(a)) == a
  {
  }

  lemma {:induction false} SwapTwice(s: seq<byte>, e: nat)
    requires e > 0
    ensures Swapped(Swapped(s, e), e) == s
  {
    hide Reversed;
    if |s| >= e {
      var a, b := s[..e], s[e..];
      SwapTwice(b, e);
      ReversedTwice(a);
      SwapSplit(Reversed(a), Swapped(b, e), e);
      hide Swapped;
      assert a + b == s;
    }
  }

  /** The size of n elements. */
  function Items(n: nat, e: nat): nat { n * e }

  /** How many whole items of e bytes there are in n bytes. */
  function Count(n: nat, e: nat): nat
    requires e > 0
  {
    n / e
  }

  predicate Whole(n: nat, e: nat)
    requires e > 0
  {
    n % e == 0
  }

  lemma NextItem(n: nat, e: nat, count: nat)
    requires n < count
    ensures Items(0, e) == 0 && Items(n, e) + e == Items(n + 1, e) <= Items(count, e)
  {
    MulLe(n + 1, count, e);
  }

  lemma SwapFirst(s: seq<byte>, e: nat)
    requires 0 < e <= |s|
    ensures Swapped(s[..e], e) == Swapped(s[..0], e) + Reversed(s[0..e])
  {
    hide Reversed;
    var t := s[..e];
    SwapSplit(t, [], e);
    assert t + [] == t && s[..0] == [] && s[0..e] == t;
    assert Swapped([], e) == [];
  }

  lemma Assoc(a: seq<byte>, b: seq<byte>, c: seq<byte>)
    ensures a + b + c == a + (b + c)
  {
  }

  lemma Cuts(s: seq<byte>, q: nat, e: nat)
    requires q + e + e <= |s|
    ensures var h, t := s[..e], s[e..];
      s[..q + e + e] == h + t[..q + e] && s[..q + e] == h + t[..q] && t[q..q + e] == s[q + e..q + e + e]
  {
  }

  lemma SwapShift(s: seq<byte>, q: nat, e: nat)
    requires e > 0 && q + e + e <= |s|
    requires var t := s[e..]; Swapped(t[..q + e], e) == Swapped(t[..q], e) + Reversed(t[q..q + e])
    ensures var p := q + e; Swapped(s[..p + e], e) == Swapped(s[..p], e) + Reversed(s[p..p + e])
  {
    hide Reversed, Swapped;
    var h, t := s[..e], s[e..];
    Cuts(s, q, e);
    SwapSplit(h, t[..q + e], e);
    SwapSplit(h, t[..q], e);
    Assoc(Reversed(h), Swapped(t[..q], e), Reversed(t[q..q + e]));
  }

  /** Swapping works element by element from either end. */
  lemma {:induction false} SwapOneMore(s: seq<byte>, n: nat, e: nat)
    requires e > 0 && Items(n, e) + e <= |s|
    ensures var p := Items(n, e); Swapped(s[..p + e], e) == Swapped(s[..p], e) + Reversed(s[p..p + e])
    decreases n
  {
    hide Items, Swapped, Reversed;
    if n == 0 {
      NextItem(0, e, 1);
      SwapFirst(s, e);
    } else {
      NextItem(n - 1, e, n);
      SwapOneMore(s[e..], n - 1, e);
      SwapShift(s, Items(n - 1, e), e);
    }
  }

  lemma {:induction false} SwapPrefix(s: seq<byte>, n: nat, e: nat)
    requires e > 0 && Items(n, e) <= |s|
    ensures Swapped(s, e)[..Items(n, e)] == Swapped(s[..Items(n, e)], e)
    decreases n
  {
    hide Items, Reversed;
    if n == 0 {
      NoItems(s, e);
    } else {
      NextItem(n - 1, e, n);
      var q := Items(n - 1, e);
      SwapPrefix(s[e..], n - 1, e);
      PrefixSlices(s, e, q);
      TakeJoined(Reversed(s[..e]), Swapped(s[e..], e), q);
    }
  }

  lemma PrefixSlices(s: seq<byte>, e: nat, q: nat)
    requires e + q <= |s|
    ensures s[e..][..q] == s[..e + q][e..] && s[..e + q][..e] == s[..e]
  {
  }

  lemma TakeJoined(a: seq<byte>, b: seq<byte>, q: nat)
    requires q <= |b|
    ensures (a + b)[..|a| + q] == a + b[..q]
  {
  }

  /** What the container holds for the bytes of a caller's buffer: little-endian elements. */
  function Stored(s: seq<byte>, e: nat, littleEndian: bool): (r: seq<byte>)
    requires ElementSize(e)
    ensures |r| == |s|
  {
    if littleEndian || e == 1 then s else Swapped(s, e)
  }

  lemma StoredTwice(s: seq<byte>, e: nat, littleEndian: bool)
    requires ElementSize(e)
    ensures Stored(Stored(s, e, littleEndian), e, littleEndian) == s
  {
    SwapTwice(s, e);
  }

  lemma PutAgain(was: seq<byte>, at: nat, done: seq<byte>, next: seq<byte>)
    requires at + |done| + |next| <= |was|
    ensures Put(Put(was, at, done), at + |done|, next) == Put(was, at, done + next)
  {
    hide Put;
  }

  lemma PutBeyond(was: seq<byte>, at: nat, done: seq<byte>, e: nat)
    requires at + |done| + e <= |was|
    ensures var p := at + |done|; Put(was, at, done)[p..p + e] == was[p..p + e]
  {
  }

  lemma PutNothing(was: seq<byte>, at: nat, n: nat)
    requires at + n <= |was|
    ensures Put(was, at, []) == was && Put(was, at, was[at..at + n]) == was
  {
    hide Put;
  }

  method CopyPlain(dst: array<byte>, at: nat, src: seq<byte>)
    requires at + |src| <= dst.Length
    modifies dst
    ensures dst[..] == Put(old(dst[..]), at, src)
  {
    hide Put;
    forall i | 0 <= i < |src| { dst[at + i] := src[i]; }
  }

  /** sim_buf_copy_swapped: each element is copied end for end on a big-endian host. */
  method CopySwapped(dst: array<byte>, at: nat, src: seq<byte>, e: nat, count: nat, littleEndian: bool)
    requires ElementSize(e) && |src| == Items(count, e) && at + |src| <= dst.Length
    modifies dst
    ensures dst[..] == Put(old(dst[..]), at, Stored(src, e, littleEndian))
  {
    hide Items, Count, Whole, Swapped, Reversed, Put;
    ghost var was := dst[..];
    if littleEndian || e == 1 {
      CopyPlain(dst, at, src);
      return;
    }
    var j, p := 0, 0;
    NoItems(src, e);
    PutNothing(was, at, 0);
    while j < count
      invariant 0 <= j <= count && p == Items(j, e) && p <= |src|
      invariant dst[..] == Put(was, at, Swapped(src[..p], e))
    {
      NextItem(j, e, count);
      var x := src[p..p + e];
      NextSwapped(was, at, src, j, e, x);
      CopyElement(dst, at + p, x, e);
      j, p := j + 1, p + e;
    }
    assert src[..p] == src;
  }

  lemma NoItems(s: seq<byte>, e: nat)
    requires e > 0
    ensures Items(0, e) == 0 && Swapped(s[..0], e) == []
  {
  }

  method CopyElement(dst: array<byte>, at: nat, src: seq<byte>, e: nat)
    requires |src| == e && at + e <= dst.Length
    modifies dst
    ensures dst[..] == Put(old(dst[..]), at, Reversed(src))
  {
    hide Put;
    var k := e;
    while k > 0
      invariant 0 <= k <= e
      invariant forall i :: 0 <= i < dst.Length ==>
        dst[i] == if at + k <= i < at + e then src[at + e - 1 - i] else old(dst[i])
    {
      k := k - 1;
      dst[at + k] := src[e - 1 - k];
    }
  }

  /** sim_buf_swap_data: the same in place, each element by a byte-swap intrinsic. */
  method SwapData(buf: array<byte>, at: nat, e: nat, count: nat, littleEndian: bool)
    requires ElementSize(e) && at + Items(count, e) <= buf.Length
    modifies buf
    ensures var was, n := old(buf[..]), Items(count, e);
      buf[..] == Put(was, at, Stored(was[at..at + n], e, littleEndian))
  {
    hide Items, Count, Whole, Swapped, Reversed, Put;
    ghost var was, n := buf[..], Items(count, e);
    ghost var src := was[at..at + n];
    if littleEndian || count == 0 || e == 1 {
      NoItems(src, e);
      PutNothing(was, at, n);
      return;
    }
    var j, p := 0, 0;
    NoItems(src, e);
    PutNothing(was, at, 0);
    while j < count
      invariant 0 <= j <= count && p == Items(j, e) && p <= n
      invariant buf[..] == Put(was, at, Swapped(src[..p], e))
    {
      NextItem(j, e, count);
      SwapElement(buf, at, e, j, p, was, src);
      j, p := j + 1, p + e;
    }
    assert src[..p] == src;
  }

  /** Element j in place, the ones before it being swapped. */
  method SwapElement(buf: array<byte>, at: nat, e: nat, ghost j: nat, p: nat, ghost was: seq<byte>, ghost src: seq<byte>)
    requires e > 0 && p == Items(j, e) && p + e <= |src| && at + |src| <= |was| && src == was[at..at + |src|]
    requires buf[..] == Put(was, at, Swapped(src[..p], e))
    modifies buf
    ensures buf[..] == Put(was, at, Swapped(src[..p + e], e))
  {
    hide Items, Swapped, Reversed, Put;
    NextElement(was, at, |src|, Swapped(src[..p], e), e);
    var x := buf[..][at + p..at + p + e];
    NextSwapped(was, at, src, j, e, x);
    CopyElement(buf, at + p, x, e);
  }

  /** One more element of the bytes `src` at `at` is swapped in place. */
  lemma NextSwapped(was: seq<byte>, at: nat, src: seq<byte>, j: nat, e: nat, x: seq<byte>)
    requires e > 0 && at + |src| <= |was| && Items(j, e) + e <= |src|
    requires var p := Items(j, e); x == src[p..p + e]
    ensures var p := Items(j, e);
      Put(Put(was, at, Swapped(src[..p], e)), at + p, Reversed(x)) == Put(was, at, Swapped(src[..p + e], e))
  {
    hide Items, Swapped, Reversed, Put;
    var p := Items(j, e);
    SwapOneMore(src, j, e);
    PutAgain(was, at, Swapped(src[..p], e), Reversed(x));
  }

  /** The next element is still as it was, and is the one of the request's bytes. */
  lemma NextElement(was: seq<byte>, at: nat, n: nat, done: seq<byte>, e: nat)
    requires at + n <= |was| && |done| + e <= n
    ensures var p := |done|; Put(was, at, done)[at + p..at + p + e] == was[at..at + n][p..p + e]
  {
    hide Put;
    SubSlice(was, at, n, |done|, e);
    PutBeyond(was, at, done, e);
  }

  // ------------------------------------------------------------------ the storage window

  /** The storage sectors a transfer of n bytes at `start` touches: the window starts at
      AlignDown(start, a) and is a whole number of sectors long. */
  function WindowSize(start: nat, n: nat, a: nat): (w: nat)
    requires a > 0
  {
    AlignUp(start - AlignDown(start, a) + n, a)
  }

  lemma WindowFacts(start: nat, n: nat, a: nat)
    requires a > 0
    ensures var first, last, end := AlignDown(start, a), AlignDown(start + n, a), start + n;
      && first <= start < first + a
      && first <= last <= end < last + a
      && first + WindowSize(start, n, a) == (if last == end then last else last + a)
  {
    hide AlignDown, AlignUp;
    var q := DownIs(start, a);
    var p := DownIs(start + n, a);
    var first, last := AlignDown(start, a), AlignDown(start + n, a);
    MultipleGap(start, start + n, q, p, a, first, last);
    UpIs(start - first + n, p - q, start + n - last, a);
  }

  /** The multiples of a below two positions, and how far they are apart. */
  lemma MultipleGap(start: nat, end: nat, q: nat, p: nat, a: nat, first: nat, last: nat)
    requires first == q * a && last == p * a && first <= start <= end < last + a
    ensures q <= p && first <= last && (p - q) * a == last - first
  {
    MulGap(p, q, a);
    MulLe(q, p, a);
  }

  /** The code rounds down by clearing bits, which is right for powers of two. */
  lemma MaskedDown(n: nat, a: nat)
    requires PowerOfTwo(a)
    ensures AlignDown(n, a) == n - And(n, a - 1)
  {
    hide And, Pow2;
    BitTest(a);
    var k: nat :| Pow2(k) == a;
    MaskIs(n, k);
    assert n == n / a * a + n % a;
  }

  lemma AlignedDown(n: nat, a: nat)
    requires a > 0
    ensures AlignDown(n, a) == n <==> n % a == 0
    ensures n == 0 ==> n % a == 0
  {
    if n == 0 {
      DivUnique(a, 0, 0);
    }
    assert n == n / a * a + n % a;
  }

  /** Two multiples of a add up to one, and so does their difference. */
  lemma MultiplesAdd(x: nat, y: nat, a: nat)
    requires a > 0 && x % a == 0
    ensures (x + y) % a == 0 <==> y % a == 0
  {
    var p, q, r := x / a, y / a, y % a;
    assert x + y == (p + q) * a + r by {
      assert x == p * a && y == q * a + r;
    }
    DivUnique(a, p + q, r);
  }

  lemma WholeItems(k: nat, e: nat, a: nat)
    requires a > 0 && e % a == 0
    ensures Items(k, e) % a == 0
  {
    var q := e / a;
    assert k * e == (k * q) * a by {
      assert e == q * a;
    }
    DivUnique(a, k * q, 0);
  }

  lemma DownIs(n: nat, a: nat) returns (q: nat)
    requires a > 0
    ensures AlignDown(n, a) == q * a <= n < q * a + a
  {
    q := n / a;
    assert n == q * a + n % a;
  }

  lemma UpIs(n: nat, q: nat, r: nat, a: nat)
    requires n == q * a + r && r < a
    ensures AlignUp(n, a) == if r == 0 then q * a else q * a + a
  {
    if r == 0 {
      DivUnique(a, q, a - 1);
    } else {
      assert (q + 1) * a == q * a + a;
      DivUnique(a, q + 1, r - 1);
    }
  }

  /** A request of `sects` sectors is a whole number of elements. */
  lemma WholeElements(sects: nat, ss: nat, e: nat)
    requires e > 0 && Whole(ss, e)
    ensures Items(Count(Items(sects, ss), e), e) == Items(sects, ss)
  {
    var unit := ss / e;
    assert sects * ss == (sects * unit) * e by {
      assert ss == unit * e;
      assert sects * (unit * e) == (sects * unit) * e;
    }
    DivUnique(e, sects * unit, 0);
  }

  /** After a write of `payload` at `start`: the payload is stored, every other byte the
      container had is unchanged, and the container grew only if the window passed its end. */
  ghost predicate Written(before: seq<byte>, after: seq<byte>, start: nat, payload: seq<byte>, windowEnd: nat) {
    && |after| == Max(|before|, windowEnd)
    && (payload != [] ==> start + |payload| <= windowEnd)
    && (forall i :: start <= i < start + |payload| ==> after[i] == payload[i - start])
    && (forall i :: 0 <= i < |before| && !(start <= i < start + |payload|) ==> after[i] == before[i])
  }

  /** When the window lies in the container, nothing but the payload changes at all. */
  lemma WindowInside(before: seq<byte>, after: seq<byte>, start: nat, payload: seq<byte>, windowEnd: nat)
    requires Written(before, after, start, payload, windowEnd)
    ensures windowEnd <= |before| ==> after == Splice(before, start, payload)
    ensures |after| > |before| <==> windowEnd > |before|
  {
    if windowEnd <= |before| {
      var spliced := Splice(before, start, payload);
      assert forall i :: 0 <= i < |before| ==> after[i] == spliced[i];
    }
  }

  /** The transfer buffer holds the window: payload and, around it, what the container has. */
  ghost predicate Prepared(t: seq<byte>, before: seq<byte>, first: nat, start: nat, payload: seq<byte>, w: nat) {
    && w <= |t| && first <= start && start + |payload| <= first + w
    && (forall j :: 0 <= j < w ==>
          if start <= first + j < start + |payload| then t[j] == payload[first + j - start]
          else first + j < |before| ==> t[j] == before[first + j])
  }

  ghost predicate Surrounded(t: seq<byte>, before: seq<byte>, first: nat, start: nat, n: nat, w: nat) {
    && w <= |t| && first <= start && start + n <= first + w
    && (forall j :: 0 <= j < w && !(start <= first + j < start + n) && first + j < |before| ==>
          t[j] == before[first + j])
  }

  lemma PutIsPrepared(t: seq<byte>, before: seq<byte>, first: nat, start: nat, payload: seq<byte>, w: nat)
    requires Surrounded(t, before, first, start, |payload|, w)
    ensures Prepared(Put(t, start - first, payload), before, first, start, payload, w)
  {
    hide Put;
  }

  lemma PreparedIsWritten(t: seq<byte>, before: seq<byte>, first: nat, start: nat, payload: seq<byte>, w: nat)
    requires Prepared(t, before, first, start, payload, w) && w > 0
    ensures Written(before, Splice(before, first, t[..w]), start, payload, first + w)
  {
    var after := Splice(before, first, t[..w]);
    forall i | start <= i < start + |payload| ensures after[i] == payload[i - start] {
      assert after[i] == t[i - first];
    }
    forall i | 0 <= i < |before| && !(start <= i < start + |payload|) ensures after[i] == before[i] {
      if first <= i < first + w {
        assert after[i] == t[i - first];
      }
    }
  }

  lemma PutAll(was: seq<byte>, data: seq<byte>)
    requires |data| == |was|
    ensures Put(was, 0, data) == data
  {
  }

  lemma SpliceIsWritten(before: seq<byte>, start: nat, payload: seq<byte>)
    ensures Written(before, Splice(before, start, payload), start, payload,
      if payload == [] then 0 else start + |payload|)
  {
  }

  class Disk {
    const sectorSize: nat
    const storageSector: uint32
    const element: nat
    const littleEndian: bool
    const limit: nat
    const file: HostFile
    var highwater: nat

    ghost predicate Valid() {
      && sectorSize > 0 && PowerOfTwo(storageSector) && ElementSize(element) && Whole(sectorSize, element)
    }

    constructor (sectorSize: nat, storageSector: uint32, element: nat, littleEndian: bool, limit: nat, file: HostFile)
      requires sectorSize > 0 && PowerOfTwo(storageSector) && ElementSize(element) && Whole(sectorSize, element)
      ensures Valid() && this.file == file && this.limit == limit
      ensures this.sectorSize == sectorSize && this.storageSector == storageSector
      ensures this.element == element && this.littleEndian == littleEndian
    {
      this.sectorSize, this.storageSector := sectorSize, storageSector;
      this.element, this.littleEndian := element, littleEndian;
      this.limit, this.file, this.highwater := limit, file, 0;
    }

    /** Sector-aligned, whole-sector transfers need no window. */
    predicate Aligned(lba: nat, sects: nat)
      requires storageSector > 0
    {
      || sectorSize % storageSector == 0
      || (Items(lba, sectorSize) % storageSector == 0 && Items(sects, sectorSize) % storageSector == 0)
    }

    /** A transfer needs no window exactly if it begins and ends at a storage sector. */
    lemma AlignedIs(lba: nat, sects: nat)
      requires storageSector > 0
      ensures Aligned(lba, sects) <==>
        && Items(lba, sectorSize) % storageSector == 0
        && (Items(lba, sectorSize) + Items(sects, sectorSize)) % storageSector == 0
    {
      hide Items;
      var start, n := Items(lba, sectorSize), Items(sects, sectorSize);
      if sectorSize % storageSector == 0 {
        WholeItems(lba, sectorSize, storageSector);
        WholeItems(sects, sectorSize, storageSector);
      }
      if start % storageSector == 0 {
        MultiplesAdd(start, n, storageSector);
      }
    }

    /** Where the bytes a write touches end. */
    ghost function TouchedTo(lba: nat, sects: nat): nat
      requires Valid()
    {
      var start, n := Items(lba, sectorSize), Items(sects, sectorSize);
      if n == 0 && Aligned(lba, sects) then 0
      else if Aligned(lba, sects) then start + n
      else AlignDown(start, storageSector) + WindowSize(start, n, storageSector)
    }

    /** sim_disk_wrsect on a RAW container. */
    method WriteSectors(lba: nat, data: seq<byte>, sects: nat) returns (written: nat)
      requires Valid() && |data| == Items(sects, sectorSize)
      modifies this, file
      ensures written == sects
      ensures Written(old(file.data), file.data, Items(lba, sectorSize),
        Stored(data, element, littleEndian), TouchedTo(lba, sects))
      ensures highwater == if sects > 0 then Max(old(highwater), Items(lba, sectorSize) + |data|) else old(highwater)
    {
      hide Items, Count, Whole, Stored, Aligned, WindowSize, AlignDown, Written;
      WholeElements(sects, sectorSize, element);
      Unaligned(lba, sects);
      var start, n := Items(lba, sectorSize), |data|;
      if Aligned(lba, sects) {
        WriteAligned(start, data);
      } else {
        WriteWindow(start, data);
      }
      written := sects;
      if written > 0 {
        highwater := Max(highwater, start + n);
      }
    }

    method WriteAligned(start: nat, data: seq<byte>)
      requires Valid() && Items(Count(|data|, element), element) == |data|
      modifies file
      ensures Written(old(file.data), file.data, start, Stored(data, element, littleEndian),
        if data == [] then 0 else start + |data|)
    {
      hide Items, Count, Whole, Stored, Put, Written, Splice;
      var tbuf := new byte[|data|];
      PutAll(tbuf[..], Stored(data, element, littleEndian));
      SpliceIsWritten(file.data, start, Stored(data, element, littleEndian));
      CopySwapped(tbuf, 0, data, element, Count(|data|, element), littleEndian);
      file.WriteFilePosition(tbuf[..], start);
    }

    lemma Unaligned(lba: nat, sects: nat)
      requires Valid()
      ensures !Aligned(lba, sects) ==>
        WindowSize(Items(lba, sectorSize), Items(sects, sectorSize), storageSector) > 0
    {
      hide Items, AlignDown, WindowSize;
      var start, n, a := Items(lba, sectorSize), Items(sects, sectorSize), storageSector;
      WindowFacts(start, n, a);
      AlignedDown(start, a);
      AlignedDown(0, a);
    }

    lemma Reaches(lba: nat, sects: nat)
      requires Valid()
      ensures !Aligned(lba, sects) ==> Items(lba, sectorSize) + Items(sects, sectorSize) <= TouchedTo(lba, sects)
    {
      hide Items;
      WindowFacts(Items(lba, sectorSize), Items(sects, sectorSize), storageSector);
    }

    /** The read-modify-write of a window: the first storage sector is read when the data
        does not start on it, the last one always. */
    method WriteWindow(start: nat, data: seq<byte>)
      requires Valid() && Items(Count(|data|, element), element) == |data|
      requires WindowSize(start, |data|, storageSector) > 0
      modifies file
      ensures Written(old(file.data), file.data, start, Stored(data, element, littleEndian),
        AlignDown(start, storageSector) + WindowSize(start, |data|, storageSector))
    {
      hide Items, Count, Whole, Stored, WindowSize, AlignDown, Put, Prepared, Written;
      var n := |data|;
      WindowFacts(start, n, storageSector);
      var ssaddr := AlignDown(start, storageSector);
      var w := WindowSize(start, n, storageSector);
      var tbuf := new byte[n + 2 * storageSector];
      ghost var before, payload := file.data, Stored(data, element, littleEndian);
      ReadAround(tbuf, start, n);
      ghost var around := tbuf[..];
      CopySwapped(tbuf, start - ssaddr, data, element, Count(n, element), littleEndian);
      PutIsPrepared(around, before, ssaddr, start, payload, w);
      PreparedIsWritten(tbuf[..], before, ssaddr, start, payload, w);
      assert tbuf[..w] == tbuf[..][..w];
      file.WriteFilePosition(tbuf[..w], ssaddr);
    }

    method ReadAround(tbuf: array<byte>, start: nat, n: nat)
      requires Valid() && tbuf.Length == n + 2 * storageSector
      modifies tbuf
      ensures Surrounded(tbuf[..], file.data, AlignDown(start, storageSector), start, n,
        WindowSize(start, n, storageSector))
    {
      hide WindowSize, AlignDown;
      WindowFacts(start, n, storageSector);
      var ssaddr, sladdr := AlignDown(start, storageSector), AlignDown(start + n, storageSector);
      var soffset := start - ssaddr;
      if soffset != 0 {
        var _ := file.ReadFilePosition(tbuf, 0, storageSector, ssaddr);
      }
      var _ := file.ReadFilePosition(tbuf, sladdr - ssaddr, storageSector, sladdr);
    }

    /** A request whose window and the wrapped byte count of a read behind the end of the
        container stay apart: less than 4 GiB by three storage sectors and an element. */
    predicate Moderate(n: nat) {
      n + 3 * storageSector + element <= W32
    }

    /** The position is the start of a storage sector. */
    predicate AtBoundary(start: nat)
      requires storageSector > 0
    {
      AlignDown(start, storageSector) == start
    }

    /** sim_disk_rdsect on a RAW container.  A single sector past the capacity reads as
        zeros; a request past the end of the container comes back short when it needs a
        window and padded with zeros when it does not.  A request that starts behind the end and
        inside a storage sector makes the byte count wrap: every sector counts as read, and unless the elements
        need no swapping the swap runs past the buffer, which is what `fits` denies. */
    method ReadSectors(lba: nat, sects: nat) returns (fits: bool, buf: seq<byte>, got: nat)
      requires Valid()
      ensures fits ==> |buf| == Items(sects, sectorSize)
      ensures var start, n, past := Items(lba, sectorSize), Items(sects, sectorSize), sects == 1 && lba >= limit;
        && (past ==> fits && got == 1 && buf == Zeros(n))
        && (!past && Aligned(lba, sects) ==>
              fits && got == sects && buf == Stored(Window(file.data, start, n), element, littleEndian))
        && (!past && !Aligned(lba, sects) && start <= |file.data| ==>
              fits && got == Min(sects, Count(|file.data| - start, sectorSize)) && Delivered(buf, got, start))
        && (!past && !Aligned(lba, sects) && start > |file.data| && AtBoundary(start) ==> fits && got == 0)
        && (!past && !Aligned(lba, sects) && start > |file.data| && !AtBoundary(start) && Moderate(n) ==>
              got == sects && (fits <==> littleEndian || element == 1))
    {
      hide Items, Count, Whole, Aligned, Stored, Window, Delivered;
      WholeElements(sects, sectorSize, element);
      var start, n := Items(lba, sectorSize), Items(sects, sectorSize);
      if sects == 1 && lba >= limit {
        return true, Zeros(n), 1;
      }
      if Aligned(lba, sects) {
        buf := ReadPadded(start, n);
        fits, got := true, sects;
      } else {
        fits, buf, got := ReadUnaligned(start, sects);
      }
    }

    method ReadUnaligned(start: nat, sects: nat) returns (fits: bool, buf: seq<byte>, got: nat)
      requires Valid()
      ensures fits ==> |buf| == Items(sects, sectorSize)
      ensures start <= |file.data| ==>
        fits && got == Min(sects, Count(|file.data| - start, sectorSize)) && Delivered(buf, got, start)
      ensures start > |file.data| && AtBoundary(start) ==> fits && got == 0
      ensures start > |file.data| && !AtBoundary(start) && Moderate(Items(sects, sectorSize)) ==>
        got == sects && (fits <==> littleEndian || element == 1)
    {
      hide Items, Count, Whole, Stored;
      ghost var due := if start <= |file.data| then Min(sects, Count(|file.data| - start, sectorSize)) else 0;
      ghost var m := Items(due, sectorSize);
      WholeElements(due, sectorSize, element);
      ItemsLe(due, sects, sectorSize);
      var bytes;
      fits, buf, bytes := ReadWindow(start, Items(sects, sectorSize), m);
      got := Min(Count(bytes, sectorSize), sects);
      if start <= |file.data| {
        Counted(bytes, |file.data| - start, sects, sectorSize);
      } else if AtBoundary(start) {
        NothingCounted(sectorSize);
      } else if Items(sects, sectorSize) <= bytes {
        FullCount(bytes, sects, sectorSize);
      }
    }

    /** The first `got` sectors of the buffer are those of the container. */
    ghost predicate Delivered(buf: seq<byte>, got: nat, start: nat)
      requires Valid()
      reads file
    {
      var m := Items(got, sectorSize);
      && m <= |buf| && start + m <= |file.data|
      && buf[..m] == Stored(file.data[start..start + m], element, littleEndian)
    }

    method ReadPadded(start: nat, n: nat) returns (buf: seq<byte>)
      requires Valid() && Items(Count(n, element), element) == n
      ensures buf == Stored(Window(file.data, start, n), element, littleEndian)
    {
      hide Items, Count, Whole, Stored;
      var raw := new byte[n](i => 0);
      var _ := file.ReadFilePosition(raw, 0, n, start);
      ghost var was := raw[..];
      assert was == Window(file.data, start, n);
      assert was[0..0 + n] == was;
      PutAll(was, Stored(was, element, littleEndian));
      SwapData(raw, 0, element, Count(n, element), littleEndian);
      buf := raw[..];
    }

    /** Reads whole storage sectors and takes the request out of them; `bytes` counts what
        was read from the request's start on, in 32 bits. */
    method ReadWindow(start: nat, n: nat, ghost m: nat) returns (fits: bool, buf: seq<byte>, bytes: nat)
      requires Valid() && Items(Count(m, element), element) == m <= n
      ensures fits ==> |buf| == n
      ensures start <= |file.data| ==> fits
      ensures start <= |file.data| ==> bytes <= |file.data| - start && (n <= bytes || bytes == |file.data| - start)
      ensures start <= |file.data| && m <= bytes ==>
        buf[..m] == Stored(file.data[start..start + m], element, littleEndian)
      ensures start > |file.data| && AtBoundary(start) ==> fits && bytes == 0
      ensures start > |file.data| && !AtBoundary(start) ==> W32 - storageSector < bytes < W32
      ensures start > |file.data| && !AtBoundary(start) && Moderate(n) ==> (fits <==> littleEndian || element == 1)
    {
      hide Items, Count, Whole, Stored, AlignDown, Put;
      var tbuf, soffset, bytesread := FetchWindow(start, n);
      if bytesread < soffset {
        bytes := W32 - (soffset - bytesread);
        WholeUpTo(bytes, element);
        var inside := soffset + Items(Count(bytes, element), element) <= tbuf.Length;
        if inside {
          SwapData(tbuf, soffset, element, Count(bytes, element), littleEndian);
        }
        return inside || littleEndian || element == 1, tbuf[soffset..soffset + n], bytes;
      }
      fits, bytes := true, bytesread - soffset;
      ghost var raw := tbuf[..];
      CountedItems(bytes, m, element);
      SwapData(tbuf, soffset, element, Count(bytes, element), littleEndian);
      ghost var after := tbuf[..];
      buf := tbuf[soffset..soffset + n];
      assert buf == after[soffset..soffset + n];
      if start <= |file.data| && m <= bytes {
        Extracted(raw, after, file.data, start, soffset, n, bytes, m, element, littleEndian);
      }
    }

    method FetchWindow(start: nat, n: nat) returns (tbuf: array<byte>, soffset: nat, bytesread: nat)
      requires Valid()
      ensures fresh(tbuf) && tbuf.Length == n + 2 * storageSector
      ensures soffset < storageSector && bytesread <= tbuf.Length
      ensures soffset == 0 <==> AtBoundary(start)
      ensures start > |file.data| ==> if AtBoundary(start) then bytesread == 0 else bytesread < soffset
      ensures start <= |file.data| ==> bytesread >= soffset && bytesread - soffset <= |file.data| - start
      ensures start <= |file.data| ==> n <= bytesread - soffset || bytesread - soffset == |file.data| - start
      ensures start <= |file.data| ==>
        forall i :: soffset <= i < bytesread ==> tbuf[i] == file.data[start + (i - soffset)]
    {
      hide AlignDown;
      WindowFacts(start, n, storageSector);
      DownFacts(n + 2 * storageSector, storageSector);
      var ssaddr, tbufsize := AlignDown(start, storageSector), n + 2 * storageSector;
      soffset := start - ssaddr;
      tbuf := new byte[tbufsize];
      bytesread := file.ReadFilePosition(tbuf, 0, AlignDown(tbufsize, storageSector), ssaddr);
    }
  }

  /** The whole elements of what was read are swapped, so any whole elements of it are. */
  lemma Extracted(raw: seq<byte>, after: seq<byte>, file: seq<byte>, start: nat, soffset: nat, n: nat,
                  bytes: nat, m: nat, e: nat, littleEndian: bool)
    requires ElementSize(e) && Items(Count(m, e), e) == m <= bytes && m <= n && soffset + n <= |raw|
    requires start + bytes <= |file| && soffset + bytes <= |raw|
    requires forall i :: soffset <= i < soffset + bytes ==> raw[i] == file[start + (i - soffset)]
    requires m <= Items(Count(bytes, e), e) <= bytes
    requires after == Put(raw, soffset, Stored(raw[soffset..soffset + Items(Count(bytes, e), e)], e, littleEndian))
    ensures after[soffset..soffset + n][..m] == Stored(file[start..start + m], e, littleEndian)
  {
    hide Put, Stored, Items;
    var c := Items(Count(bytes, e), e);
    var src := raw[soffset..soffset + c];
    StoredPrefix(src, m, e, littleEndian);
    Same(raw, file, start, soffset, bytes, c, m);
    var u, v := after[soffset..soffset + n], Stored(src, e, littleEndian);
    assert forall i :: 0 <= i < m ==> u[i] == v[i];
    assert u[..m] == v[..m];
  }

  lemma Same(raw: seq<byte>, file: seq<byte>, start: nat, soffset: nat, bytes: nat, c: nat, m: nat)
    requires start + bytes <= |file| && soffset + bytes <= |raw| && m <= c <= bytes
    requires forall i :: soffset <= i < soffset + bytes ==> raw[i] == file[start + (i - soffset)]
    ensures raw[soffset..soffset + c][..m] == file[start..start + m]
  {
    var p, q := raw[soffset..soffset + c][..m], file[start..start + m];
    assert |p| == |q| && forall i :: 0 <= i < m ==> p[i] == q[i];
  }

  lemma ItemsLe(m: nat, n: nat, e: nat)
    requires m <= n
    ensures Items(m, e) <= Items(n, e)
  {
    MulLe(m, n, e);
  }

  lemma DownFacts(x: nat, a: nat)
    requires a > 0
    ensures x < AlignDown(x, a) + a
  {
    assert x == x / a * a + x % a;
  }

  lemma FullCount(bytes: nat, sects: nat, ss: nat)
    requires ss > 0 && Items(sects, ss) <= bytes
    ensures sects <= Count(bytes, ss)
  {
    assert bytes == bytes / ss * ss + bytes % ss;
    MulGap(bytes / ss, sects, ss);
  }

  /** The sector count of a short or full read. */
  lemma Counted(bytes: nat, avail: nat, sects: nat, ss: nat)
    requires ss > 0 && bytes <= avail && (Items(sects, ss) <= bytes || bytes == avail)
    ensures Min(Count(bytes, ss), sects) == Min(sects, Count(avail, ss))
    ensures Items(Min(sects, Count(avail, ss)), ss) <= Min(bytes, Items(sects, ss))
  {
    var k := Min(sects, avail / ss);
    MulLe(k, sects, ss);
    if Items(sects, ss) <= bytes {
      FullCount(bytes, sects, ss);
      FullCount(avail, sects, ss);
    } else {
      assert avail == avail / ss * ss + avail % ss;
      MulLe(k, avail / ss, ss);
    }
  }

  lemma CountedItems(bytes: nat, m: nat, e: nat)
    requires ElementSize(e) && Items(Count(m, e), e) == m
    ensures Items(Count(bytes, e), e) <= bytes && (m <= bytes ==> m <= Items(Count(bytes, e), e))
  {
  }

  lemma NothingCounted(ss: nat)
    requires ss > 0
    ensures Count(0, ss) == 0
  {
    DivUnique(ss, 0, 0);
  }

  lemma WholeUpTo(bytes: nat, e: nat)
    requires e > 0
    ensures bytes - e < Items(Count(bytes, e), e) <= bytes
  {
    assert bytes == bytes / e * e + bytes % e;
  }

  lemma StoredPrefix(s: seq<byte>, m: nat, e: nat, littleEndian: bool)
    requires ElementSize(e) && Items(Count(m, e), e) == m <= |s|
    ensures Stored(s, e, littleEndian)[..m] == Stored(s[..m], e, littleEndian)
  {
    SwapPrefix(s, Count(m, e), e);
  }

  /** Whatever was written is read back, wherever the container ends, except that a single
      sector past the capacity always reads as zeros. */
  method WriteThenRead(disk: Disk, lba: nat, data: seq<byte>, sects: nat) returns (fits: bool, back: seq<byte>, got: nat)
    requires disk.Valid() && |data| == Items(sects, disk.sectorSize)
    modifies disk, disk.file
    ensures fits && got == sects
    ensures back == if sects == 1 && lba >= disk.limit then Zeros(|data|) else data
  {
    hide Items, Count, Whole, Stored, Disk.Aligned, Disk.TouchedTo, Written;
    ghost var before := disk.file.data;
    var _ := disk.WriteSectors(lba, data, sects);
    ghost var start, n := Items(lba, disk.sectorSize), |data|;
    ReadBack(before, disk.file.data, start, data, disk.TouchedTo(lba, sects), disk.element, disk.littleEndian);
    disk.Reaches(lba, sects);
    SomeBytes(sects, disk.sectorSize);
    if start + n <= |disk.file.data| {
      FullCount(|disk.file.data| - start, sects, disk.sectorSize);
    }
    fits, back, got := disk.ReadSectors(lba, sects);
    assert back[..n] == back;
  }

  lemma Pow512()
    ensures PowerOfTwo(512)
  {
    assert Pow2(3) == 8;
    Pow2Sum(3, 3);
    Pow2Sum(3, 6);
    BitTest(512);
  }

  /** The second half-size sector of an empty container: one sector is reported as read. */
  method BehindTheEnd() returns (disk: Disk, fits: bool, got: nat)
    ensures disk.Valid() && disk.sectorSize == 256 && disk.storageSector == 512 && disk.file.data == []
    ensures fits && got == 1
  {
    var file := new HostFile([]);
    Pow512();
    disk := new Disk(256, 512, 1, true, 2, file);
    var buf;
    fits, buf, got := disk.ReadSectors(1, 1);
  }

  lemma SomeBytes(sects: nat, ss: nat)
    requires ss > 0
    ensures Items(sects, ss) == 0 <==> sects == 0
  {
  }

  lemma ReadBack(before: seq<byte>, after: seq<byte>, start: nat, data: seq<byte>, to: nat,
                 e: nat, littleEndian: bool)
    requires ElementSize(e) && Written(before, after, start, Stored(data, e, littleEndian), to)
    ensures to <= |after|
    ensures start + |data| <= |after| ==> Stored(after[start..start + |data|], e, littleEndian) == data
    ensures Stored(Window(after, start, |data|), e, littleEndian) == data
  {
    hide Stored;
    var payload := Stored(data, e, littleEndian);
    StoredTwice(data, e, littleEndian);
    assert Window(after, start, |data|) == payload;
    assert start + |data| <= |after| ==> after[start..start + |data|] == payload;
  }
}
