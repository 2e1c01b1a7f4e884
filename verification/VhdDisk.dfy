/** The VHD container engine: ReadVirtualDisk, WriteVirtualDisk, sim_vhd_disk_set_dtype and
    sim_vhd_disk_merge over a handle whose host file is a growable byte array. */
module VhdDisk {
  import opened Arithmetic
  import opened Bytes
  import opened HostFiles
  import opened Options
  import opened VhdLayout
  import opened VhdFormat

  datatype Status = Ok | IoErr | Eof

  /** Overrun: a block does not fit in the buffer the merge has allocated. */
  datatype MergeStatus = NotDifferencing | Busy | Overrun | Merged

  function Quotient(off: uint64, bs: uint32): nat
    requires bs > 0
  {
    off / bs
  }

  /** The block a position lies in, cut to 32 bits. */
  function BlockIndex(off: uint64, bs: uint32): uint32
    requires bs > 0
  {
    Quotient(off, bs) % W32
  }

  /** Where in its block a position lies. */
  function InBlock(off: uint64, bs: uint32): nat
    requires bs > 0
  {
    off % bs
  }

  /** Where the data of an allocated block start in the file: the sector number is a 32-bit sum. */
  function BlockBase(entry: uint32, bs: uint32): nat {
    SECTOR * ((entry + BitMapSectors(bs)) % W32)
  }

  /** The bytes of one iteration, in the code's own arithmetic: the block number is cut to
      32 bits, the product of two 32-bit values wraps, the difference is taken in 64 bits
      and cut back to 32. */
  function ChunkSize(off: uint64, n: uint32, bs: uint32): uint32
    requires bs > 0 && off + n < W64
  {
    ChunkFrom(BlockIndex(off, bs), Quotient(off + n, bs), off, n, bs)
  }

  function ChunkFrom(block: uint32, last: nat, off: uint64, n: uint32, bs: uint32): uint32 {
    if block == last then n else WrappedRest((block + 1) % W32 * bs, off)
  }

  function WrappedRest(product: nat, off: uint64): uint32 {
    (product % W32 - off) % W64 % W32
  }

  lemma WrapCancels(v: int, k: int)
    requires 0 <= v < W32
    ensures (v - k * W32) % W64 % W32 == v
  {
    var x := v - k * W32;
    var q := x / W64;
    var r := x % W64;
    assert r == v + W32 * (-k - W32 * q);
    ModAdd(v, -k - W32 * q);
  }

  lemma ModAdd(v: int, m: int)
    requires 0 <= v < W32
    ensures (v + W32 * m) % W32 == v
  {
  }

  lemma RestIsExact(product: nat, off: uint64, rest: uint32)
    requires product == off + rest
    ensures WrappedRest(product, off) == rest
  {
    WrapCancels(rest, product / W32);
    assert product % W32 - off == rest - (product / W32) * W32;
  }

  lemma ChunkFromIsExact(b: uint32, last: nat, off: uint64, r: nat, n: uint32, bs: uint32)
    requires off == b * bs + r && r < bs && b + 1 < W32 && (last == b <==> r + n < bs)
    ensures ChunkFrom(b, last, off, n, bs) == Min(n, bs - r)
  {
    var next := (b + 1) * bs;
    assert next == b * bs + bs;
    assert (b + 1) % W32 * bs == next;
    RestIsExact(next, off, bs - r);
  }

  lemma Crosses(off: nat, n: nat, bs: nat)
    requires bs > 0
    ensures BlockNo(off + n, bs) == BlockNo(off, bs) <==> BlockPos(off, bs) + n < bs
  {
    if BlockPos(off, bs) + n < bs {
      WithinBlock(bs, off, n);
    } else if BlockNo(off + n, bs) == BlockNo(off, bs) {
      SameBlock(bs, off, off + n);
    }
  }

  /** The wrapped arithmetic gives what is left of the block, or of the request if that is less. */
  lemma ChunkIsExact(off: uint64, n: uint32, bs: uint32)
    requires bs > 0 && off + n < W64 && BlockNo(off, bs) + 1 < W32
    ensures ChunkSize(off, n, bs) == Min(n, bs - BlockPos(off, bs))
  {
    ChunkInBlocks(off, n, bs);
    Crosses(off, n, bs);
    assert BlockNo(off, bs) * bs + BlockPos(off, bs) == off by { BlockSum(off, bs); }
    ChunkFromIsExact(BlockNo(off, bs), BlockNo(off + n, bs), off, BlockPos(off, bs), n, bs);
  }

  lemma ChunkInBlocks(off: uint64, n: uint32, bs: uint32)
    requires bs > 0 && off + n < W64 && BlockNo(off, bs) < W32
    ensures ChunkSize(off, n, bs) == ChunkFrom(BlockNo(off, bs), BlockNo(off + n, bs), off, n, bs)
  {
    BlockDiv(off, bs);
    BlockDiv(off + n, bs);
    var b := BlockNo(off, bs);
    assert b % W32 == b;
  }

  /** A request of n bytes at `off` lies in the blocks the BAT covers. */
  predicate InBlocks(g: Geometry, off: nat, n: nat) {
    g.bs > 0 && (n > 0 ==> BlockNo(off + n - 1, g.bs) < g.entries)
  }

  lemma WrittenTwice(img: Image, mid: Image, was: Image, off: nat, buf: seq<byte>, total: nat, chunk: nat)
    requires total + chunk <= |buf|
    requires Written(mid, was, off, buf[..total]) && Written(img, mid, off + total, buf[total..total + chunk])
    ensures Written(img, was, off, buf[..total + chunk])
  {
  }

  lemma WrittenNothing(was: Image, off: nat, buf: seq<byte>)
    ensures Written(was, was, off, buf[..0])
  {
  }

  lemma SameAsItself(img: Image)
    ensures Written(img, img, 0, [])
  {
  }

  lemma WrittenThenKept(img: Image, mid: Image, was: Image, off: nat, data: seq<byte>)
    requires Written(mid, was, off, data) && Written(img, mid, 0, [])
    ensures Written(img, was, off, data)
  {
  }

  /** What lies past the end of the disk does not count. */
  lemma WrittenToTheEnd(img: Image, was: Image, off: nat, buf: seq<byte>, total: nat)
    requires total <= |buf| && Written(img, was, off, buf[..total]) && off + total >= was.Size()
    ensures Written(img, was, off, buf)
  {
  }

  /** Skipping an all-zero write to a free block of a disk without parent. */
  lemma ZerosSkipped(g: Geometry, bat: seq<uint32>, file: seq<byte>, off: nat, zeros: seq<byte>)
    requires g.bs > 0 && BlockNo(off, g.bs) < |bat| && bat[BlockNo(off, g.bs)] == FREE && BlockPos(off, g.bs) + |zeros| <= g.bs
    requires forall i :: 0 <= i < |zeros| ==> zeros[i] == 0
    ensures Written(Sparse(g, bat, file, None), Sparse(g, bat, file, None), off, zeros)
  {
    forall p | 0 <= p < g.size && off <= p < off + |zeros|
      ensures ByteAt(Sparse(g, bat, file, None), p) == zeros[p - off]
    {
      WithinBlock(g.bs, off, p - off);
      ByteAtSparse(g, bat, file, None, p);
    }
  }

  lemma FixedWritten(size: uint64, flat: seq<byte>, foot: seq<byte>, off: nat, data: seq<byte>)
    requires |flat| == size + FOOTER_SIZE && Window(flat, size, FOOTER_SIZE) == foot && off < size && data != []
    ensures var flat' := Splice(flat, off, data);
      && (|flat'| == |flat| && Window(flat', size, FOOTER_SIZE) == foot <==> off + |data| > size ==> data[size - off..] <= foot)
      && Written(Fixed(size, flat'), Fixed(size, flat), off, data)
  {
    var flat' := Splice(flat, off, data);
    if off + |data| <= size {
      WindowBesideSplice(flat, off, data, size, FOOTER_SIZE);
    } else {
      FooterOverwritten(size, flat, foot, off, data);
    }
  }

  /** The bytes past the end of the disk land on the footer. */
  lemma FooterOverwritten(size: nat, flat: seq<byte>, foot: seq<byte>, off: nat, data: seq<byte>)
    requires |flat| == size + FOOTER_SIZE && Window(flat, size, FOOTER_SIZE) == foot && off < size < off + |data|
    ensures var flat' := Splice(flat, off, data);
      |flat'| == |flat| && Window(flat', size, FOOTER_SIZE) == foot <==> data[size - off..] <= foot
  {
    var flat', tail := Splice(flat, off, data), data[size - off..];
    var stored := Window(flat', size, FOOTER_SIZE);
    if |tail| <= FOOTER_SIZE {
      forall i | 0 <= i < FOOTER_SIZE ensures stored[i] == if i < |tail| then tail[i] else foot[i] {
        assert foot[i] == At(flat, size + i);
      }
      assert tail == foot[..|tail|] ==> stored == foot;
      assert stored == foot ==> forall i :: 0 <= i < |tail| ==> tail[i] == foot[i];
    }
  }

  lemma FixedFooterRewrite(size: uint64, flat: seq<byte>, foot: seq<byte>)
    requires |flat| == size + FOOTER_SIZE && |foot| == FOOTER_SIZE
    ensures |Splice(flat, size, foot)| == |flat|
    ensures Written(Fixed(size, Splice(flat, size, foot)), Fixed(size, flat), 0, [])
  {
  }

  /** The block index and the chunk of one write iteration. */
  lemma WriteStep(g: Geometry, off: uint64, left: uint32)
    requires GeometryOk(g) && off < 0x1000_0000_0000 && 0 < left
    ensures BlockIndex(off, g.bs) == BlockNo(off, g.bs)
    ensures ChunkSize(off, left, g.bs) == Min(left, g.bs - BlockPos(off, g.bs)) > 0
    ensures BlockNo(off + ChunkSize(off, left, g.bs) - 1, g.bs) == BlockNo(off, g.bs)
  {
    hide ChunkSize;
    BlockNoSmall(off, g.bs);
    BlockDiv(off, g.bs);
    ChunkIsExact(off, left, g.bs);
    WithinBlock(g.bs, off, ChunkSize(off, left, g.bs) - 1);
  }

  /** Running off the BAT means being past the end of the disk, and that the request did not fit. */
  lemma PastTheBat(g: Geometry, first: nat, n: nat, off: nat)
    requires GeometryOk(g) && BlockNo(off, g.bs) >= g.entries && first <= off < first + n
    ensures off >= g.size && !InBlocks(g, first, n)
  {
    if off < g.size {
      InDisk(g, off);
      assert false;
    }
    BlockMonotone(g.bs, off, first + n - 1);
  }

  /** Inside one block, what a sparse image presents is one stretch of its file, or shows through. */
  lemma StretchBytes(g: Geometry, bat: seq<uint32>, file: seq<byte>, parent: Option<Image>, off: nat, n: nat, i: nat)
    requires g.bs > 0 && BlockPos(off, g.bs) + n <= g.bs && i < n && BlockNo(off, g.bs) < |bat|
    ensures ByteAt(Sparse(g, bat, file, parent), off + i)
         == if bat[BlockNo(off, g.bs)] != FREE then At(file, DataOffset(g, bat[BlockNo(off, g.bs)]) + BlockPos(off, g.bs) + i)
            else Under(parent, off + i)
  {
    WithinBlock(g.bs, off, i);
    ByteAtSparse(g, bat, file, parent, off + i);
  }

  lemma EntryFits(g: Geometry, bat: seq<uint32>, fileSize: nat, b: nat)
    requires Layout(g, bat, fileSize) && b < g.entries && bat[b] != FREE
    ensures bat[b] + BitMapSectors(g.bs) < W32 && BlockBase(bat[b], g.bs) == DataOffset(g, bat[b])
    ensures DataOffset(g, bat[b]) + g.bs <= fileSize - FOOTER_SIZE
  {
    FullDiskFits(g, Allocated(bat, g.entries));
    assert BlockPlaced(g, bat[b], fileSize - FOOTER_SIZE);
  }

  /** One iteration's chunk, when the rest of the request lies in blocks the BAT covers. */
  lemma ChunkInDisk(g: Geometry, first: nat, total: nat, off: uint64, left: uint32)
    requires GeometryOk(g) && InBlocks(g, first, total) && first <= off && off + left == first + total && left > 0 && off + left < W64
    ensures BlockNo(off, g.bs) < g.entries
    ensures ChunkSize(off, left, g.bs) == Min(left, g.bs - BlockPos(off, g.bs)) > 0
    ensures InBlocks(g, off, Min(left, g.bs - BlockPos(off, g.bs)))
  {
    BlockMonotone(g.bs, off, first + total - 1);
    EntriesFit(g);
    ChunkIsExact(off, left, g.bs);
    BlockMonotone(g.bs, off + Min(left, g.bs - BlockPos(off, g.bs)) - 1, first + total - 1);
  }

  lemma BlockIndexIs(g: Geometry, off: uint64)
    requires GeometryOk(g) && BlockNo(off, g.bs) < g.entries
    ensures BlockIndex(off, g.bs) == BlockNo(off, g.bs) && InBlock(off, g.bs) == BlockPos(off, g.bs)
  {
    EntriesFit(g);
    BlockDiv(off, g.bs);
  }

  lemma BaseIs(g: Geometry, entry: uint32)
    requires entry + BitMapSectors(g.bs) < W32
    ensures BlockBase(entry, g.bs) == DataOffset(g, entry)
  {
    hide BitMapSectors;
  }

  lemma EntriesFit(g: Geometry)
    requires GeometryOk(g)
    ensures g.entries + 1 < W32
  {
    EntriesCover(g);
    EntryBound(g.entries, g.bs, BitMapSize(g.bs));
  }

  /** Without a parent a fresh zero block presents what the free entry did. */
  lemma TouchedOrphan(g: Geometry, was: Image, now: Image, bat: seq<uint32>, file: seq<byte>, block: nat)
    requires was == Sparse(g, bat, file, None) && now.Size() == g.size && g.bs > 0 && block < |bat| && bat[block] == FREE
    requires forall p :: 0 <= p < g.size ==> ByteAt(now, p) == if BlockNo(p, g.bs) == block then 0 else ByteAt(was, p)
    ensures Written(now, was, 0, [])
  {
    forall p | 0 <= p < g.size ensures ByteAt(now, p) == ByteAt(was, p) {
      if BlockNo(p, g.bs) == block {
        ByteAtSparse(g, bat, file, None, p);
      }
    }
  }

  /** Sectors the merge copies for one block: a short last block is cut at the end of the disk. */
  function MergeSectors(size: uint64, bs: uint32, block: uint32): uint32 {
    var perBlock := bs / SECTOR;
    if block * perBlock + perBlock > size / SECTOR then (size / SECTOR - block * perBlock % W32) % W32 else perBlock
  }

  /** The sector number the merge writes one block at. */
  function MergeLba(bs: uint32, block: uint32): uint32 {
    bs / SECTOR * block % W32
  }

  /** The size of the merge's buffer: the product of two 32-bit values, which wraps. */
  function MergeBuffer(bs: uint32): uint32 {
    bs * SECTOR % W32
  }

  /** The buffer holds a block exactly when the product does not wrap, for blocks of 2 and
      4 MiB; from 8 MiB on it is empty. */
  lemma MergeBufferHolds(bs: uint32)
    requires PowerOfTwo(bs) && bs >= MIN_BLOCK
    ensures bs <= MergeBuffer(bs) <==> bs * SECTOR < W32
    ensures bs * SECTOR >= W32 ==> MergeBuffer(bs) == 0
    ensures bs * SECTOR < W32 <==> bs <= 0x40_0000
  {
    hide Pow2, PowerOfTwo, And;
    var k := ExponentOf(bs);
    if k >= 23 {
      WideBuffer(k, bs);
    } else {
      NarrowBuffer(k, bs);
    }
  }

  lemma ExponentOf(bs: uint32) returns (k: nat)
    requires PowerOfTwo(bs) && bs >= MIN_BLOCK
    ensures 21 <= k <= 31 && Pow2(k) == bs
  {
    BitTest(bs);
    k :| Pow2(k) == bs;
    Pow2Range(k);
  }

  lemma WideBuffer(k: nat, bs: uint32)
    requires k >= 23 && Pow2(k) == bs
    ensures bs >= 0x80_0000 && bs * SECTOR >= W32 && MergeBuffer(bs) == 0
  {
    hide Pow2;
    Pow2Sum(k - 23, 23);
    Pow2Sum(3, 20);
    Pow2Values();
    var m := Pow2(k - 23);
    assert bs == m * 0x80_0000;
  }

  lemma NarrowBuffer(k: nat, bs: uint32)
    requires 21 <= k <= 22 && Pow2(k) == bs
    ensures bs <= 0x40_0000 && bs * SECTOR < W32 && MergeBuffer(bs) == bs * SECTOR
  {
    Pow2Values();
    Pow2Sum(1, 21);
    assert Pow2(1) == 2;
  }

  lemma MergeSectorsIs(g: Geometry, block: nat, start: nat)
    requires GeometryOk(g) && block < g.entries && start == SECTOR * MergeLba(g.bs, block)
    ensures start < g.size && BlockNo(start, g.bs) == block && BlockPos(start, g.bs) == 0
    ensures SECTOR * MergeSectors(g.size, g.bs, block) == Min(g.bs, g.size - start) > 0
  {
    hide BlockNo, BlockPos, MergeSectors, MergeLba;
    MergeStart(g, block);
    MergeInSectors(g.size, g.bs, block);
  }

  lemma MergeStart(g: Geometry, block: nat)
    requires GeometryOk(g) && block < g.entries
    ensures var start := block * g.bs; start < g.size && BlockNo(start, g.bs) == block && BlockPos(start, g.bs) == 0
  {
    hide BlockNo, BlockPos;
    StartOf(g.bs, block);
    EntriesCover(g);
    MulGap(block, g.entries, g.bs);
  }

  lemma MergeInSectors(size: uint64, bs: uint32, block: uint32)
    requires size % SECTOR == 0 && size <= MAX_DISK && bs > 0 && bs % SECTOR == 0 && block * bs < size
    ensures SECTOR * MergeLba(bs, block) == block * bs
    ensures SECTOR * MergeSectors(size, bs, block) == Min(bs, size - block * bs) > 0
  {
    var k := bs / SECTOR;
    assert bs == SECTOR * k;
    SectorProduct(block, k, bs);
    MergeSectorsArithmetic(size, block * bs, block * k, k);
  }

  lemma SectorProduct(block: nat, k: nat, bs: nat)
    requires bs == SECTOR * k
    ensures block * bs == SECTOR * (block * k) && k * block == block * k
  {
  }

  lemma MergeSectorsArithmetic(size: nat, start: nat, first: nat, k: nat)
    requires start == SECTOR * first && size % SECTOR == 0 && start < size <= MAX_DISK && k > 0
    ensures first % W32 == first
    ensures var n := if first + k > size / SECTOR then (size / SECTOR - first % W32) % W32 else k;
      SECTOR * n == Min(SECTOR * k, size - start) > 0
  {
  }

  lemma AllMerged(g: Geometry, bat: seq<uint32>, file: seq<byte>, parent: Image, was: Image)
    requires GeometryOk(g) && parent.Size() == g.size && g.entries <= |bat| && forall b :: 0 <= b < g.entries ==> bat[b] == FREE
    requires Written(Sparse(g, bat, file, Some(parent)), was, 0, [])
    ensures View(parent) == View(was)
  {
    AllFree(g, bat, file, parent);
    SameView(parent, was);
  }

  method BufferIsZeros(buffer: seq<byte>) returns (r: bool)
    ensures r <==> forall i :: 0 <= i < |buffer| ==> buffer[i] == 0
  {
    for i := 0 to |buffer|
      invariant forall j :: 0 <= j < i ==> buffer[j] == 0
    {
      if buffer[i] != 0 {
        return false;
      }
    }
    return true;
  }

  /** Free BAT entries: what every allocation uses up. */
  function FreeEntries(bat: seq<uint32>): nat {
    |bat| - Allocated(bat, |bat|)
  }

  lemma AllocationUsesEntry(bat: seq<uint32>, b: nat, e: uint32)
    requires b < |bat| && bat[b] == FREE && e != FREE
    ensures FreeEntries(bat[b := e]) < FreeEntries(bat)
  {
    AllocatedStep(bat, |bat|, b, e);
  }

  lemma FreeMonotone(bat: seq<uint32>, bat': seq<uint32>)
    requires |bat| == |bat'| && forall b :: 0 <= b < |bat| && bat[b] != FREE ==> bat'[b] != FREE
    ensures FreeEntries(bat') <= FreeEntries(bat)
  {
    AllocatedMonotone(bat, bat', |bat|);
  }

  /** A handle on an open disk (struct VHD_IOData): raw footer and dynamic header, the BAT
      in host order with its sector padding, the host file, and the parent's handle. */
  class Vhd {
    var Footer: seq<byte>
    var Dynamic: seq<byte>
    const BAT: array<uint32>
    const File: HostFile
    const Parent: Vhd?
    ghost const Repr: set<object>

    constructor (foot: seq<byte>, dyn: seq<byte>, bat: array<uint32>, file: HostFile, parent: Vhd?)
      requires parent != null ==> file !in parent.Repr && bat !in parent.Repr
      ensures Footer == foot && Dynamic == dyn && BAT == bat && File == file && Parent == parent
      ensures Repr == {this, bat, file} + if parent == null then {} else parent.Repr
    {
      Footer, Dynamic, BAT, File, Parent := foot, dyn, bat, file, parent;
      Repr := {this, bat, file} + if parent == null then {} else parent.Repr;
    }

    /** The header fields are sealed and fit the kind of disk. */
    ghost predicate Headers()
      reads this
    {
      && |Footer| == FOOTER_SIZE && |Dynamic| == DYNAMIC_SIZE
      && FooterOk(Footer)
      && if DiskType(Footer) == DT_FIXED then
           Parent == null && BAT.Length == 0 && Size() <= MAX_DISK && Size() % SECTOR == 0 && Dynamic == Zeros(DYNAMIC_SIZE)
         else
           && DiskType(Footer) == (if Parent == null then DT_DYNAMIC else DT_DIFFERENCING)
           && DynamicOk(Dynamic)
           && PowerOfTwo(Geo().bs)
    }

    /** A fixed disk's file is the disk and the footer. */
    ghost predicate FixedData()
      reads this, File
    {
      |File.data| == Size() + FOOTER_SIZE && Window(File.data, Size(), FOOTER_SIZE) == Footer
    }

    /** A sparse disk's file obeys the layout and stores the handle's metadata, and the bitmap
        of every block marks all its sectors as present. */
    ghost predicate SparseData()
      reads this, BAT, File
    {
      && Layout(Geo(), BAT[..], |File.data|) && Padded(Geo(), BAT[..])
      && Stored(Geo(), Footer, Dynamic, BAT[..], File.data) && Marked(Geo(), BAT[..], File.data)
    }

    ghost predicate Consistent()
      reads this, BAT, File
    {
      Headers() && if DiskType(Footer) == DT_FIXED then FixedData() else SparseData()
    }

    ghost predicate Valid()
      reads this, Repr
      decreases Repr
    {
      && this in Repr && BAT in Repr && File in Repr
      && Consistent()
      && (Parent != null ==>
            && Parent in Repr && Parent.Repr <= Repr
            && this !in Parent.Repr && BAT !in Parent.Repr && File !in Parent.Repr
            && Parent.Valid()
            && Parent.Size() == Size()
            && ParentId(Dynamic) == UniqueId(Parent.Footer)
            && (DiskType(Parent.Footer) != DT_FIXED ==> Parent.Geo().bs == Geo().bs))
    }

    function Size(): uint64
      reads this
    {
      U64At(Footer, F_CURRENT_SIZE)
    }

    function Geo(): Geometry
      reads this
    {
      GeometryOf(Footer, Dynamic)
    }

    /** The whole chain as a value. */
    ghost function Snapshot(): Image
      requires Valid()
      reads this, Repr
      decreases Repr
    {
      if DiskType(Footer) == DT_FIXED then Fixed(Size(), File.data)
      else Sparse(Geo(), BAT[..], File.data, ParentImage())
    }

    ghost function ParentImage(): Option<Image>
      requires Valid()
      reads this, Repr
      decreases Repr, 0
    {
      if Parent == null then None else Some(Parent.Snapshot())
    }
  
    lemma SparseFacts()
      requires Valid() && DiskType(Footer) != DT_FIXED
      ensures Geo().bs == U32At(Dynamic, D_BLOCK_SIZE) && PowerOfTwo(Geo().bs)
      ensures GeometryOk(Geo()) && 0 < Geo().bs <= 0x8000_0000 && Geo().size == Size() <= MAX_DISK && Geo().entries <= BAT.Length
      ensures Geo().table == U64At(Dynamic, D_TABLE_OFFSET) && Geo().entries == U32At(Dynamic, D_MAX_ENTRIES)
      ensures 4 * BAT.Length == BatSize(Geo().entries) && |File.data| >= FOOTER_SIZE && |Footer| == FOOTER_SIZE
      ensures Layout(Geo(), BAT[..], |File.data|) && Padded(Geo(), BAT[..]) && Stored(Geo(), Footer, Dynamic, BAT[..], File.data)
      ensures Marked(Geo(), BAT[..], File.data)
      ensures Parent != null && DiskType(Parent.Footer) != DT_FIXED ==> Parent.Geo().entries == Geo().entries && Parent.Geo().bs == Geo().bs
    {
      hide U32At, U64At, PowerOfTwo, BlockNo, Stored, Marked, ParentId, UniqueId, FooterOk, DynamicOk, DataOffset;
      if Parent != null && DiskType(Parent.Footer) != DT_FIXED {
        assert GeometryOk(Parent.Geo());
      }
    }

    lemma FixedFacts()
      requires Valid() && DiskType(Footer) == DT_FIXED
      ensures |File.data| == Size() + FOOTER_SIZE && Parent == null
      ensures Snapshot() == Fixed(Size(), File.data)
      ensures forall p :: 0 <= p < Size() ==> ByteAt(Snapshot(), p) == File.data[p]
      ensures Window(File.data, Size(), FOOTER_SIZE) == Footer
      ensures Size() <= MAX_DISK && Size() % SECTOR == 0 && Dynamic == Zeros(DYNAMIC_SIZE)
    {
    }

    /** What a read may ask for: on a sparse disk the code indexes the BAT unchecked. */
    ghost predicate Readable(off: nat, n: nat)
      requires Valid()
      reads this, Repr
    {
      DiskType(Footer) != DT_FIXED && n > 0 && off < Size() ==> InBlocks(Geo(), off, n)
    }

    /** One iteration of the read loop: `chunk` bytes of one block. */
    method ReadChunk(buf: array<byte>, at: nat, chunk: uint32, off: uint64, block: nat) returns (status: Status, got: nat)
      requires Valid() && buf !in Repr && at + chunk <= buf.Length && off + chunk < W64 && chunk > 0
      requires DiskType(Footer) != DT_FIXED && block < Geo().entries
      requires block == BlockNo(off, Geo().bs) && BlockPos(off, Geo().bs) + chunk <= Geo().bs
      requires InBlocks(Geo(), off, chunk)
      modifies buf
      decreases Repr, 0
      ensures status == Ok || status == IoErr
      ensures got <= chunk && (status == Ok ==> 0 < got && got >= Min(chunk, Size() - off)) && (status != Ok ==> got == 0 && off >= Size())
      ensures forall j :: at <= j < at + got && off + (j - at) < Size() ==> buf[j] == ByteAt(Snapshot(), off + (j - at))
      ensures forall j :: 0 <= j < buf.Length && !(at <= j < at + got) ==> buf[j] == old(buf[j])
    {
      hide ParentId, UniqueId, Consistent, Layout, GeometryOk, GeometryOf, U32At, U64At, PowerOfTwo, ByteAt, BlockNo, BlockPos,
        BlockBase, InBlock, DataOffset;
      SparseFacts();
      ghost var g, bat, file, under := Geo(), BAT[..], File.data, ParentImage();
      var bs := U32At(Dynamic, D_BLOCK_SIZE);
      status := Ok;
      if BAT[block] == FREE {
        if Parent == null {
          forall i | at <= i < at + chunk {
            buf[i] := 0;
          }
          got := chunk;
        } else {
          status, got := Parent.ReadVirtualDisk(buf, at, chunk, off);
        }
      } else {
        EntryFits(g, bat, |file|, block);
        BlockIndexIs(g, off);
        got := File.ReadFilePosition(buf, at, chunk, BlockBase(BAT[block], bs) + InBlock(off, bs));
      }
      assert BAT[..] == bat && File.data == file;
      forall j | at <= j < at + got && off + (j - at) < Size()
        ensures buf[j] == ByteAt(Snapshot(), off + (j - at))
      {
        StretchBytes(g, bat, file, under, off, chunk, j - at);
      }
    }

    method ReadVirtualDisk(buf: array<byte>, at: nat, BytesToRead: uint32, Offset: uint64) returns (status: Status, got: nat)
      requires Valid() && buf !in Repr && at + BytesToRead <= buf.Length && Offset + BytesToRead < W64
      requires Readable(Offset, BytesToRead)
      modifies buf
      decreases Repr, 1
      ensures status == (if BytesToRead == 0 || Offset < Size() then Ok else IoErr)
      ensures got <= BytesToRead && (status == Ok ==> got >= Min(BytesToRead, Size() - Offset)) && (status != Ok ==> got == 0)
      ensures forall j :: at <= j < at + got && Offset + (j - at) < Size() ==> buf[j] == ByteAt(Snapshot(), Offset + (j - at))
      ensures forall j :: 0 <= j < buf.Length && !(at <= j < at + got) ==> buf[j] == old(buf[j])
    {
      hide ParentId, UniqueId, Consistent, Layout, GeometryOk, GeometryOf, U32At, U64At, PowerOfTwo, ByteAt, BlockNo,
        BlockPos, ChunkSize, BlockIndex;
      got := 0;
      if BytesToRead == 0 {
        return Ok, 0;
      }
      if Offset >= Size() {
        return IoErr, 0;
      }
      if DiskType(Footer) == DT_FIXED {
        FixedFacts();
        got := File.ReadFilePosition(buf, at, BytesToRead, Offset);
        return Ok, got;
      }
      SparseFacts();
      var bs := U32At(Dynamic, D_BLOCK_SIZE);
      assert PowerOfTwo(bs);
      ghost var g, img := Geo(), Snapshot();
      var left, off: uint64 := BytesToRead, Offset;
      var r := Ok;
      while left > 0 && r == Ok
        invariant got + left == BytesToRead && off == Offset + got
        invariant r != Ok ==> off >= Size()
        invariant Valid() && Snapshot() == img
        invariant forall j :: at <= j < at + got && Offset + (j - at) < Size() ==> buf[j] == ByteAt(img, Offset + (j - at))
        invariant forall j :: 0 <= j < buf.Length && !(at <= j < at + got) ==> buf[j] == old(buf[j])
        decreases left, r == Ok
      {
        ChunkInDisk(g, Offset, BytesToRead, off, left);
        BlockIndexIs(g, off);
        var thisRead;
        r, thisRead := ReadChunk(buf, at + got, ChunkSize(off, left, bs), off, BlockIndex(off, bs));
        left := left - thisRead;
        off := off + thisRead;
        got := got + thisRead;
      }
      status := Ok;
    }
  
    /** A run of the write loop may leave the BAT only with more entries than before. */
    twostate predicate BatGrows()
      reads BAT
    {
      forall b :: 0 <= b < BAT.Length && old(BAT[b]) != FREE ==> BAT[b] == old(BAT[b])
    }

    /** The three writes of an allocation. */
    method WriteNewBlock(block: nat, at: Placement, u: BatUpdate)
      requires block < BAT.Length && at.entry < W32 && u.start + u.size <= 4 * BAT.Length
      modifies File, BAT
      ensures BAT[..] == old(BAT[..])[block := at.entry]
      ensures File.data == Splice(Splice(Splice(old(File.data), at.writeAt, NewBlock(Geo(), at)), at.next, Footer),
                                  Geo().table + u.start, EncodeBat(BAT[..])[u.start..u.start + u.size])
    {
      hide GeometryOf, Splice, NewBlock, EncodeBat;
      File.WriteFilePosition(NewBlock(Geo(), at), at.writeAt);
      BAT[block] := at.entry % W32;
      File.WriteFilePosition(Footer, at.next);
      var stored := EncodeBat(BAT[..]);
      File.WriteFilePosition(stored[u.start..u.start + u.size], Geo().table + u.start);
    }

    /** First touch of a block: append a zeroed block, move the footer behind it, rewrite
        the part of the BAT around the new entry. */
    method AllocateBlock(block: nat)
      requires Valid() && DiskType(Footer) != DT_FIXED && block < Geo().entries <= BAT.Length && BAT[block] == FREE
      modifies File, BAT
      ensures Valid() && ParentImage() == old(ParentImage())
      ensures BAT[block] != FREE && BAT[..] == old(BAT[..])[block := BAT[block]]
      ensures forall p :: 0 <= p < Size() ==>
        ByteAt(Snapshot(), p) == if BlockNo(p, Geo().bs) == block then 0 else ByteAt(old(Snapshot()), p)
    {
      hide Headers, Layout, Stored, Marked, ParentId, UniqueId, GeometryOk, GeometryOf, U32At, U64At, PowerOfTwo, ByteAt, BlockNo,
        BlockPos, BatSize, Place, BatUpdateWindow, NewBlock, EncodeBat, Splice, Window, BlockSizeOk;
      SparseFacts();
      ghost var g, bat, file, under := Geo(), BAT[..], File.data, ParentImage();
      AllocationIsSound(g, Footer, Dynamic, bat, file, under, block);
      WriteNewBlock(block, Place(Geo(), |File.data| - FOOTER_SIZE), BatUpdateWindow(Geo(), block));
      assert BAT[..] == bat[block := BAT[block]];
      assert SparseData();
    }
  
    /** Store into an allocated block. */
    method StoreChunk(data: seq<byte>, off: uint64, block: nat)
      requires Valid() && DiskType(Footer) != DT_FIXED && data != []
      requires block == BlockNo(off, Geo().bs) < Geo().entries <= BAT.Length && BAT[block] != FREE
      requires BlockPos(off, Geo().bs) + |data| <= Geo().bs
      modifies File
      ensures Valid() && ParentImage() == old(ParentImage()) && BAT[..] == old(BAT[..])
      ensures Written(Snapshot(), old(Snapshot()), off, data)
    {
      hide Headers, Layout, Stored, Marked, ParentId, UniqueId, GeometryOk, GeometryOf, U32At, U64At, PowerOfTwo, ByteAt, BlockNo,
        BlockPos, BatSize, Splice, Window, BlockSizeOk, Written, BlockBase, InBlock;
      SparseFacts();
      ghost var g, bat, file, under := Geo(), BAT[..], File.data, ParentImage();
      EntryFits(g, bat, |file|, block);
      BlockIndexIs(g, off);
      StoreIsSound(g, Footer, Dynamic, bat, file, under, off, data);
      var bs := U32At(Dynamic, D_BLOCK_SIZE);
      File.WriteFilePosition(data, BlockBase(BAT[block], bs) + InBlock(off, bs));
      assert BAT[..] == bat;
      assert SparseData();
    }

    /** A whole block can be read from the parent. */
    lemma ParentBlock(start: nat, bs: nat)
      requires Valid() && DiskType(Footer) != DT_FIXED && Parent != null && bs == Geo().bs && bs > 0
      requires BlockPos(start, bs) == 0 && BlockNo(start, bs) < Geo().entries && start < Size()
      ensures start + bs < W64 && Parent.Valid() && start < Parent.Size() && Parent.Readable(start, bs)
    {
      hide Headers, Layout, Stored, Marked, ParentId, UniqueId, GeometryOf, U32At, U64At, PowerOfTwo, ByteAt, BlockNo, BlockPos;
      SparseFacts();
      WithinBlock(bs, start, bs - 1);
    }

    /** First touch of a block during a write at `off`: allocate it and, over a parent,
        fill it with what showed through, by writing to this disk again. The disk presents
        what it did before. */
    method TouchBlock(off: uint64, block: nat)
      requires Valid() && DiskType(Footer) != DT_FIXED
      requires block == BlockNo(off, Geo().bs) < Geo().entries <= BAT.Length && BAT[block] == FREE
      modifies File, BAT
      decreases FreeEntries(BAT[..]), 0
      ensures Valid() && ParentImage() == old(ParentImage()) && BatGrows() && BAT[block] != FREE
      ensures FreeEntries(BAT[..]) < old(FreeEntries(BAT[..]))
      ensures Written(Snapshot(), old(Snapshot()), 0, [])
    {
      hide Consistent, Headers, Layout, Stored, Marked, ParentId, UniqueId, GeometryOk, GeometryOf, U32At, U64At, PowerOfTwo,
        ByteAt, BlockNo, BlockPos, InBlocks, BlockStart, Written, FreeEntries;
      SparseFacts();
      ghost var g, was, bat, file := Geo(), Snapshot(), BAT[..], File.data;
      AllocateBlock(block);
      AllocationUsesEntry(bat, block, BAT[block]);
      if Parent == null {
        TouchedOrphan(g, was, Snapshot(), bat, file, block);
      } else {
        var bs := U32At(Dynamic, D_BLOCK_SIZE);
        SparseFacts();
        BlockStartIs(off, bs);
        BlockStartsInDisk(g, off);
        var start := BlockStart(off, bs);
        ParentBlock(start, bs);
        var data := new byte[bs];
        ghost var zeroed, bat1, under := Snapshot(), BAT[..], Parent.Snapshot();
        var st, got := Parent.ReadVirtualDisk(data, 0, bs, start);
        forall i | 0 <= i < bs && start + i < Size()
          ensures data[i] == ByteAt(was, start + i)
        {
          ShowsThrough(g, bat, file, under, start, i);
        }
        var written;
        st, written := WriteVirtualDisk(data[..], start);
        PopulateView(Snapshot(), zeroed, was, block, start, data[..], bs);
        FreeMonotone(bat1, BAT[..]);
      }
    }

    /** A write that starts in a fixed disk and runs past its end: the code does not cut it. */
    predicate RunsOver(Offset: nat, n: nat)
      reads this
    {
      DiskType(Footer) == DT_FIXED && Offset < Size() < Offset + n
    }

    /** WriteVirtualDisk. What runs past the end of a fixed disk overwrites the footer in the
        file: the container stays consistent exactly when those bytes are the footer's own. */
    method WriteVirtualDisk(buf: seq<byte>, Offset: uint64) returns (status: Status, written: nat)
      requires Valid() && |buf| < W32 && Offset + |buf| < W64
      modifies File, BAT
      decreases FreeEntries(BAT[..]), 2
      ensures RunsOver(Offset, |buf|) ==> status == Ok && written == |buf| && BAT[..] == old(BAT[..])
      ensures RunsOver(Offset, |buf|) ==> File.data == Splice(old(File.data), Offset, buf)
      ensures Valid() <==> RunsOver(Offset, |buf|) ==> buf[Size() - Offset..] <= Footer
      ensures Valid() ==> ParentImage() == old(ParentImage()) && BatGrows()
      ensures buf == [] || Offset >= Size() ==> Snapshot() == old(Snapshot()) && written == 0 && status == if buf == [] then Ok else IoErr
      ensures Valid() && buf != [] && Offset < Size() ==>
        && Written(Snapshot(), old(Snapshot()), Offset, buf)
        && if DiskType(Footer) == DT_FIXED || InBlocks(Geo(), Offset, |buf|)
           then status == Ok && written == |buf| else status == Eof && written == 0
    {
      hide Layout, Stored, Marked, ParentId, UniqueId, GeometryOk, GeometryOf, U32At, U64At, PowerOfTwo, ByteAt, BlockNo, BlockPos,
        Written, FreeEntries, FooterOk, DynamicOk;
      if buf == [] {
        return Ok, 0;
      }
      if Offset >= Size() {
        return IoErr, 0;
      }
      if DiskType(Footer) == DT_FIXED {
        FixedFacts();
        FixedWritten(Size(), File.data, Footer, Offset, buf);
        File.WriteFilePosition(buf, Offset);
        return Ok, |buf|;
      }
      status, written := WriteSparse(buf, Offset);
    }

    /** The loop over the blocks of a dynamic or differencing disk. */
    method WriteSparse(buf: seq<byte>, Offset: uint64) returns (status: Status, written: nat)
      requires Valid() && |buf| < W32 && Offset + |buf| < W64
      requires DiskType(Footer) != DT_FIXED && buf != [] && Offset < Size()
      modifies File, BAT
      decreases FreeEntries(BAT[..]), 1
      ensures Valid() && ParentImage() == old(ParentImage()) && BatGrows()
      ensures Written(Snapshot(), old(Snapshot()), Offset, buf)
      ensures if InBlocks(Geo(), Offset, |buf|) then status == Ok && written == |buf| else status == Eof && written == 0
    {
      hide Consistent, Headers, Layout, Stored, Marked, ParentId, UniqueId, GeometryOk, GeometryOf, U32At, U64At, PowerOfTwo,
        ByteAt, BlockNo, BlockPos, Written, FreeEntries, ChunkSize, BlockIndex;
      SparseFacts();
      ghost var g, was := Geo(), Snapshot();
      var bs := U32At(Dynamic, D_BLOCK_SIZE);
      assert PowerOfTwo(bs);
      var left: uint32, off: uint64, total: nat := |buf|, Offset, 0;
      WrittenNothing(was, Offset, buf);
      while left > 0
        invariant total + left == |buf| && off == Offset + total
        invariant Valid() && ParentImage() == old(ParentImage()) && BatGrows()
        invariant Written(Snapshot(), was, Offset, buf[..total])
        invariant InBlocks(g, Offset, total)
        invariant FreeEntries(BAT[..]) <= old(FreeEntries(BAT[..]))
        decreases left, FreeEntries(BAT[..])
      {
        SparseFacts();
        WriteStep(g, off, left);
        var block := BlockIndex(off, bs);
        if block >= U32At(Dynamic, D_MAX_ENTRIES) {
          PastTheBat(g, Offset, |buf|, off);
          WrittenToTheEnd(Snapshot(), was, Offset, buf, total);
          return Eof, 0;
        }
        var chunk := ChunkSize(off, left, bs);
        ghost var mid := Snapshot();
        if BAT[block] == FREE {
          var zeros := BufferIsZeros(buf[total..total + chunk]);
          if Parent == null && zeros {
            ZerosSkipped(g, BAT[..], File.data, off, buf[total..total + chunk]);
            WrittenTwice(Snapshot(), mid, was, Offset, buf, total, chunk);
            left, off, total := left - chunk, off + chunk, total + chunk;
          } else {
            TouchBlock(off, block);
            WrittenThenKept(Snapshot(), mid, was, Offset, buf[..total]);
          }
        } else {
          StoreChunk(buf[total..total + chunk], off, block);
          WrittenTwice(Snapshot(), mid, was, Offset, buf, total, chunk);
          left, off, total := left - chunk, off + chunk, total + chunk;
        }
      }
      assert buf[..total] == buf;
      status, written := Ok, total;
    }
  
    /** WriteVirtualDiskSectors, as the merge calls it: 512-byte sectors inside the disk. */
    method WriteVirtualDiskSectors(buf: seq<byte>, sects: uint32, lba: uint32)
      requires Valid() && |buf| == sects * SECTOR && 0 < |buf| < W32 && SECTOR * lba + |buf| <= Size()
      modifies File, BAT
      ensures Valid() && Written(Snapshot(), old(Snapshot()), SECTOR * lba, buf)
    {
      hide Consistent, Written, Snapshot, ParentImage, FreeEntries, InBlocks;
      var status, written := WriteVirtualDisk(buf, SECTOR * lba);
    }

    lemma SnapshotSize()
      requires Valid()
      ensures Snapshot().Size() == Size()
    {
      hide Layout, Stored, Marked, ParentId, UniqueId, U32At, U64At, FooterOk, DynamicOk;
    }

    lemma DifferencingFacts()
      requires Valid() && DiskType(Footer) == DT_DIFFERENCING
      ensures Parent != null && Parent.Valid() && Parent.Size() == Size()
    {
    }

    /** The first n bytes of an allocated block, straight from this disk's file. */
    method ReadBlock(block: nat, n: nat) returns (data: seq<byte>)
      requires block < BAT.Length && BAT[block] + BitMapSectors(Geo().bs) < W32 && n <= Geo().bs
      requires DataOffset(Geo(), BAT[block]) + Geo().bs <= |File.data|
      ensures |data| == n && forall i :: 0 <= i < n ==> data[i] == At(File.data, DataOffset(Geo(), BAT[block]) + i)
    {
      hide U32At, U64At, BitMapSectors, BlockBase;
      BaseIs(Geo(), BAT[block]);
      data := ReadBytes(BlockBase(BAT[block], U32At(Dynamic, D_BLOCK_SIZE)), n);
    }

    method ReadBytes(at: nat, n: nat) returns (data: seq<byte>)
      requires at + n <= |File.data|
      ensures |data| == n && forall i :: 0 <= i < n ==> data[i] == At(File.data, at + i)
    {
      var buf := new byte[n];
      var bytesRead := File.ReadFilePosition(buf, 0, n, at);
      data := buf[..];
      assert forall i :: 0 <= i < n ==> data[i] == File.data[at + i];
    }

    /** One block of the merge, read from this disk's file into a buffer of `room` bytes:
        where it goes and its sectors. */
    method MergeRead(block: nat, room: uint32) returns (fits: bool, lba: uint32, sectors: uint32, bytes: seq<byte>)
      requires GeometryOk(Geo()) && block < Geo().entries <= BAT.Length
      requires BAT[block] + BitMapSectors(Geo().bs) < W32 && DataOffset(Geo(), BAT[block]) + Geo().bs <= |File.data|
      ensures var g, start := Geo(), SECTOR * lba;
        && BlockNo(start, g.bs) == block && BlockPos(start, g.bs) == 0
        && sectors * SECTOR == Min(g.bs, g.size - start) && 0 < sectors * SECTOR < W32
      ensures fits <==> sectors * SECTOR <= room
      ensures fits ==> |bytes| == sectors * SECTOR
      ensures fits ==> forall i :: 0 <= i < |bytes| ==> bytes[i] == At(File.data, DataOffset(Geo(), BAT[block]) + i)
    {
      var bs, size := U32At(Dynamic, D_BLOCK_SIZE), U64At(Footer, F_CURRENT_SIZE);
      hide GeometryOk, U32At, U64At, BlockNo, BlockPos, MergeSectors, MergeLba, BitMapSectors;
      lba := MergeLba(bs, block);
      MergeSectorsIs(Geo(), block, SECTOR * lba);
      BlockPositive(Geo());
      sectors := MergeSectors(size, bs, block);
      fits, bytes := SECTOR * sectors <= room, [];
      if fits {
        bytes := ReadBlock(block, SECTOR * sectors);
      }
    }

    /** sim_vhd_disk_merge: copy every block this differencing disk holds into the parent,
        freeing the BAT entry in memory as it goes. Before and after each block the two
        together present the same disk; at the end the parent alone does. With blocks whose
        size times the sector size does not fit in 32 bits, the first block to be copied
        overruns the buffer. */
    method Merge() returns (status: MergeStatus)
      requires Valid()
      modifies BAT, if Parent == null then {} else {Parent.File, Parent.BAT}
      ensures DiskType(Footer) != DT_DIFFERENCING <==> status == NotDifferencing
      ensures DiskType(Footer) == DT_DIFFERENCING && At(Footer, F_SAVED_STATE) != 0 <==> status == Busy
      ensures DiskType(Footer) == DT_DIFFERENCING && At(Footer, F_SAVED_STATE) == 0 ==>
        (status == Overrun <==> Geo().bs * SECTOR >= W32 && exists b :: 0 <= b < Geo().entries <= BAT.Length && old(BAT[b]) != FREE)
      ensures status == Merged ==> Parent != null && Parent.Valid() && View(Parent.Snapshot()) == old(View(Snapshot()))
      ensures status == Merged && Geo().bs * SECTOR >= W32 ==> View(Parent.Snapshot()) == old(View(Parent.Snapshot()))
      ensures status != Merged ==> Valid() && Snapshot() == old(Snapshot())
    {
      hide Consistent, Headers, Layout, Stored, Marked, ParentId, UniqueId, Padded, GeometryOk, GeometryOf, U32At, U64At, PowerOfTwo, ByteAt,
        BlockNo, BlockPos, Written, FreeEntries, DataOffset, BitMapSectors, BlockBase, MergeBuffer,
        View, At, MergeLba, MergeSectors;
      if DiskType(Footer) != DT_DIFFERENCING {
        return NotDifferencing;
      }
      if At(Footer, F_SAVED_STATE) != 0 {
        return Busy;
      }
      DifferencingFacts();
      SparseFacts();
      ghost var g, was, bat, file := Geo(), Snapshot(), BAT[..], File.data;
      BlockPositive(g);
      var bs := U32At(Dynamic, D_BLOCK_SIZE);
      var entries := U32At(Dynamic, D_MAX_ENTRIES);
      var room := MergeBuffer(bs);
      MergeBufferHolds(bs);
      SameAsItself(was);
      assert ParentImage() == Some(Parent.Snapshot());
      var block := 0;
      while block < entries
        invariant block <= entries && File.data == file
        invariant Parent.Valid() && Parent.Size() == g.size
        invariant forall b :: 0 <= b < |bat| ==> BAT[b] == if b < block then FREE else bat[b]
        invariant bs * SECTOR >= W32 ==> BAT[..] == bat && Valid() && Snapshot() == was
        invariant Written(Sparse(g, BAT[..], file, Some(Parent.Snapshot())), was, 0, [])
      {
        if BAT[block] != FREE {
          EntryFits(g, bat, |file|, block);
          ghost var before := Sparse(g, BAT[..], file, Some(Parent.Snapshot()));
          ghost var under, bat1 := Parent.Snapshot(), BAT[..];
          Parent.SnapshotSize();
          var fits, lba, sectors, bytes := MergeRead(block, room);
          if !fits {
            return Overrun;
          }
          Parent.WriteVirtualDiskSectors(bytes, sectors, lba);
          BAT[block] := FREE;
          assert BAT[..] == bat1[block := FREE];
          MergeStep(g, bat1, file, under, Parent.Snapshot(), block, SECTOR * lba, bytes);
          WrittenThenKept(Sparse(g, BAT[..], file, Some(Parent.Snapshot())), before, was, 0, []);
        }
        block := block + 1;
      }
      Parent.SnapshotSize();
      AllMerged(g, BAT[..], file, Parent.Snapshot(), was);
      status := Merged;
    }

    /** sim_vhd_disk_set_dtype: record the drive type in the footer, seal it and rewrite
        every copy. The disk presents what it did before. */
    method SetDtype(dtype: seq<byte>, sectorSize: uint32, xferSize: uint32, simName: seq<byte>)
      requires Valid()
      modifies this, File
      ensures Valid() && ParentImage() == old(ParentImage())
      ensures Footer == Retyped(old(Footer), dtype, sectorSize, xferSize, simName) && Dynamic == old(Dynamic)
      ensures Written(Snapshot(), old(Snapshot()), 0, [])
    {
      hide Layout, Stored, Marked, ParentId, UniqueId, GeometryOk, U32At, U64At, PowerOfTwo, ByteAt, BlockNo, BlockPos, Written,
        FooterOk, DynamicOk, Retyped, Padded;
      ghost var foot, file, bat, under, size := Footer, File.data, BAT[..], ParentImage(), Size();
      RetypedOk(Footer, dtype, sectorSize, xferSize, simName);
      if DiskType(Footer) == DT_FIXED {
        FixedFacts();
        Footer := Retyped(Footer, dtype, sectorSize, xferSize, simName);
        WindowOfSplice(file, size, Footer);
        FixedFooterRewrite(size, file, Footer);
        File.WriteFilePosition(Footer, Size());
      } else {
        SparseFacts();
        ghost var g := Geo();
        LayoutFacts(g, bat, |file|);
        Footer := Retyped(Footer, dtype, sectorSize, xferSize, simName);
        var position := |File.data| - FOOTER_SIZE;
        FooterRewrite(g, foot, Footer, Dynamic, bat, file);
        File.WriteFilePosition(Footer, 0);
        File.WriteFilePosition(Footer, position);
        ViewFromBlocks(g, bat, file, File.data, under);
        MarkedKept(g, bat, file, File.data);
        assert BAT[..] == bat && Geo() == g;
        assert SparseData();
      }
    }
  }
}
