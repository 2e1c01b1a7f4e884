/** The layout of a VHD container and its meaning as a flat disk, as pure values:
    what sim_disk.c keeps in a VHDHANDLE (decoded header fields, BAT, host file, parent)
    and what each step of its allocator and its block store does to them. */
module VhdLayout {
  import opened Arithmetic
  import opened Bytes
  import opened Options

  const SECTOR := 512
  const ALIGNMENT := 4096          // VHD_DATA_BLOCK_ALIGNMENT
  const FREE: uint32 := 0xFFFF_FFFF // VHD_BAT_FREE_ENTRY
  const FOOTER_SIZE := 512
  const DYNAMIC_SIZE := 1024
  const MIN_BLOCK := 0x20_0000
  const MAX_DISK := 2040 * 0x4000_0000  // 2040 GiB

  function BitMapSectors(bs: uint32): nat {
    ((7 + bs / SECTOR) / 8 + SECTOR - 1) / SECTOR
  }

  /** Sectors the bitmap of a block takes, in bytes. */
  function BitMapSize(bs: uint32): nat {
    BitMapSectors(bs) * SECTOR
  }

  /** Size of the calloc'ed buffer in front of the data: BitMapBufferSize. */
  function PadSize(bs: uint32): nat {
    Max(ALIGNMENT, BitMapSize(bs))
  }

  /** The facts about a block size that the engine rests on: its bitmap has one bit for
      each sector and fills whole sectors, and padding keeps the data aligned. */
  predicate BlockSizeOk(bs: uint32) {
    && MIN_BLOCK <= bs <= 0x8000_0000 && bs % ALIGNMENT == 0
    && BitMapSize(bs) * ALIGNMENT == bs
    && PadSize(bs) % ALIGNMENT == 0
  }

  lemma Pow2Values()
    ensures Pow2(3) == 8 && Pow2(20) == 0x10_0000 && Pow2(21) == MIN_BLOCK && Pow2(31) == 0x8000_0000 && Pow2(32) == W32
  {
    assert Pow2(5) == 32;
    Pow2Sum(5, 5);
    Pow2Sum(10, 10);
    Pow2Sum(10, 20);
  }

  lemma PowerOfTwoBlocks(n: uint32)
    requires PowerOfTwo(n) && n >= MIN_BLOCK
    ensures BlockSizeOk(n)
  {
    BitTest(n);
    var k: nat :| Pow2(k) == n;
    Pow2Range(k);
    Pow2Sum(21, k - 21);
    Pow2Values();
    BlockOfPower(n, k, Pow2(k - 21));
  }

  lemma BlockOfPower(n: uint32, k: nat, m: nat)
    requires 21 <= k && m == Pow2(k - 21) && n == MIN_BLOCK * m && n <= 0x8000_0000
    ensures BlockSizeOk(n)
  {
    hide Pow2, BitMapSectors;
    BitMapOf(n, m);
    if k >= 24 {
      WidePad(k, m);
    } else {
      SmallPower(k - 21);
    }
  }

  lemma WidePad(k: nat, m: nat)
    requires 24 <= k && m == Pow2(k - 21)
    ensures m >= 8 && m * SECTOR % ALIGNMENT == 0
  {
    hide Pow2;
    Pow2Values();
    Pow2Sum(3, k - 24);
    var q := Pow2(k - 24);
    assert m * SECTOR == ALIGNMENT * q;
  }

  lemma SmallPower(j: nat)
    requires j < 3
    ensures Pow2(j) == 1 || Pow2(j) == 2 || Pow2(j) == 4
  {
    assert Pow2(0) == 1 && Pow2(1) == 2 && Pow2(2) == 4;
  }

  lemma BitMapOf(n: uint32, m: nat)
    requires n == MIN_BLOCK * m
    ensures BitMapSectors(n) == m
  {
  }

  lemma Pow2Range(k: nat)
    requires MIN_BLOCK <= Pow2(k) < W32
    ensures 21 <= k <= 31 && Pow2(k) <= 0x8000_0000
  {
    Pow2Values();
    if k <= 20 {
      Pow2Sum(20 - k, k);
    } else if k >= 32 {
      Pow2Sum(k - 32, 32);
    } else {
      Pow2Sum(31 - k, k);
    }
  }

  /** p / bs and p % bs, by repeated subtraction: this keeps the engine's invariants
      free of division by a variable. BlockDiv connects them with the operators. */
  function BlockNo(p: nat, bs: nat): nat
    requires bs > 0
  {
    if p < bs then 0 else 1 + BlockNo(p - bs, bs)
  }

  function BlockPos(p: nat, bs: nat): (r: nat)
    requires bs > 0
    ensures r < bs
  {
    if p < bs then p else BlockPos(p - bs, bs)
  }

  lemma {:induction false} BlockSum(p: nat, bs: nat)
    requires bs > 0
    ensures p == BlockNo(p, bs) * bs + BlockPos(p, bs)
  {
    if p >= bs {
      BlockSum(p - bs, bs);
      assert (1 + BlockNo(p - bs, bs)) * bs == bs + BlockNo(p - bs, bs) * bs;
    }
  }

  lemma BlockDiv(p: nat, bs: nat)
    requires bs > 0
    ensures BlockNo(p, bs) == p / bs && BlockPos(p, bs) == p % bs
  {
    BlockSum(p, bs);
    DivUnique(bs, BlockNo(p, bs), BlockPos(p, bs));
  }

  /** A stretch that does not reach the end of its block stays in that block. */
  lemma {:induction false} WithinBlock(bs: nat, p: nat, d: nat)
    requires bs > 0 && BlockPos(p, bs) + d < bs
    ensures BlockNo(p + d, bs) == BlockNo(p, bs) && BlockPos(p + d, bs) == BlockPos(p, bs) + d
  {
    if p >= bs {
      WithinBlock(bs, p - bs, d);
    }
  }

  /** Positions of one block differ as their offsets do. */
  lemma {:induction false} SameBlock(bs: nat, p: nat, q: nat)
    requires bs > 0 && BlockNo(p, bs) == BlockNo(q, bs)
    ensures BlockPos(q, bs) - BlockPos(p, bs) == q - p
  {
    if p >= bs && q >= bs {
      SameBlock(bs, p - bs, q - bs);
    }
  }

  lemma {:induction false} BlockMonotone(bs: nat, p: nat, q: nat)
    requires bs > 0 && p <= q
    ensures BlockNo(p, bs) <= BlockNo(q, bs)
  {
    if p >= bs {
      BlockMonotone(bs, p - bs, q - bs);
    }
  }

  /** A stretch of n bytes at `off` inside one block, in block coordinates. */
  lemma InStretch(bs: nat, off: nat, n: nat, p: nat)
    requires bs > 0 && BlockPos(off, bs) + n <= bs
    ensures off <= p < off + n <==>
      BlockNo(p, bs) == BlockNo(off, bs) && BlockPos(off, bs) <= BlockPos(p, bs) < BlockPos(off, bs) + n
    ensures off <= p < off + n ==> BlockPos(p, bs) - BlockPos(off, bs) == p - off
  {
    if off <= p < off + n {
      WithinBlock(bs, off, p - off);
    }
    if BlockNo(p, bs) == BlockNo(off, bs) {
      SameBlock(bs, off, p);
    }
  }

  /** The decoded fields of footer and dynamic header that drive the block engine. */
  datatype Geometry = Geometry(size: uint64, bs: uint32, entries: uint32, table: uint64)

  function BatSize(entries: uint32): (r: nat)
    ensures r % SECTOR == 0 && 4 * entries <= r < 4 * entries + SECTOR
  {
    SECTOR * ((4 * entries + SECTOR - 1) / SECTOR)
  }

  predicate GeometryOk(g: Geometry) {
    && BlockSizeOk(g.bs)
    && g.size <= MAX_DISK && g.size % SECTOR == 0
    && g.entries == BlockNo(g.size + g.bs - 1, g.bs)
    && g.table % SECTOR == 0 && FOOTER_SIZE + DYNAMIC_SIZE <= g.table <= ALIGNMENT
  }

  /** The BAT array is padded with zero words to a whole sector. */
  predicate Padded(g: Geometry, bat: seq<uint32>) {
    forall b :: g.entries <= b < |bat| ==> bat[b] == 0
  }

  function Allocated(bat: seq<uint32>, n: nat): (r: nat)
    requires n <= |bat|
    ensures r <= n
  {
    if n == 0 then 0
    else Allocated(bat, n - 1) + if bat[n - 1] == FREE then 0 else 1
  }

  lemma {:induction false} AllocatedStep(bat: seq<uint32>, n: nat, b: nat, e: uint32)
    requires n <= |bat| && b < |bat| && bat[b] == FREE && e != FREE
    ensures Allocated(bat[b := e], n) == Allocated(bat, n) + if b < n then 1 else 0
  {
    if n > 0 {
      AllocatedStep(bat, n - 1, b, e);
    }
  }

  lemma {:induction false} AllocatedRoom(bat: seq<uint32>, n: nat, b: nat)
    requires b < n <= |bat| && bat[b] == FREE
    ensures Allocated(bat, n) < n
  {
    if b < n - 1 {
      AllocatedRoom(bat, n - 1, b);
    }
  }

  lemma {:induction false} AllocatedMonotone(bat: seq<uint32>, bat': seq<uint32>, n: nat)
    requires n <= |bat| == |bat'| && forall b :: 0 <= b < n && bat[b] != FREE ==> bat'[b] != FREE
    ensures Allocated(bat, n) <= Allocated(bat', n)
  {
    if n > 0 {
      AllocatedMonotone(bat, bat', n - 1);
    }
  }

  /** File offset of the data of the block whose BAT entry is e. */
  function DataOffset(g: Geometry, e: uint32): nat {
    SECTOR * (e + BitMapSectors(g.bs))
  }

  function BatEnd(g: Geometry): nat {
    g.table + BatSize(g.entries)
  }

  /** One block: bitmap sectors then data, wholly between the BAT and the footer, data 4096-aligned. */
  predicate BlockPlaced(g: Geometry, e: uint32, footer: nat) {
    && BatEnd(g) <= SECTOR * e
    && DataOffset(g, e) + g.bs <= footer
    && DataOffset(g, e) % ALIGNMENT == 0
  }

  predicate Apart(g: Geometry, e: uint32, f: uint32) {
    || DataOffset(g, e) + g.bs <= SECTOR * f
    || DataOffset(g, f) + g.bs <= SECTOR * e
  }

  /** The furthest the footer can be after n allocations. */
  function FooterLimit(g: Geometry, n: nat): nat {
    if n == 0 then BatEnd(g) + ALIGNMENT else FooterLimit(g, n - 1) + g.bs + PadSize(g.bs)
  }

  /** Where the footer may be after n allocations. */
  predicate FooterPlaced(g: Geometry, n: nat, footer: nat) {
    && (n == 0 ==> footer == BatEnd(g))
    && (n > 0 ==> footer % ALIGNMENT == 0)
    && BatEnd(g) <= footer <= FooterLimit(g, n)
  }

  /** The layout invariant: the BAT, every allocated block and the footer are pairwise
      disjoint, and the footer is the last thing in the file. */
  ghost predicate Layout(g: Geometry, bat: seq<uint32>, fileSize: nat) {
    && GeometryOk(g)
    && 4 * |bat| == BatSize(g.entries)
    && FOOTER_SIZE <= fileSize
    && FooterPlaced(g, Allocated(bat, g.entries), fileSize - FOOTER_SIZE)
    && (forall b :: 0 <= b < g.entries && bat[b] != FREE ==> BlockPlaced(g, bat[b], fileSize - FOOTER_SIZE))
    && (forall a, b :: 0 <= a < b < g.entries && bat[a] != FREE && bat[b] != FREE ==> Apart(g, bat[a], bat[b]))
  }

  /** entries is exactly the number of blocks that cover the disk. */
  lemma EntriesCover(g: Geometry)
    requires GeometryOk(g)
    ensures g.size <= g.entries * g.bs < g.size + g.bs
  {
    BlockSum(g.size + g.bs - 1, g.bs);
  }

  lemma {:induction false} FooterLimitIs(g: Geometry, n: nat)
    ensures FooterLimit(g, n) == BatEnd(g) + ALIGNMENT + n * g.bs + n * PadSize(g.bs)
  {
    if n > 0 {
      FooterLimitIs(g, n - 1);
      assert n * g.bs == (n - 1) * g.bs + g.bs;
      assert n * PadSize(g.bs) == (n - 1) * PadSize(g.bs) + PadSize(g.bs);
    }
  }

  lemma EntryBound(entries: nat, bs: nat, bm: nat)
    requires MIN_BLOCK <= bs <= 0x8000_0000 && bm * ALIGNMENT == bs && entries * bs < MAX_DISK + bs
    ensures entries <= 1045504 && entries * bm <= 535298048
  {
    MulLe(MIN_BLOCK, bs, entries);
    assert (entries * bm) * ALIGNMENT == entries * (bm * ALIGNMENT);
  }

  lemma {:induction false} FooterLimitMonotone(g: Geometry, m: nat, n: nat)
    requires m <= n
    ensures FooterLimit(g, m) <= FooterLimit(g, n)
  {
    if m < n {
      FooterLimitMonotone(g, m, n - 1);
    }
  }

  /** Room for every block: even a full disk ends below sector 0xFFFFFFFF, so every
      sector number fits 32 bits and none is the free marker. */
  lemma FullDiskFits(g: Geometry, n: nat)
    requires GeometryOk(g) && n <= g.entries
    ensures FooterLimit(g, n) < (W32 - 1) * SECTOR
  {
    EntriesCover(g);
    EntryBound(g.entries, g.bs, BitMapSize(g.bs));
    FooterLimitIs(g, g.entries);
    FooterLimitMonotone(g, n, g.entries);
  }

  /** Every position of the disk lies in a block the BAT covers. */
  lemma InDisk(g: Geometry, p: nat)
    requires GeometryOk(g) && p < g.size
    ensures BlockNo(p, g.bs) < g.entries
  {
    BlockMonotone(g.bs, p + g.bs, g.size + g.bs - 1);
  }

  /** What the container of one disk holds: a fixed disk's flat data, or a sparse
      disk's BAT and blocks laid over an optional parent. */
  datatype Image =
    | Fixed(fixedSize: uint64, flat: seq<byte>)
    | Sparse(g: Geometry, bat: seq<uint32>, file: seq<byte>, parent: Option<Image>)
  {
    function Size(): uint64 {
      if Fixed? then fixedSize else g.size
    }
  }

  ghost predicate ImageOk(img: Image)
    decreases img, 0
  {
    match img
    case Fixed(size, flat) => size <= MAX_DISK && |flat| == size + FOOTER_SIZE
    case Sparse(g, bat, file, parent) => Layout(g, bat, |file|) && ParentOk(g, parent)
  }

  ghost predicate ParentOk(g: Geometry, parent: Option<Image>)
    decreases parent, 1
  {
    parent.Some? ==>
      && ImageOk(parent.value) && parent.value.Size() == g.size
      && (parent.value.Sparse? ==> parent.value.g.bs == g.bs)
  }

  /** Byte r of block b, for a block with storage of its own. */
  function StoredByte(g: Geometry, bat: seq<uint32>, file: seq<byte>, b: nat, r: nat): byte
    requires b < |bat|
  {
    At(file, DataOffset(g, bat[b]) + r)
  }

  predicate Present(bat: seq<uint32>, b: nat) {
    b < |bat| && bat[b] != FREE
  }

  /** The meaning of a container: byte p of the disk it presents. */
  function ByteAt(img: Image, p: nat): byte {
    match img
    case Fixed(_, flat) => At(flat, p)
    case Sparse(g, bat, file, parent) =>
      if g.bs == 0 then 0
      else if Present(bat, BlockNo(p, g.bs)) then StoredByte(g, bat, file, BlockNo(p, g.bs), BlockPos(p, g.bs))
      else Under(parent, p)
  }

  /** What shows through a free block. */
  function Under(parent: Option<Image>, p: nat): byte {
    match parent
    case None => 0
    case Some(q) => ByteAt(q, p)
  }

  /** The flat disk. */
  function View(img: Image): (v: seq<byte>)
    ensures |v| == img.Size()
  {
    seq(img.Size(), p requires 0 <= p < img.Size() => ByteAt(img, p))
  }

  /** Where the allocator puts a new block when the footer is at `footer`: the BAT entry,
      the offset of the single write that creates it and the footer's next offset. */
  datatype Placement = Placement(entry: nat, writeAt: nat, next: nat)

  function Place(g: Geometry, footer: nat): Placement
    requires GeometryOk(g)
  {
    if footer % ALIGNMENT == 0 then
      Placement((footer + PadSize(g.bs) - BitMapSize(g.bs)) / SECTOR, footer, footer + PadSize(g.bs) + g.bs)
    else
      var data := AlignUp(footer + BitMapSize(g.bs), ALIGNMENT);
      Placement((data - BitMapSize(g.bs)) / SECTOR, data - BitMapSize(g.bs), data + g.bs)
  }

  lemma AlignUpFacts(n: nat)
    ensures AlignUp(n, ALIGNMENT) % ALIGNMENT == 0 && n <= AlignUp(n, ALIGNMENT) < n + ALIGNMENT
  {
    var q := (n + ALIGNMENT - 1) / ALIGNMENT;
    assert q * ALIGNMENT <= n + ALIGNMENT - 1 < (q + 1) * ALIGNMENT;
  }

  lemma AlignedSum(a: nat, b: nat)
    requires a % ALIGNMENT == 0 && b % ALIGNMENT == 0
    ensures (a + b) % ALIGNMENT == 0
  {
  }

  lemma SectorGap(data: nat, bm: nat)
    requires data % ALIGNMENT == 0 && bm % SECTOR == 0 && bm <= data
    ensures SECTOR * ((data - bm) / SECTOR) == data - bm
  {
    var d, m := data / ALIGNMENT, bm / SECTOR;
    assert data - bm == SECTOR * (8 * d - m);
  }

  lemma PlaceFits(g: Geometry, n: nat, footer: nat, at: Placement)
    requires GeometryOk(g) && n < g.entries && FooterPlaced(g, n, footer) && at == Place(g, footer)
    ensures at.entry + BitMapSectors(g.bs) < W32 && at.entry < FREE
    ensures footer <= at.writeAt <= SECTOR * at.entry
    ensures SECTOR * at.entry + BitMapSize(g.bs) + g.bs == at.next
    ensures (SECTOR * at.entry + BitMapSize(g.bs)) % ALIGNMENT == 0
    ensures FooterPlaced(g, n + 1, at.next)
  {
    var bm, pad := BitMapSize(g.bs), PadSize(g.bs);
    var data := if footer % ALIGNMENT == 0 then footer + pad else AlignUp(footer + bm, ALIGNMENT);
    if footer % ALIGNMENT == 0 {
      AlignedSum(footer, pad);
    } else {
      AlignUpFacts(footer + bm);
    }
    SectorGap(data, bm);
    AlignedSum(data, g.bs);
    PlaceBound(g, n, footer, at, data);
  }

  /** The data of a new block begin at the first 4096 boundary that leaves room for the bitmap
      behind the old footer's place, and the footer follows them. On a boundary the write
      begins there and clears what is in front of the bitmap, otherwise with the bitmap. */
  lemma PlaceIs(g: Geometry, footer: nat)
    requires GeometryOk(g)
    ensures var at := Place(g, footer); var data := 512 * at.entry + BitMapSize(g.bs);
      && data % 4096 == 0 && data - 4096 < footer + BitMapSize(g.bs) <= data && at.next == data + g.bs
      && at.writeAt == if footer % 4096 == 0 then footer else 512 * at.entry
  {
    var bm, pad := BitMapSize(g.bs), PadSize(g.bs);
    var data := if footer % ALIGNMENT == 0 then footer + pad else AlignUp(footer + bm, ALIGNMENT);
    if footer % ALIGNMENT == 0 {
      AlignedSum(footer, pad);
    } else {
      AlignUpFacts(footer + bm);
    }
    SectorGap(data, bm);
  }

  lemma PlaceBound(g: Geometry, n: nat, footer: nat, at: Placement, data: nat)
    requires GeometryOk(g) && n < g.entries && FooterPlaced(g, n, footer)
    requires at.next == data + g.bs && data % ALIGNMENT == 0 && at.next % ALIGNMENT == 0
    requires if footer % ALIGNMENT == 0 then data == footer + PadSize(g.bs)
             else footer <= data <= footer + BitMapSize(g.bs) + ALIGNMENT
    requires SECTOR * at.entry == data - BitMapSize(g.bs)
    ensures FooterPlaced(g, n + 1, at.next)
    ensures at.entry + BitMapSectors(g.bs) < W32 && at.entry < FREE
  {
    FullDiskFits(g, n + 1);
  }

  /** The allocator keeps the layout: its new block is clear of everything, fits the
      32-bit BAT entry, and its sector sum with the bitmap does not wrap. */
  lemma PlaceKeepsLayout(g: Geometry, bat: seq<uint32>, fileSize: nat, b: nat, at: Placement)
    requires Layout(g, bat, fileSize) && b < g.entries && bat[b] == FREE
    requires at == Place(g, fileSize - FOOTER_SIZE)
    ensures at.entry + BitMapSectors(g.bs) < W32 && at.entry < FREE
    ensures fileSize - FOOTER_SIZE <= at.writeAt <= SECTOR * at.entry
    ensures SECTOR * at.entry + BitMapSize(g.bs) + g.bs == at.next
    ensures Layout(g, bat[b := at.entry], at.next + FOOTER_SIZE)
  {
    hide Place, GeometryOk, BatSize, BitMapSectors, Allocated, FooterPlaced;
    var footer := fileSize - FOOTER_SIZE;
    LayoutFacts(g, bat, fileSize);
    AllocatedRoom(bat, g.entries, b);
    PlaceFits(g, Allocated(bat, g.entries), footer, at);
    AllocatedStep(bat, g.entries, b, at.entry);
    PlacedApart(g, bat, b, at.entry, footer, at.next, at.writeAt);
  }

  /** A block that starts at or behind the footer is apart from those in front of it. */
  lemma PlacedApart(g: Geometry, bat: seq<uint32>, b: nat, entry: uint32, footer: nat, next: nat, writeAt: nat)
    requires b < g.entries <= |bat| && BatEnd(g) <= footer <= writeAt <= SECTOR * entry
    requires SECTOR * entry + BitMapSize(g.bs) + g.bs == next && DataOffset(g, entry) % ALIGNMENT == 0
    requires forall c :: 0 <= c < g.entries && bat[c] != FREE ==> BlockPlaced(g, bat[c], footer)
    requires forall c, d :: 0 <= c < d < g.entries && bat[c] != FREE && bat[d] != FREE ==> Apart(g, bat[c], bat[d])
    ensures var bat' := bat[b := entry];
      && (forall c :: 0 <= c < g.entries && bat'[c] != FREE ==> BlockPlaced(g, bat'[c], next))
      && (forall c, d :: 0 <= c < d < g.entries && bat'[c] != FREE && bat'[d] != FREE ==> Apart(g, bat'[c], bat'[d]))
  {
    hide BatEnd, BitMapSectors;
    var bat' := bat[b := entry];
    forall c | 0 <= c < g.entries && bat'[c] != FREE
      ensures BlockPlaced(g, bat'[c], next)
    {
    }
    forall c, d | 0 <= c < d < g.entries && bat'[c] != FREE && bat'[d] != FREE
      ensures Apart(g, bat'[c], bat'[d])
    {
      if c == b {
        assert BlockPlaced(g, bat[d], footer);
      } else if d == b {
        assert BlockPlaced(g, bat[c], footer);
      }
    }
  }

  /** The BAT as it is stored: big-endian words. */
  function EncodeBat(bat: seq<uint32>): (r: seq<byte>)
    ensures |r| == 4 * |bat|
    ensures forall k :: 0 <= k < |r| ==> r[k] == BatByte(bat, k)
  {
    seq<byte>(4 * |bat|, k requires 0 <= k < 4 * |bat| => BatByte(bat, k))
  }

  function BatByte(bat: seq<uint32>, k: nat): byte
    requires k < 4 * |bat|
  {
    Byte32(bat[k / 4], k % 4)
  }

  /** The bytes of the BAT that are rewritten after entry b has changed: `start` and
      `size` within the stored BAT. */
  datatype BatUpdate = BatUpdate(start: nat, size: nat)

  function BatUpdateWindow(g: Geometry, b: nat): (u: BatUpdate)
    requires GeometryOk(g) && b < g.entries
    ensures u.start <= 4 * b && 4 * b + 4 <= u.start + u.size <= BatSize(g.entries) && u.size <= 4096
  {
    var sector := AlignDown(4 * b + g.table, ALIGNMENT);
    var clipped := if sector < g.table
      then BatUpdate(0, AlignDown(4 * b + 512, 512))
      else BatUpdate(sector - g.table, ALIGNMENT);
    BatWindowFacts(b, g.table, BatSize(g.entries));
    if clipped.start + clipped.size > BatSize(g.entries)
    then BatUpdate(clipped.start, BatSize(g.entries) - clipped.start)
    else clipped
  }

  lemma BatWindowFacts(b: nat, table: nat, size: nat)
    requires table % SECTOR == 0
    ensures var sector := AlignDown(4 * b + table, ALIGNMENT);
      && sector <= 4 * b + table && 4 * b + table + 4 <= sector + ALIGNMENT
      && 4 * b + 4 <= AlignDown(4 * b + 512, 512) && (sector < table ==> AlignDown(4 * b + 512, 512) <= ALIGNMENT)
  {
    var t := table / SECTOR;
    assert 4 * b + table == 4 * (b + 128 * t);
    PageRoom(b + 128 * t);
    SectorRoom(b + 128);
    InFirstPage(b + 128 * t, t);
  }

  /** An entry whose page begins before the table is less than a page into it. */
  lemma InFirstPage(q: nat, t: nat)
    ensures AlignDown(4 * q, ALIGNMENT) < SECTOR * t ==> 4 * q - SECTOR * t + 512 <= ALIGNMENT
  {
    var p := 4 * q / ALIGNMENT;
    assert AlignDown(4 * q, ALIGNMENT) == SECTOR * (8 * p) && 4 * q < ALIGNMENT * p + ALIGNMENT;
  }

  /** Four-byte entries do not straddle pages or sectors. */
  lemma PageRoom(q: nat)
    ensures 4 * q + 4 <= AlignDown(4 * q, ALIGNMENT) + ALIGNMENT
  {
    assert 4 * q / ALIGNMENT == q / 1024;
  }

  lemma SectorRoom(q: nat)
    ensures 4 * q + 4 <= AlignDown(4 * q, 512) + 512
  {
    assert 4 * q / 512 == q / 128;
  }

  lemma BatByteKept(bat: seq<uint32>, b: nat, e: uint32, k: nat)
    requires b < |bat| && k < 4 * |bat| && !(4 * b <= k < 4 * b + 4)
    ensures BatByte(bat[b := e], k) == BatByte(bat, k)
  {
    assert k / 4 != b;
  }

  /** Rewriting any stretch of the BAT around entry b makes the stored BAT equal the changed one. */
  lemma BatUpdateStores(table: nat, bat: seq<uint32>, file: seq<byte>, b: nat, e: uint32, start: nat, size: nat)
    requires b < |bat| && start <= 4 * b && 4 * b + 4 <= start + size <= 4 * |bat|
    requires Window(file, table, 4 * |bat|) == EncodeBat(bat)
    ensures var bat' := bat[b := e];
      Window(Splice(file, table + start, EncodeBat(bat')[start..start + size]), table, 4 * |bat|) == EncodeBat(bat')
  {
    var bat' := bat[b := e];
    var data := EncodeBat(bat')[start..start + size];
    var after := Window(Splice(file, table + start, data), table, 4 * |bat|);
    forall k | 0 <= k < 4 * |bat|
      ensures after[k] == EncodeBat(bat')[k]
    {
      AtSplice(file, table + start, data, table + k);
      if !(start <= k < start + size) {
        BatByteKept(bat, b, e, k);
        assert EncodeBat(bat)[k] == Window(file, table, 4 * |bat|)[k];
      }
    }
  }

  /** Header copy, dynamic header and BAT on the host file agree with the handle's copies. */
  predicate HeadStored(g: Geometry, foot: seq<byte>, dyn: seq<byte>, bat: seq<uint32>, file: seq<byte>) {
    && Window(file, 0, FOOTER_SIZE) == foot
    && Window(file, FOOTER_SIZE, DYNAMIC_SIZE) == dyn
    && Window(file, g.table, 4 * |bat|) == EncodeBat(bat)
  }

  /** The same, and the footer ends the file. */
  predicate Stored(g: Geometry, foot: seq<byte>, dyn: seq<byte>, bat: seq<uint32>, file: seq<byte>) {
    && |file| >= FOOTER_SIZE
    && HeadStored(g, foot, dyn, bat, file)
    && Window(file, |file| - FOOTER_SIZE, FOOTER_SIZE) == foot
  }

  /** A write behind the BAT leaves the stored metadata alone. */
  lemma HeadKept(g: Geometry, foot: seq<byte>, dyn: seq<byte>, bat: seq<uint32>, file: seq<byte>, at: nat, data: seq<byte>)
    requires HeadStored(g, foot, dyn, bat, file)
    requires FOOTER_SIZE + DYNAMIC_SIZE <= g.table && g.table + 4 * |bat| <= at
    ensures HeadStored(g, foot, dyn, bat, Splice(file, at, data))
  {
    WindowBesideSplice(file, at, data, 0, FOOTER_SIZE);
    WindowBesideSplice(file, at, data, FOOTER_SIZE, DYNAMIC_SIZE);
    WindowBesideSplice(file, at, data, g.table, 4 * |bat|);
  }

  lemma HeadBatUpdate(g: Geometry, foot: seq<byte>, dyn: seq<byte>, bat: seq<uint32>, file: seq<byte>, b: nat, e: uint32, start: nat, size: nat)
    requires HeadStored(g, foot, dyn, bat, file) && FOOTER_SIZE + DYNAMIC_SIZE <= g.table
    requires b < |bat| && start <= 4 * b && 4 * b + 4 <= start + size <= 4 * |bat|
    ensures HeadStored(g, foot, dyn, bat[b := e], Splice(file, g.table + start, EncodeBat(bat[b := e])[start..start + size]))
  {
    var data := EncodeBat(bat[b := e])[start..start + size];
    BatUpdateStores(g.table, bat, file, b, e, start, size);
    WindowBesideSplice(file, g.table + start, data, 0, FOOTER_SIZE);
    WindowBesideSplice(file, g.table + start, data, FOOTER_SIZE, DYNAMIC_SIZE);
  }

  /** What is written for a fresh block: padding, an all-ones bitmap, zero data. */
  function NewBlock(g: Geometry, at: Placement): (r: seq<byte>)
    ensures |r| >= g.bs && forall i :: |r| - g.bs <= i < |r| ==> r[i] == 0
    ensures at.writeAt <= SECTOR * at.entry ==> |r| == SECTOR * at.entry - at.writeAt + BitMapSize(g.bs) + g.bs
    ensures at.writeAt <= SECTOR * at.entry ==>
      forall i :: SECTOR * at.entry - at.writeAt <= i < |r| - g.bs ==> r[i] == 0xFF
  {
    Zeros(Max(0, SECTOR * at.entry - at.writeAt)) + seq(BitMapSize(g.bs), i => 0xFF) + Zeros(g.bs)
  }

  /** The three writes of one allocation are the block, the footer behind it and a window
      of the BAT. After them the metadata is stored again. */
  lemma ThreeWritesHead(g: Geometry, foot: seq<byte>, dyn: seq<byte>, bat: seq<uint32>, file: seq<byte>, b: nat, at: Placement,
                        block: seq<byte>, u: BatUpdate)
    requires Stored(g, foot, dyn, bat, file) && b < |bat| && 4 * |bat| == BatSize(g.entries) && at.entry < W32
    requires u.start <= 4 * b && 4 * b + 4 <= u.start + u.size <= 4 * |bat|
    requires FOOTER_SIZE + DYNAMIC_SIZE <= g.table && BatEnd(g) <= |file| - FOOTER_SIZE <= at.writeAt
    requires at.writeAt + |block| == at.next && 0 < g.bs <= |block|
    ensures var data := EncodeBat(bat[b := at.entry])[u.start..u.start + u.size];
      var file' := Splice(Splice(Splice(file, at.writeAt, block), at.next, foot), g.table + u.start, data);
      |file'| == at.next + FOOTER_SIZE && Stored(g, foot, dyn, bat[b := at.entry], file')
  {
    hide HeadStored, BatSize;
    var data := EncodeBat(bat[b := at.entry])[u.start..u.start + u.size];
    var withBlock := Splice(file, at.writeAt, block);
    var withFooter := Splice(withBlock, at.next, foot);
    HeadKept(g, foot, dyn, bat, file, at.writeAt, block);
    HeadKept(g, foot, dyn, bat, withBlock, at.next, foot);
    HeadBatUpdate(g, foot, dyn, bat, withFooter, b, at.entry, u.start, u.size);
    WindowOfSplice(withBlock, at.next, foot);
    WindowBesideSplice(withFooter, g.table + u.start, data, at.next, FOOTER_SIZE);
  }

  /** Every older block is as it was, and the new block's data is zero. */
  lemma ThreeWritesData(g: Geometry, foot: seq<byte>, file: seq<byte>, at: Placement, block: seq<byte>, batAt: nat, data: seq<byte>)
    requires BatEnd(g) <= |file| - FOOTER_SIZE <= at.writeAt && batAt + |data| <= BatEnd(g)
    requires at.writeAt + |block| == at.next && g.bs <= |block|
    requires forall i :: |block| - g.bs <= i < |block| ==> block[i] == 0
    ensures var file' := Splice(Splice(Splice(file, at.writeAt, block), at.next, foot), batAt, data);
      && (forall i :: BatEnd(g) <= i < |file| - FOOTER_SIZE ==> At(file', i) == At(file, i))
      && (forall i :: at.next - g.bs <= i < at.next ==> At(file', i) == 0)
      && (forall i :: at.writeAt <= i < at.next ==> At(file', i) == block[i - at.writeAt])
  {
    var withBlock := Splice(file, at.writeAt, block);
    var withFooter := Splice(withBlock, at.next, foot);
    var file' := Splice(withFooter, batAt, data);
    forall i | BatEnd(g) <= i < at.next
      ensures At(file', i) == At(withBlock, i)
      ensures i < |file| - FOOTER_SIZE ==> At(file', i) == At(file, i)
      ensures at.next - g.bs <= i ==> At(file', i) == 0
      ensures at.writeAt <= i ==> At(file', i) == block[i - at.writeAt]
    {
      AtSplice(withFooter, batAt, data, i);
      AtSplice(withBlock, at.next, foot, i);
      AtSplice(file, at.writeAt, block, i);
    }
  }

  /** The bitmap in front of a block's data says that every sector is present. */
  predicate BitmapFull(g: Geometry, e: uint32, file: seq<byte>) {
    forall i :: SECTOR * e <= i < SECTOR * e + BitMapSize(g.bs) ==> At(file, i) == 0xFF
  }

  ghost predicate Marked(g: Geometry, bat: seq<uint32>, file: seq<byte>) {
    forall b :: 0 <= b < g.entries && b < |bat| && bat[b] != FREE ==> BitmapFull(g, bat[b], file)
  }

  /** Bitmaps lie between table and footer. */
  lemma BitmapKept(g: Geometry, bat: seq<uint32>, file: seq<byte>, file': seq<byte>, b: nat)
    requires Layout(g, bat, |file|) && b < g.entries && bat[b] != FREE && BitmapFull(g, bat[b], file)
    requires forall i :: SECTOR * bat[b] <= i < SECTOR * bat[b] + BitMapSize(g.bs) && BatEnd(g) <= i < |file| - FOOTER_SIZE ==>
      At(file', i) == At(file, i)
    ensures BitmapFull(g, bat[b], file')
  {
    hide FooterPlaced, GeometryOk, BatSize, BitMapSectors, Allocated;
    assert BlockPlaced(g, bat[b], |file| - FOOTER_SIZE);
  }

  lemma MarkedKept(g: Geometry, bat: seq<uint32>, file: seq<byte>, file': seq<byte>)
    requires Layout(g, bat, |file|) && Marked(g, bat, file)
    requires forall i :: BatEnd(g) <= i < |file| - FOOTER_SIZE ==> At(file', i) == At(file, i)
    ensures Marked(g, bat, file')
  {
    hide Layout, BitmapFull;
    LayoutFacts(g, bat, |file|);
    forall b | 0 <= b < g.entries && bat[b] != FREE ensures BitmapFull(g, bat[b], file') {
      BitmapKept(g, bat, file, file', b);
    }
  }

  /** A new block brings a full bitmap and leaves those of the others alone. */
  lemma MarkedMore(g: Geometry, bat: seq<uint32>, file: seq<byte>, file': seq<byte>, b: nat, at: Placement)
    requires Layout(g, bat, |file|) && Marked(g, bat, file) && b < g.entries && at.entry < W32
    requires at.writeAt <= SECTOR * at.entry && SECTOR * at.entry + BitMapSize(g.bs) + g.bs == at.next
    requires forall i :: BatEnd(g) <= i < |file| - FOOTER_SIZE ==> At(file', i) == At(file, i)
    requires forall i :: at.writeAt <= i < at.next ==> At(file', i) == NewBlock(g, at)[i - at.writeAt]
    ensures Marked(g, bat[b := at.entry], file')
  {
    hide Layout, NewBlock, GeometryOk, BatSize, BitMapSectors;
    LayoutFacts(g, bat, |file|);
    MarkedKept(g, bat, file, file');
    assert BitmapFull(g, at.entry, file');
  }

  lemma NothingMarked(g: Geometry, file: seq<byte>)
    ensures Marked(g, FreshBat(g.entries), file)
  {
  }

  /** A store inside a block's data is behind its bitmap and clear of the others. */
  lemma MarkedStore(g: Geometry, bat: seq<uint32>, file: seq<byte>, b: nat, r: nat, data: seq<byte>)
    requires Layout(g, bat, |file|) && Marked(g, bat, file) && b < g.entries && bat[b] != FREE && r + |data| <= g.bs
    ensures Marked(g, bat, Splice(file, DataOffset(g, bat[b]) + r, data))
  {
    hide Layout, BitmapFull, Splice;
    LayoutFacts(g, bat, |file|);
    var file' := Splice(file, DataOffset(g, bat[b]) + r, data);
    forall c | 0 <= c < g.entries && bat[c] != FREE ensures BitmapFull(g, bat[c], file') {
      BitmapClear(g, bat, file, b, r, data, c);
    }
  }

  lemma BitmapClear(g: Geometry, bat: seq<uint32>, file: seq<byte>, b: nat, r: nat, data: seq<byte>, c: nat)
    requires Layout(g, bat, |file|) && b < g.entries && bat[b] != FREE && r + |data| <= g.bs
    requires c < g.entries && bat[c] != FREE && BitmapFull(g, bat[c], file)
    ensures BitmapFull(g, bat[c], Splice(file, DataOffset(g, bat[b]) + r, data))
  {
    hide FooterPlaced, GeometryOk, BatSize, BitMapSectors, Allocated, Splice;
    var at := DataOffset(g, bat[b]) + r;
    if c < b {
      assert Apart(g, bat[c], bat[b]);
    } else if b < c {
      assert Apart(g, bat[b], bat[c]);
    }
    forall i | SECTOR * bat[c] <= i < SECTOR * bat[c] + BitMapSize(g.bs)
      ensures At(Splice(file, at, data), i) == 0xFF
    {
      AtSplice(file, at, data, i);
    }
  }

  /** A block's data lies wholly between BAT and footer. */
  lemma StoredWhere(g: Geometry, bat: seq<uint32>, fileSize: nat, b: nat, r: nat)
    requires Layout(g, bat, fileSize) && b < g.entries && bat[b] != FREE && r < g.bs
    ensures BatEnd(g) <= DataOffset(g, bat[b]) + r < fileSize - FOOTER_SIZE
  {
    assert BlockPlaced(g, bat[b], fileSize - FOOTER_SIZE);
  }

  /** Storing into one block touches exactly the bytes written and no other block. */
  lemma StoreByte(g: Geometry, bat: seq<uint32>, file: seq<byte>, b: nat, r: nat, data: seq<byte>, c: nat, s: nat)
    requires Layout(g, bat, |file|)
    requires b < g.entries && bat[b] != FREE && r + |data| <= g.bs
    requires c < g.entries && bat[c] != FREE && s < g.bs
    ensures StoredByte(g, bat, Splice(file, DataOffset(g, bat[b]) + r, data), c, s)
         == if c == b && r <= s < r + |data| then data[s - r] else StoredByte(g, bat, file, c, s)
  {
    hide FooterPlaced, GeometryOk, BatSize, BitMapSectors, Allocated, Splice, FooterLimit;
    AtSplice(file, DataOffset(g, bat[b]) + r, data, DataOffset(g, bat[c]) + s);
    if c < b {
      assert Apart(g, bat[c], bat[b]);
    } else if b < c {
      assert Apart(g, bat[b], bat[c]);
    }
  }

  lemma ByteAtSparse(g: Geometry, bat: seq<uint32>, file: seq<byte>, parent: Option<Image>, p: nat)
    requires g.bs > 0 && BlockNo(p, g.bs) < |bat|
    ensures ByteAt(Sparse(g, bat, file, parent), p)
         == if bat[BlockNo(p, g.bs)] != FREE then StoredByte(g, bat, file, BlockNo(p, g.bs), BlockPos(p, g.bs)) else Under(parent, p)
  {
  }

  lemma StorePosition(g: Geometry, bat: seq<uint32>, file: seq<byte>, file': seq<byte>, parent: Option<Image>,
                      off: nat, b: nat, r: nat, data: seq<byte>, p: nat, c: nat, s: nat)
    requires g.bs > 0 && b < |bat| && c < |bat| && bat[b] != FREE && r + |data| <= g.bs
    requires b == BlockNo(off, g.bs) && r == BlockPos(off, g.bs) && c == BlockNo(p, g.bs) && s == BlockPos(p, g.bs)
    requires bat[c] != FREE ==>
      StoredByte(g, bat, file', c, s) == if c == b && r <= s < r + |data| then data[s - r] else StoredByte(g, bat, file, c, s)
    ensures ByteAt(Sparse(g, bat, file', parent), p)
        == if off <= p < off + |data| then data[p - off] else ByteAt(Sparse(g, bat, file, parent), p)
  {
    ByteAtSparse(g, bat, file, parent, p);
    ByteAtSparse(g, bat, file', parent, p);
    InStretch(g.bs, off, |data|, p);
  }

  /** The result of writing `data` at `off` on the disk that `was` presents; positions
      past the end of the disk are left open. */
  ghost predicate Written(img: Image, was: Image, off: nat, data: seq<byte>) {
    && img.Size() == was.Size()
    && forall p :: 0 <= p < img.Size() ==>
         ByteAt(img, p) == if off <= p < off + |data| then data[p - off] else ByteAt(was, p)
  }

  lemma StoreViewAt(g: Geometry, bat: seq<uint32>, file: seq<byte>, file': seq<byte>, parent: Option<Image>,
                    off: nat, b: nat, r: nat, data: seq<byte>, p: nat)
    requires Layout(g, bat, |file|) && p < g.size
    requires b == BlockNo(off, g.bs) && r == BlockPos(off, g.bs) && b < g.entries && bat[b] != FREE && r + |data| <= g.bs
    requires file' == Splice(file, DataOffset(g, bat[b]) + r, data)
    ensures ByteAt(Sparse(g, bat, file', parent), p)
        == if off <= p < off + |data| then data[p - off] else ByteAt(Sparse(g, bat, file, parent), p)
  {
    InDisk(g, p);
    var c, s := BlockNo(p, g.bs), BlockPos(p, g.bs);
    if bat[c] != FREE {
      StoreByte(g, bat, file, b, r, data, c, s);
    }
    StorePosition(g, bat, file, file', parent, off, b, r, data, p, c, s);
  }

  lemma StoreView(g: Geometry, bat: seq<uint32>, file: seq<byte>, parent: Option<Image>, off: nat, data: seq<byte>)
    requires Layout(g, bat, |file|) && data != []
    requires BlockNo(off, g.bs) < g.entries && bat[BlockNo(off, g.bs)] != FREE && BlockPos(off, g.bs) + |data| <= g.bs
    ensures var file' := Splice(file, DataOffset(g, bat[BlockNo(off, g.bs)]) + BlockPos(off, g.bs), data);
      && |file'| == |file|
      && Written(Sparse(g, bat, file', parent), Sparse(g, bat, file, parent), off, data)
  {
    StoredWhere(g, bat, |file|, BlockNo(off, g.bs), BlockPos(off, g.bs) + |data| - 1);
    var b, r := BlockNo(off, g.bs), BlockPos(off, g.bs);
    var file' := Splice(file, DataOffset(g, bat[b]) + r, data);
    forall p | 0 <= p < g.size
      ensures ByteAt(Sparse(g, bat, file', parent), p)
        == if off <= p < off + |data| then data[p - off] else ByteAt(Sparse(g, bat, file, parent), p)
    {
      StoreViewAt(g, bat, file, file', parent, off, b, r, data, p);
    }
  }

  /** Allocating a block: block b now reads zero, every other position is unchanged. */
  lemma AllocateView(g: Geometry, bat: seq<uint32>, file: seq<byte>, parent: Option<Image>, b: nat, at: Placement, file': seq<byte>)
    requires Layout(g, bat, |file|) && b < g.entries && bat[b] == FREE
    requires at.entry < FREE && DataOffset(g, at.entry) == at.next - g.bs
    requires forall i :: BatEnd(g) <= i < |file| - FOOTER_SIZE ==> At(file', i) == At(file, i)
    requires forall i :: at.next - g.bs <= i < at.next ==> At(file', i) == 0
    ensures forall p :: 0 <= p < g.size ==>
      ByteAt(Sparse(g, bat[b := at.entry], file', parent), p)
        == if BlockNo(p, g.bs) == b then 0 else ByteAt(Sparse(g, bat, file, parent), p)
  {
    hide ByteAt, BlockNo, BlockPos, Layout, GeometryOk, Under, BatSize, BitMapSectors;
    LayoutFacts(g, bat, |file|);
    var bat' := bat[b := at.entry];
    forall p | 0 <= p < g.size
      ensures ByteAt(Sparse(g, bat', file', parent), p)
           == if BlockNo(p, g.bs) == b then 0 else ByteAt(Sparse(g, bat, file, parent), p)
    {
      InDisk(g, p);
      var c, r := BlockNo(p, g.bs), BlockPos(p, g.bs);
      ByteAtSparse(g, bat, file, parent, p);
      ByteAtSparse(g, bat', file', parent, p);
      if c != b && bat[c] != FREE {
        StoredWhere(g, bat, |file|, c, r);
      }
    }
  }

  lemma LayoutFacts(g: Geometry, bat: seq<uint32>, fileSize: nat)
    requires Layout(g, bat, fileSize)
    ensures GeometryOk(g) && 4 * |bat| == BatSize(g.entries) && g.entries <= |bat| && 0 < g.bs <= 0x8000_0000
    ensures FOOTER_SIZE + DYNAMIC_SIZE <= g.table && BatEnd(g) <= fileSize - FOOTER_SIZE
  {
  }

  /** One allocation, start to end: the layout and the stored metadata hold again, the new
      block reads zero and nothing else has changed. */
  lemma AllocationIsSound(g: Geometry, foot: seq<byte>, dyn: seq<byte>, bat: seq<uint32>, file: seq<byte>, parent: Option<Image>, b: nat)
    requires Layout(g, bat, |file|) && Stored(g, foot, dyn, bat, file) && Marked(g, bat, file) && b < g.entries && bat[b] == FREE
    ensures var at := Place(g, |file| - FOOTER_SIZE);
      var u := BatUpdateWindow(g, b);
      && at.entry < FREE && |file| - FOOTER_SIZE <= at.writeAt <= SECTOR * at.entry
      && var bat' := bat[b := at.entry];
      var file' := Splice(Splice(Splice(file, at.writeAt, NewBlock(g, at)), at.next, foot),
                          g.table + u.start, EncodeBat(bat')[u.start..u.start + u.size]);
      && Layout(g, bat', |file'|)
      && Stored(g, foot, dyn, bat', file') && Marked(g, bat', file')
      && forall p :: 0 <= p < g.size ==>
           ByteAt(Sparse(g, bat', file', parent), p)
             == if BlockNo(p, g.bs) == b then 0 else ByteAt(Sparse(g, bat, file, parent), p)
  {
    hide ByteAt, BlockNo, BlockPos, HeadStored, Place, BatUpdateWindow, Layout, GeometryOk,
      FooterPlaced, BatSize, NewBlock, EncodeBat, Splice, Marked, Stored, Byte32, BitMapSectors, AlignDown, AlignUp;
    LayoutFacts(g, bat, |file|);
    var at := Place(g, |file| - FOOTER_SIZE);
    var u := BatUpdateWindow(g, b);
    PlaceKeepsLayout(g, bat, |file|, b, at);
    var bat' := bat[b := at.entry];
    var block := NewBlock(g, at);
    var data := EncodeBat(bat')[u.start..u.start + u.size];
    ThreeWritesHead(g, foot, dyn, bat, file, b, at, block, u);
    ThreeWritesData(g, foot, file, at, block, g.table + u.start, data);
    var file' := Splice(Splice(Splice(file, at.writeAt, block), at.next, foot), g.table + u.start, data);
    AllocateView(g, bat, file, parent, b, at, file');
    MarkedMore(g, bat, file, file', b, at);
  }

  /** One store into an allocated block: layout and metadata hold, exactly the positions
      written change. */
  lemma StoreIsSound(g: Geometry, foot: seq<byte>, dyn: seq<byte>, bat: seq<uint32>, file: seq<byte>, parent: Option<Image>,
                     off: nat, data: seq<byte>)
    requires Layout(g, bat, |file|) && Stored(g, foot, dyn, bat, file) && Marked(g, bat, file)
    requires |foot| == FOOTER_SIZE && data != []
    requires BlockNo(off, g.bs) < g.entries && bat[BlockNo(off, g.bs)] != FREE && BlockPos(off, g.bs) + |data| <= g.bs
    ensures var file' := Splice(file, DataOffset(g, bat[BlockNo(off, g.bs)]) + BlockPos(off, g.bs), data);
      && Layout(g, bat, |file'|)
      && Stored(g, foot, dyn, bat, file') && Marked(g, bat, file')
      && Written(Sparse(g, bat, file', parent), Sparse(g, bat, file, parent), off, data)
  {
    hide ByteAt, HeadStored, GeometryOk, FooterPlaced, BatSize, Splice, Written, Marked;
    LayoutFacts(g, bat, |file|);
    var b, r := BlockNo(off, g.bs), BlockPos(off, g.bs);
    var at := DataOffset(g, bat[b]) + r;
    StoredWhere(g, bat, |file|, b, r);
    StoredWhere(g, bat, |file|, b, r + |data| - 1);
    StoreView(g, bat, file, parent, off, data);
    MarkedStore(g, bat, file, b, r, data);
    HeadKept(g, foot, dyn, bat, file, at, data);
    WindowBesideSplice(file, at, data, |file| - FOOTER_SIZE, FOOTER_SIZE);
  }

  /** Filling a freshly zeroed block with what showed through it before restores the view. */
  lemma PopulateView(now: Image, zeroed: Image, was: Image, b: nat, start: nat, data: seq<byte>, bs: nat)
    requires bs > 0 && |data| == bs && now.Size() == zeroed.Size() == was.Size()
    requires Written(now, zeroed, start, data)
    requires BlockNo(start, bs) == b && BlockPos(start, bs) == 0
    requires forall p :: 0 <= p < was.Size() ==> ByteAt(zeroed, p) == if BlockNo(p, bs) == b then 0 else ByteAt(was, p)
    requires forall i :: 0 <= i < bs && start + i < was.Size() ==> data[i] == ByteAt(was, start + i)
    ensures Written(now, was, 0, [])
  {
    forall p | 0 <= p < was.Size()
      ensures ByteAt(now, p) == ByteAt(was, p)
    {
      InStretch(bs, start, bs, p);
      if start <= p < start + bs {
        assert data[p - start] == ByteAt(was, start + (p - start));
      }
    }
  }

  /** Offset of the first byte of the block that holds `off`, as the code computes it. */
  function BlockStart(off: nat, bs: nat): nat
    requires bs > 0
  {
    off / bs * bs
  }

  lemma BlockStartIs(off: nat, bs: nat)
    requires bs > 0
    ensures var start := BlockStart(off, bs);
      start + BlockPos(off, bs) == off && BlockNo(start, bs) == BlockNo(off, bs) && BlockPos(start, bs) == 0
  {
    BlockDiv(off, bs);
    BlockSum(off, bs);
    StartOf(bs, BlockNo(off, bs));
  }

  lemma {:induction false} StartOf(bs: nat, b: nat)
    requires bs > 0
    ensures BlockNo(b * bs, bs) == b && BlockPos(b * bs, bs) == 0
  {
    if b > 0 {
      StartOf(bs, b - 1);
      assert b * bs == (b - 1) * bs + bs;
    }
  }

  lemma BlockNoSmall(off: nat, bs: nat)
    requires bs >= MIN_BLOCK && off < 0x1000_0000_0000
    ensures BlockNo(off, bs) + 1 < W32
  {
    BlockSum(off, bs);
    MulLe(MIN_BLOCK, bs, BlockNo(off, bs));
  }

  lemma BlockStartsInDisk(g: Geometry, off: nat)
    requires GeometryOk(g) && BlockNo(off, g.bs) < g.entries
    ensures BlockStart(off, g.bs) < g.size
  {
    BlockDiv(off, g.bs);
    EntriesCover(g);
    MulLe(BlockNo(off, g.bs) + 1, g.entries, g.bs);
    assert (BlockNo(off, g.bs) + 1) * g.bs == BlockNo(off, g.bs) * g.bs + g.bs;
  }

  /** What a free block presents over a parent. */
  lemma ShowsThrough(g: Geometry, bat: seq<uint32>, file: seq<byte>, parent: Image, start: nat, i: nat)
    requires g.bs > 0 && BlockPos(start, g.bs) == 0 && i < g.bs && BlockNo(start, g.bs) < |bat| && bat[BlockNo(start, g.bs)] == FREE
    ensures ByteAt(Sparse(g, bat, file, Some(parent)), start + i) == ByteAt(parent, start + i)
  {
    WithinBlock(g.bs, start, i);
    ByteAtSparse(g, bat, file, Some(parent), start + i);
  }

  /** Merging one block: once the child's data is in the parent, the child's entry can be
      freed without changing what the two present together. */
  lemma MergeStep(g: Geometry, bat: seq<uint32>, file: seq<byte>, parent: Image, parent': Image, b: nat, start: nat, data: seq<byte>)
    requires GeometryOk(g) && b < g.entries <= |bat| && bat[b] != FREE && parent.Size() == g.size
    requires BlockNo(start, g.bs) == b && BlockPos(start, g.bs) == 0 && |data| == Min(g.bs, g.size - start) > 0
    requires forall i :: 0 <= i < |data| ==> data[i] == At(file, DataOffset(g, bat[b]) + i)
    requires Written(parent', parent, start, data)
    ensures Written(Sparse(g, bat[b := FREE], file, Some(parent')), Sparse(g, bat, file, Some(parent)), 0, [])
  {
    forall p | 0 <= p < g.size
      ensures ByteAt(Sparse(g, bat[b := FREE], file, Some(parent')), p) == ByteAt(Sparse(g, bat, file, Some(parent)), p)
    {
      MergeStepAt(g, bat, file, parent, parent', b, start, data, p);
    }
  }

  lemma MergeStepAt(g: Geometry, bat: seq<uint32>, file: seq<byte>, parent: Image, parent': Image, b: nat, start: nat, data: seq<byte>, p: nat)
    requires GeometryOk(g) && b < g.entries <= |bat| && bat[b] != FREE && parent.Size() == g.size && p < g.size
    requires BlockNo(start, g.bs) == b && BlockPos(start, g.bs) == 0 && |data| == Min(g.bs, g.size - start) > 0
    requires forall i :: 0 <= i < |data| ==> data[i] == At(file, DataOffset(g, bat[b]) + i)
    requires Written(parent', parent, start, data)
    ensures ByteAt(Sparse(g, bat[b := FREE], file, Some(parent')), p) == ByteAt(Sparse(g, bat, file, Some(parent)), p)
  {
    hide GeometryOk, BlockNo, BlockPos;
    InDisk(g, p);
    BlockPositive(g);
    ByteAtSparse(g, bat, file, Some(parent), p);
    ByteAtSparse(g, bat[b := FREE], file, Some(parent'), p);
    InStretch(g.bs, start, g.bs, p);
    if BlockNo(p, g.bs) == b {
      assert data[p - start] == At(file, DataOffset(g, bat[b]) + (p - start));
    }
  }

  lemma BlockPositive(g: Geometry)
    requires GeometryOk(g)
    ensures MIN_BLOCK <= g.bs <= 0x8000_0000 && g.bs % SECTOR == 0
  {
  }

  /** With every entry free the parent shows through everywhere. */
  lemma AllFree(g: Geometry, bat: seq<uint32>, file: seq<byte>, parent: Image)
    requires GeometryOk(g) && g.entries <= |bat| && forall b :: 0 <= b < g.entries ==> bat[b] == FREE
    ensures forall p :: 0 <= p < g.size ==> ByteAt(Sparse(g, bat, file, Some(parent)), p) == ByteAt(parent, p)
  {
    forall p | 0 <= p < g.size
      ensures ByteAt(Sparse(g, bat, file, Some(parent)), p) == ByteAt(parent, p)
    {
      InDisk(g, p);
      ByteAtSparse(g, bat, file, Some(parent), p);
    }
  }

  /** Images that agree on every position are the same flat disk. */
  lemma SameView(img: Image, was: Image)
    requires Written(img, was, 0, [])
    ensures View(img) == View(was)
  {
  }

  /** Everything a container holds. */
  datatype Region = HeaderCopy | DynamicHeader | Locators | BatRegion | Block(b: nat) | FooterRegion

  predicate Exists(g: Geometry, bat: seq<uint32>, r: Region) {
    r.Block? ==> r.b < g.entries && Present(bat, r.b)
  }

  function Start(g: Geometry, bat: seq<uint32>, fileSize: nat, r: Region): int
    requires Exists(g, bat, r)
  {
    match r
    case HeaderCopy => 0
    case DynamicHeader => FOOTER_SIZE
    case Locators => FOOTER_SIZE + DYNAMIC_SIZE
    case BatRegion => g.table
    case Block(b) => SECTOR * bat[b]
    case FooterRegion => fileSize - FOOTER_SIZE
  }

  function End(g: Geometry, bat: seq<uint32>, fileSize: nat, r: Region): int
    requires Exists(g, bat, r)
  {
    match r
    case HeaderCopy => FOOTER_SIZE
    case DynamicHeader => FOOTER_SIZE + DYNAMIC_SIZE
    case Locators => g.table
    case BatRegion => BatEnd(g)
    case Block(b) => DataOffset(g, bat[b]) + g.bs
    case FooterRegion => fileSize
  }

  /** In a container that obeys the layout no two regions overlap, all lie in the file, and
      block data is aligned to 4096. */
  lemma RegionsDisjoint(g: Geometry, bat: seq<uint32>, fileSize: nat, r: Region, q: Region)
    requires Layout(g, bat, fileSize) && Exists(g, bat, r) && Exists(g, bat, q) && r != q
    ensures End(g, bat, fileSize, r) <= Start(g, bat, fileSize, q) || End(g, bat, fileSize, q) <= Start(g, bat, fileSize, r)
    ensures 0 <= Start(g, bat, fileSize, r) <= End(g, bat, fileSize, r) <= fileSize
    ensures r.Block? ==> (End(g, bat, fileSize, r) - g.bs) % ALIGNMENT == 0
  {
    if r.Block? {
      assert BlockPlaced(g, bat[r.b], fileSize - FOOTER_SIZE);
    }
    if q.Block? {
      assert BlockPlaced(g, bat[q.b], fileSize - FOOTER_SIZE);
    }
    if r.Block? && q.Block? {
      assert r.b < q.b ==> Apart(g, bat[r.b], bat[q.b]);
      assert q.b < r.b ==> Apart(g, bat[q.b], bat[r.b]);
    }
  }

  /** A sparse disk's contents depend on the file only between BAT and footer. */
  lemma ViewFromBlocks(g: Geometry, bat: seq<uint32>, file: seq<byte>, file': seq<byte>, parent: Option<Image>)
    requires Layout(g, bat, |file|)
    requires forall i :: BatEnd(g) <= i < |file| - FOOTER_SIZE ==> At(file', i) == At(file, i)
    ensures Written(Sparse(g, bat, file', parent), Sparse(g, bat, file, parent), 0, [])
  {
    forall p | 0 <= p < g.size
      ensures ByteAt(Sparse(g, bat, file', parent), p) == ByteAt(Sparse(g, bat, file, parent), p)
    {
      InDisk(g, p);
      if bat[BlockNo(p, g.bs)] != FREE {
        StoredWhere(g, bat, |file|, BlockNo(p, g.bs), BlockPos(p, g.bs));
      }
    }
  }

  /** Rewriting both copies of the footer stores the new footer and touches nothing else. */
  lemma FooterRewrite(g: Geometry, foot: seq<byte>, foot': seq<byte>, dyn: seq<byte>, bat: seq<uint32>, file: seq<byte>)
    requires Stored(g, foot, dyn, bat, file) && |foot'| == FOOTER_SIZE
    requires FOOTER_SIZE + DYNAMIC_SIZE <= g.table && g.table + 4 * |bat| <= |file| - FOOTER_SIZE
    ensures var file' := Splice(Splice(file, 0, foot'), |file| - FOOTER_SIZE, foot');
      && |file'| == |file| && Stored(g, foot', dyn, bat, file')
      && forall i :: g.table + 4 * |bat| <= i < |file| - FOOTER_SIZE ==> At(file', i) == At(file, i)
  {
    var end := |file| - FOOTER_SIZE;
    var once := Splice(file, 0, foot');
    var file' := Splice(once, end, foot');
    WindowOfSplice(file, 0, foot');
    WindowBesideSplice(file, 0, foot', FOOTER_SIZE, DYNAMIC_SIZE);
    WindowBesideSplice(file, 0, foot', g.table, 4 * |bat|);
    HeadKept(g, foot', dyn, bat, once, end, foot');
    WindowOfSplice(once, end, foot');
    forall i | g.table + 4 * |bat| <= i < end ensures At(file', i) == At(file, i) {
      AtSplice(once, end, foot', i);
      AtSplice(file, 0, foot', i);
    }
  }

  /** The BAT of a new disk. */
  function BatWords(entries: uint32): (n: nat)
    ensures 4 * n == BatSize(entries)
  {
    SECTOR / 4 * ((4 * entries + SECTOR - 1) / SECTOR)
  }

  function FreshBat(entries: uint32): (bat: seq<uint32>)
    ensures 4 * |bat| == BatSize(entries)
    ensures forall b :: 0 <= b < |bat| ==> bat[b] == if b < entries then FREE else 0
  {
    seq<uint32>(BatWords(entries), b requires 0 <= b => if b < entries then FREE else 0)
  }

  lemma {:induction false} NoneAllocated(bat: seq<uint32>, n: nat)
    requires n <= |bat| && forall b :: 0 <= b < n ==> bat[b] == FREE
    ensures Allocated(bat, n) == 0
  {
    if n > 0 {
      NoneAllocated(bat, n - 1);
    }
  }

  lemma FreshLayout(g: Geometry)
    requires GeometryOk(g)
    ensures Layout(g, FreshBat(g.entries), BatEnd(g) + FOOTER_SIZE) && Padded(g, FreshBat(g.entries))
  {
    NoneAllocated(FreshBat(g.entries), g.entries);
  }

  /** Header copy, dynamic header, BAT and footer written over whatever the file held. */
  function LaidDown(g: Geometry, foot: seq<byte>, dyn: seq<byte>, bat: seq<uint32>, file: seq<byte>): seq<byte> {
    var headed := Splice(Splice(file, 0, foot), FOOTER_SIZE, dyn);
    Splice(Splice(headed, g.table, EncodeBat(bat)), g.table + 4 * |bat|, foot)
  }

  lemma LaidDownIsStored(g: Geometry, foot: seq<byte>, dyn: seq<byte>, bat: seq<uint32>, file: seq<byte>)
    requires |foot| == FOOTER_SIZE && |dyn| == DYNAMIC_SIZE && FOOTER_SIZE + DYNAMIC_SIZE <= g.table
    requires |file| <= g.table + 4 * |bat| + FOOTER_SIZE
    ensures |LaidDown(g, foot, dyn, bat, file)| == g.table + 4 * |bat| + FOOTER_SIZE
    ensures Stored(g, foot, dyn, bat, LaidDown(g, foot, dyn, bat, file))
  {
    var a := Splice(file, 0, foot);
    var b := Splice(a, FOOTER_SIZE, dyn);
    var c := Splice(b, g.table, EncodeBat(bat));
    WindowOfSplice(file, 0, foot);
    WindowBesideSplice(a, FOOTER_SIZE, dyn, 0, FOOTER_SIZE);
    WindowBesideSplice(b, g.table, EncodeBat(bat), 0, FOOTER_SIZE);
    WindowOfSplice(a, FOOTER_SIZE, dyn);
    WindowBesideSplice(b, g.table, EncodeBat(bat), FOOTER_SIZE, DYNAMIC_SIZE);
    WindowOfSplice(b, g.table, EncodeBat(bat));
    HeadKept(g, foot, dyn, bat, c, g.table + 4 * |bat|, foot);
    WindowOfSplice(c, g.table + 4 * |bat|, foot);
  }

  /** The locator area lies between the dynamic header and the BAT. */
  lemma LocatorKeepsStored(g: Geometry, foot: seq<byte>, dyn: seq<byte>, bat: seq<uint32>, file: seq<byte>, at: nat, data: seq<byte>)
    requires Stored(g, foot, dyn, bat, file) && FOOTER_SIZE + DYNAMIC_SIZE <= at && at + |data| <= g.table
    requires g.table + 4 * |bat| <= |file| - FOOTER_SIZE
    ensures |Splice(file, at, data)| == |file| && Stored(g, foot, dyn, bat, Splice(file, at, data))
  {
    WindowBesideSplice(file, at, data, 0, FOOTER_SIZE);
    WindowBesideSplice(file, at, data, FOOTER_SIZE, DYNAMIC_SIZE);
    WindowBesideSplice(file, at, data, g.table, 4 * |bat|);
    WindowBesideSplice(file, at, data, |file| - FOOTER_SIZE, FOOTER_SIZE);
  }

  /** A disk with nothing allocated presents its parent, or zeros. */
  lemma FreshView(g: Geometry, file: seq<byte>, parent: Option<Image>)
    requires GeometryOk(g)
    ensures forall p :: 0 <= p < g.size ==> ByteAt(Sparse(g, FreshBat(g.entries), file, parent), p) == Under(parent, p)
  {
    forall p | 0 <= p < g.size
      ensures ByteAt(Sparse(g, FreshBat(g.entries), file, parent), p) == Under(parent, p)
    {
      InDisk(g, p);
      ByteAtSparse(g, FreshBat(g.entries), file, parent, p);
    }
  }
}
