/** Whole runs: whatever sequence of writes, drive type updates and re-openings a container
    goes through, it behaves like a flat byte array. */
module VhdRun {
  import opened Arithmetic
  import opened Bytes
  import opened VhdLayout
  import opened VhdFormat
  import opened VhdDisk
  import opened VhdOpen

  datatype Op =
    | Write(off: uint64, data: seq<byte>)
    | Dtype(name: seq<byte>, sectorSize: uint32, xferSize: uint32, simulator: seq<byte>)
    | CloseAndOpen(errno: int)

  /** What an operation does to a flat disk: writes change exactly the bytes they cover,
      cut off at the end of the disk. */
  function Flat(v: seq<byte>, op: Op): (r: seq<byte>)
    ensures |r| == |v|
  {
    match op
    case Write(off, data) =>
      if off >= |v| then v else v[..off] + data[..Min(|data|, |v| - off)] + v[off + Min(|data|, |v| - off)..]
    case _ => v
  }

  function FlatRun(v: seq<byte>, ops: seq<Op>): (r: seq<byte>)
    ensures |r| == |v|
    decreases |ops|
  {
    if ops == [] then v else Flat(FlatRun(v, ops[..|ops| - 1]), ops[|ops| - 1])
  }

  /** In front of the data of every allocated block, at all times, lies a bitmap that marks
      each of its sectors as present. */
  lemma SectorsPresent(h: Vhd, b: nat)
    requires h.Valid() && DiskType(h.Footer) != DT_FIXED
    requires b < h.Geo().entries && h.BAT[b] != 0xFFFF_FFFF
    ensures forall i :: 512 * h.BAT[b] <= i < 512 * h.BAT[b] + BitMapSize(h.Geo().bs) ==> At(h.File.data, i) == 0xFF
  {
    hide Layout, Stored, FooterOk, DynamicOk, U32At, U64At, PowerOfTwo, Padded, GeometryOk, ParentId, UniqueId, BitMapSize;
    h.SparseFacts();
    assert BitmapFull(h.Geo(), h.BAT[..][b], h.File.data);
  }

  lemma WrittenIsFlat(img: Image, was: Image, off: uint64, data: seq<byte>)
    requires Written(img, was, off, data)
    ensures View(img) == Flat(View(was), Write(off, data))
  {
    hide ByteAt;
    var v := Flat(View(was), Write(off, data));
    forall p | 0 <= p < |v| ensures v[p] == View(img)[p] {
    }
  }

  /** Requests the caller may make: lengths in 32 bits, and on a fixed disk writes inside the disk. */
  predicate Allowed(op: Op, fixed: bool, size: nat) {
    op.Write? ==>
      && |op.data| < W32 && op.off + |op.data| < W64
      && (fixed && op.off < size ==> op.off + |op.data| <= size)
  }

  method Step(h: Vhd, op: Op) returns (r: Vhd)
    requires h.Valid() && h.Footer[F_SAVED_STATE] == 0 && Allowed(op, DiskType(h.Footer) == DT_FIXED, h.Size())
    modifies h, h.File, h.BAT
    ensures r.Valid() && r.Footer[F_SAVED_STATE] == 0 && r.File == h.File && r.Parent == h.Parent
    ensures r == h || (fresh(r) && fresh(r.BAT))
    ensures DiskType(r.Footer) == old(DiskType(h.Footer)) && r.Size() == old(h.Size())
    ensures r.ParentImage() == old(h.ParentImage()) && r.Dynamic == old(h.Dynamic)
    ensures View(r.Snapshot()) == Flat(old(View(h.Snapshot())), op)
  {
    hide U32At, U64At, Layout, Stored, Marked, FooterOk, DynamicOk, ByteAt, Retyped, View, Flat, Written;
    r := h;
    ghost var was := h.Snapshot();
    h.SnapshotSize();
    match op {
      case Write(off, data) =>
        var status, n := h.WriteVirtualDisk(data, off);
        WriteCases(h.Snapshot(), was, off, data);
      case Dtype(name, sectorSize, xferSize, simulator) =>
        RetypedOk(h.Footer, name, sectorSize, xferSize, simulator);
        h.SetDtype(name, sectorSize, xferSize, simulator);
        SameView(h.Snapshot(), was);
        FlatOther(View(was), op);
      case CloseAndOpen(errno) =>
        r := Reopen(h, errno);
        FlatOther(View(was), op);
    }
  }

  lemma FlatOther(v: seq<byte>, op: Op)
    requires !op.Write?
    ensures Flat(v, op) == v
  {
  }

  lemma WriteCases(img: Image, was: Image, off: uint64, data: seq<byte>)
    requires img == was || Written(img, was, off, data)
    requires data != [] && off < was.Size() ==> Written(img, was, off, data)
    ensures View(img) == Flat(View(was), Write(off, data))
  {
    hide ByteAt;
    if data != [] && off < was.Size() {
      WrittenIsFlat(img, was, off, data);
    } else if img != was {
      WrittenIsFlat(img, was, off, data);
    }
  }

  method Run(h: Vhd, ops: seq<Op>) returns (r: Vhd)
    requires h.Valid() && h.Footer[F_SAVED_STATE] == 0
    requires forall i :: 0 <= i < |ops| ==> Allowed(ops[i], DiskType(h.Footer) == DT_FIXED, h.Size())
    modifies h, h.File, h.BAT
    ensures r.Valid() && r.File == h.File && r.Parent == h.Parent && r.ParentImage() == old(h.ParentImage())
    ensures r.Dynamic == old(h.Dynamic)
    ensures r == h || (fresh(r) && fresh(r.BAT))
    ensures r.Footer[F_SAVED_STATE] == 0 && DiskType(r.Footer) == old(DiskType(h.Footer)) && r.Size() == old(h.Size())
    ensures View(r.Snapshot()) == FlatRun(old(View(h.Snapshot())), ops)
  {
    hide U32At, U64At, Layout, Stored, Marked, FooterOk, DynamicOk, ByteAt, View, Flat;
    r := h;
    for i := 0 to |ops|
      invariant r.Valid() && r.Footer[F_SAVED_STATE] == 0 && r.File == h.File && r.Parent == h.Parent
      invariant r == h || (fresh(r) && fresh(r.BAT))
      invariant DiskType(r.Footer) == old(DiskType(h.Footer)) && r.Size() == old(h.Size())
      invariant r.ParentImage() == old(h.ParentImage()) && r.Dynamic == old(h.Dynamic)
      invariant View(r.Snapshot()) == FlatRun(old(View(h.Snapshot())), ops[..i])
    {
      r := Step(r, ops[i]);
      assert ops[..i + 1][..i] == ops[..i];
    }
    assert ops[..|ops|] == ops;
  }

  /** Reading what a request inside the disk asks for gives that slice of the flat disk. */
  method ReadSlice(h: Vhd, n: uint32, off: uint64) returns (data: seq<byte>)
    requires h.Valid() && off + n <= h.Size()
    ensures data == View(h.Snapshot())[off..off + n]
  {
    hide U32At, U64At, ByteAt, Vhd.Snapshot, Vhd.Consistent, Vhd.Valid;
    h.SnapshotSize();
    SliceReadable(h, n, off);
    var buf := new byte[n];
    var status, got := h.ReadVirtualDisk(buf, 0, n, off);
    data := buf[..];
    ghost var v := View(h.Snapshot());
    assert n > 0 ==> got == n;
    forall i | 0 <= i < n ensures data[i] == v[off..off + n][i] {
      assert buf[0 + i] == ByteAt(h.Snapshot(), off + i);
    }
  }

  lemma SliceReadable(h: Vhd, n: uint32, off: uint64)
    requires h.Valid() && off + n <= h.Size()
    ensures h.Readable(off, n) && off + n < W64
  {
    hide U32At, U64At, Layout, Stored, Marked, FooterOk, DynamicOk, ByteAt;
    if DiskType(h.Footer) == DT_FIXED {
      h.FixedFacts();
    } else {
      h.SparseFacts();
      if n > 0 {
        InDisk(h.Geo(), off + n - 1);
      }
    }
  }

  /** The life of a dynamic disk: created, used in any way and opened once more, it holds
      what the same operations make of as many zeros. */
  method CreateAndUse(sectors: uint32, at: Stamp, ops: seq<Op>, errno: int) returns (h: Vhd)
    requires |at.uuid| == 16 && sectors * SECTOR <= MAX_DISK
    requires forall i :: 0 <= i < |ops| ==> Allowed(ops[i], false, sectors * SECTOR)
    ensures h.Valid() && View(h.Snapshot()) == FlatRun(Zeros(sectors * SECTOR), ops)
  {
    hide U32At, U64At, Layout, Stored, Marked, FooterOk, DynamicOk, ByteAt, Flat, DynamicFields, View;
    var status, disk := CreateVirtualDisk(sectors, 0, false, at);
    disk.SnapshotSize();
    ZeroView(disk.Snapshot());
    var used := Run(disk, ops);
    h := Reopen(used, errno);
  }

  lemma ViewsAgree(img: Image, was: Image)
    requires img.Size() == was.Size() && forall p :: 0 <= p < was.Size() ==> ByteAt(img, p) == ByteAt(was, p)
    ensures View(img) == View(was)
  {
    hide ByteAt;
  }

  /** The block size of a disk made over `parent`. */
  ghost function ChildBlock(parent: Vhd): uint32
    requires parent.Valid()
    reads parent, parent.Repr
  {
    if DiskType(parent.Footer) == DT_FIXED then MIN_BLOCK else parent.Geo().bs
  }

  /** The life of a snapshot: a differencing disk made over any disk, used in any way and
      merged, leaves its parent holding what the same operations make of the parent. With
      blocks of 8 MiB and more that is so only when nothing was to be merged; any change
      makes the merge overrun its buffer. */
  method EditAndMerge(parent: Vhd, path: ParentPath, at: Stamp, ops: seq<Op>) returns (status: MergeStatus)
    requires parent.Valid() && path.Ok() && |at.uuid| == 16
    requires forall i :: 0 <= i < |ops| ==> Allowed(ops[i], false, parent.Size())
    modifies parent.File, parent.BAT
    ensures status == Merged || status == Overrun
    ensures parent.Valid()
    ensures status == Merged ==> View(parent.Snapshot()) == FlatRun(old(View(parent.Snapshot())), ops)
    ensures status == Overrun ==> View(parent.Snapshot()) == old(View(parent.Snapshot()))
    ensures old(ChildBlock(parent)) * SECTOR < W32 ==> status == Merged
    ensures old(ChildBlock(parent)) * SECTOR >= W32 ==>
      FlatRun(old(View(parent.Snapshot())), ops) != old(View(parent.Snapshot())) ==> status == Overrun
  {
    hide U32At, U64At, Layout, Stored, Marked, FooterOk, DynamicOk, ByteAt, Flat, FlatRun, View, Vhd.Consistent;
    var used := EditOver(parent, path, at, ops);
    status := used.Merge();
  }

  /** The differencing disk just before it is merged. */
  method EditOver(parent: Vhd, path: ParentPath, at: Stamp, ops: seq<Op>) returns (used: Vhd)
    requires parent.Valid() && path.Ok() && |at.uuid| == 16
    requires forall i :: 0 <= i < |ops| ==> Allowed(ops[i], false, parent.Size())
    ensures fresh(used) && fresh(used.BAT) && fresh(used.File) && used.Valid() && used.Parent == parent
    ensures DiskType(used.Footer) == DT_DIFFERENCING && At(used.Footer, F_SAVED_STATE) == 0
    ensures used.Geo().bs == ChildBlock(parent)
    ensures View(used.Snapshot()) == FlatRun(View(parent.Snapshot()), ops)
  {
    hide U32At, U64At, Layout, Stored, Marked, FooterOk, DynamicOk, ByteAt, Flat, FlatRun, View;
    var child := CreateDifferencing(parent, path, at);
    child.SnapshotSize();
    parent.SnapshotSize();
    ViewsAgree(child.Snapshot(), parent.Snapshot());
    used := Run(child, ops);
  }

  /** One sector too many on a fixed disk of one sector, all zeros: the write succeeds, the
      footer is gone and the container can no longer be opened. */
  method FixedOverrun(at: Stamp) returns (status: Status, h: Vhd)
    requires |at.uuid| == 16
    ensures DiskType(h.Footer) == DT_FIXED && h.Size() == SECTOR && h.File.data == Zeros(2 * SECTOR)
    ensures status == Ok && !h.Valid() && !FooterAccepted(h.File.data)
  {
    hide U32At, U64At, SealOk, DynamicOk, ByteAt;
    var created, disk := CreateVirtualDisk(1, 0, true, at);
    h := disk;
    h.FixedFacts();
    assert h.Footer[..8][0] == 0x63;
    var buf, n := Zeros(2 * SECTOR), 0;
    assert buf[SECTOR..][0] == 0;
    status, n := h.WriteVirtualDisk(buf, 0);
    assert h.File.data == Zeros(2 * SECTOR);
    ZerosRejected();
  }

  lemma ZerosRejected()
    ensures !FooterAccepted(Zeros(2 * SECTOR))
  {
    hide SealOk, U32At;
    assert LastFooter(Zeros(2 * SECTOR))[..8][0] == 0;
  }

  /** The smallest input on which a merge fails: a differencing disk with blocks of 8 MiB and
      one byte written to it, over a new disk. */
  method EightMiBOverruns(path: ParentPath, at: Stamp) returns (status: MergeStatus, used: Vhd)
    requires path.Ok() && |at.uuid| == 16
    ensures used.Valid() && DiskType(used.Footer) == DT_DIFFERENCING && used.Geo().bs == 0x80_0000
    ensures View(used.Snapshot()) == FlatRun(Zeros(0x8000 * SECTOR), [Write(0, [1])])
    ensures status == Overrun
  {
    hide U32At, U64At, Layout, Stored, Marked, FooterOk, DynamicOk, ByteAt, DynamicFields, PowerOfTwo, View, Flat, FlatRun,
      NewFooter, NewDynamic, FreshBat, BatEnd, Padded, GeometryOk, At, Window, Splice, SealOk, ParentId, UniqueId;
    EightMiB();
    OneByteChanges();
    var created, parent := CreateVirtualDisk(0x8000, 0x80_0000, false, at);
    parent.SnapshotSize();
    ZeroView(parent.Snapshot());
    used := EditOver(parent, path, at, [Write(0, [1])]);
    status := used.Merge();
  }

  lemma OneByteChanges()
    ensures FlatRun(Zeros(0x8000 * SECTOR), [Write(0, [1])]) != Zeros(0x8000 * SECTOR)
  {
    var op := Write(0, [1]);
    assert [op][..0] == [];
    assert FlatRun(Zeros(0x8000 * SECTOR), [op])[0] == 1;
  }

  lemma EightMiB()
    ensures PowerOfTwo(0x80_0000)
  {
    Pow2Values();
    Pow2Sum(3, 20);
    BitTest(0x80_0000);
  }

  lemma ZeroView(img: Image)
    requires forall p :: 0 <= p < img.Size() ==> ByteAt(img, p) == 0
    ensures View(img) == Zeros(img.Size())
  {
    hide ByteAt;
  }
}
