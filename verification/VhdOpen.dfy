/** Opening and creating containers: GetVHDFooter, sim_vhd_disk_open, sim_CreateVirtualDisk
    and the layout part of CreateDifferencingVirtualDisk. */
module VhdOpen {
  import opened Arithmetic
  import opened Bytes
  import opened Options
  import opened VhdLayout
  import opened VhdFormat
  import opened HostFiles
  import opened VhdDisk

  /** Positions from here on are negative in the host's signed offsets, and seeking fails. */
  const SEEK_LIMIT := 0x8000_0000_0000_0000

  const EBADF := 9
  const EAGAIN := 11
  const EINVAL := 22
  const EFBIG := 27

  /** The sign of a 64-bit position as the host's seek takes it. */
  predicate Negative(position: uint64) {
    position / W32 >= 0x8000_0000
  }

  /** The footer a file ends with. */
  function LastFooter(file: seq<byte>): (foot: seq<byte>)
    requires |file| >= FOOTER_SIZE
    ensures |foot| == FOOTER_SIZE
  {
    Window(file, |file| - FOOTER_SIZE, FOOTER_SIZE)
  }

  /** The checks GetVHDFooter makes on the footer and, for a sparse disk, on the header copy. */
  predicate FooterAccepted(file: seq<byte>) {
    && |file| >= FOOTER_SIZE
    && var foot := LastFooter(file);
    && SealOk(foot, F_CHECKSUM) && foot[..8] == COOKIE
    && DiskType(foot) in {DT_FIXED, DT_DYNAMIC, DT_DIFFERENCING}
    && (DiskType(foot) != DT_FIXED ==> Window(file, 0, FOOTER_SIZE) == foot)
  }

  /** The dynamic header a footer points to. */
  function HeaderOf(file: seq<byte>, foot: seq<byte>): (dyn: seq<byte>)
    ensures |dyn| == DYNAMIC_SIZE
  {
    Window(file, U64At(foot, F_DATA_OFFSET), DYNAMIC_SIZE)
  }

  /** Can the header a sparse disk's footer points to be read at all? */
  predicate HeaderRead(file: seq<byte>) {
    && FooterAccepted(file)
    && (DiskType(LastFooter(file)) != DT_FIXED ==> U64At(LastFooter(file), F_DATA_OFFSET) < SEEK_LIMIT)
  }

  predicate HeaderAccepted(file: seq<byte>) {
    HeaderRead(file) && (DiskType(LastFooter(file)) != DT_FIXED ==> DynamicOk(HeaderOf(file, LastFooter(file))))
  }

  /** And the table the header points to? */
  predicate TableRead(file: seq<byte>) {
    && HeaderAccepted(file)
    && (DiskType(LastFooter(file)) != DT_FIXED ==>
          U64At(HeaderOf(file, LastFooter(file)), D_TABLE_OFFSET) < SEEK_LIMIT)
  }

  /** The BAT as loaded: the entries, zero-padded to whole sectors. */
  function LoadedBat(file: seq<byte>, dyn: seq<byte>): seq<uint32> {
    var entries := U32At(dyn, D_MAX_ENTRIES);
    seq<uint32>(BatSize(entries) / 4, b requires 0 <= b => if b < entries then BatEntry(file, U64At(dyn, D_TABLE_OFFSET), b) else 0)
  }

  /** Is this a differencing disk whose dynamic header is good, so that its parent is looked for? */
  predicate WantsParent(file: seq<byte>) {
    TableRead(file) && DiskType(LastFooter(file)) == DT_DIFFERENCING
  }

  /** What is found at the end of a parent locator: the file's identifier and modification time. */
  datatype Found = Found(id: seq<byte>, time: uint32)

  function ParentTime(dyn: seq<byte>): uint32 {
    U32At(dyn, D_PARENT_TIME)
  }

  /** Is it the parent this header was made for? An hour's difference is let pass, and with
      the override switch any. */
  predicate Fitting(dyn: seq<byte>, found: Found, overridden: bool) {
    && ParentId(dyn) == found.id
    && (ParentTime(dyn) == found.time || (ParentTime(dyn) - found.time) % W32 == 3600 || overridden)
  }

  /** GetVHDFooter on a readable file; `found` is what the parent locators lead to.
      A dynamic header that fails its check is reported with whatever errno holds, so
      with errno 0 the caller is told that all went well. */
  method GetVhdFooter(file: HostFile, errno: int, found: Option<Found>, overridden: bool)
      returns (r: int, foot: seq<byte>, dyn: seq<byte>, bat: array?<uint32>)
    ensures r == 0 <==>
      && HeaderRead(file.data) && (HeaderAccepted(file.data) || errno == 0)
      && (HeaderAccepted(file.data) ==> TableRead(file.data)) && (WantsParent(file.data) ==>
           found.Some? && Fitting(HeaderOf(file.data, LastFooter(file.data)), found.value, overridden))
    ensures !HeaderRead(file.data) ==> r == EINVAL
    ensures HeaderRead(file.data) && !HeaderAccepted(file.data) ==> r == errno
    ensures HeaderAccepted(file.data) && !TableRead(file.data) ==> r == EINVAL
    ensures WantsParent(file.data) && found.None? ==> r == EBADF
    ensures WantsParent(file.data) && found.Some? && !Fitting(HeaderOf(file.data, LastFooter(file.data)), found.value, overridden) ==>
      r == EINVAL
    ensures r == 0 ==> foot == LastFooter(file.data)
    ensures bat != null <==> r == 0 && HeaderAccepted(file.data) && DiskType(LastFooter(file.data)) != DT_FIXED
    ensures bat != null ==> fresh(bat) && dyn == HeaderOf(file.data, foot) && bat[..] == LoadedBat(file.data, dyn)
    ensures |dyn| == DYNAMIC_SIZE
    ensures r == 0 && DiskType(foot) == DT_FIXED ==> dyn == Zeros(DYNAMIC_SIZE)
  {
    hide U32At, U64At, Checksum, Put, HeaderOf, LoadedBat, DynamicOk;
    foot, dyn, bat := [], Zeros(DYNAMIC_SIZE), null;
    if |file.data| < FOOTER_SIZE {
      return EINVAL, foot, dyn, bat;
    }
    foot := Window(file.data, |file.data| - FOOTER_SIZE, FOOTER_SIZE);
    var sum := CalculateVhdFooterChecksum(Put(foot, F_CHECKSUM, Zeros(4)));
    if sum != U32At(foot, F_CHECKSUM) || foot[..8] != COOKIE {
      return EINVAL, foot, dyn, bat;
    }
    var header := Window(file.data, 0, FOOTER_SIZE);
    if DiskType(foot) != DT_DYNAMIC && DiskType(foot) != DT_DIFFERENCING && DiskType(foot) != DT_FIXED {
      return EINVAL, foot, dyn, bat;
    }
    if DiskType(foot) != DT_FIXED {
      if header != foot || Negative(U64At(foot, F_DATA_OFFSET)) {
        return EINVAL, foot, dyn, bat;
      }
      r, dyn, bat := GetHeader(file, foot, errno);
      if r != 0 || bat == null {
        return r, foot, dyn, null;
      }
      if DiskType(foot) == DT_DIFFERENCING {
        if found.None? {
          return EBADF, foot, dyn, null;
        }
        if ParentId(dyn) != found.value.id ||
           (ParentTime(dyn) != found.value.time && (ParentTime(dyn) - found.value.time) % W32 != 3600 && !overridden) {
          return EINVAL, foot, dyn, null;
        }
      }
    }
    r := 0;
  }

  /** The dynamic header and the table of a sparse disk whose footer has been accepted. */
  method GetHeader(file: HostFile, foot: seq<byte>, errno: int) returns (r: int, dyn: seq<byte>, bat: array?<uint32>)
    ensures dyn == HeaderOf(file.data, foot)
    ensures !DynamicOk(dyn) ==> r == errno && bat == null
    ensures DynamicOk(dyn) && U64At(dyn, D_TABLE_OFFSET) >= SEEK_LIMIT ==> r == EINVAL && bat == null
    ensures DynamicOk(dyn) && U64At(dyn, D_TABLE_OFFSET) < SEEK_LIMIT ==>
      r == 0 && bat != null && fresh(bat) && bat[..] == LoadedBat(file.data, dyn)
  {
    hide U32At, U64At, Checksum, Put;
    dyn, bat := Window(file.data, U64At(foot, F_DATA_OFFSET), DYNAMIC_SIZE), null;
    var sum := CalculateVhdFooterChecksum(Put(dyn, D_CHECKSUM, Zeros(4)));
    if sum != U32At(dyn, D_CHECKSUM) || dyn[..8] != DYN_COOKIE {
      return errno, dyn, bat;
    }
    if Negative(U64At(dyn, D_TABLE_OFFSET)) {
      return EINVAL, dyn, bat;
    }
    bat := LoadBat(file.data, U64At(dyn, D_TABLE_OFFSET), U32At(dyn, D_MAX_ENTRIES));
    r := 0;
  }

  method LoadBat(file: seq<byte>, table: nat, entries: uint32) returns (bat: array<uint32>)
    ensures fresh(bat) && 4 * bat.Length == BatSize(entries)
    ensures forall b :: 0 <= b < bat.Length ==> bat[b] == if b < entries then BatEntry(file, table, b) else 0
  {
    bat := new uint32[BatSize(entries) / 4](i => 0);
    for b := 0 to entries
      invariant forall c :: 0 <= c < bat.Length ==> bat[c] == if c < b then BatEntry(file, table, c) else 0
    {
      bat[b] := BatEntry(file, table, b);
    }
  }

  /** A good sparse container whose dynamic header loses its first byte: the footer is still
      accepted, the header is not. */
  lemma HeaderDamaged(file: seq<byte>)
    requires HeaderAccepted(file) && DiskType(LastFooter(file)) != DT_FIXED
    requires U64At(LastFooter(file), F_DATA_OFFSET) == FOOTER_SIZE && |file| >= 2 * FOOTER_SIZE + DYNAMIC_SIZE
    ensures var bad := file[FOOTER_SIZE := 0]; HeaderRead(bad) && !HeaderAccepted(bad)
  {
    hide SealOk, U32At, U64At;
    var bad := file[FOOTER_SIZE := 0];
    assert LastFooter(bad) == LastFooter(file) && Window(bad, 0, FOOTER_SIZE) == Window(file, 0, FOOTER_SIZE);
    var dyn := HeaderOf(bad, LastFooter(bad));
    assert dyn[0] == 0 && DYN_COOKIE[0] != 0;
    assert dyn[..8][0] == dyn[0];
  }

  /** What a consistent sparse container's file gives back when it is opened. */
  lemma StoredIsAccepted(g: Geometry, foot: seq<byte>, dyn: seq<byte>, bat: seq<uint32>, file: seq<byte>)
    requires FooterOk(foot) && DiskType(foot) in {DT_DYNAMIC, DT_DIFFERENCING} && DynamicOk(dyn)
    requires g == GeometryOf(foot, dyn) && 4 * |bat| == BatSize(g.entries) && Padded(g, bat) && Stored(g, foot, dyn, bat, file)
    requires GeometryOk(g)
    ensures TableRead(file) && HeaderAccepted(file) && HeaderRead(file) && LastFooter(file) == foot
    ensures HeaderOf(file, foot) == dyn && LoadedBat(file, dyn) == bat
  {
    var loaded := LoadedBat(file, dyn);
    forall b | 0 <= b < |bat| ensures loaded[b] == bat[b] {
      if b < g.entries {
        BatEntryOfEncode(file, g.table, bat, b);
      }
    }
  }

  /** What the host has to say about the parent of a differencing disk: what its locators lead
      to, the handle of opening that or else the error, and the override switch. */
  datatype ParentLookup = ParentLookup(found: Option<Found>, handle: Vhd?, openError: int, overridden: bool)
  {
    /** The handle is that of the file found. */
    predicate Ok()
      reads if handle == null then {} else {handle}
    {
      openError != 0 && (handle != null && found.Some? ==> found.value.id == UniqueId(handle.Footer))
    }
  }

  function NoParent(): ParentLookup {
    ParentLookup(None, null, EBADF, false)
  }

  /** The parent itself, not written to since the header `dyn` was made. */
  function Known(parent: Vhd?, dyn: seq<byte>): ParentLookup
    reads if parent == null then {} else {parent}
  {
    if parent == null then NoParent()
    else ParentLookup(Some(Found(UniqueId(parent.Footer), ParentTime(dyn))), parent, EBADF, false)
  }

  /** Which files open. A differencing disk needs a good header, the parent this header names
      by its identifier and, unless that is overridden, with the time it names; the others
      open with a bad header when errno happens to be 0. */
  predicate Opens(file: seq<byte>, parent: ParentLookup, errno: int) {
    && HeaderRead(file) && (HeaderAccepted(file) ==> TableRead(file)) && LastFooter(file)[F_SAVED_STATE] == 0
    && if DiskType(LastFooter(file)) == DT_DIFFERENCING
       then && TableRead(file) && parent.found.Some? && parent.handle != null
            && var dyn := HeaderOf(file, LastFooter(file));
            ParentId(dyn) == parent.found.value.id && (ParentTime(dyn) == parent.found.value.time || parent.overridden)
       else HeaderAccepted(file) || errno == 0
  }

  /** sim_vhd_disk_open. */
  method Open(file: HostFile, parent: ParentLookup, errno: int) returns (status: int, h: Vhd?)
    requires parent.handle != null ==> file !in parent.handle.Repr
    requires parent.Ok()
    ensures status == 0 <==> h != null
    ensures status == 0 <==> Opens(file.data, parent, errno)
    ensures h != null ==> fresh(h) && fresh(h.BAT) && h.File == file && h.Footer == LastFooter(file.data)
    ensures h != null && h.Parent != null ==> ParentId(h.Dynamic) == UniqueId(h.Parent.Footer)
    ensures h != null ==> h.Parent == if DiskType(h.Footer) == DT_DIFFERENCING then parent.handle else null
    ensures h != null ==> h.Repr == {h, h.BAT, file} + if h.Parent == null then {} else h.Parent.Repr
    ensures h != null && HeaderAccepted(file.data) && DiskType(h.Footer) != DT_FIXED ==>
      h.Dynamic == HeaderOf(file.data, h.Footer) && h.BAT[..] == LoadedBat(file.data, h.Dynamic)
    ensures h != null ==> |h.Dynamic| == DYNAMIC_SIZE
    ensures h != null && DiskType(h.Footer) == DT_FIXED ==> h.BAT.Length == 0 && h.Dynamic == Zeros(DYNAMIC_SIZE)
  {
    hide SealOk, U32At, U64At, DynamicOk, LastFooter, HeaderOf, LoadedBat, ParentId, UniqueId, ParentTime;
    var foot, dyn, loaded;
    status, foot, dyn, loaded := GetVhdFooter(file, errno, parent.found, parent.overridden);
    if status != 0 {
      return status, null;
    }
    var under: Vhd? := null;
    if DiskType(foot) == DT_DIFFERENCING {
      // a bad header leaves the parent's path empty, and nothing opens under that name
      under := if loaded == null then null else parent.handle;
      if under == null {
        return parent.openError, null;
      }
      if (ParentId(dyn) != UniqueId(under.Footer) || ParentTime(dyn) != parent.found.value.time) && !parent.overridden {
        return EBADF, null;
      }
    }
    if foot[F_SAVED_STATE] != 0 {
      return EAGAIN, null;
    }
    var bat: array<uint32>;
    if loaded == null {
      bat := new uint32[0];
    } else {
      bat := loaded;
    }
    h := new Vhd(foot, dyn, bat, file, under);
  }

  /** Closing a handle and opening its file again, its parent being found, gives the same
      disk: the checks pass, whatever errno holds, and headers, BAT and contents come back. */
  method Reopen(was: Vhd, errno: int) returns (h: Vhd)
    requires was.Valid() && was.Footer[F_SAVED_STATE] == 0
    ensures fresh(h) && h.Valid() && h.Snapshot() == was.Snapshot()
    ensures h.Footer == was.Footer && h.BAT[..] == was.BAT[..] && h.File == was.File && h.Parent == was.Parent && fresh(h.BAT)
    ensures h.ParentImage() == was.ParentImage() && h.Dynamic == was.Dynamic
  {
    hide Layout, Stored, Marked, GeometryOk, U32At, U64At, PowerOfTwo, ByteAt, BlockNo, BlockPos, FooterOk,
      DynamicOk, Padded, TableRead, HeaderAccepted, HeaderRead, FooterAccepted, LastFooter, HeaderOf, LoadedBat;
    ghost var g, bat := was.Geo(), was.BAT[..];
    if DiskType(was.Footer) == DT_FIXED {
      was.FixedFacts();
      FixedIsAccepted(was.Size(), was.Footer, was.File.data);
    } else {
      was.SparseFacts();
      StoredIsAccepted(g, was.Footer, was.Dynamic, bat, was.File.data);
    }
    var status, again := Open(was.File, Known(was.Parent, was.Dynamic), errno);
    h := again;
    assert was.BAT[..] == bat;
    assert h.Consistent();
  }

  /** Such a file exists, and what GetVHDFooter says about it is whatever errno held: with
      errno 0 it passes. */
  method DamagedHeaderPasses(sectors: uint32, at: Stamp, errno: int) returns (r: int, damaged: HostFile, ghost good: seq<byte>)
    requires sectors * SECTOR <= MAX_DISK && |at.uuid| == 16
    ensures HeaderAccepted(good) && DiskType(LastFooter(good)) == DT_DYNAMIC && |good| > FOOTER_SIZE
    ensures damaged.data == good[FOOTER_SIZE := 0] && HeaderRead(damaged.data) && !HeaderAccepted(damaged.data)
    ensures r == errno
  {
    hide U32At, U64At, Layout, Stored, Marked, FooterOk, DynamicOk, TableRead, HeaderAccepted, HeaderRead, FooterAccepted, LastFooter, HeaderOf,
      LoadedBat, GeometryOk, Padded, DynamicFields, ByteAt;
    var status, disk := CreateVirtualDisk(sectors, 0, false, at);
    disk.SparseFacts();
    ghost var g := disk.Geo();
    good := disk.File.data;
    StoredIsAccepted(g, disk.Footer, disk.Dynamic, disk.BAT[..], good);
    HeaderPlace(disk.Footer);
    HeaderDamaged(good);
    damaged := new HostFile(disk.File.data[FOOTER_SIZE := 0]);
    var foot, dyn, bat;
    r, foot, dyn, bat := GetVhdFooter(damaged, errno, None, false);
  }

  lemma HeaderPlace(foot: seq<byte>)
    requires FooterOk(foot) && DiskType(foot) != DT_FIXED
    ensures U64At(foot, F_DATA_OFFSET) == FOOTER_SIZE
  {
    hide U32At, U64At;
  }

  lemma FixedIsAccepted(size: uint64, foot: seq<byte>, file: seq<byte>)
    requires FooterOk(foot) && DiskType(foot) == DT_FIXED
    requires |file| == size + FOOTER_SIZE && Window(file, size, FOOTER_SIZE) == foot
    ensures TableRead(file) && HeaderAccepted(file) && HeaderRead(file) && LastFooter(file) == foot
  {
  }

  /** Blocks that cover a disk, as the code computes it. */
  function EntriesFor(size: uint64, bs: uint32): uint32
    requires bs > 0
  {
    (size + bs - 1) / bs % W32
  }

  lemma EntriesForIs(size: uint64, bs: uint32)
    requires bs >= MIN_BLOCK && size <= MAX_DISK
    ensures EntriesFor(size, bs) == BlockNo(size + bs - 1, bs)
  {
    BlockDiv(size + bs - 1, bs);
    BlockNoSmall(size + bs - 1, bs);
    var q := BlockNo(size + bs - 1, bs);
    assert q % W32 == q;
  }

  lemma NewGeometryOk(size: uint64, bs: uint32, table: uint64)
    requires PowerOfTwo(bs) && bs >= MIN_BLOCK && size <= MAX_DISK && size % SECTOR == 0
    requires table == FOOTER_SIZE + DYNAMIC_SIZE || table == ALIGNMENT
    ensures GeometryOk(Geometry(size, bs, EntriesFor(size, bs), table))
  {
    hide PowerOfTwo, BlockSizeOk, EntriesFor, BlockNo;
    PowerOfTwoBlocks(bs);
    EntriesForIs(size, bs);
  }

  /** sim_CreateVirtualDisk: an all-zero disk. Sizes up to 2040 GiB are accepted. */
  method CreateVirtualDisk(SizeInSectors: uint32, BlockSize: uint32, bFixedVHD: bool, at: Stamp) returns (status: int, h: Vhd?)
    requires |at.uuid| == 16
    requires bFixedVHD || BlockSize == 0 || (PowerOfTwo(BlockSize) && BlockSize >= MIN_BLOCK)
    ensures status == (if SizeInSectors * SECTOR > MAX_DISK then EFBIG else 0) && (h != null <==> status == 0)
    ensures h != null ==> fresh(h) && fresh(h.Repr) && h.Valid() && h.Parent == null && h.Size() == SizeInSectors * SECTOR
    ensures h != null ==> h.Footer[F_SAVED_STATE] == 0 && (bFixedVHD ==> DiskType(h.Footer) == DT_FIXED)
    ensures h != null ==> h.Footer == NewFooter(SizeInSectors * SECTOR, if bFixedVHD then 2 else 3, at)
    ensures h != null ==> forall p :: 0 <= p < h.Size() ==> ByteAt(h.Snapshot(), p) == 0
    ensures h != null && !bFixedVHD ==>
      && DiskType(h.Footer) == DT_DYNAMIC && h.BAT[..] == FreshBat(h.Geo().entries)
      && h.Geo().bs == (if BlockSize == 0 then MIN_BLOCK else BlockSize)
      && h.Geo().table == FOOTER_SIZE + DYNAMIC_SIZE && |h.File.data| == BatEnd(h.Geo()) + FOOTER_SIZE
      && DynamicFields(h.Dynamic, h.Geo().table, h.Geo().entries, h.Geo().bs)
      && h.Dynamic == NewDynamic(h.Geo().table, h.Geo().entries, h.Geo().bs)
  {
    hide U32At, U64At, Layout, Stored, Marked, FooterOk, DynamicOk, ByteAt, PowerOfTwo, DynamicFields, GeometryOk,
      FreshBat, BatEnd, Padded, NewFooter, NewDynamic;
    var sizeInBytes: uint64 := SizeInSectors * SECTOR;
    if sizeInBytes > MAX_DISK {
      return EFBIG, null;
    }
    if bFixedVHD {
      h := CreateFixed(sizeInBytes, at);
    } else {
      TwoMiB();
      h := CreateDynamic(sizeInBytes, if BlockSize == 0 then MIN_BLOCK else BlockSize, at);
    }
    status := 0;
  }

  lemma TwoMiB()
    ensures PowerOfTwo(MIN_BLOCK)
  {
    Pow2Values();
    BitTest(MIN_BLOCK);
  }

  method CreateFixed(size: uint64, at: Stamp) returns (h: Vhd)
    requires |at.uuid| == 16 && size <= MAX_DISK && size % SECTOR == 0
    ensures fresh(h) && fresh(h.Repr) && h.Valid() && h.Parent == null && h.Size() == size
    ensures h.Footer[F_SAVED_STATE] == 0 && DiskType(h.Footer) == DT_FIXED && h.Footer == NewFooter(size, DT_FIXED, at)
    ensures forall p :: 0 <= p < h.Size() ==> ByteAt(h.Snapshot(), p) == 0
  {
    hide U32At, U64At, NewFooter, Layout, Stored, Marked, TableRead, HeaderAccepted, HeaderRead, FooterAccepted, LastFooter, LoadedBat,
      HeaderOf, FooterOk, Window, ByteAt, Splice;
    var foot := NewFooter(size, DT_FIXED, at);
    NewFooterOk(size, DT_FIXED, at);
    FooterSize(foot);
    var file := new HostFile([]);
    file.WriteFilePosition(foot, size);
    WindowOfSplice([], size, foot);
    FixedIsAccepted(size, foot, file.data);
    var status, again := Open(file, NoParent(), 0);
    h := again;
    assert h.Headers();
    assert h.Valid();
    h.FixedFacts();
    forall p | 0 <= p < size ensures ByteAt(h.Snapshot(), p) == 0 {
      AtSplice([], size, foot, p);
    }
  }

  method CreateDynamic(size: uint64, bs: uint32, at: Stamp) returns (h: Vhd)
    requires |at.uuid| == 16 && size <= MAX_DISK && size % SECTOR == 0 && PowerOfTwo(bs) && bs >= MIN_BLOCK
    ensures fresh(h) && fresh(h.Repr) && h.Valid() && h.Parent == null && h.Size() == size
    ensures h.Footer[F_SAVED_STATE] == 0 && h.Footer == NewFooter(size, DT_DYNAMIC, at)
    ensures forall p :: 0 <= p < size ==> ByteAt(h.Snapshot(), p) == 0
    ensures DiskType(h.Footer) == DT_DYNAMIC && h.BAT[..] == FreshBat(h.Geo().entries)
    ensures h.Geo().bs == bs && h.Geo().table == FOOTER_SIZE + DYNAMIC_SIZE && |h.File.data| == BatEnd(h.Geo()) + FOOTER_SIZE
    ensures DynamicFields(h.Dynamic, h.Geo().table, h.Geo().entries, h.Geo().bs)
    ensures h.Dynamic == NewDynamic(h.Geo().table, h.Geo().entries, h.Geo().bs)
  {
    hide U32At, U64At, NewFooter, Layout, Stored, Marked, TableRead, HeaderAccepted, HeaderRead, FooterAccepted, LastFooter, LoadedBat,
      HeaderOf, FooterOk, DynamicOk, GeometryOk, PowerOfTwo, FreshBat, Seal, UnsealedDynamic, Padded,
      BatSize, ByteAt, EntriesFor;
    var foot := NewFooter(size, DT_DYNAMIC, at);
    NewFooterOk(size, DT_DYNAMIC, at);
    FooterSize(foot);
    var table := FOOTER_SIZE + DYNAMIC_SIZE;
    var entries := EntriesFor(size, bs);
    var raw := UnsealedDynamic(table, entries, bs);
    UnsealedDynamicFields(table, entries, bs);
    DynamicResealed(raw, raw, table, entries, bs);
    var dyn := NewDynamic(table, entries, bs);
    var bat := FreshBat(entries);
    var file := new HostFile([]);
    file.WriteFilePosition(foot, 0);
    file.WriteFilePosition(dyn, FOOTER_SIZE);
    file.WriteFilePosition(EncodeBat(bat), table);
    file.WriteFilePosition(foot, table + 4 * |bat|);
    ghost var g := GeometryOf(foot, dyn);
    NewGeometryOk(size, bs, table);
    assert g == Geometry(size, bs, entries, table);
    LaidDownIsStored(g, foot, dyn, bat, []);
    assert file.data == LaidDown(g, foot, dyn, bat, []);
    h := OpenFresh(g, foot, dyn, file, null);
    FreshView(g, file.data, None);
  }

  /** Opening a container that has just been laid down. */
  method OpenFresh(ghost g: Geometry, ghost foot: seq<byte>, dyn: seq<byte>, file: HostFile, parent: Vhd?) returns (h: Vhd)
    requires FooterOk(foot) && DynamicOk(dyn) && foot[F_SAVED_STATE] == 0
    requires DiskType(foot) == (if parent == null then DT_DYNAMIC else DT_DIFFERENCING)
    requires g == GeometryOf(foot, dyn) && GeometryOk(g) && PowerOfTwo(g.bs)
    requires |file.data| == BatEnd(g) + FOOTER_SIZE && Stored(g, foot, dyn, FreshBat(g.entries), file.data)
    requires parent != null ==> parent.Valid() && file !in parent.Repr && parent.Size() == g.size
    requires parent != null && DiskType(parent.Footer) != DT_FIXED ==> parent.Geo().bs == g.bs
    requires parent != null ==> ParentId(dyn) == UniqueId(parent.Footer)
    ensures fresh(h) && fresh(h.BAT) && h.Valid() && h.File == file && h.Parent == parent && h.Footer == foot && h.Dynamic == dyn
    ensures h.Repr == {h, h.BAT, file} + if parent == null then {} else parent.Repr
    ensures h.BAT[..] == FreshBat(g.entries) && h.Snapshot() == Sparse(g, FreshBat(g.entries), file.data, h.ParentImage())
  {
    hide U32At, U64At, Layout, Stored, Marked, TableRead, HeaderAccepted, HeaderRead, FooterAccepted, LastFooter, LoadedBat, HeaderOf,
      FooterOk, DynamicOk, GeometryOk, PowerOfTwo, FreshBat, Padded, BatSize, ParentId, UniqueId, ParentTime;
    FreshLayout(g);
    StoredIsAccepted(g, foot, dyn, FreshBat(g.entries), file.data);
    NothingMarked(g, file.data);
    FooterSize(foot);
    var status, again := Open(file, Known(parent, dyn), 0);
    h := again;
    assert h.SparseData();
    assert h.Consistent();
  }

  lemma FooterSize(foot: seq<byte>)
    requires FooterOk(foot)
    ensures |foot| == FOOTER_SIZE
  {
  }

  /** A name as 256 characters of 16 bits, zero-filled, the 8-bit character in the low byte
      (at 0, little endian) or the high one (at 1). */
  function Wide(name: seq<byte>, at: nat): (r: seq<byte>)
    ensures |r| == SECTOR
  {
    seq<byte>(SECTOR, i requires 0 <= i => if i % 2 == at && i / 2 < |name| then name[i / 2] else 0)
  }

  /** The name in the 16-bit characters of data[k..length]: up to the first that is zero. */
  function NameIn(data: seq<byte>, k: nat, length: nat): seq<byte>
    requires length + 2 <= |data|
    decreases length - k
  {
    if k >= length || data[k] == data[k + 1] == 0 then []
    else [if data[k] != 0 then data[k] else data[k + 1]] + NameIn(data, k + 2, length)
  }

  /** How opening a child reads the name out of a locator's data. */
  method ReadName(data: seq<byte>, length: nat) returns (name: seq<byte>)
    requires length + 2 <= |data|
    ensures name == NameIn(data, 0, length)
  {
    var i := 0;
    name := [];
    while i < length
      invariant name + NameIn(data, i, length) == NameIn(data, 0, length)
    {
      if data[i] == 0 && data[i + 1] == 0 {
        break;
      }
      name := name + [if data[i] != 0 then data[i] else data[i + 1]];
      i := i + 2;
    }
  }

  /** A name is read back from its 16-bit characters, whichever byte comes first. */
  lemma {:induction false} WideIsRead(name: seq<byte>, at: nat, k: nat)
    requires |name| <= 256 && 0 !in name && at < 2 && k <= |name|
    ensures NameIn(Wide(name, at) + [0, 0], 2 * k, 2 * |name|) == name[k..]
    decreases |name| - k
  {
    var data := Wide(name, at) + [0, 0];
    if k < |name| {
      WideIsRead(name, at, k + 1);
      WideAt(name, at, k);
      assert name[k] in name && name[k..] == [name[k]] + name[k + 1..];
    }
  }

  lemma WideAt(name: seq<byte>, at: nat, k: nat)
    requires k < |name| && k < 256 && at < 2
    ensures Wide(name, at)[2 * k + at] == name[k] && Wide(name, at)[2 * k + (1 - at)] == 0
  {
    assert (2 * k + at) / 2 == k && (2 * k + (1 - at)) % 2 == 1 - at;
  }

  /** What the caller knows about the parent: its full path, the path relative to the child
      where the two share one, and its time, as four bytes. A path has at most 256 characters. */
  datatype ParentPath = ParentPath(full: seq<byte>, relative: Option<seq<byte>>, time: seq<byte>)
  {
    predicate Ok() {
      && |full| <= 256 && 0 !in full && |time| == 4
      && (relative.Some? ==> |relative.value| <= 256 && 0 !in relative.value)
    }
  }

  const LOCATOR := FOOTER_SIZE + DYNAMIC_SIZE
  const W2KU: seq<byte> := [0x57, 0x32, 0x6B, 0x75] // "W2ku"
  const W2RU: seq<byte> := [0x57, 0x32, 0x72, 0x75] // "W2ru"

  function LocatorEntry(code: seq<byte>, length: uint32, at: uint64): (r: seq<byte>)
    requires |code| == 4
    ensures |r| == 24
  {
    code + Bytes32(SECTOR) + Bytes32(length) + Bytes32(0) + Bytes64(at)
  }

  /** What opening a child reads of one of its parent locators: the platform code, the
      space and the length of the path's data and where they lie. */
  datatype Locator = Locator(code: seq<byte>, space: uint32, length: uint32, offset: uint64)

  function ParentLocator(dyn: seq<byte>, k: nat): Locator
    requires |dyn| == DYNAMIC_SIZE && k < 8
  {
    var at := D_LOCATORS + 24 * k;
    Locator(Window(dyn, at, 4), U32At(dyn, at + 4), U32At(dyn, at + 8), U64At(dyn, at + 16))
  }

  lemma LocatorReads(dyn: seq<byte>, k: nat, code: seq<byte>, length: uint32, at: uint64)
    requires |dyn| == DYNAMIC_SIZE && k < 8 && |code| == 4
    requires dyn[D_LOCATORS + 24 * k..D_LOCATORS + 24 * k + 24] == LocatorEntry(code, length, at)
    ensures ParentLocator(dyn, k) == Locator(code, SECTOR, length, at)
  {
    hide Bytes32, Bytes64, U32At, U64At;
    var from := D_LOCATORS + 24 * k;
    var e := dyn[from..from + 24];
    assert e[..4] == code && e[4..8] == Bytes32(SECTOR) && e[8..12] == Bytes32(length) && e[16..] == Bytes64(at);
    SubSlice(dyn, from, 24, 0, 4);
    SubSlice(dyn, from, 24, 4, 4);
    SubSlice(dyn, from, 24, 8, 4);
    SubSlice(dyn, from, 24, 16, 8);
    assert Window(dyn, from, 4) == dyn[from..from + 4];
    U32Of(dyn, from + 4, SECTOR);
    U32Of(dyn, from + 8, length);
    U64Of(dyn, from + 16, at);
  }

  /** The dynamic header with everything about the parent filled in, before sealing. */
  function WithParent(dyn: seq<byte>, parentId: seq<byte>, path: ParentPath): (r: seq<byte>)
    requires |dyn| == DYNAMIC_SIZE && |parentId| == 16 && path.Ok()
    ensures |r| == DYNAMIC_SIZE
  {
    var named := Put(Put(Put(dyn, D_PARENT_NAME, Wide(path.full, 1)), D_PARENT_TIME, path.time), D_PARENT_ID, parentId);
    var full := Put(named, D_LOCATORS, LocatorEntry(W2KU, 2 * |path.full|, LOCATOR));
    match path.relative
    case Some(name) => Put(full, D_LOCATORS + 24, LocatorEntry(W2RU, 2 * |name|, LOCATOR + SECTOR))
    case None => full
  }

  /** The parent's entries lie behind the checksum, so the fields in front stay. */
  lemma WithParentKeepsFields(dyn: seq<byte>, table: uint64, entries: uint32, bs: uint32, table': uint64, parentId: seq<byte>, path: ParentPath)
    requires DynamicFields(dyn, table, entries, bs) && |parentId| == 16 && path.Ok()
    ensures var moved := Put(WithParent(dyn, parentId, path), D_TABLE_OFFSET, Bytes64(table'));
      DynamicOk(Seal(moved, D_CHECKSUM)) && DynamicFields(Seal(moved, D_CHECKSUM), table', entries, bs)
  {
    hide U32At, U64At, Seal;
    var filled := WithParent(dyn, parentId, path);
    var early := Put(dyn, D_TABLE_OFFSET, Bytes64(table'));
    U64Put(dyn, D_TABLE_OFFSET, table');
    U32Kept(dyn, D_TABLE_OFFSET, Bytes64(table'), D_MAX_ENTRIES);
    U32Kept(dyn, D_TABLE_OFFSET, Bytes64(table'), D_BLOCK_SIZE);
    assert early[..8] == dyn[..8];
    var moved := Put(filled, D_TABLE_OFFSET, Bytes64(table'));
    assert moved[..D_CHECKSUM] == early[..D_CHECKSUM];
    DynamicResealed(early, moved, table', entries, bs);
  }

  /** The header of a differencing disk, from that of a dynamic one: the table moves behind
      the locators to the next 4096 boundary. */
  function ChildHeader(dyn: seq<byte>, parentId: seq<byte>, path: ParentPath): (r: seq<byte>)
    requires |dyn| == DYNAMIC_SIZE && |parentId| == 16 && path.Ok()
    ensures |r| == DYNAMIC_SIZE
  {
    Seal(Put(WithParent(dyn, parentId, path), D_TABLE_OFFSET, Bytes64(ALIGNMENT)), D_CHECKSUM)
  }

  lemma IdRecorded(dyn: seq<byte>, parentId: seq<byte>, path: ParentPath)
    requires |dyn| == DYNAMIC_SIZE && |parentId| == 16 && path.Ok()
    ensures ParentId(ChildHeader(dyn, parentId, path)) == parentId
  {
    hide Seal, Put;
    var h := ChildHeader(dyn, parentId, path);
    forall i | 0 <= i < 16 ensures h[D_PARENT_ID + i] == parentId[i] {
    }
  }

  /** The child's header records the parent's identifier, time and name, and its first two
      locators are those of the full and the relative path. */
  lemma ParentRecorded(dyn: seq<byte>, parentId: seq<byte>, path: ParentPath)
    requires |dyn| == DYNAMIC_SIZE && |parentId| == 16 && path.Ok()
    ensures var h := ChildHeader(dyn, parentId, path);
      Window(h, 40, 16) == parentId && Window(h, 56, 4) == path.time && Window(h, 64, 512) == Wide(path.full, 1)
    ensures ParentLocator(ChildHeader(dyn, parentId, path), 0) == Locator(W2KU, SECTOR, 2 * |path.full|, LOCATOR)
    ensures ParentLocator(ChildHeader(dyn, parentId, path), 1) ==
      match path.relative
      case Some(name) => Locator(W2RU, SECTOR, 2 * |name|, LOCATOR + SECTOR)
      case None => ParentLocator(dyn, 1)
  {
    hide Seal, U32At, U64At, Bytes32, Bytes64, LocatorEntry;
    var h := ChildHeader(dyn, parentId, path);
    assert h[576..600] == LocatorEntry(W2KU, 2 * |path.full|, LOCATOR);
    LocatorReads(h, 0, W2KU, 2 * |path.full|, LOCATOR);
    if path.relative.Some? {
      assert h[600..624] == LocatorEntry(W2RU, 2 * |path.relative.value|, LOCATOR + SECTOR);
      LocatorReads(h, 1, W2RU, 2 * |path.relative.value|, LOCATOR + SECTOR);
    } else {
      assert h[600..624] == dyn[600..624];
      SameLocator(h, dyn);
    }
  }

  lemma SameLocator(h: seq<byte>, dyn: seq<byte>)
    requires |h| == |dyn| == DYNAMIC_SIZE && h[600..624] == dyn[600..624]
    ensures ParentLocator(h, 1) == ParentLocator(dyn, 1)
  {
    forall i | 600 <= i < 624 ensures h[i] == dyn[i] {
      assert h[600..624][i - 600] == dyn[600..624][i - 600];
    }
    assert Window(h, 600, 4) == Window(dyn, 600, 4);
  }

  lemma NoLocator(table: uint64, entries: uint32, bs: uint32)
    ensures ParentLocator(NewDynamic(table, entries, bs), 1) == Locator(Zeros(4), 0, 0, 0)
  {
    hide NewDynamic, U32At, U64At;
    var dyn := NewDynamic(table, entries, bs);
    NewDynamicTail(table, entries, bs);
    var blank := Zeros(DYNAMIC_SIZE);
    assert blank[600..624] == Zeros(24);
    SameLocator(dyn, blank);
    assert Window(blank, 600, 4) == Zeros(4);
    NoNumbers(blank);
  }

  lemma NoNumbers(blank: seq<byte>)
    requires blank == Zeros(DYNAMIC_SIZE)
    ensures U32At(blank, 604) == U32At(blank, 608) == 0 && U64At(blank, 616) == 0
  {
  }

  lemma NewDynamicTail(table: uint64, entries: uint32, bs: uint32)
    ensures NewDynamic(table, entries, bs)[600..624] == Zeros(24)
  {
    hide Seal, Bytes32, Bytes64;
  }

  /** The new child's footer: a differencing disk with the parent's drive type. */
  function ChildFooter(foot: seq<byte>, parentFoot: seq<byte>): seq<byte>
    requires |foot| == FOOTER_SIZE && |parentFoot| == FOOTER_SIZE
  {
    Seal(Put(Put(foot, F_DISK_TYPE, Bytes32(DT_DIFFERENCING)), F_DRIVE_TYPE, parentFoot[F_DRIVE_TYPE..F_CREATING_SIMULATOR]), F_CHECKSUM)
  }

  lemma TypedFields(foot: seq<byte>)
    requires |foot| == FOOTER_SIZE
    ensures var typed := Put(foot, F_DISK_TYPE, Bytes32(DT_DIFFERENCING));
      && typed[..8] == foot[..8] && DiskType(typed) == DT_DIFFERENCING
      && U64At(typed, F_DATA_OFFSET) == U64At(foot, F_DATA_OFFSET)
      && U64At(typed, F_CURRENT_SIZE) == U64At(foot, F_CURRENT_SIZE)
  {
    hide U32At, U64At;
    U32Put(foot, F_DISK_TYPE, DT_DIFFERENCING);
    U64Kept(foot, F_DISK_TYPE, Bytes32(DT_DIFFERENCING), F_DATA_OFFSET);
    U64Kept(foot, F_DISK_TYPE, Bytes32(DT_DIFFERENCING), F_CURRENT_SIZE);
  }

  lemma ChildFooterOk(foot: seq<byte>, parentFoot: seq<byte>)
    requires FooterOk(foot) && DiskType(foot) == DT_DYNAMIC && |parentFoot| == FOOTER_SIZE
    ensures var f := ChildFooter(foot, parentFoot);
      && FooterOk(f) && DiskType(f) == DT_DIFFERENCING && U64At(f, F_CURRENT_SIZE) == U64At(foot, F_CURRENT_SIZE)
      && f[F_SAVED_STATE] == foot[F_SAVED_STATE]
  {
    hide U32At, U64At, Put;
    var typed := Put(foot, F_DISK_TYPE, Bytes32(DT_DIFFERENCING));
    var copied := Put(typed, F_DRIVE_TYPE, parentFoot[F_DRIVE_TYPE..F_CREATING_SIMULATOR]);
    TypedFields(foot);
    SealIsOk(copied, F_CHECKSUM);
    EarlyFieldsKept(typed, Seal(copied, F_CHECKSUM));
  }

  /** A parent's size and block size are ones a child can be created with. */
  lemma ParentSuits(parent: Vhd)
    requires parent.Valid()
    ensures parent.Size() <= MAX_DISK && parent.Size() / SECTOR % W32 * SECTOR == parent.Size()
    ensures var bs := U32At(parent.Dynamic, D_BLOCK_SIZE);
      if DiskType(parent.Footer) == DT_FIXED then bs == 0 else PowerOfTwo(bs) && bs >= MIN_BLOCK && bs == parent.Geo().bs
  {
    hide U32At, Layout, Stored, Marked, FooterOk, DynamicOk, PowerOfTwo;
    if DiskType(parent.Footer) == DT_FIXED {
      parent.FixedFacts();
      NoBlockSize();
    } else {
      parent.SparseFacts();
    }
  }

  lemma NoBlockSize()
    ensures U32At(Zeros(DYNAMIC_SIZE), D_BLOCK_SIZE) == 0
  {
  }

  /** Header, dynamic header, BAT, footer, in the order the code writes them. */
  method LayDown(file: HostFile, foot: seq<byte>, dyn: seq<byte>, bat: seq<uint32>)
    requires |foot| == FOOTER_SIZE && |dyn| == DYNAMIC_SIZE
    modifies file
    ensures file.data == LaidDown(GeometryOf(foot, dyn), foot, dyn, bat, old(file.data))
  {
    hide U64At, U32At, Splice, EncodeBat;
    var table := U64At(dyn, D_TABLE_OFFSET);
    file.WriteFilePosition(foot, 0);
    file.WriteFilePosition(dyn, FOOTER_SIZE);
    file.WriteFilePosition(EncodeBat(bat), table);
    file.WriteFilePosition(foot, table + 4 * |bat|);
  }

  method WriteLocators(file: HostFile, ghost g: Geometry, ghost foot: seq<byte>, ghost dyn: seq<byte>, ghost bat: seq<uint32>, path: ParentPath)
    requires path.Ok() && Stored(g, foot, dyn, bat, file.data) && LOCATOR + 2 * SECTOR <= g.table && g.table + 4 * |bat| <= |file.data| - FOOTER_SIZE
    modifies file
    ensures |file.data| == old(|file.data|) && Stored(g, foot, dyn, bat, file.data)
    ensures path.full != [] ==> Window(file.data, LOCATOR, SECTOR) == Wide(path.full, 0)
    ensures path.relative.Some? && path.relative.value != [] ==>
      Window(file.data, LOCATOR + SECTOR, SECTOR) == Wide(path.relative.value, 0)
  {
    hide Stored, Marked, Splice, Wide;
    if path.full != [] {
      var full := Wide(path.full, 0);
      LocatorKeepsStored(g, foot, dyn, bat, file.data, LOCATOR, full);
      WindowOfSplice(file.data, LOCATOR, full);
      file.WriteFilePosition(full, LOCATOR);
    }
    if path.relative.Some? && path.relative.value != [] {
      var relative := Wide(path.relative.value, 0);
      LocatorKeepsStored(g, foot, dyn, bat, file.data, LOCATOR + SECTOR, relative);
      WindowBesideSplice(file.data, LOCATOR + SECTOR, relative, LOCATOR, SECTOR);
      WindowOfSplice(file.data, LOCATOR + SECTOR, relative);
      file.WriteFilePosition(relative, LOCATOR + SECTOR);
    }
  }

  /** The child's two headers, sealed: the BAT moves behind the locators, to the next 4096 boundary. */
  method Sealed(child: Vhd, parent: Vhd, path: ParentPath) returns (dyn: seq<byte>, foot: seq<byte>)
    requires child.Valid() && parent.Valid() && path.Ok() && child.Footer[F_SAVED_STATE] == 0
    requires DiskType(child.Footer) == DT_DYNAMIC && child.Geo().table == LOCATOR
    requires DynamicFields(child.Dynamic, child.Geo().table, child.Geo().entries, child.Geo().bs)
    ensures DynamicOk(dyn) && FooterOk(foot) && |dyn| == DYNAMIC_SIZE && |foot| == FOOTER_SIZE
    ensures DiskType(foot) == DT_DIFFERENCING && foot[F_SAVED_STATE] == 0
    ensures ParentId(dyn) == UniqueId(parent.Footer)
    ensures dyn == ChildHeader(child.Dynamic, UniqueId(parent.Footer), path)
    ensures |child.Footer| == |parent.Footer| == FOOTER_SIZE && foot == ChildFooter(child.Footer, parent.Footer)
    ensures GeometryOf(foot, dyn) == child.Geo().(table := ALIGNMENT) && GeometryOk(GeometryOf(foot, dyn)) && PowerOfTwo(child.Geo().bs)
  {
    hide U32At, U64At, Layout, Stored, Marked, PowerOfTwo, Seal, BatSize, ChildFooter, WithParent, DynamicOk, BlockNo, ParentId, UniqueId;
    child.SparseFacts();
    FooterSize(parent.Footer);
    FooterSize(child.Footer);
    var id := UniqueId(parent.Footer);
    var locators := if path.relative.Some? then 2 else 1;
    var table := AlignUp(LOCATOR + locators * SECTOR, ALIGNMENT);
    assert table == ALIGNMENT;
    WithParentKeepsFields(child.Dynamic, child.Geo().table, child.Geo().entries, child.Geo().bs, table, id, path);
    dyn := Seal(Put(WithParent(child.Dynamic, id, path), D_TABLE_OFFSET, Bytes64(table)), D_CHECKSUM);
    IdRecorded(child.Dynamic, id, path);
    ChildFooterOk(child.Footer, parent.Footer);
    foot := ChildFooter(child.Footer, parent.Footer);
  }

  /** Following a locator of this kind gives the path. */
  predicate LeadsTo(file: seq<byte>, locator: Locator, code: seq<byte>, name: seq<byte>) {
    && locator.code == code && locator.length == 2 * |name| <= locator.space
    && (name != [] ==> NameIn(Window(file, locator.offset, locator.space) + [0, 0], 0, locator.length) == name)
  }

  /** The header names the parent by identifier, time and path, and its locators lead to the
      full path and, if there is one, to the relative path. */
  predicate Remembers(dyn: seq<byte>, file: seq<byte>, parentId: seq<byte>, path: ParentPath) {
    && |dyn| == DYNAMIC_SIZE
    && Window(dyn, 40, 16) == parentId && Window(dyn, 56, 4) == path.time && Window(dyn, 64, 512) == Wide(path.full, 1)
    && LeadsTo(file, ParentLocator(dyn, 0), W2KU, path.full)
    && match path.relative
       case Some(name) => LeadsTo(file, ParentLocator(dyn, 1), W2RU, name)
       case None => ParentLocator(dyn, 1) == Locator(Zeros(4), 0, 0, 0)
  }

  lemma ChildRemembers(dyn: seq<byte>, parentId: seq<byte>, path: ParentPath, file: seq<byte>)
    requires |dyn| == DYNAMIC_SIZE && |parentId| == 16 && path.Ok() && ParentLocator(dyn, 1) == Locator(Zeros(4), 0, 0, 0)
    requires path.full != [] ==> Window(file, LOCATOR, SECTOR) == Wide(path.full, 0)
    requires path.relative.Some? && path.relative.value != [] ==>
      Window(file, LOCATOR + SECTOR, SECTOR) == Wide(path.relative.value, 0)
    ensures Remembers(ChildHeader(dyn, parentId, path), file, parentId, path)
  {
    hide ChildHeader, ParentLocator, Window, Wide;
    ParentRecorded(dyn, parentId, path);
    WideIsRead(path.full, 0, 0);
    if path.relative.Some? {
      WideIsRead(path.relative.value, 0, 0);
    }
  }

  /** The new child's file: both headers, the table, the second footer and the locators. */
  method LayChild(file: HostFile, ghost g: Geometry, foot: seq<byte>, dyn: seq<byte>, bat: seq<uint32>, path: ParentPath)
    requires |foot| == FOOTER_SIZE && |dyn| == DYNAMIC_SIZE && path.Ok() && g == GeometryOf(foot, dyn)
    requires g.table == ALIGNMENT && |file.data| <= g.table + 4 * |bat| + FOOTER_SIZE
    modifies file
    ensures |file.data| == g.table + 4 * |bat| + FOOTER_SIZE && Stored(g, foot, dyn, bat, file.data)
    ensures path.full != [] ==> Window(file.data, LOCATOR, SECTOR) == Wide(path.full, 0)
    ensures path.relative.Some? && path.relative.value != [] ==>
      Window(file.data, LOCATOR + SECTOR, SECTOR) == Wide(path.relative.value, 0)
  {
    hide U32At, U64At, Stored, Marked, FreshBat, LaidDown, Window, Splice, BatSize, Padded, EncodeBat, Wide;
    ghost var before := file.data;
    LaidDownIsStored(g, foot, dyn, bat, before);
    LayDown(file, foot, dyn, bat);
    WriteLocators(file, g, foot, dyn, bat, path);
  }

  /** CreateDifferencingVirtualDisk, given the parent's handle and path: a disk that
      presents exactly what its parent does. */
  method CreateDifferencing(parent: Vhd, path: ParentPath, at: Stamp) returns (h: Vhd)
    requires parent.Valid() && path.Ok() && |at.uuid| == 16
    ensures fresh(h) && h.Valid() && h.Parent == parent && h.ParentImage() == Some(parent.Snapshot())
    ensures h.Size() == parent.Size() && forall p :: 0 <= p < h.Size() ==> ByteAt(h.Snapshot(), p) == ByteAt(parent.Snapshot(), p)
    ensures |parent.Footer| == FOOTER_SIZE && h.Footer == ChildFooter(NewFooter(parent.Size(), DT_DYNAMIC, at), parent.Footer)
    ensures h.Dynamic == ChildHeader(NewDynamic(LOCATOR, h.Geo().entries, h.Geo().bs), UniqueId(parent.Footer), path)
    ensures Remembers(h.Dynamic, h.File.data, Window(parent.Footer, 68, 16), path)
    ensures h.Geo().bs == if DiskType(parent.Footer) == DT_FIXED then MIN_BLOCK else parent.Geo().bs
    ensures h.BAT[..] == FreshBat(h.Geo().entries)
    ensures DiskType(h.Footer) == DT_DIFFERENCING && h.Footer[F_SAVED_STATE] == 0 && fresh(h.File) && fresh(h.BAT)
  {
    hide U32At, U64At, Layout, Stored, Marked, FooterOk, DynamicOk, GeometryOk, PowerOfTwo, FreshBat, Seal,
      Padded, BatSize, ByteAt, EntriesFor, ChildFooter, WithParent, Window, Splice, DynamicFields,
      LaidDown, BlockNo, EncodeBat, NewFooter, NewDynamic, ChildHeader, ParentId, Wide, Remembers, ParentLocator;
    ghost var under := parent.Snapshot();
    ParentSuits(parent);
    var status, child := CreateVirtualDisk(parent.Size() / SECTOR % W32, U32At(parent.Dynamic, D_BLOCK_SIZE), false, at);
    var dyn, foot := Sealed(child, parent, path);
    var file := child.File;
    ghost var g := GeometryOf(foot, dyn);
    LayChild(file, g, foot, dyn, child.BAT[..], path);
    NoLocator(LOCATOR, child.Geo().entries, child.Geo().bs);
    ChildRemembers(child.Dynamic, UniqueId(parent.Footer), path, file.data);
    h := OpenFresh(g, foot, dyn, file, parent);
    FreshView(g, file.data, Some(under));
  }
}
