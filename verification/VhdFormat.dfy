/** Footer and dynamic header as they lie on the host file: fixed-size records of
    big-endian fields, each sealed by a checksum over its own bytes. */
module VhdFormat {
  import opened Bytes
  import opened VhdLayout

  const COOKIE: seq<byte> := [0x63, 0x6F, 0x6E, 0x65, 0x63, 0x74, 0x69, 0x78]     // "conectix"
  const DYN_COOKIE: seq<byte> := [0x63, 0x78, 0x73, 0x70, 0x61, 0x72, 0x73, 0x65] // "cxsparse"

  // Offsets of the fields of VHD_Footer.
  const F_DATA_OFFSET := 16
  const F_CURRENT_SIZE := 48
  const F_DISK_TYPE := 60
  const F_CHECKSUM := 64
  const F_UNIQUE_ID := 68
  const F_SAVED_STATE := 84
  const F_DRIVE_TYPE := 96
  const F_CREATING_SIMULATOR := 120

  // Offsets of the fields of VHD_DynamicDiskHeader.
  const D_TABLE_OFFSET := 16
  const D_MAX_ENTRIES := 28
  const D_BLOCK_SIZE := 32
  const D_CHECKSUM := 36
  const D_PARENT_ID := 40
  const D_PARENT_TIME := 56
  const D_PARENT_NAME := 64
  const D_LOCATORS := 576

  const DT_FIXED := 2
  const DT_DYNAMIC := 3
  const DT_DIFFERENCING := 4

  lemma U32Kept(s: seq<byte>, at: nat, field: seq<byte>, p: nat)
    requires at + |field| <= |s| && p + 4 <= |s| && (p + 4 <= at || at + |field| <= p)
    ensures U32At(Put(s, at, field), p) == U32At(s, p)
  {
  }

  lemma U32Put(s: seq<byte>, at: nat, v: uint32)
    requires at + 4 <= |s|
    ensures U32At(Put(s, at, Bytes32(v)), at) == v
  {
    var f := Bytes32(v);
    Bytes32Word(v);
    var r := Put(s, at, f);
    assert r[at] == f[0] && r[at + 1] == f[1] && r[at + 2] == f[2] && r[at + 3] == f[3];
  }

  lemma U64Put(s: seq<byte>, at: nat, v: uint64)
    requires at + 8 <= |s|
    ensures U64At(Put(s, at, Bytes64(v)), at) == v
  {
    var f := Bytes64(v);
    Bytes64Words(v);
    var r := Put(s, at, f);
    assert U32At(r, at) == U32At(f, 0);
    assert U32At(r, at + 4) == U32At(f, 4);
  }

  lemma U64Kept(s: seq<byte>, at: nat, field: seq<byte>, p: nat)
    requires at + |field| <= |s| && p + 8 <= |s| && (p + 8 <= at || at + |field| <= p)
    ensures U64At(Put(s, at, field), p) == U64At(s, p)
  {
    U32Kept(s, at, field, p);
    U32Kept(s, at, field, p + 4);
  }

  lemma U32Of(s: seq<byte>, at: nat, v: uint32)
    requires at + 4 <= |s| && s[at..at + 4] == Bytes32(v)
    ensures U32At(s, at) == v
  {
    Bytes32Word(v);
    var w := s[at..at + 4];
    assert s[at] == w[0] && s[at + 1] == w[1] && s[at + 2] == w[2] && s[at + 3] == w[3];
  }

  lemma U64Of(s: seq<byte>, at: nat, v: uint64)
    requires at + 8 <= |s| && s[at..at + 8] == Bytes64(v)
    ensures U64At(s, at) == v
  {
    var w := s[at..at + 8];
    assert s[at..at + 4] == w[..4] == Bytes32(v / W32);
    assert s[at + 4..at + 8] == w[4..] == Bytes32(v % W32);
    U32Of(s, at, v / W32);
    U32Of(s, at + 4, v % W32);
  }

  method CalculateVhdFooterChecksum(data: seq<byte>) returns (r: uint32)
    ensures r == Checksum(data)
  {
    hide ByteSum;
    NoBytes(data);
    var sum: uint32 := 0;
    for i := 0 to |data|
      invariant sum == ByteSum(data[..i]) % W32
    {
      OneMoreByte(data, i);
      sum := (sum + data[i]) % W32;
    }
    assert data[..|data|] == data;
    r := W32 - 1 - sum;
  }

  /** The record's checksum field holds the checksum of the record with that field zeroed. */
  predicate SealOk(s: seq<byte>, at: nat)
    requires at + 4 <= |s|
  {
    U32At(s, at) == Checksum(Put(s, at, Zeros(4)))
  }

  function Seal(s: seq<byte>, at: nat): (r: seq<byte>)
    requires at + 4 <= |s|
    ensures |r| == |s|
    ensures forall i :: 0 <= i < |s| && !(at <= i < at + 4) ==> r[i] == s[i]
  {
    Put(s, at, Bytes32(Checksum(Put(s, at, Zeros(4)))))
  }

  /** Sealing a record makes its check pass. */
  lemma SealIsOk(s: seq<byte>, at: nat)
    requires at + 4 <= |s|
    ensures SealOk(Seal(s, at), at)
  {
    var sum := Checksum(Put(s, at, Zeros(4)));
    U32Put(s, at, sum);
    assert Put(Seal(s, at), at, Zeros(4)) == Put(s, at, Zeros(4));
  }

  /** Which fields of footer and dynamic header the block engine uses. */
  function GeometryOf(foot: seq<byte>, dyn: seq<byte>): Geometry {
    Geometry(U64At(foot, F_CURRENT_SIZE), U32At(dyn, D_BLOCK_SIZE), U32At(dyn, D_MAX_ENTRIES), U64At(dyn, D_TABLE_OFFSET))
  }

  function DiskType(foot: seq<byte>): uint32 {
    U32At(foot, F_DISK_TYPE)
  }

  /** The identifier a child remembers its parent by. */
  function UniqueId(foot: seq<byte>): (id: seq<byte>)
    ensures |id| == 16
  {
    Window(foot, F_UNIQUE_ID, 16)
  }

  function ParentId(dyn: seq<byte>): (id: seq<byte>)
    ensures |id| == 16
  {
    Window(dyn, D_PARENT_ID, 16)
  }

  predicate FooterOk(foot: seq<byte>) {
    && |foot| == FOOTER_SIZE
    && SealOk(foot, F_CHECKSUM) && foot[..8] == COOKIE
    && U64At(foot, F_DATA_OFFSET) == if DiskType(foot) == DT_FIXED then W64 - 1 else FOOTER_SIZE
  }

  predicate DynamicOk(dyn: seq<byte>) {
    |dyn| == DYNAMIC_SIZE && SealOk(dyn, D_CHECKSUM) && dyn[..8] == DYN_COOKIE
  }

  /** Entry b of a stored BAT. */
  function BatEntry(file: seq<byte>, table: nat, b: nat): uint32 {
    var w := Window(file, table + 4 * b, 4);
    U32At(w, 0)
  }

  /** Loading the stored BAT gives the BAT back. */
  lemma BatEntryOfEncode(file: seq<byte>, table: nat, bat: seq<uint32>, b: nat)
    requires Window(file, table, 4 * |bat|) == EncodeBat(bat) && b < |bat|
    ensures BatEntry(file, table, b) == bat[b]
  {
    var w := Window(file, table, 4 * |bat|);
    var e := Window(file, table + 4 * b, 4);
    forall j | 0 <= j < 4 ensures e[j] == Byte32(bat[b], j) {
      assert w[4 * b + j] == BatByte(bat, 4 * b + j);
      assert (4 * b + j) / 4 == b && (4 * b + j) % 4 == j;
    }
    Word32OfBytes(bat[b]);
  }

  /** The footer after sim_vhd_disk_set_dtype: drive type, sector size, transfer size and
      simulator name replaced, sealed again. */
  function Retyped(foot: seq<byte>, dtype: seq<byte>, sectorSize: uint32, xferSize: uint32, simName: seq<byte>): seq<byte>
    requires |foot| == FOOTER_SIZE
  {
    var typed := Put(foot, F_DRIVE_TYPE, Window(dtype, 0, 16));
    var sized := Put(Put(typed, 112, Bytes32(sectorSize)), 116, Bytes32(xferSize));
    Seal(Put(sized, F_CREATING_SIMULATOR, Window(simName, 0, 63) + [0]), F_CHECKSUM)
  }

  /** Fields in the first 64 bytes survive any change behind them. */
  lemma EarlyFieldsKept(foot: seq<byte>, foot': seq<byte>)
    requires |foot| == |foot'| == FOOTER_SIZE && foot'[..F_CHECKSUM] == foot[..F_CHECKSUM]
    ensures U64At(foot', F_DATA_OFFSET) == U64At(foot, F_DATA_OFFSET) && U64At(foot', F_CURRENT_SIZE) == U64At(foot, F_CURRENT_SIZE)
    ensures DiskType(foot') == DiskType(foot) && foot'[..8] == foot[..8]
  {
    forall i | 0 <= i < F_CHECKSUM ensures foot'[i] == foot[i] {
      assert foot'[..F_CHECKSUM][i] == foot[..F_CHECKSUM][i];
    }
    assert foot'[..8] == foot'[..F_CHECKSUM][..8] && foot[..8] == foot[..F_CHECKSUM][..8];
  }

  /** Retyping keeps the footer valid and keeps everything the engine reads from it. */
  lemma RetypedOk(foot: seq<byte>, dtype: seq<byte>, sectorSize: uint32, xferSize: uint32, simName: seq<byte>)
    requires FooterOk(foot)
    ensures var foot' := Retyped(foot, dtype, sectorSize, xferSize, simName);
      && FooterOk(foot') && DiskType(foot') == DiskType(foot)
      && U64At(foot', F_CURRENT_SIZE) == U64At(foot, F_CURRENT_SIZE)
      && foot'[F_SAVED_STATE] == foot[F_SAVED_STATE]
      && foot'[F_DRIVE_TYPE..112] == Window(dtype, 0, 16)
      && U32At(foot', 112) == sectorSize && U32At(foot', 116) == xferSize
  {
    var typed := Put(foot, F_DRIVE_TYPE, Window(dtype, 0, 16));
    var one := Put(typed, 112, Bytes32(sectorSize));
    var two := Put(one, 116, Bytes32(xferSize));
    var named := Put(two, F_CREATING_SIMULATOR, Window(simName, 0, 63) + [0]);
    var foot' := Seal(named, F_CHECKSUM);
    SealIsOk(named, F_CHECKSUM);
    EarlyFieldsKept(foot, foot');
    FieldThrough(typed, one, two, named, foot', sectorSize, xferSize);
  }

  lemma FieldThrough(typed: seq<byte>, one: seq<byte>, two: seq<byte>, named: seq<byte>, foot': seq<byte>, a: uint32, b: uint32)
    requires |typed| == FOOTER_SIZE && one == Put(typed, 112, Bytes32(a)) && two == Put(one, 116, Bytes32(b))
    requires |named| == |foot'| == FOOTER_SIZE && forall i :: 112 <= i < 120 ==> foot'[i] == named[i] == two[i]
    ensures U32At(foot', 112) == a && U32At(foot', 116) == b
  {
    U32Put(typed, 112, a);
    U32Put(one, 116, b);
    U32Kept(one, 116, Bytes32(b), 112);
  }

  /** What a new footer says, besides the constants: the host's clock and the two values
      the creation routine derives elsewhere. */
  datatype Stamp = Stamp(time: uint32, chs: uint32, uuid: seq<byte>)

  const SIMH: seq<byte> := [0x73, 0x69, 0x6D, 0x68] // "simh"
  const WI2K: seq<byte> := [0x57, 0x69, 0x32, 0x6B] // "Wi2k"

  /** Everything of a new footer up to the two sizes. */
  function FooterHead(dataOffset: uint64, time: uint32): (r: seq<byte>)
    ensures |r| == FOOTER_SIZE
  {
    var cookie := Put(Put(Zeros(FOOTER_SIZE), 0, COOKIE), 8, Bytes32(2) + Bytes32(0x1_0000));
    var stamped := Put(Put(cookie, F_DATA_OFFSET, Bytes64(dataOffset)), 24, Bytes32(time));
    Put(Put(stamped, 28, SIMH + Bytes32(0x4_0000)), 36, WI2K)
  }

  function UnsealedFooter(size: uint64, diskType: uint32, at: Stamp): seq<byte>
    requires |at.uuid| == 16
  {
    var head := FooterHead(if diskType == DT_FIXED then W64 - 1 else FOOTER_SIZE, at.time);
    var sized := Put(Put(head, 40, Bytes64(size)), F_CURRENT_SIZE, Bytes64(size));
    Put(Put(Put(sized, 56, Bytes32(at.chs)), F_DISK_TYPE, Bytes32(diskType)), F_UNIQUE_ID, at.uuid)
  }

  /** The footer sim_CreateVirtualDisk builds. */
  function NewFooter(size: uint64, diskType: uint32, at: Stamp): seq<byte>
    requires |at.uuid| == 16
  {
    Seal(UnsealedFooter(size, diskType, at), F_CHECKSUM)
  }

  lemma FooterHeadFields(dataOffset: uint64, time: uint32)
    ensures var head := FooterHead(dataOffset, time);
      |head| == FOOTER_SIZE && head[..8] == COOKIE && U64At(head, F_DATA_OFFSET) == dataOffset && head[F_SAVED_STATE] == 0
  {
    hide U64At, U32At;
    var a := Put(Put(Zeros(FOOTER_SIZE), 0, COOKIE), 8, Bytes32(2) + Bytes32(0x1_0000));
    var b := Put(a, F_DATA_OFFSET, Bytes64(dataOffset));
    var c := Put(b, 24, Bytes32(time));
    var d := Put(c, 28, SIMH + Bytes32(0x4_0000));
    U64Put(a, F_DATA_OFFSET, dataOffset);
    U64Kept(b, 24, Bytes32(time), F_DATA_OFFSET);
    U64Kept(c, 28, SIMH + Bytes32(0x4_0000), F_DATA_OFFSET);
    U64Kept(d, 36, WI2K, F_DATA_OFFSET);
  }

  lemma UnsealedFooterFields(size: uint64, diskType: uint32, at: Stamp)
    requires |at.uuid| == 16
    ensures var foot := UnsealedFooter(size, diskType, at);
      && |foot| == FOOTER_SIZE && foot[..8] == COOKIE && foot[F_SAVED_STATE] == 0
      && U64At(foot, F_DATA_OFFSET) == (if diskType == DT_FIXED then W64 - 1 else FOOTER_SIZE)
      && U64At(foot, F_CURRENT_SIZE) == size && DiskType(foot) == diskType
  {
    hide U64At, U32At, FooterHead;
    var dataOffset := if diskType == DT_FIXED then W64 - 1 else FOOTER_SIZE;
    FooterHeadFields(dataOffset, at.time);
    var a := FooterHead(dataOffset, at.time);
    var b := Put(a, 40, Bytes64(size));
    var c := Put(b, F_CURRENT_SIZE, Bytes64(size));
    var d := Put(c, 56, Bytes32(at.chs));
    var e := Put(d, F_DISK_TYPE, Bytes32(diskType));
    U64Kept(a, 40, Bytes64(size), F_DATA_OFFSET);
    U64Kept(b, F_CURRENT_SIZE, Bytes64(size), F_DATA_OFFSET);
    U64Kept(c, 56, Bytes32(at.chs), F_DATA_OFFSET);
    U64Kept(d, F_DISK_TYPE, Bytes32(diskType), F_DATA_OFFSET);
    U64Kept(e, F_UNIQUE_ID, at.uuid, F_DATA_OFFSET);
    U64Put(b, F_CURRENT_SIZE, size);
    U64Kept(c, 56, Bytes32(at.chs), F_CURRENT_SIZE);
    U64Kept(d, F_DISK_TYPE, Bytes32(diskType), F_CURRENT_SIZE);
    U64Kept(e, F_UNIQUE_ID, at.uuid, F_CURRENT_SIZE);
    U32Put(d, F_DISK_TYPE, diskType);
    U32Kept(e, F_UNIQUE_ID, at.uuid, F_DISK_TYPE);
  }

  lemma NewFooterOk(size: uint64, diskType: uint32, at: Stamp)
    requires |at.uuid| == 16
    ensures var foot := NewFooter(size, diskType, at);
      FooterOk(foot) && U64At(foot, F_CURRENT_SIZE) == size && DiskType(foot) == diskType && foot[F_SAVED_STATE] == 0
  {
    var foot := UnsealedFooter(size, diskType, at);
    UnsealedFooterFields(size, diskType, at);
    SealIsOk(foot, F_CHECKSUM);
    EarlyFieldsKept(foot, Seal(foot, F_CHECKSUM));
  }

  /** The dynamic header sim_CreateVirtualDisk builds. */
  function UnsealedDynamic(table: uint64, entries: uint32, bs: uint32): seq<byte> {
    Put(Put(Put(Put(Put(Put(Zeros(DYNAMIC_SIZE), 0, DYN_COOKIE), 8, Bytes64(W64 - 1)),
        D_TABLE_OFFSET, Bytes64(table)), 24, Bytes32(0x1_0000)), D_MAX_ENTRIES, Bytes32(entries)), D_BLOCK_SIZE, Bytes32(bs))
  }

  function NewDynamic(table: uint64, entries: uint32, bs: uint32): (r: seq<byte>)
    ensures |r| == DYNAMIC_SIZE
  {
    Seal(UnsealedDynamic(table, entries, bs), D_CHECKSUM)
  }

  predicate DynamicFields(dyn: seq<byte>, table: uint64, entries: uint32, bs: uint32) {
    && |dyn| == DYNAMIC_SIZE && dyn[..8] == DYN_COOKIE
    && U64At(dyn, D_TABLE_OFFSET) == table && U32At(dyn, D_MAX_ENTRIES) == entries && U32At(dyn, D_BLOCK_SIZE) == bs
  }

  lemma UnsealedDynamicFields(table: uint64, entries: uint32, bs: uint32)
    ensures DynamicFields(UnsealedDynamic(table, entries, bs), table, entries, bs)
  {
    hide U64At, U32At;
    var a := Put(Put(Zeros(DYNAMIC_SIZE), 0, DYN_COOKIE), 8, Bytes64(W64 - 1));
    var b := Put(a, D_TABLE_OFFSET, Bytes64(table));
    var c := Put(b, 24, Bytes32(0x1_0000));
    var d := Put(c, D_MAX_ENTRIES, Bytes32(entries));
    U64Put(a, D_TABLE_OFFSET, table);
    U64Kept(b, 24, Bytes32(0x1_0000), D_TABLE_OFFSET);
    U64Kept(c, D_MAX_ENTRIES, Bytes32(entries), D_TABLE_OFFSET);
    U64Kept(d, D_BLOCK_SIZE, Bytes32(bs), D_TABLE_OFFSET);
    U32Put(c, D_MAX_ENTRIES, entries);
    U32Kept(d, D_BLOCK_SIZE, Bytes32(bs), D_MAX_ENTRIES);
    U32Put(d, D_BLOCK_SIZE, bs);
  }

  /** A change behind the block size field keeps the fields and the seal can be renewed. */
  lemma DynamicResealed(dyn: seq<byte>, dyn': seq<byte>, table: uint64, entries: uint32, bs: uint32)
    requires DynamicFields(dyn, table, entries, bs) && |dyn'| == DYNAMIC_SIZE && dyn'[..D_CHECKSUM] == dyn[..D_CHECKSUM]
    ensures DynamicOk(Seal(dyn', D_CHECKSUM)) && DynamicFields(Seal(dyn', D_CHECKSUM), table, entries, bs)
  {
    SealIsOk(dyn', D_CHECKSUM);
    var sealed := Seal(dyn', D_CHECKSUM);
    forall i | 0 <= i < D_CHECKSUM ensures sealed[i] == dyn[i] {
      assert dyn'[..D_CHECKSUM][i] == dyn[..D_CHECKSUM][i];
    }
    assert sealed[..8] == dyn[..8];
  }
}
