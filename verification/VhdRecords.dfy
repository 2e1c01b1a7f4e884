/** The two records of the VHD format field by field, in the order of the structures they
    are declared as, and the records the creation routines put on a new disk. */
module VhdRecords {
  import opened Bytes
  import opened VhdLayout
  import opened VhdFormat
  import opened VhdOpen

  /** Words are stored most significant byte first. */
  lemma BigEndian(v: uint32)
    ensures var b := Bytes32(v);
      v == (b[0] as int) * 0x100_0000 + (b[1] as int) * 0x1_0000 + (b[2] as int) * 0x100 + (b[3] as int)
  {
    Word32OfBytes(v);
  }

  datatype FooterRecord = FooterRecord(
    cookie: seq<byte>, features: uint32, fileFormatVersion: uint32, dataOffset: uint64, timeStamp: uint32,
    creatorApplication: seq<byte>, creatorVersion: uint32, creatorHostOS: seq<byte>,
    originalSize: uint64, currentSize: uint64, diskGeometry: uint32, diskType: uint32, checksum: uint32,
    uniqueID: seq<byte>, savedState: byte, reserved1: seq<byte>,
    driveType: seq<byte>, driveSectorSize: uint32, driveTransferElementSize: uint32,
    creatingSimulator: seq<byte>, reserved: seq<byte>)
  {
    predicate Sized() {
      && |cookie| == 8 && |creatorApplication| == 4 && |creatorHostOS| == 4
      && |uniqueID| == 16 && |reserved1| == 11 && |driveType| == 16
      && |creatingSimulator| == 64 && |reserved| == 328
    }

    function Image(): (r: seq<byte>)
      requires Sized()
      ensures |r| == 512
    {
      cookie + Bytes32(features) + Bytes32(fileFormatVersion) + Bytes64(dataOffset) + Bytes32(timeStamp)
      + creatorApplication + Bytes32(creatorVersion) + creatorHostOS
      + Bytes64(originalSize) + Bytes64(currentSize) + Bytes32(diskGeometry) + Bytes32(diskType) + Bytes32(checksum)
      + uniqueID + [savedState] + reserved1
      + driveType + Bytes32(driveSectorSize) + Bytes32(driveTransferElementSize)
      + creatingSimulator + reserved
    }
  }

  /** The fields of a footer image, one window each. */
  ghost predicate FooterPieces(foot: seq<byte>, r: FooterRecord)
    requires |foot| == 512 && r.Sized()
  {
    && foot[..8] == r.cookie && foot[8..12] == Bytes32(r.features) && foot[12..16] == Bytes32(r.fileFormatVersion)
    && foot[16..24] == Bytes64(r.dataOffset) && foot[24..28] == Bytes32(r.timeStamp)
    && foot[28..32] == r.creatorApplication && foot[32..36] == Bytes32(r.creatorVersion) && foot[36..40] == r.creatorHostOS
    && foot[40..48] == Bytes64(r.originalSize) && foot[48..56] == Bytes64(r.currentSize)
    && foot[56..60] == Bytes32(r.diskGeometry) && foot[60..64] == Bytes32(r.diskType) && foot[64..68] == Bytes32(r.checksum)
    && foot[68..84] == r.uniqueID && foot[84..85] == [r.savedState] && foot[85..96] == r.reserved1
    && foot[96..112] == r.driveType && foot[112..116] == Bytes32(r.driveSectorSize)
    && foot[116..120] == Bytes32(r.driveTransferElementSize)
    && foot[120..184] == r.creatingSimulator && foot[184..512] == r.reserved
  }

  lemma Join(s: seq<byte>, p: seq<byte>, f: seq<byte>, n: nat)
    requires |p| + |f| == n <= |s| && s[..|p|] == p && s[|p|..n] == f
    ensures s[..n] == p + f
  {
    assert s[..n] == s[..|p|] + s[|p|..n];
  }

  lemma Peel(s: seq<byte>, n: nat, p: seq<byte>, f: seq<byte>)
    requires n <= |s| && s[..n] == p + f
    ensures s[..|p|] == p && s[|p|..n] == f
  {
    var t := s[..n];
    assert t[..|p|] == p && t[|p|..] == f;
    assert s[..|p|] == t[..|p|] && s[|p|..n] == t[|p|..];
  }

  lemma FooterOfPieces(foot: seq<byte>, r: FooterRecord)
    requires |foot| == 512 && r.Sized() && FooterPieces(foot, r)
    ensures foot == r.Image()
  {
    hide Bytes32, Bytes64;
    var p0 := r.cookie;
    var p1 := p0 + Bytes32(r.features);
    var p2 := p1 + Bytes32(r.fileFormatVersion);
    var p3 := p2 + Bytes64(r.dataOffset);
    var p4 := p3 + Bytes32(r.timeStamp);
    var p5 := p4 + r.creatorApplication;
    var p6 := p5 + Bytes32(r.creatorVersion);
    var p7 := p6 + r.creatorHostOS;
    var p8 := p7 + Bytes64(r.originalSize);
    var p9 := p8 + Bytes64(r.currentSize);
    var p10 := p9 + Bytes32(r.diskGeometry);
    var p11 := p10 + Bytes32(r.diskType);
    var p12 := p11 + Bytes32(r.checksum);
    var p13 := p12 + r.uniqueID;
    var p14 := p13 + [r.savedState];
    var p15 := p14 + r.reserved1;
    var p16 := p15 + r.driveType;
    var p17 := p16 + Bytes32(r.driveSectorSize);
    var p18 := p17 + Bytes32(r.driveTransferElementSize);
    var p19 := p18 + r.creatingSimulator;
    var p20 := p19 + r.reserved;
    Join(foot, p0, Bytes32(r.features), 12);
    Join(foot, p1, Bytes32(r.fileFormatVersion), 16);
    Join(foot, p2, Bytes64(r.dataOffset), 24);
    Join(foot, p3, Bytes32(r.timeStamp), 28);
    Join(foot, p4, r.creatorApplication, 32);
    Join(foot, p5, Bytes32(r.creatorVersion), 36);
    Join(foot, p6, r.creatorHostOS, 40);
    Join(foot, p7, Bytes64(r.originalSize), 48);
    Join(foot, p8, Bytes64(r.currentSize), 56);
    Join(foot, p9, Bytes32(r.diskGeometry), 60);
    Join(foot, p10, Bytes32(r.diskType), 64);
    Join(foot, p11, Bytes32(r.checksum), 68);
    Join(foot, p12, r.uniqueID, 84);
    Join(foot, p13, [r.savedState], 85);
    Join(foot, p14, r.reserved1, 96);
    Join(foot, p15, r.driveType, 112);
    Join(foot, p16, Bytes32(r.driveSectorSize), 116);
    Join(foot, p17, Bytes32(r.driveTransferElementSize), 120);
    Join(foot, p18, r.creatingSimulator, 184);
    Join(foot, p19, r.reserved, 512);
    assert foot[..512] == foot;
  }

  lemma PiecesOfFooter(r: FooterRecord)
    requires r.Sized()
    ensures FooterPieces(r.Image(), r)
  {
    hide Bytes32, Bytes64;
    var s := r.Image();
    var p0 := r.cookie;
    var p1 := p0 + Bytes32(r.features);
    var p2 := p1 + Bytes32(r.fileFormatVersion);
    var p3 := p2 + Bytes64(r.dataOffset);
    var p4 := p3 + Bytes32(r.timeStamp);
    var p5 := p4 + r.creatorApplication;
    var p6 := p5 + Bytes32(r.creatorVersion);
    var p7 := p6 + r.creatorHostOS;
    var p8 := p7 + Bytes64(r.originalSize);
    var p9 := p8 + Bytes64(r.currentSize);
    var p10 := p9 + Bytes32(r.diskGeometry);
    var p11 := p10 + Bytes32(r.diskType);
    var p12 := p11 + Bytes32(r.checksum);
    var p13 := p12 + r.uniqueID;
    var p14 := p13 + [r.savedState];
    var p15 := p14 + r.reserved1;
    var p16 := p15 + r.driveType;
    var p17 := p16 + Bytes32(r.driveSectorSize);
    var p18 := p17 + Bytes32(r.driveTransferElementSize);
    var p19 := p18 + r.creatingSimulator;
    var p20 := p19 + r.reserved;
    assert s[..512] == s == p20;
    Peel(s, 512, p19, r.reserved);
    Peel(s, 184, p18, r.creatingSimulator);
    Peel(s, 120, p17, Bytes32(r.driveTransferElementSize));
    Peel(s, 116, p16, Bytes32(r.driveSectorSize));
    Peel(s, 112, p15, r.driveType);
    Peel(s, 96, p14, r.reserved1);
    Peel(s, 85, p13, [r.savedState]);
    Peel(s, 84, p12, r.uniqueID);
    Peel(s, 68, p11, Bytes32(r.checksum));
    Peel(s, 64, p10, Bytes32(r.diskType));
    Peel(s, 60, p9, Bytes32(r.diskGeometry));
    Peel(s, 56, p8, Bytes64(r.currentSize));
    Peel(s, 48, p7, Bytes64(r.originalSize));
    Peel(s, 40, p6, r.creatorHostOS);
    Peel(s, 36, p5, Bytes32(r.creatorVersion));
    Peel(s, 32, p4, r.creatorApplication);
    Peel(s, 28, p3, Bytes32(r.timeStamp));
    Peel(s, 24, p2, Bytes64(r.dataOffset));
    Peel(s, 16, p1, Bytes32(r.fileFormatVersion));
    Peel(s, 12, p0, Bytes32(r.features));
  }

  /** The fields read from a footer are those declared for them. */
  lemma FooterReads(r: FooterRecord, dyn: seq<byte>)
    requires r.Sized()
    ensures var foot := r.Image();
      && U64At(foot, F_DATA_OFFSET) == r.dataOffset && GeometryOf(foot, dyn).size == r.currentSize
      && DiskType(foot) == r.diskType && foot[F_SAVED_STATE] == r.savedState && UniqueId(foot) == r.uniqueID
  {
    hide U32At, U64At, Bytes32, Bytes64, FooterRecord.Image;
    var foot := r.Image();
    PiecesOfFooter(r);
    U64Of(foot, 16, r.dataOffset);
    U64Of(foot, 48, r.currentSize);
    U32Of(foot, 60, r.diskType);
    assert UniqueId(foot) == foot[68..84];
  }

  /** A footer is accepted exactly if its checksum is that of the record with a zero in its
      place, its cookie is the format's, and its data offset fits its type. */
  lemma FooterAcceptedAs(r: FooterRecord)
    requires r.Sized()
    ensures FooterOk(r.Image()) <==>
      && r.checksum == Checksum(r.(checksum := 0).Image()) && r.cookie == BytesOf("conectix")
      && r.dataOffset == if r.diskType == 2 then 0xFFFF_FFFF_FFFF_FFFF else 512
  {
    hide U32At, U64At, Bytes64, FooterRecord.Image, ByteSum;
    var foot := r.Image();
    PiecesOfFooter(r);
    FooterReads(r, foot);
    U32Of(foot, 64, r.checksum);
    var zeroed := Put(foot, F_CHECKSUM, Zeros(4));
    assert Bytes32(0) == Zeros(4);
    assert FooterPieces(zeroed, r.(checksum := 0));
    FooterOfPieces(zeroed, r.(checksum := 0));
  }

  /** The record with the checksum of its other fields. */
  function SealedFooter(r: FooterRecord): FooterRecord
    requires r.Sized()
  {
    r.(checksum := Checksum(r.(checksum := 0).Image()))
  }

  lemma SealedFooterIs(r: FooterRecord)
    requires r.Sized()
    ensures Seal(r.Image(), F_CHECKSUM) == SealedFooter(r).Image()
  {
    hide Bytes32, Bytes64, FooterRecord.Image, Checksum;
    var foot := r.Image();
    PiecesOfFooter(r);
    NoNumber();
    var zeroed := Put(foot, F_CHECKSUM, Zeros(4));
    assert FooterPieces(zeroed, r.(checksum := 0));
    FooterOfPieces(zeroed, r.(checksum := 0));
    var sealed := Seal(foot, F_CHECKSUM);
    assert FooterPieces(sealed, SealedFooter(r));
    FooterOfPieces(sealed, SealedFooter(r));
  }

  function BlankFooter(dataOffset: uint64, time: uint32): FooterRecord {
    FooterRecord(BytesOf("conectix"), 2, 0x1_0000, dataOffset, time, BytesOf("simh"), 0x4_0000, BytesOf("Wi2k"),
                 0, 0, 0, 0, 0, Zeros(16), 0, Zeros(11), Zeros(16), 0, 0, Zeros(64), Zeros(328))
  }

  /** The footer of a disk just created. */
  function FirstFooter(size: uint64, diskType: uint32, at: Stamp): FooterRecord {
    BlankFooter(if diskType == 2 then 0xFFFF_FFFF_FFFF_FFFF else 512, at.time).(
      originalSize := size, currentSize := size, diskGeometry := at.chs, diskType := diskType, uniqueID := at.uuid)
  }

  lemma NoNumber()
    ensures Bytes32(0) == Zeros(4) && Bytes64(0) == Zeros(8)
  {
  }

  lemma FooterCookie(cookie: seq<byte>)
    requires cookie == Put(Put(Zeros(FOOTER_SIZE), 0, COOKIE), 8, Bytes32(2) + Bytes32(0x1_0000))
    ensures cookie[..8] == BytesOf("conectix") && cookie[8..12] == Bytes32(2) && cookie[12..16] == Bytes32(0x1_0000)
    ensures cookie[16..] == Zeros(496)
  {
    hide Bytes32;
  }

  lemma FooterStamped(cookie: seq<byte>, stamped: seq<byte>, dataOffset: uint64, time: uint32)
    requires |cookie| == FOOTER_SIZE && cookie[16..] == Zeros(496)
    requires stamped == Put(Put(cookie, F_DATA_OFFSET, Bytes64(dataOffset)), 24, Bytes32(time))
    ensures stamped[..16] == cookie[..16] && stamped[16..24] == Bytes64(dataOffset) && stamped[24..28] == Bytes32(time)
    ensures stamped[28..] == Zeros(484)
  {
    hide Bytes32, Bytes64;
    forall i | 28 <= i < 512 ensures stamped[i] == 0 {
      assert stamped[i] == cookie[i] == cookie[16..][i - 16];
    }
  }

  lemma FooterNamed(stamped: seq<byte>, head: seq<byte>)
    requires |stamped| == FOOTER_SIZE && stamped[28..] == Zeros(484)
    requires head == Put(Put(stamped, 28, SIMH + Bytes32(0x4_0000)), 36, WI2K)
    ensures head[28..32] == BytesOf("simh") && head[32..36] == Bytes32(0x4_0000) && head[36..40] == BytesOf("Wi2k")
    ensures head[..28] == stamped[..28] && head[40..] == Zeros(472)
  {
    hide Bytes32;
    assert head[28..32] == SIMH && head[36..40] == WI2K;
    forall i | 40 <= i < 512 ensures head[i] == 0 {
      assert head[i] == stamped[i] == stamped[28..][i - 28];
    }
  }

  lemma FooterHeadIs(dataOffset: uint64, time: uint32)
    ensures FooterPieces(FooterHead(dataOffset, time), BlankFooter(dataOffset, time))
  {
    NoNumber();
    hide Bytes32, Bytes64;
    var cookie := Put(Put(Zeros(FOOTER_SIZE), 0, COOKIE), 8, Bytes32(2) + Bytes32(0x1_0000));
    var stamped := Put(Put(cookie, F_DATA_OFFSET, Bytes64(dataOffset)), 24, Bytes32(time));
    var head := Put(Put(stamped, 28, SIMH + Bytes32(0x4_0000)), 36, WI2K);
    FooterCookie(cookie);
    FooterStamped(cookie, stamped, dataOffset, time);
    FooterNamed(stamped, head);
    hide Put;
    assert head == FooterHead(dataOffset, time);
    hide FooterHead;
    ThreeParts(cookie, stamped, head, dataOffset, time);
  }

  lemma ThreeParts(cookie: seq<byte>, stamped: seq<byte>, head: seq<byte>, dataOffset: uint64, time: uint32)
    requires |cookie| == |stamped| == |head| == FOOTER_SIZE
    requires cookie[..8] == BytesOf("conectix") && cookie[8..12] == Bytes32(2) && cookie[12..16] == Bytes32(0x1_0000)
    requires stamped[..16] == cookie[..16] && stamped[16..24] == Bytes64(dataOffset) && stamped[24..28] == Bytes32(time)
    requires head[28..32] == BytesOf("simh") && head[32..36] == Bytes32(0x4_0000) && head[36..40] == BytesOf("Wi2k")
    requires head[..28] == stamped[..28] && head[40..] == Zeros(472)
    ensures FooterPieces(head, BlankFooter(dataOffset, time))
  {
    NoNumber();
    hide Bytes32, Bytes64;
    forall i | 0 <= i < 28 ensures head[i] == stamped[i] {
      assert head[..28][i] == stamped[..28][i];
    }
    forall i | 0 <= i < 16 ensures stamped[i] == cookie[i] {
      assert stamped[..16][i] == cookie[..16][i];
    }
    forall i | 40 <= i < 512 ensures head[i] == 0 {
      assert head[i] == head[40..][i - 40];
    }
  }

  lemma SizesPut(head: seq<byte>, r: FooterRecord, size: uint64)
    requires |head| == 512 && r.Sized() && FooterPieces(head, r)
    ensures FooterPieces(Put(Put(head, 40, Bytes64(size)), F_CURRENT_SIZE, Bytes64(size)), r.(originalSize := size, currentSize := size))
  {
    hide Bytes32, Bytes64;
  }

  lemma IdentityPut(sized: seq<byte>, r: FooterRecord, chs: uint32, diskType: uint32, uuid: seq<byte>)
    requires |sized| == 512 && r.Sized() && FooterPieces(sized, r) && |uuid| == 16
    ensures FooterPieces(Put(Put(Put(sized, 56, Bytes32(chs)), F_DISK_TYPE, Bytes32(diskType)), F_UNIQUE_ID, uuid),
                         r.(diskGeometry := chs, diskType := diskType, uniqueID := uuid))
  {
    hide Bytes32, Bytes64;
  }

  lemma NewFooterIs(size: uint64, diskType: uint32, at: Stamp)
    requires |at.uuid| == 16
    ensures NewFooter(size, diskType, at) == SealedFooter(FirstFooter(size, diskType, at)).Image()
  {
    hide Bytes32, Bytes64, FooterRecord.Image, Checksum, Seal, SealedFooter, FooterHead, FooterPieces, Put;
    var dataOffset := if diskType == 2 then 0xFFFF_FFFF_FFFF_FFFF else 512;
    var r := FirstFooter(size, diskType, at);
    var foot := UnsealedFooter(size, diskType, at);
    FooterHeadIs(dataOffset, at.time);
    SizesPut(FooterHead(dataOffset, at.time), BlankFooter(dataOffset, at.time), size);
    var sized := Put(Put(FooterHead(dataOffset, at.time), 40, Bytes64(size)), F_CURRENT_SIZE, Bytes64(size));
    IdentityPut(sized, BlankFooter(dataOffset, at.time).(originalSize := size, currentSize := size), at.chs, diskType, at.uuid);
    FooterOfPieces(foot, r);
    SealedFooterIs(r);
  }

  lemma RetypedIs(r: FooterRecord, dtype: seq<byte>, sectorSize: uint32, xferSize: uint32, simName: seq<byte>)
    requires r.Sized()
    ensures Retyped(r.Image(), dtype, sectorSize, xferSize, simName) ==
      SealedFooter(r.(driveType := Window(dtype, 0, 16), driveSectorSize := sectorSize,
        driveTransferElementSize := xferSize, creatingSimulator := Window(simName, 0, 63) + [0])).Image()
  {
    hide Bytes32, Bytes64, FooterRecord.Image, Checksum, Seal, SealedFooter;
    var foot := r.Image();
    PiecesOfFooter(r);
    var r' := r.(driveType := Window(dtype, 0, 16), driveSectorSize := sectorSize,
      driveTransferElementSize := xferSize, creatingSimulator := Window(simName, 0, 63) + [0]);
    var typed := Put(foot, F_DRIVE_TYPE, Window(dtype, 0, 16));
    var sized := Put(Put(typed, 112, Bytes32(sectorSize)), 116, Bytes32(xferSize));
    var named := Put(sized, F_CREATING_SIMULATOR, Window(simName, 0, 63) + [0]);
    assert FooterPieces(named, r');
    FooterOfPieces(named, r');
    SealedFooterIs(r');
  }

  lemma ChildFooterIs(r: FooterRecord, parent: FooterRecord)
    requires r.Sized() && parent.Sized()
    ensures ChildFooter(r.Image(), parent.Image()) ==
      SealedFooter(r.(diskType := 4, driveType := parent.driveType, driveSectorSize := parent.driveSectorSize,
        driveTransferElementSize := parent.driveTransferElementSize)).Image()
  {
    hide Bytes32, Bytes64, FooterRecord.Image, Checksum, Seal, SealedFooter;
    var foot, over := r.Image(), parent.Image();
    PiecesOfFooter(r);
    PiecesOfFooter(parent);
    var r' := r.(diskType := 4, driveType := parent.driveType, driveSectorSize := parent.driveSectorSize,
      driveTransferElementSize := parent.driveTransferElementSize);
    var copied := Put(Put(foot, F_DISK_TYPE, Bytes32(DT_DIFFERENCING)), F_DRIVE_TYPE, over[F_DRIVE_TYPE..F_CREATING_SIMULATOR]);
    assert FooterPieces(copied, r');
    FooterOfPieces(copied, r');
    SealedFooterIs(r');
  }

  datatype LocatorRecord = LocatorRecord(
    platformCode: seq<byte>, platformDataSpace: uint32, platformDataLength: uint32, reserved: uint32, platformDataOffset: uint64)
  {
    function Image(): (r: seq<byte>)
      requires |platformCode| == 4
      ensures |r| == 24
    {
      platformCode + Bytes32(platformDataSpace) + Bytes32(platformDataLength) + Bytes32(reserved) + Bytes64(platformDataOffset)
    }
  }

  datatype DynamicRecord = DynamicRecord(
    cookie: seq<byte>, dataOffset: uint64, tableOffset: uint64, headerVersion: uint32,
    maxTableEntries: uint32, blockSize: uint32, checksum: uint32,
    parentUniqueID: seq<byte>, parentTimeStamp: seq<byte>, reserved0: seq<byte>, parentUnicodeName: seq<byte>,
    locator0: LocatorRecord, locator1: LocatorRecord, otherLocators: seq<byte>, reserved: seq<byte>)
  {
    predicate Sized() {
      && |cookie| == 8 && |parentUniqueID| == 16 && |parentTimeStamp| == 4 && |reserved0| == 4 && |parentUnicodeName| == 512
      && |locator0.platformCode| == |locator1.platformCode| == 4 && |otherLocators| == 144 && |reserved| == 256
    }

    function Image(): (r: seq<byte>)
      requires Sized()
      ensures |r| == 1024
    {
      cookie + Bytes64(dataOffset) + Bytes64(tableOffset) + Bytes32(headerVersion)
      + Bytes32(maxTableEntries) + Bytes32(blockSize) + Bytes32(checksum)
      + parentUniqueID + parentTimeStamp + reserved0 + parentUnicodeName
      + locator0.Image() + locator1.Image() + otherLocators + reserved
    }
  }

  ghost predicate DynamicPieces(dyn: seq<byte>, r: DynamicRecord)
    requires |dyn| == 1024 && r.Sized()
  {
    && dyn[..8] == r.cookie && dyn[8..16] == Bytes64(r.dataOffset) && dyn[16..24] == Bytes64(r.tableOffset)
    && dyn[24..28] == Bytes32(r.headerVersion) && dyn[28..32] == Bytes32(r.maxTableEntries)
    && dyn[32..36] == Bytes32(r.blockSize) && dyn[36..40] == Bytes32(r.checksum)
    && dyn[40..56] == r.parentUniqueID && dyn[56..60] == r.parentTimeStamp && dyn[60..64] == r.reserved0
    && dyn[64..576] == r.parentUnicodeName
    && dyn[576..600] == r.locator0.Image() && dyn[600..624] == r.locator1.Image()
    && dyn[624..768] == r.otherLocators && dyn[768..1024] == r.reserved
  }

  lemma DynamicOfPieces(dyn: seq<byte>, r: DynamicRecord)
    requires |dyn| == 1024 && r.Sized() && DynamicPieces(dyn, r)
    ensures dyn == r.Image()
  {
    hide Bytes32, Bytes64, LocatorRecord.Image;
    var p0 := r.cookie;
    var p1 := p0 + Bytes64(r.dataOffset);
    var p2 := p1 + Bytes64(r.tableOffset);
    var p3 := p2 + Bytes32(r.headerVersion);
    var p4 := p3 + Bytes32(r.maxTableEntries);
    var p5 := p4 + Bytes32(r.blockSize);
    var p6 := p5 + Bytes32(r.checksum);
    var p7 := p6 + r.parentUniqueID;
    var p8 := p7 + r.parentTimeStamp;
    var p9 := p8 + r.reserved0;
    var p10 := p9 + r.parentUnicodeName;
    var p11 := p10 + r.locator0.Image();
    var p12 := p11 + r.locator1.Image();
    var p13 := p12 + r.otherLocators;
    var p14 := p13 + r.reserved;
    Join(dyn, p0, Bytes64(r.dataOffset), 16);
    Join(dyn, p1, Bytes64(r.tableOffset), 24);
    Join(dyn, p2, Bytes32(r.headerVersion), 28);
    Join(dyn, p3, Bytes32(r.maxTableEntries), 32);
    Join(dyn, p4, Bytes32(r.blockSize), 36);
    Join(dyn, p5, Bytes32(r.checksum), 40);
    Join(dyn, p6, r.parentUniqueID, 56);
    Join(dyn, p7, r.parentTimeStamp, 60);
    Join(dyn, p8, r.reserved0, 64);
    Join(dyn, p9, r.parentUnicodeName, 576);
    Join(dyn, p10, r.locator0.Image(), 600);
    Join(dyn, p11, r.locator1.Image(), 624);
    Join(dyn, p12, r.otherLocators, 768);
    Join(dyn, p13, r.reserved, 1024);
    assert dyn[..1024] == dyn;
  }

  lemma PiecesOfDynamic(r: DynamicRecord)
    requires r.Sized()
    ensures DynamicPieces(r.Image(), r)
  {
    hide Bytes32, Bytes64, LocatorRecord.Image;
    var s := r.Image();
    var p0 := r.cookie;
    var p1 := p0 + Bytes64(r.dataOffset);
    var p2 := p1 + Bytes64(r.tableOffset);
    var p3 := p2 + Bytes32(r.headerVersion);
    var p4 := p3 + Bytes32(r.maxTableEntries);
    var p5 := p4 + Bytes32(r.blockSize);
    var p6 := p5 + Bytes32(r.checksum);
    var p7 := p6 + r.parentUniqueID;
    var p8 := p7 + r.parentTimeStamp;
    var p9 := p8 + r.reserved0;
    var p10 := p9 + r.parentUnicodeName;
    var p11 := p10 + r.locator0.Image();
    var p12 := p11 + r.locator1.Image();
    var p13 := p12 + r.otherLocators;
    var p14 := p13 + r.reserved;
    assert s[..1024] == s == p14;
    Peel(s, 1024, p13, r.reserved);
    Peel(s, 768, p12, r.otherLocators);
    Peel(s, 624, p11, r.locator1.Image());
    Peel(s, 600, p10, r.locator0.Image());
    Peel(s, 576, p9, r.parentUnicodeName);
    Peel(s, 64, p8, r.reserved0);
    Peel(s, 60, p7, r.parentTimeStamp);
    Peel(s, 56, p6, r.parentUniqueID);
    Peel(s, 40, p5, Bytes32(r.checksum));
    Peel(s, 36, p4, Bytes32(r.blockSize));
    Peel(s, 32, p3, Bytes32(r.maxTableEntries));
    Peel(s, 28, p2, Bytes32(r.headerVersion));
    Peel(s, 24, p1, Bytes64(r.tableOffset));
    Peel(s, 16, p0, Bytes64(r.dataOffset));
  }

  /** The fields read from a dynamic header are those declared for them. */
  lemma DynamicReads(r: DynamicRecord, foot: seq<byte>)
    requires r.Sized()
    ensures var dyn := r.Image(); var g := GeometryOf(foot, dyn);
      && g.bs == r.blockSize && g.entries == r.maxTableEntries && g.table == r.tableOffset
      && ParentId(dyn) == r.parentUniqueID && Window(dyn, D_PARENT_TIME, 4) == r.parentTimeStamp
  {
    hide U32At, U64At, Bytes32, Bytes64, DynamicRecord.Image;
    var dyn := r.Image();
    PiecesOfDynamic(r);
    U64Of(dyn, 16, r.tableOffset);
    U32Of(dyn, 28, r.maxTableEntries);
    U32Of(dyn, 32, r.blockSize);
    assert ParentId(dyn) == dyn[40..56] && Window(dyn, 56, 4) == dyn[56..60];
  }

  lemma DynamicAcceptedAs(r: DynamicRecord)
    requires r.Sized()
    ensures DynamicOk(r.Image()) <==>
      r.checksum == Checksum(r.(checksum := 0).Image()) && r.cookie == BytesOf("cxsparse")
  {
    hide U32At, U64At, Bytes32, Bytes64, DynamicRecord.Image, LocatorRecord.Image, Checksum;
    var dyn := r.Image();
    PiecesOfDynamic(r);
    U32Of(dyn, 36, r.checksum);
    NoNumber();
    var zeroed := Put(dyn, D_CHECKSUM, Zeros(4));
    assert DynamicPieces(zeroed, r.(checksum := 0));
    DynamicOfPieces(zeroed, r.(checksum := 0));
  }

  function SealedDynamic(r: DynamicRecord): DynamicRecord
    requires r.Sized()
  {
    r.(checksum := Checksum(r.(checksum := 0).Image()))
  }

  lemma SealedDynamicIs(r: DynamicRecord)
    requires r.Sized()
    ensures Seal(r.Image(), D_CHECKSUM) == SealedDynamic(r).Image()
  {
    hide Bytes32, Bytes64, DynamicRecord.Image, LocatorRecord.Image, Checksum;
    var dyn := r.Image();
    PiecesOfDynamic(r);
    NoNumber();
    var zeroed := Put(dyn, D_CHECKSUM, Zeros(4));
    assert DynamicPieces(zeroed, r.(checksum := 0));
    DynamicOfPieces(zeroed, r.(checksum := 0));
    var sealed := Seal(dyn, D_CHECKSUM);
    assert DynamicPieces(sealed, SealedDynamic(r));
    DynamicOfPieces(sealed, SealedDynamic(r));
  }

  function BlankLocator(): LocatorRecord { LocatorRecord(Zeros(4), 0, 0, 0, 0) }

  /** The dynamic header of a disk just created. */
  function FirstDynamic(table: uint64, entries: uint32, bs: uint32): DynamicRecord {
    DynamicRecord(BytesOf("cxsparse"), 0xFFFF_FFFF_FFFF_FFFF, table, 0x1_0000, entries, bs, 0,
                  Zeros(16), Zeros(4), Zeros(4), Zeros(512), BlankLocator(), BlankLocator(), Zeros(144), Zeros(256))
  }

  lemma OffsetsPut(table: uint64, front: seq<byte>)
    requires front == Put(Put(Put(Zeros(DYNAMIC_SIZE), 0, DYN_COOKIE), 8, Bytes64(W64 - 1)), D_TABLE_OFFSET, Bytes64(table))
    ensures DynamicPieces(front, FirstDynamic(table, 0, 0).(headerVersion := 0))
  {
    NoNumber();
    hide Bytes32, Bytes64;
    assert BlankLocator().Image() == Zeros(24);
    assert front[..8] == DYN_COOKIE == BytesOf("cxsparse");
    forall i | 24 <= i < 1024 ensures front[i] == 0 {
    }
    hide LocatorRecord.Image, Put;
  }

  lemma CountsPut(front: seq<byte>, r: DynamicRecord, entries: uint32, bs: uint32)
    requires |front| == 1024 && r.Sized() && DynamicPieces(front, r)
    ensures DynamicPieces(Put(Put(Put(front, 24, Bytes32(0x1_0000)), D_MAX_ENTRIES, Bytes32(entries)), D_BLOCK_SIZE, Bytes32(bs)),
                          r.(headerVersion := 0x1_0000, maxTableEntries := entries, blockSize := bs))
  {
    hide Bytes32, Bytes64, LocatorRecord.Image;
  }

  lemma NewDynamicIs(table: uint64, entries: uint32, bs: uint32)
    ensures NewDynamic(table, entries, bs) == SealedDynamic(FirstDynamic(table, entries, bs)).Image()
  {
    hide Bytes32, Bytes64, DynamicRecord.Image, Checksum, Seal, SealedDynamic, DynamicPieces, Put;
    var r := FirstDynamic(table, entries, bs);
    var front := Put(Put(Put(Zeros(DYNAMIC_SIZE), 0, DYN_COOKIE), 8, Bytes64(W64 - 1)), D_TABLE_OFFSET, Bytes64(table));
    OffsetsPut(table, front);
    CountsPut(front, FirstDynamic(table, 0, 0).(headerVersion := 0), entries, bs);
    DynamicOfPieces(UnsealedDynamic(table, entries, bs), r);
    SealedDynamicIs(r);
  }

  /** The header of a new differencing disk: that of the dynamic disk with the parent's
      identifier, time, name and locators filled in and the table moved to byte 4096. */
  lemma ChildHeaderIs(r: DynamicRecord, parentId: seq<byte>, path: ParentPath)
    requires r.Sized() && |parentId| == 16 && path.Ok()
    ensures ChildHeader(r.Image(), parentId, path) ==
      SealedDynamic(r.(tableOffset := 4096, parentUniqueID := parentId, parentTimeStamp := path.time,
        parentUnicodeName := Wide(path.full, 1),
        locator0 := LocatorRecord(BytesOf("W2ku"), 512, 2 * |path.full|, 0, 1536),
        locator1 := if path.relative.Some? then LocatorRecord(BytesOf("W2ru"), 512, 2 * |path.relative.value|, 0, 2048)
                    else r.locator1)).Image()
  {
    hide Bytes32, Bytes64, DynamicRecord.Image, Checksum, Seal, SealedDynamic, Wide;
    var dyn := r.Image();
    PiecesOfDynamic(r);
    var first := LocatorRecord(BytesOf("W2ku"), 512, 2 * |path.full|, 0, 1536);
    var second := if path.relative.Some? then LocatorRecord(BytesOf("W2ru"), 512, 2 * |path.relative.value|, 0, 2048) else r.locator1;
    var r' := r.(tableOffset := 4096, parentUniqueID := parentId, parentTimeStamp := path.time,
      parentUnicodeName := Wide(path.full, 1), locator0 := first, locator1 := second);
    LocatorCodes();
    assert first.Image() == LocatorEntry(W2KU, 2 * |path.full|, LOCATOR);
    assert path.relative.Some? ==> second.Image() == LocatorEntry(W2RU, 2 * |path.relative.value|, LOCATOR + SECTOR);
    hide LocatorEntry, LocatorRecord.Image;
    var moved := Put(WithParent(dyn, parentId, path), D_TABLE_OFFSET, Bytes64(4096));
    assert DynamicPieces(moved, r');
    DynamicOfPieces(moved, r');
    SealedDynamicIs(r');
  }

  lemma LocatorCodes()
    ensures W2KU == BytesOf("W2ku") && W2RU == BytesOf("W2ru")
  {
  }
}
