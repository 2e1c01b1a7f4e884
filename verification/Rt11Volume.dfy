/** An RT-11 volume as it lies on a disk, word by word, and the size found for it. */
module Rt11Volume {
  import opened Bytes
  import opened Options
  import opened Rt11

  type word = x: int | 0 <= x < 0x10000

  function Word(v: word): (r: seq<byte>)
    ensures |r| == 2
  {
    [v % 0x100, v / 0x100]
  }

  /** A directory entry: what kind of area, its name in three words, its blocks. */
  datatype Entry = Entry(status: word, name1: word, name2: word, fileType: word, length: word,
                         jobChannel: word, creationDate: word, extra: seq<byte>)
  {
    function Image(): (r: seq<byte>)
      ensures |r| == 14 + |extra|
    {
      Word(status) + Word(name1) + Word(name2) + Word(fileType) + Word(length) + Word(jobChannel) + Word(creationDate) + extra
    }
  }

  const END_MARK: word := 0x800 // octal 4000

  /** Entries and the end mark behind them. */
  function Images(entries: seq<Entry>): (r: seq<byte>)
    decreases |entries|
  {
    if entries == [] then Word(END_MARK) else entries[0].Image() + Images(entries[1..])
  }

  function Blocks(entries: seq<Entry>): nat
    decreases |entries|
  {
    if entries == [] then 0 else entries[0].length + Blocks(entries[1..])
  }

  /** The files of one directory segment, none of which is taken for an end mark. */
  predicate Listed(entries: seq<Entry>, extra: nat) {
    forall k :: 0 <= k < |entries| ==> |entries[k].extra| == extra && entries[k].status / 0x800 % 2 == 0
  }

  /** A segment: segments in all, next segment, highest segment in use, extra bytes of an
      entry and the block its first file begins at, then the entries. */
  function Segment(count: word, next: word, highest: word, extra: word, start: word, entries: seq<Entry>): seq<byte> {
    Word(count) + Word(next) + Word(highest) + Word(extra) + Word(start) + Images(entries)
  }

  lemma WordReads(s: seq<byte>, at: nat, v: word)
    requires at + 2 <= |s| && s[at..at + 2] == Word(v)
    ensures U16(s, at) == v
  {
    var w := s[at..at + 2];
    assert s[at] == w[0] && s[at + 1] == w[1];
  }

  lemma HeaderReads(count: word, next: word, highest: word, extra: word, start: word, entries: seq<Entry>, fill: seq<byte>)
    ensures var s := Segment(count, next, highest, extra, start, entries) + fill;
      Next(s) == next && TopSegment(s) == highest && EntrySize(s) == 14 + extra && Start(s) == start
      && s[10..] == Images(entries) + fill
  {
    hide U16, Word, Images;
    var s := Segment(count, next, highest, extra, start, entries) + fill;
    assert s[2..4] == Word(next) && s[4..6] == Word(highest) && s[6..8] == Word(extra) && s[8..10] == Word(start);
    WordReads(s, 2, next);
    WordReads(s, 4, highest);
    WordReads(s, 6, extra);
    WordReads(s, 8, start);
  }

  lemma EntryReads(s: seq<byte>, offset: nat, e: Entry)
    requires offset + 14 <= |s| && |e.extra| <= |s| - offset - 14 && s[offset..offset + 14 + |e.extra|] == e.Image()
    ensures U16(s, offset) == e.status && Length(s, offset) == e.length
  {
    hide U16, Word;
    var i := e.Image();
    assert i[..2] == Word(e.status) && i[8..10] == Word(e.length);
    var t := s[offset..offset + 14 + |e.extra|];
    assert s[offset] == t[0] && s[offset + 1] == t[1] && s[offset + 8] == t[8] && s[offset + 9] == t[9];
    assert s[offset..offset + 2] == i[..2] && s[offset + 8..offset + 10] == i[8..10];
    WordReads(s, offset, e.status);
    WordReads(s, offset + 8, e.length);
  }

  /** The walk over the entries of a segment adds up their blocks and stops at the end mark. */
  lemma {:induction false} EndOfEntries(s: seq<byte>, offset: nat, cur: nat, entries: seq<Entry>, fill: seq<byte>)
    requires |s| == 1024 && offset <= 1024 && s[offset..] == Images(entries) + fill
    requires Listed(entries, EntrySize(s) - 14)
    ensures EndFrom(s, offset, cur) == cur + Blocks(entries)
    decreases |entries|
  {
    hide U16, Word, Images, Length, EntrySize;
    if entries == [] {
      MarkStops(s, offset, fill);
    } else {
      FirstEntry(s, offset, entries, fill);
      EndOfEntries(s, offset + EntrySize(s), cur + entries[0].length, entries[1..], fill);
    }
  }

  lemma MarkStops(s: seq<byte>, offset: nat, fill: seq<byte>)
    requires |s| == 1024 && offset <= 1024 && s[offset..] == Images([]) + fill
    ensures !EntryAt(s, offset)
  {
    var rest := Images([]) + fill;
    assert s[offset..offset + 2] == rest[..2] == Word(END_MARK);
    WordReads(s, offset, END_MARK);
  }

  lemma FirstEntry(s: seq<byte>, offset: nat, entries: seq<Entry>, fill: seq<byte>)
    requires |s| == 1024 && offset <= 1024 && entries != [] && s[offset..] == Images(entries) + fill
    requires Listed(entries, EntrySize(s) - 14)
    ensures EntryAt(s, offset) && Length(s, offset) == entries[0].length
    ensures s[offset + EntrySize(s)..] == Images(entries[1..]) + fill && Listed(entries[1..], EntrySize(s) - 14)
  {
    hide U16, Word, Length, EntrySize;
    var rest := Images(entries) + fill;
    var e, size := entries[0], EntrySize(s);
    assert s[offset..offset + size] == rest[..size] == e.Image();
    EntryReads(s, offset, e);
    assert s[offset + size..] == rest[size..] == Images(entries[1..]) + fill;
  }

  lemma SegmentReads(s: seq<byte>, count: word, next: word, highest: word, extra: word, start: word, entries: seq<Entry>)
    requires |s| == 1024 && Segment(count, next, highest, extra, start, entries) <= s && Listed(entries, extra)
    ensures SegmentEnd(s) == start + Blocks(entries) && Next(s) == next && TopSegment(s) == highest
  {
    hide Segment, Images, Blocks, Listed, EndFrom, Next, TopSegment;
    var image := Segment(count, next, highest, extra, start, entries);
    var fill := s[|image|..];
    assert s == image + fill;
    HeaderReads(count, next, highest, extra, start, entries, fill);
    EndOfEntries(s, 10, start, entries, fill);
  }

  // ------------------------------------------------------------------ the volume

  /** A volume: where its directory and its first file begin, how many segments it has, the
      extra bytes of an entry, and the entries of each segment in use. */
  datatype Volume = Volume(first: word, start: word, count: word, extra: word, segments: seq<seq<Entry>>)

  /** All files, in the order of the directory. */
  function Files(segments: seq<seq<Entry>>): seq<Entry> {
    if segments == [] then [] else Files(segments[..|segments| - 1]) + segments[|segments| - 1]
  }

  /** The block behind the files of the first n segments. */
  function Behind(v: Volume, n: nat): nat
    requires n <= |v.segments|
  {
    v.start + Blocks(Files(v.segments[..n]))
  }

  lemma {:induction false} BlocksTogether(a: seq<Entry>, b: seq<Entry>)
    ensures Blocks(a + b) == Blocks(a) + Blocks(b)
  {
    if a == [] {
      assert a + b == b;
    } else {
      BlocksTogether(a[1..], b);
      assert (a + b)[1..] == a[1..] + b;
    }
  }

  lemma BehindNext(v: Volume, n: nat)
    requires n < |v.segments|
    ensures Behind(v, n + 1) == Behind(v, n) + Blocks(v.segments[n])
  {
    hide Blocks;
    assert v.segments[..n + 1][..n] == v.segments[..n];
    BlocksTogether(Files(v.segments[..n]), v.segments[n]);
  }

  /** Every segment holds its entries and the end mark, and all blocks have 16-bit numbers. */
  predicate Fits(v: Volume) {
    && 1 <= |v.segments| <= MAX_SEGMENT && Behind(v, |v.segments|) < 0x10000
    && forall n :: 0 <= n < |v.segments| ==> Listed(v.segments[n], v.extra) && 10 + |Images(v.segments[n])| <= 1024
  }

  /** Segment n, from 1, of a volume that fits: the files follow those of the segments
      before, and the first segment says how many are in use. */
  function SegmentOf(v: Volume, n: nat): seq<byte>
    requires 1 <= n <= |v.segments| <= MAX_SEGMENT && Behind(v, n - 1) < 0x10000
  {
    Segment(v.count, if n < |v.segments| then n + 1 else 0, if n == 1 then |v.segments| else 0, v.extra,
            Behind(v, n - 1), v.segments[n - 1])
  }

  lemma {:induction false} BehindGrows(v: Volume, m: nat, n: nat)
    requires m <= n <= |v.segments|
    ensures Behind(v, m) <= Behind(v, n)
  {
    hide Behind;
    if m < n {
      BehindGrows(v, m, n - 1);
      BehindNext(v, n - 1);
    }
  }

  /** The directory's segments are on the disk, two blocks each, whatever fills them up. */
  ghost predicate OnDisk(d: Directory, v: Volume)
    requires Fits(v)
  {
    d.first == v.first && forall n :: 1 <= n <= |v.segments| ==> SegmentOnDisk(d, v, n)
  }

  ghost predicate SegmentOnDisk(d: Directory, v: Volume, n: nat)
    requires Fits(v) && 1 <= n <= |v.segments|
  {
    BehindGrows(v, n - 1, |v.segments|);
    var block := d.disk(d.part * 0x10000 + v.first + 2 * (n - 1), 1024);
    && block.Some? && |block.value| == 1024
    && SegmentOf(v, n) <= block.value
  }

  lemma SegmentRead(d: Directory, v: Volume, n: nat)
    requires Fits(v) && OnDisk(d, v) && 1 <= n <= |v.segments| && Behind(v, n - 1) < 0x10000
    ensures Readable(d, n) && |SegmentBytes(d, n)| == 1024 && SegmentOf(v, n) <= SegmentBytes(d, n)
  {
    hide Fits, SegmentOf;
    assert SegmentOnDisk(d, v, n);
  }

  lemma FitsAt(v: Volume, n: nat)
    requires Fits(v) && 1 <= n <= |v.segments|
    ensures Behind(v, n - 1) <= Behind(v, n) < 0x10000 && |v.segments| <= MAX_SEGMENT
    ensures Behind(v, n) == Behind(v, n - 1) + Blocks(v.segments[n - 1]) && Listed(v.segments[n - 1], v.extra)
  {
    hide Behind, Listed, Blocks;
    BehindGrows(v, n, |v.segments|);
    BehindNext(v, n - 1);
  }

  lemma BytesFound(s: seq<byte>, v: Volume, n: nat)
    requires 1 <= n <= |v.segments| <= MAX_SEGMENT && Behind(v, n - 1) < 0x10000 && Listed(v.segments[n - 1], v.extra)
    requires |s| == 1024 && SegmentOf(v, n) <= s
    ensures SegmentEnd(s) == Behind(v, n - 1) + Blocks(v.segments[n - 1])
    ensures Next(s) == if n < |v.segments| then n + 1 else 0
    ensures n == 1 ==> TopSegment(s) == |v.segments|
  {
    hide Next, TopSegment, SegmentEnd, Blocks, Listed, Segment, Behind;
    SegmentReads(s, v.count, if n < |v.segments| then n + 1 else 0, if n == 1 then |v.segments| else 0,
                 v.extra, Behind(v, n - 1), v.segments[n - 1]);
  }

  /** What the walk finds in segment n. */
  lemma SegmentFound(d: Directory, v: Volume, n: nat)
    requires Fits(v) && OnDisk(d, v) && 1 <= n <= |v.segments|
    ensures Readable(d, n) && Sound(SegmentBytes(d, n)) && SegmentEnd(SegmentBytes(d, n)) == Behind(v, n)
    ensures Next(SegmentBytes(d, n)) == if n < |v.segments| then n + 1 else 0
    ensures n == 1 ==> TopSegment(SegmentBytes(d, n)) == |v.segments|
  {
    hide Fits, OnDisk, SegmentOf, Next, TopSegment, SegmentEnd, Blocks, Listed, SegmentBytes, Readable, Behind;
    FitsAt(v, n);
    SegmentRead(d, v, n);
    BytesFound(SegmentBytes(d, n), v, n);
  }

  function Numbers(n: nat): (c: seq<nat>)
    ensures |c| == n
  {
    seq(n, i => i + 1)
  }

  /** The walk visits the segments in order, and the highest block is that behind the last. */
  lemma {:induction false} InOrder(d: Directory, v: Volume, n: nat)
    requires Fits(v) && OnDisk(d, v) && n <= |v.segments|
    ensures Walk(d, Numbers(n)) && Highest(d, Numbers(n)) == if n == 0 then 0 else Behind(v, n)
    ensures Following(d, Numbers(n)) == if 0 < n == |v.segments| then 0 else n + 1
  {
    hide Walk, Highest, OnDisk, SegmentBytes, Behind, Readable, Sound, SegmentEnd, Next, TopSegment;
    if n == 0 {
      AtStart(d);
      assert Numbers(0) == [];
    } else {
      InOrder(d, v, n - 1);
      SegmentFound(d, v, n);
      SegmentFound(d, v, 1);
      assert Numbers(n) == Numbers(n - 1) + [n];
      GoesOn(d, Numbers(n - 1), n);
      HighestStep(d, Numbers(n - 1), n);
      BehindGrows(v, n - 1, n);
    }
  }

  /** The directory is accepted, and ends where the volume's last file does. */
  lemma VolumeAccepted(d: Directory, v: Volume)
    requires Fits(v) && OnDisk(d, v)
    ensures AcceptedAs(d, Behind(v, |v.segments|))
  {
    hide Walk, Highest, OnDisk, SegmentBytes, Behind, TopSegment;
    InOrder(d, v, |v.segments|);
    SegmentFound(d, v, 1);
    assert Complete(d, Numbers(|v.segments|));
  }

  // ------------------------------------------------------------------ the home block

  /** The home block: where the directory begins, the version and the name of the system. */
  datatype HomeRecord = HomeRecord(
    badBlocks: seq<byte>, unused1: seq<byte>, restore: seq<byte>, backup: seq<byte>, unused2: seq<byte>,
    reserved1: word, reserved2: word, unused3: seq<byte>, clusterSize: word, firstDir: word, sysver: word,
    volid: seq<byte>, owner: seq<byte>, sysid: seq<byte>, unused4: seq<byte>, checksum: word)
  {
    predicate Sized() {
      && |badBlocks| == 130 && |unused1| == 2 && |restore| == 38 && |backup| == 18 && |unused2| == 260
      && |unused3| == 14 && |volid| == |owner| == |sysid| == 12 && |unused4| == 2
    }

    function Image(): (r: seq<byte>)
      requires Sized()
      ensures |r| == 512
    {
      badBlocks + unused1 + restore + backup + unused2 + Word(reserved1) + Word(reserved2) + unused3
      + Word(clusterSize) + Word(firstDir) + Word(sysver) + volid + owner + sysid + unused4 + Word(checksum)
    }
  }

  lemma HomeReads(h: HomeRecord)
    requires h.Sized()
    ensures var s := h.Image(); U16(s, 468) == h.firstDir && U16(s, 470) == h.sysver && Window(s, 496, 12) == h.sysid
  {
    hide U16, Word;
    var s := h.Image();
    assert s[468..470] == Word(h.firstDir);
    assert s[470..472] == Word(h.sysver);
    assert s[496..508] == h.sysid;
    assert Window(s, 496, 12) == s[496..508];
    WordReads(s, 468, h.firstDir);
    WordReads(s, 470, h.sysver);
  }

  /** A volume that has its disk to itself: of the old versions, on the first partition, or
      written by VMS. */
  predicate Alone(h: HomeRecord, part: nat) {
    || (h.sysid == BytesOf("DECRT11A    ") && part == 0 && (h.sysver == 36521 || h.sysver == 36434))
    || h.sysid == BytesOf("DECVMSEXCHNG")
  }

  /** A volume among others. */
  predicate OneOfMany(h: HomeRecord) {
    h.sysid == BytesOf("DECRT11A    ") && h.sysver == 36435
  }

  lemma KindOf(h: HomeRecord, part: nat)
    requires h.Sized()
    ensures TypeOf(h.Image(), part) ==
      if Alone(h, part) then SinglePart else if OneOfMany(h) then MultiPart else NoPart
  {
    hide U16, Window, HomeRecord.Image;
    HomeReads(h);
    SystemNames();
  }

  lemma SystemNames()
    ensures SYSID == BytesOf("DECRT11A    ") && VMS_SYSID == BytesOf("DECVMSEXCHNG") && SYSID != VMS_SYSID
  {
    assert SYSID[3] != VMS_SYSID[3];
  }

  /** Partition `part` of the disk holds this volume: its home block in block 1, its
      directory where that says. */
  ghost predicate Holds(disk: Disk, part: nat, h: HomeRecord, v: Volume) {
    && h.Sized() && Fits(v) && h.firstDir == v.first && (Alone(h, part) || OneOfMany(h))
    && disk(part * 0x10000 + 1, 512) == Some(h.Image())
    && OnDisk(Directory(disk, part, v.first), v)
  }

  lemma HeldIsFound(disk: Disk, part: nat, h: HomeRecord, v: Volume)
    requires Holds(disk, part, h, v)
    ensures HomeBlock(disk, part).Some? && TypeOf(Home(disk, part), part) == if Alone(h, part) then SinglePart else MultiPart
    ensures FileSystem(disk, part, Behind(v, |v.segments|)) && !Unreadable(DirectoryOf(disk, part))
    ensures forall g :: FileSystem(disk, part, g) ==> g == Behind(v, |v.segments|)
  {
    hide OnDisk, Fits, Alone, OneOfMany, AcceptedAs, Unreadable, U16, Behind;
    KindOf(h, part);
    HomeReads(h);
    assert Home(disk, part) == h.Image();
    assert DirectoryOf(disk, part) == Directory(disk, part, v.first);
    VolumeAccepted(DirectoryOf(disk, part), v);
    Exclusive(DirectoryOf(disk, part));
  }

  /** A volume alone on its disk: the size found is where its last file ends, its first
      block and the lengths of all its files. */
  lemma SizeAlone(disk: Disk, rx: bool, h: HomeRecord, v: Volume, stop: nat, size: int)
    requires Holds(disk, 0, h, v) && Alone(h, 0) && StopsAt(disk, Limit(rx), stop, size)
    ensures size == (v.start + Blocks(Files(v.segments))) * 512
  {
    hide Holds, FileSystem, HomeBlock, TypeOf, DirectoryOf, Unreadable, Blocks, Files;
    HeldIsFound(disk, 0, h, v);
    assert v.segments[..|v.segments|] == v.segments;
    assert !Passed(disk, 0);
    assert stop == 0;
  }

  /** Volumes on the first n partitions of a disk that has no more: the size found is the end
      of the last one. */
  lemma SizeOfMany(disk: Disk, homes: seq<HomeRecord>, volumes: seq<Volume>, stop: nat, size: int)
    requires 1 <= |volumes| == |homes| <= 256 && StopsAt(disk, 256, stop, size)
    requires forall p :: 0 <= p < |volumes| ==> Holds(disk, p, homes[p], volumes[p]) && OneOfMany(homes[p])
    requires |volumes| < 256 ==> disk(|volumes| * 0x10000 + 1, 512) == None
    ensures var last := volumes[|volumes| - 1];
      size == ((|volumes| - 1) * 0x10000 + last.start + Blocks(Files(last.segments))) * 512
  {
    hide Holds, FileSystem, TypeOf, DirectoryOf, Unreadable, Blocks, Files;
    var n := |volumes|;
    forall p | 0 <= p < n ensures Passed(disk, p) {
      HeldIsFound(disk, p, homes[p], volumes[p]);
      NotAlone(homes[p], p);
    }
    assert n < 256 ==> !Passed(disk, n);
    assert stop == n;
    HeldIsFound(disk, n - 1, homes[n - 1], volumes[n - 1]);
    var last := volumes[n - 1];
    assert last.segments[..|last.segments|] == last.segments;
    if n < 256 {
      NotRt11(disk, n);
    }
  }

  lemma NotAlone(h: HomeRecord, part: nat)
    requires OneOfMany(h)
    ensures !Alone(h, part)
  {
    SystemNames();
  }
}
