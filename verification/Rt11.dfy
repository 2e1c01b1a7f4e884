/** get_rt11_filesystem_size of sim_disk.c: the walk over the directory segments of every
    RT-11 partition, for arbitrary disk contents. */
module Rt11 {
  import opened Bytes
  import opened Options

  /** A read of so many bytes at a 512-byte block; None is an error or a short read. */
  type Disk = (nat, nat) -> Option<seq<byte>>

  datatype Partitioning = NoPart | SinglePart | MultiPart

  datatype Outcome = Accepted(highest: nat) | Rejected | ReadError

  const MAX_PARTITIONS := 256
  const MAX_SEGMENT := 31
  const EOS := 0x800
  const SYSVER_V3A := 36521
  const SYSVER_V04 := 36434
  const SYSVER_V05 := 36435
  const SYSID: seq<byte> := [68, 69, 67, 82, 84, 49, 49, 65, 32, 32, 32, 32]
  const VMS_SYSID: seq<byte> := [68, 69, 67, 86, 77, 83, 69, 88, 67, 72, 78, 71]

  /** A little-endian 16-bit field. */
  function U16(s: seq<byte>, at: nat): (v: nat)
    ensures v < 0x10000
  {
    At(s, at) + 0x100 * At(s, at + 1)
  }

  // ------------------------------------------------------------------ one directory segment

  function Next(s: seq<byte>): nat { U16(s, 2) }
  function TopSegment(s: seq<byte>): nat { U16(s, 4) }
  function EntrySize(s: seq<byte>): nat { 14 + U16(s, 6) }
  function Start(s: seq<byte>): nat { U16(s, 8) }

  predicate EntryAt(s: seq<byte>, offset: nat) {
    offset + EntrySize(s) <= 1024 && U16(s, offset) / EOS % 2 == 0
  }

  function Length(s: seq<byte>, offset: nat): nat { U16(s, offset + 8) }

  /** The end of the last entry from `offset` on, for a base address of cur: unbounded. */
  function EndFrom(s: seq<byte>, offset: nat, cur: nat): (end: nat)
    ensures end >= cur
    decreases 1024 - offset
  {
    if EntryAt(s, offset) then EndFrom(s, offset + EntrySize(s), cur + Length(s, offset)) else cur
  }

  function SegmentEnd(s: seq<byte>): nat {
    EndFrom(s, 10, Start(s))
  }

  /** The base address stays a 16-bit number throughout the segment. */
  predicate Sound(s: seq<byte>) {
    SegmentEnd(s) < 0x10000
  }

  /** Where the directory stands after k entries: the next offset and base address. */
  function After(s: seq<byte>, k: nat): (nat, nat) {
    if k == 0 then (10, Start(s))
    else
      var (offset, cur) := After(s, k - 1);
      if EntryAt(s, offset) then (offset + EntrySize(s), cur + Length(s, offset)) else (offset, cur)
  }

  /** The end of the segment is past every entry of it. */
  lemma {:induction false} EntryCovered(s: seq<byte>, k: nat)
    ensures EndFrom(s, After(s, k).0, After(s, k).1) == SegmentEnd(s)
    ensures After(s, k).1 <= SegmentEnd(s)
  {
    if k > 0 {
      EntryCovered(s, k - 1);
    }
  }

  /** Walks the entries; stops when the 16-bit base address would wrap. */
  method WalkSegment(s: seq<byte>) returns (ok: bool, cur: nat)
    ensures ok <==> Sound(s)
    ensures ok ==> cur == SegmentEnd(s)
  {
    var offset, size := 10, EntrySize(s);
    cur := Start(s);
    while 1024 - offset >= size
      invariant 10 <= offset <= 1024 && cur < 0x10000
      invariant EndFrom(s, offset, cur) == SegmentEnd(s)
      decreases 1024 - offset
    {
      if U16(s, offset) / EOS % 2 == 1 {
        break;
      }
      var next := (cur + Length(s, offset)) % 0x10000;
      if next < cur {
        return false, cur;
      }
      cur := next;
      offset := offset + size;
    }
    ok := true;
  }

  // ------------------------------------------------------------------ one partition

  function HomeBlock(disk: Disk, part: nat): Option<seq<byte>> {
    disk(part * 0x10000 + 1, 512)
  }

  function TypeOf(home: seq<byte>, part: nat): Partitioning {
    var id := Window(home, 496, 12);
    var version := U16(home, 470);
    if id == SYSID && part == 0 && (version == SYSVER_V3A || version == SYSVER_V04) then SinglePart
    else if id == SYSID && version == SYSVER_V05 then MultiPart
    else if id == VMS_SYSID then SinglePart
    else NoPart
  }

  /** A partition's directory; the home block names its first block. */
  datatype Directory = Directory(disk: Disk, part: nat, first: nat)

  /** Segment n of the directory. */
  function Segment(d: Directory, n: nat): Option<seq<byte>>
    requires n >= 1
  {
    d.disk(d.part * 0x10000 + (d.first + (n - 1) * 2), 1024)
  }

  predicate Readable(d: Directory, n: nat) {
    n >= 1 && Segment(d, n).Some?
  }

  function SegmentBytes(d: Directory, n: nat): seq<byte> {
    if Readable(d, n) then Segment(d, n).value else []
  }

  /** The segment after a chain: the first one, or what the last one names. */
  function Following(d: Directory, chain: seq<nat>): nat {
    if chain == [] then 1 else Next(SegmentBytes(d, chain[|chain| - 1]))
  }

  /** May segment n be visited after this chain?  Its number must be in the range the first
      segment declares, which is itself bounded, and it must be new. */
  predicate Visitable(d: Directory, chain: seq<nat>, n: nat) {
    && n !in chain && n >= 1
    && (chain != [] ==> n <= TopSegment(SegmentBytes(d, 1)) <= MAX_SEGMENT)
  }

  /** A walk of the directory from its first segment on, every segment readable, sound and
      new, each named by the one before. */
  predicate Walk(d: Directory, chain: seq<nat>) {
    forall i :: 0 <= i < |chain| ==> Step(d, chain[..i], chain[i])
  }

  predicate Step(d: Directory, chain: seq<nat>, n: nat) {
    && n == Following(d, chain) && Visitable(d, chain, n)
    && Readable(d, n) && Sound(SegmentBytes(d, n))
  }

  /** A walk that came to the end of the directory. */
  predicate Complete(d: Directory, chain: seq<nat>) {
    && Walk(d, chain) && chain != []
    && Following(d, chain) == 0 && TopSegment(SegmentBytes(d, 1)) <= MAX_SEGMENT
  }

  /** A walk that cannot go on because the next segment cannot be read. */
  predicate BrokenOff(d: Directory, chain: seq<nat>) {
    var n := Following(d, chain);
    Walk(d, chain) && Visitable(d, chain, n) && !Readable(d, n)
  }

  function Highest(d: Directory, chain: seq<nat>): nat {
    if chain == [] then 0
    else
      var rest := chain[..|chain| - 1];
      Max(Highest(d, rest), SegmentEnd(SegmentBytes(d, chain[|chain| - 1])))
  }

  lemma {:induction false} HighestCovers(d: Directory, chain: seq<nat>, i: nat, k: nat)
    requires i < |chain|
    ensures After(SegmentBytes(d, chain[i]), k).1 <= Highest(d, chain)
    decreases |chain|
  {
    EntryCovered(SegmentBytes(d, chain[i]), k);
    if i < |chain| - 1 {
      HighestCovers(d, chain[..|chain| - 1], i, k);
    }
  }

  lemma {:induction false} PrefixWalks(d: Directory, chain: seq<nat>, m: nat)
    requires Walk(d, chain) && m <= |chain|
    ensures Walk(d, chain[..m])
  {
    hide Step;
    forall i | 0 <= i < m ensures Step(d, chain[..m][..i], chain[..m][i]) {
      assert chain[..m][..i] == chain[..i];
    }
  }

  lemma WalkOn(d: Directory, chain: seq<nat>, n: nat)
    requires Walk(d, chain)
    ensures Walk(d, chain + [n]) <==> Step(d, chain, n)
  {
    hide Step;
    var longer := chain + [n];
    assert longer[..|chain|] == chain && longer[|chain|] == n;
    assert forall i :: 0 <= i < |chain| ==> longer[..i] == chain[..i] && longer[i] == chain[i];
  }

  /** There is only one way to walk a directory. */
  lemma {:induction false} WalksAgree(d: Directory, a: seq<nat>, b: seq<nat>)
    requires Walk(d, a) && Walk(d, b) && |a| <= |b|
    ensures b[..|a|] == a
    decreases |a|
  {
    hide Following, Visitable, Readable, Sound;
    if a != [] {
      var m := |a| - 1;
      PrefixWalks(d, a, m);

      WalksAgree(d, a[..m], b);

      assert Step(d, a[..m], a[m]) && Step(d, b[..m], b[m]);
    }
  }

  /** A walk that can go on neither ends nor breaks off; one that can do nothing of the
      three is the longest there is. */
  lemma DeadEnd(d: Directory, chain: seq<nat>)
    requires Walk(d, chain) && !Complete(d, chain) && !BrokenOff(d, chain)
    requires !Step(d, chain, Following(d, chain))
    ensures forall c :: !Complete(d, c) && !BrokenOff(d, c)
  {
    hide Following, Visitable, Readable, Sound;
    forall c | Walk(d, c) ensures !Complete(d, c) && !BrokenOff(d, c) {
      if |c| > |chain| {
        var n := c[|chain|];
        assert Step(d, c[..|chain|], n);
        WalksAgree(d, chain, c);
        assert false;
      } else {
        WalksAgree(d, c, chain);
        if |c| == |chain| {
          assert c == chain;
        } else {
          assert Step(d, chain[..|c|], chain[|c|]);
          StepGoesOn(d, c, chain[|c|]);
        }
      }
    }
  }

  lemma StepGoesOn(d: Directory, c: seq<nat>, n: nat)
    requires Step(d, c, n)
    ensures !Complete(d, c) && !BrokenOff(d, c)
  {
  }

  ghost predicate AcceptedAs(d: Directory, h: nat) {
    exists c :: Complete(d, c) && h == Highest(d, c)
  }

  ghost predicate Unreadable(d: Directory) {
    exists c :: BrokenOff(d, c)
  }

  /** The outcome of a partition is what the directory is, whichever way it is walked. */
  ghost predicate Judged(d: Directory, out: Outcome) {
    match out
    case Accepted(h) => AcceptedAs(d, h)
    case Rejected =>
      && (forall c :: !Complete(d, c)) && forall c :: !BrokenOff(d, c)
    case ReadError => Unreadable(d)
  }

  lemma HighestStep(d: Directory, chain: seq<nat>, n: nat)
    ensures Highest(d, []) == 0
    ensures Highest(d, chain + [n]) == Max(Highest(d, chain), SegmentEnd(SegmentBytes(d, n)))
  {
    hide SegmentEnd, SegmentBytes;
    assert (chain + [n])[..|chain|] == chain;
  }

  function Unseen(seen: seq<nat>, n: nat): nat
    requires n < |seen|
  {
    if n == 0 then 0 else (if seen[n] == 0 then 1 else 0) + Unseen(seen, n - 1)
  }

  lemma {:induction false} Marked(seen: seq<nat>, k: nat, n: nat)
    requires 1 <= k < |seen| && n < |seen| && seen[k] == 0
    ensures Unseen(seen[k := 1], n) == Unseen(seen, n) - (if k <= n then 1 else 0)
  {
    if n > 0 {
      Marked(seen, k, n - 1);
    }
  }

  lemma TooManySegments(d: Directory)
    requires Readable(d, 1) && TopSegment(SegmentBytes(d, 1)) > MAX_SEGMENT
    ensures Judged(d, Rejected)
  {
    hide Sound, Walk;
  }

  lemma NeverTwice(d: Directory, chain: seq<nat>)
    requires Walk(d, chain)
    ensures forall i, j :: 0 <= i < j < |chain| ==> chain[i] != chain[j]
  {
    forall i, j | 0 <= i < j < |chain| ensures chain[i] != chain[j] {
      assert Step(d, chain[..j], chain[j]);
      assert chain[..j][i] == chain[i];
    }
  }

  /** The reasons to give a directory up; each leaves no other way to walk it. */
  lemma Stuck(d: Directory, chain: seq<nat>)
    requires Walk(d, chain)
    requires var n := Following(d, chain);
      && n != 0
      && ((chain != [] && (n in chain || n > TopSegment(SegmentBytes(d, 1))))
          || (Readable(d, n) && !Sound(SegmentBytes(d, n))))
    ensures Judged(d, Rejected)
  {
    hide Walk, Sound;
    DeadEnd(d, chain);
  }

  lemma Ended(d: Directory, chain: seq<nat>)
    requires Walk(d, chain) && chain != [] && Following(d, chain) == 0
    requires TopSegment(SegmentBytes(d, 1)) <= MAX_SEGMENT
    ensures Judged(d, Accepted(Highest(d, chain)))
  {
    assert Complete(d, chain);
  }

  lemma CutShort(d: Directory, chain: seq<nat>)
    requires Walk(d, chain)
    requires var n := Following(d, chain);
      !Readable(d, n) && n !in chain && n >= 1 && (chain != [] ==> n <= TopSegment(SegmentBytes(d, 1)) <= MAX_SEGMENT)
    ensures Judged(d, ReadError)
  {
    assert BrokenOff(d, chain);
  }

  lemma GoesOn(d: Directory, chain: seq<nat>, n: nat)
    requires Walk(d, chain) && n == Following(d, chain) && n !in chain && n >= 1
    requires chain != [] ==> n <= TopSegment(SegmentBytes(d, 1)) <= MAX_SEGMENT
    requires Readable(d, n) && Sound(SegmentBytes(d, n))
    ensures Walk(d, chain + [n]) && Following(d, chain + [n]) == Next(SegmentBytes(d, n))
  {
    hide Walk;
    WalkOn(d, chain, n);
  }

  lemma AtStart(d: Directory)
    ensures Walk(d, []) && Following(d, []) == 1 && Highest(d, []) == 0
  {
  }

  method ReadSegment(d: Directory, n: nat) returns (sector: Option<seq<byte>>)
    requires n >= 1
    ensures sector.Some? <==> Readable(d, n)
    ensures sector.Some? ==> sector.value == SegmentBytes(d, n)
  {
    sector := d.disk(d.part * 0x10000 + (d.first + (n - 1) * 2), 1024);
  }

  /** Walks one partition's directory: the outcome is that of every possible walk. */
  method WalkPartition(d: Directory) returns (out: Outcome, ghost visited: seq<nat>)
    ensures Judged(d, out)
    ensures Walk(d, visited)
  {
    hide Sound, SegmentEnd, Highest, Walk, Following, Readable, SegmentBytes, Judged, Unseen,
      TopSegment, Next;
    var seen := new nat[MAX_SEGMENT + 1](i => 0);
    var segHighest, highest, dirSeg := 0, 0, 1;
    ghost var left := Unseen(seen[..], MAX_SEGMENT);
    visited := [];
    AtStart(d);
    var more := true;
    while more
      invariant Walk(d, visited)
      invariant dirSeg == Following(d, visited)
      invariant highest == Highest(d, visited)
      invariant visited == [] ==> dirSeg == 1
      invariant visited != [] ==> segHighest == TopSegment(SegmentBytes(d, 1)) <= MAX_SEGMENT && dirSeg <= segHighest
      invariant 0 <= dirSeg <= MAX_SEGMENT && (more <==> dirSeg != 0)
      invariant visited == [] || 1 in visited
      invariant forall k :: 1 <= k <= MAX_SEGMENT ==> (seen[k] == 0 <==> k !in visited)
      invariant left == Unseen(seen[..], MAX_SEGMENT)
      decreases left, more
    {
      if seen[dirSeg] != 0 {
        Stuck(d, visited);
        return Rejected, visited;
      }
      Marked(seen[..], dirSeg, MAX_SEGMENT);
      ghost var was := seen[..];
      seen[dirSeg] := seen[dirSeg] + 1;
      assert seen[..] == was[dirSeg := 1];
      left := Unseen(seen[..], MAX_SEGMENT);
      var sector := ReadSegment(d, dirSeg);
      if sector.None? {
        CutShort(d, visited);
        return ReadError, visited;
      }
      var buf := sector.value;
      if dirSeg == 1 {
        segHighest := TopSegment(buf);
        if segHighest > MAX_SEGMENT {
          TooManySegments(d);
          return Rejected, visited;
        }
      }
      var ok, cur := WalkSegment(buf);
      if !ok {
        Stuck(d, visited);
        return Rejected, visited;
      }
      GoesOn(d, visited, dirSeg);
      HighestStep(d, visited, dirSeg);
      visited := visited + [dirSeg];
      highest := Max(highest, cur);
      dirSeg := Next(buf);
      if dirSeg > segHighest {
        Stuck(d, visited);
        return Rejected, visited;
      }
      more := dirSeg != 0;
    }
    Ended(d, visited);
    out := Accepted(highest);
  }

  // ------------------------------------------------------------------ the whole disk

  /** A directory has one verdict, and an accepted one ends below 65536 blocks. */
  lemma OneVerdict(d: Directory, c: seq<nat>, b: seq<nat>)
    requires Complete(d, c) && Walk(d, b)
    ensures !BrokenOff(d, b)
    ensures Complete(d, b) ==> b == c
  {
    hide Following, Visitable, Readable, Sound;
    if |b| < |c| {
      WalksAgree(d, b, c);
      assert Step(d, c[..|b|], c[|b|]);
      StepGoesOn(d, b, c[|b|]);
    } else {
      WalksAgree(d, c, b);
      if |b| > |c| {
        var n := b[|c|];
        assert Step(d, b[..|c|], n);
        StepGoesOn(d, c, n);
        assert false;
      }
      assert b == c;
      NoMore(d, c);
    }
  }

  lemma NoMore(d: Directory, c: seq<nat>)
    requires Complete(d, c)
    ensures !BrokenOff(d, c)
  {
  }

  lemma {:induction false} HighestBound(d: Directory, chain: seq<nat>)
    requires Walk(d, chain)
    ensures Highest(d, chain) < 0x10000
  {
    if chain != [] {
      var m := |chain| - 1;
      PrefixWalks(d, chain, m);
      HighestBound(d, chain[..m]);
      assert Step(d, chain[..m], chain[m]);
    }
  }

  function Home(disk: Disk, part: nat): seq<byte> {
    if HomeBlock(disk, part).Some? then HomeBlock(disk, part).value else []
  }

  function DirectoryOf(disk: Disk, part: nat): Directory {
    Directory(disk, part, U16(Home(disk, part), 468))
  }

  /** Partition `part` is an RT-11 file system whose directory ends at block h. */
  ghost predicate FileSystem(disk: Disk, part: nat, h: nat) {
    && HomeBlock(disk, part).Some? && TypeOf(Home(disk, part), part) != NoPart
    && AcceptedAs(DirectoryOf(disk, part), h)
  }

  /** The search goes on after this partition: nothing was unreadable, and it was not the
      single file system of its disk. */
  ghost predicate Passed(disk: Disk, part: nat) {
    && HomeBlock(disk, part).Some?
    && (TypeOf(Home(disk, part), part) != NoPart ==> !Unreadable(DirectoryOf(disk, part)))
    && (TypeOf(Home(disk, part), part) == SinglePart ==> forall h :: !FileSystem(disk, part, h))
  }

  function EndOffset(part: nat, block: nat): nat {
    (part * 0x10000 + block) * 512
  }

  lemma Verdicts(disk: Disk, part: nat, out: Outcome)
    requires HomeBlock(disk, part).Some? && TypeOf(Home(disk, part), part) != NoPart
    requires Judged(DirectoryOf(disk, part), out)
    ensures out.Accepted? <==> exists h :: FileSystem(disk, part, h)
    ensures forall h :: FileSystem(disk, part, h) ==> out == Accepted(h) && h < 0x10000
    ensures out.Accepted? ==> FileSystem(disk, part, out.highest)
    ensures out.ReadError? <==> Unreadable(DirectoryOf(disk, part))
  {
    hide Complete, BrokenOff, Walk, HomeBlock, TypeOf, Highest, DirectoryOf;
    var d := DirectoryOf(disk, part);
    Exclusive(d);
    if out.Accepted? {
      assert FileSystem(disk, part, out.highest);
    }
  }

  lemma Exclusive(d: Directory)
    ensures forall h, g :: AcceptedAs(d, h) && AcceptedAs(d, g) ==> h == g < 0x10000
    ensures forall h :: AcceptedAs(d, h) ==> !Unreadable(d)
  {
    forall c, b | Complete(d, c) && Walk(d, b)
      ensures !BrokenOff(d, b) && (Complete(d, b) ==> b == c) && Highest(d, c) < 0x10000
    {
      OneVerdict(d, c, b);
      HighestBound(d, c);
    }
  }

  /** Among the first n partitions the last file system ends at `size`; -1 when there is none. */
  ghost predicate LastEnd(disk: Disk, n: nat, size: int) {
    if size == -1 then forall q, g :: 0 <= q < n ==> !FileSystem(disk, q, g)
    else exists p, h ::
      && 0 <= p < n && FileSystem(disk, p, h) && size == EndOffset(p, h)
      && forall q, g :: p < q < n ==> !FileSystem(disk, q, g)
  }

  lemma NoneHere(disk: Disk, n: nat, size: int)
    requires LastEnd(disk, n, size) && forall g :: !FileSystem(disk, n, g)
    ensures LastEnd(disk, n + 1, size)
  {
    hide FileSystem, EndOffset;
  }

  lemma OneHere(disk: Disk, n: nat, h: nat)
    requires FileSystem(disk, n, h)
    ensures LastEnd(disk, n + 1, EndOffset(n, h))
  {
    hide FileSystem;
  }

  lemma NotRt11(disk: Disk, part: nat)
    requires HomeBlock(disk, part).None? || TypeOf(Home(disk, part), part) == NoPart
    ensures forall g :: !FileSystem(disk, part, g)
  {
  }

  /** RX01 and RX02 media have a single partition. */
  function Limit(rx: bool): nat {
    if rx then 1 else MAX_PARTITIONS
  }

  /** The search stops at partition `stop`: all before it were passed and it was not, or
      there are no more; the result is the end of the last file system up to there. */
  ghost predicate StopsAt(disk: Disk, limit: nat, stop: nat, size: int) {
    && stop <= limit && (forall q :: 0 <= q < stop ==> Passed(disk, q))
    && (stop < limit ==> !Passed(disk, stop))
    && LastEnd(disk, Min(stop + 1, limit), size)
  }

  /** The size of the file system on a disk, or -1: what the last file system up to where
      the search stops ends at. */
  method FilesystemSize(disk: Disk, rx: bool) returns (size: int)
    ensures exists stop :: StopsAt(disk, Limit(rx), stop, size)
  {
    hide Judged, FileSystem, HomeBlock, TypeOf, DirectoryOf, LastEnd, EndOffset, Unreadable;
    size := -1;
    ghost var limit := Limit(rx);
    NothingBefore(disk);
    var part := 0;
    while part < MAX_PARTITIONS
      invariant 0 <= part <= MAX_PARTITIONS
      invariant forall q :: 0 <= q < part ==> Passed(disk, q)
      invariant rx ==> part <= 1
      invariant LastEnd(disk, part, size)
    {
      if part != 0 && rx {
        break;
      }
      var home := HomeBlock(disk, part);
      if home.None? {
        NotRt11(disk, part);
        NoneHere(disk, part, size);
        assert StopsAt(disk, limit, part, size);
        return size;
      }
      var kind := TypeOf(home.value, part);
      if kind == NoPart {
        NotRt11(disk, part);
        NoneHere(disk, part, size);
      } else {
        var d := DirectoryOf(disk, part);
        var out, visited := WalkPartition(d);
        Verdicts(disk, part, out);
        if out.Accepted? {
          size := EndOffset(part, out.highest);
          OneHere(disk, part, out.highest);
          if kind == SinglePart {
            assert StopsAt(disk, limit, part, size);
            return size;
          }
        } else {
          NoneHere(disk, part, size);
          if out.ReadError? {
            assert StopsAt(disk, limit, part, size);
            return size;
          }
        }
      }
      part := part + 1;
    }
    assert StopsAt(disk, limit, part, size);
  }

  lemma NothingBefore(disk: Disk)
    ensures LastEnd(disk, 0, -1)
  {
  }

  /** The size found covers every entry of every file system that was reached. */
  lemma SizeCovers(disk: Disk, p: nat, h: nat, q: nat, g: nat, chain: seq<nat>, i: nat, k: nat)
    requires FileSystem(disk, p, h) && FileSystem(disk, q, g) && q <= p
    requires Complete(DirectoryOf(disk, q), chain) && i < |chain|
    ensures EndOffset(q, After(SegmentBytes(DirectoryOf(disk, q), chain[i]), k).1) <= EndOffset(p, h)
  {
    hide Complete, HomeBlock, TypeOf, After, SegmentBytes;
    var d := DirectoryOf(disk, q);
    hide DirectoryOf;
    Exclusive(d);
    HighestCovers(d, chain, i, k);
    assert AcceptedAs(d, Highest(d, chain));
  }
}
