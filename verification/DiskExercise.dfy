/** sim_disk_test_exercise of sim_disk.c: the randomised fill that stamps every sector of a
    drive with its own address, and the pass that reads everything back. */
module DiskExercise {
  import opened Arithmetic
  import opened Bytes

  datatype Status = Ok | IoErr | Incomplete | InternalErr

  /** What one request comes to: an error or not, and so many sectors. */
  datatype Transfer = Transfer(ok: bool, sectors: nat)

  /** The request was carried out in full. */
  predicate Full(t: Transfer, asked: nat) {
    t.ok && t.sectors >= asked
  }

  const MAX_TRIES := 30

  /** A sector of the given number of words that holds address s. */
  function Stamp(s: nat, words: nat): seq<nat> {
    seq(words, i => s)
  }

  function Ones(bits: seq<bool>): (n: nat)
    ensures n <= |bits|
  {
    if bits == [] then 0 else Ones(bits[..|bits| - 1]) + if bits[|bits| - 1] then 1 else 0
  }

  lemma {:induction false} OneMore(bits: seq<bool>, k: nat)
    requires k < |bits| && !bits[k]
    ensures Ones(bits[k := true]) == Ones(bits) + 1
  {
    var m := |bits| - 1;
    if k < m {
      OneMore(bits[..m], k);
      assert bits[k := true][..m] == bits[..m][k := true];
    } else {
      assert bits[k := true][..m] == bits[..m];
    }
  }

  lemma {:induction false} SomeClear(bits: seq<bool>) returns (k: nat)
    requires Ones(bits) < |bits|
    ensures k < |bits| && !bits[k]
  {
    var m := |bits| - 1;
    if bits[m] {
      k := SomeClear(bits[..m]);
    } else {
      k := m;
    }
  }

  lemma {:induction false} AllSet(bits: seq<bool>)
    requires Ones(bits) == |bits|
    ensures forall k :: 0 <= k < |bits| ==> bits[k]
  {
    if bits != [] {
      AllSet(bits[..|bits| - 1]);
    }
  }

  lemma {:induction false} NoneSet(bits: seq<bool>)
    requires forall k :: 0 <= k < |bits| ==> !bits[k]
    ensures Ones(bits) == 0
  {
    if bits != [] {
      NoneSet(bits[..|bits| - 1]);
    }
  }

  /** The drive under test, and how often each sector was asked to be written. */
  class Drive {
    const words: nat
    var sectors: seq<seq<nat>>
    ghost var requests: seq<nat>

    ghost predicate Valid() reads this {
      words > 0 && |requests| == |sectors| && forall s :: 0 <= s < |sectors| ==> |sectors[s]| == words
    }

    constructor (words: nat, contents: seq<seq<nat>>)
      requires words > 0 && forall s :: 0 <= s < |contents| ==> |contents[s]| == words
      ensures Valid() && this.words == words && sectors == contents
      ensures forall s :: 0 <= s < |requests| ==> requests[s] == 0
    {
      this.words := words;
      sectors := contents;
      requests := seq(|contents|, i => 0);
    }

    /** Sector by sector from `start`, as many as the outcome says; none on an error. */
    method Write(start: nat, data: seq<nat>, count: nat, outcome: Transfer) returns (r: Status, written: nat)
      requires Valid() && start + count <= |sectors| && count * words <= |data|
      modifies this
      ensures Valid() && |sectors| == old(|sectors|)
      ensures r == if outcome.ok then Ok else IoErr
      ensures written == if outcome.ok then Min(outcome.sectors, count) else 0
      ensures forall s :: 0 <= s < |sectors| ==>
        requests[s] == old(requests[s]) + if start <= s < start + count then 1 else 0
      ensures forall s :: 0 <= s < |sectors| ==>
        sectors[s] == if start <= s < start + written then Block(data, s - start, words) else old(sectors[s])
    {
      written := if outcome.ok then Min(outcome.sectors, count) else 0;
      r := if outcome.ok then Ok else IoErr;
      BlocksInside(data, count, words);
      ghost var n := |sectors|;
      var was, upTo := sectors, start + written;
      sectors := seq(|was|, s requires 0 <= s < |was| =>
        if start <= s < upTo then Block(data, s - start, words) else was[s]);
      ghost var req := requests;
      requests := seq(n, s requires 0 <= s < n => req[s] + if start <= s < start + count then 1 else 0);
    }

    /** The sectors from `start` on, one after the other in a buffer of words. */
    method Read(start: nat, count: nat, outcome: Transfer) returns (r: Status, got: nat, data: seq<nat>)
      requires Valid() && start + count <= |sectors|
      ensures r == if outcome.ok then Ok else IoErr
      ensures got == Min(outcome.sectors, count)
      ensures forall k :: 0 <= k < got ==> Block(data, k, words) == sectors[start + k]
    {
      r := if outcome.ok then Ok else IoErr;
      got := Min(outcome.sectors, count);
      data := [];
      var n := 0;
      while n < got
        invariant 0 <= n <= got && |data| == n * words
        invariant forall k :: 0 <= k < n ==> Block(data, k, words) == sectors[start + k]
      {
        ghost var was := data;
        data := data + sectors[start + n];
        BlockAppended(was, sectors[start + n], n, words);
        n := n + 1;
      }
    }
  }

  /** Sector k of a transfer buffer. */
  function Block(data: seq<nat>, k: nat, words: nat): (b: seq<nat>)
    ensures k * words + words <= |data| ==> |b| == words && b == data[k * words..k * words + words]
  {
    if k * words + words <= |data| then data[k * words..k * words + words] else []
  }

  lemma BlocksInside(data: seq<nat>, count: nat, words: nat)
    requires count * words <= |data|
    ensures forall k :: 0 <= k < count ==> k * words + words <= |data| && |Block(data, k, words)| == words
  {
    forall k | 0 <= k < count ensures k * words + words <= |data| && |Block(data, k, words)| == words {
      MulGap(k, count, words);
    }
  }

  lemma BlockAppended(data: seq<nat>, more: seq<nat>, n: nat, words: nat)
    requires |data| == n * words && |more| == words
    ensures |data + more| == (n + 1) * words
    ensures Block(data + more, n, words) == more
    ensures forall k :: 0 <= k < n ==> Block(data + more, k, words) == Block(data, k, words)
  {
    BlocksInside(data, n, words);
    Appended(data, more, |data|, words);
    assert (n + 1) * words == n * words + words;
    forall k | 0 <= k < n ensures Block(data + more, k, words) == Block(data, k, words) {
      Appended(data, more, k * words, words);
    }
  }

  lemma Appended(data: seq<nat>, more: seq<nat>, base: nat, words: nat)
    requires |more| == words
    ensures base + words <= |data| ==> (data + more)[base..base + words] == data[base..base + words]
    ensures base == |data| ==> (data + more)[base..base + words] == more
  {
  }

  /** The sector that word i of a transfer buffer belongs to. */
  function Owner(start: nat, i: nat, words: nat): nat
    requires words > 0
  {
    start + i / words
  }

  method FillBuffer(start: nat, count: nat, words: nat) returns (data: seq<nat>)
    requires words > 0
    ensures |data| == count * words
    ensures forall k :: 0 <= k < count ==> Block(data, k, words) == Stamp(start + k, words)
  {
    hide Owner, Block, Stamp;
    var n := count * words;
    var buf := new nat[n];
    var i := 0;
    while i < n
      invariant 0 <= i <= n
      invariant forall k :: 0 <= k < i ==> buf[k] == Owner(start, k, words)
    {
      buf[i] := Owner(start, i, words);
      i := i + 1;
    }
    data := buf[..];
    forall k | 0 <= k < count ensures Block(data, k, words) == Stamp(start + k, words) {
      StampedBlock(data, start, k, count, words);
    }
  }

  lemma StampedBlock(data: seq<nat>, start: nat, k: nat, count: nat, words: nat)
    requires words > 0 && k < count && |data| == count * words
    requires forall i :: 0 <= i < |data| ==> data[i] == Owner(start, i, words)
    ensures Block(data, k, words) == Stamp(start + k, words)
  {
    MulGap(k, count, words);
    var base := k * words;
    var b := Block(data, k, words);
    forall j | 0 <= j < words ensures b[j] == start + k {
      DivUnique(words, k, j);
      assert data[base + j] == Owner(start, base + j, words);
    }
  }

  /** What the fill has done: every marked sector was asked for once and holds its own address,
      but for those from `lo` to `hi`, and no other sector was touched. */
  ghost predicate Stamped(sectors: seq<seq<nat>>, requests: seq<nat>, bits: seq<bool>, words: nat,
                          initial: seq<seq<nat>>, lo: nat, hi: nat) {
    && |sectors| == |requests| == |bits| == |initial|
    && (forall s :: 0 <= s < |bits| ==> requests[s] == if bits[s] then 1 else 0)
    && (forall s :: 0 <= s < |bits| ==>
         sectors[s] == if bits[s] && !(lo <= s < hi) then Stamp(s, words) else initial[s])
  }

  /** The circular search for an unwritten sector; there is one. */
  method NextClear(bits: array<bool>, start: nat) returns (lba: nat)
    requires start < bits.Length && Ones(bits[..]) < bits.Length
    ensures lba < bits.Length && !bits[lba]
  {
    ghost var k := SomeClear(bits[..]);
    lba := start;
    while bits[lba]
      invariant lba < bits.Length && !bits[k]
      decreases if k >= lba then k - lba else k + bits.Length - lba
    {
      lba := Wrap(1 + lba, bits.Length);
    }
  }

  function Wrap(k: nat, n: nat): (r: nat)
    requires 0 < n && k <= n
    ensures r == if k == n then 0 else k
  {
    k % n
  }

  function Draw(random: nat, n: nat): (r: nat)
    requires n > 0
    ensures r < n
  {
    random % n
  }

  /** Marks sectors from `start` up to the first one already marked. */
  method Mark(bits: array<bool>, start: nat, limit: nat) returns (end: nat)
    requires start < limit <= bits.Length && !bits[start]
    modifies bits
    ensures start < end <= limit
    ensures Ones(bits[..]) == old(Ones(bits[..])) + (end - start)
    ensures forall s :: 0 <= s < bits.Length ==> bits[s] == (old(bits[s]) || start <= s < end)
    ensures forall s :: start <= s < end ==> !old(bits[s])
  {
    hide Ones;
    end := limit;
    var lba := start;
    while lba < end
      invariant start <= lba <= end <= limit && (lba == start ==> end == limit)
      invariant Ones(bits[..]) == old(Ones(bits[..])) + (lba - start)
      invariant forall s :: 0 <= s < bits.Length ==> bits[s] == (old(bits[s]) || start <= s < lba)
      invariant forall s :: start <= s < lba ==> !old(bits[s])
    {
      if bits[lba] {
        end := lba;
        break;
      }
      OneMore(bits[..], lba);
      ghost var was := bits[..];
      bits[lba] := true;
      assert bits[..] == was[lba := true];
      lba := lba + 1;
    }
  }

  lemma StampedMore(before: seq<seq<nat>>, after: seq<seq<nat>>, asked: seq<nat>, asking: seq<nat>,
                    bits: seq<bool>, marked: seq<bool>, words: nat, initial: seq<seq<nat>>,
                    start: nat, upTo: nat, end: nat)
    requires Stamped(before, asked, bits, words, initial, 0, 0)
    requires |after| == |asking| == |marked| == |bits| && start <= upTo <= end <= |bits|
    requires forall s :: 0 <= s < |bits| ==> marked[s] == (bits[s] || start <= s < end)
    requires forall s :: start <= s < end ==> !bits[s]
    requires forall s :: 0 <= s < |bits| ==> after[s] == if start <= s < upTo then Stamp(s, words) else before[s]
    requires forall s :: 0 <= s < |bits| ==> asking[s] == asked[s] + if start <= s < end then 1 else 0
    ensures Stamped(after, asking, marked, words, initial, upTo, end)
    ensures upTo == end ==> Stamped(after, asking, marked, words, initial, 0, 0)
  {
    hide Stamp;
  }

  /** How many sectors a write comes to. */
  function Written(t: Transfer, asked: nat): (n: nat)
    ensures n <= asked
    ensures n == asked <==> asked == 0 || Full(t, asked)
  {
    if t.ok then Min(t.sectors, asked) else 0
  }

  /** One transfer: marks the sectors and asks for them to be written. */
  method Populate(drive: Drive, bits: array<bool>, start: nat, limit: nat, outcome: Transfer,
                  ghost initial: seq<seq<nat>>) returns (r: Status, good: bool, count: nat)
    requires drive.Valid() && bits.Length == |drive.sectors|
    requires start < limit <= bits.Length && !bits[start]
    requires Stamped(drive.sectors, drive.requests, bits[..], drive.words, initial, 0, 0)
    modifies drive, bits
    ensures drive.Valid() && |drive.sectors| == bits.Length
    ensures 0 < count <= limit - start && Ones(bits[..]) == old(Ones(bits[..])) + count
    ensures forall s :: start <= s < start + count ==> bits[s]
    ensures r == if outcome.ok then Ok else IoErr
    ensures good <==> Full(outcome, count)
    ensures good ==> r == Ok
    ensures Stamped(drive.sectors, drive.requests, bits[..], drive.words, initial,
                    start + Written(outcome, count), start + count)
    ensures good ==> Stamped(drive.sectors, drive.requests, bits[..], drive.words, initial, 0, 0)
  {
    hide Stamp, Ones, Block;
    ghost var before, asked, was := drive.sectors, drive.requests, bits[..];
    var end := Mark(bits, start, limit);
    count := end - start;
    var data := FillBuffer(start, count, drive.words);
    var written;
    r, written := drive.Write(start, data, count, outcome);
    good := r == Ok && written == count;
    StampedMore(before, drive.sectors, asked, drive.requests, was, bits[..], drive.words, initial,
                start, start + written, end);
  }

  /** Where the next transfer starts and where it has to end, unless another pair is drawn. */
  method Choose(bits: array<bool>, maxXfer: nat, first: nat, second: nat, tries: nat)
      returns (again: bool, start: nat, end: nat)
    requires Ones(bits[..]) < bits.Length && maxXfer > 1 && tries < MAX_TRIES
    ensures again ==> tries + 1 < 30 && bits[Draw(first, bits.Length)]
    ensures !again ==> start < end <= bits.Length && !bits[start]
    ensures !bits[Draw(first, bits.Length)] ==> !again && start == Draw(first, bits.Length)
    ensures !bits[Draw(first, bits.Length)] ==> end == Min(start + 1 + Draw(second, maxXfer - 1), bits.Length)
    ensures !again && bits[Draw(first, bits.Length)] ==> end == start + 1
  {
    start := Draw(first, bits.Length);
    end := Min(start + 1 + Draw(second, maxXfer - 1), bits.Length);
    again := false;
    if bits[start] {
      if tries + 1 < MAX_TRIES {
        again := true;
      } else {
        start := NextClear(bits, start);
        end := start + 1;
      }
    }
  }

  /** The first n requests were answered in full. */
  ghost predicate FullUntil(transfers: nat -> Transfer, asked: seq<nat>, n: nat) {
    n <= |asked| && forall i :: 0 <= i < n ==> Full(transfers(i), asked[i])
  }

  function Last(asked: seq<nat>): nat
    requires asked != []
  {
    asked[|asked| - 1]
  }

  /** The last request was not. */
  ghost predicate Short(transfers: nat -> Transfer, asked: seq<nat>) {
    asked != [] && !Full(transfers(|asked| - 1), Last(asked))
  }

  /** What a drive holds when every sector has its own address in it. */
  predicate AllStamped(sectors: seq<seq<nat>>, words: nat) {
    forall s :: 0 <= s < |sectors| ==> sectors[s] == Stamp(s, words)
  }

  lemma NoneAsked(transfers: nat -> Transfer)
    ensures FullUntil(transfers, [], 0)
  {
  }

  lemma OneAnswer(transfers: nat -> Transfer, asked: seq<nat>, size: nat)
    requires FullUntil(transfers, asked, |asked|)
    ensures FullUntil(transfers, asked + [size], |asked|) && Last(asked + [size]) == size
    ensures Full(transfers(|asked|), size) ==> FullUntil(transfers, asked + [size], |asked| + 1)
    ensures !Full(transfers(|asked|), size) ==> Short(transfers, asked + [size])
  {
    hide Full;
  }

  /** The fill.  `random` and `writes` stand for the random numbers and for what the write
      requests come to; `asked` are the sizes of the requests made.  The fill is done exactly
      when each of them was carried out in full, and then every sector holds its own address
      and was written exactly once.  Otherwise the last request left the sectors from `lo` to
      `hi` as they were, and the status is Ok all the same unless it came back with an error. */
  method Fill(drive: Drive, maxXfer: nat, random: nat -> nat, writes: nat -> Transfer)
      returns (r: Status, done: bool, wsetbits: nat, draw: nat,
               ghost bits: seq<bool>, ghost asked: seq<nat>, ghost lo: nat, ghost hi: nat)
    requires drive.Valid() && maxXfer > 1
    requires forall s :: 0 <= s < |drive.requests| ==> drive.requests[s] == 0
    modifies drive
    ensures drive.Valid()
    ensures Stamped(drive.sectors, drive.requests, bits, drive.words, old(drive.sectors), lo, hi)
    ensures wsetbits == Ones(bits)
    ensures forall i :: 0 <= i < |asked| ==> asked[i] > 0
    ensures asked == [] <==> |bits| == 0
    ensures done ==> FullUntil(writes, asked, |asked|) && r == Ok && lo == hi
    ensures done ==> forall s :: 0 <= s < |bits| ==> bits[s]
    ensures !done ==> asked != [] && FullUntil(writes, asked, |asked| - 1) && Short(writes, asked)
    ensures !done ==> r == if writes(|asked| - 1).ok then Ok else IoErr
    ensures !done ==> hi <= |bits| && hi - lo == Last(asked) - Written(writes(|asked| - 1), Last(asked))
    ensures !done ==> forall s :: lo <= s < hi ==> bits[s]
  {
    hide Stamp, Ones, Full, FullUntil, Short, Draw, Stamped, Written;
    var total := |drive.sectors|;
    ghost var initial := drive.sectors;
    var wbitmap := new bool[total](i => false);
    NothingStamped(initial, drive.requests, wbitmap[..], drive.words);
    wsetbits := 0;
    r := Ok;
    var tries, request := 0, 0;
    draw, asked, lo, hi := 0, [], 0, 0;
    NoneAsked(writes);
    while wsetbits < total
      invariant drive.Valid() && |drive.sectors| == total && wsetbits == Ones(wbitmap[..])
      invariant Stamped(drive.sectors, drive.requests, wbitmap[..], drive.words, initial, 0, 0)
      invariant tries < MAX_TRIES && r == Ok && wsetbits <= total && (asked == [] <==> wsetbits == 0)
      invariant forall i :: 0 <= i < |asked| ==> asked[i] > 0
      invariant request == |asked| && FullUntil(writes, asked, |asked|)
      decreases total - wsetbits, MAX_TRIES - tries
    {
      var again, start, end := Choose(wbitmap, maxXfer, random(draw), random(draw + 1), tries);
      draw := draw + 2;
      if again {
        tries := tries + 1;
        continue;
      }
      tries := 0;
      var good, count;
      r, good, count := Populate(drive, wbitmap, start, end, writes(request), initial);
      wsetbits := wsetbits + count;
      OneAnswer(writes, asked, count);
      asked := asked + [count];
      if !good {
        done, bits, lo, hi := false, wbitmap[..], start + Written(writes(request), count), start + count;
        return;
      }
      request := request + 1;
    }
    bits := wbitmap[..];
    AllSet(bits);
    done := true;
  }

  lemma NothingStamped(sectors: seq<seq<nat>>, requests: seq<nat>, bits: seq<bool>, words: nat)
    requires |sectors| == |requests| == |bits|
    requires forall s :: 0 <= s < |bits| ==> !bits[s] && requests[s] == 0
    ensures Stamped(sectors, requests, bits, words, sectors, 0, 0) && Ones(bits) == 0
  {
    NoneSet(bits);
  }

  /** Word by word: is sector k of the buffer the stamp of `address`? */
  method SectorMatches(data: seq<nat>, k: nat, words: nat, address: nat) returns (same: bool)
    requires words > 0 && |Block(data, k, words)| == words
    ensures same <==> Block(data, k, words) == Stamp(address, words)
  {
    var base := k * words;
    ghost var b := Block(data, k, words);
    assert base + words <= |data|;
    hide Block;
    var i := 0;
    while i < words
      invariant 0 <= i <= words && b == data[base..base + words]
      invariant forall j :: 0 <= j < i ==> b[j] == address
    {
      if data[base + i] != address {
        assert b[i] != Stamp(address, words)[i];
        return false;
      }
      i := i + 1;
    }
    same := true;
  }

  /** Compares the sectors of one read with their addresses. */
  method Compare(drive: Drive, data: seq<nat>, lba: nat, got: nat) returns (unexpected: bool)
    requires drive.Valid() && lba + got <= |drive.sectors|
    requires forall k :: 0 <= k < got ==> Block(data, k, drive.words) == drive.sectors[lba + k]
    ensures !unexpected <==> forall s :: lba <= s < lba + got ==> drive.sectors[s] == Stamp(s, drive.words)
  {
    hide Stamp, Block;
    unexpected := false;
    var k := 0;
    while k < got
      invariant 0 <= k <= got
      invariant !unexpected <==> forall s :: lba <= s < lba + k ==> drive.sectors[s] == Stamp(s, drive.words)
    {
      assert Block(data, k, drive.words) == drive.sectors[lba + k];
      var same := SectorMatches(data, k, drive.words, lba + k);
      if !same {
        unexpected := true;
      }
      k := k + 1;
    }
  }

  /** The read pass: "Reading OK" exactly when every read came back in full and every sector
      holds its own address. */
  method ReadBack(drive: Drive, maxXfer: nat, random: nat -> nat, draw: nat, replies: nat -> Transfer)
      returns (r: Status, ghost asked: seq<nat>, next: nat)
    requires drive.Valid() && maxXfer > 1
    ensures r == Ok || r == InternalErr
    ensures r == Ok <==> FullUntil(replies, asked, |asked|) && AllStamped(drive.sectors, drive.words)
    ensures next == |asked|
  {
    hide Stamp, Full, Block;
    var total, lba := |drive.sectors|, 0;
    var unexpected := false;
    r, asked, next := Ok, [], 0;
    while lba < total && r == Ok
      invariant 0 <= lba <= total && next == |asked|
      invariant r == Ok ==> FullUntil(replies, asked, |asked|)
      invariant r != Ok ==> !FullUntil(replies, asked, |asked|)
      invariant !unexpected <==> forall s :: 0 <= s < lba ==> drive.sectors[s] == Stamp(s, drive.words)
      decreases total - lba, r == Ok
    {
      var sectors := Min(1 + Draw(random(draw + next), maxXfer - 1), total - lba);
      var got, data;
      r, got, data := drive.Read(lba, sectors, replies(next));
      FullIs(replies(next), sectors);
      if r == Ok && got != sectors {
        r := Incomplete;
      }
      asked := asked + [sectors];
      next := next + 1;
      var wrong := Compare(drive, data, lba, got);
      unexpected := unexpected || wrong;
      lba := lba + got;
    }
    if r != Ok || unexpected {
      r := InternalErr;
    }
  }

  lemma FullIs(t: Transfer, asked: nat)
    ensures Full(t, asked) <==> t.ok && Min(t.sectors, asked) == asked
  {
  }

  /** The address of boundary read i, in 32 bits: the last two sectors and the two behind them. */
  function BoundaryAt(total: nat, i: nat): nat {
    (total + W32 - 2 + i) % W32
  }

  lemma BoundaryIs(total: nat)
    requires 2 <= total < 0xFFFF_FFFF
    ensures BoundaryAt(total, 0) == total - 2 && BoundaryAt(total, 1) == total - 1
    ensures BoundaryAt(total, 2) == total && BoundaryAt(total, 3) == total + 1
  {
  }

  /** Reads behind the end of the drive deliver zeros; those inside it have to come back. */
  ghost predicate BoundaryGood(total: nat, replies: nat -> Transfer, from: nat) {
    forall i :: 0 <= i < 4 && BoundaryAt(total, i) < total ==> Full(replies(from + i), 1)
  }

  /** Four single sectors around the end of the drive; the first that fails ends the test. */
  method Boundary(drive: Drive, replies: nat -> Transfer, from: nat) returns (r: Status, ghost asked: seq<nat>)
    requires drive.Valid() && |drive.sectors| < W32
    ensures r == if BoundaryGood(|drive.sectors|, replies, from) then Ok else InternalErr
    ensures |asked| <= 4 && (r == Ok ==> |asked| == 4)
    ensures forall i :: 0 <= i < |asked| ==> asked[i] == BoundaryAt(|drive.sectors|, i)
  {
    hide BoundaryAt, Full;
    r, asked := Ok, [];
    var i := 0;
    while i < 4 && r == Ok
      invariant 0 <= i <= 4 && |asked| == i
      invariant forall k :: 0 <= k < i ==> asked[k] == BoundaryAt(|drive.sectors|, k)
      invariant r == Ok ==> forall k :: 0 <= k < i && BoundaryAt(|drive.sectors|, k) < |drive.sectors| ==> Full(replies(from + k), 1)
      invariant r != Ok ==> r == InternalErr && !BoundaryGood(|drive.sectors|, replies, from)
    {
      var lba := BoundaryAt(|drive.sectors|, i);
      if lba < |drive.sectors| {
        FullIs(replies(from + i), 1);
        var got, data;
        r, got, data := drive.Read(lba, 1, replies(from + i));
        if r != Ok || got != 1 {
          r := InternalErr;
        }
      }
      asked := asked + [lba];
      i := i + 1;
    }
  }

  /** The whole exercise on a drive that may be written.  `writingOk` is whether it prints
      "Writing OK", `filled` whether every sector was written, as `stamped` says one by one,
      and r what it reports in the end. */
  method Exercise(drive: Drive, maxXfer: nat, random: nat -> nat, writes: nat -> Transfer, replies: nat -> Transfer)
      returns (r: Status, writingOk: bool, filled: bool,
               ghost wrote: seq<nat>, ghost read: seq<nat>, ghost stamped: seq<bool>)
    requires drive.Valid() && maxXfer > 1 && |drive.sectors| < W32
    requires forall s :: 0 <= s < |drive.requests| ==> drive.requests[s] == 0
    modifies drive
    ensures drive.Valid() && |drive.sectors| == |stamped| == old(|drive.sectors|)
    ensures forall s :: 0 <= s < |stamped| ==>
      drive.sectors[s] == if stamped[s] then Stamp(s, drive.words) else old(drive.sectors)[s]
    ensures filled <==> forall s :: 0 <= s < |stamped| ==> stamped[s]
    ensures |wrote| > 0 <==> |stamped| > 0
    ensures forall i :: 0 <= i < |wrote| ==> wrote[i] > 0
    ensures filled <==> FullUntil(writes, wrote, |wrote|)
    ensures !filled ==> FullUntil(writes, wrote, |wrote| - 1) && Short(writes, wrote)
    ensures writingOk <==> filled || writes(|wrote| - 1).ok
    ensures !writingOk ==> r == IoErr
    ensures writingOk ==> r == if
      && FullUntil(replies, read, |read|) && AllStamped(drive.sectors, drive.words)
      && BoundaryGood(|drive.sectors|, replies, |read|) then Ok else InternalErr
  {
    hide Stamp, AllStamped, Full, Written, Ones, BoundaryGood;
    var done, wsetbits, draw;
    ghost var bits, lo, hi;
    r, done, wsetbits, draw, bits, wrote, lo, hi := Fill(drive, maxXfer, random, writes);
    writingOk, filled, read := r == Ok, done, [];
    stamped := seq(|bits|, s requires 0 <= s < |bits| => bits[s] && !(lo <= s < hi));
    if !done {
      assert !stamped[lo];
    }
    if r == Ok {
      var next;
      r, read, next := ReadBack(drive, maxXfer, random, draw, replies);
      if r == Ok {
        ghost var asked;
        r, asked := Boundary(drive, replies, next);
      }
    }
  }

  /** Writes that come back short without an error: "Writing OK" is printed although the only
      sector of the drive still holds what it did, and the read pass then finds it out. */
  method ShortWrite(random: nat -> nat, writes: nat -> Transfer, replies: nat -> Transfer)
      returns (drive: Drive, r: Status, writingOk: bool, filled: bool, ghost wrote: seq<nat>)
    requires forall i :: writes(i) == Transfer(true, 0)
    ensures drive.words == 1 && drive.sectors == [[7]]
    ensures wrote != [] && wrote[0] > 0 && writingOk && !filled && r == InternalErr
  {
    drive := new Drive(1, [[7]]);
    ghost var read, stamped;
    assert [7] != Stamp(0, 1) by { assert Stamp(0, 1)[0] == 0; }
    r, writingOk, filled, wrote, read, stamped := Exercise(drive, 2, random, writes, replies);
    assert !Full(writes(0), wrote[0]);
  }
}
