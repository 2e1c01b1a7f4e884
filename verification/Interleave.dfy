/** _sim_disk_rdsect_interleave of sim_disk.c: the map from logical sectors to the physical
    sectors of a track-interleaved and skewed disk. */
module Interleave {
  import opened Arithmetic
  import opened Bytes
  import opened Options

  const W16 := 0x10000
  const RX_SECTORS := 26
  const RX_INTERLEAVE := 2
  const RX_SKEW := 6

  function Track(p: nat, n: nat): nat
    requires n > 0
  {
    p / n
  }

  function Sector(p: nat, n: nat): nat
    requires n > 0
  {
    p % n
  }

  function Times(a: nat, b: nat): nat { a * b }

  lemma Split(p: nat, n: nat)
    requires n > 0
    ensures p == Times(Track(p, n), n) + Sector(p, n) && Sector(p, n) < n
  {
  }

  lemma Join(n: nat, q: nat, r: nat)
    requires r < n
    ensures Track(Times(q, n) + r, n) == q && Sector(Times(q, n) + r, n) == r
  {
    DivUnique(n, q, r);
  }

  lemma Wrapped(i: nat, n: nat)
    requires n > 0
    ensures i < n ==> Sector(i, n) == i
    ensures n <= i < 2 * n ==> Sector(i, n) == i - n
  {
    if i < n {
      DivUnique(n, 0, i);
    } else if i < 2 * n {
      DivUnique(n, 1, i - n);
    }
  }

  /** The position of logical sector s within its track, before the skew. */
  function Slot(s: nat, n: nat, interleave: nat): nat {
    var i := s * interleave % W16;
    if i >= n then (i + 1) % W16 else i
  }

  /** Position i turned by k places on a track of n sectors. */
  function Turned(i: nat, k: nat, n: nat): nat
    requires n > 0
  {
    Sector(i + k, n)
  }

  /** The physical sector of a logical one, in 16-bit track and position arithmetic. */
  function Physical(sectno: nat, n: nat, interleave: nat, skew: nat, offset: nat): nat
    requires n > 0
  {
    var track := Track(sectno, n) % W16;
    Turned(Slot(Sector(sectno, n), n, interleave), Times(track, skew), n) % W16 + Times(track, n) + offset
  }

  /** The logical position on a track of what interleave 2 puts in slot r. */
  function Unslot(r: nat, n: nat): nat {
    if r % 2 == 0 then r / 2 else (n + r - 1) / 2
  }

  function Unturned(r: nat, k: nat, n: nat): nat
    requires n > 0
  {
    Split(k, n);
    Sector(r + (n - Sector(k, n)), n)
  }

  function Logical(physical: nat, n: nat, skew: nat, offset: nat): nat
    requires n > 0 && physical >= offset
  {
    var p := physical - offset;
    var track := Track(p, n);
    Times(track, n) + Unslot(Unturned(Sector(p, n), Times(track, skew), n), n)
  }

  lemma ModOf(i: nat, m: nat, n: nat)
    requires i < n && m < n
    ensures Sector(i + m, n) == if i + m < n then i + m else i + m - n
  {
    if i + m < n {
      DivUnique(n, 0, i + m);
    } else {
      DivUnique(n, 1, i + m - n);
    }
  }

  lemma ModAdd(i: nat, k: nat, n: nat)
    requires n > 0
    ensures Sector(i + k, n) == Sector(Sector(i, n) + Sector(k, n), n)
  {
    hide Times, Sector, Track;
    Split(i, n);
    Split(k, n);
    var q, a, p, b := Track(i, n), Sector(i, n), Track(k, n), Sector(k, n);
    Distribute(q, p, n);
    Split(a + b, n);
    var d, s := Track(a + b, n), Sector(a + b, n);
    Distribute(q + p, d, n);
    Join(n, q + p + d, s);
    assert i + k == Times(q + p + d, n) + s;
  }

  lemma Distribute(a: nat, b: nat, n: nat)
    ensures Times(a + b, n) == Times(a, n) + Times(b, n)
  {
  }

  /** Turning is undone by turning back. */
  lemma TurnBack(i: nat, k: nat, n: nat)
    requires i < n
    ensures Turned(i, k, n) < n && Unturned(i, k, n) < n
    ensures Unturned(Turned(i, k, n), k, n) == i
    ensures Turned(Unturned(i, k, n), k, n) == i
  {
    hide Sector;
    var m := Sector(k, n);
    Split(k, n);
    Wrapped(i, n);
    ModAdd(i, k, n);
    ModOf(i, m, n);
    var t := Turned(i, k, n);
    BackMod(t, m, n);
    BackMod(i, m, n);
    var u := Unturned(i, k, n);
    Wrapped(u, n);
    ModAdd(u, k, n);
    ModOf(u, m, n);
  }

  lemma BackMod(t: nat, m: nat, n: nat)
    requires t < n && m < n
    ensures Sector(t + (n - m), n) == if t >= m then t - m else t + n - m
  {
    if t >= m {
      DivUnique(n, 1, t - m);
    } else {
      DivUnique(n, 0, t + n - m);
    }
  }

  lemma SlotIs(s: nat, n: nat)
    requires s < n <= 0x8000
    ensures Slot(s, n, 2) == if 2 * s < n then 2 * s else 2 * s + 1
  {
  }

  /** On an even track interleave 2 fills the even slots and then the odd ones. */
  lemma SlotEven(s: nat, n: nat)
    requires s < n && n % 2 == 0 && n <= 0x8000
    ensures var i := Slot(s, n, 2); Sector(i, n) < n && Unslot(Sector(i, n), n) == s
  {
    SlotIs(s, n);
    var i := Slot(s, n, 2);
    hide Slot, Sector;
    Wrapped(i, n);
    UnslotIs(i, n);
  }

  lemma UnslotIs(i: nat, n: nat)
    requires n % 2 == 0
    ensures i % 2 == 0 && i < n ==> Unslot(i, n) == i / 2
    ensures i % 2 == 1 && n <= i ==> Unslot(i - n, n) == (i - 1) / 2
  {
  }

  lemma UnslotEven(r: nat, n: nat)
    requires r < n && n % 2 == 0 && n <= 0x8000
    ensures Unslot(r, n) < n && Sector(Slot(Unslot(r, n), n, 2), n) == r
  {
    var s := Unslot(r, n);
    assert s < n && (2 * s == r || 2 * s + 1 == r + n);
    hide Unslot;
    SlotIs(s, n);
    hide Slot, Sector;
    Wrapped(r, n);
    Wrapped(r + n, n);
  }

  lemma Turns(i: nat, k: nat, n: nat)
    requires n > 0
    ensures Turned(i, k, n) == Turned(Sector(i, n), k, n)
  {
    hide Sector;
    Split(i, n);
    Wrapped(Sector(i, n), n);
    ModAdd(i, k, n);
    ModAdd(Sector(i, n), k, n);
  }

  /** Every logical sector of T tracks comes back from its physical sector, which lies on
      the same track. */
  lemma ThereAndBack(sectno: nat, n: nat, skew: nat, offset: nat, tracks: nat)
    requires 0 < n <= 0x8000 && n % 2 == 0 && tracks <= W16 && sectno < Times(tracks, n)
    ensures var p := Physical(sectno, n, 2, skew, offset);
      offset <= p < offset + Times(tracks, n) && Logical(p, n, skew, offset) == sectno
  {
    hide Slot, Unslot, Turned, Unturned, Track, Sector, Times;
    var track, s := Track(sectno, n), Sector(sectno, n);
    Split(sectno, n);
    TrackBound(sectno, n, tracks);
    SlotEven(s, n);
    InTracks(track, tracks, n);
    var i, k := Slot(s, n, 2), Times(track, skew);
    Turns(i, k, n);
    TurnBack(Sector(i, n), k, n);
    Join(n, track, Turned(i, k, n));
  }

  lemma InTracks(track: nat, tracks: nat, n: nat)
    requires track < tracks
    ensures Times(track, n) + n <= Times(tracks, n)
  {
    MulGap(track, tracks, n);
  }

  lemma TrackBound(sectno: nat, n: nat, tracks: nat)
    requires n > 0 && sectno < Times(tracks, n)
    ensures Track(sectno, n) < tracks
  {
    Split(sectno, n);
    if tracks <= Track(sectno, n) {
      MulLe(tracks, Track(sectno, n), n);
    }
  }

  /** Every physical sector of T tracks is that of a logical sector. */
  lemma BackAndThere(p: nat, n: nat, skew: nat, offset: nat, tracks: nat)
    requires 0 < n <= 0x8000 && n % 2 == 0 && tracks <= W16 && offset <= p < offset + Times(tracks, n)
    ensures var sectno := Logical(p, n, skew, offset);
      sectno < Times(tracks, n) && Physical(sectno, n, 2, skew, offset) == p
  {
    hide Slot, Unslot, Turned, Unturned, Track, Sector, Times;
    var q := p - offset;
    var track, r := Track(q, n), Sector(q, n);
    Split(q, n);
    TrackBound(q, n, tracks);
    InTracks(track, tracks, n);
    var k := Times(track, skew);
    TurnBack(r, k, n);
    var i := Unturned(r, k, n);
    UnslotEven(i, n);
    var s := Unslot(i, n);
    Join(n, track, s);
    Turns(Slot(s, n, 2), k, n);
  }

  /** Are the physical sectors of T tracks all different? */
  ghost predicate OneToOne(n: nat, skew: nat, offset: nat, tracks: nat)
    requires n > 0
  {
    forall a: nat, b: nat ::
      (a < Times(tracks, n) && b < Times(tracks, n) && Physical(a, n, 2, skew, offset) == Physical(b, n, 2, skew, offset))
      ==> a == b
  }

  /** Interleave 2 works exactly for an even number of at most 32768 sectors on a track, or one. */
  lemma OneToOneIff(n: nat, skew: nat, offset: nat, tracks: nat)
    requires 0 < n < W16 && 0 < tracks <= W16
    ensures OneToOne(n, skew, offset, tracks) <==> (n % 2 == 0 && n <= 0x8000) || n == 1
  {
    if n > 0x8000 {
      WideCollides(n, skew, offset, 0);
      MulLe(1, tracks, n);
      assert n <= Times(tracks, n);
    } else if n % 2 == 0 {
      forall a: nat, b: nat | a < Times(tracks, n) && b < Times(tracks, n) &&
        Physical(a, n, 2, skew, offset) == Physical(b, n, 2, skew, offset) ensures a == b
      {
        ThereAndBack(a, n, skew, offset, tracks);
        ThereAndBack(b, n, skew, offset, tracks);
      }
    } else if n == 1 {
      forall a: nat | a < Times(tracks, n) ensures Physical(a, n, 2, skew, offset) == a + offset {
        TrackBound(a, n, tracks);
      }
    } else {
      OddCollides(n, skew, offset);
      MulLe(1, tracks, n);
      assert n <= Times(tracks, n);
    }
  }

  lemma OnTrackZero(s: nat, n: nat)
    requires s < n
    ensures Track(s, n) == 0 && Sector(s, n) == s && forall k :: Times(0, k) == 0
  {
    Join(n, 0, s);
  }

  /** Beyond 32768 sectors the 16-bit position wraps and its first slots are taken twice. */
  lemma WideCollides(n: nat, skew: nat, offset: nat, s: nat)
    requires 0x8000 < n < 0x1_0000 && 0x8000 + s < n
    ensures Physical(s, n, 2, skew, offset) == Physical(0x8000 + s, n, 2, skew, offset)
  {
    hide Turned, Track, Sector, Times;
    OnTrackZero(s, n);
    OnTrackZero(0x8000 + s, n);
    assert Slot(s, n, 2) == Slot(0x8000 + s, n, 2);
  }

  /** On an odd track the slot after the wrap is taken twice. */
  lemma OddCollides(n: nat, skew: nat, offset: nat)
    requires 1 < n < 0x8000 && n % 2 == 1
    ensures (n + 1) / 2 != 1 && Physical(1, n, 2, skew, offset) == Physical((n + 1) / 2, n, 2, skew, offset)
  {
    hide Slot, Turned, Track, Sector, Times;
    var b := (n + 1) / 2;
    assert 2 * b == n + 1;
    SlotIs(1, n);
    SlotIs(b, n);
    OnTrackZero(1, n);
    OnTrackZero(b, n);
    Wrapped(2, n);
    Wrapped(n + 2, n);
    Turns(2, 0, n);
    Turns(n + 2, 0, n);
  }

  /** The RX01 and RX02: 26 * T logical sectors onto the T tracks after track 0. */
  lemma RxBijection(tracks: nat, sectno: nat, physical: nat)
    requires tracks <= W16
    ensures sectno < 26 * tracks ==>
      var p := Physical(sectno, RX_SECTORS, RX_INTERLEAVE, RX_SKEW, RX_SECTORS);
      26 <= p < 26 * (tracks + 1) && Logical(p, RX_SECTORS, RX_SKEW, RX_SECTORS) == sectno
    ensures 26 <= physical < 26 * (tracks + 1) ==>
      var s := Logical(physical, RX_SECTORS, RX_SKEW, RX_SECTORS);
      s < 26 * tracks && Physical(s, RX_SECTORS, RX_INTERLEAVE, RX_SKEW, RX_SECTORS) == physical
  {
    hide Physical, Logical;
    if sectno < 26 * tracks {
      ThereAndBack(sectno, 26, 6, 26, tracks);
    }
    if 26 <= physical < 26 * (tracks + 1) {
      BackAndThere(physical, 26, 6, 26, tracks);
    }
  }

  /** The place of logical sector s on track t of an RX disk: every second place, first the
      even and then the odd ones, the whole track turned 6 places for each track before. */
  function RxPlace(t: nat, s: nat): nat
    requires s < 26
  {
    ((if s < 13 then 2 * s else 2 * s - 25) + 6 * t) % 26
  }

  lemma RxPlaced(t: nat, s: nat)
    requires t < 0x1_0000 && s < 26
    ensures Physical(26 * t + s, RX_SECTORS, RX_INTERLEAVE, RX_SKEW, RX_SECTORS) == 26 + 26 * t + RxPlace(t, s)
  {
    hide Turned, Track, Sector, Times, RxPlace;
    TimesIs(t);
    Join(26, t, s);
    SlotIs(s, 26);
    var i := Slot(s, 26, 2);
    Wrapped(i, 26);
    hide Slot;
    Turns(i, 6 * t, 26);
    PlaceTurned(t, s);
    SmallWord(t, t);
    SmallWord(Turned(i, 6 * t, 26), 26);
  }

  lemma TimesIs(t: nat)
    ensures Times(t, 26) == 26 * t && Times(t, 6) == 6 * t
  {
  }

  lemma PlaceTurned(t: nat, s: nat)
    requires s < 26
    ensures Turned(if s < 13 then 2 * s else 2 * s - 25, 6 * t, 26) == RxPlace(t, s) < 26
  {
  }

  lemma SmallWord(t: nat, n: nat)
    requires t < W16 && t <= n
    ensures t % W16 == t
  {
  }

  lemma SameRest(a: nat, t: nat)
    ensures (26 * t + a) % 26 == a % 26
  {
    DivUnique(26, t + a / 26, a % 26);
  }

  lemma Further(x: nat, k: nat)
    ensures (x + k) % 26 == (x % 26 + k) % 26
  {
    SameRest(x % 26 + k, x / 26);
  }

  /** Successive sectors of a track are two places apart, three where the odd places begin,
      and a track begins 6 places further than the one before. */
  lemma RxSteps(t: nat, s: nat)
    requires s < 25
    ensures RxPlace(t, s + 1) == (RxPlace(t, s) + if s == 12 then 3 else 2) % 26
    ensures RxPlace(t + 1, 0) == (RxPlace(t, 0) + 6) % 26
  {
    var x := (if s < 13 then 2 * s else 2 * s - 25) + 6 * t;
    Further(x, if s == 12 then 3 else 2);
    if s == 12 {
      SameRest(1 + 6 * t, 1);
    }
    Further(6 * t, 6);
  }

  /** Sector by sector through the map, until a read fails. */
  method ReadInterleaved(read: nat -> Option<seq<byte>>, lba: nat, sects: nat, n: nat, interleave: nat,
                         skew: nat, offset: nat) returns (ok: bool, sectsread: nat, blocks: seq<seq<byte>>)
    requires n > 0 && sects > 0
    ensures 1 <= sectsread <= sects && |blocks| == if ok then sectsread else sectsread - 1
    ensures forall k :: 0 <= k < |blocks| ==> read(Physical(lba + k, n, interleave, skew, offset)) == Some(blocks[k])
    ensures ok ==> sectsread == sects
    ensures !ok ==> read(Physical(lba + (sectsread - 1), n, interleave, skew, offset)).None?
  {
    hide Turned, Slot, Track, Sector, Times;
    blocks, sectsread, ok := [], 0, true;
    var sectno := lba;
    var more := true;
    while more
      invariant sectsread <= sects && sectno == lba + sectsread
      invariant |blocks| == if ok then sectsread else sectsread - 1
      invariant forall k :: 0 <= k < |blocks| ==> read(Physical(lba + k, n, interleave, skew, offset)) == Some(blocks[k])
      invariant !ok ==> !more && sectsread > 0 && read(Physical(lba + (sectsread - 1), n, interleave, skew, offset)).None?
      invariant ok ==> (more <==> sectsread < sects)
      decreases more, sects - sectsread
    {
      var track := Track(sectno, n) % W16;
      var i := Slot(Sector(sectno, n), n, interleave);
      var sector := Turned(i, Times(track, skew), n) % W16;
      var psa := sector + Times(track, n) + offset;
      var block := read(psa);
      if block.Some? {
        blocks := blocks + [block.value];
      } else {
        ok := false;
      }
      sectno := sectno + 1;
      sectsread := sectsread + 1;
      more := sectsread < sects && ok;
    }
  }
}
