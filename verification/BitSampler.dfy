/** The rolling bit sampler of sim_console.c: BITSAMPLE and the sampling of a register. */
module BitSampler {
  function Sum(s: seq<int>): int {
    if s == [] then 0 else s[0] + Sum(s[1..])
  }

  lemma {:induction false} SumParts(a: seq<int>, b: seq<int>)
    ensures Sum(a + b) == Sum(a) + Sum(b)
  {
    if a == [] {
      assert a + b == b;
    } else {
      assert (a + b)[1..] == a[1..] + b;
      SumParts(a[1..], b);
    }
  }

  function Copies(n: nat, v: int): (s: seq<int>)
    ensures |s| == n
  {
    seq(n, i => v)
  }

  lemma {:induction false} SumCopies(n: nat, v: int)
    ensures Sum(Copies(n, v)) == n * v
  {
    if n > 0 {
      assert Copies(n, v)[1..] == Copies(n - 1, v);
      SumCopies(n - 1, v);
    }
  }

  /** The last n elements. */
  function Last(s: seq<int>, n: nat): (r: seq<int>)
    requires n <= |s|
    ensures |r| == n
  {
    s[|s| - n..]
  }

  /** A new sample in place of the oldest. */
  function Pushed(s: seq<int>, v: int): seq<int> {
    if s == [] then [v] else s[1..] + [v]
  }

  class BitSample {
    var tot: int
    var ptr: nat
    const depth: nat
    const vals: array<int>

    ghost predicate Valid()
      reads this, vals
    {
      && depth > 0 && vals.Length == depth && ptr < depth
      && tot == Sum(Samples())
    }

    /** The samples held, the oldest first. */
    ghost function Samples(): seq<int>
      reads this, vals
    {
      if ptr <= vals.Length then vals[ptr..] + vals[..ptr] else []
    }

    /** A zeroed sampler of the given depth. */
    constructor (depth: nat)
      requires depth > 0
      ensures Valid() && this.depth == depth && fresh(vals)
      ensures Samples() == Copies(depth, 0)
    {
      this.tot, this.ptr, this.depth := 0, 0, depth;
      vals := new int[depth](i => 0);
      new;
      assert Samples() == Copies(depth, 0);
      SumCopies(depth, 0);
    }

    /** sim_rem_record_reg_bit: the oldest sample is retired. */
    method Record(val: int)
      requires Valid()
      modifies this, vals
      ensures Valid()
      ensures Samples() == Pushed(old(Samples()), val)
    {
      ghost var was, p := vals[..], ptr;
      SumOfParts(was, p);
      tot := tot - vals[ptr];
      tot := tot + val;
      vals[ptr] := val;
      ptr := ptr + 1;
      if ptr >= depth {
        ptr := 0;
      }
      Rotated(was, p, val, ptr);
    }

    /** sim_rem_set_reg_bit: every sample becomes the value. */
    method Set(val: int)
      requires Valid()
      modifies this, vals
      ensures Valid()
      ensures Samples() == Copies(depth, val)
    {
      hide Sum;
      tot := depth * val;
      var i := 0;
      while i < depth
        invariant 0 <= i <= depth && tot == depth * val && ptr == old(ptr)
        invariant forall k :: 0 <= k < i ==> vals[k] == val
      {
        vals[i] := val;
        i := i + 1;
      }
      assert vals[..] == Copies(depth, val);
      assert vals[ptr..] == vals[..][ptr..] && vals[..ptr] == vals[..][..ptr];
      CopiesTurned(depth, val, ptr);
      SumCopies(depth, val);
    }
  }

  lemma CopiesTurned(n: nat, v: int, p: nat)
    requires p <= n
    ensures Copies(n, v)[p..] + Copies(n, v)[..p] == Copies(n, v)
  {
  }

  lemma SumOfParts(s: seq<int>, p: nat)
    requires p < |s|
    ensures Sum(s[p..] + s[..p]) == s[p] + Sum(s[p + 1..] + s[..p])
  {
    var r := s[p..] + s[..p];
    assert r[0] == s[p] && r[1..] == s[p + 1..] + s[..p];
  }

  lemma Rotated(was: seq<int>, p: nat, val: int, q: nat)
    requires p < |was| && q == if p + 1 == |was| then 0 else p + 1
    ensures var now := was[p := val];
      && now[q..] + now[..q] == (was[p..] + was[..p])[1..] + [val]
      && Sum(now[q..] + now[..q]) == Sum(was[p + 1..] + was[..p]) + val
  {
    var now := was[p := val];
    var r := was[p + 1..] + was[..p];
    assert (was[p..] + was[..p])[1..] == r;
    assert now[q..] + now[..q] == r + [val];
    SumParts(r, [val]);
    assert Sum([val]) == val;
  }

  // ------------------------------------------------------------------ whole runs

  datatype Op = Recorded(val: int) | Filled(val: int)

  /** Every sample ever taken, after `depth` zeros; a value set while the simulator is
      stopped counts as `depth` samples. */
  function History(depth: nat, ops: seq<Op>): (h: seq<int>)
    ensures |h| >= depth
  {
    if ops == [] then Copies(depth, 0)
    else
      var before, op := History(depth, ops[..|ops| - 1]), ops[|ops| - 1];
      before + if op.Recorded? then [op.val] else Copies(depth, op.val)
  }

  function Ones(s: seq<int>): nat {
    if s == [] then 0 else (if s[0] == 1 then 1 else 0) + Ones(s[1..])
  }

  lemma {:induction false} SumIsOnes(s: seq<int>)
    requires forall i :: 0 <= i < |s| ==> s[i] == 0 || s[i] == 1
    ensures Sum(s) == Ones(s)
  {
    if s != [] {
      SumIsOnes(s[1..]);
    }
  }

  lemma {:induction false} HistoryBits(depth: nat, ops: seq<Op>)
    requires forall i :: 0 <= i < |ops| ==> ops[i].val == 0 || ops[i].val == 1
    ensures forall i :: 0 <= i < |History(depth, ops)| ==> History(depth, ops)[i] == 0 || History(depth, ops)[i] == 1
  {
    if ops != [] {
      HistoryBits(depth, ops[..|ops| - 1]);
    }
  }

  lemma LastMore(h: seq<int>, n: nat, v: int)
    requires 0 < n <= |h|
    ensures Last(h + [v], n) == Pushed(Last(h, n), v)
    ensures Last(h + Copies(n, v), n) == Copies(n, v)
  {
  }

  predicate AllBits(ops: seq<Op>) {
    forall i :: 0 <= i < |ops| ==> ops[i].val == 0 || ops[i].val == 1
  }

  /** After any run of operations the sampler holds the last `depth` samples, and its total
      is their sum: the number of ones among them. */
  method Run(depth: nat, ops: seq<Op>) returns (bit: BitSample)
    requires depth > 0
    ensures fresh(bit) && bit.Valid() && bit.depth == depth
    ensures bit.Samples() == Last(History(depth, ops), depth)
    ensures AllBits(ops) ==> bit.tot == Ones(bit.Samples())
  {
    hide Last, History, Sum, Ones, Copies, AllBits, BitSample.Samples, Pushed;
    bit := new BitSample(depth);
    Nothing(depth);
    var i := 0;
    while i < |ops|
      invariant 0 <= i <= |ops| && fresh(bit) && fresh(bit.vals) && bit.Valid() && bit.depth == depth
      invariant bit.Samples() == Last(History(depth, ops[..i]), depth)
    {
      OneMore(depth, ops, i);
      match ops[i] {
        case Recorded(v) => bit.Record(v);
        case Filled(v) => bit.Set(v);
      }
      i := i + 1;
    }
    assert ops[..i] == ops;
    TotalIsOnes(depth, ops);
  }

  lemma TotalIsOnes(depth: nat, ops: seq<Op>)
    ensures AllBits(ops) ==>
      Sum(Last(History(depth, ops), depth)) == Ones(Last(History(depth, ops), depth))
  {
    hide History, Last;
    if AllBits(ops) {
      HistoryBits(depth, ops);
      LastBits(History(depth, ops), depth);
      SumIsOnes(Last(History(depth, ops), depth));
    }
  }

  lemma LastBits(h: seq<int>, n: nat)
    requires n <= |h| && forall i :: 0 <= i < |h| ==> h[i] == 0 || h[i] == 1
    ensures forall i :: 0 <= i < n ==> Last(h, n)[i] == 0 || Last(h, n)[i] == 1
  {
  }

  lemma Nothing(depth: nat)
    ensures History(depth, []) == Copies(depth, 0) && Last(Copies(depth, 0), depth) == Copies(depth, 0)
  {
  }

  lemma OneMore(depth: nat, ops: seq<Op>, i: nat)
    requires depth > 0 && i < |ops|
    ensures var before, after := Last(History(depth, ops[..i]), depth), Last(History(depth, ops[..i + 1]), depth);
      after == if ops[i].Recorded? then Pushed(before, ops[i].val) else Copies(depth, ops[i].val)
  {
    hide Last, Copies;
    assert ops[..i + 1][..i] == ops[..i];
    LastMore(History(depth, ops[..i]), depth, ops[i].val);
  }

  // ------------------------------------------------------------------ registers

  /** Bit i of a value. */
  function Bit(value: nat, i: nat): (b: nat)
    ensures b < 2
    decreases i
  {
    if i == 0 then value % 2 else Bit(value / 2, i - 1)
  }

  function Shifted(value: nat, n: nat): nat
    decreases n
  {
    if n == 0 then value else Shifted(value / 2, n - 1)
  }

  lemma {:induction false} ShiftedBit(value: nat, n: nat)
    ensures Shifted(value, n) % 2 == Bit(value, n) && Shifted(value, n + 1) == Shifted(value, n) / 2
    decreases n
  {
    if n > 0 {
      ShiftedBit(value / 2, n - 1);
    }
  }

  /** Samplers that share nothing. */
  ghost predicate Separate(bits: seq<BitSample>) {
    forall i, j :: 0 <= i < j < |bits| ==> bits[i] != bits[j] && bits[i].vals != bits[j].vals
  }

  function Sampled(s: seq<int>, running: bool, v: int): seq<int> {
    if running then Pushed(s, v) else Copies(|s|, v)
  }

  /** sim_rem_collect_reg_bits: sampler i takes bit offset + i of the register's value, as
      one sample while the simulator runs and as all of them while it is stopped. */
  method Collect(bits: seq<BitSample>, value: nat, offset: nat, running: bool)
    requires Separate(bits) && forall i :: 0 <= i < |bits| ==> bits[i].Valid()
    modifies set i | 0 <= i < |bits| :: bits[i]
    modifies set i | 0 <= i < |bits| :: bits[i].vals
    ensures forall i :: 0 <= i < |bits| ==>
      bits[i].Valid() && bits[i].Samples() == Sampled(old(bits[i].Samples()), running, Bit(value, offset + i))
  {
    hide Bit, Sampled, BitSample.Valid, BitSample.Samples;
    var val := Shifted(value, offset);
    var i := 0;
    while i < |bits|
      invariant 0 <= i <= |bits| && val == Shifted(value, offset + i)
      invariant forall k :: 0 <= k < |bits| ==> bits[k].Valid()
      invariant forall k :: i <= k < |bits| ==> bits[k].Samples() == old(bits[k].Samples())
      invariant forall k :: 0 <= k < i ==>
        bits[k].Samples() == Sampled(old(bits[k].Samples()), running, Bit(value, offset + k))
    {
      ShiftedBit(value, offset + i);
      Sample(bits[i], running, val % 2);
      val := val / 2;
      i := i + 1;
    }
  }

  method Sample(bit: BitSample, running: bool, v: int)
    requires bit.Valid()
    modifies bit, bit.vals
    ensures bit.Valid() && bit.Samples() == Sampled(old(bit.Samples()), running, v)
  {
    if running {
      bit.Record(v);
    } else {
      bit.Set(v);
    }
  }
}
