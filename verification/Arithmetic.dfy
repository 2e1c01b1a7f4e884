/** Multiplication and division by a variable: the few facts the solver does not find. */
module Arithmetic {
  lemma MulLe(a: nat, b: nat, c: nat)
    requires a <= b
    ensures a * c <= b * c
  {
  }

  lemma MulGap(a: nat, b: nat, c: nat)
    ensures a < b ==> a * c + c <= b * c
  {
    if a < b {
      assert (a + 1) * c == a * c + c;
      MulLe(a + 1, b, c);
    }
  }

  lemma DivUnique(bs: nat, q: nat, r: nat)
    requires r < bs
    ensures (q * bs + r) / bs == q && (q * bs + r) % bs == r
  {
    var p := q * bs + r;
    var d := p / bs;
    assert p == d * bs + p % bs;
    MulGap(q, d, bs);
    MulGap(d, q, bs);
  }

  /** Bitwise and of two naturals. */
  function And(a: nat, b: nat): nat {
    if a == 0 || b == 0 then 0 else 2 * And(a / 2, b / 2) + if a % 2 == 1 && b % 2 == 1 then 1 else 0
  }

  /** The block size guard, as the code tests it: n & (n - 1). */
  predicate PowerOfTwo(n: nat) {
    n != 0 && And(n, n - 1) == 0
  }

  function Pow2(k: nat): (r: nat)
    ensures r > 0
  {
    if k == 0 then 1 else 2 * Pow2(k - 1)
  }

  lemma {:induction false} AndSelf(n: nat)
    ensures And(n, n) == n
  {
    if n > 0 {
      var h, d := n / 2, n % 2;
      AndSelf(h);
      assert n == 2 * h + d;
    }
  }

  /** The bit test finds exactly the powers of two. */
  lemma {:induction false} BitTest(n: nat)
    ensures PowerOfTwo(n) <==> exists k: nat :: Pow2(k) == n
  {
    if n == 0 {
    } else if n == 1 {
      assert Pow2(0) == 1;
    } else if n % 2 == 1 {
      AndSelf(n / 2);
      assert (n - 1) / 2 == n / 2;
      forall k: nat ensures Pow2(k) != n {
      }
    } else {
      assert (n - 1) / 2 == n / 2 - 1;
      BitTest(n / 2);
      if PowerOfTwo(n / 2) {
        var k: nat :| Pow2(k) == n / 2;
        assert Pow2(k + 1) == n;
      }
      forall k: nat | Pow2(k) == n ensures PowerOfTwo(n / 2) {
        assert Pow2(k - 1) == n / 2;
      }
    }
  }

  lemma {:induction false} Pow2Sum(j: nat, k: nat)
    ensures Pow2(j + k) == Pow2(j) * Pow2(k)
  {
    if j > 0 {
      Pow2Sum(j - 1, k);
    }
  }

  /** Masking with one less than a power of two is the remainder, so clearing those bits
      rounds down to a multiple. */
  lemma {:induction false} MaskIs(n: nat, k: nat)
    ensures And(n, Pow2(k) - 1) == n % Pow2(k)
  {
    hide And;
    if k == 0 {
      NoMask(n);
    } else {
      var m := Pow2(k - 1);
      MaskIs(n / 2, k - 1);
      HalfMod(n, m);
      MaskStep(n, m);
    }
  }

  lemma NoMask(n: nat)
    ensures And(n, 0) == 0 && n % 1 == 0
  {
  }

  lemma MaskStep(n: nat, m: nat)
    requires m > 0
    ensures And(n, 2 * m - 1) == 2 * And(n / 2, m - 1) + n % 2
  {
    var b := 2 * m - 1;
    assert b / 2 == m - 1 && b % 2 == 1;
    if n == 0 {
      assert And(0, m - 1) == 0;
    }
  }

  lemma HalfMod(n: nat, m: nat)
    requires m > 0
    ensures n % (2 * m) == 2 * (n / 2 % m) + n % 2
  {
    var h, b := n / 2, n % 2;
    var q, r := h / m, h % m;
    assert h == q * m + r;
    assert q * (2 * m) == 2 * (q * m);
    DivUnique(2 * m, q, 2 * r + b);
  }
}
