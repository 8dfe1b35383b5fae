/** Bit patterns of unsigned integers, and rounding up to a power of two. */
module Bits {
  function Pow2(k: nat): (p: nat)
    ensures p > 0
  {
    if k == 0 then 1 else 2 * Pow2(k - 1)
  }

  /** Bitwise `|` and `&` of unsigned integers. */
  function Or(x: nat, y: nat): nat {
    if x == 0 && y == 0 then 0 else 2 * Or(x / 2, y / 2) + (if x % 2 == 1 || y % 2 == 1 then 1 else 0)
  }

  function And(x: nat, y: nat): nat {
    if x == 0 || y == 0 then 0 else 2 * And(x / 2, y / 2) + (if x % 2 == 1 && y % 2 == 1 then 1 else 0)
  }

  function Shr(x: nat, k: nat): nat {
    if k == 0 then x else Shr(x / 2, k - 1)
  }

  /** `k` one bits. */
  function Ones(k: nat): nat {
    if k == 0 then 0 else 2 * Ones(k - 1) + 1
  }

  lemma {:induction false} OnesValue(k: nat)
    ensures Ones(k) == Pow2(k) - 1
  {
    if k > 0 {
      OnesValue(k - 1);
    }
  }

  /** The number of bits of `x` up to its highest one. */
  function Length(x: nat): (n: nat)
    ensures n == 0 <==> x == 0
  {
    if x == 0 then 0 else 1 + Length(x / 2)
  }

  lemma {:induction false} LengthBounds(x: nat)
    ensures x < Pow2(Length(x))
    ensures x > 0 ==> Pow2(Length(x) - 1) <= x
  {
    if x > 0 {
      LengthBounds(x / 2);
    }
  }

  lemma {:induction false} Pow2Monotone(j: nat, k: nat)
    requires j <= k
    ensures Pow2(j) <= Pow2(k)
  {
    if j < k {
      Pow2Monotone(j, k - 1);
    }
  }

  /** Masking with `k` ones is the remainder modulo the `k`-th power of two. */
  lemma {:induction false} MaskIsRemainder(x: nat, k: nat)
    ensures And(x, Ones(k)) == x % Pow2(k)
  {
    if k > 0 {
      MaskIsRemainder(x / 2, k - 1);
      var h, p := x / 2, Pow2(k - 1);
      assert x == 2 * h + x % 2;
      DoubleRemainder(h, x % 2, p);
      if x == 0 {
        assert And(x, Ones(k)) == 0;
      }
    }
  }

  lemma DoubleRemainder(h: nat, b: nat, p: nat)
    requires p > 0 && b < 2
    ensures (2 * h + b) % (2 * p) == 2 * (h % p) + b
  {
    var q, r := h / p, h % p;
    assert 2 * h + b == q * (2 * p) + (2 * r + b) by { assert h == q * p + r; }
    RemainderUnique(q, 2 * p, 2 * r + b);
  }

  lemma MultipleAtLeast(d: int, n: int)
    requires n >= 0
    ensures d >= 1 ==> d * n >= n
    ensures d <= -1 ==> d * n <= -n
  {
    if d >= 1 {
      assert (d - 1) * n >= 0;
    } else if d <= -1 {
      assert (-1 - d) * n >= 0;
    }
  }

  lemma RemainderUnique(q: int, n: int, r: int)
    requires 0 <= r < n
    ensures (q * n + r) % n == r
  {
    var x := q * n + r;
    var d := x / n - q;
    assert x == (x / n) * n + x % n;
    assert d * n == r - x % n;
    MultipleAtLeast(d, n);
  }

  lemma SuccessorRemainder(c: nat, n: nat)
    requires n > 0
    ensures (c % n + 1) % n == (c + 1) % n
  {
    var q, r := c / n, c % n;
    assert c == q * n + r;
    if r + 1 < n {
      RemainderUnique(q, n, r + 1);
    } else {
      assert c + 1 == (q + 1) * n + 0;
      RemainderUnique(q + 1, n, 0);
      RemainderUnique(1, n, 0);
    }
  }

  // ---- Smearing ----

  lemma {:induction false} ShrOr(x: nat, y: nat, k: nat)
    ensures Shr(Or(x, y), k) == Or(Shr(x, k), Shr(y, k))
  {
    if k > 0 {
      assert Or(x, y) / 2 == Or(x / 2, y / 2);
      ShrOr(x / 2, y / 2, k - 1);
    }
  }

  lemma {:induction false} ShrShr(x: nat, j: nat, k: nat)
    ensures Shr(Shr(x, j), k) == Shr(x, j + k)
  {
    if j > 0 {
      ShrShr(x / 2, j - 1, k);
    }
  }

  lemma {:induction false} ShrOnes(n: nat, k: nat)
    ensures Shr(Ones(n), k) == if k <= n then Ones(n - k) else 0
  {
    if k > 0 {
      if n == 0 {
        ShrOnes(0, k - 1);
      } else {
        assert Ones(n) / 2 == Ones(n - 1);
        ShrOnes(n - 1, k - 1);
      }
    }
  }

  /** `h` followed by `k` one bits. */
  function Append(h: nat, k: nat): nat {
    if k == 0 then h else 2 * Append(h, k - 1) + 1
  }

  lemma {:induction false} OrOnes(x: nat, k: nat)
    ensures Or(x, Ones(k)) == Append(Shr(x, k), k)
  {
    if k > 0 {
      assert Ones(k) / 2 == Ones(k - 1) && Ones(k) % 2 == 1;
      OrOnes(x / 2, k - 1);
    } else {
      OrZero(x);
    }
  }

  lemma {:induction false} OrZero(x: nat)
    ensures Or(x, 0) == x
  {
    if x > 0 {
      OrZero(x / 2);
    }
  }

  lemma {:induction false} AppendOnes(j: nat, k: nat)
    ensures Append(Ones(j), k) == Ones(j + k)
  {
    if k > 0 {
      AppendOnes(j, k - 1);
    }
  }

  /** The highest `m` of `len` bits are ones. */
  predicate Smeared(a: nat, len: nat, m: nat) {
    m <= len && Shr(a, len - m) == Ones(m)
  }

  function Min(a: nat, b: nat): nat {
    if a <= b then a else b
  }

  /** What a shift by `i` brings to the bits below the leading ones. */
  lemma ShiftedOnes(a: nat, len: nat, i: nat, k: nat)
    requires Smeared(a, len, Min(i, len)) && k == len - Min(2 * i, len)
    ensures Shr(a, i + k) == Ones(Min(2 * i, len) - Min(i, len))
  {
    assert Ones(0) == 0;
    hide Shr, Ones, Pow2;
    var m := Min(i, len);
    var s := i + k - (len - m);
    ShrShr(a, len - m, s);
    ShrOnes(m, s);
  }

  /** One round of smearing doubles the number of leading ones. */
  lemma SmearRound(a: nat, len: nat, i: nat)
    requires Smeared(a, len, Min(i, len))
    ensures Smeared(Or(a, Shr(a, i)), len, Min(2 * i, len))
  {
    hide Or, Shr, Ones, Append, Pow2;
    var m, m' := Min(i, len), Min(2 * i, len);
    var j, k := m' - m, len - m';
    calc {
      Shr(Or(a, Shr(a, i)), k);
    == { ShrOr(a, Shr(a, i), k); }
      Or(Shr(a, k), Shr(Shr(a, i), k));
    == { ShrShr(a, i, k); ShiftedOnes(a, len, i, k); }
      Or(Shr(a, k), Ones(j));
    == { OrOnes(Shr(a, k), j); }
      Append(Shr(Shr(a, k), j), j);
    == { ShrShr(a, k, j); }
      Append(Ones(m), j);
    == { AppendOnes(m, j); }
      Ones(m');
    }
  }

  lemma {:induction false} TopBit(x: nat)
    requires x > 0
    ensures Shr(x, Length(x) - 1) == 1
  {
    if x > 1 {
      TopBit(x / 2);
    }
  }

  /** The least power of two that is not below `n`. */
  ghost predicate LeastPow2(r: nat, n: nat) {
    && (exists k: nat :: r == Pow2(k))
    && n <= r
    && forall k: nat :: n <= Pow2(k) ==> r <= Pow2(k)
  }

  lemma RoundsUp(n: nat)
    requires n > 0
    ensures LeastPow2(Pow2(Length(n - 1)), n)
  {
    var len := Length(n - 1);
    LengthBounds(n - 1);
    forall k: nat | n <= Pow2(k) ensures Pow2(len) <= Pow2(k) {
      if k < len {
        Pow2Monotone(k, len - 1);
      } else {
        Pow2Monotone(len, k);
      }
    }
  }

  lemma Unsmeared(x: nat)
    ensures Smeared(x, Length(x), Min(1, Length(x)))
  {
    assert Ones(1) == 1 && Ones(0) == 0 && Shr(0, 0) == 0;
    hide Length, Shr, Ones;
    if x > 0 {
      TopBit(x);
    }
  }

  /** When every bit is smeared, adding one gives the least power of two or overflows. */
  lemma AllSmeared(n: nat, width: nat, x: nat, a: nat)
    requires width > 0 && n < Pow2(width)
    requires x == if n == 0 then Pow2(width) - 1 else n - 1
    requires exists m: nat :: m >= width && Smeared(a, Length(x), Min(m, Length(x)))
    ensures 0 < n <= Pow2(width - 1) ==> LeastPow2(a + 1, n) && a + 1 < Pow2(width)
    ensures n == 0 || n > Pow2(width - 1) ==> a + 1 == Pow2(width)
  {
    var len := Length(x);
    LengthBounds(x);
    OnesValue(len);
    if len > width {
      Pow2Monotone(width, len - 1);
      assert false;
    } else if len < width {
      Pow2Monotone(len, width - 1);
    }
    assert a == Shr(a, 0) == Ones(len);
    if 0 < n <= Pow2(width - 1) {
      RoundsUp(n);
    }
  }

  /**
   * `ceil2pow2` on an unsigned type of `width` bits: the least power of two not
   * below `n`, or 0 when there is none of that width.
   */
  method Ceil2Pow2(n: nat, width: nat) returns (r: nat)
    requires width > 0 && n < Pow2(width)
    ensures 0 < n <= Pow2(width - 1) ==> LeastPow2(r, n)
    ensures n == 0 || n > Pow2(width - 1) ==> r == 0
  {
    hide Or, Shr, Ones, Length, Pow2, Smeared, LeastPow2;
    var x: nat := if n == 0 then Pow2(width) - 1 else n - 1;
    ghost var len := Length(x);
    var a, i := x, 1;
    Unsmeared(x);
    while i < width
      invariant i > 0 && Smeared(a, len, Min(i, len))
      decreases width - i
    {
      SmearRound(a, len, i);
      a := Or(a, Shr(a, i));
      i := 2 * i;
    }
    AllSmeared(n, width, x, a);
    r := if a + 1 == Pow2(width) then 0 else a + 1;
  }
}
