/** Values shared by the bus agents: optional results, the levels a
    one-bit HDL signal can be sampled at, multi-bit bus values that may be
    unresolved, and the power-of-two arithmetic behind Python's shifts. */
module Signals {

  datatype Option<+T> = None | Some(value: T)

  /** A one-bit signal as read by a monitor: 0, 1, or a value that does not
      resolve to an integer ('x', 'z'). */
  datatype Logic = Low | High | Indeterminate

  /** A multi-bit bus value: an integer, or one with unresolved bits. */
  datatype BusValue = Resolved(v: int) | Unresolved

  /** The level a driver puts on a line when it writes the integer `b`. */
  function Level(b: int): (l: Logic)
    ensures l != Indeterminate
    ensures l == High <==> b != 0
  {
    if b == 0 then Low else High
  }

  /** `n` consecutive clock edges with the same value. */
  function Hold<T>(n: nat, x: T): (r: seq<T>)
    ensures |r| == n
  {
    if n == 0 then [] else Hold(n - 1, x) + [x]
  }

  lemma {:induction false} HoldIndex<T>(n: nat, x: T, i: nat)
    requires i < n
    ensures Hold(n, x)[i] == x
  {
    if i < n - 1 {
      HoldIndex(n - 1, x, i);
    }
  }

  /** The number of iterations of Python's `range(n)`: none when `n` is
      negative. */
  function RangeLen(n: int): (r: nat)
    ensures r == n || (n < 0 && r == 0)
  {
    if n < 0 then 0 else n
  }

  function Pow2(n: nat): (r: nat)
    ensures r >= 1
  {
    if n == 0 then 1 else 2 * Pow2(n - 1)
  }

  lemma {:induction false} Pow2Add(a: nat, b: nat)
    ensures Pow2(a + b) == Pow2(a) * Pow2(b)
  {
    if b > 0 {
      Pow2Add(a, b - 1);
      assert Pow2(a + b) == 2 * Pow2(a + b - 1);
      assert Pow2(a) * Pow2(b) == Pow2(a) * (2 * Pow2(b - 1));
    }
  }

  const WordModulus: nat := 0x1_0000_0000

  lemma Pow2Of32()
    ensures Pow2(32) == WordModulus
  {
    assert Pow2(2) == 4;
    assert Pow2(4) == 16 by { Pow2Add(2, 2); }
    assert Pow2(8) == 256 by { Pow2Add(4, 4); }
    assert Pow2(16) == 65536 by { Pow2Add(8, 8); }
    Pow2Add(16, 16);
  }

  /** Euclidean division is determined by its quotient and remainder. */
  lemma DivModUnique(x: int, m: int, q: int, r: int)
    requires m > 0 && 0 <= r < m && x == q * m + r
    ensures x / m == q && x % m == r
  {
    var q0, r0 := x / m, x % m;
    assert (q0 - q) * m == r - r0;
    if q0 > q {
      MulAtLeast(q0 - q, m);
      assert false;
    } else if q0 < q {
      MulAtLeast(q - q0, m);
      assert false;
    }
  }

  lemma MulAtLeast(k: int, m: int)
    requires k >= 1 && m > 0
    ensures k * m >= m
  {
    assert k * m == (k - 1) * m + m;
    assert (k - 1) * m >= 0;
  }

  /** Python's `v << n` for a shift count `n >= 0`. */
  function Shl(v: int, n: nat): (r: int)
    ensures v >= 0 ==> r >= 0
  {
    if n == 0 then v else 2 * Shl(v, n - 1)
  }

  /** Shifting is multiplying by a power of two. */
  lemma {:induction false} ShlIsMul(v: int, n: nat)
    ensures Shl(v, n) == v * Pow2(n)
  {
    if n > 0 {
      ShlIsMul(v, n - 1);
      assert v * Pow2(n) == 2 * (v * Pow2(n - 1));
    }
  }

  /** Bit `i` of `x`: Python's `(x >> i) & 1`. Python's `>>` floors for
      negative `x`, as Dafny's Euclidean `/` by 2 does. */
  function BitOf(x: int, i: nat): (b: int)
    ensures b == 0 || b == 1
    decreases i
  {
    if i == 0 then x % 2 else BitOf(x / 2, i - 1)
  }

  /** The low `n` bits of `x`, gathered one shifted bit at a time. */
  function LowBits(x: int, n: nat): (r: int)
    ensures 0 <= r < Pow2(n)
  {
    if n == 0 then 0
    else
      ShlBit(BitOf(x, n - 1), n - 1);
      LowBits(x, n - 1) + Shl(BitOf(x, n - 1), n - 1)
  }

  lemma ShlBit(b: int, n: nat)
    requires b == 0 || b == 1
    ensures Shl(b, n) == b * Pow2(n)
    ensures 0 <= Shl(b, n) <= Pow2(n)
  {
    ShlIsMul(b, n);
  }

  /** Dividing by 2 and then by 2^n is dividing by 2^(n+1). */
  lemma DivTwice(x: int, n: nat)
    ensures (x / 2) / Pow2(n) == x / Pow2(n + 1)
  {
    var m := Pow2(n);
    var h := x / 2;
    var q, r := h / m, h % m;
    assert x == 2 * h + x % 2;
    assert h == q * m + r;
    assert x == q * (2 * m) + (2 * r + x % 2);
    DivModUnique(x, 2 * m, q, 2 * r + x % 2);
  }

  /** The shifted form agrees with dividing by a power of two. */
  lemma {:induction false} BitOfDiv(x: int, i: nat)
    ensures BitOf(x, i) == (x / Pow2(i)) % 2
    decreases i
  {
    if i > 0 {
      BitOfDiv(x / 2, i - 1);
      DivTwice(x, i - 1);
    }
  }

  /** The low n bits are the remainder modulo 2^n. */
  lemma {:induction false} LowBitsMod(x: int, n: nat)
    ensures LowBits(x, n) == x % Pow2(n)
  {
    if n > 0 {
      LowBitsMod(x, n - 1);
      BitOfDiv(x, n - 1);
      ShlIsMul(BitOf(x, n - 1), n - 1);
      LowBitsStep(x, n - 1);
    }
  }

  /** Adding bit n to the low n bits gives the low n + 1 bits. */
  lemma LowBitsStep(x: int, n: nat)
    ensures x % Pow2(n + 1) == x % Pow2(n) + ((x / Pow2(n)) % 2) * Pow2(n)
  {
    var m := Pow2(n);
    var q, r := x / m, x % m;
    var h, b := q / 2, q % 2;
    assert q == 2 * h + b;
    assert x == q * m + r;
    assert q * m == h * (2 * m) + b * m;
    assert 0 <= b * m <= m;
    DivModUnique(x, 2 * m, h, b * m + r);
  }
}
