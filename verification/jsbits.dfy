/** JavaScript's shift and bitwise operators (`>>`, `<<`, `&`, `|`) on
    non-negative operands. JavaScript applies them to 32-bit two's-complement
    integers and take a shift count modulo 32; for operands and results in
    0 .. 2^31 - 1 and shift counts below 32 those agree with the definitions
    below, which work bit by bit on unbounded naturals. */
module JsBits {

  function Pow2(k: nat): (p: nat)
    ensures p >= 1
  {
    if k == 0 then 1 else 2 * Pow2(k - 1)
  }

  /** `x >> k`: drops the low `k` bits, one halving at a time. */
  function ShiftRight(x: nat, k: nat): nat {
    if k == 0 then x else ShiftRight(x / 2, k - 1)
  }

  /** `x << k`: appends `k` zero bits. */
  function ShiftLeft(x: nat, k: nat): nat {
    x * Pow2(k)
  }

  /** `x & y`, one bit at a time from the least significant. */
  function BitAnd(x: nat, y: nat): nat
    decreases x
  {
    if x == 0 || y == 0 then 0
    else 2 * BitAnd(x / 2, y / 2) + (if x % 2 == 1 && y % 2 == 1 then 1 else 0)
  }

  /** `x | y`, one bit at a time from the least significant. */
  function BitOr(x: nat, y: nat): nat
    decreases x + y
  {
    if x == 0 then y
    else if y == 0 then x
    else 2 * BitOr(x / 2, y / 2) + (if x % 2 == 1 || y % 2 == 1 then 1 else 0)
  }

  /** A positive multiple of a positive number is at least that number. */
  lemma MulAtLeast(d: int, m: int)
    requires d >= 1 && m > 0
    ensures d * m >= m
  {
    assert d * m == (d - 1) * m + m;
    assert (d - 1) * m >= 0;
  }

  /** Euclidean division has one quotient and one remainder. */
  lemma DivModUnique(x: int, m: int, q: int, r: int)
    requires m > 0 && 0 <= r < m && x == q * m + r
    ensures x / m == q && x % m == r
  {
    var q', r' := x / m, x % m;
    assert x == q' * m + r';
    if q' > q {
      assert (q' - q) * m == r - r';
      MulAtLeast(q' - q, m);
    } else if q' < q {
      assert (q - q') * m == r' - r;
      MulAtLeast(q - q', m);
    }
  }

  /** Halving then dividing by `p` is dividing by `2p`, and `x % 2p` splits
      into the low bit and `(x / 2) % p`. */
  lemma ModDouble(x: nat, p: nat)
    requires p >= 1
    ensures x / (2 * p) == (x / 2) / p
    ensures x % (2 * p) == 2 * ((x / 2) % p) + x % 2
  {
    var h, b := x / 2, x % 2;
    var q, r := h / p, h % p;
    assert x == q * (2 * p) + (2 * r + b);
    DivModUnique(x, 2 * p, q, 2 * r + b);
  }

  /** Shifting right by `k` is dividing by `2^k`. */
  lemma {:induction false} ShiftRightDivides(x: nat, k: nat)
    ensures ShiftRight(x, k) == x / Pow2(k)
    decreases k
  {
    if k > 0 {
      var p := Pow2(k - 1);
      assert Pow2(k) == 2 * p;
      ShiftRightDivides(x / 2, k - 1);
      ModDouble(x, p);
    } else {
      assert Pow2(k) == 1;
    }
  }

  /** `2p - 1` is odd with half `p - 1`. */
  lemma HalveOdd(p: nat)
    requires p >= 1
    ensures (2 * p - 1) / 2 == p - 1 && (2 * p - 1) % 2 == 1
  {
    DivModUnique(2 * p - 1, 2, p - 1, 1);
  }

  /** Masking with `2^k - 1` keeps the low `k` bits. */
  lemma {:induction false} BitAndLowMask(x: nat, k: nat)
    ensures BitAnd(x, Pow2(k) - 1) == x % Pow2(k)
    decreases k
  {
    if k > 0 && x > 0 {
      var p := Pow2(k - 1);
      assert Pow2(k) == 2 * p;
      var mask := 2 * p - 1;
      HalveOdd(p);
      var low := BitAnd(x / 2, p - 1);
      assert BitAnd(x, mask) == 2 * low + x % 2;
      BitAndLowMask(x / 2, k - 1);
      ModDouble(x, p);
      assert BitAnd(x, mask) == x % (2 * p);
    } else if k == 0 {
      assert Pow2(k) - 1 == 0 && Pow2(k) == 1;
    } else {
      assert 0 % Pow2(k) == 0;
    }
  }

  /** When `y` fits in `k` bits, or-ing it onto `x << k` adds it. */
  lemma {:induction false} BitOrDisjoint(x: nat, y: nat, k: nat)
    requires y < Pow2(k)
    ensures BitOr(ShiftLeft(x, k), y) == ShiftLeft(x, k) + y
    decreases k
  {
    var hi := ShiftLeft(x, k);
    if k > 0 && hi != 0 && y != 0 {
      var p := Pow2(k - 1);
      assert hi == 2 * (x * p);
      assert hi / 2 == x * p && hi % 2 == 0;
      assert y / 2 < p;
      BitOrDisjoint(x, y / 2, k - 1);
      assert ShiftLeft(x, k - 1) == x * p;
    }
  }
}
