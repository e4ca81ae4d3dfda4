/** Word arithmetic of the VSML processor: powers of two, the two's-complement
    views of a W-bit word, wrap-around into the signed range, and the BigInt
    bit operations the instruction set uses (on non-negative integers). */
module Words {

  /** 2 to the power n. */
  function Pow2(n: nat): (r: nat)
    ensures r >= 1
  {
    if n == 0 then 1 else 2 * Pow2(n - 1)
  }

  lemma {:induction false} Pow2Add(a: nat, b: nat)
    ensures Pow2(a + b) == Pow2(a) * Pow2(b)
  {
    if b > 0 {
      Pow2Add(a, b - 1);
      assert Pow2(a + b) == 2 * Pow2(a + b - 1);
    }
  }

  lemma {:induction false} Pow2Monotone(a: nat, b: nat)
    requires a <= b
    ensures Pow2(a) <= Pow2(b)
  {
    if a < b {
      Pow2Monotone(a, b - 1);
    }
  }

  lemma {:induction false} Pow2Values()
    ensures Pow2(4) == 16 && Pow2(8) == 256
    ensures Pow2(16) == 0x1_0000 && Pow2(32) == 0x1_0000_0000
  {
    assert Pow2(4) == 16;
    assert Pow2(8) == 256;
    Pow2Add(8, 8);
    Pow2Add(16, 16);
  }

  /** The signed range of a W-bit word: [-2^(W-1), 2^(W-1)-1]. */
  predicate InRange(v: int, w: nat)
    requires w >= 1
  {
    -(Pow2(w - 1) as int) <= v <= Pow2(w - 1) - 1
  }

  /** The unsigned range of a W-bit word: [0, 2^W). */
  predicate IsWord(u: int, w: nat)
  {
    0 <= u < Pow2(w)
  }

  /** decToTcDec: reads an unsigned word as two's complement. */
  function ToSigned(value: int, w: nat): int
    requires w >= 1
  {
    value - (if value <= Pow2(w - 1) - 1 then 0 else Pow2(w))
  }

  /** tcDecToDec: the unsigned word that holds a signed value. */
  function ToUnsigned(value: int, w: nat): int
    requires w >= 1
  {
    value + (if value < 0 then Pow2(w) else 0)
  }

  lemma {:induction false} SignedOfUnsigned(v: int, w: nat)
    requires w >= 1 && InRange(v, w)
    ensures IsWord(ToUnsigned(v, w), w)
    ensures ToSigned(ToUnsigned(v, w), w) == v
  {
    assert Pow2(w) == 2 * Pow2(w - 1);
  }

  lemma {:induction false} UnsignedOfSigned(u: int, w: nat)
    requires w >= 1 && IsWord(u, w)
    ensures InRange(ToSigned(u, w), w)
    ensures ToUnsigned(ToSigned(u, w), w) == u
  {
    assert Pow2(w) == 2 * Pow2(w - 1);
  }

  /** A positive multiple of p is at least p. */
  lemma {:induction false} MulAtLeast(k: int, p: int)
    requires k >= 1 && p > 0
    ensures k * p >= p
  {
    if k > 1 {
      MulAtLeast(k - 1, p);
      assert k * p == (k - 1) * p + p;
    }
  }

  /** Multiplying by a positive number keeps an inequality. */
  lemma {:induction false} MulAtLeastBy(c: int, k: int, h: int)
    requires c >= k && h > 0
    ensures c * h >= k * h
  {
    assert c * h - k * h == (c - k) * h;
  }

  /** Dividing a non-negative number by a positive one gives a natural number. */
  lemma {:induction false} DivNatural(a: int, d: int)
    requires a >= 0 && d >= 1
    ensures a / d >= 0
  {
  }

  /** Euclidean division is determined by any quotient/remainder pair. */
  lemma {:induction false} DivModUnique(a: int, p: int, q: int, r: int)
    requires p > 0 && a == q * p + r && 0 <= r < p
    ensures a / p == q && a % p == r
  {
    var q', r' := a / p, a % p;
    assert a == q' * p + r';
    if q' > q {
      assert (q' - q) * p == q' * p - q * p;
      MulAtLeast(q' - q, p);
    } else if q' < q {
      assert (q - q') * p == q * p - q' * p;
      MulAtLeast(q - q', p);
    }
  }

  /** The value of the signed range congruent to v modulo 2^W,
      computed directly; inBounds computes the same by iteration. */
  function Wrap(v: int, w: nat): (r: int)
    requires w >= 1
    ensures InRange(r, w)
    ensures (r - v) % Pow2(w) == 0
  {
    var h := Pow2(w - 1);
    assert Pow2(w) == 2 * h;
    var r := (v + h) % Pow2(w) - h;
    DivModUnique(r - v, Pow2(w), -((v + h) / Pow2(w)), 0);
    r
  }

  /** A signed-range value congruent to v is the wrapped value. */
  lemma {:induction false} WrapUnique(v: int, w: nat, x: int)
    requires w >= 1 && InRange(x, w) && (x - v) % Pow2(w) == 0
    ensures x == Wrap(v, w)
  {
    var p, h := Pow2(w), Pow2(w - 1);
    assert p == 2 * h;
    NearestRepresentative(v, x, p, h);
  }

  /** The value in [-h, h) congruent to v modulo 2h. */
  lemma {:induction false} NearestRepresentative(v: int, x: int, p: int, h: int)
    requires h >= 1 && p == 2 * h && -h <= x < h && (x - v) % p == 0
    ensures (v + h) % p - h == x
  {
    var q := (x - v) / p;
    assert x - v == q * p;
    assert v + h == (-q) * p + (x + h);
    DivModUnique(v + h, p, -q, x + h);
  }

  lemma {:induction false} WrapIdentity(v: int, w: nat)
    requires w >= 1 && InRange(v, w)
    ensures Wrap(v, w) == v
  {
    WrapUnique(v, w, v);
  }

  /** One past the largest signed value wraps round to the smallest. */
  lemma {:induction false} WrapBoundary(v: int, w: nat)
    requires w >= 1 && v == Pow2(w - 1)
    ensures Wrap(v, w) == -(Pow2(w - 1) as int)
  {
    var h: int := Pow2(w - 1);
    assert Pow2(w) == 2 * h;
    DivModUnique(-h - h, Pow2(w), -1, 0);
    WrapUnique(h, w, -h);
  }

  /** A word that fits in w bits is unchanged by wrapping to w or to any
      wider width. */
  lemma {:induction false} WrapWider(acc: int, w: nat, newW: nat)
    requires 1 <= w <= newW && InRange(acc, w)
    ensures Wrap(acc, newW) == acc && Wrap(acc, w) == acc
  {
    Pow2Monotone(w - 1, newW - 1);
    WrapIdentity(acc, newW);
    WrapIdentity(acc, w);
  }

  lemma {:induction false} WrapIdempotent(v: int, w: nat)
    requires w >= 1
    ensures Wrap(Wrap(v, w), w) == Wrap(v, w)
  {
    WrapIdentity(Wrap(v, w), w);
  }

  /** Adding a multiple of 2^W does not change the wrapped value. */
  lemma {:induction false} WrapShift(v: int, k: int, w: nat)
    requires w >= 1
    ensures Wrap(v + k * Pow2(w), w) == Wrap(v, w)
  {
    var p, h := Pow2(w), Pow2(w - 1);
    ModShift(v + h, k, p);
    assert v + k * p + h == (v + h) + k * p;
  }

  /** Adding a multiple of p does not change the remainder modulo p. */
  lemma {:induction false} ModShift(a: int, k: int, p: int)
    requires p > 0
    ensures (a + k * p) % p == a % p
  {
    assert a + k * p == (a / p + k) * p + a % p;
    DivModUnique(a + k * p, p, a / p + k, a % p);
  }

  /** Both two's-complement views are congruent to the value they read. */
  lemma {:induction false} WrapOfSigned(v: int, w: nat)
    requires w >= 1
    ensures Wrap(ToSigned(v, w), w) == Wrap(v, w)
    ensures Wrap(ToUnsigned(v, w), w) == Wrap(v, w)
  {
    WrapShift(v, -1, w);
    WrapShift(v, 1, w);
  }

  /** A signed w-bit value stored unsigned, read back as signed in any
      width of at least w bits and wrapped to w bits, is the value again. */
  lemma {:induction false} WrapReadWider(v: int, w: nat, curW: nat)
    requires 1 <= w <= curW && InRange(v, w)
    ensures Wrap(ToSigned(ToUnsigned(v, w), curW), w) == v
  {
    SignedOfUnsigned(v, w);
    var u := ToUnsigned(v, w);
    if curW > w {
      Pow2Monotone(w, curW - 1);
      assert ToSigned(u, curW) == u;
      WrapOfSigned(v, w);
    }
    WrapIdentity(v, w);
  }

  /** inBounds: wraps any integer into the signed range by repeatedly
      subtracting or adding 2^W. */
  method InBounds(value: int, w: nat) returns (r: int)
    requires w >= 1
    ensures r == Wrap(value, w)
  {
    var min := -(Pow2(w - 1) as int);
    var max := Pow2(w - 1) - 1;
    var size := Pow2(w);
    assert size == 2 * Pow2(w - 1);
    ghost var k: int := 0;
    r := value;
    while r > max
      invariant r == value + k * size
      decreases r
    {
      r := r - size;
      k := k - 1;
    }
    while r < min
      invariant r <= max
      invariant r == value + k * size
      decreases -r
    {
      r := r + size;
      k := k + 1;
    }
    DivModUnique(r - value, size, k, 0);
    WrapUnique(value, w, r);
  }

  /** BigInt `&` on non-negative operands, bit by bit from the low end. */
  function BitAnd(a: nat, b: nat): (r: nat)
    ensures r <= a && r <= b
  {
    if a == 0 || b == 0 then 0
    else 2 * BitAnd(a / 2, b / 2) + (if a % 2 == 1 && b % 2 == 1 then 1 else 0)
  }

  /** BigInt `|` on non-negative operands. */
  function BitOr(a: nat, b: nat): (r: nat)
    ensures a <= r && b <= r && r <= a + b
  {
    if a == 0 then b
    else if b == 0 then a
    else 2 * BitOr(a / 2, b / 2) + (if a % 2 == 1 || b % 2 == 1 then 1 else 0)
  }

  /** BigInt `^` on non-negative operands. */
  function BitXor(a: nat, b: nat): (r: nat)
    ensures r <= a + b
  {
    if a == 0 then b
    else if b == 0 then a
    else 2 * BitXor(a / 2, b / 2) + (if a % 2 != b % 2 then 1 else 0)
  }

  /** Masking with 2^k - 1 keeps the low k bits. */
  lemma {:induction false} AndMask(x: nat, k: nat)
    ensures BitAnd(x, Pow2(k) - 1) == x % Pow2(k)
  {
    if k == 0 {
    } else if x == 0 {
    } else {
      var h := Pow2(k - 1);
      assert Pow2(k) == 2 * h;
      AndOddMask(x, h);
      AndMask(x / 2, k - 1);
      ModDouble(x, h);
    }
  }

  /** One step of `&` with an all-ones mask: the low bit passes through. */
  lemma {:induction false} AndOddMask(x: nat, h: nat)
    requires x >= 1 && h >= 1
    ensures BitAnd(x, 2 * h - 1) == 2 * BitAnd(x / 2, h - 1) + x % 2
  {
    HalfMask(h);
  }

  lemma {:induction false} HalfMask(h: int)
    requires h >= 1
    ensures (2 * h - 1) / 2 == h - 1 && (2 * h - 1) % 2 == 1
  {
  }

  /** The remainder modulo 2h, from the remainder of the half modulo h. */
  lemma {:induction false} ModDouble(x: int, h: int)
    requires x >= 0 && h >= 1
    ensures x % (2 * h) == 2 * ((x / 2) % h) + x % 2
  {
    var a, b := x / 2, x % 2;
    var q, r := a / h, a % h;
    assert a == q * h + r;
    assert x == q * (2 * h) + (2 * r + b);
    DivModUnique(x, 2 * h, q, 2 * r + b);
  }

  /** BigInt `x << n`; a negative n shifts right, rounding down. */
  function ShiftLeft(x: int, n: int): (r: int)
    ensures x >= 0 ==> r >= 0
  {
    var p := Pow2(if n >= 0 then n else -n);
    NonNegativeScaling(x, p);
    if n >= 0 then x * p else x / p
  }

  lemma {:induction false} NonNegativeScaling(x: int, p: int)
    requires p >= 1
    ensures x >= 0 ==> x * p >= 0 && x / p >= 0
  {
  }

  /** BigInt `/`: the quotient rounded toward zero. */
  function TDiv(a: int, b: int): int
    requires b != 0
  {
    if a >= 0 then (if b > 0 then a / b else -(a / -b))
    else (if b > 0 then -((-a) / b) else (-a) / (-b))
  }

  /** BigInt `%`: the remainder takes the sign of the dividend. */
  function TMod(a: int, b: int): int
    requires b != 0
  {
    a - b * TDiv(a, b)
  }

  /** Truncating division: the remainder is smaller than the divisor and has
      the dividend's sign, and quotient and remainder recompose the dividend. */
  lemma {:induction false} TruncatedDivision(a: int, b: int)
    requires b != 0
    ensures a == b * TDiv(a, b) + TMod(a, b)
    ensures (if b > 0 then b else -b) > (if TMod(a, b) >= 0 then TMod(a, b) else -TMod(a, b))
    ensures a >= 0 ==> TMod(a, b) >= 0
    ensures a <= 0 ==> TMod(a, b) <= 0
  {
    var n, d := if a >= 0 then a else -a, if b > 0 then b else -b;
    TruncatedRemainder(a, b);
    assert 0 <= n % d < d;
  }

  /** The truncated remainder is the Euclidean remainder of the magnitudes,
      with the dividend's sign. */
  lemma {:induction false} TruncatedRemainder(a: int, b: int)
    requires b != 0
    ensures var n, d := if a >= 0 then a else -a, if b > 0 then b else -b;
      TMod(a, b) == if a >= 0 then n % d else -(n % d)
  {
    var n, d := if a >= 0 then a else -a, if b > 0 then b else -b;
    var q := n / d;
    EuclidRemainder(n, d);
    assert TDiv(a, b) == if (a >= 0) == (b > 0) then q else -q;
    SignedProduct(b, q);
  }

  lemma {:induction false} EuclidRemainder(n: int, d: int)
    requires n >= 0 && d > 0
    ensures n - d * (n / d) == n % d
  {
  }

  lemma {:induction false} SignedProduct(b: int, q: int)
    ensures b * (-q) == (-b) * q && (-b) * (-q) == b * q
  {
  }
}
