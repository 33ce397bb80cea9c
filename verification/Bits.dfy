/** Bits of integers of any size, by division: `value >> n` is `value / Pow2(n)` and `value & (Pow2(n) - 1)` is
    `value % Pow2(n)`, for negative values too, because both languages round these divisions down. */
module Bits {
  function Pow2(n: nat): (p: nat)
    ensures p > 0
  {
    if n == 0 then 1 else 2 * Pow2(n - 1)
  }

  /** `value & (1 << b)` is not zero. */
  predicate Bit(value: int, b: nat) {
    (value / Pow2(b)) % 2 == 1
  }

  function BitValue(value: int, b: nat): nat {
    if Bit(value, b) then Pow2(b) else 0
  }

  /** The value of the bits below `n` that are in `s`. */
  ghost function BitSum(value: int, s: set<nat>, n: nat): nat {
    if n == 0 then 0 else BitSum(value, s, n - 1) + (if n - 1 in s then BitValue(value, n - 1) else 0)
  }

  lemma MulFar(d: int, k: int)
    requires d > 0
    ensures k >= 1 ==> d * k >= d
    ensures k <= -1 ==> d * k <= -d
  {
    if k >= 1 { assert d * (k - 1) >= 0; }
    if k <= -1 { assert d * (-1 - k) >= 0; }
  }

  lemma DivUnique(v: int, d: int, q: int, r: int)
    requires d > 0 && v == d * q + r && 0 <= r < d
    ensures v / d == q && v % d == r
  {
    assert v == d * (v / d) + v % d;
    MulFar(d, v / d - q);
    assert d * (v / d - q) == d * (v / d) - d * q;
  }

  lemma MulBounds(a: int, x: int, b: int)
    requires a > 0 && 0 <= x < b
    ensures 0 <= a * x <= a * b - a
  {
    assert a * x <= a * (b - 1);
  }

  lemma DivDiv(v: int, a: int, b: int)
    requires a > 0 && b > 0
    ensures a * b > 0 && (v / a) / b == v / (a * b)
  {
    var q, r := v / a, v % a;
    var q2, r2 := q / b, q % b;
    MulBounds(a, r2, b);
    assert v == a * (b * q2 + r2) + r;
    assert v == (a * b) * q2 + (a * r2 + r) by {
      assert a * (b * q2 + r2) == a * (b * q2) + a * r2;
      assert a * (b * q2) == (a * b) * q2;
    }
    DivUnique(v, a * b, q2, a * r2 + r);
  }

  lemma Positive(a: int, b: int)
    requires a > 0 && b > 0
    ensures a * b > 0
  {}

  lemma Divided(x: int, d: int)
    requires d > 0
    ensures x == d * (x / d) + x % d && 0 <= x % d < d
    ensures x >= 0 ==> x / d >= 0
  {}

  /** Dividing by a product, and the remainder by its first factor. */
  lemma Nested(x: int, a: int, m: int, q: int, r: int, s: int, t: int)
    requires a > 0 && m > 0 && x == a * m * q + r && r < a * m && r == a * s + t && 0 <= t < a && s >= 0
    ensures x == a * (m * q + s) + t && s < m
  {
    MulFar(a, s - m + 1);
    assert a * (s - m + 1) == a * s - a * m + a;
    assert a * m * q == a * (m * q);
  }

  lemma DivOfMod(x: int, a: int, m: int)
    requires a > 0 && m > 0
    ensures a * m > 0 && (x % (a * m)) / a == (x / a) % m
  {
    Positive(a, m);
    var n := a * m;
    var q, r := x / n, x % n;
    Divided(x, n);
    var s, t := r / a, r % a;
    Divided(r, a);
    Nested(x, a, m, q, r, s, t);
    DivUnique(x, a, m * q + s, t);
    DivUnique(m * q + s, m, q, s);
  }

  lemma ModMod(y: int, b: int, c: int)
    requires b > 0 && c > 0
    ensures b * c > 0 && (y % (b * c)) % b == y % b
  {
    var q, r := y / (b * c), y % (b * c);
    var s, t := r / b, r % b;
    assert b * c * q == b * (c * q);
    assert y == b * (c * q + s) + t;
    DivUnique(y, b, c * q + s, t);
  }

  /** A division by twice `m` splits off one bit. */
  lemma ModDouble(x: int, m: int)
    requires m > 0
    ensures x % (2 * m) == x % m + m * ((x / m) % 2)
  {
    var q, r := x / m, x % m;
    var h, b := q / 2, q % 2;
    assert x == m * (2 * h + b) + r;
    assert m * (2 * h + b) == (2 * m) * h + m * b;
    MulBounds(m, b, 2);
    DivUnique(x, 2 * m, h, m * b + r);
  }

  lemma {:induction false} Pow2Add(a: nat, b: nat)
    ensures Pow2(a + b) == Pow2(a) * Pow2(b)
    decreases b
  {
    if b > 0 {
      Pow2Add(a, b - 1);
      assert Pow2(a + b) == 2 * Pow2(a + b - 1);
    }
  }

  /** One more bit of a field. */
  lemma FieldStep(value: int, offset: nat, width: nat)
    ensures (value / Pow2(offset)) % Pow2(width + 1)
         == (value / Pow2(offset)) % Pow2(width) + Pow2(width) * (if Bit(value, offset + width) then 1 else 0)
  {
    ModDouble(value / Pow2(offset), Pow2(width));
    DivDiv(value, Pow2(offset), Pow2(width));
    Pow2Add(offset, width);
  }

  lemma Distribute(low: int, p: int, bit: int, o: int)
    ensures (low + p * bit) * o == low * o + p * bit * o
    ensures bit == 0 ==> p * bit * o == 0
    ensures bit == 1 ==> p * bit * o == p * o
  {}

  /** A field in its place is the sum of its bits. */
  lemma {:induction false} FieldIsBits(value: int, offset: nat, width: nat, n: nat)
    requires offset + width <= n
    ensures (value / Pow2(offset)) % Pow2(width) * Pow2(offset) == BitSum(value, Range(offset, offset + width), n)
    decreases width, n
  {
    if width == 0 {
      NoBits(value, offset, n);
    } else if n > offset + width {
      FieldIsBits(value, offset, width, n - 1);
    } else {
      FieldStep(value, offset, width - 1);
      FieldIsBits(value, offset, width - 1, n - 1);
      SameBelow(value, Range(offset, n), Range(offset, n - 1), n - 1);
      Pow2Add(width - 1, offset);
      var low := (value / Pow2(offset)) % Pow2(width - 1);
      var bit := if Bit(value, n - 1) then 1 else 0;
      Distribute(low, Pow2(width - 1), bit, Pow2(offset));
    }
  }

  /** The numbers from `lo` up to but not including `hi`. */
  ghost function Range(lo: nat, hi: nat): (s: set<nat>)
    ensures forall b: nat :: b in s <==> lo <= b < hi
    decreases hi
  {
    if hi <= lo then {} else Range(lo, hi - 1) + {hi - 1}
  }

  lemma {:induction false} NoBits(value: int, offset: nat, n: nat)
    ensures BitSum(value, Range(offset, offset), n) == 0
  {
    if n > 0 { NoBits(value, offset, n - 1); }
  }

  lemma {:induction false} SameBelow(value: int, s: set<nat>, t: set<nat>, n: nat)
    requires forall b: nat :: b < n ==> (b in s <==> b in t)
    ensures BitSum(value, s, n) == BitSum(value, t, n)
  {
    if n > 0 { SameBelow(value, s, t, n - 1); }
  }

  lemma {:induction false} DisjointBits(value: int, s: set<nat>, t: set<nat>, n: nat)
    requires s !! t
    ensures BitSum(value, s + t, n) == BitSum(value, s, n) + BitSum(value, t, n)
  {
    if n > 0 { DisjointBits(value, s, t, n - 1); }
  }

  /** All the bits below `n` are the value modulo 2^n. */
  lemma AllBits(value: int, n: nat)
    ensures BitSum(value, Range(0, n), n) == value % Pow2(n)
  {
    FieldIsBits(value, 0, n, n);
    assert value / Pow2(0) == value;
  }

  /** Bit `b` of a field is bit `offset + b` of the whole. */
  lemma BitOfField(value: int, offset: nat, width: nat, b: nat)
    requires b < width
    ensures Bit((value / Pow2(offset)) % Pow2(width), b) <==> Bit(value, offset + b)
  {
    var x := value / Pow2(offset);
    BitOfMod(x, width, b);
    DivDiv(value, Pow2(offset), Pow2(b));
    Pow2Add(offset, b);
  }

  lemma BitOfMod(x: int, width: nat, b: nat)
    requires b < width
    ensures Bit(x % Pow2(width), b) <==> Bit(x, b)
  {
    var p, k := Pow2(b), Pow2(width - b - 1);
    Pow2Add(b, width - b);
    DivOfMod(x, p, 2 * k);
    ModMod(x / p, 2, k);
  }

  lemma FieldMod(value: int, a: nat, b: nat, c: nat)
    requires a > 0 && b > 0 && c > 0
    ensures b * c > 0 && a * (b * c) > 0
    ensures (value / a) % b == ((value % (a * (b * c))) / a) % b
  {
    assert b * c > 0;
    DivOfMod(value, a, b * c);
    ModMod(value / a, b, c);
  }

  /** A field below bit `n` only depends on the value modulo 2^n. */
  lemma FieldOfMod(value: int, offset: nat, width: nat, n: nat)
    requires offset + width <= n
    ensures (value / Pow2(offset)) % Pow2(width) == ((value % Pow2(n)) / Pow2(offset)) % Pow2(width)
  {
    hide Pow2;
    Pow2Add(offset, n - offset);
    Pow2Add(width, n - offset - width);
    FieldMod(value, Pow2(offset), Pow2(width), Pow2(n - offset - width));
  }
}
