/** Small shared vocabulary: an optional value, bytes, powers of two and Go's
    truncating integer division. */
module Common {

  /** A value that may be absent (Go's nil pointer or failed lookup). */
  datatype Option<+T> = None | Some(value: T)

  /** Go's `byte`. */
  type byte = b: int | 0 <= b < 256

  /** Go's `int32`, the type of the scan counter. */
  type int32 = n: int | -0x8000_0000 <= n < 0x8000_0000

  function Pow2(k: nat): (p: nat)
    ensures p >= 1
  {
    if k == 0 then 1 else 2 * Pow2(k - 1)
  }

  lemma {:induction false} Pow2Add(a: nat, b: nat)
    ensures Pow2(a + b) == Pow2(a) * Pow2(b)
    decreases a
  {
    if a > 0 {
      Pow2Add(a - 1, b);
    }
  }

  lemma Pow2Values()
    ensures Pow2(8) == 0x100 && Pow2(16) == 0x1_0000
    ensures Pow2(24) == 0x100_0000 && Pow2(32) == 0x1_0000_0000
  {
    assert Pow2(4) == 16;
    assert Pow2(8) == 256 by { Pow2Add(4, 4); }
    Pow2Add(8, 8);
    Pow2Add(16, 8);
    Pow2Add(16, 16);
  }

  lemma MulLe(a: int, b: int, m: int)
    requires a <= b && m >= 0
    ensures a * m <= b * m
  {
    assert b * m - a * m == (b - a) * m;
  }

  /** Quotient and remainder are the only ones that fit `x == q * p + r`. */
  lemma DivUnique(x: int, p: int, q: int, r: int)
    requires p > 0 && 0 <= r < p && x == q * p + r
    ensures x / p == q && x % p == r
  {
    var q0, r0 := x / p, x % p;
    assert x == q0 * p + r0;
    if q0 > q {
      assert (q0 - q) * p == q0 * p - q * p;
      MulLe(1, q0 - q, p);
      assert false;
    } else if q0 < q {
      assert (q - q0) * p == q * p - q0 * p;
      MulLe(1, q - q0, p);
      assert false;
    }
  }

  /** Euclidean division by a positive number is monotonic. */
  lemma DivMono(x: int, y: int, m: int)
    requires m > 0 && x <= y
    ensures x / m <= y / m
  {
    if x / m > y / m {
      assert (y / m + 1) * m == (y / m) * m + m;
      MulLe(y / m + 1, x / m, m);
      assert false;
    }
  }

  /** Adding a multiple of the modulus leaves the remainder alone. */
  lemma ModShift(y: int, q: int, m: int)
    requires m > 0
    ensures (y + m * q) % m == y % m
  {
    assert y == (y / m) * m + y % m;
    assert y + m * q == (y / m + q) * m + y % m;
    DivUnique(y + m * q, m, y / m + q, y % m);
  }

  /** Remainders add up to the remainder of the sum. */
  lemma ModAdd(a: int, c: int, m: int)
    requires m > 0
    ensures (a % m + c) % m == (a + c) % m
  {
    assert a + c == (a % m + c) + m * (a / m);
    ModShift(a % m + c, a / m, m);
  }

  /** The two low bytes of `x` are its remainder modulo 2^16. */
  lemma Low16Bytes(x: int)
    ensures x % 256 + 256 * ((x / 256) % 256) == x % 0x1_0000
  {
    var a, r := x / 256, x % 256;
    var c, d := a / 256, a % 256;
    assert x == 0x1_0000 * c + (256 * d + r);
    DivUnique(x, 0x1_0000, c, 256 * d + r);
  }

  /** Go's integer division, which truncates toward zero (Dafny's `/` is
      Euclidean). */
  function GoDiv(a: int, b: int): (q: int)
    requires b != 0
    ensures a >= 0 && b > 0 ==> q == a / b
    ensures q * b + GoRem(a, b) == a
  {
    var m := (if a < 0 then -a else a) / (if b < 0 then -b else b);
    if (a < 0) == (b < 0) then m else -m
  }

  /** The remainder that goes with `GoDiv`; it has the sign of the dividend. */
  function GoRem(a: int, b: int): (r: int)
    requires b != 0
    ensures a >= 0 ==> 0 <= r
    ensures a <= 0 ==> r <= 0
    ensures -(if b < 0 then -b else b) < r < (if b < 0 then -b else b)
  {
    var m := (if a < 0 then -a else a) % (if b < 0 then -b else b);
    if a < 0 then -m else m
  }
}
