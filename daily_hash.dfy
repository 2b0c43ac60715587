/**
 * The deterministic daily hash both handlers use to pick an entry for a
 * date string: a left fold over the characters (Unicode code points), starting from 0,
 * of `h := ((h << 5) - h) + c` followed by `h & h`, which truncates to a
 * signed 32-bit integer. The selection index is `Math.abs(h) % n`.
 */
module DailyHash {

  const TWO_31: int := 0x8000_0000
  const TWO_32: int := 0x1_0000_0000

  predicate IsInt32(x: int)
  {
    -TWO_31 <= x < TWO_31
  }

  /**
   * ECMAScript ToInt32 on an integral number: the unique signed 32-bit
   * integer congruent to `x` modulo 2^32. `x & x` computes exactly this.
   */
  function ToInt32(x: int): (r: int)
    ensures IsInt32(r)
    ensures (x - r) % TWO_32 == 0
    ensures IsInt32(x) ==> r == x
  {
    (x + TWO_31) % TWO_32 - TWO_31
  }

  /** Adding a multiple of 2^32 does not change the truncation. */
  lemma ToInt32Periodic(x: int, m: int)
    ensures ToInt32(x + m * TWO_32) == ToInt32(x)
  {
    var q := (x + TWO_31) / TWO_32;
    var r := (x + TWO_31) % TWO_32;
    assert x + TWO_31 + m * TWO_32 == (q + m) * TWO_32 + r;
  }

  /** Numbers congruent modulo 2^32 truncate to the same value. */
  lemma ToInt32Congruent(x: int, y: int)
    requires (x - y) % TWO_32 == 0
    ensures ToInt32(x) == ToInt32(y)
  {
    var m := (x - y) / TWO_32;
    assert x == y + m * TWO_32;
    ToInt32Periodic(y, m);
  }

  /** `x << 5`: the operand is truncated to 32 bits, shifted, and the result read as signed. */
  function ShiftLeft5(x: int): (r: int)
    ensures IsInt32(r)
    ensures (r - 32 * x) % TWO_32 == 0
  {
    var a := ToInt32(x);
    var r := ToInt32(a * 32);
    MultiplesCombine(r - a * 32, a - x);
    assert r - 32 * x == (r - a * 32) + 32 * (a - x);
    r
  }

  /** A multiple of 2^32 plus 32 times another is a multiple of 2^32. */
  lemma MultiplesCombine(u: int, v: int)
    requires u % TWO_32 == 0 && v % TWO_32 == 0
    ensures (u + 32 * v) % TWO_32 == 0
  {
    var p, q := u / TWO_32, v / TWO_32;
    assert u + 32 * v == (p + 32 * q) * TWO_32;
  }

  /**
   * One step of the hash loop. The sum `(h << 5) - h + c` is computed
   * exactly (its magnitude stays far below 2^53), then `h & h` truncates it.
   */
  function Step(h: int, c: char): (r: int)
    ensures IsInt32(r)
  {
    ToInt32(ShiftLeft5(h) - h + c as int)
  }

  /** A step is `31 * h + c` wrapped to signed 32 bits. */
  lemma StepIsTimes31(h: int, c: char)
    ensures Step(h, c) == ToInt32(31 * h + c as int)
  {
    var a := ToInt32(h);
    var m1 := (h - a) / TWO_32;
    assert h == a + m1 * TWO_32;
    var s := ToInt32(a * 32);
    var m2 := (a * 32 - s) / TWO_32;
    assert a * 32 == s + m2 * TWO_32;
    // s - h + c == 31 * h + c - (32 * m1 + m2) * 2^32
    assert s - h + c as int == (31 * h + c as int) + (-(32 * m1) - m2) * TWO_32;
    ToInt32Periodic(31 * h + c as int, -(32 * m1) - m2);
  }

  /** The hash of a string: the loop's fold over its characters. */
  function HashOf(s: string): (r: int)
    ensures IsInt32(r)
  {
    if s == [] then 0 else Step(HashOf(s[..|s| - 1]), s[|s| - 1])
  }

  /** The same polynomial hash with unbounded integers: sum of c_i * 31^(n-1-i). */
  function Poly(s: string): int
  {
    if s == [] then 0 else 31 * Poly(s[..|s| - 1]) + s[|s| - 1] as int
  }

  /**
   * The 32-bit hash is the unbounded polynomial hash truncated once at the
   * end: intermediate truncations lose nothing modulo 2^32.
   */
  lemma {:induction false} HashIsTruncatedPoly(s: string)
    ensures HashOf(s) == ToInt32(Poly(s))
  {
    if s != [] {
      var p := s[..|s| - 1];
      var c := s[|s| - 1];
      HashIsTruncatedPoly(p);
      StepIsTimes31(HashOf(p), c);
      var h := HashOf(p);
      var m := (Poly(p) - h) / TWO_32;
      assert Poly(p) == h + m * TWO_32;
      assert 31 * Poly(p) + c as int == (31 * h + c as int) + (31 * m) * TWO_32;
      ToInt32Periodic(31 * h + c as int, 31 * m);
    }
  }

  /** The loop of both handlers: `let hash = 0; for (...) { ... }`. */
  method ComputeHash(s: string) returns (hash: int)
    ensures hash == HashOf(s)
    ensures IsInt32(hash)
  {
    hash := 0;
    for i := 0 to |s|
      invariant hash == HashOf(s[..i])
    {
      assert s[..i + 1][..i] == s[..i];
      hash := ToInt32(ShiftLeft5(hash) - hash + s[i] as int);
    }
    assert s[..|s|] == s;
  }

  /** `Math.abs` on an integer; unbounded, so `Math.abs(-2^31)` is 2^31. */
  function Abs(x: int): (r: nat)
    ensures r == x || r == -x
  {
    if x < 0 then -x else x
  }

  /**
   * `Math.abs(hash) % n` for the hash of the date: always a valid index
   * into a list of `n` candidates.
   */
  function DailyIndex(date: string, n: nat): (r: nat)
    requires n > 0
    ensures r < n
  {
    Abs(HashOf(date)) % n
  }
}
