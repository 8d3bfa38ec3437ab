/**
 * Value-level vocabulary shared by the whole model: bytes as unsigned
 * bit patterns, the ranges of Java's `int` and `long`, two's-complement
 * wrap-around, the little-endian encodings the packet codecs use, and the
 * Option type that stands for Java's `null` and for caught exceptions.
 */
module Wire {

  /** The bit pattern of a Java `byte`, read as an unsigned value. */
  type u8 = x: int | 0 <= x < 0x100

  datatype Option<T> = None | Some(value: T)

  const TWO16: int := 0x1_0000
  const TWO32: int := 0x1_0000_0000
  const TWO64: int := 0x1_0000_0000_0000_0000

  predicate IsInt32(v: int) { -0x8000_0000 <= v < 0x8000_0000 }

  predicate IsInt64(v: int) { -0x8000_0000_0000_0000 <= v < 0x8000_0000_0000_0000 }

  /** Java's `int` overflow: the value congruent to `v` modulo 2^32 in the `int` range. */
  function Wrap32(v: int): (r: int)
    ensures IsInt32(r)
    ensures (r - v) % TWO32 == 0
    ensures IsInt32(v) ==> r == v
  {
    var m := v % TWO32;
    if m >= 0x8000_0000 then m - TWO32 else m
  }

  /** Java's `long` overflow, and the `(int)` cast applied to a `long`. */
  function Wrap64(v: int): (r: int)
    ensures IsInt64(r)
    ensures (r - v) % TWO64 == 0
    ensures IsInt64(v) ==> r == v
  {
    var m := v % TWO64;
    if m >= 0x8000_0000_0000_0000 then m - TWO64 else m
  }

  /**
   * Java's integer division, which truncates toward zero (Dafny's `/` is
   * Euclidean and differs for a negative dividend).
   */
  function JavaDiv(a: int, b: int): (q: int)
    requires b > 0
    ensures a >= 0 ==> q == a / b
    ensures a < 0 ==> q == -((-a) / b)
    ensures q * b <= a < q * b + b || q * b - b < a <= q * b
  {
    if a >= 0 then a / b else -((-a) / b)
  }

  /** The low byte of an integer's two's-complement pattern (`v & 0xff`). */
  function Low8(v: int): u8 { v % 0x100 }

  /** `value & 0xff`, `(value >> 8) & 0xff`: the two bytes Java writes for a short. */
  function LE16(v: int): (r: seq<u8>)
    ensures |r| == 2
  {
    [Low8(v), Low8(v / 0x100)]
  }

  /** The four bytes Java writes for an `int`, low byte first. */
  function LE32(v: int): (r: seq<u8>)
    ensures |r| == 4
  {
    [Low8(v), Low8(v / 0x100), Low8(v / 0x1_0000), Low8(v / 0x100_0000)]
  }

  /** The eight bytes Java writes for a `long`, low byte first. */
  function LE64(v: int): (r: seq<u8>)
    ensures |r| == 8
  {
    LE32(v) + LE32(v / TWO32)
  }

  /** Unsigned value of the two bytes at `i`, low byte first. */
  function U16At(s: seq<u8>, i: int): (v: int)
    requires 0 <= i && i + 2 <= |s|
    ensures 0 <= v < TWO16
  {
    (s[i] as int) + 0x100 * (s[i + 1] as int)
  }

  /** Unsigned value of the four bytes at `i`, low byte first. */
  function U32At(s: seq<u8>, i: int): (v: int)
    requires 0 <= i && i + 4 <= |s|
    ensures 0 <= v < TWO32
  {
    (s[i] as int) + 0x100 * (s[i + 1] as int) + 0x1_0000 * (s[i + 2] as int) + 0x100_0000 * (s[i + 3] as int)
  }

  /** The Java `int` whose bit pattern is the four bytes at `i`. */
  function I32At(s: seq<u8>, i: int): (v: int)
    requires 0 <= i && i + 4 <= |s|
    ensures IsInt32(v)
  {
    Wrap32(U32At(s, i))
  }

  /** The Java `long` whose bit pattern is the eight bytes at `i`. */
  function I64At(s: seq<u8>, i: int): (v: int)
    requires 0 <= i && i + 8 <= |s|
    ensures IsInt64(v)
  {
    Wrap64(U32At(s, i) + TWO32 * U32At(s, i + 4))
  }

  /** Appending in two steps is appending the two parts at once. */
  lemma AppendAssoc(a: seq<u8>, b: seq<u8>, c: seq<u8>)
    ensures a + b + c == a + (b + c)
  {
  }

  /** Replaces the bytes at `p` by `x` (an in-place `arraycopy` or run of stores, on values). */
  function Put(s: seq<u8>, p: int, x: seq<u8>): (r: seq<u8>)
    requires 0 <= p && p + |x| <= |s|
    ensures |r| == |s|
  {
    s[..p] + x + s[p + |x|..]
  }

  /** Bitwise exclusive or of two non-negative integers (Java's `^` on their bit patterns). */
  function Xor(a: nat, b: nat): nat
    decreases a + b
  {
    if a == 0 then b
    else if b == 0 then a
    else 2 * Xor(a / 2, b / 2) + (if a % 2 == b % 2 then 0 else 1)
  }

  function Pow2(k: nat): nat
  {
    if k == 0 then 1 else 2 * Pow2(k - 1)
  }

  /**
   * Exclusive or of two 32-bit words (Java's `^` on `int` bit patterns read
   * as unsigned). It reaches `Xor` through `XorLayer`, one level of
   * recursion deep, so that the solver does not expand the bitwise
   * definition wherever a word is XORed; `Xor32Def` states the connection.
   */
  function Xor32(a: int, b: int): (r: int)
    requires 0 <= a < TWO32 && 0 <= b < TWO32
    ensures 0 <= r < TWO32
  {
    XorLayer(a, b, 1)
  }

  function XorLayer(a: int, b: int, n: nat): (r: int)
    requires 0 <= a < TWO32 && 0 <= b < TWO32
    ensures 0 <= r < TWO32
  {
    if n == 0 then XorRange32(a, b); Xor(a, b) else XorLayer(a, b, n - 1)
  }

  lemma Xor32Def(a: int, b: int)
    requires 0 <= a < TWO32 && 0 <= b < TWO32
    ensures Xor32(a, b) == Xor(a, b)
  {
    assert XorLayer(a, b, 0) == Xor(a, b);
  }

  lemma XorRange32(a: nat, b: nat)
    requires a < TWO32 && b < TWO32
    ensures Xor(a, b) < TWO32
  {
    Pow2Of32();
    XorBelow(a, b, 32);
  }

  lemma {:induction false} XorBelow(a: nat, b: nat, k: nat)
    requires a < Pow2(k) && b < Pow2(k)
    ensures Xor(a, b) < Pow2(k)
    decreases a + b
  {
    if a != 0 && b != 0 {
      XorBelow(a / 2, b / 2, k - 1);
    }
  }

  lemma {:induction false} Pow2Plus4(k: nat)
    ensures Pow2(k + 4) == 16 * Pow2(k)
  {
    assert Pow2(k + 4) == 2 * Pow2(k + 3);
    assert Pow2(k + 3) == 2 * Pow2(k + 2);
    assert Pow2(k + 2) == 2 * Pow2(k + 1);
  }

  lemma Pow2Of32()
    ensures Pow2(32) == TWO32
  {
    Pow2Plus4(0); Pow2Plus4(4); Pow2Plus4(8); Pow2Plus4(12);
    Pow2Plus4(16); Pow2Plus4(20); Pow2Plus4(24); Pow2Plus4(28);
  }

  lemma {:induction false} XorSelf(b: nat)
    ensures Xor(b, b) == 0
    decreases b
  {
    if b != 0 {
      XorSelf(b / 2);
    }
  }

  lemma {:induction false} XorZeroEq(a: nat, b: nat)
    requires Xor(a, b) == 0
    ensures a == b
    decreases a + b
  {
    if a != 0 && b != 0 {
      XorZeroEq(a / 2, b / 2);
    }
  }

  /** XOR with the same value twice is the identity. */
  lemma {:induction false} XorInvolution(a: nat, b: nat)
    ensures Xor(Xor(a, b), b) == a
    decreases a + b
  {
    if a == 0 {
      XorSelf(b);
    } else if b != 0 {
      XorInvolution(a / 2, b / 2);
      var x := Xor(a, b);
      if x == 0 {
        XorZeroEq(a / 2, b / 2);
      } else {
        assert x / 2 == Xor(a / 2, b / 2);
      }
    }
  }

  /** XOR with a fixed word is injective. */
  lemma XorCancel(a: nat, b: nat, c: nat)
    requires Xor(a, c) == Xor(b, c)
    ensures a == b
  {
    XorInvolution(a, c);
    XorInvolution(b, c);
  }

  /** Writing a short and reading it back gives its low 16 bits. */
  lemma U16RoundTrip(v: int)
    ensures U16At(LE16(v), 0) == v % TWO16
  {
  }

  /** Writing an unsigned 32-bit word and reading it back is the identity. */
  lemma U32RoundTrip(v: int)
    requires 0 <= v < TWO32
    ensures U32At(LE32(v), 0) == v
  {
    var b0, q1 := v % 0x100, v / 0x100;
    var b1, q2 := q1 % 0x100, q1 / 0x100;
    var b2, q3 := q2 % 0x100, q2 / 0x100;
    assert v == q1 * 0x100 + b0;
    assert q1 == q2 * 0x100 + b1;
    assert q2 == q3 * 0x100 + b2;
    DivUnique(v, 0x1_0000, q2, b1 * 0x100 + b0);
    DivUnique(v, 0x100_0000, q3, b2 * 0x1_0000 + b1 * 0x100 + b0);
    assert q3 < 0x100;
    assert LE32(v) == [b0, b1, b2, q3];
  }

  /** Division and remainder are determined by any quotient/remainder split. */
  lemma DivUnique(x: int, d: int, q: int, r: int)
    requires d > 0 && 0 <= r < d && x == q * d + r
    ensures x / d == q && x % d == r
  {
    var q0, r0 := x / d, x % d;
    assert (q - q0) * d == r0 - r;
    if q > q0 {
      assert (q - q0) * d >= d by { MulAtLeast(q - q0, d); }
    } else if q < q0 {
      assert (q0 - q) * d >= d by { MulAtLeast(q0 - q, d); }
    }
  }

  lemma MulAtLeast(a: int, d: int)
    requires a >= 1 && d > 0
    ensures a * d >= d
  {
  }

  lemma DivPlusMul(a: int, k: int, d: int)
    requires d > 0
    ensures (a * d + k) / d == a + k / d
    ensures (a * d + k) % d == k % d
  {
    DivUnique(a * d + k, d, a + k / d, k % d);
  }

  /** The byte at shift `d` of an integer is the byte at shift `d` of its low 32 bits. */
  lemma ByteOfLow32(v: int, d: int)
    requires d == 1 || d == 0x100 || d == 0x1_0000 || d == 0x100_0000
    ensures Low8(v / d) == Low8((v % TWO32) / d)
  {
    var m := v % TWO32;
    var q := v / TWO32;
    var e := TWO32 / d;
    assert e * d == TWO32;
    assert v == (q * e) * d + m;
    DivPlusMul(q * e, m, d);
    assert e % 0x100 == 0;
    DivPlusMul(q * (e / 0x100), m / d, 0x100);
  }

  /** The word encoding of any integer is the encoding of its low 32 bits. */
  lemma {:induction false} LE32Low(v: int)
    ensures LE32(v) == LE32(v % TWO32)
    ensures U32At(LE32(v), 0) == v % TWO32
  {
    ByteOfLow32(v, 1);
    ByteOfLow32(v, 0x100);
    ByteOfLow32(v, 0x1_0000);
    ByteOfLow32(v, 0x100_0000);
    U32RoundTrip(v % TWO32);
  }

  /** `readD` after `writeD` gives back every Java `int`. */
  lemma I32RoundTrip(v: int)
    requires IsInt32(v)
    ensures I32At(LE32(v), 0) == v
  {
    LE32Low(v);
    var m := v % TWO32;
    if v >= 0 {
      DivUnique(v, TWO32, 0, v);
    } else {
      DivUnique(v, TWO32, -1, v + TWO32);
    }
    DivUnique(m, TWO32, 0, m);
    assert Wrap32(m) == v;
  }

  /** `readQ` after `writeQ` gives back every Java `long`. */
  lemma I64RoundTrip(v: int)
    requires IsInt64(v)
    ensures I64At(LE64(v), 0) == v
  {
    LE64Words(v);
    Recombine64(v);
  }

  /** The two words of a `long`'s encoding are its low and high 32 bits. */
  lemma LE64Words(v: int)
    ensures U32At(LE64(v), 0) == v % TWO32 && U32At(LE64(v), 4) == (v / TWO32) % TWO32
  {
    var s := LE64(v);
    LE32Low(v);
    LE32Low(v / TWO32);
    assert s[..4] == LE32(v) && s[4..] == LE32(v / TWO32);
    assert U32At(s, 0) == U32At(LE32(v), 0);
    assert U32At(s, 4) == U32At(LE32(v / TWO32), 0);
  }

  /** Reassembling the low and high words of a `long` gives it back. */
  lemma Recombine64(v: int)
    requires IsInt64(v)
    ensures Wrap64(v % TWO32 + TWO32 * ((v / TWO32) % TWO32)) == v
  {
    var lo := v % TWO32;
    var hi := v / TWO32;
    var x := lo + TWO32 * (hi % TWO32);
    assert (x - v) % TWO64 == 0 by {
      var k := hi / TWO32;
      assert hi == k * TWO32 + hi % TWO32;
      assert x - v == -k * TWO64;
      DivPlusMul(-k, 0, TWO64);
    }
    MultipleSum(Wrap64(x) - x, x - v, TWO64);
    CongruentInRange(Wrap64(x), v, -0x8000_0000_0000_0000, TWO64);
  }

  lemma MultipleSum(a: int, b: int, n: int)
    requires n > 0 && a % n == 0 && b % n == 0
    ensures (a + b) % n == 0
  {
    DivUnique(a + b, n, a / n + b / n, 0);
  }

  /** Two values of one window of width `n` that agree modulo `n` are equal. */
  lemma CongruentInRange(a: int, b: int, lo: int, n: int)
    requires n > 0 && lo <= a < lo + n && lo <= b < lo + n
    requires (a - b) % n == 0 || (b - a) % n == 0
    ensures a == b
  {
    if a != b {
      var d := if a > b then a - b else b - a;
      assert 0 < d < n;
      assert d % n == 0;
      DivUnique(d, n, 0, d);
    }
  }
}
