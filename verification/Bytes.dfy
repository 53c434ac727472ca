/** Bytes, the little-endian integer encodings used by every on-flash and on-air format,
    and the two result types shared by the model. */
module Bytes {

  type byte = bv8

  const U16_LIMIT := 0x1_0000
  const U32_LIMIT := 0x1_0000_0000
  const U64_LIMIT := 0x1_0000_0000_0000_0000

  datatype Option<+T> = None | Some(value: T)

  datatype Result<+T, +E> = Ok(value: T) | Err(error: E)

  lemma Doubled(h: bv8)
    requires h < 128
    ensures (2 * h) as int == 2 * (h as int)
    ensures (2 * h + 1) as int == 2 * (h as int) + 1
  {
  }

  lemma {:induction false} BitsOf(n: int) returns (b: bv8)
    requires 0 <= n < 256
    ensures b as int == n
    decreases n
  {
    if n == 0 {
      b := 0;
    } else {
      var half := BitsOf(n / 2);
      Doubled(half);
      b := if n % 2 == 0 then 2 * half else 2 * half + 1;
    }
  }

  lemma ConversionRoundTrip(n: int)
    requires 0 <= n < 256
    ensures (n as bv8) as int == n
  {
    var b := BitsOf(n);
    assert (b as int) as bv8 == b;
  }

  function ByteOf(n: nat): (b: byte)
    requires n < 256
    ensures b as nat == n
  {
    ConversionRoundTrip(n);
    n as bv8
  }

  function ValueOf(b: byte): (n: nat)
    ensures n < 256
    ensures ByteOf(n) == b
  {
    b as nat
  }

  /** `n` erased flash bytes. */
  function Erased(n: nat): (s: seq<byte>)
    ensures |s| == n
    ensures forall i :: 0 <= i < n ==> s[i] == 0xff
  {
    seq(n, _ => 0xff)
  }

  function Zeros(n: nat): (s: seq<byte>)
    ensures |s| == n
    ensures forall i :: 0 <= i < n ==> s[i] == 0
  {
    seq(n, _ => 0)
  }

  predicate AllErased(s: seq<byte>) {
    forall i :: 0 <= i < |s| ==> s[i] == 0xff
  }

  function Pow256(k: nat): (p: nat)
    ensures p > 0
  {
    if k == 0 then 1 else 256 * Pow256(k - 1)
  }

  /** The `k` low bytes of `n`, least significant first. */
  function LeBytes(n: nat, k: nat): (s: seq<byte>)
    ensures |s| == k
  {
    if k == 0 then [] else [ByteOf(n % 256)] + LeBytes(n / 256, k - 1)
  }

  function LeValue(s: seq<byte>): nat {
    if s == [] then 0 else ValueOf(s[0]) + 256 * LeValue(s[1..])
  }

  lemma {:induction false} LeValueOfBytes(n: nat, k: nat)
    requires n < Pow256(k)
    ensures LeValue(LeBytes(n, k)) == n
  {
    if k > 0 {
      LeValueOfBytes(n / 256, k - 1);
    }
  }

  lemma SplitLow(v: nat, m: nat, p: nat)
    requires v < 256 && m < p
    ensures (v + 256 * m) % 256 == v && (v + 256 * m) / 256 == m
    ensures v + 256 * m < 256 * p
  {
  }

  lemma {:induction false} LeBytesOfValue(s: seq<byte>)
    ensures LeValue(s) < Pow256(|s|)
    ensures LeBytes(LeValue(s), |s|) == s
  {
    if s != [] {
      LeBytesOfValue(s[1..]);
      SplitLow(ValueOf(s[0]), LeValue(s[1..]), Pow256(|s| - 1));
      assert s == [s[0]] + s[1..];
    }
  }

  lemma LowByte(n: nat, k: nat)
    requires k > 0
    ensures LeBytes(n, k)[0] == ByteOf(n % 256)
  {
  }

  lemma Pow256Values()
    ensures Pow256(2) == U16_LIMIT && Pow256(4) == U32_LIMIT && Pow256(8) == U64_LIMIT
  {
    assert Pow256(3) == 0x100_0000;
    assert Pow256(5) == 0x100_0000_0000;
    assert Pow256(7) == 0x100_0000_0000_0000;
  }

  lemma LeU16(n: nat)
    requires n < U16_LIMIT
    ensures LeValue(LeBytes(n, 2)) == n
  {
    Pow256Values();
    LeValueOfBytes(n, 2);
  }

  lemma LeU32(n: nat)
    requires n < U32_LIMIT
    ensures LeValue(LeBytes(n, 4)) == n
  {
    Pow256Values();
    LeValueOfBytes(n, 4);
  }

  lemma LeU64(n: nat)
    requires n < U64_LIMIT
    ensures LeValue(LeBytes(n, 8)) == n
  {
    Pow256Values();
    LeValueOfBytes(n, 8);
  }

  lemma LeValueBound(s: seq<byte>)
    ensures |s| == 2 ==> LeValue(s) < U16_LIMIT
    ensures |s| == 4 ==> LeValue(s) < U32_LIMIT
    ensures |s| == 8 ==> LeValue(s) < U64_LIMIT
  {
    LeBytesOfValue(s);
    Pow256Values();
  }

  /** A little-endian value is at least its most significant byte, in place. */
  lemma {:induction false} LeValueTopByte(s: seq<byte>)
    requires s != []
    ensures LeValue(s) >= ValueOf(s[|s| - 1]) * Pow256(|s| - 1)
  {
    if |s| > 1 {
      LeValueTopByte(s[1..]);
      ScaleBound(ValueOf(s[|s| - 1]), Pow256(|s| - 2), LeValue(s[1..]));
    }
  }

  lemma ScaleBound(v: nat, p: nat, m: nat)
    requires m >= v * p
    ensures 256 * m >= v * (256 * p)
  {
  }

  /** 32-bit words, where the program works on their bits. */
  function Le32(c: bv32): (s: seq<byte>)
    ensures |s| == 4
  {
    [(c & 0xff) as bv8, ((c >> 8) & 0xff) as bv8, ((c >> 16) & 0xff) as bv8, ((c >> 24) & 0xff) as bv8]
  }

  function FromLe32(s: seq<byte>): (c: bv32)
    requires |s| == 4
    ensures Le32(c) == s
  {
    (s[0] as bv32) | ((s[1] as bv32) << 8) | ((s[2] as bv32) << 16) | ((s[3] as bv32) << 24)
  }

  lemma Le32RoundTrip(c: bv32)
    ensures FromLe32(Le32(c)) == c
  {
  }

  function Min(a: nat, b: nat): nat {
    if a < b then a else b
  }

  lemma SliceOfConcat(a: seq<byte>, b: seq<byte>, c: seq<byte>)
    ensures (a + b + c)[|a|..|a| + |b|] == b
  {
  }

  // Division by a variable, one multiplication at a time.

  lemma DivisionRule(x: nat, m: nat)
    requires m > 0
    ensures x == x / m * m + x % m && x % m < m
  {
  }

  lemma Scaled(a: nat, b: nat, m: nat)
    requires a <= b
    ensures a * m <= b * m
  {
  }

  lemma NextMultiple(q: nat, m: nat)
    ensures (q + 1) * m == q * m + m
  {
  }

  /** A quotient and remainder are the only ones. */
  lemma DivisionUnique(x: nat, q: nat, r: nat, m: nat)
    requires m > 0 && x == q * m + r && r < m
    ensures x / m == q && x % m == r
  {
    DivisionRule(x, m);
    if q < x / m {
      Scaled(q + 1, x / m, m);
      NextMultiple(q, m);
    } else if q > x / m {
      Scaled(x / m + 1, q, m);
      NextMultiple(x / m, m);
    }
  }
}
