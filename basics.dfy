/**
 * Machine-level vocabulary shared by the model: bytes, fixed-width integers,
 * little-endian encodings, and writes into fixed-size allocations.
 */
module Basics {

  /** One `char`/`u8` of a buffer (the target is little-endian AArch64). */
  type byte = x: int | 0 <= x < 256

  /** A `size_t` / `u64` value. */
  type u64 = x: int | 0 <= x < 0x1_0000_0000_0000_0000

  /** A C `int` on the target. */
  type int32 = x: int | -0x8000_0000 <= x < 0x8000_0000

  const TwoTo32: int := 0x1_0000_0000
  const TwoTo64: int := 0x1_0000_0000_0000_0000

  /** A nullable value: `None` stands for a NULL pointer. */
  datatype Option<T> = None | Some(value: T)

  function Min(a: int, b: int): int { if a <= b then a else b }

  function Max(a: int, b: int): int { if a <= b then b else a }

  /** 256 to the power `w`: the number of values `w` bytes can hold. */
  function Pow256(w: nat): (r: nat)
    ensures r >= 1
  {
    if w == 0 then 1 else 256 * Pow256(w - 1)
  }

  /** The unsigned little-endian value of a byte string. */
  function Le(b: seq<byte>): nat
  {
    if b == [] then 0 else b[0] + 256 * Le(b[1..])
  }

  /** The low `w` bytes of `n`, least significant first. */
  function ToLe(n: nat, w: nat): (r: seq<byte>)
    ensures |r| == w
  {
    if w == 0 then [] else [n % 256] + ToLe(n / 256, w - 1)
  }

  /** Two's-complement reinterpretation as a 32-bit `int` (what a 4-byte
      `memcpy` into an `int`, or an `int` overflow, yields on the target). */
  function ToInt32(n: int): (r: int)
    ensures -0x8000_0000 <= r < 0x8000_0000
    ensures (r - n) % TwoTo32 == 0
    ensures 0 <= n < 0x8000_0000 ==> r == n
  {
    (n + 0x8000_0000) % TwoTo32 - 0x8000_0000
  }

  /** Conversion of a signed value to `size_t` (arithmetic modulo 2^64). */
  function SizeT(n: int): (r: u64)
    ensures (r - n) % TwoTo64 == 0
    ensures 0 <= n < TwoTo64 ==> r == n
  {
    n % TwoTo64
  }

  /** Regrouping a concatenation of four byte strings to the right. */
  lemma Regroup(a: seq<byte>, b: seq<byte>, c: seq<byte>, d: seq<byte>)
    ensures a + b + c + d == a + (b + (c + d))
  {
  }

  /** `n` zero bytes: a `calloc`'d or `memset` buffer. */
  function Zeros(n: nat): (r: seq<byte>)
    ensures |r| == n
    ensures forall i :: 0 <= i < n ==> r[i] == 0
  {
    seq(n, _ => 0)
  }

  /**
   * `memcpy(buf + off, data, |data|)` into an allocation of `|buf|` bytes.
   * The bytes that fall inside the allocation land there; the ones that fall
   * past its end are dropped here and counted by `Overrun`.
   */
  function Store(buf: seq<byte>, off: nat, data: seq<byte>): (r: seq<byte>)
    ensures |r| == |buf|
    ensures forall i :: 0 <= i < |buf| && off <= i < off + |data| ==> r[i] == data[i - off]
    ensures forall i :: 0 <= i < |buf| && !(off <= i < off + |data|) ==> r[i] == buf[i]
  {
    seq(|buf|, i requires 0 <= i < |buf| => if off <= i < off + |data| then data[i - off] else buf[i])
  }

  /** How many bytes of `Store(buf, off, data)` are written past the end of the allocation. */
  function Overrun(buf: seq<byte>, off: nat, data: seq<byte>): (r: nat)
    ensures r > 0 <==> off + |data| > |buf|
  {
    Max(0, off + |data| - |buf|)
  }

  /** The bytes of a C string: everything before the first NUL. */
  function CString(s: seq<byte>): (r: seq<byte>)
    ensures |r| <= |s| && r == s[..|r|]
    ensures 0 !in r
    ensures |r| < |s| ==> s[|r|] == 0
  {
    if s == [] || s[0] == 0 then [] else [s[0]] + CString(s[1..])
  }

  /** A byte string is its own C string exactly when it holds no NUL. */
  lemma {:induction false} CStringWhole(s: seq<byte>)
    ensures CString(s) == s <==> 0 !in s
  {
    if s != [] && s[0] != 0 {
      CStringWhole(s[1..]);
      assert s == [s[0]] + s[1..];
    }
  }

  /** The bytes of an ASCII string literal. */
  function Ascii(s: string): (r: seq<byte>)
    ensures |r| == |s|
  {
    seq(|s|, i requires 0 <= i < |s| => (s[i] as int) % 256)
  }

  lemma MulAtLeast(d: int, k: int)
    requires d > 0
    ensures k >= 1 ==> d * k >= d
    ensures k <= -1 ==> d * k <= -d
  {
    if k >= 1 {
      assert d * k == d * (k - 1) + d;
    } else if k <= -1 {
      assert d * k == d * (k + 1) - d;
    }
  }

  lemma DivModUnique(n: int, d: int, q: int, r: int)
    requires d > 0 && 0 <= r < d && n == d * q + r
    ensures n / d == q && n % d == r
  {
    var q', r' := n / d, n % d;
    assert n == d * q' + r';
    var k := q' - q;
    assert d * k == r - r' by {
      assert d * q' == d * q + d * k;
    }
    MulAtLeast(d, k);
  }

  /** Splitting a remainder by a product into a low digit and the rest. */
  lemma ModProduct(n: nat, p: nat)
    requires p >= 1
    ensures n % (256 * p) == n % 256 + 256 * ((n / 256) % p)
  {
    var q := n / 256;
    var r := n % 256;
    var hi := q / p;
    var lo := q % p;
    assert q == p * hi + lo;
    assert n == 256 * q + r;
    assert n == (256 * p) * hi + (256 * lo + r) by {
      calc {
        n;
        256 * q + r;
        256 * (p * hi + lo) + r;
        { assert 256 * (p * hi) == (256 * p) * hi; }
        (256 * p) * hi + (256 * lo + r);
      }
    }
    assert 256 * lo + r < 256 * p by {
      assert lo <= p - 1;
      assert 256 * lo <= 256 * (p - 1);
    }
    DivModUnique(n, 256 * p, hi, 256 * lo + r);
  }

  lemma Pow256Four()
    ensures Pow256(4) == TwoTo32
  {
    assert Pow256(2) == 65536 by { assert Pow256(1) == 256; }
  }

  /** Decoding `w` little-endian bytes of `n` gives `n` modulo 256^w. */
  lemma {:induction false} LeToLe(n: nat, w: nat)
    ensures Le(ToLe(n, w)) == n % Pow256(w)
  {
    if w > 0 {
      var t := ToLe(n, w);
      assert t[1..] == ToLe(n / 256, w - 1);
      LeToLe(n / 256, w - 1);
      ModProduct(n, Pow256(w - 1));
    }
  }

  /** Encoding a decoded byte string gives the byte string back. */
  lemma {:induction false} ToLeLe(b: seq<byte>)
    ensures Le(b) < Pow256(|b|)
    ensures ToLe(Le(b), |b|) == b
  {
    if b != [] {
      ToLeLe(b[1..]);
      var v := Le(b);
      assert v == b[0] + 256 * Le(b[1..]);
      DivModUnique(v, 256, Le(b[1..]), b[0]);
      assert Le(b[1..]) <= Pow256(|b| - 1) - 1;
      assert 256 * Le(b[1..]) <= 256 * (Pow256(|b| - 1) - 1);
    }
  }

  /** The first `k` bytes of a `w`-byte encoding are the `k`-byte encoding. */
  lemma {:induction false} ToLePrefix(n: nat, w: nat, k: nat)
    requires k <= w
    ensures ToLe(n, w)[..k] == ToLe(n, k)
  {
    if k > 0 {
      ToLePrefix(n / 256, w - 1, k - 1);
      assert ToLe(n, w)[..k] == [n % 256] + ToLe(n / 256, w - 1)[..k - 1];
    }
  }
}
