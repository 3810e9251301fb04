/** Bytes and the fixed-width integer encodings shared by the wire formats. */
module Bytes {

  /** A `uint8_t`. */
  type byte = x: int | 0 <= x < 256

  const TWO_32: nat := 0x1_0000_0000
  const TWO_63: nat := 0x8000_0000_0000_0000
  const TWO_64: nat := 0x1_0000_0000_0000_0000

  datatype Option<+T> = None | Some(value: T)

  /** 256 to the power `k`: the number of values that `k` bytes can hold. */
  function Pow256(k: nat): (p: nat)
    ensures p > 0
  {
    if k == 0 then 1 else 256 * Pow256(k - 1)
  }

  lemma Pow256Values()
    ensures Pow256(1) == 0x100
    ensures Pow256(2) == 0x1_0000
    ensures Pow256(4) == TWO_32
    ensures Pow256(8) == TWO_64
  {
    assert Pow256(1) == 256 * Pow256(0);
    assert Pow256(2) == 256 * Pow256(1);
    assert Pow256(3) == 256 * Pow256(2);
    assert Pow256(4) == 256 * Pow256(3);
    assert Pow256(5) == 256 * Pow256(4);
    assert Pow256(6) == 256 * Pow256(5);
    assert Pow256(7) == 256 * Pow256(6);
    assert Pow256(8) == 256 * Pow256(7);
  }

  /** The `k` low bytes of `n`, most significant first. */
  function ToBigEndian(k: nat, n: nat): (s: seq<byte>)
    ensures |s| == k
  {
    if k == 0 then [] else ToBigEndian(k - 1, n / 256) + [n % 256]
  }

  /** The number whose bytes are `s`, most significant first. */
  function FromBigEndian(s: seq<byte>): (n: nat)
    ensures n < Pow256(|s|)
  {
    if s == [] then 0 else FromBigEndian(s[..|s| - 1]) * 256 + s[|s| - 1]
  }

  /** Storing and loading keep a number that fits; a wider one is truncated to its low bytes. */
  lemma {:induction false} BigEndianRoundTrip(k: nat, n: nat)
    ensures FromBigEndian(ToBigEndian(k, n)) == n % Pow256(k)
  {
    if k > 0 {
      var s := ToBigEndian(k, n);
      assert s[..k - 1] == ToBigEndian(k - 1, n / 256);
      BigEndianRoundTrip(k - 1, n / 256);
      ModStep(n, Pow256(k - 1));
    }
  }

  lemma ModStep(n: nat, p: nat)
    requires p > 0
    ensures (n / 256) % p * 256 + n % 256 == n % (256 * p)
  {
    var q, r := n / 256, n % 256;
    var a, b := q / p, q % p;
    assert q == a * p + b && n == 256 * q + r;
    assert n == a * (256 * p) + (b * 256 + r);
    assert 0 <= b * 256 + r < 256 * p;
    DivModUnique(n, 256 * p, a, b * 256 + r);
  }

  lemma DivModUnique(n: int, d: int, q: int, r: int)
    requires 0 <= r < d && n == q * d + r
    ensures n / d == q && n % d == r
  {
    var q', r' := n / d, n % d;
    assert n == q' * d + r';
    assert (q - q') * d == q * d - q' * d == r' - r;
    if q != q' {
      Apart(q, q', d);
    }
  }

  lemma {:induction false} MulAtLeast(k: nat, d: nat)
    requires k >= 1
    ensures k * d >= d
  {
    if k > 1 {
      MulAtLeast(k - 1, d);
      assert k * d == (k - 1) * d + d;
    }
  }

  lemma Apart(q: int, q': int, d: nat)
    requires q != q'
    ensures (q - q') * d >= d || (q - q') * d <= -(d as int)
  {
    if q > q' {
      MulAtLeast(q - q', d);
    } else {
      MulAtLeast(q' - q, d);
      var k := q' - q;
      assert (q - q') * d == -(k * d);
    }
  }

  /** A `k`-byte field at the front of a message reads back as the number written, if it fits. */
  lemma BigEndianField(k: nat, n: nat, rest: seq<byte>)
    requires n < Pow256(k)
    ensures |ToBigEndian(k, n) + rest| >= k
    ensures FromBigEndian((ToBigEndian(k, n) + rest)[..k]) == n
  {
    assert (ToBigEndian(k, n) + rest)[..k] == ToBigEndian(k, n);
    BigEndianRoundTrip(k, n);
    DivModUnique(n, Pow256(k), 0, n);
  }

  /** The bytes of `n`, least significant first, without leading zeros. */
  function ToLittleEndian(n: nat): (s: seq<byte>)
  {
    if n == 0 then [] else [n % 256] + ToLittleEndian(n / 256)
  }

  /** The number whose bytes are `s`, least significant first. */
  function FromLittleEndian(s: seq<byte>): (n: nat)
    ensures n < Pow256(|s|)
  {
    if s == [] then 0 else s[0] + 256 * FromLittleEndian(s[1..])
  }

  lemma {:induction false} LittleEndianRoundTrip(n: nat)
    ensures FromLittleEndian(ToLittleEndian(n)) == n
  {
    if n > 0 {
      LittleEndianRoundTrip(n / 256);
      assert ToLittleEndian(n)[1..] == ToLittleEndian(n / 256);
    }
  }

  lemma {:induction false} LittleEndianLength(n: nat, k: nat)
    requires n < Pow256(k)
    ensures |ToLittleEndian(n)| <= k
  {
    if n > 0 {
      LittleEndianLength(n / 256, k - 1);
    }
  }

  /** What a conversion to a two's complement integer of `2 * half` values keeps of `n`. */
  function WrapSigned(n: int, half: nat): (r: int)
    requires half > 0
    ensures -1 * half <= r < half
  {
    var u := n % (2 * half);
    if u < half then u else u - 2 * half
  }

  function ToInt32(n: int): (r: int)
    ensures -0x8000_0000 <= r < 0x8000_0000
  {
    WrapSigned(n, 0x8000_0000)
  }

  function ToInt64(n: int): (r: int)
    ensures -0x8000_0000_0000_0000 <= r < TWO_63
  {
    WrapSigned(n, TWO_63)
  }

  /** The stream that a list of pieces makes up. */
  function Flatten<T>(pieces: seq<seq<T>>): (s: seq<T>) {
    if pieces == [] then [] else pieces[0] + Flatten(pieces[1..])
  }

  lemma ConcatAssoc<T>(a: seq<T>, b: seq<T>, c: seq<T>)
    ensures (a + b) + c == a + (b + c)
    ensures ((a + b) + c)[|a|..] == b + c
  {
    assert (a + b) + c == a + (b + c);
  }

  /** Skipping twice is skipping once by the sum. */
  lemma DropDrop<T>(s: seq<T>, i: nat, j: nat)
    requires i + j <= |s|
    ensures s[i..][j..] == s[i + j..]
  {
  }
}
