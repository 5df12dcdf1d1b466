/** Types shared by every module: status codes, byte strings, digests and
    little-endian integers. */
module Common {

  datatype Option<+T> = None | Some(value: T)

  /** The `sm_status` codes the modelled functions return. */
  datatype Status = Ok | InvalidArgument | Crypto | Storage | Auth | NotFound

  datatype Result<+T> = Success(value: T) | Failure(error: Status)

  type byte = x: int | 0 <= x < 256
  type Bytes = seq<byte>

  /** SHA-256 output, BLAKE2b output, audit keys and KEKs are all 32 bytes. */
  type Digest = b: Bytes | |b| == 32 witness Zeros(32)

  function ZeroDigest(): Digest { Zeros(32) }

  function Zeros(n: nat): (r: Bytes)
    ensures |r| == n
  {
    if n == 0 then [] else [0] + Zeros(n - 1)
  }

  type int32 = x: int | -0x8000_0000 <= x <= 0x7FFF_FFFF
  type int64 = x: int | -0x8000_0000_0000_0000 <= x <= 0x7FFF_FFFF_FFFF_FFFF

  const UINT32_MAX := 0xFFFF_FFFF
  const SIZE_MAX := 0xFFFF_FFFF_FFFF_FFFF
  const INT_MAX := 0x7FFF_FFFF
  const INT64_MAX := 0x7FFF_FFFF_FFFF_FFFF

  /** The bytes of an ASCII literal. */
  function Text(s: string): (r: Bytes)
    ensures |r| == |s|
  {
    seq(|s|, i requires 0 <= i < |s| => s[i] as int % 256)
  }

  /** Two different inputs with one digest. Statements that rest on a hash
      being collision-free hand back such a pair when they fail. */
  predicate Collision(sha: Bytes -> Digest, x: Bytes, y: Bytes) {
    x != y && sha(x) == sha(y)
  }

  function Pow2(k: nat): nat {
    if k == 0 then 1 else 2 * Pow2(k - 1)
  }

  // ---------------------------------------------------------------- little endian

  function Pow256(k: nat): nat {
    if k == 0 then 1 else 256 * Pow256(k - 1)
  }

  /** The `k` low bytes of `n`, least significant first. */
  function Le(n: nat, k: nat): (r: Bytes)
    ensures |r| == k
  {
    if k == 0 then [] else [n % 256] + Le(n / 256, k - 1)
  }

  function FromLe(b: Bytes): nat {
    if b == [] then 0 else b[0] + 256 * FromLe(b[1..])
  }

  lemma {:induction false} FromLeOfLe(n: nat, k: nat)
    requires n < Pow256(k)
    ensures FromLe(Le(n, k)) == n
  {
    if k > 0 {
      FromLeOfLe(n / 256, k - 1);
      assert Le(n, k)[1..] == Le(n / 256, k - 1);
    }
  }

  lemma {:induction false} LeOfFromLe(b: Bytes)
    ensures FromLe(b) < Pow256(|b|)
    ensures Le(FromLe(b), |b|) == b
  {
    if b != [] {
      LeOfFromLe(b[1..]);
      assert b == [b[0]] + b[1..];
    }
  }

  /** Byte i is the value divided by 256 to the i, modulo 256. */
  lemma {:induction false} LeAt(n: nat, k: nat, i: nat)
    requires i < k
    ensures Pow256(i) > 0 && Le(n, k)[i] == n / Pow256(i) % 256
  {
    if i > 0 {
      LeAt(n / 256, k - 1, i - 1);
      DivideTwice(n, Pow256(i - 1));
      assert Pow256(i) == 256 * Pow256(i - 1);
    }
  }

  lemma {:induction false} DivideTwice(n: nat, b: nat)
    requires b > 0
    ensures n / 256 / b == n / (256 * b)
  {
    var x, q := n / 256, n / 256 / b;
    var z := x % b;
    assert x == q * b + z;
    assert q * (256 * b) == 256 * (q * b);
    QuotientIs(n, 256 * b, q, 256 * z + n % 256);
  }

  lemma {:induction false} QuotientIs(n: nat, d: nat, q: nat, rest: nat)
    requires n == q * d + rest && rest < d
    ensures n / d == q
  {
    var k := n / d - q;
    assert n == (n / d) * d + n % d;
    assert k * d == (n / d) * d - q * d;
    Multiple(k, d);
  }

  lemma {:induction false} Multiple(k: int, d: int)
    requires d >= 0
    ensures k >= 1 ==> k * d >= d
    ensures k <= -1 ==> k * d <= -d
  {
    if k >= 1 {
      assert (k - 1) * d >= 0;
    } else if k <= -1 {
      assert (k + 1) * d <= 0;
    }
  }

  lemma {:induction false} LeInjective(m: nat, n: nat, k: nat)
    requires m < Pow256(k) && n < Pow256(k)
    requires Le(m, k) == Le(n, k)
    ensures m == n
  {
    FromLeOfLe(m, k);
    FromLeOfLe(n, k);
  }

  lemma {:induction false} WidthLimits()
    ensures Pow256(4) == UINT32_MAX + 1
    ensures Pow256(8) == SIZE_MAX + 1
  {
    assert Pow256(2) == 0x1_0000;
    assert Pow256(4) == 256 * 256 * Pow256(2);
    assert Pow256(6) == 256 * 256 * Pow256(4);
  }

  /** utils_write_u64_le and the 32-bit writers: byte i is the value shifted
      right by 8 * i and truncated. */
  method WriteLe(buf: array<byte>, at: nat, value: nat, k: nat)
    requires at + k <= buf.Length
    modifies buf
    ensures buf[..at] == old(buf[..at])
    ensures buf[at..at + k] == Le(value, k)
    ensures buf[at + k..] == old(buf[at + k..])
  {
    var rest := value;
    var i := 0;
    while i < k
      invariant i <= k
      invariant buf[..at] == old(buf[..at])
      invariant buf[at..at + i] + Le(rest, k - i) == Le(value, k)
      invariant buf[at + k..] == old(buf[at + k..])
    {
      ghost var written := buf[at..at + i];
      buf[at + i] := rest % 256;
      assert buf[at..at + i + 1] == written + [rest % 256];
      assert written + Le(rest, k - i) == written + [rest % 256] + Le(rest / 256, k - i - 1);
      rest := rest / 256;
      i := i + 1;
    }
  }

  /** memcpy into the middle of a buffer. */
  method CopyInto(buf: array<byte>, at: nat, data: Bytes)
    requires at + |data| <= buf.Length
    modifies buf
    ensures buf[..at + |data|] == old(buf[..at]) + data
    ensures buf[at + |data|..] == old(buf[at + |data|..])
  {
    forall k | 0 <= k < |data| {
      buf[at + k] := data[k];
    }
  }

  /** sodium_memzero on a whole buffer. */
  method ZeroBuffer(buf: array<byte>)
    modifies buf
    ensures buf[..] == Zeros(buf.Length)
  {
    var i := 0;
    while i < buf.Length
      invariant i <= buf.Length && forall k :: 0 <= k < i ==> buf[k] == 0
    {
      buf[i] := 0;
      i := i + 1;
    }
    ZerosAreZero(buf.Length);
  }

  lemma {:induction false} ZerosAreZero(n: nat)
    ensures forall k :: 0 <= k < n ==> Zeros(n)[k] == 0
  {
    if n > 0 {
      ZerosAreZero(n - 1);
    }
  }

  // ---------------------------------------------------------------- decimal text

  /** `%u`: decimal digits, no leading zero. */
  function Decimal(n: nat): (r: Bytes)
    ensures r != []
  {
    if n < 10 then [48 + n] else Decimal(n / 10) + [48 + n % 10]
  }

  lemma {:induction false} DecimalLength(n: nat, k: nat)
    requires n < Pow10(k) && k > 0
    ensures |Decimal(n)| <= k
  {
    if n >= 10 {
      DecimalLength(n / 10, k - 1);
    }
  }

  function Pow10(k: nat): nat {
    if k == 0 then 1 else 10 * Pow10(k - 1)
  }

  /** The number a string of decimal digits shows. */
  function FromDecimal(digits: Bytes): int {
    if digits == [] then 0 else 10 * FromDecimal(digits[..|digits| - 1]) + digits[|digits| - 1] - 48
  }

  /** The digits show the number, the most significant first and no zero in
      front. */
  lemma {:induction false} DecimalShows(n: nat)
    ensures FromDecimal(Decimal(n)) == n && (n > 0 ==> Decimal(n)[0] != 48)
    ensures forall i :: 0 <= i < |Decimal(n)| ==> 48 <= Decimal(n)[i] <= 57
  {
    var d := Decimal(n);
    if n < 10 {
      assert d[..0] == [];
    } else {
      DecimalShows(n / 10);
      assert d[..|d| - 1] == Decimal(n / 10);
    }
  }

  lemma {:induction false} DecimalInjective(m: nat, n: nat)
    requires Decimal(m) == Decimal(n)
    ensures m == n
  {
    var a, b := Decimal(m), Decimal(n);
    assert a[|a| - 1] == 48 + m % 10 && b[|b| - 1] == 48 + n % 10;
    if m >= 10 && n >= 10 {
      assert a[..|a| - 1] == Decimal(m / 10);
      assert b[..|b| - 1] == Decimal(n / 10);
      DecimalInjective(m / 10, n / 10);
    }
  }
}
