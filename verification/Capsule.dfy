/** The backup capsule (src/backup.c): a 44-byte header with six lengths, then
    algorithm, encapsulation, nonce, audit root and ciphertext. */
module Capsule {
  import opened Common

  const FIXED_HEADER_LEN := 44
  const VERSION := 1
  const NONCE_BYTES := 24
  const ROOT_BYTES := 32
  const TAG_BYTES := 16
  const ENCAP_PREFIX_LEN := 4
  const X25519_PUBLIC_BYTES := 32

  /** "SMBKPQ1\n" */
  function Magic(): (r: Bytes)
    ensures |r| == 8
  {
    [83, 77, 66, 75, 80, 81, 49, 10]
  }

  function AlgorithmBytes(): (r: Bytes)
    ensures |r| == 17
  {
    Text("X25519+ML-KEM-768")
  }

  /** What a capsule carries. The encapsulation is the ephemeral X25519 key
      and the ML-KEM ciphertext. */
  datatype Capsule = Capsule(ephemeral: Bytes, kemCt: Bytes, nonce: Bytes, root: Bytes, ciphertext: Bytes)

  predicate WellFormed(c: Capsule) {
    |c.ephemeral| == X25519_PUBLIC_BYTES && c.kemCt != [] && |Encap(c)| <= UINT32_MAX &&
    |c.nonce| == NONCE_BYTES && |c.root| == ROOT_BYTES && TAG_BYTES <= |c.ciphertext| <= SIZE_MAX
  }

  function Encap(c: Capsule): Bytes {
    Le(|c.ephemeral|, 4) + c.ephemeral + c.kemCt
  }

  function FixedHeader(algorithmLen: nat, encapLen: nat, nonceLen: nat, rootLen: nat, ciphertextLen: nat, plainLen: nat)
    : (r: Bytes)
    ensures |r| == FIXED_HEADER_LEN
  {
    Magic() + Le(VERSION, 4) + Le(algorithmLen, 4) + Le(encapLen, 4) + Le(nonceLen, 4) + Le(rootLen, 4)
    + Le(ciphertextLen, 8) + Le(plainLen, 8)
  }

  /** The associated data of the capsule's AEAD, and the capsule itself. */
  function Header(c: Capsule): Bytes
    requires WellFormed(c)
  {
    FixedHeader(|AlgorithmBytes()|, |Encap(c)|, |c.nonce|, |c.root|, |c.ciphertext|, |c.ciphertext| - TAG_BYTES)
    + AlgorithmBytes() + Encap(c) + c.nonce + c.root
  }

  function Serialize(c: Capsule): Bytes
    requires WellFormed(c)
  {
    Header(c) + c.ciphertext
  }

  // ---------------------------------------------------------------- parsing

  function ParseEncap(encap: Bytes): Result<(Bytes, Bytes)> {
    if |encap| <= ENCAP_PREFIX_LEN then Failure(InvalidArgument)
    else
      var n := FromLe(encap[..4]);
      if n != X25519_PUBLIC_BYTES || n > |encap| - ENCAP_PREFIX_LEN || 4 + n >= |encap| then Failure(Crypto)
      else Success((encap[4..4 + n], encap[4 + n..]))
  }

  /** The parsing half of backup_pqc_import, on arbitrary bytes. */
  function Parse(b: Bytes): Result<Capsule> {
    if |b| < FIXED_HEADER_LEN then Failure(Storage)
    else if b[..8] != Magic() || FromLe(b[8..12]) != VERSION then Failure(Crypto)
    else
      var encapLen, ciphertextLen := FromLe(b[16..20]), FromLe(b[28..36]);
      if FromLe(b[12..16]) != 17 || FromLe(b[20..24]) != NONCE_BYTES || FromLe(b[24..28]) != ROOT_BYTES
         || ciphertextLen < TAG_BYTES || FromLe(b[36..44]) != ciphertextLen - TAG_BYTES then Failure(Crypto)
      else if |b| - 44 < 17 then Failure(Storage)
      else if b[44..61] != AlgorithmBytes() || encapLen > |b| - 61 then Failure(Crypto)
      else
        var o := 61 + encapLen;
        if |b| - o < NONCE_BYTES + ROOT_BYTES || |b| - o - 56 != ciphertextLen then Failure(Storage)
        else
          match ParseEncap(b[61..o])
          case Failure(e) => Failure(e)
          case Success((ephemeral, kemCt)) =>
            Success(Capsule(ephemeral, kemCt, b[o..o + 24], b[o + 24..o + 56], b[o + 56..]))
  }

  // ---------------------------------------------------------------- round trip and canonicity

  lemma {:induction false} EncapRoundTrip(c: Capsule)
    requires WellFormed(c)
    ensures ParseEncap(Encap(c)) == Success((c.ephemeral, c.kemCt))
  {
    WidthLimits();
    FromLeOfLe(|c.ephemeral|, 4);
    var e := Encap(c);
    assert e[..4] == Le(32, 4) && e[4..36] == c.ephemeral && e[36..] == c.kemCt;
  }

  /** Where pieces of the header fields' lengths lie in their concatenation. */
  lemma {:induction false} EightPieces(a: Bytes, b: Bytes, c: Bytes, d: Bytes, e: Bytes, f: Bytes, g: Bytes, k: Bytes,
                                       h: Bytes)
    requires |a| == 8 && |b| == 4 && |c| == 4 && |d| == 4 && |e| == 4 && |f| == 4 && |g| == 8 && |k| == 8
    requires h == a + b + c + d + e + f + g + k
    ensures h[..8] == a && h[8..12] == b && h[12..16] == c && h[16..20] == d
    ensures h[20..24] == e && h[24..28] == f && h[28..36] == g && h[36..44] == k
  {
    var left := a + b + c + d;
    var right := e + f + g + k;
    assert left[..8] == a && left[8..12] == b && left[12..16] == c && left[16..20] == d;
    assert right[..4] == e && right[4..8] == f && right[8..16] == g && right[16..24] == k;
    HalvesSliced(left, right, h);
  }

  lemma {:induction false} HalvesSliced(f: Bytes, g: Bytes, h: Bytes)
    requires |f| == 20 && |g| == 24 && h == f + g
    ensures h[..8] == f[..8] && h[8..12] == f[8..12] && h[12..16] == f[12..16] && h[16..20] == f[16..20]
    ensures h[20..24] == g[..4] && h[24..28] == g[4..8] && h[28..36] == g[8..16] && h[36..44] == g[16..24]
  {
  }

  /** The length fields of a header read back. */
  lemma {:induction false} HeaderFields(encapLen: nat, ciphertextLen: nat, plainLen: nat)
    requires encapLen <= UINT32_MAX && ciphertextLen <= SIZE_MAX && plainLen <= SIZE_MAX
    ensures var h := FixedHeader(17, encapLen, NONCE_BYTES, ROOT_BYTES, ciphertextLen, plainLen);
      h[..8] == Magic() && FromLe(h[8..12]) == VERSION && FromLe(h[12..16]) == 17 && FromLe(h[16..20]) == encapLen &&
      FromLe(h[20..24]) == NONCE_BYTES && FromLe(h[24..28]) == ROOT_BYTES && FromLe(h[28..36]) == ciphertextLen &&
      FromLe(h[36..44]) == plainLen
  {
    EightPieces(Magic(), Le(VERSION, 4), Le(17, 4), Le(encapLen, 4), Le(NONCE_BYTES, 4), Le(ROOT_BYTES, 4),
                Le(ciphertextLen, 8), Le(plainLen, 8),
                FixedHeader(17, encapLen, NONCE_BYTES, ROOT_BYTES, ciphertextLen, plainLen));
    WidthLimits();
    FromLeOfLe(VERSION, 4);
    FromLeOfLe(17, 4);
    FromLeOfLe(encapLen, 4);
    FromLeOfLe(NONCE_BYTES, 4);
    FromLeOfLe(ROOT_BYTES, 4);
    FromLeOfLe(ciphertextLen, 8);
    FromLeOfLe(plainLen, 8);
  }

  /** Where the parts of a capsule lie. */
  lemma {:induction false} CapsuleSlices(c: Capsule)
    requires WellFormed(c)
    ensures var b, n := Serialize(c), |Encap(c)|;
      |b| == 44 + 17 + n + 56 + |c.ciphertext| &&
      b[..44] == FixedHeader(17, n, NONCE_BYTES, ROOT_BYTES, |c.ciphertext|, |c.ciphertext| - TAG_BYTES) &&
      b[44..61] == AlgorithmBytes() && b[61..61 + n] == Encap(c) && b[61 + n..61 + n + 24] == c.nonce &&
      b[61 + n + 24..61 + n + 56] == c.root && b[61 + n + 56..] == c.ciphertext
  {
  }

  lemma {:induction false} FieldsOfSerialize(c: Capsule)
    requires WellFormed(c)
    ensures var b := Serialize(c);
      |b| >= 44 && b[..8] == Magic() && FromLe(b[8..12]) == VERSION && FromLe(b[12..16]) == 17 &&
      FromLe(b[16..20]) == |Encap(c)| && FromLe(b[20..24]) == NONCE_BYTES && FromLe(b[24..28]) == ROOT_BYTES &&
      FromLe(b[28..36]) == |c.ciphertext| && FromLe(b[36..44]) == |c.ciphertext| - TAG_BYTES
  {
    var n, l := |Encap(c)|, |c.ciphertext|;
    HeaderFields(n, l, l - TAG_BYTES);
    CapsuleSlices(c);
    Subslices(Serialize(c), FixedHeader(17, n, NONCE_BYTES, ROOT_BYTES, l, l - TAG_BYTES));
  }

  /** Parsing what export assembles returns the same parts. */
  lemma {:induction false} ParseOfSerialize(c: Capsule)
    requires WellFormed(c)
    ensures Parse(Serialize(c)) == Success(c)
  {
    FieldsOfSerialize(c);
    CapsuleSlices(c);
    EncapRoundTrip(c);
  }

  lemma {:induction false} Subslices(b: Bytes, h: Bytes)
    requires |h| == 44 && |b| >= 44 && b[..44] == h
    ensures b[..8] == h[..8] && b[8..12] == h[8..12] && b[12..16] == h[12..16] && b[16..20] == h[16..20]
    ensures b[20..24] == h[20..24] && b[24..28] == h[24..28] && b[28..36] == h[28..36] && b[36..44] == h[36..44]
  {
    assert forall i :: 0 <= i < 44 ==> b[i] == h[i];
  }

  lemma {:induction false} EncapCanonical(encap: Bytes, ephemeral: Bytes, kemCt: Bytes)
    requires ParseEncap(encap) == Success((ephemeral, kemCt))
    ensures Le(|ephemeral|, 4) + ephemeral + kemCt == encap && |ephemeral| == X25519_PUBLIC_BYTES && kemCt != []
  {
    LeOfFromLe(encap[..4]);
  }

  /** A header whose fields were accepted is the header of those fields. */
  lemma {:induction false} HeaderCanonical(b: Bytes)
    requires |b| >= 44 && b[..8] == Magic() && FromLe(b[8..12]) == VERSION && FromLe(b[12..16]) == 17
    requires FromLe(b[20..24]) == NONCE_BYTES && FromLe(b[24..28]) == ROOT_BYTES
    ensures b[..44] == FixedHeader(17, FromLe(b[16..20]), NONCE_BYTES, ROOT_BYTES, FromLe(b[28..36]), FromLe(b[36..44]))
    ensures FromLe(b[16..20]) <= UINT32_MAX && FromLe(b[28..36]) <= SIZE_MAX
  {
    WidthLimits();
    LeOfFromLe(b[8..12]);
    LeOfFromLe(b[12..16]);
    LeOfFromLe(b[16..20]);
    LeOfFromLe(b[20..24]);
    LeOfFromLe(b[24..28]);
    LeOfFromLe(b[28..36]);
    LeOfFromLe(b[36..44]);
    HeaderPieces(b);
  }

  /** Re-serialising any accepted capsule reproduces it byte for byte, so there
      is one encoding of each capsule. */
  lemma {:induction false} SerializeOfParse(b: Bytes)
    requires Parse(b).Success?
    ensures WellFormed(Parse(b).value) && Serialize(Parse(b).value) == b
  {
    var c, o := Parse(b).value, 61 + FromLe(b[16..20]);
    HeaderCanonical(b);
    EncapCanonical(b[61..o], c.ephemeral, c.kemCt);
    assert Encap(c) == b[61..o] && |Encap(c)| == FromLe(b[16..20]);
    BodyPieces(b, o);
  }

  lemma {:induction false} HeaderPieces(b: Bytes)
    requires |b| >= 44
    ensures b[..44] == b[..8] + b[8..12] + b[12..16] + b[16..20] + b[20..24] + b[24..28] + b[28..36] + b[36..44]
  {
  }

  lemma {:induction false} BodyPieces(b: Bytes, o: nat)
    requires 61 <= o && o + 56 <= |b|
    ensures b == b[..44] + b[44..61] + b[61..o] + b[o..o + 24] + b[o + 24..o + 56] + b[o + 56..]
  {
  }

  // ---------------------------------------------------------------- the writers

  /** backup_build_fixed_header: eight writes through a moving cursor. */
  method BuildFixedHeader(header: array<byte>, algorithmLen: nat, encapLen: nat, nonceLen: nat, rootLen: nat,
                          ciphertextLen: nat, plainLen: nat) returns (status: Status)
    modifies header
    ensures status == Ok <==> header.Length == FIXED_HEADER_LEN && algorithmLen <= UINT32_MAX && encapLen <= UINT32_MAX
                              && nonceLen <= UINT32_MAX && rootLen <= UINT32_MAX
    ensures status == Ok ==>
              header[..] == FixedHeader(algorithmLen, encapLen, nonceLen, rootLen, ciphertextLen, plainLen)
  {
    if header.Length != FIXED_HEADER_LEN || algorithmLen > UINT32_MAX || encapLen > UINT32_MAX
       || nonceLen > UINT32_MAX || rootLen > UINT32_MAX {
      return InvalidArgument;
    }
    var cursor := 0;
    ghost var d1 := Magic() + Le(VERSION, 4);
    ghost var d2 := d1 + Le(algorithmLen, 4);
    ghost var d3 := d2 + Le(encapLen, 4);
    ghost var d4 := d3 + Le(nonceLen, 4);
    ghost var d5 := d4 + Le(rootLen, 4);
    ghost var d6 := d5 + Le(ciphertextLen, 8);
    cursor := Put(header, cursor, Magic(), []);
    cursor := PutLe(header, cursor, VERSION, 4, Magic());
    cursor := PutLe(header, cursor, algorithmLen, 4, d1);
    cursor := PutLe(header, cursor, encapLen, 4, d2);
    cursor := PutLe(header, cursor, nonceLen, 4, d3);
    cursor := PutLe(header, cursor, rootLen, 4, d4);
    cursor := PutLe(header, cursor, ciphertextLen, 8, d5);
    cursor := PutLe(header, cursor, plainLen, 8, d6);
    assert cursor == header.Length && header[..] == header[..cursor];
    return Ok;
  }

  /** memcpy at the cursor; `done` is what has been written so far. */
  method Put(buf: array<byte>, cursor: nat, data: Bytes, ghost done: Bytes) returns (next: nat)
    requires cursor + |data| <= buf.Length && buf[..cursor] == done
    modifies buf
    ensures next == cursor + |data| && buf[..next] == done + data
  {
    CopyInto(buf, cursor, data);
    next := cursor + |data|;
  }

  method PutLe(buf: array<byte>, cursor: nat, value: nat, width: nat, ghost done: Bytes) returns (next: nat)
    requires cursor + width <= buf.Length && buf[..cursor] == done
    modifies buf
    ensures next == cursor + width && buf[..next] == done + Le(value, width)
  {
    WriteLe(buf, cursor, value, width);
    next := cursor + width;
    assert buf[..next] == buf[..cursor] + buf[cursor..next];
  }

  /** backup_build_hybrid_encap. */
  method BuildHybridEncap(ephemeral: Bytes, kemCt: Bytes) returns (status: Status, encap: array<byte>)
    ensures status == Ok <==>
              |ephemeral| == X25519_PUBLIC_BYTES && kemCt != [] && 36 + |kemCt| <= SIZE_MAX
    ensures status == Ok ==> fresh(encap) && encap[..] == Le(|ephemeral|, 4) + ephemeral + kemCt
  {
    encap := new byte[0];
    if |ephemeral| != X25519_PUBLIC_BYTES || kemCt == [] {
      return InvalidArgument, encap;
    }
    var total := ENCAP_PREFIX_LEN + |ephemeral|;
    if total > SIZE_MAX - |kemCt| {
      return Storage, encap;
    }
    total := total + |kemCt|;
    encap := new byte[total];
    var cursor := PutLe(encap, 0, |ephemeral|, 4, []);
    cursor := Put(encap, cursor, ephemeral, Le(|ephemeral|, 4));
    cursor := Put(encap, cursor, kemCt, Le(|ephemeral|, 4) + ephemeral);
    assert cursor == total && encap[..] == encap[..cursor];
    return Ok, encap;
  }

  /** backup_build_aad: the header and the four parts before the ciphertext. */
  method BuildAad(fixedHeader: Bytes, algorithm: Bytes, encap: Bytes, nonce: Bytes, root: Bytes)
    returns (status: Status, aad: array<byte>)
    requires |fixedHeader| == FIXED_HEADER_LEN
    ensures status == Ok <==> 44 + |algorithm| + |encap| + |nonce| + |root| <= SIZE_MAX
    ensures status == Ok ==> fresh(aad) && aad[..] == fixedHeader + algorithm + encap + nonce + root
  {
    aad := new byte[0];
    var total := FIXED_HEADER_LEN + |algorithm| + |encap| + |nonce| + |root|;
    if total > SIZE_MAX {
      return Storage, aad;
    }
    aad := new byte[total];
    var cursor := Put(aad, 0, fixedHeader, []);
    cursor := Put(aad, cursor, algorithm, fixedHeader);
    cursor := Put(aad, cursor, encap, fixedHeader + algorithm);
    cursor := Put(aad, cursor, nonce, fixedHeader + algorithm + encap);
    cursor := Put(aad, cursor, root, fixedHeader + algorithm + encap + nonce);
    assert cursor == total && aad[..] == aad[..cursor];
    return Ok, aad;
  }

  /** The assembly part of backup_pqc_export: header lengths, AAD, then the
      sealed snapshot. `seal` stands for the AEAD under the capsule key. */
  method Assemble(ephemeral: Bytes, kemCt: Bytes, nonce: Bytes, root: Bytes, snapshot: Bytes,
                  seal: (Bytes, Bytes) -> Bytes)
    returns (status: Status, capsule: Bytes)
    requires |nonce| == NONCE_BYTES && |root| == ROOT_BYTES
    requires forall aad, plain :: |seal(aad, plain)| == |plain| + TAG_BYTES
    ensures status == Ok ==>
              exists ct :: var c := Capsule(ephemeral, kemCt, nonce, root, ct);
                WellFormed(c) && capsule == Serialize(c) && ct == seal(Header(c), snapshot)
    ensures status == Ok <==>
              |ephemeral| == X25519_PUBLIC_BYTES && kemCt != [] && 36 + |kemCt| <= UINT32_MAX &&
              44 + 17 + 36 + |kemCt| + NONCE_BYTES + ROOT_BYTES + |snapshot| + TAG_BYTES <= SIZE_MAX
  {
    capsule := [];
    var encap, aad;
    status, encap := BuildHybridEncap(ephemeral, kemCt);
    if status != Ok {
      return;
    }
    if |snapshot| > SIZE_MAX - TAG_BYTES {
      return Storage, [];
    }
    var header := new byte[FIXED_HEADER_LEN](_ => 0);
    status := BuildFixedHeader(header, |AlgorithmBytes()|, encap.Length, |nonce|, |root|,
                               |snapshot| + TAG_BYTES, |snapshot|);
    if status != Ok {
      return;
    }
    status, aad := BuildAad(header[..], AlgorithmBytes(), encap[..], nonce, root);
    if status != Ok {
      return;
    }
    var ciphertext := seal(aad[..], snapshot);
    ghost var c := Capsule(ephemeral, kemCt, nonce, root, ciphertext);
    assert aad[..] == Header(c);
    if aad.Length > SIZE_MAX - |ciphertext| {
      return Storage, [];
    }
    capsule := aad[..] + ciphertext;
    return Ok, capsule;
  }

  // ---------------------------------------------------------------- the reader

  /** backup_read_u32_le and backup_read_u64_le. */
  method ReadLe(b: Bytes, at: nat, width: nat) returns (value: nat)
    requires at + width <= |b|
    ensures value == FromLe(b[at..at + width])
  {
    value := 0;
    var i: nat := width;
    while i > 0
      invariant i <= width && value == FromLe(b[at + i..at + width])
    {
      i := i - 1;
      assert b[at + i..at + width] == [b[at + i]] + b[at + i + 1..at + width];
      value := b[at + i] + 256 * value;
    }
  }

  /** backup_pqc_import up to the key agreement: an offset advances over the
      capsule, and every slice it takes lies inside. */
  method Import(b: Bytes) returns (result: Result<Capsule>)
    ensures result == Parse(b)
  {
    if |b| < FIXED_HEADER_LEN {
      return Failure(Storage);
    }
    if b[..8] != Magic() {
      return Failure(Crypto);
    }
    var version := ReadLe(b, 8, 4);
    if version != VERSION {
      return Failure(Crypto);
    }
    var algorithmLen := ReadLe(b, 12, 4);
    var encapLen := ReadLe(b, 16, 4);
    var nonceLen := ReadLe(b, 20, 4);
    var rootLen := ReadLe(b, 24, 4);
    var ciphertextLen := ReadLe(b, 28, 8);
    var plainLen := ReadLe(b, 36, 8);
    if algorithmLen != |AlgorithmBytes()| || nonceLen != NONCE_BYTES || rootLen != ROOT_BYTES
       || ciphertextLen < TAG_BYTES || plainLen != ciphertextLen - TAG_BYTES {
      return Failure(Crypto);
    }
    var offset := FIXED_HEADER_LEN;
    if algorithmLen > |b| - offset {
      return Failure(Storage);
    }
    var algorithm := b[offset..offset + algorithmLen];
    offset := offset + algorithmLen;
    if algorithm != AlgorithmBytes() || encapLen > |b| - offset {
      return Failure(Crypto);
    }
    var encap := b[offset..offset + encapLen];
    offset := offset + encapLen;
    if nonceLen > |b| - offset {
      return Failure(Storage);
    }
    var nonce := b[offset..offset + nonceLen];
    offset := offset + nonceLen;
    if rootLen > |b| - offset {
      return Failure(Storage);
    }
    var root := b[offset..offset + rootLen];
    offset := offset + rootLen;
    if ciphertextLen != |b| - offset {
      return Failure(Storage);
    }
    var ciphertext := b[offset..];
    var parts := ParseHybridEncap(encap);
    if parts.Failure? {
      return Failure(parts.error);
    }
    return Success(Capsule(parts.value.0, parts.value.1, nonce, root, ciphertext));
  }

  /** backup_parse_hybrid_encap. */
  method ParseHybridEncap(encap: Bytes) returns (result: Result<(Bytes, Bytes)>)
    ensures result == ParseEncap(encap)
  {
    if |encap| <= ENCAP_PREFIX_LEN {
      return Failure(InvalidArgument);
    }
    var offset := ENCAP_PREFIX_LEN;
    var encoded := ReadLe(encap, 0, 4);
    if encoded != X25519_PUBLIC_BYTES || encoded > |encap| - offset {
      return Failure(Crypto);
    }
    var ephemeral := encap[offset..offset + encoded];
    offset := offset + encoded;
    if offset >= |encap| {
      return Failure(Crypto);
    }
    return Success((ephemeral, encap[offset..]));
  }
}
