/** Base32 decoding with a 32-bit accumulator that wraps (src/utils.c), against
    the encoding of section 6 of RFC 4648. */
module Base32 {
  import opened Common

  type Bits = seq<bool>

  /** The w low bits of v, most significant first. */
  function ToBits(v: nat, w: nat): (r: Bits)
    ensures |r| == w
  {
    if w == 0 then [] else ToBits(v / 2, w - 1) + [v % 2 == 1]
  }

  function FromBits(b: Bits): nat {
    if b == [] then 0 else 2 * FromBits(b[..|b| - 1]) + if b[|b| - 1] then 1 else 0
  }

  lemma {:induction false} ToBitsOfFromBits(b: Bits)
    ensures ToBits(FromBits(b), |b|) == b && FromBits(b) < Pow2(|b|)
  {
    if b != [] {
      ToBitsOfFromBits(b[..|b| - 1]);
    }
  }

  lemma {:induction false} FromBitsOfToBits(v: nat, w: nat)
    requires v < Pow2(w)
    ensures FromBits(ToBits(v, w)) == v
  {
    if w > 0 {
      FromBitsOfToBits(v / 2, w - 1);
      assert ToBits(v, w)[..w - 1] == ToBits(v / 2, w - 1);
    }
  }

  lemma {:induction false} PowPositive(n: nat)
    ensures Pow2(n) > 0
  {
    if n > 0 {
      PowPositive(n - 1);
    }
  }

  /** High bits beyond the width do not matter. */
  lemma {:induction false} LowBits(v: nat, m: nat, w: nat)
    requires w <= m && Pow2(m) > 0
    ensures ToBits(v % Pow2(m), w) == ToBits(v, w)
    decreases w
  {
    if w > 0 {
      PowPositive(m - 1);
      HalfOfMod(v, Pow2(m - 1));
      LowBits(v / 2, m - 1, w - 1);
    }
  }

  lemma {:induction false} HalfOfMod(v: nat, p: nat)
    requires p > 0
    ensures (v % (2 * p)) / 2 == (v / 2) % p && (v % (2 * p)) % 2 == v % 2
  {
    var q, r := (v / 2) / p, (v / 2) % p;
    assert v / 2 == q * p + r;
    assert v == 2 * (q * p + r) + v % 2;
    assert v == q * (2 * p) + (2 * r + v % 2);
    ModUnique(v, 2 * p, q, 2 * r + v % 2);
  }

  lemma {:induction false} ModUnique(v: nat, d: nat, q: nat, r: nat)
    requires r < d && v == q * d + r
    ensures v % d == r && v / d == q
  {
    var k := v / d - q;
    assert k * d == r - v % d;
    MulAtLeast(k, d);
    MulAtLeast(-k, d);
  }

  lemma {:induction false} MulAtLeast(k: int, d: nat)
    ensures k >= 1 ==> k * d >= d
  {
    if k >= 1 {
      assert k * d == (k - 1) * d + d;
    }
  }

  /** v >> n. */
  function Shift(v: nat, n: nat): nat {
    if n == 0 then v else Shift(v / 2, n - 1)
  }

  /** A bit string splits into a shifted high part and a low part. */
  lemma {:induction false} SplitBits(v: nat, high: nat, low: nat)
    ensures ToBits(v, high + low) == ToBits(Shift(v, low), high) + ToBits(v, low)
    decreases low
  {
    if low > 0 {
      SplitBits(v / 2, high, low - 1);
      var last := [v % 2 == 1];
      assert ToBits(v, high + low) == ToBits(v / 2, high + low - 1) + last;
      assert ToBits(v, low) == ToBits(v / 2, low - 1) + last;
    } else {
      assert ToBits(v, high) + [] == ToBits(v, high);
    }
  }

  // ---------------------------------------------------------------- symbols and bytes as bits

  function SymbolBits(symbols: seq<nat>): Bits {
    if symbols == [] then [] else SymbolBits(symbols[..|symbols| - 1]) + ToBits(symbols[|symbols| - 1], 5)
  }

  function ByteBits(bytes: Bytes): (r: Bits)
    ensures |r| == 8 * |bytes|
  {
    if bytes == [] then [] else ByteBits(bytes[..|bytes| - 1]) + ToBits(bytes[|bytes| - 1], 8)
  }

  lemma {:induction false} Fits8(b: Bits)
    requires |b| == 8
    ensures FromBits(b) < 256
  {
    ToBitsOfFromBits(b);
    assert Pow2(8) == 256;
  }

  function ByteOf(b: Bits): byte
    requires |b| == 8
  {
    Fits8(b);
    FromBits(b)
  }

  /** A bit string regrouped into whole bytes; up to seven bits are left over. */
  function Regroup(bits: Bits): Bytes
    decreases |bits|
  {
    if |bits| < 8 then [] else [ByteOf(bits[..8])] + Regroup(bits[8..])
  }

  lemma {:induction false} ByteBitsFront(bytes: Bytes)
    requires bytes != []
    ensures ByteBits(bytes) == ToBits(bytes[0], 8) + ByteBits(bytes[1..])
  {
    var n := |bytes| - 1;
    var init, tail, last := bytes[..n], bytes[1..], ToBits(bytes[n], 8);
    if n == 0 {
      assert init == [] && tail == [];
    } else {
      ByteBitsFront(init);
      var first, middle := ToBits(bytes[0], 8), ByteBits(init[1..]);
      assert tail[..n - 1] == init[1..] && tail[n - 1] == bytes[n];
      assert ByteBits(tail) == middle + last;
      assert ByteBits(bytes) == (first + middle) + last;
      assert (first + middle) + last == first + (middle + last);
    }
  }

  lemma {:induction false} RegroupOfByteBits(bytes: Bytes, rest: Bits)
    requires |rest| < 8
    ensures Regroup(ByteBits(bytes) + rest) == bytes
  {
    if bytes != [] {
      var bits, first := ByteBits(bytes) + rest, ToBits(bytes[0], 8);
      ByteBitsFront(bytes);
      assert bits[..8] == first;
      assert bits[8..] == ByteBits(bytes[1..]) + rest;
      RegroupOfByteBits(bytes[1..], rest);
      assert Pow2(8) == 256;
      FromBitsOfToBits(bytes[0], 8);
      assert bytes == [bytes[0]] + bytes[1..];
    }
  }

  // ---------------------------------------------------------------- reading the text

  predicate Space(c: byte) {
    c == 32 || c == 10 || c == 13 || c == 9
  }

  /** The value of a symbol, in either case. */
  function SymbolValue(c: byte): (r: Option<nat>)
    ensures r.Some? ==> r.value < 32
  {
    if 65 <= c <= 90 then Some(c - 65)
    else if 97 <= c <= 122 then Some(c - 97)
    else if 50 <= c <= 55 then Some(c - 50 + 26)
    else None
  }

  /** The symbols read so far and whether padding has been seen. */
  datatype Scan = Scan(symbols: seq<nat>, padded: bool)

  function ReadChar(s: Scan, c: byte): Option<Scan> {
    if Space(c) then Some(s)
    else if c == 61 then Some(s.(padded := true))
    else if s.padded || SymbolValue(c) == None then None
    else Some(s.(symbols := s.symbols + [SymbolValue(c).value]))
  }

  function ScanText(text: Bytes): Option<Scan> {
    if text == [] then Some(Scan([], false))
    else
      match ScanText(text[..|text| - 1])
      case None => None
      case Some(s) => ReadChar(s, text[|text| - 1])
  }

  /** What the text decodes to. */
  function DecodeText(text: Bytes): Option<Bytes> {
    match ScanText(text)
    case None => None
    case Some(s) => Some(Regroup(SymbolBits(s.symbols)))
  }

  // ---------------------------------------------------------------- the RFC 4648 encoding

  function Alphabet(v: nat): byte
    requires v < 32
  {
    if v < 26 then 65 + v else 50 + v - 26
  }

  function FalseBits(n: nat): (r: Bits)
    ensures |r| == n
  {
    if n == 0 then [] else FalseBits(n - 1) + [false]
  }

  /** Five bits per symbol, the last group filled up with zero bits. */
  function EncodeSymbols(bits: Bits): (r: seq<nat>)
    ensures forall i :: 0 <= i < |r| ==> r[i] < 32
    decreases |bits|
  {
    if bits == [] then []
    else if |bits| < 5 then [GroupValue(bits + FalseBits(5 - |bits|))]
    else [GroupValue(bits[..5])] + EncodeSymbols(bits[5..])
  }

  function GroupValue(group: Bits): (r: nat)
    requires |group| == 5
    ensures r < 32 && ToBits(r, 5) == group
  {
    Fits5(group);
    FromBits(group)
  }

  lemma {:induction false} Fits5(b: Bits)
    requires |b| == 5
    ensures FromBits(b) < 32 && ToBits(FromBits(b), 5) == b
  {
    ToBitsOfFromBits(b);
    assert Pow2(5) == 32;
  }

  function SymbolText(symbols: seq<nat>): (r: Bytes)
    requires forall i :: 0 <= i < |symbols| ==> symbols[i] < 32
    ensures |r| == |symbols|
  {
    if symbols == [] then [] else SymbolText(symbols[..|symbols| - 1]) + [Alphabet(symbols[|symbols| - 1])]
  }

  function Padding(n: nat): Bytes {
    if n == 0 then [] else Padding(n - 1) + [61]
  }

  /** Symbols, then '=' up to a multiple of eight characters. */
  function Encode(bytes: Bytes): Bytes {
    var symbols := EncodeSymbols(ByteBits(bytes));
    SymbolText(symbols) + Padding(PadCount(|symbols|))
  }

  function PadCount(n: nat): nat { (8 - n % 8) % 8 }

  /** The zero bits that fill up the last group. */
  function Fill(n: nat): (r: Bits)
    ensures |r| < 5
  {
    if n == 0 then [] else if n < 5 then FalseBits(5 - n) else Fill(n - 5)
  }

  lemma {:induction false} SymbolBitsFront(symbols: seq<nat>)
    requires symbols != []
    ensures SymbolBits(symbols) == ToBits(symbols[0], 5) + SymbolBits(symbols[1..])
  {
    var n := |symbols| - 1;
    var init, tail, last := symbols[..n], symbols[1..], ToBits(symbols[n], 5);
    if n == 0 {
      assert init == [] && tail == [];
    } else {
      SymbolBitsFront(init);
      var first, middle := ToBits(symbols[0], 5), SymbolBits(init[1..]);
      assert tail[..n - 1] == init[1..] && tail[n - 1] == symbols[n];
      assert SymbolBits(tail) == middle + last;
      assert SymbolBits(symbols) == (first + middle) + last;
      assert (first + middle) + last == first + (middle + last);
    }
  }

  /** Symbol bits are the encoded bits plus fewer than five zero bits. */
  lemma {:induction false} BitsOfEncodeSymbols(bits: Bits)
    ensures SymbolBits(EncodeSymbols(bits)) == bits + Fill(|bits|)
    decreases |bits|
  {
    var s := EncodeSymbols(bits);
    if bits == [] {
      assert bits + Fill(0) == [];
    } else if |bits| < 5 {
      SymbolBitsFront(s);
      assert s[1..] == [];
      assert SymbolBits([]) == [];
    } else {
      SymbolBitsFront(s);
      assert s[1..] == EncodeSymbols(bits[5..]);
      BitsOfEncodeSymbols(bits[5..]);
      assert bits[..5] + bits[5..] == bits;
      Associative(bits[..5], bits[5..], Fill(|bits|));
    }
  }

  lemma {:induction false} ScanSymbolText(symbols: seq<nat>)
    requires forall i :: 0 <= i < |symbols| ==> symbols[i] < 32
    ensures ScanText(SymbolText(symbols)) == Some(Scan(symbols, false))
  {
    if symbols != [] {
      var init, last := symbols[..|symbols| - 1], symbols[|symbols| - 1];
      ScanSymbolText(init);
      assert symbols == init + [last];
      ScanOneSymbol(SymbolText(init), init, last);
    }
  }

  lemma {:induction false} ScanOneSymbol(text: Bytes, symbols: seq<nat>, v: nat)
    requires v < 32 && ScanText(text) == Some(Scan(symbols, false))
    ensures ScanText(text + [Alphabet(v)]) == Some(Scan(symbols + [v], false))
  {
    ScanOneMore(text, Alphabet(v));
    assert SymbolValue(Alphabet(v)) == Some(v);
  }

  lemma {:induction false} ScanOneMore(text: Bytes, c: byte)
    ensures ScanText(text + [c])
         == match ScanText(text)
            case None => None
            case Some(s) => ReadChar(s, c)
  {
    assert (text + [c])[..|text|] == text;
  }

  lemma {:induction false} ScanPadding(text: Bytes, s: Scan, n: nat)
    requires ScanText(text) == Some(s)
    ensures ScanText(text + Padding(n)) == Some(s.(padded := s.padded || n > 0))
  {
    if n == 0 {
      assert text + Padding(0) == text;
    } else {
      ScanPadding(text, s, n - 1);
      var t := text + Padding(n);
      assert t[..|t| - 1] == text + Padding(n - 1);
    }
  }

  /** A text with its white space dropped and its letters in upper case. */
  function Normal(text: Bytes): Bytes {
    if text == [] then []
    else
      var init, c := Normal(text[..|text| - 1]), text[|text| - 1];
      if Space(c) then init else init + [if 97 <= c <= 122 then c - 32 else c]
  }

  lemma {:induction false} ScanIgnoresCaseAndSpace(text: Bytes)
    ensures ScanText(Normal(text)) == ScanText(text)
  {
    if text != [] {
      ScanIgnoresCaseAndSpace(text[..|text| - 1]);
      var t, c := Normal(text), text[|text| - 1];
      if !Space(c) {
        assert t[..|t| - 1] == Normal(text[..|text| - 1]);
      }
    }
  }

  lemma {:induction false} ScanEncoded(bytes: Bytes)
    ensures ScanText(Encode(bytes)).Some?
    ensures ScanText(Encode(bytes)).value.symbols == EncodeSymbols(ByteBits(bytes))
  {
    var symbols := EncodeSymbols(ByteBits(bytes));
    ScanSymbolText(symbols);
    ScanPadding(SymbolText(symbols), Scan(symbols, false), PadCount(|symbols|));
  }

  lemma {:induction false} RegroupEncoded(bytes: Bytes)
    ensures Regroup(SymbolBits(EncodeSymbols(ByteBits(bytes)))) == bytes
  {
    BitsOfEncodeSymbols(ByteBits(bytes));
    RegroupOfByteBits(bytes, Fill(|ByteBits(bytes)|));
  }

  /** Decoding inverts the encoding, in either case and with any white space
      inserted anywhere. */
  lemma {:induction false} DecodeOfEncode(bytes: Bytes, text: Bytes)
    requires Normal(text) == Encode(bytes)
    ensures DecodeText(text) == Some(bytes)
  {
    ScanIgnoresCaseAndSpace(text);
    ScanEncoded(bytes);
    RegroupEncoded(bytes);
  }

  // ---------------------------------------------------------------- which texts decode

  /** The alphabet of section 6 of RFC 4648. */
  function RfcAlphabet(): (r: string)
    ensures |r| == 32
  {
    "ABCDEFGHIJKLMNOPQRSTUVWXYZ234567"
  }

  lemma {:induction false} AlphabetIsRfc(v: nat)
    requires v < 32
    ensures Alphabet(v) == RfcAlphabet()[v] as int && SymbolValue(Alphabet(v)) == Some(v)
  {
  }

  /** Some symbol of the alphabet, in either case. */
  ghost predicate InAlphabet(c: byte) {
    exists v: nat :: v < 32 && IsSymbol(c, v)
  }

  predicate IsSymbol(c: byte, v: nat)
    requires v < 32
  {
    c == Alphabet(v) || (97 <= c <= 122 && c - 32 == Alphabet(v))
  }

  lemma {:induction false} SymbolMeans(c: byte, v: nat)
    requires v < 32
    ensures SymbolValue(c) == Some(v) <==> IsSymbol(c, v)
  {
  }

  lemma {:induction false} SymbolInAlphabet(c: byte)
    ensures SymbolValue(c).Some? <==> InAlphabet(c)
  {
    if SymbolValue(c).Some? {
      SymbolMeans(c, SymbolValue(c).value);
    } else if InAlphabet(c) {
      var v: nat :| v < 32 && IsSymbol(c, v);
      SymbolMeans(c, v);
    }
  }

  /** Every character is white space, '=' or of the alphabet, and no symbol
      follows a '='. */
  ghost predicate WellFormedText(text: Bytes) {
    (forall i :: 0 <= i < |text| ==> Space(text[i]) || text[i] == 61 || InAlphabet(text[i])) &&
    forall i, j :: 0 <= i < j < |text| && text[i] == 61 ==> !InAlphabet(text[j])
  }

  /** The decoder refuses exactly the other texts. */
  lemma {:induction false} DecodesExactlyWellFormed(text: Bytes)
    ensures DecodeText(text).Some? <==> WellFormedText(text)
    ensures DecodeText(text).Some? ==> (ScanText(text).value.padded <==> 61 in text)
  {
    if text != [] {
      var n := |text| - 1;
      var init, c := text[..n], text[n];
      DecodesExactlyWellFormed(init);
      SymbolInAlphabet(c);
      assert text == init + [c];
      WellFormedLast(init, c, text);
    }
  }

  lemma {:induction false} WellFormedLast(init: Bytes, c: byte, text: Bytes)
    requires text == init + [c]
    ensures WellFormedText(text)
       <==> WellFormedText(init) && (Space(c) || c == 61 || (InAlphabet(c) && 61 !in init))
    ensures 61 in text <==> 61 in init || c == 61
  {
    var n := |init|;
    assert text[n] == c && forall i :: 0 <= i < n ==> text[i] == init[i];
    NoSymbol(c);
    if WellFormedText(text) {
      forall i | 0 <= i < n
        ensures Space(init[i]) || init[i] == 61 || InAlphabet(init[i])
      {
        assert text[i] == init[i];
      }
      forall i, j | 0 <= i < j < n && init[i] == 61
        ensures !InAlphabet(init[j])
      {
        assert text[i] == 61 && text[j] == init[j];
      }
    }
  }

  lemma {:induction false} NoSymbol(c: byte)
    ensures Space(c) || c == 61 ==> !InAlphabet(c)
  {
    SymbolInAlphabet(c);
  }

  // ---------------------------------------------------------------- the loop

  const WRAP := 0x1_0000_0000

  /** Shifting in one symbol keeps the pending bits although the 32-bit
      accumulator wraps. */
  lemma {:induction false} ShiftIn(acc: nat, bits: nat, value: nat)
    requires bits < 8 && value < 32
    ensures ToBits((acc * 32 + value) % WRAP, bits + 5) == ToBits(acc, bits) + ToBits(value, 5)
  {
    var wide := acc * 32 + value;
    PowWrap();
    LowBits(wide, 32, bits + 5);
    SplitBits(wide, bits, 5);
    SplitWide(acc, value);
  }

  lemma {:induction false} SplitWide(acc: nat, value: nat)
    requires value < 32
    ensures Shift(acc * 32 + value, 5) == acc && ToBits(acc * 32 + value, 5) == ToBits(value, 5)
  {
    var wide := acc * 32 + value;
    PowWrap();
    ShiftFive(wide);
    LowBits(wide, 5, 5);
  }

  lemma {:induction false} PowWrap()
    ensures Pow2(5) == 32 && Pow2(8) == 256 && Pow2(32) == WRAP
  {
    assert Pow2(8) == 8 * Pow2(5);
    assert Pow2(16) == 256 * Pow2(8);
    assert Pow2(24) == 256 * Pow2(16);
    assert Pow2(32) == 256 * Pow2(24);
  }

  lemma {:induction false} ShiftFive(v: nat)
    ensures Shift(v, 5) == v / 32
  {
    assert Shift(v, 5) == Shift(v / 2, 4);
    assert Shift(v / 2, 4) == Shift(v / 4, 3);
    assert Shift(v / 4, 3) == Shift(v / 8, 2);
    assert Shift(v / 8, 2) == Shift(v / 16, 1);
    assert Shift(v / 16, 1) == Shift(v / 32, 0);
  }

  /** Taking the top byte out of the pending bits. */
  lemma {:induction false} TakeByte(acc: nat, bits: nat)
    requires bits >= 8
    ensures ToBits(acc, bits) == ToBits(Shift(acc, bits - 8) % 256, 8) + ToBits(acc, bits - 8)
  {
    SplitBits(acc, 8, bits - 8);
    PowWrap();
    LowBits(Shift(acc, bits - 8), 8, 8);
  }

  /** Bits go most significant first: two symbols give the byte made of all of
      the first and the upper three bits of the second. */
  lemma {:induction false} TwoSymbols(v: nat, w: nat)
    requires v < 32 && w < 32
    ensures Regroup(SymbolBits([v, w])) == [v * 8 + w / 4]
  {
    var b := v * 8 + w / 4;
    TwoSymbolBits(v, w);
    TenBits(v, w, b, 5, 2);
    OneByteBits(b);
    RegroupOfByteBits([b], ToBits(v * 32 + w, 2));
  }

  lemma {:induction false} TwoSymbolBits(v: nat, w: nat)
    ensures SymbolBits([v, w]) == ToBits(v, 5) + ToBits(w, 5)
  {
    var symbols := [v, w];
    SymbolBitsFront(symbols);
    SymbolBitsFront([w]);
    assert symbols[1..] == [w] && [w][1..] == [];
    assert ToBits(w, 5) + [] == ToBits(w, 5);
  }

  lemma {:induction false} OneByteBits(b: byte)
    ensures ByteBits([b]) == ToBits(b, 8)
  {
    ByteBitsLast([], b);
    assert [] + [b] == [b] && ByteBits([]) == [];
    assert [] + ToBits(b, 8) == ToBits(b, 8);
  }

  lemma {:induction false} TenBits(v: nat, w: nat, b: nat, bits: nat, left: nat)
    requires v < 32 && w < 32 && b == v * 8 + w / 4 && bits == 5 && left == 2
    ensures ToBits(v, bits) + ToBits(w, bits) == ToBits(b, 8) + ToBits(v * 32 + w, left)
  {
    var x := v * 32 + w;
    assert x % WRAP == x;
    Joined(v, bits, w, x);
    ShiftTwo(x);
    TopByte(x, b, bits + 5, left);
  }

  lemma {:induction false} Joined(acc: nat, bits: nat, value: nat, x: nat)
    requires bits == 5 && value < 32 && (acc * 32 + value) % WRAP == x
    ensures ToBits(x, bits + 5) == ToBits(acc, bits) + ToBits(value, bits)
  {
    ShiftIn(acc, bits, value);
  }

  lemma {:induction false} TopByte(x: nat, b: nat, bits: nat, left: nat)
    requires bits == left + 8 && Shift(x, left) % 256 == b
    ensures ToBits(x, bits) == ToBits(b, 8) + ToBits(x, left)
  {
    TakeByte(x, bits);
  }

  lemma {:induction false} ShiftTwo(x: nat)
    ensures Shift(x, 2) == x / 4
  {
    assert Shift(x, 2) == Shift(x / 2, 1);
    assert Shift(x / 2, 1) == Shift(x / 4, 0);
  }

  /** The bytes written and the pending bits together are the bits read. */
  predicate Pending(symbols: seq<nat>, done: Bytes, acc: nat, bits: nat) {
    ByteBits(done) + ToBits(acc, bits) == SymbolBits(symbols)
  }

  lemma {:induction false} PendingShift(symbols: seq<nat>, done: Bytes, acc: nat, bits: nat, value: nat)
    requires Pending(symbols, done, acc, bits) && bits < 8 && value < 32
    ensures Pending(symbols + [value], done, (acc * 32 + value) % WRAP, bits + 5)
  {
    ShiftIn(acc, bits, value);
    assert (symbols + [value])[..|symbols|] == symbols;
    assert ByteBits(done) + (ToBits(acc, bits) + ToBits(value, 5)) == SymbolBits(symbols) + ToBits(value, 5);
  }

  lemma {:induction false} PendingTake(symbols: seq<nat>, done: Bytes, acc: nat, bits: nat)
    requires Pending(symbols, done, acc, bits) && bits >= 8
    ensures Pending(symbols, done + [Shift(acc, bits - 8) % 256], acc, bits - 8)
  {
    var b := Shift(acc, bits - 8) % 256;
    TakeByte(acc, bits);
    ByteBitsLast(done, b);
    Associative(ByteBits(done), ToBits(b, 8), ToBits(acc, bits - 8));
  }

  lemma {:induction false} ByteBitsLast(done: Bytes, b: byte)
    ensures ByteBits(done + [b]) == ByteBits(done) + ToBits(b, 8)
  {
    assert (done + [b])[..|done|] == done;
  }

  lemma {:induction false} Associative(a: Bits, b: Bits, c: Bits)
    ensures a + b + c == a + (b + c)
  {
  }

  /** The first i characters have been read. */
  predicate ReadTo(text: Bytes, i: nat, symbols: seq<nat>, padded: bool) {
    i <= |text| && ScanText(text[..i]) == Some(Scan(symbols, padded))
  }

  lemma {:induction false} ReadMore(text: Bytes, i: nat, symbols: seq<nat>, padded: bool)
    requires i < |text| && ReadTo(text, i, symbols, padded)
    ensures match ReadChar(Scan(symbols, padded), text[i])
            case None => DecodeText(text) == None
            case Some(s) => ReadTo(text, i + 1, s.symbols, s.padded)
  {
    assert text[..i + 1] == text[..i] + [text[i]];
    ScanOneMore(text[..i], text[i]);
    if ReadChar(Scan(symbols, padded), text[i]) == None {
      ScanFailed(text, i + 1);
    }
  }

  /** What the text decodes to, when its last bits stay pending. */
  lemma {:induction false} ReadAll(text: Bytes, symbols: seq<nat>, padded: bool, done: Bytes, acc: nat, bits: nat)
    requires ReadTo(text, |text|, symbols, padded) && Pending(symbols, done, acc, bits) && bits < 8
    ensures DecodeText(text) == Some(done)
  {
    assert text[..|text|] == text;
    RegroupOfByteBits(done, ToBits(acc, bits));
  }

  /** The front of the buffer and the pending bits are the bits read, and the
      rest of the buffer is untouched. */
  ghost predicate Holding(buf: Bytes, at: nat, before: Bytes, symbols: seq<nat>, acc: nat, bits: nat) {
    at <= |buf| == |before| && Pending(symbols, buf[..at], acc, bits) && buf[at..] == before[at..]
  }

  lemma {:induction false} AllHeld(text: Bytes, symbols: seq<nat>, padded: bool, buf: Bytes, at: nat, before: Bytes,
                                   acc: nat, bits: nat)
    requires ReadTo(text, |text|, symbols, padded) && Holding(buf, at, before, symbols, acc, bits) && bits < 8
    ensures DecodeText(text) == Some(buf[..at]) && buf == buf[..at] + before[at..] && !Overflows(text, |buf|)
  {
    ReadAll(text, symbols, padded, buf[..at], acc, bits);
    FitsSoFar(text, |text|, symbols, padded, buf[..at], acc, bits, |buf|);
    assert buf == buf[..at] + buf[at..];
  }

  /** Shifts one symbol in and writes a byte when eight bits are pending; a full
      buffer stops it with that byte still pending. */
  method PushSymbol(output: array<byte>, at: nat, acc: nat, bits: nat, value: nat, ghost symbols: seq<nat>,
                    ghost before: Bytes)
    returns (stored: bool, next: nat, newAcc: nat, newBits: nat)
    requires bits < 8 && value < 32 && Holding(output[..], at, before, symbols, acc, bits)
    modifies output
    ensures Holding(output[..], next, before, symbols + [value], newAcc, newBits)
    ensures if stored then newBits < 8 else newBits >= 8 && next == output.Length
  {
    assert output[..][..at] == output[..at];
    PendingShift(symbols, output[..at], acc, bits, value);
    newAcc, newBits, next, stored := (acc * 32 + value) % WRAP, bits + 5, at, true;
    if newBits >= 8 {
      if at >= output.Length {
        stored := false;
        return;
      }
      PendingTake(symbols + [value], output[..at], newAcc, newBits);
      ghost var done := output[..at];
      output[at] := Shift(newAcc, newBits - 8) % 256;
      next := at + 1;
      assert output[..][..next] == done + [Shift(newAcc, newBits - 8) % 256];
      newBits := newBits - 8;
    }
  }

  /** Some prefix of the text already decodes to more than fits. */
  ghost predicate Overflows(text: Bytes, capacity: nat) {
    exists i :: 0 <= i <= |text| && DecodesPast(text[..i], capacity)
  }

  predicate DecodesPast(text: Bytes, capacity: nat) {
    var r := DecodeText(text);
    r.Some? && |r.value| > capacity
  }

  /** utils_base32_decode. Between symbols fewer than eight bits are pending,
      and they are the low bits of the accumulator. A full buffer is zeroed as
      soon as one more byte is due. */
  method Decode(input: Bytes, output: array<byte>) returns (status: Status, written: nat)
    modifies output
    ensures var r := DecodeText(input);
      if r.Some? && r.value != [] && |r.value| <= output.Length then
        status == Ok && written == |r.value| && output[..] == r.value + old(output[..])[written..]
      else status == InvalidArgument && written == 0
    ensures Overflows(input, output.Length) ==> output[..] == Zeros(output.Length)
  {
    var accumulator: nat, bits: nat, outPos: nat := 0, 0, 0;
    var padded := false;
    ghost var symbols, before := [], output[..];
    var i := 0;
    while i < |input|
      invariant i <= |input| && bits < 8
      invariant ReadTo(input, i, symbols, padded)
      invariant Holding(output[..], outPos, before, symbols, accumulator, bits)
    {
      var c := input[i];
      ReadMore(input, i, symbols, padded);
      i := i + 1;
      if Space(c) {
        continue;
      }
      if c == 61 {
        padded := true;
        continue;
      }
      var value := SymbolValue(c);
      if padded || value == None {
        FitsSoFar(input, i - 1, symbols, padded, output[..][..outPos], accumulator, bits, output.Length);
        return InvalidArgument, 0;
      }
      var stored;
      stored, outPos, accumulator, bits := PushSymbol(output, outPos, accumulator, bits, value.value, symbols, before);
      symbols := symbols + [value.value];
      if !stored {
        TooManyBits(input, i, symbols, padded, output[..][..outPos], ToBits(accumulator, bits));
        ZeroBuffer(output);
        return InvalidArgument, 0;
      }
    }
    AllHeld(input, symbols, padded, output[..], outPos, before, accumulator, bits);
    if outPos == 0 {
      return InvalidArgument, 0;
    }
    return Ok, outPos;
  }

  lemma {:induction false} ScanFailed(text: Bytes, i: nat)
    requires i <= |text| && ScanText(text[..i]) == None
    ensures ScanText(text) == None
    decreases |text| - i
  {
    if i < |text| {
      assert text[..i + 1][..i] == text[..i];
      ScanFailed(text, i + 1);
    } else {
      assert text[..i] == text;
    }
  }

  lemma {:induction false} ScanExtends(text: Bytes, i: nat)
    requires i <= |text| && ScanText(text[..i]).Some? && ScanText(text).Some?
    ensures ScanText(text[..i]).value.symbols <= ScanText(text).value.symbols
    decreases |text| - i
  {
    if i < |text| {
      assert text[..i + 1][..i] == text[..i];
      if ScanText(text[..i + 1]).None? {
        ScanFailed(text, i + 1);
      } else {
        ScanExtends(text, i + 1);
      }
    } else {
      assert text[..i] == text;
    }
  }

  lemma {:induction false} SymbolBitsLength(symbols: seq<nat>)
    ensures |SymbolBits(symbols)| == 5 * |symbols|
  {
    if symbols != [] {
      SymbolBitsLength(symbols[..|symbols| - 1]);
    }
  }

  lemma {:induction false} RegroupLength(bits: Bits)
    ensures 8 * |Regroup(bits)| <= |bits| < 8 * |Regroup(bits)| + 8
    decreases |bits|
  {
    if |bits| >= 8 {
      RegroupLength(bits[8..]);
    }
  }

  /** A longer text decodes to no fewer bytes. */
  lemma {:induction false} DecodedGrows(text: Bytes, i: nat)
    requires i <= |text| && ScanText(text).Some?
    ensures DecodeText(text[..i]).Some? && |DecodeText(text[..i]).value| <= |DecodeText(text).value|
  {
    if ScanText(text[..i]) == None {
      ScanFailed(text, i);
    }
    ScanExtends(text, i);
    var few, all := ScanText(text[..i]).value.symbols, ScanText(text).value.symbols;
    SymbolBitsLength(few);
    SymbolBitsLength(all);
    RegroupLength(SymbolBits(few));
    RegroupLength(SymbolBits(all));
  }

  /** A full buffer with a whole byte still pending: the text read so far
      decodes to more than fits, and so does the whole text if it is valid. */
  lemma {:induction false} TooManyBits(text: Bytes, i: nat, symbols: seq<nat>, padded: bool, done: Bytes, pending: Bits)
    requires ReadTo(text, i, symbols, padded)
    requires ByteBits(done) + pending == SymbolBits(symbols) && |pending| >= 8
    ensures Overflows(text, |done|)
    ensures DecodeText(text).Some? ==> |DecodeText(text).value| > |done|
  {
    SymbolBitsLength(symbols);
    RegroupLength(SymbolBits(symbols));
    assert DecodesPast(text[..i], |done|);
    if ScanText(text).Some? {
      DecodedGrows(text, i);
    }
  }

  /** As long as the bytes fit and no more text can be read, nothing overflows. */
  lemma {:induction false} FitsSoFar(text: Bytes, i: nat, symbols: seq<nat>, padded: bool, done: Bytes, acc: nat,
                                     bits: nat, capacity: nat)
    requires ReadTo(text, i, symbols, padded) && Pending(symbols, done, acc, bits) && bits < 8 && |done| <= capacity
    requires i < |text| ==> ReadChar(Scan(symbols, padded), text[i]) == None
    ensures !Overflows(text, capacity)
  {
    var read := text[..i];
    assert read[..i] == read;
    ReadAll(read, symbols, padded, done, acc, bits);
    forall j | 0 <= j <= |text|
      ensures !DecodesPast(text[..j], capacity)
    {
      if j <= i {
        DecodedGrows(read, j);
        assert read[..j] == text[..j];
      } else {
        assert text[..j][..i] == read;
        ReadFails(text[..j], i, symbols, padded);
      }
    }
  }

  lemma {:induction false} ReadFails(text: Bytes, i: nat, symbols: seq<nat>, padded: bool)
    requires i < |text| && ScanText(text[..i]) == Some(Scan(symbols, padded))
    requires ReadChar(Scan(symbols, padded), text[i]) == None
    ensures DecodeText(text) == None
  {
    ReadMore(text, i, symbols, padded);
  }
}
