/** Byte buffers: comparison, hexadecimal text, and the packed encoding of a uint256. */
module Buffers {
  import opened Wrappers
  import opened Ordering

  type byte = x: int | 0 <= x < 256
  type Bytes = seq<byte>

  const HASH_LENGTH: nat := 32
  const ADDRESS_LENGTH: nat := 20

  type Hash = b: Bytes | |b| == HASH_LENGTH witness seq(HASH_LENGTH, _ => 0)
  type Address = b: Bytes | |b| == ADDRESS_LENGTH witness seq(ADDRESS_LENGTH, _ => 0)

  // ---- Buffer.compare ----

  predicate ByteLess(a: byte, b: byte) {
    a < b
  }

  predicate BufferLeq(a: Bytes, b: Bytes) {
    LexLeq(ByteLess, a, b)
  }

  /** `Buffer.compare` is a total order, antisymmetric in particular. */
  lemma {:induction false} BufferOrder()
    ensures TotalOrder(BufferLeq)
  {
    LexOrder(ByteLess, BufferLeq);
  }

  /** Byte values decide at the first difference, and a prefix comes first. */
  lemma {:induction false} BufferOrderExact(a: Bytes, b: Bytes)
    ensures BufferLeq(a, b) <==> a <= b || exists k: nat :: DifferFirstAt(a, b, k) && a[k] < b[k]
  {
    LexExact(ByteLess, a, b);
  }

  // ---- Hexadecimal text ----

  type nibble = x: int | 0 <= x < 16

  function HexDigit(n: nibble): char {
    if n < 10 then '0' + n as char else 'a' + (n - 10) as char
  }

  function HexValue(c: char): Option<nibble> {
    if '0' <= c <= '9' then Some(c as int - '0' as int)
    else if 'a' <= c <= 'f' then Some(c as int - 'a' as int + 10)
    else if 'A' <= c <= 'F' then Some(c as int - 'A' as int + 10)
    else None
  }

  function Hex(b: Bytes): string {
    if b == [] then "" else [HexDigit(b[0] / 16), HexDigit(b[0] % 16)] + Hex(b[1..])
  }

  function UnHex(s: string): Option<Bytes> {
    if s == "" then
      Some([])
    else if |s| == 1 then
      None
    else
      match (HexValue(s[0]), HexValue(s[1]), UnHex(s[2..]))
      case (Some(hi), Some(lo), Some(rest)) => Some([16 * hi as int + lo as int] + rest)
      case _ => None
  }

  function BufferToHex(b: Bytes): string {
    "0x" + Hex(b)
  }

  /** Reads a `0x` string back, as a consumer of the published proof does. */
  function HexToBuffer(s: string): Option<Bytes> {
    if |s| >= 2 && s[..2] == "0x" then UnHex(s[2..]) else None
  }

  lemma {:induction false} UnHexHex(b: Bytes)
    ensures UnHex(Hex(b)) == Some(b)
  {
    if b != [] {
      UnHexHex(b[1..]);
      assert Hex(b)[2..] == Hex(b[1..]);
      assert b == [b[0]] + b[1..];
    }
  }

  /** The hexadecimal text of a buffer can be read back, so it is injective. */
  lemma {:induction false} HexRoundTrip(b: Bytes)
    ensures HexToBuffer(BufferToHex(b)) == Some(b)
  {
    UnHexHex(b);
    assert BufferToHex(b)[2..] == Hex(b);
  }

  predicate AllLowerHex(s: string) {
    forall i | 0 <= i < |s| :: s[i] in "0123456789abcdef"
  }

  lemma {:induction false} HexDigitLower(n: nibble)
    ensures HexDigit(n) == "0123456789abcdef"[n]
  {
  }

  lemma {:induction false} HexDigitsLower(b: Bytes)
    ensures |Hex(b)| == 2 * |b| && AllLowerHex(Hex(b))
  {
    if b != [] {
      HexDigitsLower(b[1..]);
      HexDigitLower(b[0] / 16);
      HexDigitLower(b[0] % 16);
    }
  }

  /** Two lower-case digits a byte, after `0x`. */
  lemma {:induction false} HexLowerCase(b: Bytes)
    ensures var s := BufferToHex(b);
            |s| == 2 + 2 * |b| && s[..2] == "0x" && AllLowerHex(s[2..])
  {
    HexDigitsLower(b);
    assert BufferToHex(b)[2..] == Hex(b);
  }

  lemma {:induction false} HexInjective(a: Bytes, b: Bytes)
    requires BufferToHex(a) == BufferToHex(b)
    ensures a == b
  {
    HexRoundTrip(a);
    HexRoundTrip(b);
  }

  // ---- uint256 in packed mode ----

  const WORD_LENGTH: nat := 32

  function Pow256(n: nat): (r: nat)
    ensures r > 0
  {
    if n == 0 then 1 else 256 * Pow256(n - 1)
  }

  const UINT256_LIMIT: nat :=
    0x1_0000_0000_0000_0000_0000_0000_0000_0000_0000_0000_0000_0000_0000_0000_0000_0000

  type uint256 = x: int | 0 <= x < UINT256_LIMIT

  lemma {:induction false} Uint256Width()
    ensures Pow256(WORD_LENGTH) == UINT256_LIMIT
  {
    assert Pow256(8) == 0x1_0000_0000_0000_0000;
    assert Pow256(16) == 0x1_0000_0000_0000_0000_0000_0000_0000_0000;
    assert Pow256(24) == 0x1_0000_0000_0000_0000_0000_0000_0000_0000_0000_0000_0000_0000;
  }

  function BigEndian(n: nat, width: nat): (r: Bytes)
    ensures |r| == width
  {
    if width == 0 then [] else BigEndian(n / 256, width - 1) + [n % 256]
  }

  function FromBigEndian(b: Bytes): nat {
    if b == [] then 0 else 256 * FromBigEndian(b[..|b| - 1]) + b[|b| - 1]
  }

  lemma {:induction false} BigEndianRoundTrip(n: nat, width: nat)
    requires n < Pow256(width)
    ensures FromBigEndian(BigEndian(n, width)) == n
  {
    if width > 0 {
      BigEndianRoundTrip(n / 256, width - 1);
      var r := BigEndian(n, width);
      assert r[..|r| - 1] == BigEndian(n / 256, width - 1);
    }
  }

  lemma {:induction false} BigEndianReadsAll(b: Bytes)
    ensures FromBigEndian(b) < Pow256(|b|)
    ensures BigEndian(FromBigEndian(b), |b|) == b
  {
    if b != [] {
      var init, last := b[..|b| - 1], b[|b| - 1];
      BigEndianReadsAll(init);
      assert FromBigEndian(b) / 256 == FromBigEndian(init) && FromBigEndian(b) % 256 == last;
      assert b == init + [last];
    }
  }

  lemma {:induction false} LastByte(b: Bytes)
    requires b != []
    ensures FromBigEndian(b) == 256 * FromBigEndian(b[..|b| - 1]) + b[|b| - 1]
  {
  }

  lemma {:induction false} Pow256Step(n: nat, factor: nat)
    requires n > 0
    ensures factor * Pow256(n) == 256 * (factor * Pow256(n - 1))
  {
  }

  lemma {:induction false} OneByte(b: Bytes)
    requires |b| == 1
    ensures FromBigEndian(b) == b[0] * Pow256(0) + FromBigEndian(b[1..])
  {
  }

  lemma {:induction false} LeadingByte(b: Bytes)
    requires b != []
    ensures FromBigEndian(b) == b[0] * Pow256(|b| - 1) + FromBigEndian(b[1..])
  {
    hide FromBigEndian, Pow256;
    LastByte(b);
    if |b| == 1 {
      OneByte(b);
    } else {
      var init := b[..|b| - 1];
      LeadingByte(init);
      LastByte(b[1..]);
      assert b[1..][..|b| - 2] == init[1..];
      Pow256Step(|b| - 1, b[0]);
    }
  }

  lemma {:induction false} LeadingByteDecides(x: byte, y: byte, unit: nat, low: nat, high: nat)
    requires low < unit && high < unit && x != y
    ensures x * unit + low <= y * unit + high <==> x < y
  {
    if x < y {
      assert (x + 1) * unit <= y * unit;
    } else {
      assert (y + 1) * unit <= x * unit;
    }
  }

  /** Among equally long buffers `Buffer.compare` compares the numbers they spell. */
  lemma {:induction false} BufferOrderIsNumeric(a: Bytes, b: Bytes)
    requires |a| == |b|
    ensures BufferLeq(a, b) <==> FromBigEndian(a) <= FromBigEndian(b)
    ensures FromBigEndian(a) == FromBigEndian(b) ==> a == b
  {
    BigEndianReadsAll(a);
    BigEndianReadsAll(b);
    if a != [] {
      LeadingByte(a);
      LeadingByte(b);
      BigEndianReadsAll(a[1..]);
      BigEndianReadsAll(b[1..]);
      if a[0] == b[0] {
        BufferOrderIsNumeric(a[1..], b[1..]);
      } else {
        LeadingByteDecides(a[0], b[0], Pow256(|a| - 1), FromBigEndian(a[1..]), FromBigEndian(b[1..]));
      }
    }
  }

  function Pack(n: uint256): (r: Bytes)
    ensures |r| == WORD_LENGTH
  {
    BigEndian(n, WORD_LENGTH)
  }

  /** A packed uint256 reads back, most significant byte first. */
  lemma {:induction false} PackReadsBack(n: uint256)
    ensures FromBigEndian(Pack(n)) == n
  {
    Uint256Width();
    BigEndianRoundTrip(n, WORD_LENGTH);
  }

  /** Every 32 bytes are a packed uint256. */
  lemma {:induction false} UnpackHash(b: Hash) returns (n: uint256)
    ensures Pack(n) == b
  {
    Uint256Width();
    BigEndianReadsAll(b);
    n := FromBigEndian(b);
  }
}
