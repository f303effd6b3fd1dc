/** The base 32 coder of base-32.c, against bit strings as in section 6 of RFC 4648. */
module Base32 {
  import opened Bytes
  import opened Bits

  const PADDING_CHAR: byte := 61

  // ----- The reference: both texts are bit strings, most significant bit first

  /** Bit `i` of a byte string, 0 past its end. */
  function Bit(s: seq<byte>, i: nat): (b: nat)
    ensures b < 2
  {
    if i / 8 < |s| then s[i / 8] / Pow2(7 - i % 8) % 2 else 0
  }

  /** The 5-bit group at position `k`. */
  function Group(s: seq<byte>, k: nat): (d: nat)
    ensures d < 32
  {
    16 * Bit(s, 5 * k) + 8 * Bit(s, 5 * k + 1) + 4 * Bit(s, 5 * k + 2) + 2 * Bit(s, 5 * k + 3) + Bit(s, 5 * k + 4)
  }

  type digit = d: int | 0 <= d < 32

  /** Bit `i` of a string of 5-bit digits, 0 past its end. */
  function DigitBit(ds: seq<digit>, i: nat): (b: nat)
    ensures b < 2
  {
    if i / 5 < |ds| then ds[i / 5] / Pow2(4 - i % 5) % 2 else 0
  }

  /** The byte at position `j` of a string of digits. */
  function Octet(ds: seq<digit>, j: nat): (b: byte) {
    128 * DigitBit(ds, 8 * j) + 64 * DigitBit(ds, 8 * j + 1) + 32 * DigitBit(ds, 8 * j + 2) + 16 * DigitBit(ds, 8 * j + 3)
    + 8 * DigitBit(ds, 8 * j + 4) + 4 * DigitBit(ds, 8 * j + 5) + 2 * DigitBit(ds, 8 * j + 6) + DigitBit(ds, 8 * j + 7)
  }

  /** How many groups a byte string fills, the last one perhaps in part. */
  function GroupCount(n: nat): nat {
    (8 * n + 4) / 5
  }

  /** `BASE32_LEN` */
  function Base32Len(len: nat): nat {
    len / 5 * 8 + if len % 5 != 0 then 8 else 0
  }

  function Groups(s: seq<byte>): (ds: seq<digit>) {
    seq(GroupCount(|s|), k requires 0 <= k => Group(s, k))
  }

  /** The bytes that fit whole into a string of digits. */
  function Octets(ds: seq<digit>): (s: seq<byte>) {
    seq(5 * |ds| / 8, j requires 0 <= j => Octet(ds, j))
  }

  // ----- Characters

  /** A to Z and 2 to 7. */
  const TABLE: seq<byte> := [
    65, 66, 67, 68, 69, 70, 71, 72, 73, 74, 75, 76, 77, 78, 79, 80,
    81, 82, 83, 84, 85, 86, 87, 88, 89, 90, 50, 51, 52, 53, 54, 55]

  /** `encode_char`: higher bits of the argument are ignored. */
  function EncodeChar(c: byte): (r: byte) {
    AndMask(c, 5);
    assert Pow2(5) == 32;
    TABLE[And(c, 0x1F)]
  }

  /** `decode_char`: -1 for padding and for every character outside the alphabet. */
  function DecodeChar(c: byte): (r: int)
    ensures -1 <= r < 32
  {
    if 65 <= c <= 90 then c - 65
    else if 50 <= c <= 55 then c - 50 + 26
    else -1
  }

  lemma TableEntry(d: digit)
    ensures TABLE[d] == if d < 26 then 65 + d else 50 + (d - 26)
  {
  }

  lemma EncodedAs(c: byte)
    ensures EncodeChar(c) == if c % 32 < 26 then 65 + c % 32 else 50 + (c % 32 - 26)
  {
    AndMask(c, 5);
    assert Pow2(5) == 32;
    TableEntry(c % 32);
  }

  lemma CharRoundTrip(d: digit)
    ensures DecodeChar(EncodeChar(d)) == d
  {
    hide EncodeChar;
    EncodedAs(d);
  }

  // ----- Shifts

  /** `get_octet`: the octet in which a block of 5 bits starts. */
  function GetOctet(block: nat): (o: nat)
    requires block < 8
    ensures 8 * o <= 5 * block < 8 * o + 8
  {
    block * 5 / 8
  }

  /** `get_offset`: how many bits follow the block in that octet; negative if some are missing. */
  function GetOffset(block: nat): (j: int)
    requires block < 8
    ensures 8 * GetOctet(block) + 8 == 5 * block + 5 + j
  {
    8 - 5 - 5 * block % 8
  }

  /** `shift_right` */
  function ShiftRight(b: byte, offset: int): (r: byte) {
    if offset > 0 then DivideShrinks(b, Pow2(offset)); b / Pow2(offset) else b * Pow2(0 - offset) % 256
  }

  /** `shift_left` */
  function ShiftLeft(b: byte, offset: int): (r: byte) {
    ShiftRight(b, -offset)
  }

  lemma Powers()
    ensures Pow2(0) == 1 && Pow2(1) == 2 && Pow2(2) == 4 && Pow2(3) == 8 && Pow2(4) == 16
    ensures Pow2(5) == 32 && Pow2(6) == 64 && Pow2(7) == 128 && Pow2(8) == 256
  {
    assert Pow2(3) == 8;
    assert Pow2(6) == 64;
  }

  function At(s: seq<byte>, i: nat): (b: byte) {
    if i < |s| then s[i] else 0
  }

  lemma BitAt(s: seq<byte>, o: nat, p: nat)
    requires p < 8
    ensures Bit(s, 8 * o + p) == At(s, o) / Pow2(7 - p) % 2
  {
    assert (8 * o + p) / 8 == o && (8 * o + p) % 8 == p;
  }

  /** The bits of a byte as differences of its shifts. */
  lemma Halves(x: byte)
    ensures x / 128 % 2 == x / 128 && x / 64 % 2 == x / 64 - 2 * (x / 128)
    ensures x / 32 % 2 == x / 32 - 2 * (x / 64) && x / 16 % 2 == x / 16 - 2 * (x / 32)
    ensures x / 8 % 2 == x / 8 - 2 * (x / 16) && x / 4 % 2 == x / 4 - 2 * (x / 8)
    ensures x / 2 % 2 == x / 2 - 2 * (x / 4) && x / 1 % 2 == x - 2 * (x / 2)
  {
    assert x / 4 == x / 2 / 2 && x / 8 == x / 4 / 2 && x / 16 == x / 8 / 2;
    assert x / 32 == x / 16 / 2 && x / 64 == x / 32 / 2 && x / 128 == x / 64 / 2;
  }

  /** The eight bits of octet `o`. */
  lemma OctetBits(t: seq<byte>, o: nat)
    ensures var x := At(t, o);
            && Bit(t, 8 * o) == x / 128 && Bit(t, 8 * o + 1) == x / 64 - 2 * (x / 128)
            && Bit(t, 8 * o + 2) == x / 32 - 2 * (x / 64) && Bit(t, 8 * o + 3) == x / 16 - 2 * (x / 32)
            && Bit(t, 8 * o + 4) == x / 8 - 2 * (x / 16) && Bit(t, 8 * o + 5) == x / 4 - 2 * (x / 8)
            && Bit(t, 8 * o + 6) == x / 2 - 2 * (x / 4) && Bit(t, 8 * o + 7) == x - 2 * (x / 2)
  {
    hide Bit;
    Powers();
    Halves(At(t, o));
    BitAt(t, o, 0);
    BitAt(t, o, 1);
    BitAt(t, o, 2);
    BitAt(t, o, 3);
    BitAt(t, o, 4);
    BitAt(t, o, 5);
    BitAt(t, o, 6);
    BitAt(t, o, 7);
  }

  lemma Modulo32(e: int, k: int, d: digit)
    requires d == e - 32 * k
    ensures d == e % 32
  {
  }

  /** The block that starts in octet `o` with `f` bits after it. */
  function Across(x: byte, y: byte, f: int): (d: digit)
    requires -4 <= f <= 3
  {
    if f >= 0 then x / Pow2(f) % 32 else (x * Pow2(0 - f) + y / Pow2(8 + f)) % 32
  }

  lemma Group0(t: seq<byte>)
    ensures Group(t, 0) == Across(At(t, GetOctet(0)), At(t, GetOctet(0) + 1), GetOffset(0))
  {
    hide Bit;
    hide At;
    hide Pow2;
    Powers();
    var x: int := At(t, GetOctet(0));
    OctetBits(t, GetOctet(0));
    Modulo32(x / 8, 0, Group(t, 0));
  }

  lemma Group1(t: seq<byte>)
    ensures Group(t, 1) == Across(At(t, GetOctet(1)), At(t, GetOctet(1) + 1), GetOffset(1))
  {
    hide Bit;
    hide At;
    hide Pow2;
    Powers();
    var x: int, y: int := At(t, GetOctet(1)), At(t, GetOctet(1) + 1);
    OctetBits(t, GetOctet(1));
    OctetBits(t, GetOctet(1) + 1);
    Modulo32(x * 4 + y / 64, x / 8, Group(t, 1));
  }

  lemma Group2(t: seq<byte>)
    ensures Group(t, 2) == Across(At(t, GetOctet(2)), At(t, GetOctet(2) + 1), GetOffset(2))
  {
    hide Bit;
    hide At;
    hide Pow2;
    Powers();
    var x: int := At(t, GetOctet(2));
    OctetBits(t, GetOctet(2));
    Modulo32(x / 2, x / 64, Group(t, 2));
  }

  lemma Group3(t: seq<byte>)
    ensures Group(t, 3) == Across(At(t, GetOctet(3)), At(t, GetOctet(3) + 1), GetOffset(3))
  {
    hide Bit;
    hide At;
    hide Pow2;
    Powers();
    var x: int, y: int := At(t, GetOctet(3)), At(t, GetOctet(3) + 1);
    OctetBits(t, GetOctet(3));
    OctetBits(t, GetOctet(3) + 1);
    Modulo32(x * 16 + y / 16, x / 2, Group(t, 3));
  }

  lemma Group4(t: seq<byte>)
    ensures Group(t, 4) == Across(At(t, GetOctet(4)), At(t, GetOctet(4) + 1), GetOffset(4))
  {
    hide Bit;
    hide At;
    hide Pow2;
    Powers();
    var x: int, y: int := At(t, GetOctet(4)), At(t, GetOctet(4) + 1);
    OctetBits(t, GetOctet(4));
    OctetBits(t, GetOctet(4) + 1);
    Modulo32(x * 2 + y / 128, x / 16, Group(t, 4));
  }

  lemma Group5(t: seq<byte>)
    ensures Group(t, 5) == Across(At(t, GetOctet(5)), At(t, GetOctet(5) + 1), GetOffset(5))
  {
    hide Bit;
    hide At;
    hide Pow2;
    Powers();
    var x: int := At(t, GetOctet(5));
    OctetBits(t, GetOctet(5));
    Modulo32(x / 4, x / 128, Group(t, 5));
  }

  lemma Group6(t: seq<byte>)
    ensures Group(t, 6) == Across(At(t, GetOctet(6)), At(t, GetOctet(6) + 1), GetOffset(6))
  {
    hide Bit;
    hide At;
    hide Pow2;
    Powers();
    var x: int, y: int := At(t, GetOctet(6)), At(t, GetOctet(6) + 1);
    OctetBits(t, GetOctet(6));
    OctetBits(t, GetOctet(6) + 1);
    Modulo32(x * 8 + y / 32, x / 4, Group(t, 6));
  }

  lemma Group7(t: seq<byte>)
    ensures Group(t, 7) == Across(At(t, GetOctet(7)), At(t, GetOctet(7) + 1), GetOffset(7))
  {
    hide Bit;
    hide At;
    hide Pow2;
    Powers();
    var x: int := At(t, GetOctet(7));
    OctetBits(t, GetOctet(7));
    Modulo32(x, x / 32, Group(t, 7));
  }

  /** A block, from the one or two octets it lies in. */
  lemma GroupFromOctets(t: seq<byte>, b: nat)
    requires b < 8
    ensures Group(t, b) == Across(At(t, GetOctet(b)), At(t, GetOctet(b) + 1), GetOffset(b))
  {
    hide Group;
    hide At;
    hide Across;
    match b
    case 0 => Group0(t);
    case 1 => Group1(t);
    case 2 => Group2(t);
    case 3 => Group3(t);
    case 4 => Group4(t);
    case 5 => Group5(t);
    case 6 => Group6(t);
    case _ => Group7(t);
  }

  // ----- Encoding

  /** Five octets, or the last ones, as eight characters. */
  function CodedBlock(t: seq<byte>): (r: seq<byte>)
    requires |t| <= 5
    ensures |r| == 8
  {
    seq(8, b requires 0 <= b < 8 => if GetOctet(b) < |t| then EncodeChar(Group(t, b)) else PADDING_CHAR)
  }

  /** The text of a byte string: its groups as characters, filled up with padding. */
  function Coded(s: seq<byte>): (r: seq<byte>)
    ensures |r| == Base32Len(|s|)
  {
    seq(Base32Len(|s|), k requires 0 <= k => if 5 * k < 8 * |s| then EncodeChar(Group(s, k)) else PADDING_CHAR)
  }

  /** `pad` */
  method Fill(buf: array<byte>, pos: nat, len: nat)
    requires pos + len <= buf.Length
    modifies buf
    ensures forall k | 0 <= k < buf.Length :: buf[k] == if pos <= k < pos + len then PADDING_CHAR else old(buf[k])
  {
    for i := 0 to len
      invariant forall k | 0 <= k < buf.Length :: buf[k] == if pos <= k < pos + i then PADDING_CHAR else old(buf[k])
    {
      buf[pos + i] := PADDING_CHAR;
    }
  }

  /** The character of one block, as the loop of `encode_sequence` computes it. */
  method EncodeBlock(plain: seq<byte>, i: nat, len: nat, block: nat) returns (c: byte)
    requires len <= 5 && i + len <= |plain| && block < 8 && GetOctet(block) < len
    ensures c == EncodeChar(Group(plain[i..i + len], block))
  {
    hide Group;
    hide EncodeChar;
    hide Across;
    var octet := GetOctet(block);
    var junk := GetOffset(block);
    ghost var t := plain[i..i + len];
    assert At(t, octet) == plain[i + octet];
    GroupFromOctets(t, block);
    c := ShiftRight(plain[i + octet], junk);
    if junk < 0 && octet < len - 1 {
      assert At(t, octet + 1) == plain[i + octet + 1];
      Joined(plain[i + octet], plain[i + octet + 1], junk);
      c := Or(c, ShiftRight(plain[i + octet + 1], 8 + junk));
    } else {
      Alone(plain[i + octet], At(t, octet + 1), junk);
    }
    SameChar(c, Group(t, block));
    c := EncodeChar(c);
  }

  lemma SameChar(c: byte, d: digit)
    requires c % 32 == d
    ensures EncodeChar(c) == EncodeChar(d)
  {
    hide EncodeChar;
    EncodedAs(c);
    EncodedAs(d);
  }

  /** The two parts of a block share no bit. */
  lemma Joined(x: byte, y: byte, f: int)
    requires -4 <= f < 0
    ensures Or(ShiftRight(x, f), ShiftRight(y, 8 + f)) < 256
    ensures Or(ShiftRight(x, f), ShiftRight(y, 8 + f)) % 32 == Across(x, y, f)
  {
    hide Across;
    hide ShiftRight;
    var a: int, b: int := ShiftRight(x, f), ShiftRight(y, 8 + f);
    Parts(x, y, f);
    OrDisjoint(a, b, 0 - f);
    assert Pow2(8) == 256 by {
      Powers();
    }
    OrBound(a, b, 8);
  }

  lemma Parts(x: byte, y: byte, f: int)
    requires -4 <= f < 0
    ensures ShiftRight(x, f) as int % Pow2(0 - f) == 0 && ShiftRight(y, 8 + f) < Pow2(0 - f)
    ensures (ShiftRight(x, f) + ShiftRight(y, 8 + f)) as int % 32 == Across(x, y, f)
  {
    hide Pow2;
    Powers();
    if f == -1 {
      Truncated(x, 2, 128, y / 128);
    } else if f == -2 {
      Truncated(x, 4, 64, y / 64);
    } else if f == -3 {
      Truncated(x, 8, 32, y / 32);
    } else {
      Truncated(x, 16, 16, y / 16);
    }
  }

  /** Cutting x * p off at 8 bits changes neither its low bits nor the low five. */
  lemma Truncated(x: nat, p: nat, q: nat, b: nat)
    requires (p == 2 && q == 128) || (p == 4 && q == 64) || (p == 8 && q == 32) || (p == 16 && q == 16)
    ensures x * p % 256 % p == 0
    ensures (x * p % 256 + b) % 32 == (x * p + b) % 32
  {
    Cut(x * p, b);
    if p == 2 {
      Multiple(x, 2, x * 2 / 256, 128);
    } else if p == 4 {
      Multiple(x, 4, x * 4 / 256, 64);
    } else if p == 8 {
      Multiple(x, 8, x * 8 / 256, 32);
    } else {
      Multiple(x, 16, x * 16 / 256, 16);
    }
  }

  lemma Cut(e: nat, b: nat)
    ensures (e % 256 + b) % 32 == (e + b) % 32
  {
  }

  lemma Multiple(x: nat, p: nat, m: nat, q: nat)
    requires p > 0 && p * q == 256 && m == x * p / 256
    ensures x * p % 256 % p == 0
  {
    var r := x * p % 256;
    assert x * p == m * 256 + r;
    assert r == (x - m * q) * p by {
      assert m * 256 == m * q * p;
    }
    if x < m * q {
      AtMostZero(x - m * q, p);
      assert false;
    }
    DivisionUnique(r, p, x - m * q, 0);
  }

  lemma AtMostZero(a: int, p: nat)
    requires a < 0 < p
    ensures a * p < 0
  {
  }

  lemma Alone(x: byte, y: byte, f: int)
    requires -4 <= f <= 3 && (f < 0 ==> y == 0)
    ensures ShiftRight(x, f) % 32 == Across(x, y, f)
  {
    hide Pow2;
    Powers();
    if f < 0 {
      var p: int := x * Pow2(0 - f);
      Cut(p, 0);
      assert y / Pow2(8 + f) == 0 by {
        assert f == -1 || f == -2 || f == -3 || f == -4;
      }
    }
  }

  /** `encode_sequence` */
  method EncodeSequence(plain: seq<byte>, i: nat, len: nat, coded: array<byte>, j: nat)
    requires len <= 5 && i + len <= |plain| && j + 8 <= coded.Length
    modifies coded
    ensures forall k | 0 <= k < coded.Length ::
              coded[k] == if j <= k < j + 8 then CodedBlock(plain[i..i + len])[k - j] else old(coded[k])
  {
    hide Group;
    hide EncodeChar;
    ghost var t := plain[i..i + len];
    for block := 0 to 8
      invariant forall k | 0 <= k < coded.Length ::
                  coded[k] == if j <= k < j + block then CodedBlock(t)[k - j] else old(coded[k])
    {
      if GetOctet(block) >= len {
        Fill(coded, j + block, 8 - block);
        return;
      }
      coded[j + block] := EncodeBlock(plain, i, len, block);
    }
  }

  lemma BitShift(s: seq<byte>, i: nat, n: nat, p: nat)
    requires i + n <= |s| && p < 40 && (n == 5 || i + n == |s|)
    ensures Bit(s, 8 * i + p) == Bit(s[i..i + n], p)
  {
    assert (8 * i + p) / 8 == i + p / 8 && (8 * i + p) % 8 == p % 8;
  }

  /** Block `b` of the sequence at octet `i` is block i / 5 * 8 + b of the whole text. */
  lemma GroupShift(s: seq<byte>, i: nat, n: nat, b: nat)
    requires i + n <= |s| && i % 5 == 0 && b < 8 && (n == 5 || i + n == |s|)
    ensures Group(s, i / 5 * 8 + b) == Group(s[i..i + n], b)
  {
    hide Bit;
    assert 5 * (i / 5 * 8 + b) == 8 * i + 5 * b;
    BitShift(s, i, n, 5 * b);
    BitShift(s, i, n, 5 * b + 1);
    BitShift(s, i, n, 5 * b + 2);
    BitShift(s, i, n, 5 * b + 3);
    BitShift(s, i, n, 5 * b + 4);
  }

  lemma BlockOfText(s: seq<byte>, i: nat)
    requires i % 5 == 0 && i < |s|
    ensures var n, j := if |s| - i < 5 then |s| - i else 5, i / 5 * 8;
            && j + 8 <= Base32Len(|s|) == |Coded(s)|
            && Coded(s)[j..j + 8] == CodedBlock(s[i..i + n])
  {
    hide Group;
    hide EncodeChar;
    var n, j := if |s| - i < 5 then |s| - i else 5, i / 5 * 8;
    var text := Coded(s)[j..j + 8];
    forall b | 0 <= b < 8
      ensures text[b] == CodedBlock(s[i..i + n])[b]
    {
      GroupShift(s, i, n, b);
      assert 5 * (j + b) < 8 * |s| <==> GetOctet(b) < n;
    }
  }

  /** `base32_encode` */
  method Encode(plain: seq<byte>, coded: array<byte>)
    requires coded.Length >= Base32Len(|plain|)
    modifies coded
    ensures coded[..Base32Len(|plain|)] == Coded(plain)
    ensures coded[Base32Len(|plain|)..] == old(coded[Base32Len(|plain|)..])
  {
    hide Coded;
    hide CodedBlock;
    var len := |plain|;
    var i, j := 0, 0;
    while i < len
      invariant i % 5 == 0 && j == i / 5 * 8 && (i < len || j == Base32Len(len)) && (i < len ==> j + 8 <= Base32Len(len))
      invariant forall k | 0 <= k < coded.Length :: coded[k] == if k < j then Coded(plain)[k] else old(coded[k])
    {
      BlockOfText(plain, i);
      var n := if len - i < 5 then len - i else 5;
      EncodeSequence(plain, i, n, coded, j);
      assert forall k | j <= k < j + 8 :: Coded(plain)[k] == Coded(plain)[j..j + 8][k - j];
      i, j := i + 5, j + 8;
    }
  }

  // ----- Decoding

  /** The digits a text starts with, up to the first character outside the alphabet. */
  function Digits(coded: seq<byte>): (ds: seq<digit>)
    ensures |ds| <= |coded| && forall k | 0 <= k < |ds| :: DecodeChar(coded[k]) == ds[k]
    ensures |ds| < |coded| ==> DecodeChar(coded[|ds|]) == -1
  {
    if coded == [] || DecodeChar(coded[0]) < 0 then [] else [DecodeChar(coded[0])] + Digits(coded[1..])
  }

  function DigitAt(ds: seq<digit>, k: nat): (d: digit) {
    if k < |ds| then ds[k] else 0
  }

  lemma DigitPlace(k: nat, i: nat)
    requires i < 5
    ensures (5 * k + i) / 5 == k && (5 * k + i) % 5 == i
  {
  }

  lemma DigitBits(ds: seq<digit>, k: nat)
    ensures var d := DigitAt(ds, k);
            && DigitBit(ds, 5 * k) == d / 16 && DigitBit(ds, 5 * k + 1) == d / 8 - 2 * (d / 16)
            && DigitBit(ds, 5 * k + 2) == d / 4 - 2 * (d / 8) && DigitBit(ds, 5 * k + 3) == d / 2 - 2 * (d / 4)
            && DigitBit(ds, 5 * k + 4) == d - 2 * (d / 2)
  {
    hide Pow2;
    Powers();
    var d: int := DigitAt(ds, k);
    assert d / 4 == d / 2 / 2 && d / 8 == d / 4 / 2 && d / 16 == d / 8 / 2;
    DigitPlace(k, 0);
    DigitPlace(k, 1);
    DigitPlace(k, 2);
    DigitPlace(k, 3);
    DigitPlace(k, 4);
  }

  /** The octets of one sequence, from its digits. */
  function Mix(ds: seq<digit>, o: nat): int
    requires o < 5
  {
    if o == 0 then DigitAt(ds, 0) * 8 + DigitAt(ds, 1) / 4
    else if o == 1 then DigitAt(ds, 1) % 4 * 64 + DigitAt(ds, 2) * 2 + DigitAt(ds, 3) / 16
    else if o == 2 then DigitAt(ds, 3) % 16 * 16 + DigitAt(ds, 4) / 2
    else if o == 3 then DigitAt(ds, 4) % 2 * 128 + DigitAt(ds, 5) * 4 + DigitAt(ds, 6) / 8
    else DigitAt(ds, 6) % 8 * 32 + DigitAt(ds, 7)
  }

  lemma OctetMixes(ds: seq<digit>, o: nat)
    requires o < 5
    ensures Octet(ds, o) == Mix(ds, o)
  {
    hide DigitBit;
    hide DigitAt;
    if o == 0 {
      DigitBits(ds, 0);
      DigitBits(ds, 1);
    } else if o == 1 {
      DigitBits(ds, 1);
      DigitBits(ds, 2);
      DigitBits(ds, 3);
    } else if o == 2 {
      DigitBits(ds, 3);
      DigitBits(ds, 4);
    } else if o == 3 {
      DigitBits(ds, 4);
      DigitBits(ds, 5);
      DigitBits(ds, 6);
    } else {
      DigitBits(ds, 6);
      DigitBits(ds, 7);
    }
  }

  /** One more digit fills up an octet and may start the next one. */
  lemma NextDigit(ds: seq<digit>, c: digit)
    requires |ds| < 8
    ensures var o, f := GetOctet(|ds|), GetOffset(|ds|);
            && Octet(ds + [c], o) == Octet(ds, o) + ShiftLeft(c, f)
            && Octet(ds, o) as int % Pow2(5 + f) == 0 && ShiftLeft(c, f) < Pow2(5 + f)
            && (f < 0 ==> Octet(ds + [c], o + 1) == ShiftLeft(c, 8 + f))
  {
    hide Octet;
    hide Pow2;
    hide ShiftLeft;
    hide Mix;
    hide DigitAt;
    var k, o, f := |ds|, GetOctet(|ds|), GetOffset(|ds|);
    OctetMixes(ds, o);
    OctetMixes(ds + [c], o);
    if f >= 0 {
      ShiftedUp(c, f);
      MixInside(ds, c);
    } else {
      OctetMixes(ds + [c], o + 1);
      ShiftedDown(c, f);
      MixStraddling(ds, c);
    }
  }

  lemma MixInside(ds: seq<digit>, c: digit)
    requires |ds| < 8 && GetOffset(|ds|) >= 0
    ensures var o, f := GetOctet(|ds|), GetOffset(|ds|);
            && Mix(ds + [c], o) == Mix(ds, o) + c * Pow2(f)
            && Mix(ds, o) % Pow2(5 + f) == 0 && c * Pow2(f) < Pow2(5 + f)
  {
    hide Pow2;
    Powers();
    var k := |ds|;
    assert k == 0 || k == 2 || k == 5 || k == 7;
  }

  lemma MixStraddling(ds: seq<digit>, c: digit)
    requires |ds| < 8 && GetOffset(|ds|) < 0
    ensures var o, f := GetOctet(|ds|), GetOffset(|ds|);
            && Mix(ds + [c], o) == Mix(ds, o) + c / Pow2(0 - f)
            && Mix(ds, o) % Pow2(5 + f) == 0 && c / Pow2(0 - f) < Pow2(5 + f)
            && Mix(ds + [c], o + 1) == c % Pow2(0 - f) * Pow2(8 + f)
  {
    if |ds| < 4 {
      MixLow(ds, c);
    } else {
      MixHigh(ds, c);
    }
  }

  lemma MixLow(ds: seq<digit>, c: digit)
    requires |ds| == 1 || |ds| == 3
    ensures var o, f := GetOctet(|ds|), GetOffset(|ds|);
            && Mix(ds + [c], o) == Mix(ds, o) + c / Pow2(0 - f)
            && Mix(ds, o) % Pow2(5 + f) == 0 && c / Pow2(0 - f) < Pow2(5 + f)
            && Mix(ds + [c], o + 1) == c % Pow2(0 - f) * Pow2(8 + f)
  {
    hide Pow2;
    Powers();
  }

  lemma MixHigh(ds: seq<digit>, c: digit)
    requires |ds| == 4 || |ds| == 6
    ensures var o, f := GetOctet(|ds|), GetOffset(|ds|);
            && Mix(ds + [c], o) == Mix(ds, o) + c / Pow2(0 - f)
            && Mix(ds, o) % Pow2(5 + f) == 0 && c / Pow2(0 - f) < Pow2(5 + f)
            && Mix(ds + [c], o + 1) == c % Pow2(0 - f) * Pow2(8 + f)
  {
    hide Pow2;
    Powers();
  }

  lemma ShiftedUp(c: digit, f: int)
    requires 0 <= f <= 3
    ensures ShiftLeft(c, f) == c * Pow2(f)
  {
    hide Pow2;
    Powers();
    assert f == 0 || f == 1 || f == 2 || f == 3;
  }

  lemma ShiftedDown(c: digit, f: int)
    requires -4 <= f < 0
    ensures ShiftLeft(c, f) == c / Pow2(0 - f) && ShiftLeft(c, 8 + f) == c % Pow2(0 - f) * Pow2(8 + f)
  {
    var p, q := Pow2(0 - f), Pow2(8 + f);
    assert p * q == 256 && p <= 16 by {
      Powers();
      assert f == -1 || f == -2 || f == -3 || f == -4;
    }
    HighBits(c, p, q);
  }

  lemma HighBits(c: nat, p: nat, q: nat)
    requires 0 < p <= 16 && p * q == 256
    ensures c * q % 256 == c % p * q
  {
    var d, r := c / p, c % p;
    assert c == d * p + r;
    assert c * q == d * 256 + r * q by {
      assert d * p * q == d * 256;
    }
    assert r * q < 256 by {
      AtLeastOnce(q, r, p);
    }
    DivisionUnique(c * q, 256, d, r * q);
  }

  lemma EarlierOctets(ds: seq<digit>, c: digit, o: nat)
    requires |ds| < 8 && o < GetOctet(|ds|)
    ensures Octet(ds + [c], o) == Octet(ds, o)
  {
    hide Octet;
    OctetMixes(ds, o);
    OctetMixes(ds + [c], o);
  }

  /** Where the last touched octet of a sequence of `k` digits lies. */
  function LastOctet(k: nat): (o: nat)
    requires k <= 8
  {
    if k == 8 then 4 else GetOctet(k)
  }

  /** `decode_sequence`; `ds` are the digits it meets. */
  method DecodeSequence(coded: seq<byte>, i: nat, plain: array<byte>, j: nat, ghost ds: seq<digit>) returns (n: nat)
    requires |ds| <= 8 && i + |ds| <= |coded| && forall k | 0 <= k < |ds| :: DecodeChar(coded[i + k]) == ds[k]
    requires |ds| < 8 ==> i + |ds| < |coded| && DecodeChar(coded[i + |ds|]) == -1
    requires j + LastOctet(|ds|) < plain.Length
    modifies plain
    ensures n == 5 * |ds| / 8
    ensures forall o | 0 <= o < n :: plain[j + o] == Octet(ds, o)
    ensures forall k | 0 <= k < plain.Length && !(j <= k <= j + LastOctet(|ds|)) :: plain[k] == old(plain[k])
  {
    hide Octet;
    hide ShiftLeft;
    plain[j] := 0;
    NoDigits(ds);
    for block := 0 to 8
      invariant block <= |ds|
      invariant forall o | 0 <= o <= LastOctet(block) :: plain[j + o] == Octet(ds[..block], o)
      invariant forall k | 0 <= k < plain.Length && !(j <= k <= j + LastOctet(|ds|)) :: plain[k] == old(plain[k])
    {
      var offset := GetOffset(block);
      var octet := GetOctet(block);
      var c := DecodeChar(coded[i + block]);
      assert block < |ds| ==> c == ds[block];
      if c < 0 {
        assert ds[..block] == ds;
        return octet;
      }
      StepDigit(ds, block);
      assert plain[j + octet] == Octet(ds[..block], octet);
      plain[j + octet] := Or(plain[j + octet], ShiftLeft(c, offset));
      if offset < 0 {
        assert octet < 4;
        plain[j + octet + 1] := ShiftLeft(c, 8 + offset);
      }
      ghost var part := ds[..block + 1];
      forall o | 0 <= o <= LastOctet(block + 1)
        ensures plain[j + o] == Octet(part, o)
      {
        assert o < octet ==> plain[j + o] == Octet(ds[..block], o) == Octet(part, o);
      }
    }
    assert ds[..8] == ds;
    return 5;
  }

  lemma NoDigits(ds: seq<digit>)
    ensures Octet(ds[..0], 0) == 0
  {
  }

  /** What one turn of the loop of `decode_sequence` does. */
  lemma StepDigit(ds: seq<digit>, k: nat)
    requires k < |ds| <= 8
    ensures var o, f := GetOctet(k), GetOffset(k);
            && Or(Octet(ds[..k], o), ShiftLeft(ds[k], f)) == Octet(ds[..k + 1], o)
            && (f < 0 ==> ShiftLeft(ds[k], 8 + f) == Octet(ds[..k + 1], o + 1))
            && (forall o' | 0 <= o' < o :: Octet(ds[..k + 1], o') == Octet(ds[..k], o'))
            && o <= LastOctet(k + 1) <= LastOctet(|ds|) && LastOctet(k + 1) == (if f < 0 then o + 1 else o)
  {
    hide Octet;
    hide ShiftLeft;
    var o, f := GetOctet(k), GetOffset(k);
    assert ds[..k + 1] == ds[..k] + [ds[k]];
    NextDigit(ds[..k], ds[k]);
    OrDisjoint(Octet(ds[..k], o), ShiftLeft(ds[k], f), 5 + f);
    forall o' | 0 <= o' < o
      ensures Octet(ds[..k + 1], o') == Octet(ds[..k], o')
    {
      EarlierOctets(ds[..k], ds[k], o');
    }
  }

  /** `base32_decode`, on a text ended by a character outside the alphabet. */
  method Decode(coded: seq<byte>, plain: array<byte>) returns (written: nat)
    requires |Digits(coded)| < |coded|
    requires 5 * |Digits(coded)| / 8 < plain.Length
    modifies plain
    ensures written == 5 * |Digits(coded)| / 8 && plain[..written] == Octets(Digits(coded))
    ensures plain[written + 1..] == old(plain[written + 1..])
  {
    hide Octet;
    hide Digits;
    ghost var all := Digits(coded);
    written := 0;
    var i, j := 0, 0;
    while true
      invariant i % 8 == 0 && i <= |all| && j == i / 8 * 5 == written
      invariant forall k | 0 <= k < j :: plain[k] == Octet(all, k)
      invariant forall k | 5 * |all| / 8 < k < plain.Length :: plain[k] == old(plain[k])
      decreases |all| - i
    {
      ghost var ds := if |all| - i < 8 then all[i..] else all[i..i + 8];
      var n := DecodeSequence(coded, i, plain, j, ds);
      written := written + n;
      SequenceOfText(all, i, ds);
      forall k | j <= k < j + n
        ensures plain[k] == Octet(all, k)
      {
        assert plain[j + (k - j)] == Octet(ds, k - j);
        assert Octet(all, i / 8 * 5 + (k - j)) == Octet(ds, k - j);
      }
      if n < 5 {
        return;
      }
      i, j := i + 8, j + 5;
    }
  }

  lemma DigitBitShift(all: seq<digit>, i: nat, ds: seq<digit>, p: nat)
    requires i <= |all| && p < 40 && ds == if |all| - i < 8 then all[i..] else all[i..i + 8]
    ensures DigitBit(all, 5 * i + p) == DigitBit(ds, p)
  {
    assert (5 * i + p) / 5 == i + p / 5 && (5 * i + p) % 5 == p % 5;
  }

  lemma SequenceOfText(all: seq<digit>, i: nat, ds: seq<digit>)
    requires i % 8 == 0 && i <= |all| && ds == if |all| - i < 8 then all[i..] else all[i..i + 8]
    ensures forall o | 0 <= o < 5 :: Octet(all, i / 8 * 5 + o) == Octet(ds, o)
  {
    hide DigitBit;
    forall o | 0 <= o < 5
      ensures Octet(all, i / 8 * 5 + o) == Octet(ds, o)
    {
      assert 8 * (i / 8 * 5 + o) == 5 * i + 8 * o;
      DigitBitShift(all, i, ds, 8 * o);
      DigitBitShift(all, i, ds, 8 * o + 1);
      DigitBitShift(all, i, ds, 8 * o + 2);
      DigitBitShift(all, i, ds, 8 * o + 3);
      DigitBitShift(all, i, ds, 8 * o + 4);
      DigitBitShift(all, i, ds, 8 * o + 5);
      DigitBitShift(all, i, ds, 8 * o + 6);
      DigitBitShift(all, i, ds, 8 * o + 7);
    }
  }

  // ----- The text as a number

  /** Eight digits in base 32, and five in base 256. */
  function InBase32(a: int, b: int, c: int, d: int, e: int, f: int, g: int, h: int): (n: int) {
    ((((((a * 32 + b) * 32 + c) * 32 + d) * 32 + e) * 32 + f) * 32 + g) * 32 + h
  }

  function InBase256(a: int, b: int, c: int, d: int, e: int): (n: int) {
    (((a * 256 + b) * 256 + c) * 256 + d) * 256 + e
  }

  /** An octet as the sum of its bits. */
  lemma OctetIsItsBits(t: seq<byte>, o: nat)
    ensures At(t, o) ==
            128 * Bit(t, 8 * o) + 64 * Bit(t, 8 * o + 1) + 32 * Bit(t, 8 * o + 2) + 16 * Bit(t, 8 * o + 3)
            + 8 * Bit(t, 8 * o + 4) + 4 * Bit(t, 8 * o + 5) + 2 * Bit(t, 8 * o + 6) + Bit(t, 8 * o + 7)
  {
    hide Bit;
    hide At;
    OctetBits(t, o);
  }

  lemma HighHalf(t: seq<byte>)
    ensures ((Group(t, 0) * 32 + Group(t, 1)) * 32 + Group(t, 2)) * 32 + Group(t, 3) ==
            (At(t, 0) * 256 + At(t, 1)) * 16 + 8 * Bit(t, 16) + 4 * Bit(t, 17) + 2 * Bit(t, 18) + Bit(t, 19)
  {
    hide Bit;
    hide At;
    OctetIsItsBits(t, 0);
    OctetIsItsBits(t, 1);
  }

  lemma LowHalf(t: seq<byte>)
    ensures ((Group(t, 4) * 32 + Group(t, 5)) * 32 + Group(t, 6)) * 32 + Group(t, 7) ==
            ((8 * Bit(t, 20) + 4 * Bit(t, 21) + 2 * Bit(t, 22) + Bit(t, 23)) * 256 + At(t, 3)) * 256 + At(t, 4)
  {
    hide Bit;
    hide At;
    OctetIsItsBits(t, 3);
    OctetIsItsBits(t, 4);
  }

  lemma FirstBlockIsNumber(t: seq<byte>)
    ensures InBase32(Group(t, 0), Group(t, 1), Group(t, 2), Group(t, 3), Group(t, 4), Group(t, 5), Group(t, 6), Group(t, 7)) ==
            InBase256(At(t, 0), At(t, 1), At(t, 2), At(t, 3), At(t, 4))
  {
    hide Bit;
    hide At;
    hide Group;
    HighHalf(t);
    LowHalf(t);
    OctetIsItsBits(t, 2);
  }

  /** Every eight groups are the digits of the number that five octets are, with zeros for
      missing ones. */
  lemma BlockIsNumber(s: seq<byte>, i: nat)
    requires i % 5 == 0 && i < |s|
    ensures var j := i / 5 * 8;
            InBase32(Group(s, j), Group(s, j + 1), Group(s, j + 2), Group(s, j + 3),
                     Group(s, j + 4), Group(s, j + 5), Group(s, j + 6), Group(s, j + 7)) ==
            InBase256(At(s, i), At(s, i + 1), At(s, i + 2), At(s, i + 3), At(s, i + 4))
  {
    hide Group;
    hide InBase32;
    hide InBase256;
    var n := if |s| - i < 5 then |s| - i else 5;
    var t := s[i..i + n];
    GroupShift(s, i, n, 0);
    GroupShift(s, i, n, 1);
    GroupShift(s, i, n, 2);
    GroupShift(s, i, n, 3);
    GroupShift(s, i, n, 4);
    GroupShift(s, i, n, 5);
    GroupShift(s, i, n, 6);
    GroupShift(s, i, n, 7);
    assert forall o | 0 <= o < 5 :: At(t, o) == At(s, i + o);
    FirstBlockIsNumber(t);
  }

  /** The text is A to Z for 0 to 25 and 2 to 7 for 26 to 31, and then '='. */
  lemma Letters(s: seq<byte>, k: nat)
    requires k < |Coded(s)|
    ensures |Coded(s)| == (|s| + 4) / 5 * 8
    ensures Coded(s)[k] ==
            if 5 * k >= 8 * |s| then 61 else if Group(s, k) < 26 then 65 + Group(s, k) else 24 + Group(s, k)
  {
    hide Group;
    hide EncodeChar;
    EncodedAs(Group(s, k));
  }

  // ----- Decoding undoes encoding

  /** The digits of a text are determined by what it decodes to and where it stops. */
  lemma DigitsAre(coded: seq<byte>, ds: seq<digit>)
    requires |ds| < |coded| && DecodeChar(coded[|ds|]) == -1
    requires forall k | 0 <= k < |ds| :: DecodeChar(coded[k]) == ds[k]
    ensures Digits(coded) == ds
  {
    var found := Digits(coded);
    if |found| < |ds| {
      assert false;
    } else if |found| > |ds| {
      assert false;
    }
  }

  lemma GroupsAt(x: seq<byte>, k: nat)
    requires k < GroupCount(|x|)
    ensures DigitAt(Groups(x), k) == Group(x, k)
  {
  }

  lemma FiveBits(d: int, a: int, b: int, c: int, e: int, f: int)
    requires 0 <= a < 2 && 0 <= b < 2 && 0 <= c < 2 && 0 <= e < 2 && 0 <= f < 2
    requires d == 16 * a + 8 * b + 4 * c + 2 * e + f
    ensures d / 16 == a && d / 8 == 2 * a + b && d / 4 == 4 * a + 2 * b + c && d / 2 == 8 * a + 4 * b + 2 * c + e
  {
  }

  lemma GroupBit(x: seq<byte>, k: nat, i: nat)
    requires k < GroupCount(|x|) && i < 5
    ensures DigitBit(Groups(x), 5 * k + i) == Bit(x, 5 * k + i)
  {
    hide DigitBit;
    hide Bit;
    hide Groups;
    DigitBits(Groups(x), k);
    GroupsAt(x, k);
    FiveBits(Group(x, k), Bit(x, 5 * k), Bit(x, 5 * k + 1), Bit(x, 5 * k + 2), Bit(x, 5 * k + 3), Bit(x, 5 * k + 4));
    assert i == 0 || i == 1 || i == 2 || i == 3 || i == 4;
  }

  lemma SameBit(x: seq<byte>, i: nat)
    requires i < 8 * |x|
    ensures DigitBit(Groups(x), i) == Bit(x, i)
  {
    hide DigitBit;
    hide Bit;
    GroupBit(x, i / 5, i % 5);
    assert 5 * (i / 5) + i % 5 == i;
  }

  /** The digits of a byte string hold exactly that byte string. */
  lemma OctetsOfGroups(x: seq<byte>)
    ensures Octets(Groups(x)) == x
  {
    forall j | 0 <= j < |x|
      ensures Octet(Groups(x), j) == x[j]
    {
      OctetReturns(x, j);
    }
    assert 5 * GroupCount(|x|) / 8 == |x|;
  }

  lemma OctetReturns(x: seq<byte>, j: nat)
    requires j < |x|
    ensures Octet(Groups(x), j) == x[j]
  {
    hide DigitBit;
    hide Bit;
    hide Groups;
    SameBit(x, 8 * j);
    SameBit(x, 8 * j + 1);
    SameBit(x, 8 * j + 2);
    SameBit(x, 8 * j + 3);
    SameBit(x, 8 * j + 4);
    SameBit(x, 8 * j + 5);
    SameBit(x, 8 * j + 6);
    SameBit(x, 8 * j + 7);
    OctetBits(x, j);
  }

  /** Decoding the text of `x`, ended by its padding or by any character outside the
      alphabet, gives back `x`. */
  lemma RoundTrip(x: seq<byte>, rest: seq<byte>)
    requires |x| % 5 != 0 || (rest != [] && DecodeChar(rest[0]) == -1)
    ensures |Digits(Coded(x) + rest)| < |Coded(x) + rest|
    ensures Octets(Digits(Coded(x) + rest)) == x
  {
    hide Octets;
    hide Group;
    hide EncodeChar;
    var ds := Groups(x);
    var text := Coded(x) + rest;
    forall k | 0 <= k < |ds|
      ensures DecodeChar(text[k]) == ds[k]
    {
      CharRoundTrip(ds[k]);
    }
    assert |ds| <= Base32Len(|x|) && (|x| % 5 != 0 ==> |ds| < Base32Len(|x|));
    DigitsAre(text, ds);
    OctetsOfGroups(x);
  }

  /** Different byte strings have different texts. */
  lemma CodedInjective(x: seq<byte>, y: seq<byte>)
    requires Coded(x) == Coded(y)
    ensures x == y
  {
    hide Coded;
    hide Octets;
    RoundTrip(x, [PADDING_CHAR]);
    RoundTrip(y, [PADDING_CHAR]);
  }

  /** The text holds no NUL. */
  lemma CodedIsText(x: seq<byte>)
    ensures 0 !in Coded(x)
  {
    hide Group;
    hide EncodeChar;
    forall k | 0 <= k < Base32Len(|x|)
      ensures Coded(x)[k] != 0
    {
      EncodedAs(Group(x, k));
    }
  }
}
