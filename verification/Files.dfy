/** The names file.c gives to contents: digests in hexadecimal and content identifiers. */
module Files {
  import opened Bytes
  import Base32
  import Memory
  import Quoting
  import opened Sha256Spec
  import Hasher = Sha256

  /** What SHA-256 is defined for. */
  type Contents = s: seq<byte> | |s| < 0x2000_0000_0000_0000

  /** `SIZE_OF_SHA_256_HASH * 2` */
  const HASH_LENGTH: nat := 64
  /** "011220" */
  const HASH_HEADERS: seq<byte> := [48, 49, 49, 50, 50, 48]
  const ENCODED_HASH_LENGTH: nat := 113
  const LOWER_B: byte := 98

  function HexDigit(v: nat): (c: byte)
    requires v < 16
  {
    if v < 10 then 48 + v else 87 + v
  }

  /** What sprintf writes for "%02x". */
  function HexByte(b: byte): (s: seq<byte>)
    ensures |s| == 2
  {
    [HexDigit(b / 16), HexDigit(b % 16)]
  }

  function Hex(s: seq<byte>): (h: seq<byte>)
    ensures |h| == 2 * |s|
  {
    if s == [] then [] else Hex(s[..|s| - 1]) + HexByte(s[|s| - 1])
  }

  /** Two digits for each byte, the high one first: reading them gives the byte, and they are
      '0' to '9' and 'a' to 'f'. */
  lemma {:induction false} HexReads(s: seq<byte>, i: nat)
    requires i < |s|
    ensures var h := Hex(s);
            && Quoting.HexValue(h[2 * i]) * 16 + Quoting.HexValue(h[2 * i + 1]) == s[i]
            && (48 <= h[2 * i] <= 57 || 97 <= h[2 * i] <= 102)
            && (48 <= h[2 * i + 1] <= 57 || 97 <= h[2 * i + 1] <= 102)
  {
    var n := |s| - 1;
    if i < n {
      HexReads(s[..n], i);
      assert Hex(s)[2 * i] == Hex(s[..n])[2 * i] && Hex(s)[2 * i + 1] == Hex(s[..n])[2 * i + 1];
    } else {
      assert Hex(s)[2 * n] == HexByte(s[n])[0] && Hex(s)[2 * n + 1] == HexByte(s[n])[1];
    }
  }

  lemma HexInjective(s: seq<byte>, t: seq<byte>)
    requires Hex(s) == Hex(t)
    ensures s == t
  {
    hide Hex;
    assert |Hex(s)| == |Hex(t)|;
    forall i | 0 <= i < |s|
      ensures s[i] == t[i]
    {
      HexReads(s, i);
      HexReads(t, i);
    }
  }

  lemma HexIsText(s: seq<byte>)
    ensures 0 !in Hex(s)
  {
    hide Hex;
    forall k | 0 <= k < |Hex(s)|
      ensures Hex(s)[k] != 0
    {
      HexReads(s, k / 2);
      assert k == 2 * (k / 2) || k == 2 * (k / 2) + 1;
    }
  }

  /** `hash_to_string` */
  method HashToString(hash: array<byte>, output: array<byte>)
    requires hash.Length == HASH && output.Length > HASH_LENGTH && hash != output
    modifies output
    ensures output[..HASH_LENGTH] == Hex(hash[..]) && output[HASH_LENGTH] == 0
  {
    var pos := 0;
    for i := 0 to HASH
      invariant pos == 2 * i && output[..pos] == Hex(hash[..i])
      invariant i > 0 ==> output[pos] == 0
    {
      ghost var before := Hex(hash[..i]);
      var end := Memory.Copy(output, pos, HexByte(hash[i]) + [0]);
      assert output[..end] == before + (HexByte(hash[i]) + [0]);
      pos := pos + 2;
      assert output[..pos] == output[..end][..pos] == before + HexByte(hash[i]);
      assert output[..end][pos] == 0;
      assert hash[..i + 1][..i] == hash[..i];
    }
    assert hash[..HASH] == hash[..];
  }

  /** The name of a block: the digest of its content in hexadecimal. */
  ghost function BlockName(content: seq<byte>): (name: seq<byte>)
    ensures |name| == HASH_LENGTH
  {
    Hex(Sha256(content))
  }

  /** The content identifier: "b" and the base 32 text of the header and the digest. */
  ghost function Cid(content: seq<byte>): (cid: seq<byte>) {
    [LOWER_B] + Base32.Coded(HASH_HEADERS + BlockName(content))
  }

  /** `generate_block_name` */
  method GenerateBlockName(content: Contents) returns (name: seq<byte>)
    ensures name == BlockName(content)
  {
    hide Sha256;
    hide Hex;
    var hash := new byte[HASH];
    Hasher.CalcSha256(hash, content);
    var blockName := new byte[HASH_LENGTH + 1];
    HashToString(hash, blockName);
    name := blockName[..HASH_LENGTH];
  }

  /** `generate_cid_from_file_content` */
  method GenerateCid(input: Contents) returns (cid: seq<byte>)
    ensures cid == Cid(input)
  {
    hide Sha256;
    hide Hex;
    hide Base32.Coded;
    var hash := new byte[HASH];
    Hasher.CalcSha256(hash, input);
    var hashString := new byte[HASH_LENGTH + 1];
    HashToString(hash, hashString);
    var plainHash := HASH_HEADERS + hashString[..HASH_LENGTH];
    var encoded := new byte[ENCODED_HASH_LENGTH];
    Base32.Encode(plainHash, encoded);
    encoded[112] := 0;
    assert encoded[..112] == Base32.Coded(plainHash);
    cid := [LOWER_B] + encoded[..112];
  }

  /** Two contents share a name, or an identifier, exactly if they share a digest. */
  lemma NamesAreDigests(x: seq<byte>, y: seq<byte>)
    ensures BlockName(x) == BlockName(y) <==> Sha256(x) == Sha256(y)
    ensures Cid(x) == Cid(y) <==> Sha256(x) == Sha256(y)
  {
    hide Sha256;
    hide Hex;
    hide Base32.Coded;
    if BlockName(x) == BlockName(y) {
      HexInjective(Sha256(x), Sha256(y));
    }
    if Cid(x) == Cid(y) {
      assert Cid(x)[1..] == Base32.Coded(HASH_HEADERS + BlockName(x));
      assert Cid(y)[1..] == Base32.Coded(HASH_HEADERS + BlockName(y));
      Base32.CodedInjective(HASH_HEADERS + BlockName(x), HASH_HEADERS + BlockName(y));
      assert (HASH_HEADERS + BlockName(x))[6..] == BlockName(x);
      assert (HASH_HEADERS + BlockName(y))[6..] == BlockName(y);
    }
  }

  /** Names and identifiers have a fixed length and can be kept as C strings. */
  lemma NamesAreText(x: seq<byte>)
    ensures |Cid(x)| == ENCODED_HASH_LENGTH
    ensures 0 !in BlockName(x) && 0 !in Cid(x)
  {
    hide Sha256;
    hide Hex;
    hide Base32.Coded;
    HexIsText(Sha256(x));
    Base32.CodedIsText(HASH_HEADERS + BlockName(x));
  }

  /** An identifier read as a C string: behind the 'b', base 32 decodes to "011220" and the name,
      and the name is the digest, two digits for each byte. */
  lemma CidReads(x: seq<byte>, i: nat)
    requires i < 32
    ensures |Cid(x)| == 113 && Cid(x)[0] == 98
    ensures Base32.Octets(Base32.Digits(Cid(x)[1..] + [0])) == [48, 49, 49, 50, 50, 48] + BlockName(x)
    ensures var name := BlockName(x);
            Quoting.HexValue(name[2 * i]) * 16 + Quoting.HexValue(name[2 * i + 1]) == Sha256(x)[i]
  {
    hide Sha256;
    hide Hex;
    hide Base32.Coded;
    hide Base32.Octets;
    hide Base32.Digits;
    NamesAreText(x);
    var plain := HASH_HEADERS + BlockName(x);
    assert Cid(x)[1..] == Base32.Coded(plain);
    Base32.RoundTrip(plain, [0]);
    HexReads(Sha256(x), i);
  }
}
