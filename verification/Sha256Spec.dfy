/** The SHA-256 function as FIPS 180-4 defines it, over byte strings. */
module Sha256Spec {
  import opened Bytes
  import Memory

  type word = bv32

  const CHUNK: nat := 64
  const HASH: nat := 32

  // ----- Functions and constants (sections 3.2, 4.1.2, 4.2.2 and 5.3.3)

  /** Addition modulo 2^32. */
  function Plus(x: word, y: word): word {
    x + y
  }

  function Ch(x: word, y: word, z: word): word {
    (x & y) ^ (!x & z)
  }

  function Maj(x: word, y: word, z: word): word {
    (x & y) ^ (x & z) ^ (y & z)
  }

  function Xor3(x: word, y: word, z: word): word {
    x ^ y ^ z
  }

  function BigSigma0(x: word): word {
    Xor3(x.RotateRight(2), x.RotateRight(13), x.RotateRight(22))
  }

  function BigSigma1(x: word): word {
    Xor3(x.RotateRight(6), x.RotateRight(11), x.RotateRight(25))
  }

  function SmallSigma0(x: word): word {
    Xor3(x.RotateRight(7), x.RotateRight(18), x >> 3)
  }

  function SmallSigma1(x: word): word {
    Xor3(x.RotateRight(17), x.RotateRight(19), x >> 10)
  }

  /** The 64 round constants. */
  function K(): (k: seq<word>)
    ensures |k| == 64
  {
    K0() + K1() + K2() + K3()
  }

  function K0(): (k: seq<word>)
    ensures |k| == 16
  {
    [ 0x428a2f98, 0x71374491, 0xb5c0fbcf, 0xe9b5dba5,
      0x3956c25b, 0x59f111f1, 0x923f82a4, 0xab1c5ed5,
      0xd807aa98, 0x12835b01, 0x243185be, 0x550c7dc3,
      0x72be5d74, 0x80deb1fe, 0x9bdc06a7, 0xc19bf174 ]
  }

  function K1(): (k: seq<word>)
    ensures |k| == 16
  {
    [ 0xe49b69c1, 0xefbe4786, 0x0fc19dc6, 0x240ca1cc,
      0x2de92c6f, 0x4a7484aa, 0x5cb0a9dc, 0x76f988da,
      0x983e5152, 0xa831c66d, 0xb00327c8, 0xbf597fc7,
      0xc6e00bf3, 0xd5a79147, 0x06ca6351, 0x14292967 ]
  }

  function K2(): (k: seq<word>)
    ensures |k| == 16
  {
    [ 0x27b70a85, 0x2e1b2138, 0x4d2c6dfc, 0x53380d13,
      0x650a7354, 0x766a0abb, 0x81c2c92e, 0x92722c85,
      0xa2bfe8a1, 0xa81a664b, 0xc24b8b70, 0xc76c51a3,
      0xd192e819, 0xd6990624, 0xf40e3585, 0x106aa070 ]
  }

  function K3(): (k: seq<word>)
    ensures |k| == 16
  {
    [ 0x19a4c116, 0x1e376c08, 0x2748774c, 0x34b0bcb5,
      0x391c0cb3, 0x4ed8aa4a, 0x5b9cca4f, 0x682e6ff3,
      0x748f82ee, 0x78a5636f, 0x84c87814, 0x8cc70208,
      0x90befffa, 0xa4506ceb, 0xbef9a3f7, 0xc67178f2 ]
  }

  /** The eight words of a hash value, or the working variables a to h. */
  datatype Vars = Vars(a: word, b: word, c: word, d: word, e: word, f: word, g: word, h: word)

  const H0: Vars := Vars(0x6a09e667, 0xbb67ae85, 0x3c6ef372, 0xa54ff53a, 0x510e527f, 0x9b05688c, 0x1f83d9ab, 0x5be0cd19)

  // ----- Preprocessing (sections 5.1.1 and 5.2.1)

  /** The `k` low-order base-256 digits of `n`, most significant first. */
  function BigEndian(n: nat, k: nat): (s: seq<byte>)
    ensures |s| == k
  {
    if k == 0 then [] else BigEndian(n / 256, k - 1) + [n % 256]
  }

  /** The number of zero bytes that make one more byte and 8 length bytes end a
      chunk. */
  function PadZeros(len: nat): (z: nat)
    ensures z < CHUNK && (len + 1 + z + 8) % CHUNK == 0
  {
    (119 - len % CHUNK) % CHUNK
  }

  function Pad(m: seq<byte>): (p: seq<byte>)
    ensures |p| % CHUNK == 0
  {
    m + [0x80] + Memory.Zeros(PadZeros(|m|)) + BigEndian(8 * |m|, 8)
  }

  // ----- Hash computation (section 6.2.2)

  /** The big-endian word of four bytes. */
  function WordOf(b0: byte, b1: byte, b2: byte, b3: byte): word {
    ((b0 as bv32) << 24) | ((b1 as bv32) << 16) | ((b2 as bv32) << 8) | (b3 as bv32)
  }

  /** Word `t` of the message schedule of a chunk. */
  ghost function W(chunk: seq<byte>, t: nat): word
    requires |chunk| == CHUNK && t < 64
  {
    if t < 16 then WordOf(chunk[4 * t], chunk[4 * t + 1], chunk[4 * t + 2], chunk[4 * t + 3])
    else
      Plus(Plus(Plus(SmallSigma1(W(chunk, t - 2)), W(chunk, t - 7)), SmallSigma0(W(chunk, t - 15))), W(chunk, t - 16))
  }

  function Round(v: Vars, k: word, w: word): Vars {
    var t1 := Plus(Plus(Plus(Plus(v.h, BigSigma1(v.e)), Ch(v.e, v.f, v.g)), k), w);
    var t2 := Plus(BigSigma0(v.a), Maj(v.a, v.b, v.c));
    Vars(Plus(t1, t2), v.a, v.b, v.c, Plus(v.d, t1), v.e, v.f, v.g)
  }

  /** The working variables after the first `t` rounds. */
  ghost function Rounds(v: Vars, chunk: seq<byte>, t: nat): Vars
    requires |chunk| == CHUNK && t <= 64
  {
    if t == 0 then v else Round(Rounds(v, chunk, t - 1), K()[t - 1], W(chunk, t - 1))
  }

  function Add(u: Vars, v: Vars): Vars {
    Vars(Plus(u.a, v.a), Plus(u.b, v.b), Plus(u.c, v.c), Plus(u.d, v.d),
         Plus(u.e, v.e), Plus(u.f, v.f), Plus(u.g, v.g), Plus(u.h, v.h))
  }

  ghost function Compress(v: Vars, chunk: seq<byte>): Vars
    requires |chunk| == CHUNK
  {
    Add(v, Rounds(v, chunk, 64))
  }

  /** The hash value after all chunks of `data`. */
  ghost function Chunks(v: Vars, data: seq<byte>): Vars
    requires |data| % CHUNK == 0
  {
    if data == [] then v
    else Compress(Chunks(v, data[..|data| - CHUNK]), data[|data| - CHUNK..])
  }

  /** The big-endian bytes of a word. */
  function WordBytes(w: word): (s: seq<byte>)
    ensures |s| == 4
  {
    [(w >> 24) as bv8 as int, ((w >> 16) & 0xff) as bv8 as int, ((w >> 8) & 0xff) as bv8 as int, (w & 0xff) as bv8 as int]
  }

  function VarsBytes(v: Vars): (s: seq<byte>)
    ensures |s| == HASH
  {
    WordBytes(v.a) + WordBytes(v.b) + WordBytes(v.c) + WordBytes(v.d) +
    WordBytes(v.e) + WordBytes(v.f) + WordBytes(v.g) + WordBytes(v.h)
  }

  /** The SHA-256 digest of a byte string. */
  ghost function Sha256(m: seq<byte>): (digest: seq<byte>)
    ensures |digest| == HASH
  {
    VarsBytes(Chunks(H0, Pad(m)))
  }
}
