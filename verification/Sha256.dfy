/** The streaming SHA-256 of sha-256.c: a 64-byte block buffer with a fast path
    around it, padding that may spill into an extra block, and a rolling window of
    16 schedule words. */
module Sha256 {
  import opened Bytes
  import opened Sha256Spec
  import Memory

  const TOTAL_LEN_LEN: nat := 8

  ghost function AsVars(s: seq<word>): Vars
    requires |s| == 8
  {
    Vars(s[0], s[1], s[2], s[3], s[4], s[5], s[6], s[7])
  }

  // ----- The compression of one chunk

  /** In round `t` = 16i + j, slot m of the window holds the latest schedule word
      whose index is m modulo 16. */
  ghost predicate Window(w: seq<word>, chunk: seq<byte>, i: nat, j: nat)
    requires |w| == 16 && |chunk| == CHUNK && i < 4 && j <= 16
  {
    && (forall m | 0 <= m < j :: w[m] == W(chunk, 16 * i + m))
    && (i > 0 ==> forall m | j <= m < 16 :: w[m] == W(chunk, 16 * (i - 1) + m))
  }

  function Sum(a: word, b: word, c: word, d: word): word {
    Plus(Plus(Plus(a, b), c), d)
  }

  /** Sums of words may be taken in any order. */
  lemma Reorder(a: word, b: word, c: word, d: word)
    ensures Sum(a, b, c, d) == Sum(d, c, b, a)
  {
    SumIs(a, b, c, d);
    SumIs(d, c, b, a);
  }

  lemma SumIs(a: word, b: word, c: word, d: word)
    ensures Sum(a, b, c, d) == a + b + c + d
  {
    assert Plus(a, b) == a + b && Plus(a + b, c) == a + b + c && Plus(a + b + c, d) == a + b + c + d;
  }

  /** The recurrence of the message schedule, summed in the order of the code. */
  lemma ScheduleStep(chunk: seq<byte>, t: nat)
    requires |chunk| == CHUNK && 16 <= t < 64
    ensures W(chunk, t) ==
            Sum(W(chunk, t - 16), SmallSigma0(W(chunk, t - 15)), W(chunk, t - 7), SmallSigma1(W(chunk, t - 2)))
  {
    hide SmallSigma0;
    hide SmallSigma1;
    hide WordOf;
    hide Plus;
    Reorder(SmallSigma1(W(chunk, t - 2)), W(chunk, t - 7), SmallSigma0(W(chunk, t - 15)), W(chunk, t - 16));
  }

  /** Where the window holds the words that the recurrence needs. */
  lemma WindowHolds(w: seq<word>, chunk: seq<byte>, i: nat, j: nat, back: nat)
    requires |w| == 16 && |chunk| == CHUNK && 0 < i < 4 && j < 16 && 0 < back <= 16 && Window(w, chunk, i, j)
    ensures 16 * i + j - back >= 0
    ensures w[(j + 16 - back) % 16] == W(chunk, 16 * i + j - back)
  {
    hide W;
    if j >= back {
      assert (j + 16 - back) % 16 == j - back;
    } else if back == 16 {
      assert (j + 16 - back) % 16 == j;
    }
  }

  lemma WindowStep(w: seq<word>, chunk: seq<byte>, i: nat, j: nat)
    requires |w| == 16 && |chunk| == CHUNK && 0 < i < 4 && j < 16 && Window(w, chunk, i, j)
    ensures W(chunk, 16 * i + j) ==
            Sum(w[j], SmallSigma0(w[(j + 1) % 16]), w[(j + 9) % 16], SmallSigma1(w[(j + 14) % 16]))
  {
    hide W;
    hide Sum;
    hide Window;
    hide SmallSigma0;
    hide SmallSigma1;
    ScheduleStep(chunk, 16 * i + j);
    WindowHolds(w, chunk, i, j, 16);
    WindowHolds(w, chunk, i, j, 15);
    WindowHolds(w, chunk, i, j, 7);
    WindowHolds(w, chunk, i, j, 2);
  }

  /** `right_rot` */
  function RightRot(value: word, count: nat): word
    requires 0 < count < 32
  {
    (value >> count) | (value << (32 - count))
  }

  lemma RotationsOfRounds(x: word)
    ensures RightRot(x, 2) == x.RotateRight(2) && RightRot(x, 13) == x.RotateRight(13)
    ensures RightRot(x, 22) == x.RotateRight(22) && RightRot(x, 6) == x.RotateRight(6)
    ensures RightRot(x, 11) == x.RotateRight(11) && RightRot(x, 25) == x.RotateRight(25)
  {
  }

  lemma RotationsOfSchedule(x: word)
    ensures RightRot(x, 7) == x.RotateRight(7) && RightRot(x, 18) == x.RotateRight(18)
    ensures RightRot(x, 17) == x.RotateRight(17) && RightRot(x, 19) == x.RotateRight(19)
  {
  }

  // `s0` and `s1` of the schedule and of the rounds

  function ScheduleS0(x: word): (r: word)
    ensures r == SmallSigma0(x)
  {
    RotationsOfSchedule(x);
    Xor3(RightRot(x, 7), RightRot(x, 18), x >> 3)
  }

  function ScheduleS1(x: word): (r: word)
    ensures r == SmallSigma1(x)
  {
    RotationsOfSchedule(x);
    Xor3(RightRot(x, 17), RightRot(x, 19), x >> 10)
  }

  function RoundS0(x: word): (r: word)
    ensures r == BigSigma0(x)
  {
    RotationsOfRounds(x);
    Xor3(RightRot(x, 2), RightRot(x, 13), RightRot(x, 22))
  }

  function RoundS1(x: word): (r: word)
    ensures r == BigSigma1(x)
  {
    RotationsOfRounds(x);
    Xor3(RightRot(x, 6), RightRot(x, 11), RightRot(x, 25))
  }

  /** Four bytes shifted into place and joined. */
  method LoadWord(b0: byte, b1: byte, b2: byte, b3: byte) returns (w: word)
    ensures w == WordOf(b0, b1, b2, b3)
  {
    w := ((b0 as bv32) << 24) | ((b1 as bv32) << 16) | ((b2 as bv32) << 8) | (b3 as bv32);
  }

  /** Word j of the window in pass i: from the chunk, or by the recurrence. */
  method NextWord(w: array<word>, p: seq<byte>, i: nat, j: nat)
    requires w.Length == 16 && |p| == CHUNK && i < 4 && j < 16 && Window(w[..], p, i, j)
    modifies w
    ensures Window(w[..], p, i, j + 1) && w[j] == W(p, 16 * i + j)
  {
    hide W;
    hide WordOf;
    hide Plus;
    hide SmallSigma0;
    hide SmallSigma1;
    hide ScheduleS0;
    hide ScheduleS1;
    ghost var before := w[..];
    if i == 0 {
      FirstWord(p, j);
      w[j] := LoadWord(p[4 * j], p[4 * j + 1], p[4 * j + 2], p[4 * j + 3]);
    } else {
      WindowStep(w[..], p, i, j);
      var s0 := ScheduleS0(w[(j + 1) % 16]);
      var s1 := ScheduleS1(w[(j + 14) % 16]);
      w[j] := Plus(Plus(Plus(w[j], s0), w[(j + 9) % 16]), s1);
    }
    assert w[..] == before[j := w[j]];
  }

  /** One round on the working variables. */
  method DoRound(ah: array<word>, k: word, w: word)
    requires ah.Length == 8
    modifies ah
    ensures AsVars(ah[..]) == Round(old(AsVars(ah[..])), k, w)
  {
    hide Ch;
    hide Maj;
    hide BigSigma0;
    hide BigSigma1;
    hide RoundS0;
    hide RoundS1;
    hide Plus;
    var s1 := RoundS1(ah[4]);
    var ch := Ch(ah[4], ah[5], ah[6]);
    var temp1 := Plus(Plus(Plus(Plus(ah[7], s1), ch), k), w);
    var s0 := RoundS0(ah[0]);
    var maj := Maj(ah[0], ah[1], ah[2]);
    var temp2 := Plus(s0, maj);
    ah[7] := ah[6];
    ah[6] := ah[5];
    ah[5] := ah[4];
    ah[4] := Plus(ah[3], temp1);
    ah[3] := ah[2];
    ah[2] := ah[1];
    ah[1] := ah[0];
    ah[0] := Plus(temp1, temp2);
  }

  /** The working variables start as the hash value. */
  method CopyVars(h: array<word>) returns (ah: array<word>)
    requires h.Length == 8
    ensures fresh(ah) && ah[..] == h[..]
  {
    ah := new word[8];
    for i := 0 to 8
      invariant forall m | 0 <= m < i :: ah[m] == h[m]
    {
      ah[i] := h[i];
    }
  }

  /** The loop that adds the working variables to the hash value. */
  method AddVars(h: array<word>, ah: array<word>)
    requires h.Length == 8 && ah.Length == 8 && h != ah
    modifies h
    ensures AsVars(h[..]) == Add(old(AsVars(h[..])), old(AsVars(ah[..])))
  {
    hide Plus;
    for i := 0 to 8
      invariant forall m | 0 <= m < i :: h[m] == Plus(old(h[m]), ah[m])
      invariant forall m | i <= m < 8 :: h[m] == old(h[m])
    {
      h[i] := Plus(h[i], ah[i]);
    }
  }

  /** `consume_chunk`. */
  method ConsumeChunk(h: array<word>, p: seq<byte>)
    requires h.Length == 8 && |p| == CHUNK
    modifies h
    ensures AsVars(h[..]) == Compress(old(AsVars(h[..])), p)
  {
    hide W;
    hide Window;
    hide Round;
    hide Add;
    hide K;
    ghost var v := AsVars(h[..]);
    var ah := CopyVars(h);
    assert AsVars(ah[..]) == v;
    var w := new word[16];
    for i := 0 to 4
      invariant h[..] == old(h[..])
      invariant i > 0 ==> Window(w[..], p, i - 1, 16)
      invariant AsVars(ah[..]) == Rounds(v, p, 16 * i)
    {
      WindowNext(w[..], p, i);
      for j := 0 to 16
        invariant h[..] == old(h[..])
        invariant Window(w[..], p, i, j)
        invariant AsVars(ah[..]) == Rounds(v, p, 16 * i + j)
      {
        NextWord(w, p, i, j);
        DoRound(ah, K()[16 * i + j], w[j]);
      }
    }
    AddVars(h, ah);
  }

  lemma FirstWord(p: seq<byte>, j: nat)
    requires |p| == CHUNK && j < 16
    ensures W(p, j) == WordOf(p[4 * j], p[4 * j + 1], p[4 * j + 2], p[4 * j + 3])
  {
  }

  lemma WindowNext(w: seq<word>, p: seq<byte>, i: nat)
    requires |w| == 16 && |p| == CHUNK && i < 4
    requires i > 0 ==> Window(w, p, i - 1, 16)
    ensures Window(w, p, i, 0)
  {
  }

  // ----- Padding

  ghost function Pow256(k: nat): nat {
    if k == 0 then 1 else 256 * Pow256(k - 1)
  }

  ghost function BigEndianValue(s: seq<byte>): nat {
    if s == [] then 0 else BigEndianValue(s[..|s| - 1]) * 256 + s[|s| - 1]
  }

  /** The length field of the padding holds the number of bits. */
  lemma {:induction false} BigEndianHolds(n: nat, k: nat)
    requires n < Pow256(k)
    ensures BigEndianValue(BigEndian(n, k)) == n
  {
    if k > 0 {
      BigEndianHolds(n / 256, k - 1);
      assert BigEndian(n, k)[..k - 1] == BigEndian(n / 256, k - 1);
    }
  }

  /** Padding ends at the first chunk boundary that leaves room for one bit and
      the length. */
  lemma PaddingIsShortest(len: nat, z: nat)
    requires (len + 1 + z + 8) % CHUNK == 0
    ensures PadZeros(len) <= z
  {
  }

  /** The message is recovered from its padding: distinct messages whose length
      fits the length field are padded differently. */
  lemma PadInjective(m: seq<byte>, m': seq<byte>)
    requires 8 * |m| < TWO_64 && 8 * |m'| < TWO_64 && Pad(m) == Pad(m')
    ensures m == m'
  {
    var p := Pad(m);
    assert p[|p| - 8..] == BigEndian(8 * |m|, 8);
    assert Pad(m')[|p| - 8..] == BigEndian(8 * |m'|, 8);
    assert Pow256(4) == TWO_32;
    assert Pow256(8) == TWO_32 * TWO_32;
    BigEndianHolds(8 * |m|, 8);
    BigEndianHolds(8 * |m'|, 8);
    assert p[..|m|] == m && Pad(m')[..|m|] == m';
  }

  lemma ChunksStep(v: Vars, data: seq<byte>, chunk: seq<byte>)
    requires |data| % CHUNK == 0 && |chunk| == CHUNK
    ensures Chunks(v, data + chunk) == Compress(Chunks(v, data), chunk)
  {
    var all := data + chunk;
    assert all[..|all| - CHUNK] == data && all[|all| - CHUNK..] == chunk;
  }

  // ----- The streaming interface

  /** `struct Sha_256`. The pointer into the block buffer is an offset; the ghost
      field is the message written so far. */
  class Sha256Stream {
    const hash: array<byte>
    const chunk: array<byte>
    const h: array<word>
    var chunkPos: nat
    var spaceLeft: nat
    var totalLen: nat
    ghost var message: seq<byte>

    /** The part of the message that is already compressed. */
    ghost function Consumed(): seq<byte>
      requires chunkPos <= |message|
      reads this`message, this`chunkPos
    {
      message[..|message| - chunkPos]
    }

    ghost predicate Valid()
      reads this, chunk, h
    {
      Core() && totalLen == |message| % TWO_64
    }

    ghost predicate Core()
      reads this`message, this`chunkPos, this`spaceLeft, chunk, h
    {
      && hash.Length == HASH && chunk.Length == CHUNK && h.Length == 8 && hash != chunk
      && chunkPos + spaceLeft == CHUNK && spaceLeft > 0
      && chunkPos <= |message| && (|message| - chunkPos) % CHUNK == 0
      && message[|message| - chunkPos..] == chunk[..chunkPos]
      && AsVars(h[..]) == Chunks(H0, Consumed())
    }

    /** `sha_256_init`. */
    constructor (hash: array<byte>)
      requires hash.Length == HASH
      ensures Valid() && message == [] && this.hash == hash && fresh(chunk) && fresh(h)
    {
      this.hash := hash;
      chunk := new byte[CHUNK];
      chunkPos, spaceLeft, totalLen := 0, CHUNK, 0;
      h := new word[8] [0x6a09e667, 0xbb67ae85, 0x3c6ef372, 0xa54ff53a,
                        0x510e527f, 0x9b05688c, 0x1f83d9ab, 0x5be0cd19];
      message := [];
    }

    /** Compresses a whole chunk of input without copying it. */
    method ConsumeDirectly(data: seq<byte>)
      requires Core() && spaceLeft == CHUNK && |data| == CHUNK
      modifies this`message, h
      ensures Core() && message == old(message) + data
    {
      hide Chunks;
      hide Compress;
      assert Consumed() == message;
      ChunksStep(H0, message, data);
      ConsumeChunk(h, data);
      message := message + data;
      assert Consumed() == message;
    }

    /** Copies input into the block buffer, and compresses the buffer if it is full. */
    method Buffer(data: seq<byte>)
      requires Core() && 0 < |data| <= spaceLeft
      modifies this`message, this`chunkPos, this`spaceLeft, chunk, h
      ensures Core() && message == old(message) + data
    {
      hide Chunks;
      hide Compress;
      hide AsVars;
      ghost var consumed := Consumed();
      var end := Memory.Copy(chunk, chunkPos, data);
      spaceLeft := spaceLeft - |data|;
      message := message + data;
      assert message == consumed + chunk[..end];
      if spaceLeft == 0 {
        assert chunk[..] == chunk[..end];
        ChunksStep(H0, consumed, chunk[..]);
        ConsumeChunk(h, chunk[..]);
        chunkPos := 0;
        spaceLeft := CHUNK;
        assert Consumed() == message;
      } else {
        chunkPos := chunkPos + |data|;
        assert Consumed() == consumed;
      }
    }

    /** The loop of `sha_256_write`. */
    method Absorb(data: seq<byte>)
      requires Core()
      modifies this`message, this`chunkPos, this`spaceLeft, chunk, h
      ensures Core() && message == old(message) + data
    {
      hide Chunks;
      hide AsVars;
      var p := 0;
      assert message == message + data[..0];
      while |data| - p > 0
        invariant p <= |data| && Core() && message == old(message) + data[..p]
      {
        var len := |data| - p;
        if spaceLeft == CHUNK && len >= CHUNK {
          NextPiece(old(message), data, p, p + CHUNK);
          ConsumeDirectly(data[p..p + CHUNK]);
          p := p + CHUNK;
        } else {
          var consumedLen := if len < spaceLeft then len else spaceLeft;
          NextPiece(old(message), data, p, p + consumedLen);
          Buffer(data[p..p + consumedLen]);
          p := p + consumedLen;
        }
      }
      assert data[..p] == data;
    }

    /** `sha_256_write`. */
    method Write(data: seq<byte>)
      requires Valid()
      modifies this`message, this`totalLen, this`chunkPos, this`spaceLeft, chunk, h
      ensures Valid() && message == old(message) + data
    {
      hide Sha256Stream.Core;
      totalLen := (totalLen + |data|) % TWO_64;
      Absorb(data);
    }

    /** `sha_256_close`: pads the message and delivers its digest. */
    method Close()
      requires Valid() && |message| < 0x2000_0000_0000_0000
      modifies chunk, h, hash
      ensures hash[..] == Sha256(message)
    {
      hide Chunks;
      hide Compress;
      hide BigEndian;
      hide Pad;
      hide Sha256;
      var pos, left := chunkPos, spaceLeft;
      ghost var consumed, rest := Consumed(), message[|message| - chunkPos..];
      assert consumed + rest == message;
      chunk[pos] := 0x80;
      pos, left := pos + 1, left - 1;
      ghost var tail := rest + [0x80];
      assert chunk[..pos] == tail;
      if left < TOTAL_LEN_LEN {
        PadSpills(consumed, rest);
        Memory.Clear(chunk, pos, left);
        assert chunk[..] == tail + Memory.Zeros(left);
        ChunksStep(H0, consumed, chunk[..]);
        ConsumeChunk(h, chunk[..]);
        consumed := consumed + (tail + Memory.Zeros(left));
        pos, left := 0, CHUNK;
        tail := [];
      } else {
        PadFits(consumed, rest);
      }
      LastChunk(pos, left, consumed, tail);
    }

    /** The chunk that ends with the length. */
    method LastChunk(pos: nat, left: nat, ghost consumed: seq<byte>, ghost tail: seq<byte>)
      requires hash.Length == HASH && chunk.Length == CHUNK && h.Length == 8 && hash != chunk
      requires pos + left == CHUNK && left >= TOTAL_LEN_LEN && chunk[..pos] == tail
      requires |consumed| % CHUNK == 0 && AsVars(h[..]) == Chunks(H0, consumed)
      requires totalLen == |message| < TWO_64
      requires consumed + (tail + Memory.Zeros(left - TOTAL_LEN_LEN) + BigEndian(8 * |message|, 8)) == Pad(message)
      modifies chunk, h, hash
      ensures hash[..] == Sha256(message)
    {
      hide Chunks;
      hide Compress;
      hide BigEndian;
      hide Pad;
      var zeros := left - TOTAL_LEN_LEN;
      Memory.Clear(chunk, pos, zeros);
      assert chunk[..pos + zeros] == tail + Memory.Zeros(zeros);
      StoreLength(chunk, pos + zeros, totalLen);
      assert chunk[..] == chunk[..pos + zeros] + chunk[pos + zeros..];
      ChunksStep(H0, consumed, chunk[..]);
      ConsumeChunk(h, chunk[..]);
      StoreDigest(h, hash);
    }
  }

  lemma PadForm(c: seq<byte>, r: seq<byte>, z: nat)
    requires z == PadZeros(|c| + |r|)
    ensures Pad(c + r) == c + r + [0x80] + Memory.Zeros(z) + BigEndian(8 * (|c| + |r|), 8)
  {
    hide BigEndian;
    hide Memory.Zeros;
    hide PadZeros;
  }

  /** How the padded message ends if its last chunk has room for the length. */
  lemma PadFits(c: seq<byte>, r: seq<byte>)
    requires |c| % CHUNK == 0 && |r| + 1 + TOTAL_LEN_LEN <= CHUNK
    ensures c + (r + [0x80] + Memory.Zeros(CHUNK - |r| - 1 - TOTAL_LEN_LEN) + BigEndian(8 * (|c| + |r|), 8)) == Pad(c + r)
  {
    hide BigEndian;
    hide Memory.Zeros;
    hide PadZeros;
    hide Pad;
    PadZerosAt(|c|, |r|);
    var z := CHUNK - |r| - 1 - TOTAL_LEN_LEN;
    PadForm(c, r, z);
    Regroup(c, r, [0x80], Memory.Zeros(z), BigEndian(8 * (|c| + |r|), 8));
  }

  /** How it ends if an extra chunk is needed. */
  lemma PadSpills(c: seq<byte>, r: seq<byte>)
    requires |c| % CHUNK == 0 && |r| < CHUNK < |r| + 1 + TOTAL_LEN_LEN
    ensures var first := c + (r + [0x80] + Memory.Zeros(CHUNK - |r| - 1));
            first + ([] + Memory.Zeros(CHUNK - TOTAL_LEN_LEN) + BigEndian(8 * (|c| + |r|), 8)) == Pad(c + r)
  {
    hide BigEndian;
    hide Memory.Zeros;
    hide PadZeros;
    hide Pad;
    PadZerosAt(|c|, |r|);
    var z, z', l := CHUNK - |r| - 1, CHUNK - TOTAL_LEN_LEN, BigEndian(8 * (|c| + |r|), 8);
    PadForm(c, r, z + z');
    ZerosSplit(z, z');
    Regroup(c, r, [0x80], Memory.Zeros(z + z'), l);
    Respace(c, r + [0x80], Memory.Zeros(z), Memory.Zeros(z'), l);
  }

  lemma Regroup(c: seq<byte>, r: seq<byte>, o: seq<byte>, z: seq<byte>, l: seq<byte>)
    ensures c + (r + o + z + l) == c + r + o + z + l
  {
  }

  lemma Respace(c: seq<byte>, r: seq<byte>, z: seq<byte>, z': seq<byte>, l: seq<byte>)
    ensures c + (r + z) + ([] + z' + l) == c + (r + (z + z') + l)
  {
  }

  lemma PadZerosAt(c: nat, r: nat)
    requires c % CHUNK == 0 && r < CHUNK
    ensures PadZeros(c + r) ==
            if CHUNK - r - 1 < TOTAL_LEN_LEN then CHUNK - r - 1 + (CHUNK - TOTAL_LEN_LEN) else CHUNK - r - 1 - TOTAL_LEN_LEN
  {
  }

  lemma ZerosSplit(a: nat, b: nat)
    ensures Memory.Zeros(a) + Memory.Zeros(b) == Memory.Zeros(a + b)
  {
  }

  lemma NextPiece(m: seq<byte>, data: seq<byte>, p: nat, q: nat)
    requires p <= q <= |data|
    ensures m + data[..p] + data[p..q] == m + data[..q]
  {
  }

  /** Stores the number of bits of `totalLen` bytes in the last eight bytes, least
      significant byte first. */
  method StoreLength(a: array<byte>, pos: nat, totalLen: nat)
    requires pos + 8 == a.Length && totalLen < TWO_64
    modifies a
    ensures a[..pos] == old(a[..pos])
    ensures a[pos..] == BigEndian(8 * totalLen, 8)
  {
    var len := totalLen;
    a[pos + 7] := (len * 8) % TWO_64 % 256;
    len := len / 32;
    LowBits(totalLen);
    HighBits(totalLen);
    ghost var last := [8 * totalLen % 256];
    assert BigEndian(8 * totalLen, 8) == BigEndian(len, 7) + last;
    assert a[pos + 7..] == last;
    var i := 6;
    while i >= 0
      invariant -1 <= i <= 6 && len >= 0
      invariant a[..pos] == old(a[..pos])
      invariant BigEndian(len, i + 1) + a[pos + i + 1..] == BigEndian(8 * totalLen, 8)
    {
      ghost var done := a[pos + i + 1..];
      a[pos + i] := len % 256;
      assert a[pos + i..] == [len % 256] + done;
      len := len / 256;
      i := i - 1;
    }
  }

  lemma LowBits(n: nat)
    ensures (n * 8) % TWO_64 % 256 == 8 * n % 256
  {
  }

  lemma HighBits(n: nat)
    ensures 8 * n / 256 == n / 32
  {
  }

  /** Stores a word, big-endian. */
  method StoreWord(w: word, hash: array<byte>, j: nat)
    requires j + 4 <= hash.Length
    modifies hash
    ensures hash[..j] == old(hash[..j]) && hash[j..j + 4] == WordBytes(w)
  {
    hash[j] := (w >> 24) as bv8 as int;
    hash[j + 1] := ((w >> 16) & 0xff) as bv8 as int;
    hash[j + 2] := ((w >> 8) & 0xff) as bv8 as int;
    hash[j + 3] := (w & 0xff) as bv8 as int;
  }

  /** Stores the hash value. */
  method StoreDigest(h: array<word>, hash: array<byte>)
    requires h.Length == 8 && hash.Length == HASH
    modifies hash
    ensures hash[..] == VarsBytes(AsVars(h[..]))
  {
    hide WordBytes;
    hide DigestBytes;
    NoWords(h[..]);
    var j := 0;
    for i := 0 to 8
      invariant j == 4 * i
      invariant hash[..j] == DigestBytes(h[..i])
    {
      StoreWord(h[i], hash, j);
      assert hash[..j + 4] == hash[..j] + hash[j..j + 4];
      DigestStep(h[..], i);
      assert h[..][..i + 1] == h[..i + 1] && h[..][..i] == h[..i];
      j := j + 4;
    }
    assert h[..8] == h[..];
    AllBytes(h[..]);
  }

  ghost function DigestBytes(ws: seq<word>): seq<byte> {
    if ws == [] then [] else DigestBytes(ws[..|ws| - 1]) + WordBytes(ws[|ws| - 1])
  }

  lemma DigestStep(ws: seq<word>, i: nat)
    requires i < |ws|
    ensures DigestBytes(ws[..i + 1]) == DigestBytes(ws[..i]) + WordBytes(ws[i])
  {
    assert ws[..i + 1][..i] == ws[..i];
  }

  lemma AllBytes(ws: seq<word>)
    requires |ws| == 8
    ensures DigestBytes(ws) == VarsBytes(AsVars(ws))
  {
    hide WordBytes;
    hide DigestBytes;
    NoWords(ws);
    DigestStep(ws, 0);
    assert DigestBytes(ws[..1]) == WordBytes(ws[0]);
    DigestStep(ws, 1);
    DigestStep(ws, 2);
    DigestStep(ws, 3);
    DigestStep(ws, 4);
    DigestStep(ws, 5);
    DigestStep(ws, 6);
    DigestStep(ws, 7);
  }

  lemma NoWords(ws: seq<word>)
    ensures DigestBytes(ws[..0]) == [] && ws[..|ws|] == ws
  {
  }

  // ----- Any way of writing a message

  function Concat(pieces: seq<seq<byte>>): seq<byte> {
    if pieces == [] then [] else Concat(pieces[..|pieces| - 1]) + pieces[|pieces| - 1]
  }

  /** `calc_sha_256`. */
  method CalcSha256(hash: array<byte>, input: seq<byte>)
    requires hash.Length == HASH && |input| < 0x2000_0000_0000_0000
    modifies hash
    ensures hash[..] == Sha256(input)
  {
    var sha := new Sha256Stream(hash);
    sha.Write(input);
    assert [] + input == input;
    sha.Close();
  }

  /** However a message is split into writes, empty ones included, the digest is
      that of the concatenation. */
  method HashPieces(pieces: seq<seq<byte>>) returns (digest: seq<byte>)
    requires |Concat(pieces)| < 0x2000_0000_0000_0000
    ensures digest == Sha256(Concat(pieces))
  {
    var hash := new byte[HASH];
    var sha := new Sha256Stream(hash);
    for i := 0 to |pieces|
      invariant sha.Valid() && sha.hash == hash && fresh(sha) && fresh(sha.chunk) && fresh(sha.h)
      invariant sha.message == Concat(pieces[..i])
    {
      sha.Write(pieces[i]);
      assert pieces[..i + 1][..i] == pieces[..i];
    }
    assert pieces[..|pieces|] == pieces;
    sha.Close();
    digest := hash[..];
  }
}
