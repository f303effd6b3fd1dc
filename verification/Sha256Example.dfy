/** The constants of SHA-256 as the roots of primes that FIPS 180-4 says they are, and the
    one-block example that goes with it: the message "abc", word by word and round by round. */
module Sha256Example {
  import opened Bytes
  import opened Sha256Spec
  import Memory

  // ----- The constants

  /** `k` is the first 32 bits behind the point of the cube root of `p`, whose integer part is `n`. */
  ghost predicate CubeRoot(p: nat, n: nat, k: word) {
    var r := n * TWO_32 + k as int;
    r * r * r <= p * TWO_32 * TWO_64 < (r + 1) * (r + 1) * (r + 1)
  }

  ghost predicate SquareRoot(p: nat, n: nat, k: word) {
    var r := n * TWO_32 + k as int;
    r * r <= p * TWO_64 < (r + 1) * (r + 1)
  }

  lemma Constants0To15()
    ensures K()[0] == 0x428a2f98 && K()[1] == 0x71374491 && K()[2] == 0xb5c0fbcf && K()[3] == 0xe9b5dba5
    ensures K()[4] == 0x3956c25b && K()[5] == 0x59f111f1 && K()[6] == 0x923f82a4 && K()[7] == 0xab1c5ed5
    ensures K()[8] == 0xd807aa98 && K()[9] == 0x12835b01 && K()[10] == 0x243185be && K()[11] == 0x550c7dc3
    ensures K()[12] == 0x72be5d74 && K()[13] == 0x80deb1fe && K()[14] == 0x9bdc06a7 && K()[15] == 0xc19bf174
  {
  }

  lemma Constants16To31()
    ensures K()[16] == 0xe49b69c1 && K()[17] == 0xefbe4786 && K()[18] == 0x0fc19dc6 && K()[19] == 0x240ca1cc
    ensures K()[20] == 0x2de92c6f && K()[21] == 0x4a7484aa && K()[22] == 0x5cb0a9dc && K()[23] == 0x76f988da
    ensures K()[24] == 0x983e5152 && K()[25] == 0xa831c66d && K()[26] == 0xb00327c8 && K()[27] == 0xbf597fc7
    ensures K()[28] == 0xc6e00bf3 && K()[29] == 0xd5a79147 && K()[30] == 0x06ca6351 && K()[31] == 0x14292967
  {
  }

  lemma Constants32To47()
    ensures K()[32] == 0x27b70a85 && K()[33] == 0x2e1b2138 && K()[34] == 0x4d2c6dfc && K()[35] == 0x53380d13
    ensures K()[36] == 0x650a7354 && K()[37] == 0x766a0abb && K()[38] == 0x81c2c92e && K()[39] == 0x92722c85
    ensures K()[40] == 0xa2bfe8a1 && K()[41] == 0xa81a664b && K()[42] == 0xc24b8b70 && K()[43] == 0xc76c51a3
    ensures K()[44] == 0xd192e819 && K()[45] == 0xd6990624 && K()[46] == 0xf40e3585 && K()[47] == 0x106aa070
  {
  }

  lemma Constants48To63()
    ensures K()[48] == 0x19a4c116 && K()[49] == 0x1e376c08 && K()[50] == 0x2748774c && K()[51] == 0x34b0bcb5
    ensures K()[52] == 0x391c0cb3 && K()[53] == 0x4ed8aa4a && K()[54] == 0x5b9cca4f && K()[55] == 0x682e6ff3
    ensures K()[56] == 0x748f82ee && K()[57] == 0x78a5636f && K()[58] == 0x84c87814 && K()[59] == 0x8cc70208
    ensures K()[60] == 0x90befffa && K()[61] == 0xa4506ceb && K()[62] == 0xbef9a3f7 && K()[63] == 0xc67178f2
  {
  }

  // The constants of the rounds come from the first 64 primes.

  lemma Primes2To19()
    ensures CubeRoot(2, 1, K()[0]) && CubeRoot(3, 1, K()[1]) && CubeRoot(5, 1, K()[2]) && CubeRoot(7, 1, K()[3])
    ensures CubeRoot(11, 2, K()[4]) && CubeRoot(13, 2, K()[5]) && CubeRoot(17, 2, K()[6]) && CubeRoot(19, 2, K()[7])
  {
    hide K;
    Constants0To15();
  }

  lemma Primes23To53()
    ensures CubeRoot(23, 2, K()[8]) && CubeRoot(29, 3, K()[9]) && CubeRoot(31, 3, K()[10]) && CubeRoot(37, 3, K()[11])
    ensures CubeRoot(41, 3, K()[12]) && CubeRoot(43, 3, K()[13]) && CubeRoot(47, 3, K()[14]) && CubeRoot(53, 3, K()[15])
  {
    hide K;
    Constants0To15();
  }

  lemma Primes59To89()
    ensures CubeRoot(59, 3, K()[16]) && CubeRoot(61, 3, K()[17]) && CubeRoot(67, 4, K()[18]) && CubeRoot(71, 4, K()[19])
    ensures CubeRoot(73, 4, K()[20]) && CubeRoot(79, 4, K()[21]) && CubeRoot(83, 4, K()[22]) && CubeRoot(89, 4, K()[23])
  {
    hide K;
    Constants16To31();
  }

  lemma Primes97To131()
    ensures CubeRoot(97, 4, K()[24]) && CubeRoot(101, 4, K()[25]) && CubeRoot(103, 4, K()[26]) && CubeRoot(107, 4, K()[27])
    ensures CubeRoot(109, 4, K()[28]) && CubeRoot(113, 4, K()[29]) && CubeRoot(127, 5, K()[30]) && CubeRoot(131, 5, K()[31])
  {
    hide K;
    Constants16To31();
  }

  lemma Primes137To173()
    ensures CubeRoot(137, 5, K()[32]) && CubeRoot(139, 5, K()[33]) && CubeRoot(149, 5, K()[34]) && CubeRoot(151, 5, K()[35])
    ensures CubeRoot(157, 5, K()[36]) && CubeRoot(163, 5, K()[37]) && CubeRoot(167, 5, K()[38]) && CubeRoot(173, 5, K()[39])
  {
    hide K;
    Constants32To47();
  }

  lemma Primes179To223()
    ensures CubeRoot(179, 5, K()[40]) && CubeRoot(181, 5, K()[41]) && CubeRoot(191, 5, K()[42]) && CubeRoot(193, 5, K()[43])
    ensures CubeRoot(197, 5, K()[44]) && CubeRoot(199, 5, K()[45]) && CubeRoot(211, 5, K()[46]) && CubeRoot(223, 6, K()[47])
  {
    hide K;
    Constants32To47();
  }

  lemma Primes227To263()
    ensures CubeRoot(227, 6, K()[48]) && CubeRoot(229, 6, K()[49]) && CubeRoot(233, 6, K()[50]) && CubeRoot(239, 6, K()[51])
    ensures CubeRoot(241, 6, K()[52]) && CubeRoot(251, 6, K()[53]) && CubeRoot(257, 6, K()[54]) && CubeRoot(263, 6, K()[55])
  {
    hide K;
    Constants48To63();
  }

  lemma Primes269To311()
    ensures CubeRoot(269, 6, K()[56]) && CubeRoot(271, 6, K()[57]) && CubeRoot(277, 6, K()[58]) && CubeRoot(281, 6, K()[59])
    ensures CubeRoot(283, 6, K()[60]) && CubeRoot(293, 6, K()[61]) && CubeRoot(307, 6, K()[62]) && CubeRoot(311, 6, K()[63])
  {
    hide K;
    Constants48To63();
  }

  /** The initial hash value comes from the first eight. */
  lemma InitialValue()
    ensures SquareRoot(2, 1, H0.a) && SquareRoot(3, 1, H0.b) && SquareRoot(5, 2, H0.c) && SquareRoot(7, 2, H0.d)
    ensures SquareRoot(11, 3, H0.e) && SquareRoot(13, 3, H0.f) && SquareRoot(17, 4, H0.g) && SquareRoot(19, 4, H0.h)
  {
  }

  // ----- The example message

  /** "abc" */
  const ABC: seq<byte> := [97, 98, 99]

  /** The message, a bit, zeros and the number of bits. */
  ghost function Block(): (chunk: seq<byte>)
    ensures |chunk| == CHUNK
  {
    [97, 98, 99, 0x80] + Memory.Zeros(52) + [0, 0, 0, 0, 0, 0, 0, 24]
  }

  lemma OneBlock()
    ensures Pad(ABC) == Block()
  {
    assert PadZeros(3) == 52;
    assert BigEndian(24, 8) == [0, 0, 0, 0, 0, 0, 0, 24] by {
      assert BigEndian(0, 7) == [0, 0, 0, 0, 0, 0, 0] by {
        assert BigEndian(0, 3) == [0, 0, 0];
        assert BigEndian(0, 5) == [0, 0, 0, 0, 0];
      }
    }
  }

  // ----- The message schedule

  lemma Loaded()
    ensures WordOf(97, 98, 99, 0x80) == 0x61626380 && WordOf(0, 0, 0, 24) == 24 && WordOf(0, 0, 0, 0) == 0
  {
  }

  /** Word `t` of the schedule of the block is `w`. */
  ghost predicate Word(chunk: seq<byte>, t: nat, w: word) {
    chunk == Block() && t < 64 && W(chunk, t) == w
  }

  /** Words 0 to 15 are the block. */
  lemma FirstWords(c: seq<byte>)
    requires c == Block()
    ensures Word(c, 0, 0x61626380) && Word(c, 15, 24) && forall t | 0 < t < 15 :: Word(c, t, 0)
  {
    hide WordOf;
    Loaded();
  }

  /** A word of the schedule, from those two, seven, fifteen and sixteen before it. */
  lemma Scheduled(c: seq<byte>, t: nat, w2: word, w7: word, w15: word, w16: word, w: word)
    requires 16 <= t < 64 && Word(c, t - 2, w2) && Word(c, t - 7, w7) && Word(c, t - 15, w15) && Word(c, t - 16, w16)
    requires Plus(Plus(Plus(SmallSigma1(w2), w7), SmallSigma0(w15)), w16) == w
    ensures Word(c, t, w)
  {
    hide Block;
    hide SmallSigma0;
    hide SmallSigma1;
    hide Plus;
  }

  lemma Words16To39(c: seq<byte>)
    requires c == Block()
    ensures Word(c, 16, 0x61626380) && Word(c, 17, 0x000f0000) && Word(c, 18, 0x7da86405) && Word(c, 19, 0x600003c6)
    ensures Word(c, 20, 0x3e9d7b78) && Word(c, 21, 0x0183fc00) && Word(c, 22, 0x12dcbfdb) && Word(c, 23, 0xe2e2c38e)
    ensures Word(c, 24, 0xc8215c1a) && Word(c, 25, 0xb73679a2) && Word(c, 26, 0xe5bc3909) && Word(c, 27, 0x32663c5b)
    ensures Word(c, 28, 0x9d209d67) && Word(c, 29, 0xec8726cb) && Word(c, 30, 0x702138a4) && Word(c, 31, 0xd3b7973b)
    ensures Word(c, 32, 0x93f5997f) && Word(c, 33, 0x3b68ba73) && Word(c, 34, 0xaff4ffc1) && Word(c, 35, 0xf10a5c62)
    ensures Word(c, 36, 0x0a8b3996) && Word(c, 37, 0x72af830a) && Word(c, 38, 0x9409e33e) && Word(c, 39, 0x24641522)
  {
    hide Word;
    FirstWords(c);
    Scheduled(c, 16, 0x00000000, 0x00000000, 0x00000000, 0x61626380, 0x61626380);
    Scheduled(c, 17, 0x00000018, 0x00000000, 0x00000000, 0x00000000, 0x000f0000);
    Scheduled(c, 18, 0x61626380, 0x00000000, 0x00000000, 0x00000000, 0x7da86405);
    Scheduled(c, 19, 0x000f0000, 0x00000000, 0x00000000, 0x00000000, 0x600003c6);
    Scheduled(c, 20, 0x7da86405, 0x00000000, 0x00000000, 0x00000000, 0x3e9d7b78);
    Scheduled(c, 21, 0x600003c6, 0x00000000, 0x00000000, 0x00000000, 0x0183fc00);
    Scheduled(c, 22, 0x3e9d7b78, 0x00000018, 0x00000000, 0x00000000, 0x12dcbfdb);
    Scheduled(c, 23, 0x0183fc00, 0x61626380, 0x00000000, 0x00000000, 0xe2e2c38e);
    Scheduled(c, 24, 0x12dcbfdb, 0x000f0000, 0x00000000, 0x00000000, 0xc8215c1a);
    Scheduled(c, 25, 0xe2e2c38e, 0x7da86405, 0x00000000, 0x00000000, 0xb73679a2);
    Scheduled(c, 26, 0xc8215c1a, 0x600003c6, 0x00000000, 0x00000000, 0xe5bc3909);
    Scheduled(c, 27, 0xb73679a2, 0x3e9d7b78, 0x00000000, 0x00000000, 0x32663c5b);
    Scheduled(c, 28, 0xe5bc3909, 0x0183fc00, 0x00000000, 0x00000000, 0x9d209d67);
    Scheduled(c, 29, 0x32663c5b, 0x12dcbfdb, 0x00000000, 0x00000000, 0xec8726cb);
    Scheduled(c, 30, 0x9d209d67, 0xe2e2c38e, 0x00000018, 0x00000000, 0x702138a4);
    Scheduled(c, 31, 0xec8726cb, 0xc8215c1a, 0x61626380, 0x00000018, 0xd3b7973b);
    Scheduled(c, 32, 0x702138a4, 0xb73679a2, 0x000f0000, 0x61626380, 0x93f5997f);
    Scheduled(c, 33, 0xd3b7973b, 0xe5bc3909, 0x7da86405, 0x000f0000, 0x3b68ba73);
    Scheduled(c, 34, 0x93f5997f, 0x32663c5b, 0x600003c6, 0x7da86405, 0xaff4ffc1);
    Scheduled(c, 35, 0x3b68ba73, 0x9d209d67, 0x3e9d7b78, 0x600003c6, 0xf10a5c62);
    Scheduled(c, 36, 0xaff4ffc1, 0xec8726cb, 0x0183fc00, 0x3e9d7b78, 0x0a8b3996);
    Scheduled(c, 37, 0xf10a5c62, 0x702138a4, 0x12dcbfdb, 0x0183fc00, 0x72af830a);
    Scheduled(c, 38, 0x0a8b3996, 0xd3b7973b, 0xe2e2c38e, 0x12dcbfdb, 0x9409e33e);
    Scheduled(c, 39, 0x72af830a, 0x93f5997f, 0xc8215c1a, 0xe2e2c38e, 0x24641522);
  }

  lemma Words40To63(c: seq<byte>)
    requires c == Block()
    ensures Word(c, 40, 0x9f47bf94) && Word(c, 41, 0xf0a64f5a) && Word(c, 42, 0x3e246a79) && Word(c, 43, 0x27333ba3)
    ensures Word(c, 44, 0x0c4763f2) && Word(c, 45, 0x840abf27) && Word(c, 46, 0x7a290d5d) && Word(c, 47, 0x065c43da)
    ensures Word(c, 48, 0xfb3e89cb) && Word(c, 49, 0xcc7617db) && Word(c, 50, 0xb9e66c34) && Word(c, 51, 0xa9993667)
    ensures Word(c, 52, 0x84badedd) && Word(c, 53, 0xc21462bc) && Word(c, 54, 0x1487472c) && Word(c, 55, 0xb20f7a99)
    ensures Word(c, 56, 0xef57b9cd) && Word(c, 57, 0xebe6b238) && Word(c, 58, 0x9fe3095e) && Word(c, 59, 0x78bc8d4b)
    ensures Word(c, 60, 0xa43fcf15) && Word(c, 61, 0x668b2ff8) && Word(c, 62, 0xeeaba2cc) && Word(c, 63, 0x12b1edeb)
  {
    hide Word;
    FirstWords(c);
    Words16To39(c);
    Scheduled(c, 40, 0x9409e33e, 0x3b68ba73, 0xb73679a2, 0xc8215c1a, 0x9f47bf94);
    Scheduled(c, 41, 0x24641522, 0xaff4ffc1, 0xe5bc3909, 0xb73679a2, 0xf0a64f5a);
    Scheduled(c, 42, 0x9f47bf94, 0xf10a5c62, 0x32663c5b, 0xe5bc3909, 0x3e246a79);
    Scheduled(c, 43, 0xf0a64f5a, 0x0a8b3996, 0x9d209d67, 0x32663c5b, 0x27333ba3);
    Scheduled(c, 44, 0x3e246a79, 0x72af830a, 0xec8726cb, 0x9d209d67, 0x0c4763f2);
    Scheduled(c, 45, 0x27333ba3, 0x9409e33e, 0x702138a4, 0xec8726cb, 0x840abf27);
    Scheduled(c, 46, 0x0c4763f2, 0x24641522, 0xd3b7973b, 0x702138a4, 0x7a290d5d);
    Scheduled(c, 47, 0x840abf27, 0x9f47bf94, 0x93f5997f, 0xd3b7973b, 0x065c43da);
    Scheduled(c, 48, 0x7a290d5d, 0xf0a64f5a, 0x3b68ba73, 0x93f5997f, 0xfb3e89cb);
    Scheduled(c, 49, 0x065c43da, 0x3e246a79, 0xaff4ffc1, 0x3b68ba73, 0xcc7617db);
    Scheduled(c, 50, 0xfb3e89cb, 0x27333ba3, 0xf10a5c62, 0xaff4ffc1, 0xb9e66c34);
    Scheduled(c, 51, 0xcc7617db, 0x0c4763f2, 0x0a8b3996, 0xf10a5c62, 0xa9993667);
    Scheduled(c, 52, 0xb9e66c34, 0x840abf27, 0x72af830a, 0x0a8b3996, 0x84badedd);
    Scheduled(c, 53, 0xa9993667, 0x7a290d5d, 0x9409e33e, 0x72af830a, 0xc21462bc);
    Scheduled(c, 54, 0x84badedd, 0x065c43da, 0x24641522, 0x9409e33e, 0x1487472c);
    Scheduled(c, 55, 0xc21462bc, 0xfb3e89cb, 0x9f47bf94, 0x24641522, 0xb20f7a99);
    Scheduled(c, 56, 0x1487472c, 0xcc7617db, 0xf0a64f5a, 0x9f47bf94, 0xef57b9cd);
    Scheduled(c, 57, 0xb20f7a99, 0xb9e66c34, 0x3e246a79, 0xf0a64f5a, 0xebe6b238);
    Scheduled(c, 58, 0xef57b9cd, 0xa9993667, 0x27333ba3, 0x3e246a79, 0x9fe3095e);
    Scheduled(c, 59, 0xebe6b238, 0x84badedd, 0x0c4763f2, 0x27333ba3, 0x78bc8d4b);
    Scheduled(c, 60, 0x9fe3095e, 0xc21462bc, 0x840abf27, 0x0c4763f2, 0xa43fcf15);
    Scheduled(c, 61, 0x78bc8d4b, 0x1487472c, 0x7a290d5d, 0x840abf27, 0x668b2ff8);
    Scheduled(c, 62, 0xa43fcf15, 0xb20f7a99, 0x065c43da, 0x7a290d5d, 0xeeaba2cc);
    Scheduled(c, 63, 0x668b2ff8, 0xef57b9cd, 0xfb3e89cb, 0x065c43da, 0x12b1edeb);
  }

  // ----- The rounds

  /** Round `t`, with the new variables `a` and `e`. */
  lemma NextRound(c: seq<byte>, t: nat, k: word, w: word, v: Vars, a: word, e: word) returns (v': Vars)
    requires t < 64 && Word(c, t, w) && Rounds(H0, c, t) == v && K()[t] == k
    requires Round(v, k, w).a == a && Round(v, k, w).e == e
    ensures v' == Vars(a, v.a, v.b, v.c, e, v.e, v.f, v.g) && Rounds(H0, c, t + 1) == v'
  {
    hide Block;
    hide K;
    hide Plus;
    hide Ch;
    hide Maj;
    hide BigSigma0;
    hide BigSigma1;
    v' := Vars(a, v.a, v.b, v.c, e, v.e, v.f, v.g);
  }

  lemma NoRounds(c: seq<byte>)
    requires c == Block()
    ensures Rounds(H0, c, 0) ==
            Vars(0x6a09e667, 0xbb67ae85, 0x3c6ef372, 0xa54ff53a, 0x510e527f, 0x9b05688c, 0x1f83d9ab, 0x5be0cd19)
  {
  }

  lemma RoundsTo32(c: seq<byte>)
    requires c == Block()
    ensures Rounds(H0, c, 32) ==
            Vars(0x73b33bf5, 0xea992a22, 0xa0060b30, 0x363482c9, 0xba591112, 0x0109ab3a, 0xade79437, 0x6112a3b7)
  {
    hide Word;
    hide Block;
    hide Rounds;
    hide K;
    Constants0To15();
    Constants16To31();
    FirstWords(c);
    Words16To39(c);
    NoRounds(c);
    var v := Vars(0x6a09e667, 0xbb67ae85, 0x3c6ef372, 0xa54ff53a, 0x510e527f, 0x9b05688c, 0x1f83d9ab, 0x5be0cd19);
    v := NextRound(c, 0, 0x428a2f98, 0x61626380, v, 0x5d6aebcd, 0xfa2a4622);
    v := NextRound(c, 1, 0x71374491, 0x00000000, v, 0x5a6ad9ad, 0x78ce7989);
    v := NextRound(c, 2, 0xb5c0fbcf, 0x00000000, v, 0xc8c347a7, 0xf92939eb);
    v := NextRound(c, 3, 0xe9b5dba5, 0x00000000, v, 0xd550f666, 0x24e00850);
    v := NextRound(c, 4, 0x3956c25b, 0x00000000, v, 0x04409a6a, 0x43ada245);
    v := NextRound(c, 5, 0x59f111f1, 0x00000000, v, 0x2b4209f5, 0x714260ad);
    v := NextRound(c, 6, 0x923f82a4, 0x00000000, v, 0xe5030380, 0x9b27a401);
    v := NextRound(c, 7, 0xab1c5ed5, 0x00000000, v, 0x85a07b5f, 0x0c657a79);
    v := NextRound(c, 8, 0xd807aa98, 0x00000000, v, 0x8e04ecb9, 0x32ca2d8c);
    v := NextRound(c, 9, 0x12835b01, 0x00000000, v, 0x8c87346b, 0x1cc92596);
    v := NextRound(c, 10, 0x243185be, 0x00000000, v, 0x4798a3f4, 0x436b23e8);
    v := NextRound(c, 11, 0x550c7dc3, 0x00000000, v, 0xf71fc5a9, 0x816fd6e9);
    v := NextRound(c, 12, 0x72be5d74, 0x00000000, v, 0x87912990, 0x1e578218);
    v := NextRound(c, 13, 0x80deb1fe, 0x00000000, v, 0xd932eb16, 0x745a48de);
    v := NextRound(c, 14, 0x9bdc06a7, 0x00000000, v, 0xc0645fde, 0x0b92f20c);
    v := NextRound(c, 15, 0xc19bf174, 0x00000018, v, 0xb0fa238e, 0x07590dcd);
    v := NextRound(c, 16, 0xe49b69c1, 0x61626380, v, 0x21da9a9b, 0x8034229c);
    v := NextRound(c, 17, 0xefbe4786, 0x000f0000, v, 0xc2fbd9d1, 0x846ee454);
    v := NextRound(c, 18, 0x0fc19dc6, 0x7da86405, v, 0xfe777bbf, 0xcc899961);
    v := NextRound(c, 19, 0x240ca1cc, 0x600003c6, v, 0xe1f20c33, 0xb0638179);
    v := NextRound(c, 20, 0x2de92c6f, 0x3e9d7b78, v, 0x9dc68b63, 0x8ada8930);
    v := NextRound(c, 21, 0x4a7484aa, 0x0183fc00, v, 0xc2606d6d, 0xe1257970);
    v := NextRound(c, 22, 0x5cb0a9dc, 0x12dcbfdb, v, 0xa7a3623f, 0x49f5114a);
    v := NextRound(c, 23, 0x76f988da, 0xe2e2c38e, v, 0xc5d53d8d, 0xaa47c347);
    v := NextRound(c, 24, 0x983e5152, 0xc8215c1a, v, 0x1c2c2838, 0x2823ef91);
    v := NextRound(c, 25, 0xa831c66d, 0xb73679a2, v, 0xcde8037d, 0x14383d8e);
    v := NextRound(c, 26, 0xb00327c8, 0xe5bc3909, v, 0xb62ec4bc, 0xc74c6516);
    v := NextRound(c, 27, 0xbf597fc7, 0x32663c5b, v, 0x77d37528, 0xedffbff8);
    v := NextRound(c, 28, 0xc6e00bf3, 0x9d209d67, v, 0x363482c9, 0x6112a3b7);
    v := NextRound(c, 29, 0xd5a79147, 0xec8726cb, v, 0xa0060b30, 0xade79437);
    v := NextRound(c, 30, 0x06ca6351, 0x702138a4, v, 0xea992a22, 0x0109ab3a);
    v := NextRound(c, 31, 0x14292967, 0xd3b7973b, v, 0x73b33bf5, 0xba591112);
  }

  lemma RoundsTo64(c: seq<byte>)
    requires c == Block()
    ensures Rounds(H0, c, 64) ==
            Vars(0x506e3058, 0xd39a2165, 0x04d24d6c, 0xb85e2ce9, 0x5ef50f24, 0xfb121210, 0x948d25b6, 0x961f4894)
  {
    hide Word;
    hide Block;
    hide Rounds;
    hide K;
    Constants32To47();
    Constants48To63();
    Words16To39(c);
    Words40To63(c);
    RoundsTo32(c);
    var v := Vars(0x73b33bf5, 0xea992a22, 0xa0060b30, 0x363482c9, 0xba591112, 0x0109ab3a, 0xade79437, 0x6112a3b7);
    v := NextRound(c, 32, 0x27b70a85, 0x93f5997f, v, 0x98e12507, 0x9cd9f5f6);
    v := NextRound(c, 33, 0x2e1b2138, 0x3b68ba73, v, 0xfe604df5, 0x59249dd3);
    v := NextRound(c, 34, 0x4d2c6dfc, 0xaff4ffc1, v, 0xa9a7738c, 0x085f3833);
    v := NextRound(c, 35, 0x53380d13, 0xf10a5c62, v, 0x65a0cfe4, 0xf4b002d6);
    v := NextRound(c, 36, 0x650a7354, 0x0a8b3996, v, 0x41a65cb1, 0x0772a26b);
    v := NextRound(c, 37, 0x766a0abb, 0x72af830a, v, 0x34df1604, 0xa507a53d);
    v := NextRound(c, 38, 0x81c2c92e, 0x9409e33e, v, 0x6dc57a8a, 0xf0781bc8);
    v := NextRound(c, 39, 0x92722c85, 0x24641522, v, 0x79ea687a, 0x1efbc0a0);
    v := NextRound(c, 40, 0xa2bfe8a1, 0x9f47bf94, v, 0xd6670766, 0x26352d63);
    v := NextRound(c, 41, 0xa81a664b, 0xf0a64f5a, v, 0xdf46652f, 0x838b2711);
    v := NextRound(c, 42, 0xc24b8b70, 0x3e246a79, v, 0x17aa0dfe, 0xdecd4715);
    v := NextRound(c, 43, 0xc76c51a3, 0x27333ba3, v, 0x9d4baf93, 0xfda24c2e);
    v := NextRound(c, 44, 0xd192e819, 0x0c4763f2, v, 0x26628815, 0xa80f11f0);
    v := NextRound(c, 45, 0xd6990624, 0x840abf27, v, 0x72ab4b91, 0xb7755da1);
    v := NextRound(c, 46, 0xf40e3585, 0x7a290d5d, v, 0xa14c14b0, 0xd57b94a9);
    v := NextRound(c, 47, 0x106aa070, 0x065c43da, v, 0x4172328d, 0xfecf0bc6);
    v := NextRound(c, 48, 0x19a4c116, 0xfb3e89cb, v, 0x05757ceb, 0xbd714038);
    v := NextRound(c, 49, 0x1e376c08, 0xcc7617db, v, 0xf11bfaa8, 0x6e5c390c);
    v := NextRound(c, 50, 0x2748774c, 0xb9e66c34, v, 0x7a0508a1, 0x52f1ccf7);
    v := NextRound(c, 51, 0x34b0bcb5, 0xa9993667, v, 0x886e7a22, 0x49231c1e);
    v := NextRound(c, 52, 0x391c0cb3, 0x84badedd, v, 0x101fd28f, 0x529e7d00);
    v := NextRound(c, 53, 0x4ed8aa4a, 0xc21462bc, v, 0xf5702fdb, 0x9f4787c3);
    v := NextRound(c, 54, 0x5b9cca4f, 0x1487472c, v, 0x3ec45cdb, 0xe50e1b4f);
    v := NextRound(c, 55, 0x682e6ff3, 0xb20f7a99, v, 0x38cc9913, 0x54cb266b);
    v := NextRound(c, 56, 0x748f82ee, 0xef57b9cd, v, 0xfcd1887b, 0x9b5e906c);
    v := NextRound(c, 57, 0x78a5636f, 0xebe6b238, v, 0xc062d46f, 0x7e44008e);
    v := NextRound(c, 58, 0x84c87814, 0x9fe3095e, v, 0xffb70472, 0x6d83bfc6);
    v := NextRound(c, 59, 0x8cc70208, 0x78bc8d4b, v, 0xb6ae8fff, 0xb21bad3d);
    v := NextRound(c, 60, 0x90befffa, 0xa43fcf15, v, 0xb85e2ce9, 0x961f4894);
    v := NextRound(c, 61, 0xa4506ceb, 0x668b2ff8, v, 0x04d24d6c, 0x948d25b6);
    v := NextRound(c, 62, 0xbef9a3f7, 0xeeaba2cc, v, 0xd39a2165, 0xfb121210);
    v := NextRound(c, 63, 0xc67178f2, 0x12b1edeb, v, 0x506e3058, 0x5ef50f24);
  }

  lemma FinalValue()
    ensures Chunks(H0, Block()) ==
            Vars(0xba7816bf, 0x8f01cfea, 0x414140de, 0x5dae2223, 0xb00361a3, 0x96177a9c, 0xb410ff61, 0xf20015ad)
  {
    hide W;
    hide Rounds;
    hide Block;
    RoundsTo64(Block());
    OneChunk();
  }

  lemma OneChunk()
    ensures Chunks(H0, Block()) == Add(H0, Rounds(H0, Block(), 64))
  {
    hide Rounds;
    assert Block()[..0] == [] && Block()[0..] == Block();
  }

  lemma WordsWritten()
    ensures WordBytes(0xba7816bf) == [0xba, 0x78, 0x16, 0xbf]
    ensures WordBytes(0x8f01cfea) == [0x8f, 0x01, 0xcf, 0xea]
    ensures WordBytes(0x414140de) == [0x41, 0x41, 0x40, 0xde]
    ensures WordBytes(0x5dae2223) == [0x5d, 0xae, 0x22, 0x23]
    ensures WordBytes(0xb00361a3) == [0xb0, 0x03, 0x61, 0xa3]
    ensures WordBytes(0x96177a9c) == [0x96, 0x17, 0x7a, 0x9c]
    ensures WordBytes(0xb410ff61) == [0xb4, 0x10, 0xff, 0x61]
    ensures WordBytes(0xf20015ad) == [0xf2, 0x00, 0x15, 0xad]
  {
  }

  /** The digest of "abc". */
  lemma DigestOfAbc()
    ensures Sha256(ABC) ==
            [0xba, 0x78, 0x16, 0xbf, 0x8f, 0x01, 0xcf, 0xea, 0x41, 0x41, 0x40, 0xde, 0x5d, 0xae, 0x22, 0x23,
             0xb0, 0x03, 0x61, 0xa3, 0x96, 0x17, 0x7a, 0x9c, 0xb4, 0x10, 0xff, 0x61, 0xf2, 0x00, 0x15, 0xad]
  {
    hide Chunks;
    hide Block;
    hide Pad;
    hide WordBytes;
    OneBlock();
    FinalValue();
    WordsWritten();
  }
}
