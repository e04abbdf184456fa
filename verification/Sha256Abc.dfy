/** The worked example of the standard: the digest of the three letters abc, round by round. */
module Sha256Abc {
  import opened ByteStrings
  import opened Sha256

  const ABC: Bytes := [97, 98, 99]

  // ----- the message

  /** The one block of the padded message. */
  ghost predicate AbcBlock(block: Bytes) {
    && |block| == 64 && block[..4] == [97, 98, 99, 0x80] && block[63] == 24
    && forall i | 4 <= i < 63 :: block[i] == 0
  }

  lemma AbcPadded()
    ensures AbcBlock(Padded(ABC))
  {
    hide LengthField, PadZeros;
    FieldOfThree();
    assert PadZeros(3) == 52 by {
      ZerosOfThree();
    }
    var m := Padded(ABC);
    assert m[..4] == [97, 98, 99, 0x80];
  }

  lemma ZerosOfThree()
    ensures PadZeros(3) == 52
  {
  }

  lemma FieldOfThree()
    ensures |LengthField(3)| == 8 && forall i | 0 <= i < 8 :: LengthField(3)[i] == if i == 7 then 24 else 0
  {
    assert Bits(3) == 24;
    forall i: nat | i < 8
      ensures LengthField(3)[i] == if i == 7 then 24 else 0
    {
      BigEndianAt(24, 8, 7 - i);
      ShiftSmall(24, 7 - i);
    }
  }

  lemma {:induction false} ShiftSmall(v: nat, i: nat)
    requires v < 256
    ensures ShiftBytes(v, i) == if i == 0 then v else 0
    decreases i
  {
    if i > 0 {
      ShiftSmall(v / 256, i - 1);
    }
  }

  // ----- the schedule

  /** The words of the schedule. */
  ghost predicate Words(block: Bytes, words: seq<Word32>) {
    |block| == |words| == 64 && forall t {:trigger words[t]} | 0 <= t < 64 :: words[t] == Schedule(block, t)
  }

  lemma SomeWords(block: Bytes) returns (words: seq<Word32>)
    requires |block| == 64
    ensures Words(block, words)
  {
    hide Schedule;
    words := seq(64, t requires 0 <= t < 64 => Schedule(block, t));
  }

  /** A word of the schedule from the four it is made of. */
  lemma Scheduled(block: Bytes, words: seq<Word32>, t: nat, a: Word32, b: Word32, c: Word32, d: Word32, w: Word32)
    requires Words(block, words) && 16 <= t < 64
    requires words[t - 16] == a && words[t - 15] == b && words[t - 7] == c && words[t - 2] == d
    requires Plus(Plus(Plus(a, LowerFirst(b)), c), LowerSecond(d)) == w
    ensures words[t] == w
  {
    hide LowerFirst, LowerSecond, Plus;
  }

  lemma FirstWords(block: Bytes, words: seq<Word32>)
    requires AbcBlock(block) && Words(block, words)
    ensures words[0] == 0x61626380 && words[15] == 24 && forall t | 0 < t < 15 :: words[t] == 0
  {
    hide BigEndianWord;
    assert block[0] == block[..4][0] && block[1] == block[..4][1] && block[2] == block[..4][2] && block[3] == block[..4][3];
    FirstWord(block);
    LastWord(block);
    forall t: nat | 0 < t < 15
      ensures words[t] == 0
    {
      ZeroWord(block, t * 4);
    }
  }

  lemma FirstWord(block: Bytes)
    requires |block| == 64 && block[0] == 97 && block[1] == 98 && block[2] == 99 && block[3] == 0x80
    ensures BigEndianWord(block, 0) == 0x61626380
  {
    hide BigEndianWord;
    WordOf(block, 0, 0x61, 0x62, 0x63, 0x80);
    Together();
  }

  lemma WordOf(block: Bytes, at: nat, a: Word32, b: Word32, c: Word32, d: Word32)
    requires at + 4 <= |block| && block[at] as Word32 == a && block[at + 1] as Word32 == b
    requires block[at + 2] as Word32 == c && block[at + 3] as Word32 == d
    ensures BigEndianWord(block, at) == Joined(a, b, c, d)
  {
  }

  ghost function Joined(a: Word32, b: Word32, c: Word32, d: Word32): Word32 {
    (a << 24) | (b << 16) | (c << 8) | d
  }

  lemma Together()
    ensures Joined(0x61, 0x62, 0x63, 0x80) == 0x61626380
  {
  }

  lemma LastWord(block: Bytes)
    requires |block| == 64 && block[60] == 0 && block[61] == 0 && block[62] == 0 && block[63] == 24
    ensures BigEndianWord(block, 60) == 24
  {
  }

  lemma ZeroWord(block: Bytes, at: nat)
    requires at + 4 <= |block| && block[at] == 0 && block[at + 1] == 0 && block[at + 2] == 0 && block[at + 3] == 0
    ensures BigEndianWord(block, at) == 0
  {
  }

  ghost predicate Words0(words: seq<Word32>)
    requires |words| == 64
  {
      && words[0] == 0x61626380 && words[1] == 0x00000000 && words[2] == 0x00000000 && words[3] == 0x00000000
      && words[4] == 0x00000000 && words[5] == 0x00000000 && words[6] == 0x00000000 && words[7] == 0x00000000
      && words[8] == 0x00000000 && words[9] == 0x00000000 && words[10] == 0x00000000 && words[11] == 0x00000000
      && words[12] == 0x00000000 && words[13] == 0x00000000 && words[14] == 0x00000000 && words[15] == 0x00000018
  }

  ghost predicate Words1(words: seq<Word32>)
    requires |words| == 64
  {
      && words[16] == 0x61626380 && words[17] == 0x000f0000 && words[18] == 0x7da86405 && words[19] == 0x600003c6
      && words[20] == 0x3e9d7b78 && words[21] == 0x0183fc00 && words[22] == 0x12dcbfdb && words[23] == 0xe2e2c38e
      && words[24] == 0xc8215c1a && words[25] == 0xb73679a2 && words[26] == 0xe5bc3909 && words[27] == 0x32663c5b
      && words[28] == 0x9d209d67 && words[29] == 0xec8726cb && words[30] == 0x702138a4 && words[31] == 0xd3b7973b
  }

  ghost predicate Words2(words: seq<Word32>)
    requires |words| == 64
  {
      && words[32] == 0x93f5997f && words[33] == 0x3b68ba73 && words[34] == 0xaff4ffc1 && words[35] == 0xf10a5c62
      && words[36] == 0x0a8b3996 && words[37] == 0x72af830a && words[38] == 0x9409e33e && words[39] == 0x24641522
      && words[40] == 0x9f47bf94 && words[41] == 0xf0a64f5a && words[42] == 0x3e246a79 && words[43] == 0x27333ba3
      && words[44] == 0x0c4763f2 && words[45] == 0x840abf27 && words[46] == 0x7a290d5d && words[47] == 0x065c43da
  }

  ghost predicate Words3(words: seq<Word32>)
    requires |words| == 64
  {
      && words[48] == 0xfb3e89cb && words[49] == 0xcc7617db && words[50] == 0xb9e66c34 && words[51] == 0xa9993667
      && words[52] == 0x84badedd && words[53] == 0xc21462bc && words[54] == 0x1487472c && words[55] == 0xb20f7a99
      && words[56] == 0xef57b9cd && words[57] == 0xebe6b238 && words[58] == 0x9fe3095e && words[59] == 0x78bc8d4b
      && words[60] == 0xa43fcf15 && words[61] == 0x668b2ff8 && words[62] == 0xeeaba2cc && words[63] == 0x12b1edeb
  }

  lemma MoreWords1(block: Bytes, words: seq<Word32>)
    requires Words(block, words) && Words0(words)
    ensures Words1(words)
  {
    hide Schedule, Words;
    assert |words| == 64 by {
      Length(block, words);
    }
    Scheduled(block, words, 16, 0x61626380, 0x00000000, 0x00000000, 0x00000000, 0x61626380);
    Scheduled(block, words, 17, 0x00000000, 0x00000000, 0x00000000, 0x00000018, 0x000f0000);
    Scheduled(block, words, 18, 0x00000000, 0x00000000, 0x00000000, 0x61626380, 0x7da86405);
    Scheduled(block, words, 19, 0x00000000, 0x00000000, 0x00000000, 0x000f0000, 0x600003c6);
    Scheduled(block, words, 20, 0x00000000, 0x00000000, 0x00000000, 0x7da86405, 0x3e9d7b78);
    Scheduled(block, words, 21, 0x00000000, 0x00000000, 0x00000000, 0x600003c6, 0x0183fc00);
    Scheduled(block, words, 22, 0x00000000, 0x00000000, 0x00000018, 0x3e9d7b78, 0x12dcbfdb);
    Scheduled(block, words, 23, 0x00000000, 0x00000000, 0x61626380, 0x0183fc00, 0xe2e2c38e);
    Scheduled(block, words, 24, 0x00000000, 0x00000000, 0x000f0000, 0x12dcbfdb, 0xc8215c1a);
    Scheduled(block, words, 25, 0x00000000, 0x00000000, 0x7da86405, 0xe2e2c38e, 0xb73679a2);
    Scheduled(block, words, 26, 0x00000000, 0x00000000, 0x600003c6, 0xc8215c1a, 0xe5bc3909);
    Scheduled(block, words, 27, 0x00000000, 0x00000000, 0x3e9d7b78, 0xb73679a2, 0x32663c5b);
    Scheduled(block, words, 28, 0x00000000, 0x00000000, 0x0183fc00, 0xe5bc3909, 0x9d209d67);
    Scheduled(block, words, 29, 0x00000000, 0x00000000, 0x12dcbfdb, 0x32663c5b, 0xec8726cb);
    Scheduled(block, words, 30, 0x00000000, 0x00000018, 0xe2e2c38e, 0x9d209d67, 0x702138a4);
    Scheduled(block, words, 31, 0x00000018, 0x61626380, 0xc8215c1a, 0xec8726cb, 0xd3b7973b);
  }

  lemma MoreWords2(block: Bytes, words: seq<Word32>)
    requires Words(block, words) && Words1(words)
    ensures Words2(words)
  {
    hide Schedule, Words;
    assert |words| == 64 by {
      Length(block, words);
    }
    Scheduled(block, words, 32, 0x61626380, 0x000f0000, 0xb73679a2, 0x702138a4, 0x93f5997f);
    Scheduled(block, words, 33, 0x000f0000, 0x7da86405, 0xe5bc3909, 0xd3b7973b, 0x3b68ba73);
    Scheduled(block, words, 34, 0x7da86405, 0x600003c6, 0x32663c5b, 0x93f5997f, 0xaff4ffc1);
    Scheduled(block, words, 35, 0x600003c6, 0x3e9d7b78, 0x9d209d67, 0x3b68ba73, 0xf10a5c62);
    Scheduled(block, words, 36, 0x3e9d7b78, 0x0183fc00, 0xec8726cb, 0xaff4ffc1, 0x0a8b3996);
    Scheduled(block, words, 37, 0x0183fc00, 0x12dcbfdb, 0x702138a4, 0xf10a5c62, 0x72af830a);
    Scheduled(block, words, 38, 0x12dcbfdb, 0xe2e2c38e, 0xd3b7973b, 0x0a8b3996, 0x9409e33e);
    Scheduled(block, words, 39, 0xe2e2c38e, 0xc8215c1a, 0x93f5997f, 0x72af830a, 0x24641522);
    Scheduled(block, words, 40, 0xc8215c1a, 0xb73679a2, 0x3b68ba73, 0x9409e33e, 0x9f47bf94);
    Scheduled(block, words, 41, 0xb73679a2, 0xe5bc3909, 0xaff4ffc1, 0x24641522, 0xf0a64f5a);
    Scheduled(block, words, 42, 0xe5bc3909, 0x32663c5b, 0xf10a5c62, 0x9f47bf94, 0x3e246a79);
    Scheduled(block, words, 43, 0x32663c5b, 0x9d209d67, 0x0a8b3996, 0xf0a64f5a, 0x27333ba3);
    Scheduled(block, words, 44, 0x9d209d67, 0xec8726cb, 0x72af830a, 0x3e246a79, 0x0c4763f2);
    Scheduled(block, words, 45, 0xec8726cb, 0x702138a4, 0x9409e33e, 0x27333ba3, 0x840abf27);
    Scheduled(block, words, 46, 0x702138a4, 0xd3b7973b, 0x24641522, 0x0c4763f2, 0x7a290d5d);
    Scheduled(block, words, 47, 0xd3b7973b, 0x93f5997f, 0x9f47bf94, 0x840abf27, 0x065c43da);
  }

  lemma MoreWords3(block: Bytes, words: seq<Word32>)
    requires Words(block, words) && Words2(words)
    ensures Words3(words)
  {
    hide Schedule, Words;
    assert |words| == 64 by {
      Length(block, words);
    }
    Scheduled(block, words, 48, 0x93f5997f, 0x3b68ba73, 0xf0a64f5a, 0x7a290d5d, 0xfb3e89cb);
    Scheduled(block, words, 49, 0x3b68ba73, 0xaff4ffc1, 0x3e246a79, 0x065c43da, 0xcc7617db);
    Scheduled(block, words, 50, 0xaff4ffc1, 0xf10a5c62, 0x27333ba3, 0xfb3e89cb, 0xb9e66c34);
    Scheduled(block, words, 51, 0xf10a5c62, 0x0a8b3996, 0x0c4763f2, 0xcc7617db, 0xa9993667);
    Scheduled(block, words, 52, 0x0a8b3996, 0x72af830a, 0x840abf27, 0xb9e66c34, 0x84badedd);
    Scheduled(block, words, 53, 0x72af830a, 0x9409e33e, 0x7a290d5d, 0xa9993667, 0xc21462bc);
    Scheduled(block, words, 54, 0x9409e33e, 0x24641522, 0x065c43da, 0x84badedd, 0x1487472c);
    Scheduled(block, words, 55, 0x24641522, 0x9f47bf94, 0xfb3e89cb, 0xc21462bc, 0xb20f7a99);
    Scheduled(block, words, 56, 0x9f47bf94, 0xf0a64f5a, 0xcc7617db, 0x1487472c, 0xef57b9cd);
    Scheduled(block, words, 57, 0xf0a64f5a, 0x3e246a79, 0xb9e66c34, 0xb20f7a99, 0xebe6b238);
    Scheduled(block, words, 58, 0x3e246a79, 0x27333ba3, 0xa9993667, 0xef57b9cd, 0x9fe3095e);
    Scheduled(block, words, 59, 0x27333ba3, 0x0c4763f2, 0x84badedd, 0xebe6b238, 0x78bc8d4b);
    Scheduled(block, words, 60, 0x0c4763f2, 0x840abf27, 0xc21462bc, 0x9fe3095e, 0xa43fcf15);
    Scheduled(block, words, 61, 0x840abf27, 0x7a290d5d, 0x1487472c, 0x78bc8d4b, 0x668b2ff8);
    Scheduled(block, words, 62, 0x7a290d5d, 0x065c43da, 0xb20f7a99, 0xa43fcf15, 0xeeaba2cc);
    Scheduled(block, words, 63, 0x065c43da, 0xfb3e89cb, 0xef57b9cd, 0x668b2ff8, 0x12b1edeb);
  }

  lemma Length(block: Bytes, words: seq<Word32>)
    requires Words(block, words)
    ensures |block| == |words| == 64
  {
  }

  // ----- the rounds

  ghost function Constant(t: nat): Word32
    requires t < 64
  {
    CONSTANTS[t]
  }

  /** One round: only a and e are new. */
  lemma Go(block: Bytes, words: seq<Word32>, t: nat, v: Hash, k: Word32, w: Word32, a: Word32, e: Word32) returns (r: Hash)
    requires Words(block, words) && t < 64 && Rounds(INITIAL, block, t) == v && Constant(t) == k && words[t] == w
    requires Round(v, k, w) == Hash(a, v.a, v.b, v.c, e, v.e, v.f, v.g)
    ensures r == Hash(a, v.a, v.b, v.c, e, v.e, v.f, v.g) && Rounds(INITIAL, block, t + 1) == r
  {
    hide Round, Schedule;
    r := Round(v, k, w);
  }

  lemma Rounds0(block: Bytes, words: seq<Word32>)
    requires Words(block, words) && Words0(words) && Rounds(INITIAL, block, 0) ==
      Hash(0x6a09e667, 0xbb67ae85, 0x3c6ef372, 0xa54ff53a, 0x510e527f, 0x9b05688c, 0x1f83d9ab, 0x5be0cd19)
    ensures Rounds(INITIAL, block, 8) ==
      Hash(0x85a07b5f, 0xe5030380, 0x2b4209f5, 0x04409a6a, 0x0c657a79, 0x9b27a401, 0x714260ad, 0x43ada245)
  {
    hide Schedule, Rounds, Constant, Words;
    Length(block, words);
    Constants0();
    var v := Hash(0x6a09e667, 0xbb67ae85, 0x3c6ef372, 0xa54ff53a, 0x510e527f, 0x9b05688c, 0x1f83d9ab, 0x5be0cd19);
    v := Go(block, words, 0, v, 0x428a2f98, 0x61626380, 0x5d6aebcd, 0xfa2a4622);
    v := Go(block, words, 1, v, 0x71374491, 0x00000000, 0x5a6ad9ad, 0x78ce7989);
    v := Go(block, words, 2, v, 0xb5c0fbcf, 0x00000000, 0xc8c347a7, 0xf92939eb);
    v := Go(block, words, 3, v, 0xe9b5dba5, 0x00000000, 0xd550f666, 0x24e00850);
    v := Go(block, words, 4, v, 0x3956c25b, 0x00000000, 0x04409a6a, 0x43ada245);
    v := Go(block, words, 5, v, 0x59f111f1, 0x00000000, 0x2b4209f5, 0x714260ad);
    v := Go(block, words, 6, v, 0x923f82a4, 0x00000000, 0xe5030380, 0x9b27a401);
    v := Go(block, words, 7, v, 0xab1c5ed5, 0x00000000, 0x85a07b5f, 0x0c657a79);
  }

  lemma Rounds1(block: Bytes, words: seq<Word32>)
    requires Words(block, words) && Words0(words) && Rounds(INITIAL, block, 8) ==
      Hash(0x85a07b5f, 0xe5030380, 0x2b4209f5, 0x04409a6a, 0x0c657a79, 0x9b27a401, 0x714260ad, 0x43ada245)
    ensures Rounds(INITIAL, block, 16) ==
      Hash(0xb0fa238e, 0xc0645fde, 0xd932eb16, 0x87912990, 0x07590dcd, 0x0b92f20c, 0x745a48de, 0x1e578218)
  {
    hide Schedule, Rounds, Constant, Words;
    Length(block, words);
    Constants1();
    var v := Hash(0x85a07b5f, 0xe5030380, 0x2b4209f5, 0x04409a6a, 0x0c657a79, 0x9b27a401, 0x714260ad, 0x43ada245);
    v := Go(block, words, 8, v, 0xd807aa98, 0x00000000, 0x8e04ecb9, 0x32ca2d8c);
    v := Go(block, words, 9, v, 0x12835b01, 0x00000000, 0x8c87346b, 0x1cc92596);
    v := Go(block, words, 10, v, 0x243185be, 0x00000000, 0x4798a3f4, 0x436b23e8);
    v := Go(block, words, 11, v, 0x550c7dc3, 0x00000000, 0xf71fc5a9, 0x816fd6e9);
    v := Go(block, words, 12, v, 0x72be5d74, 0x00000000, 0x87912990, 0x1e578218);
    v := Go(block, words, 13, v, 0x80deb1fe, 0x00000000, 0xd932eb16, 0x745a48de);
    v := Go(block, words, 14, v, 0x9bdc06a7, 0x00000000, 0xc0645fde, 0x0b92f20c);
    v := Go(block, words, 15, v, 0xc19bf174, 0x00000018, 0xb0fa238e, 0x07590dcd);
  }

  lemma Rounds2(block: Bytes, words: seq<Word32>)
    requires Words(block, words) && Words1(words) && Rounds(INITIAL, block, 16) ==
      Hash(0xb0fa238e, 0xc0645fde, 0xd932eb16, 0x87912990, 0x07590dcd, 0x0b92f20c, 0x745a48de, 0x1e578218)
    ensures Rounds(INITIAL, block, 24) ==
      Hash(0xc5d53d8d, 0xa7a3623f, 0xc2606d6d, 0x9dc68b63, 0xaa47c347, 0x49f5114a, 0xe1257970, 0x8ada8930)
  {
    hide Schedule, Rounds, Constant, Words;
    Length(block, words);
    Constants2();
    var v := Hash(0xb0fa238e, 0xc0645fde, 0xd932eb16, 0x87912990, 0x07590dcd, 0x0b92f20c, 0x745a48de, 0x1e578218);
    v := Go(block, words, 16, v, 0xe49b69c1, 0x61626380, 0x21da9a9b, 0x8034229c);
    v := Go(block, words, 17, v, 0xefbe4786, 0x000f0000, 0xc2fbd9d1, 0x846ee454);
    v := Go(block, words, 18, v, 0x0fc19dc6, 0x7da86405, 0xfe777bbf, 0xcc899961);
    v := Go(block, words, 19, v, 0x240ca1cc, 0x600003c6, 0xe1f20c33, 0xb0638179);
    v := Go(block, words, 20, v, 0x2de92c6f, 0x3e9d7b78, 0x9dc68b63, 0x8ada8930);
    v := Go(block, words, 21, v, 0x4a7484aa, 0x0183fc00, 0xc2606d6d, 0xe1257970);
    v := Go(block, words, 22, v, 0x5cb0a9dc, 0x12dcbfdb, 0xa7a3623f, 0x49f5114a);
    v := Go(block, words, 23, v, 0x76f988da, 0xe2e2c38e, 0xc5d53d8d, 0xaa47c347);
  }

  lemma Rounds3(block: Bytes, words: seq<Word32>)
    requires Words(block, words) && Words1(words) && Rounds(INITIAL, block, 24) ==
      Hash(0xc5d53d8d, 0xa7a3623f, 0xc2606d6d, 0x9dc68b63, 0xaa47c347, 0x49f5114a, 0xe1257970, 0x8ada8930)
    ensures Rounds(INITIAL, block, 32) ==
      Hash(0x73b33bf5, 0xea992a22, 0xa0060b30, 0x363482c9, 0xba591112, 0x0109ab3a, 0xade79437, 0x6112a3b7)
  {
    hide Schedule, Rounds, Constant, Words;
    Length(block, words);
    Constants3();
    var v := Hash(0xc5d53d8d, 0xa7a3623f, 0xc2606d6d, 0x9dc68b63, 0xaa47c347, 0x49f5114a, 0xe1257970, 0x8ada8930);
    v := Go(block, words, 24, v, 0x983e5152, 0xc8215c1a, 0x1c2c2838, 0x2823ef91);
    v := Go(block, words, 25, v, 0xa831c66d, 0xb73679a2, 0xcde8037d, 0x14383d8e);
    v := Go(block, words, 26, v, 0xb00327c8, 0xe5bc3909, 0xb62ec4bc, 0xc74c6516);
    v := Go(block, words, 27, v, 0xbf597fc7, 0x32663c5b, 0x77d37528, 0xedffbff8);
    v := Go(block, words, 28, v, 0xc6e00bf3, 0x9d209d67, 0x363482c9, 0x6112a3b7);
    v := Go(block, words, 29, v, 0xd5a79147, 0xec8726cb, 0xa0060b30, 0xade79437);
    v := Go(block, words, 30, v, 0x06ca6351, 0x702138a4, 0xea992a22, 0x0109ab3a);
    v := Go(block, words, 31, v, 0x14292967, 0xd3b7973b, 0x73b33bf5, 0xba591112);
  }

  lemma Rounds4(block: Bytes, words: seq<Word32>)
    requires Words(block, words) && Words2(words) && Rounds(INITIAL, block, 32) ==
      Hash(0x73b33bf5, 0xea992a22, 0xa0060b30, 0x363482c9, 0xba591112, 0x0109ab3a, 0xade79437, 0x6112a3b7)
    ensures Rounds(INITIAL, block, 40) ==
      Hash(0x79ea687a, 0x6dc57a8a, 0x34df1604, 0x41a65cb1, 0x1efbc0a0, 0xf0781bc8, 0xa507a53d, 0x0772a26b)
  {
    hide Schedule, Rounds, Constant, Words;
    Length(block, words);
    Constants4();
    var v := Hash(0x73b33bf5, 0xea992a22, 0xa0060b30, 0x363482c9, 0xba591112, 0x0109ab3a, 0xade79437, 0x6112a3b7);
    v := Go(block, words, 32, v, 0x27b70a85, 0x93f5997f, 0x98e12507, 0x9cd9f5f6);
    v := Go(block, words, 33, v, 0x2e1b2138, 0x3b68ba73, 0xfe604df5, 0x59249dd3);
    v := Go(block, words, 34, v, 0x4d2c6dfc, 0xaff4ffc1, 0xa9a7738c, 0x085f3833);
    v := Go(block, words, 35, v, 0x53380d13, 0xf10a5c62, 0x65a0cfe4, 0xf4b002d6);
    v := Go(block, words, 36, v, 0x650a7354, 0x0a8b3996, 0x41a65cb1, 0x0772a26b);
    v := Go(block, words, 37, v, 0x766a0abb, 0x72af830a, 0x34df1604, 0xa507a53d);
    v := Go(block, words, 38, v, 0x81c2c92e, 0x9409e33e, 0x6dc57a8a, 0xf0781bc8);
    v := Go(block, words, 39, v, 0x92722c85, 0x24641522, 0x79ea687a, 0x1efbc0a0);
  }

  lemma Rounds5(block: Bytes, words: seq<Word32>)
    requires Words(block, words) && Words2(words) && Rounds(INITIAL, block, 40) ==
      Hash(0x79ea687a, 0x6dc57a8a, 0x34df1604, 0x41a65cb1, 0x1efbc0a0, 0xf0781bc8, 0xa507a53d, 0x0772a26b)
    ensures Rounds(INITIAL, block, 48) ==
      Hash(0x4172328d, 0xa14c14b0, 0x72ab4b91, 0x26628815, 0xfecf0bc6, 0xd57b94a9, 0xb7755da1, 0xa80f11f0)
  {
    hide Schedule, Rounds, Constant, Words;
    Length(block, words);
    Constants5();
    var v := Hash(0x79ea687a, 0x6dc57a8a, 0x34df1604, 0x41a65cb1, 0x1efbc0a0, 0xf0781bc8, 0xa507a53d, 0x0772a26b);
    v := Go(block, words, 40, v, 0xa2bfe8a1, 0x9f47bf94, 0xd6670766, 0x26352d63);
    v := Go(block, words, 41, v, 0xa81a664b, 0xf0a64f5a, 0xdf46652f, 0x838b2711);
    v := Go(block, words, 42, v, 0xc24b8b70, 0x3e246a79, 0x17aa0dfe, 0xdecd4715);
    v := Go(block, words, 43, v, 0xc76c51a3, 0x27333ba3, 0x9d4baf93, 0xfda24c2e);
    v := Go(block, words, 44, v, 0xd192e819, 0x0c4763f2, 0x26628815, 0xa80f11f0);
    v := Go(block, words, 45, v, 0xd6990624, 0x840abf27, 0x72ab4b91, 0xb7755da1);
    v := Go(block, words, 46, v, 0xf40e3585, 0x7a290d5d, 0xa14c14b0, 0xd57b94a9);
    v := Go(block, words, 47, v, 0x106aa070, 0x065c43da, 0x4172328d, 0xfecf0bc6);
  }

  lemma Rounds6(block: Bytes, words: seq<Word32>)
    requires Words(block, words) && Words3(words) && Rounds(INITIAL, block, 48) ==
      Hash(0x4172328d, 0xa14c14b0, 0x72ab4b91, 0x26628815, 0xfecf0bc6, 0xd57b94a9, 0xb7755da1, 0xa80f11f0)
    ensures Rounds(INITIAL, block, 56) ==
      Hash(0x38cc9913, 0x3ec45cdb, 0xf5702fdb, 0x101fd28f, 0x54cb266b, 0xe50e1b4f, 0x9f4787c3, 0x529e7d00)
  {
    hide Schedule, Rounds, Constant, Words;
    Length(block, words);
    Constants6();
    var v := Hash(0x4172328d, 0xa14c14b0, 0x72ab4b91, 0x26628815, 0xfecf0bc6, 0xd57b94a9, 0xb7755da1, 0xa80f11f0);
    v := Go(block, words, 48, v, 0x19a4c116, 0xfb3e89cb, 0x05757ceb, 0xbd714038);
    v := Go(block, words, 49, v, 0x1e376c08, 0xcc7617db, 0xf11bfaa8, 0x6e5c390c);
    v := Go(block, words, 50, v, 0x2748774c, 0xb9e66c34, 0x7a0508a1, 0x52f1ccf7);
    v := Go(block, words, 51, v, 0x34b0bcb5, 0xa9993667, 0x886e7a22, 0x49231c1e);
    v := Go(block, words, 52, v, 0x391c0cb3, 0x84badedd, 0x101fd28f, 0x529e7d00);
    v := Go(block, words, 53, v, 0x4ed8aa4a, 0xc21462bc, 0xf5702fdb, 0x9f4787c3);
    v := Go(block, words, 54, v, 0x5b9cca4f, 0x1487472c, 0x3ec45cdb, 0xe50e1b4f);
    v := Go(block, words, 55, v, 0x682e6ff3, 0xb20f7a99, 0x38cc9913, 0x54cb266b);
  }

  lemma Rounds7(block: Bytes, words: seq<Word32>)
    requires Words(block, words) && Words3(words) && Rounds(INITIAL, block, 56) ==
      Hash(0x38cc9913, 0x3ec45cdb, 0xf5702fdb, 0x101fd28f, 0x54cb266b, 0xe50e1b4f, 0x9f4787c3, 0x529e7d00)
    ensures Rounds(INITIAL, block, 64) ==
      Hash(0x506e3058, 0xd39a2165, 0x04d24d6c, 0xb85e2ce9, 0x5ef50f24, 0xfb121210, 0x948d25b6, 0x961f4894)
  {
    hide Schedule, Rounds, Constant, Words;
    Length(block, words);
    Constants7();
    var v := Hash(0x38cc9913, 0x3ec45cdb, 0xf5702fdb, 0x101fd28f, 0x54cb266b, 0xe50e1b4f, 0x9f4787c3, 0x529e7d00);
    v := Go(block, words, 56, v, 0x748f82ee, 0xef57b9cd, 0xfcd1887b, 0x9b5e906c);
    v := Go(block, words, 57, v, 0x78a5636f, 0xebe6b238, 0xc062d46f, 0x7e44008e);
    v := Go(block, words, 58, v, 0x84c87814, 0x9fe3095e, 0xffb70472, 0x6d83bfc6);
    v := Go(block, words, 59, v, 0x8cc70208, 0x78bc8d4b, 0xb6ae8fff, 0xb21bad3d);
    v := Go(block, words, 60, v, 0x90befffa, 0xa43fcf15, 0xb85e2ce9, 0x961f4894);
    v := Go(block, words, 61, v, 0xa4506ceb, 0x668b2ff8, 0x04d24d6c, 0x948d25b6);
    v := Go(block, words, 62, v, 0xbef9a3f7, 0xeeaba2cc, 0xd39a2165, 0xfb121210);
    v := Go(block, words, 63, v, 0xc67178f2, 0x12b1edeb, 0x506e3058, 0x5ef50f24);
  }

  lemma Constants0()
    ensures Constant(0) == 0x428a2f98 && Constant(1) == 0x71374491 && Constant(2) == 0xb5c0fbcf && Constant(3) == 0xe9b5dba5
    ensures Constant(4) == 0x3956c25b && Constant(5) == 0x59f111f1 && Constant(6) == 0x923f82a4 && Constant(7) == 0xab1c5ed5
  {
  }

  lemma Constants1()
    ensures Constant(8) == 0xd807aa98 && Constant(9) == 0x12835b01 && Constant(10) == 0x243185be && Constant(11) == 0x550c7dc3
    ensures Constant(12) == 0x72be5d74 && Constant(13) == 0x80deb1fe && Constant(14) == 0x9bdc06a7 && Constant(15) == 0xc19bf174
  {
  }

  lemma Constants2()
    ensures Constant(16) == 0xe49b69c1 && Constant(17) == 0xefbe4786 && Constant(18) == 0x0fc19dc6 && Constant(19) == 0x240ca1cc
    ensures Constant(20) == 0x2de92c6f && Constant(21) == 0x4a7484aa && Constant(22) == 0x5cb0a9dc && Constant(23) == 0x76f988da
  {
  }

  lemma Constants3()
    ensures Constant(24) == 0x983e5152 && Constant(25) == 0xa831c66d && Constant(26) == 0xb00327c8 && Constant(27) == 0xbf597fc7
    ensures Constant(28) == 0xc6e00bf3 && Constant(29) == 0xd5a79147 && Constant(30) == 0x06ca6351 && Constant(31) == 0x14292967
  {
  }

  lemma Constants4()
    ensures Constant(32) == 0x27b70a85 && Constant(33) == 0x2e1b2138 && Constant(34) == 0x4d2c6dfc && Constant(35) == 0x53380d13
    ensures Constant(36) == 0x650a7354 && Constant(37) == 0x766a0abb && Constant(38) == 0x81c2c92e && Constant(39) == 0x92722c85
  {
  }

  lemma Constants5()
    ensures Constant(40) == 0xa2bfe8a1 && Constant(41) == 0xa81a664b && Constant(42) == 0xc24b8b70 && Constant(43) == 0xc76c51a3
    ensures Constant(44) == 0xd192e819 && Constant(45) == 0xd6990624 && Constant(46) == 0xf40e3585 && Constant(47) == 0x106aa070
  {
  }

  lemma Constants6()
    ensures Constant(48) == 0x19a4c116 && Constant(49) == 0x1e376c08 && Constant(50) == 0x2748774c && Constant(51) == 0x34b0bcb5
    ensures Constant(52) == 0x391c0cb3 && Constant(53) == 0x4ed8aa4a && Constant(54) == 0x5b9cca4f && Constant(55) == 0x682e6ff3
  {
  }

  lemma Constants7()
    ensures Constant(56) == 0x748f82ee && Constant(57) == 0x78a5636f && Constant(58) == 0x84c87814 && Constant(59) == 0x8cc70208
    ensures Constant(60) == 0x90befffa && Constant(61) == 0xa4506ceb && Constant(62) == 0xbef9a3f7 && Constant(63) == 0xc67178f2
  {
  }

  // ----- the digest

  lemma AbcCompressed(block: Bytes)
    requires AbcBlock(block)
    ensures Compress(INITIAL, block) == Hash(0xba7816bf, 0x8f01cfea, 0x414140de, 0x5dae2223, 0xb00361a3, 0x96177a9c, 0xb410ff61, 0xf20015ad)
  {
    hide Rounds, Round, Schedule;
    var words := SomeWords(block);
    FirstWords(block, words);
    MoreWords1(block, words);
    MoreWords2(block, words);
    MoreWords3(block, words);
    NoRounds(block);
    Rounds0(block, words);
    Rounds1(block, words);
    Rounds2(block, words);
    Rounds3(block, words);
    Rounds4(block, words);
    Rounds5(block, words);
    Rounds6(block, words);
    Rounds7(block, words);
  }

  lemma NoRounds(block: Bytes)
    requires |block| == 64
    ensures Rounds(INITIAL, block, 0) == INITIAL
  {
  }

  /** The text of a digest, word by word. */
  lemma WordByWord(v: Hash, i: nat, x: Word32, p: nat)
    requires i < 8 && p < 8 && x == WordAt(v, i)
    ensures |HexText(v)| == 64
    ensures HexText(v)[i * 8 + p] == if p % 2 == 0 then HighDigit(DigestByte(x, p / 2)) else LowDigit(DigestByte(x, p / 2))
  {
    hide WordAt, DigestByte, HighDigit, LowDigit;
    assert (i * 8 + p) / 8 == i && (i * 8 + p) / 2 % 4 == p / 2;
  }

  lemma TextOf(v: Hash, i: nat, x: Word32, s: string)
    requires i < 8 && x == WordAt(v, i) && |s| == 8
    requires s[0] == HighDigit(DigestByte(x, 0)) && s[1] == LowDigit(DigestByte(x, 0))
    requires s[2] == HighDigit(DigestByte(x, 1)) && s[3] == LowDigit(DigestByte(x, 1))
    requires s[4] == HighDigit(DigestByte(x, 2)) && s[5] == LowDigit(DigestByte(x, 2))
    requires s[6] == HighDigit(DigestByte(x, 3)) && s[7] == LowDigit(DigestByte(x, 3))
    ensures |HexText(v)| == 64 && HexText(v)[i * 8..i * 8 + 8] == s
  {
    hide WordAt, DigestByte, HighDigit, LowDigit, HexText;
    WordByWord(v, i, x, 0);
    var t := HexText(v)[i * 8..i * 8 + 8];
    forall p: nat | p < 8
      ensures t[p] == s[p]
    {
      WordByWord(v, i, x, p);
    }
  }

  lemma AbcText(v: Hash)
    requires v == Hash(0xba7816bf, 0x8f01cfea, 0x414140de, 0x5dae2223, 0xb00361a3, 0x96177a9c, 0xb410ff61, 0xf20015ad)
    ensures HexText(v) == "ba7816bf" + "8f01cfea" + "414140de" + "5dae2223" + "b00361a3" + "96177a9c" + "b410ff61" + "f20015ad"
  {
    hide HexText, DigestByte, HighDigit, LowDigit;
    AbcText0(v);
    AbcText1(v);
    AbcText2(v);
    AbcText3(v);
    AbcText4(v);
    AbcText5(v);
    AbcText6(v);
    AbcText7(v);
    var t := HexText(v);
    assert t == t[..8] + t[8..16] + t[16..24] + t[24..32] + t[32..40] + t[40..48] + t[48..56] + t[56..64];
  }

  lemma AbcText0(v: Hash)
    requires WordAt(v, 0) == 0xba7816bf
    ensures |HexText(v)| == 64 && HexText(v)[0..8] == "ba7816bf"
  {
    hide HexText, WordAt;
    TextOf(v, 0, 0xba7816bf, "ba7816bf");
  }

  lemma AbcText1(v: Hash)
    requires WordAt(v, 1) == 0x8f01cfea
    ensures |HexText(v)| == 64 && HexText(v)[8..16] == "8f01cfea"
  {
    hide HexText, WordAt;
    TextOf(v, 1, 0x8f01cfea, "8f01cfea");
  }

  lemma AbcText2(v: Hash)
    requires WordAt(v, 2) == 0x414140de
    ensures |HexText(v)| == 64 && HexText(v)[16..24] == "414140de"
  {
    hide HexText, WordAt;
    TextOf(v, 2, 0x414140de, "414140de");
  }

  lemma AbcText3(v: Hash)
    requires WordAt(v, 3) == 0x5dae2223
    ensures |HexText(v)| == 64 && HexText(v)[24..32] == "5dae2223"
  {
    hide HexText, WordAt;
    TextOf(v, 3, 0x5dae2223, "5dae2223");
  }

  lemma AbcText4(v: Hash)
    requires WordAt(v, 4) == 0xb00361a3
    ensures |HexText(v)| == 64 && HexText(v)[32..40] == "b00361a3"
  {
    hide HexText, WordAt;
    TextOf(v, 4, 0xb00361a3, "b00361a3");
  }

  lemma AbcText5(v: Hash)
    requires WordAt(v, 5) == 0x96177a9c
    ensures |HexText(v)| == 64 && HexText(v)[40..48] == "96177a9c"
  {
    hide HexText, WordAt;
    TextOf(v, 5, 0x96177a9c, "96177a9c");
  }

  lemma AbcText6(v: Hash)
    requires WordAt(v, 6) == 0xb410ff61
    ensures |HexText(v)| == 64 && HexText(v)[48..56] == "b410ff61"
  {
    hide HexText, WordAt;
    TextOf(v, 6, 0xb410ff61, "b410ff61");
  }

  lemma AbcText7(v: Hash)
    requires WordAt(v, 7) == 0xf20015ad
    ensures |HexText(v)| == 64 && HexText(v)[56..64] == "f20015ad"
  {
    hide HexText, WordAt;
    TextOf(v, 7, 0xf20015ad, "f20015ad");
  }

  /** SHA-256 of abc. */
  lemma AbcDigest()
    ensures HexText(Digest(ABC)) ==
      "ba7816bf" + "8f01cfea" + "414140de" + "5dae2223" + "b00361a3" + "96177a9c" + "b410ff61" + "f20015ad"
  {
    hide Padded, Compress, HexText;
    var block := Padded(ABC);
    AbcPadded();
    AbcCompressed(block);
    OneBlock(INITIAL, block);
    AbcText(Digest(ABC));
  }

  lemma OneBlock(v: Hash, block: Bytes)
    requires |block| == 64
    ensures Blocks(v, block) == Compress(v, block)
  {
    hide Compress;
    assert block[..64] == block && block[64..] == [];
  }
}
