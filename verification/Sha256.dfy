/** SHA-256 as tools/gener-source-preparer.c computes it, block by block from a buffer, against
    the definition of FIPS 180-4 on the padded message. */
module Sha256 {
  import opened ByteStrings

  type Word32 = bv32

  // ----- functions and constants: sections 4.1.2, 4.2.2 and 5.3.3 of FIPS 180-4

  function RotateRight(x: Word32, n: bv6): Word32
    requires 0 < n < 32
  {
    (x >> n) | (x << (32 - n))
  }

  /** Addition modulo 2^32. */
  function Plus(x: Word32, y: Word32): Word32 { x + y }

  function Choose(x: Word32, y: Word32, z: Word32): Word32 { (x & y) ^ (!x & z) }

  function Majority(x: Word32, y: Word32, z: Word32): Word32 { (x & y) ^ (x & z) ^ (y & z) }

  function UpperA(x: Word32): Word32 { RotateRight(x, 2) ^ RotateRight(x, 13) ^ RotateRight(x, 22) }

  function UpperE(x: Word32): Word32 { RotateRight(x, 6) ^ RotateRight(x, 11) ^ RotateRight(x, 25) }

  function LowerFirst(x: Word32): Word32 { RotateRight(x, 7) ^ RotateRight(x, 18) ^ (x >> 3) }

  function LowerSecond(x: Word32): Word32 { RotateRight(x, 17) ^ RotateRight(x, 19) ^ (x >> 10) }

  const CONSTANTS: seq<Word32> :=
    [0x428a2f98, 0x71374491, 0xb5c0fbcf, 0xe9b5dba5, 0x3956c25b, 0x59f111f1, 0x923f82a4, 0xab1c5ed5] +
    [0xd807aa98, 0x12835b01, 0x243185be, 0x550c7dc3, 0x72be5d74, 0x80deb1fe, 0x9bdc06a7, 0xc19bf174] +
    [0xe49b69c1, 0xefbe4786, 0x0fc19dc6, 0x240ca1cc, 0x2de92c6f, 0x4a7484aa, 0x5cb0a9dc, 0x76f988da] +
    [0x983e5152, 0xa831c66d, 0xb00327c8, 0xbf597fc7, 0xc6e00bf3, 0xd5a79147, 0x06ca6351, 0x14292967] +
    [0x27b70a85, 0x2e1b2138, 0x4d2c6dfc, 0x53380d13, 0x650a7354, 0x766a0abb, 0x81c2c92e, 0x92722c85] +
    [0xa2bfe8a1, 0xa81a664b, 0xc24b8b70, 0xc76c51a3, 0xd192e819, 0xd6990624, 0xf40e3585, 0x106aa070] +
    [0x19a4c116, 0x1e376c08, 0x2748774c, 0x34b0bcb5, 0x391c0cb3, 0x4ed8aa4a, 0x5b9cca4f, 0x682e6ff3] +
    [0x748f82ee, 0x78a5636f, 0x84c87814, 0x8cc70208, 0x90befffa, 0xa4506ceb, 0xbef9a3f7, 0xc67178f2]

  /** A hash value, and the working variables a to h. */
  datatype Hash = Hash(a: Word32, b: Word32, c: Word32, d: Word32, e: Word32, f: Word32, g: Word32, h: Word32)

  const INITIAL := Hash(0x6a09e667, 0xbb67ae85, 0x3c6ef372, 0xa54ff53a, 0x510e527f, 0x9b05688c, 0x1f83d9ab, 0x5be0cd19)

  // ----- the hash computation: section 6.2.2

  function BigEndianWord(block: Bytes, at: nat): Word32
    requires at + 4 <= |block|
  {
    ((block[at] as Word32) << 24) | ((block[at + 1] as Word32) << 16) | ((block[at + 2] as Word32) << 8) | (block[at + 3] as Word32)
  }

  /** The message schedule. */
  function Schedule(block: Bytes, t: nat): Word32
    requires |block| == 64 && t < 64
  {
    if t < 16 then BigEndianWord(block, t * 4)
    else
      Plus(Plus(Plus(Schedule(block, t - 16), LowerFirst(Schedule(block, t - 15))), Schedule(block, t - 7)),
           LowerSecond(Schedule(block, t - 2)))
  }

  function Round(v: Hash, k: Word32, w: Word32): Hash {
    var first := Plus(Plus(Plus(Plus(v.h, UpperE(v.e)), Choose(v.e, v.f, v.g)), k), w);
    var second := Plus(UpperA(v.a), Majority(v.a, v.b, v.c));
    Hash(Plus(first, second), v.a, v.b, v.c, Plus(v.d, first), v.e, v.f, v.g)
  }

  function Rounds(v: Hash, block: Bytes, t: nat): Hash
    requires |block| == 64 && t <= 64
  {
    if t == 0 then v else Round(Rounds(v, block, t - 1), CONSTANTS[t - 1], Schedule(block, t - 1))
  }

  function Add(x: Hash, y: Hash): Hash {
    Hash(Plus(x.a, y.a), Plus(x.b, y.b), Plus(x.c, y.c), Plus(x.d, y.d),
         Plus(x.e, y.e), Plus(x.f, y.f), Plus(x.g, y.g), Plus(x.h, y.h))
  }

  function Compress(v: Hash, block: Bytes): Hash
    requires |block| == 64
  {
    Add(v, Rounds(v, block, 64))
  }

  /** All whole blocks of a message, in order. */
  function Blocks(v: Hash, m: Bytes): Hash
    decreases |m|
  {
    if |m| < 64 then v else Blocks(Compress(v, m[..64]), m[64..])
  }

  // ----- padding: section 5.1.1

  function BigEndian(v: nat, n: nat): (r: Bytes)
    ensures |r| == n
  {
    if n == 0 then [] else BigEndian(v / 256, n - 1) + [v % 256]
  }

  function Zeros(n: nat): (r: Bytes)
    ensures |r| == n && forall i | 0 <= i < n :: r[i] == 0
  {
    seq(n, i => 0)
  }

  /** The least number of zero bytes that leaves room for the length at the end of a block. */
  function PadZeros(length: nat): (k: nat)
    ensures (length + 1 + k + 8) % 64 == 0 && k < 64
  {
    (119 - length % 64) % 64
  }

  function Padded(m: Bytes): Bytes {
    m + PadTail(|m|)
  }

  function PadTail(length: nat): Bytes {
    [0x80] + (Zeros(PadZeros(length)) + LengthField(length))
  }

  /** The length in bits, as far as 64 bits hold it. */
  function Bits(length: nat): (n: nat)
    ensures n <= MAX64
  {
    length * 8 % 0x1_0000_0000_0000_0000
  }

  lemma MoreBits(a: nat, b: nat)
    ensures (Bits(a) + b * 8) % 0x1_0000_0000_0000_0000 == Bits(a + b)
  {
  }

  function LengthField(length: nat): Bytes {
    BigEndian(Bits(length), 8)
  }

  function Digest(m: Bytes): Hash {
    Blocks(INITIAL, Padded(m))
  }

  // ----- blocks one at a time

  /** A block added behind whole blocks. */
  lemma {:induction false} BlocksAppend(v: Hash, m: Bytes, block: Bytes)
    requires |m| % 64 == 0 && |block| == 64
    ensures Blocks(v, m + block) == Compress(Blocks(v, m), block)
    decreases |m|
  {
    hide Compress;
    if m == [] {
      assert m + block == block && block[..64] == block && block[64..] == [];
    } else {
      BlocksAppend(Compress(v, m[..64]), m[64..], block);
      assert (m + block)[..64] == m[..64] && (m + block)[64..] == m[64..] + block;
    }
  }

  /** The part of a message that fills whole blocks. */
  function Whole(m: Bytes): (r: Bytes)
    ensures |r| % 64 == 0 && |r| <= |m| < |r| + 64
  {
    m[..|m| - |m| % 64]
  }

  lemma WholeAndRest(m: Bytes)
    ensures m == Whole(m) + m[|Whole(m)|..]
  {
  }

  lemma WholeIs(m: Bytes, front: Bytes, rest: Bytes)
    requires m == front + rest && |front| % 64 == 0 && |rest| < 64
    ensures Whole(m) == front && m[|Whole(m)|..] == rest
  {
    assert |m| % 64 == |rest|;
  }

  lemma {:induction false} BigEndianAt(v: nat, n: nat, i: nat)
    requires i < n
    ensures BigEndian(v, n)[n - 1 - i] == ShiftBytes(v, i) % 256
    decreases n
  {
    if i > 0 {
      BigEndianAt(v / 256, n - 1, i - 1);
    }
  }

  lemma Cut(m: Bytes, data: Bytes, at: nat, amount: nat)
    requires at + amount <= |data|
    ensures m + data[..at + amount] == (m + data[..at]) + data[at..at + amount]
  {
  }

  /** struct sha256_context */
  class Context {
    var state: Hash
    var bitCount: nat
    const block: array<Byte>
    var blockSize: nat

    /** The context after a message. */
    ghost predicate Absorbed(m: Bytes)
      reads this, block
    {
      && block.Length == 64 && blockSize == |m| % 64
      && state == Blocks(INITIAL, Whole(m))
      && block[..blockSize] == m[|Whole(m)|..]
      && bitCount == Bits(|m|)
    }

    // sha256_init
    constructor ()
      ensures Absorbed([]) && fresh(block)
    {
      state, bitCount, blockSize := INITIAL, 0, 0;
      block := new Byte[64];
    }

    // sha256_transform
    method Transform()
      requires block.Length == 64
      modifies this`state
      ensures state == Compress(old(state), block[..])
    {
      hide Add, Rounds, Schedule;
      var words := MakeSchedule(block[..]);
      var v := RunRounds(state, words, block[..]);
      state := Add(state, v);
    }

    /** The context after a message, but for the count of its bits. */
    ghost predicate Buffered(m: Bytes)
      reads this`state, this`blockSize, block
    {
      && block.Length == 64 && blockSize == |m| % 64
      && state == Blocks(INITIAL, Whole(m)) && block[..blockSize] == m[|Whole(m)|..]
    }

    /** sha256_update: however a message is cut into pieces, the context is the one for the
        whole of it. */
    method Update(data: Bytes, ghost m: Bytes)
      requires Absorbed(m)
      modifies this, block
      ensures Absorbed(m + data)
    {
      hide Blocks, Compress, Whole, Buffered, Bits;
      Loaded(m);
      MoreBits(|m|, |data|);
      bitCount := (bitCount + |data| * 8) % 0x1_0000_0000_0000_0000;
      var at := 0;
      assert m + data[..0] == m;
      while at != |data|
        invariant 0 <= at <= |data| && Buffered(m + data[..at]) && blockSize < 64
        invariant bitCount == Bits(|m| + |data|)
      {
        var available := 64 - blockSize;
        var amount := if |data| - at < available then |data| - at else available;
        Cut(m, data, at, amount);
        Take(data[at..at + amount], m + data[..at]);
        at := at + amount;
      }
      assert data[..at] == data;
      Unloaded(m + data);
    }

    lemma Loaded(m: Bytes)
      requires Absorbed(m)
      ensures Buffered(m) && blockSize < 64
    {
    }

    lemma Unloaded(m: Bytes)
      requires Buffered(m) && bitCount == Bits(|m|)
      ensures Absorbed(m)
    {
    }

    /** One round of its loop: fill the buffer, and empty it when it is full. */
    method Take(piece: Bytes, ghost m: Bytes)
      requires Buffered(m) && 0 < |piece| <= 64 - blockSize
      modifies this`state, this`blockSize, block
      ensures Buffered(m + piece) && blockSize < 64
    {
      hide Blocks, Compress, Whole;
      ghost var rest := block[..blockSize];
      assert m[|Whole(m)|..] == rest && m == Whole(m) + rest by {
        WholeAndRest(m);
      }
      forall i | 0 <= i < |piece| {
        block[blockSize + i] := piece[i];
      }
      blockSize := blockSize + |piece|;
      assert block[..blockSize] == rest + piece;
      assert m + piece == Whole(m) + (rest + piece);
      if blockSize == 64 {
        WholeIs(m + piece, Whole(m) + (rest + piece), []);
        BlocksAppend(INITIAL, Whole(m), rest + piece);
        assert block[..] == rest + piece;
        Transform();
        blockSize := 0;
      } else {
        WholeIs(m + piece, Whole(m), rest + piece);
      }
    }

    /** memset from the end of the buffered bytes. */
    method ZeroFill(end: nat)
      requires block.Length == 64 && blockSize <= end <= 64
      modifies block
      ensures block[..] == old(block[..blockSize]) + Zeros(end - blockSize) + old(block[end..])
    {
      forall i | blockSize <= i < end {
        block[i] := 0;
      }
    }

    /** The bit count at the end of the block, most significant byte first. */
    method PutLength()
      requires block.Length == 64 && bitCount <= MAX64
      modifies block
      ensures block[..] == old(block[..56]) + BigEndian(bitCount, 8)
    {
      hide ShiftBytes, BigEndian;
      ghost var was, digits := block[..56], BigEndian(bitCount, 8);
      var index := 0;
      while index != 8
        invariant 0 <= index <= 8 && block[..56] == was
        invariant forall k | 64 - index <= k < 64 :: block[k] == digits[k - 56]
      {
        BigEndianAt(bitCount, 8, index);
        block[63 - index] := ShiftBytes(bitCount, index) % 256;
        index := index + 1;
      }
      assert block[..] == was + digits;
    }

    /** The end of sha256_hex before the digits: the padding, in one block or two. */
    method Finish(ghost m: Bytes)
      requires Absorbed(m)
      modifies this`state, this`blockSize, block
      ensures state == Digest(m)
    {
      hide Blocks, Compress, BigEndian, Zeros, Digest;
      ghost var rest := block[..blockSize];
      assert m == Whole(m) + rest && |m| % 64 == |rest| && BigEndian(bitCount, 8) == LengthField(|m|);
      block[blockSize] := 0x80;
      blockSize := blockSize + 1;
      assert block[..blockSize] == rest + [0x80];
      if blockSize > 56 {
        FinishTwo(m, rest);
      } else {
        FinishOne(m, rest);
      }
    }

    /** The length still fits the block. */
    method FinishOne(ghost m: Bytes, ghost rest: Bytes)
      requires block.Length == 64 && m == Whole(m) + rest && blockSize == |rest| + 1 <= 56
      requires block[..blockSize] == rest + [0x80] && state == Blocks(INITIAL, Whole(m)) && bitCount == Bits(|m|)
      modifies this`state, block
      ensures state == Digest(m)
    {
      hide Blocks, Compress, Padded, PadTail, BigEndian, Zeros, Whole, Bits;
      ZeroFill(56);
      assert block[..56] == rest + [0x80] + Zeros(55 - |rest|);
      PutLength();
      PaddedShort(m, rest, block[..]);
      BlocksAppend(INITIAL, Whole(m), block[..]);
      Transform();
    }

    /** It does not: another block takes the length. */
    method FinishTwo(ghost m: Bytes, ghost rest: Bytes)
      requires block.Length == 64 && m == Whole(m) + rest && 56 < blockSize == |rest| + 1 <= 64
      requires block[..blockSize] == rest + [0x80] && state == Blocks(INITIAL, Whole(m)) && bitCount == Bits(|m|)
      modifies this`state, this`blockSize, block
      ensures state == Digest(m)
    {
      hide Blocks, Compress, Padded, PadTail, BigEndian, Zeros, Whole, Bits;
      ZeroFill(64);
      ghost var full := block[..];
      assert full == rest + [0x80] + Zeros(63 - |rest|);
      BlocksAppend(INITIAL, Whole(m), full);
      Transform();
      blockSize := 0;
      ZeroFill(56);
      assert block[..56] == Zeros(56);
      PutLength();
      PaddedLong(m, rest, full, block[..]);
      BlocksAppend(INITIAL, Whole(m) + full, block[..]);
      Transform();
    }
  }

  lemma RestSize(m: Bytes, rest: Bytes)
    requires m == Whole(m) + rest && |rest| < 64
    ensures |m| % 64 == |rest|
  {
  }

  lemma PadSize(length: nat, r: nat)
    requires length % 64 == r
    ensures PadZeros(length) == if r <= 55 then 55 - r else 119 - r
  {
  }

  lemma PaddedShort(m: Bytes, rest: Bytes, last: Bytes)
    requires m == Whole(m) + rest && |rest| <= 55
    requires last == rest + [0x80] + Zeros(55 - |rest|) + LengthField(|m|)
    ensures Padded(m) == Whole(m) + last
  {
    hide LengthField, Zeros, Whole, PadZeros;
    RestSize(m, rest);
    PadSize(|m|, |rest|);
    OneBlock(Whole(m), rest, [0x80], Zeros(55 - |rest|), LengthField(|m|));
  }

  lemma OneBlock(a: Bytes, b: Bytes, c: Bytes, d: Bytes, e: Bytes)
    ensures (a + b) + (c + (d + e)) == a + (b + c + d + e)
  {
  }

  lemma ZerosSplit(k: nat, n: nat)
    ensures Zeros(k + n) == Zeros(k) + Zeros(n)
  {
  }

  lemma PaddedLong(m: Bytes, rest: Bytes, full: Bytes, last: Bytes)
    requires m == Whole(m) + rest && 55 < |rest| < 64
    requires full == rest + [0x80] + Zeros(63 - |rest|)
    requires last == Zeros(56) + LengthField(|m|)
    ensures Padded(m) == Whole(m) + full + last
  {
    hide LengthField, Zeros, Whole, PadZeros;
    RestSize(m, rest);
    PadSize(|m|, |rest|);
    ZerosSplit(63 - |rest|, 56);
    TwoBlocks(Whole(m), rest, [0x80], Zeros(63 - |rest|), Zeros(56), LengthField(|m|));
  }

  lemma TwoBlocks(a: Bytes, b: Bytes, c: Bytes, d: Bytes, d': Bytes, e: Bytes)
    ensures (a + b) + (c + ((d + d') + e)) == a + (b + c + d) + (d' + e)
  {
  }

  lemma ScheduleStep(block: Bytes, t: nat)
    requires |block| == 64 && t < 64
    ensures Schedule(block, t) ==
      if t < 16 then BigEndianWord(block, t * 4)
      else Plus(Plus(Plus(Schedule(block, t - 16), LowerFirst(Schedule(block, t - 15))), Schedule(block, t - 7)),
                LowerSecond(Schedule(block, t - 2)))
  {
    hide Plus, LowerFirst, LowerSecond, BigEndianWord;
  }

  /** The first two loops of sha256_transform. */
  method MakeSchedule(block: Bytes) returns (words: array<Word32>)
    requires |block| == 64
    ensures fresh(words) && words.Length == 64 && forall k | 0 <= k < 64 :: words[k] == Schedule(block, k)
  {
    hide LowerFirst, LowerSecond, BigEndianWord, Schedule, Plus;
    words := new Word32[64];
    var index := 0;
    while index != 16
      invariant 0 <= index <= 16 && forall k | 0 <= k < index :: words[k] == Schedule(block, k)
    {
      ScheduleStep(block, index);
      words[index] := BigEndianWord(block, index * 4);
      index := index + 1;
    }
    while index != 64
      invariant 16 <= index <= 64 && forall k | 0 <= k < index :: words[k] == Schedule(block, k)
    {
      ScheduleStep(block, index);
      var first := LowerFirst(words[index - 15]);
      var second := LowerSecond(words[index - 2]);
      words[index] := Plus(Plus(Plus(words[index - 16], first), words[index - 7]), second);
      index := index + 1;
    }
  }

  /** The third loop of sha256_transform. */
  method RunRounds(start: Hash, words: array<Word32>, ghost block: Bytes) returns (v: Hash)
    requires |block| == 64 && words.Length == 64 && forall k | 0 <= k < 64 :: words[k] == Schedule(block, k)
    ensures v == Rounds(start, block, 64)
  {
    hide Schedule, Round;
    v := start;
    var index := 0;
    while index != 64
      invariant 0 <= index <= 64 && v == Rounds(start, block, index)
    {
      v := OneRound(v, CONSTANTS[index], words[index]);
      index := index + 1;
    }
  }

  /** Its body, one variable after the other. */
  method OneRound(v: Hash, k: Word32, w: Word32) returns (r: Hash)
    ensures r == Round(v, k, w)
  {
    hide UpperA, UpperE, Choose, Majority, Plus;
    var a, b, c, d, e, f, g, h := v.a, v.b, v.c, v.d, v.e, v.f, v.g, v.h;
    var choose := Choose(e, f, g);
    var majority := Majority(a, b, c);
    var upperE := UpperE(e);
    var upperA := UpperA(a);
    var first := Plus(Plus(Plus(Plus(h, upperE), choose), k), w);
    var second := Plus(upperA, majority);
    h := g;
    g := f;
    f := e;
    e := Plus(d, first);
    d := c;
    c := b;
    b := a;
    a := Plus(first, second);
    r := Hash(a, b, c, d, e, f, g, h);
  }

  // ----- the digits

  function WordAt(v: Hash, i: nat): Word32
    requires i < 8
  {
    if i == 0 then v.a else if i == 1 then v.b else if i == 2 then v.c else if i == 3 then v.d
    else if i == 4 then v.e else if i == 5 then v.f else if i == 6 then v.g else v.h
  }

  /** The four bytes of a word, most significant first. */
  function DigestByte(x: Word32, k: nat): Word32
    requires k < 4
  {
    (if k == 0 then x >> 24 else if k == 1 then x >> 16 else if k == 2 then x >> 8 else x) & 255
  }

  function HexDigit(n: Word32): char {
    if n == 0 then '0' else if n == 1 then '1' else if n == 2 then '2' else if n == 3 then '3'
    else if n == 4 then '4' else if n == 5 then '5' else if n == 6 then '6' else if n == 7 then '7'
    else if n == 8 then '8' else if n == 9 then '9' else if n == 10 then 'a' else if n == 11 then 'b'
    else if n == 12 then 'c' else if n == 13 then 'd' else if n == 14 then 'e' else 'f'
  }

  function HighDigit(x: Word32): char { HexDigit(x >> 4) }

  function LowDigit(x: Word32): char { HexDigit(x & 15) }

  /** Two digits for each of the 32 bytes. */
  function HexText(v: Hash): string {
    seq(64, p requires 0 <= p < 64 =>
      var x := DigestByte(WordAt(v, p / 8), p / 2 % 4);
      if p % 2 == 0 then HighDigit(x) else LowDigit(x))
  }

  /** The loops at the end of sha256_hex. */
  method Digits(v: Hash) returns (output: string)
    ensures output == HexText(v)
  {
    hide DigestByte, HighDigit, LowDigit, WordAt;
    var digest := DigestOf(v);
    output := "";
    var index := 0;
    while index != 32
      invariant 0 <= index <= 32 && |output| == index * 2
      invariant forall p | 0 <= p < index * 2 :: output[p] == HexText(v)[p]
    {
      output := output + [HighDigit(digest[index]), LowDigit(digest[index])];
      index := index + 1;
    }
  }

  /** The byte i of a digest. */
  function DigestAt(v: Hash, i: nat): Word32
    requires i < 32
  {
    DigestByte(WordAt(v, i / 4), i % 4)
  }

  lemma DigestStep(v: Hash, index: nat, k: nat)
    requires index < 8 && k < 4
    ensures DigestAt(v, index * 4 + k) == DigestByte(WordAt(v, index), k)
  {
    hide DigestByte, WordAt;
    assert (index * 4 + k) / 4 == index && (index * 4 + k) % 4 == k;
  }

  /** The four bytes of one more word. */
  lemma DigestMore(v: Hash, digest: seq<Word32>, index: nat)
    requires index < 8 && |digest| == index * 4 && forall i | 0 <= i < index * 4 :: digest[i] == DigestAt(v, i)
    ensures var w := WordAt(v, index);
      var more := digest + [DigestByte(w, 0), DigestByte(w, 1), DigestByte(w, 2), DigestByte(w, 3)];
      forall i | 0 <= i < index * 4 + 4 :: more[i] == DigestAt(v, i)
  {
    hide DigestAt, DigestByte, WordAt;
    var w := WordAt(v, index);
    var four := [DigestByte(w, 0), DigestByte(w, 1), DigestByte(w, 2), DigestByte(w, 3)];
    forall i | index * 4 <= i < index * 4 + 4
      ensures four[i - index * 4] == DigestAt(v, i)
    {
      DigestStep(v, index, i - index * 4);
    }
  }

  method DigestOf(v: Hash) returns (digest: seq<Word32>)
    ensures |digest| == 32 && forall i | 0 <= i < 32 :: digest[i] == DigestAt(v, i)
  {
    hide DigestAt, DigestByte, WordAt;
    digest := [];
    var index := 0;
    while index != 8
      invariant 0 <= index <= 8 && |digest| == index * 4
      invariant forall i | 0 <= i < index * 4 :: digest[i] == DigestAt(v, i)
    {
      var word := WordAt(v, index);
      DigestMore(v, digest, index);
      digest := digest + [DigestByte(word, 0), DigestByte(word, 1), DigestByte(word, 2), DigestByte(word, 3)];
      index := index + 1;
    }
  }

  /** sha256_hex is the hexadecimal form of SHA-256; the length in the padding is the message
      length in bits as long as that fits 64 bits. */
  method Hex(text: Bytes) returns (output: string)
    ensures output == HexText(Digest(text))
    ensures |output| == 64
  {
    var context := new Context();
    context.Update(text, []);
    assert [] + text == text;
    context.Finish(text);
    output := Digits(context.state);
  }
}
