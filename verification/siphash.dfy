/** `SipHash_2_4`: SipHash with two compression rounds and four
    finalisation rounds (Aumasson and Bernstein, "SipHash: a fast
    short-input PRF", section 2), on 64-bit words. A Java `long` is held as
    its bit pattern, a `bv64`, and a Java `byte` as a `bv8`; Java's signed
    view of a byte matters only where the code widens it to a `long`. */
module SipHash {
  import opened Wrappers

  const PRIME0: bv64 := 0x736f6d6570736575
  const PRIME1: bv64 := 0x646f72616e646f6d
  const PRIME2: bv64 := 0x6c7967656e657261
  const PRIME3: bv64 := 0x7465646279746573

  /** The four state words of an instance. */
  datatype State = State(v0: bv64, v1: bv64, v2: bv64, v3: bv64)

  /** `(x << k) | (x >>> (64 - k))`, as the code writes a rotation. */
  function ShiftOr(x: bv64, k: bv64): bv64
    requires 0 < k < 64
  {
    (x << k) | (x >> (64 - k))
  }

  /** Each shift-or pair the round uses is a left rotation. */
  lemma ShiftOrRotates(x: bv64)
    ensures ShiftOr(x, 13) == x.RotateLeft(13) && ShiftOr(x, 16) == x.RotateLeft(16)
    ensures ShiftOr(x, 17) == x.RotateLeft(17) && ShiftOr(x, 21) == x.RotateLeft(21)
    ensures ShiftOr(x, 32) == x.RotateLeft(32)
  {
  }

  /** `sipRound` (lines 127-143): the add-rotate-xor schedule with
      rotations 13, 32, 16, 21, 17 and 32. */
  function SipRound(s: State): State {
    var a0 := s.v0 + s.v1;
    var a1 := ShiftOr(s.v1, 13) ^ a0;
    var b0 := ShiftOr(a0, 32);
    var b2 := s.v2 + s.v3;
    var b3 := ShiftOr(s.v3, 16) ^ b2;
    var c0 := b0 + b3;
    var c3 := ShiftOr(b3, 21) ^ c0;
    var c2 := b2 + a1;
    var c1 := ShiftOr(a1, 17) ^ c2;
    State(c0, c1, ShiftOr(c2, 32), c3)
  }

  /** `setSeed(k0, k1)` (lines 64-70). The key can be read back from the
      first two words. */
  function SetSeed(k0: bv64, k1: bv64): (s: State)
    ensures s.v0 ^ PRIME0 == k0 && s.v1 ^ PRIME1 == k1
  {
    State(PRIME0 ^ k0, PRIME1 ^ k1, PRIME2 ^ k0, PRIME3 ^ k1)
  }

  /** The last two words carry the key too, each under its own constant. */
  lemma SeedFillsAllWords(k0: bv64, k1: bv64)
    ensures SetSeed(k0, k1).v2 ^ PRIME2 == k0
    ensures SetSeed(k0, k1).v3 ^ PRIME3 == k1
  {
  }

  /** Different keys give different states. */
  lemma SetSeedInjective(k0: bv64, k1: bv64, j0: bv64, j1: bv64)
    requires SetSeed(k0, k1) == SetSeed(j0, j1)
    ensures k0 == j0 && k1 == j1
  {
  }

  /** `(long) b`: Java sign-extends a byte when it widens it. */
  function Widen(b: bv8): (w: bv64)
    ensures w & 0xFF == b as bv64
    ensures b < 0x80 ==> w == b as bv64
    ensures b >= 0x80 ==> w >> 8 == 0x00FF_FFFF_FFFF_FFFF
  {
    if b < 0x80 then b as bv64 else (b as bv64) | 0xFFFF_FFFF_FFFF_FF00
  }

  /** Byte `k` of a word, counting from the least significant. */
  function ByteOf(w: bv64, k: nat): bv8
    requires k < 8
  {
    (match k
     case 0 => w & 0xFF
     case 1 => (w >> 8) & 0xFF
     case 2 => (w >> 16) & 0xFF
     case 3 => (w >> 24) & 0xFF
     case 4 => (w >> 32) & 0xFF
     case 5 => (w >> 40) & 0xFF
     case 6 => (w >> 48) & 0xFF
     case _ => (w >> 56) & 0xFF) as bv8
  }

  /** `bytesToLong` (lines 113-124): eight bytes, each widened and masked
      back to eight bits before it is shifted into place. */
  function BytesToLong(buf: seq<bv8>, off: int): bv64
    requires 0 <= off && off + 8 <= |buf|
  {
    ((Widen(buf[off + 7]) & 0xFF) << 56)
    | ((Widen(buf[off + 6]) & 0xFF) << 48)
    | ((Widen(buf[off + 5]) & 0xFF) << 40)
    | ((Widen(buf[off + 4]) & 0xFF) << 32)
    | ((Widen(buf[off + 3]) & 0xFF) << 24)
    | ((Widen(buf[off + 2]) & 0xFF) << 16)
    | ((Widen(buf[off + 1]) & 0xFF) << 8)
    | (Widen(buf[off]) & 0xFF)
  }

  /** `bytesToLong` is little-endian: byte `off + k` lands in bits
      `8k .. 8k + 7`, whatever its sign. */
  lemma BytesToLongIsLittleEndian(buf: seq<bv8>, off: int)
    requires 0 <= off && off + 8 <= |buf|
    ensures ByteOf(BytesToLong(buf, off), 0) == buf[off]
    ensures ByteOf(BytesToLong(buf, off), 1) == buf[off + 1]
    ensures ByteOf(BytesToLong(buf, off), 2) == buf[off + 2]
    ensures ByteOf(BytesToLong(buf, off), 3) == buf[off + 3]
    ensures ByteOf(BytesToLong(buf, off), 4) == buf[off + 4]
    ensures ByteOf(BytesToLong(buf, off), 5) == buf[off + 5]
    ensures ByteOf(BytesToLong(buf, off), 6) == buf[off + 6]
    ensures ByteOf(BytesToLong(buf, off), 7) == buf[off + 7]
  {
  }

  /** The same, for a byte position that is not a literal. */
  lemma BytePlaced(buf: seq<bv8>, off: int, k: nat)
    requires 0 <= off && off + 8 <= |buf| && k < 8
    ensures ByteOf(BytesToLong(buf, off), k) == buf[off + k]
  {
    BytesToLongIsLittleEndian(buf, off);
  }

  /** The bytes of a word, little-endian. */
  function LongToBytes(w: bv64): (b: seq<bv8>)
    ensures |b| == 8
  {
    [ByteOf(w, 0), ByteOf(w, 1), ByteOf(w, 2), ByteOf(w, 3), ByteOf(w, 4), ByteOf(w, 5), ByteOf(w, 6), ByteOf(w, 7)]
  }

  /** Reading back the bytes of a word gives the word. */
  lemma BytesToLongRoundTrip(w: bv64)
    ensures BytesToLong(LongToBytes(w), 0) == w
  {
  }

  /** Reading eight bytes and writing them back gives the bytes. */
  lemma LongToBytesRoundTrip(buf: seq<bv8>, off: int)
    requires 0 <= off && off + 8 <= |buf|
    ensures LongToBytes(BytesToLong(buf, off)) == buf[off..off + 8]
  {
    forall k | 0 <= k < 8
      ensures LongToBytes(BytesToLong(buf, off))[k] == buf[off..off + 8][k]
    {
      BytePlaced(buf, off, k);
    }
  }

  /** Why `setSeed(byte[])` refuses a seed. */
  datatype SeedError = NullSeed | BadLength

  /** `setSeed(byte[])` (lines 52-61): a null seed or one whose length is
      not 16 is refused; otherwise bytes 0-7 and 8-15 are the two key
      words. */
  function SetSeedBytes(seed: Option<seq<bv8>>): (r: Result<State, SeedError>)
    ensures seed.None? <==> r == Failure(NullSeed)
    ensures r == Failure(BadLength) <==> seed.Some? && |seed.value| != 16
    ensures r.Success? ==>
      r.value.v0 ^ PRIME0 == BytesToLong(seed.value, 0) && r.value.v1 ^ PRIME1 == BytesToLong(seed.value, 8)
  {
    match seed
    case None => Failure(NullSeed)
    case Some(bytes) =>
      if |bytes| != 16 then Failure(BadLength)
      else Success(SetSeed(BytesToLong(bytes, 0), BytesToLong(bytes, 8)))
  }

  /** The byte form of a key and the word form agree: writing the two key
      words out little-endian and seeding from the bytes is seeding from
      the words. */
  lemma SeedBytesRoundTrip(k0: bv64, k1: bv64)
    ensures SetSeedBytes(Some(LongToBytes(k0) + LongToBytes(k1))) == Success(SetSeed(k0, k1))
  {
    var b := LongToBytes(k0) + LongToBytes(k1);
    assert b[..8] == LongToBytes(k0);
    assert b[8..] == LongToBytes(k1);
    BytesToLongRoundTrip(k0);
    BytesToLongRoundTrip(k1);
    SameBytesSameWord(b, 0, LongToBytes(k0), 0);
    SameBytesSameWord(b, 8, LongToBytes(k1), 0);
  }

  /** `bytesToLong` reads nothing but its eight bytes. */
  lemma SameBytesSameWord(a: seq<bv8>, i: int, b: seq<bv8>, j: int)
    requires 0 <= i && i + 8 <= |a| && 0 <= j && j + 8 <= |b|
    requires a[i..i + 8] == b[j..j + 8]
    ensures BytesToLong(a, i) == BytesToLong(b, j)
  {
    SliceWord(a, i);
    SliceWord(b, j);
  }

  lemma SliceWord(a: seq<bv8>, i: int)
    requires 0 <= i && i + 8 <= |a|
    ensures BytesToLong(a, i) == BytesToLong(a[i..i + 8], 0)
  {
  }

  /** Absorbing one message word (lines 87-91, and 99-102 for the last
      one). */
  function Compress(s: State, m: bv64): State {
    var t := SipRound(SipRound(s.(v3 := s.v3 ^ m)));
    t.(v0 := t.v0 ^ m)
  }

  /** `length & -8`: the length rounded down to a multiple of 8; for a
      negative length that is a negative multiple. */
  function Len8(length: int): (r: int)
    ensures r <= length < r + 8 && r % 8 == 0
  {
    length - length % 8
  }

  /** How many full words the loop at lines 85-92 absorbs. */
  function Blocks(length: int): (b: nat)
    ensures length >= 0 ==> b == length / 8
    ensures length < 0 ==> b == 0
  {
    if Len8(length) > 0 then Len8(length) / 8 else 0
  }

  /** Where `n` stands when the full-word loop exits: at `end8`, or at
      `offset` when the loop never ran. */
  function TailStart(offset: int, length: int): (n: int)
    ensures n == offset + 8 * Blocks(length)
  {
    var end8 := offset + Len8(length);
    if offset < end8 then end8 else offset
  }

  /** Every array element the code reads exists; an index outside the
      array would throw instead. */
  predicate InBounds(data: seq<bv8>, offset: int, length: int) {
    (Blocks(length) > 0 ==> 0 <= offset && TailStart(offset, length) <= |data|)
    && (TailStart(offset, length) < length ==> 0 <= TailStart(offset, length) && length <= |data|)
  }

  /** The full-word loop (lines 85-92): `b` words read at `n`, `n + 8`,
      ...; the loop runs `Blocks(length)` times from `offset`. */
  function Absorb(s: State, data: seq<bv8>, n: int, b: nat): State
    requires b > 0 ==> 0 <= n && n + 8 * b <= |data|
    decreases b
  {
    if b == 0 then s
    else Absorb(Compress(s, BytesToLong(data, n)), data, n + 8, b - 1)
  }

  /** The tail loop as written (lines 96-97): `n` runs up to `length`, not
      up to `offset + length`, and each byte is sign-extended, not masked,
      before it is ORed in at bit `i`. The shift counter is a Java `int`
      and a `long` shift uses its low six bits. */
  function TailAsWritten(data: seq<bv8>, n: int, length: int, i: bv32, acc: bv64): bv64
    requires n < length ==> 0 <= n && length <= |data|
    decreases length - n
  {
    if n >= length then acc
    else TailAsWritten(data, n + 1, length, i + 8, acc | (Widen(data[n]) << (i & 63)))
  }

  /** `(((long) length) & 0xFF) << 56`: the length modulo 256 in the top
      byte. Dafny's `%` is never negative, which is what the mask gives
      for a negative length. */
  function LengthByte(length: int): bv64 {
    ((length % 256) as bv64) << 56
  }

  /** The finalisation (lines 99-109): absorb the last word, flip the low
      byte of `v2`, four rounds, and fold the state into the result, which
      is also kept in `v0`. */
  function Finalise(s: State, last: bv64): (r: (bv64, State))
    ensures r.1.v0 == r.0
  {
    var t := Compress(s, last);
    var u := SipRound(SipRound(SipRound(SipRound(t.(v2 := t.v2 ^ 0xFF)))));
    var h := u.v0 ^ u.v1 ^ u.v2 ^ u.v3;
    (h, u.(v0 := h))
  }

  /** `hash(data, offset, length)` (lines 79-110) as written. The instance
      state is not reset: the result comes with the state the next call
      starts from, whose `v0` is the result. */
  function Hash(s: State, data: seq<bv8>, offset: int, length: int): (r: (bv64, State))
    requires InBounds(data, offset, length)
    ensures r.1.v0 == r.0
  {
    var absorbed := Absorb(s, data, offset, Blocks(length));
    var last := TailAsWritten(data, TailStart(offset, length), length, 0, LengthByte(length));
    Finalise(absorbed, last)
  }

  /** `hash(data)` (lines 73-76): the whole array from offset 0. */
  function HashAll(s: State, data: seq<bv8>): (r: (bv64, State))
    ensures r == Hash(s, data, 0, |data|)
  {
    Hash(s, data, 0, |data|)
  }

  // ---------------------------------------------------------------------
  // SipHash-2-4 as section 2 of the paper defines it on a message: the
  // message is cut into little-endian words; the last word holds the
  // remaining bytes, zero padding, and the length modulo 256 in its top
  // byte.

  /** The `b` words read at `off`, `off + 8`, ... */
  function WordsAt(data: seq<bv8>, off: int, b: nat): (ws: seq<bv64>)
    requires b > 0 ==> 0 <= off && off + 8 * b <= |data|
    ensures |ws| == b
    decreases b
  {
    if b == 0 then [] else [BytesToLong(data, off)] + WordsAt(data, off + 8, b - 1)
  }

  function CompressAll(s: State, ws: seq<bv64>): State
    decreases |ws|
  {
    if |ws| == 0 then s else CompressAll(Compress(s, ws[0]), ws[1..])
  }

  /** The last block of a message as bytes. */
  function Padded(msg: seq<bv8>): (p: seq<bv8>)
    ensures |p| == 8
  {
    var tail := msg[8 * (|msg| / 8)..];
    tail + seq(7 - |tail|, _ => 0) + [(|msg| % 256) as bv8]
  }

  function LastWord(msg: seq<bv8>): bv64 {
    BytesToLong(Padded(msg), 0)
  }

  /** The reference value of SipHash-2-4 on a message. */
  function Reference(s: State, msg: seq<bv8>): (r: (bv64, State))
    ensures r.1.v0 == r.0
  {
    Finalise(CompressAll(s, WordsAt(msg, 0, |msg| / 8)), LastWord(msg))
  }

  /** The last word holds the remaining bytes in order, zeros after them,
      and the length modulo 256 in its top byte. */
  lemma LastWordLayout(msg: seq<bv8>)
    ensures ByteOf(LastWord(msg), 7) == (|msg| % 256) as bv8
    ensures forall k :: 0 <= k < |msg| % 8 ==> ByteOf(LastWord(msg), k) == msg[8 * (|msg| / 8) + k]
    ensures forall k :: |msg| % 8 <= k < 7 ==> ByteOf(LastWord(msg), k) == 0
  {
    var p := Padded(msg);
    BytesToLongIsLittleEndian(p, 0);
    forall k | 0 <= k < 8
      ensures ByteOf(LastWord(msg), k) == p[k]
    {
      BytePlaced(p, 0, k);
    }
  }

  /** Two messages shorter than a word with the same last word are the
      same message: the last word loses nothing. */
  lemma LastWordDeterminesTail(m1: seq<bv8>, m2: seq<bv8>)
    requires |m1| < 8 && |m2| < 8
    requires LastWord(m1) == LastWord(m2)
    ensures m1 == m2
  {
    var p1, p2 := Padded(m1), Padded(m2);
    LongToBytesRoundTrip(p1, 0);
    LongToBytesRoundTrip(p2, 0);
    assert p1 == p1[0..8] && p2 == p2[0..8];
    PaddedDeterminesTail(m1, m2);
  }

  lemma PaddedDeterminesTail(m1: seq<bv8>, m2: seq<bv8>)
    requires |m1| < 8 && |m2| < 8
    requires Padded(m1) == Padded(m2)
    ensures m1 == m2
  {
    assert Padded(m1)[7] == (|m1| % 256) as bv8;
    assert Padded(m2)[7] == (|m2| % 256) as bv8;
    SmallLengthByte(|m1|, |m2|);
    assert m1 == Padded(m1)[..|m1|];
    assert m2 == Padded(m2)[..|m2|];
  }

  lemma SmallLengthByte(a: nat, b: nat)
    requires a < 8 && b < 8 && (a % 256) as bv8 == (b % 256) as bv8
    ensures a == b
  {
  }

  /** The full-word loop absorbs exactly the words the message is cut into,
      in order. */
  lemma {:induction false} AbsorbIsCompressAll(s: State, data: seq<bv8>, n: int, b: nat)
    requires b > 0 ==> 0 <= n && n + 8 * b <= |data|
    ensures Absorb(s, data, n, b) == CompressAll(s, WordsAt(data, n, b))
    decreases b
  {
    if b > 0 {
      AbsorbIsCompressAll(Compress(s, BytesToLong(data, n)), data, n + 8, b - 1);
    }
  }

  /** `hash` absorbs the `length / 8` full words read from `offset` on (none
      for a negative length), then finalises with the word the tail loop
      builds. */
  lemma HashAbsorbsWholeWords(s: State, data: seq<bv8>, offset: int, length: int)
    requires InBounds(data, offset, length)
    ensures Hash(s, data, offset, length) ==
      Finalise(CompressAll(s, WordsAt(data, offset, Blocks(length))),
               TailAsWritten(data, TailStart(offset, length), length, 0, LengthByte(length)))
  {
    AbsorbIsCompressAll(s, data, offset, Blocks(length));
  }

  /** With no bytes left over, the top-byte length word is the padded last
      block. */
  lemma LengthByteIsLastBlock(msg: seq<bv8>)
    requires |msg| % 8 == 0
    ensures LengthByte(|msg|) == LastWord(msg)
  {
    var b := (|msg| % 256) as bv8;
    assert Padded(msg) == [0, 0, 0, 0, 0, 0, 0, b];
    LengthByteIsByte(|msg|);
    TopByteWord(b);
  }

  lemma LengthByteIsByte(length: int)
    ensures LengthByte(length) == (((length % 256) as bv8) as bv64) << 56
  {
  }

  lemma TopByteWord(b: bv8)
    ensures BytesToLong([0, 0, 0, 0, 0, 0, 0, b], 0) == (b as bv64) << 56
  {
  }

  /** On a whole number of words the code computes the reference value. */
  lemma AgreesOnWholeWords(s: State, data: seq<bv8>)
    requires |data| % 8 == 0
    ensures HashAll(s, data) == Reference(s, data)
  {
    HashAbsorbsWholeWords(s, data, 0, |data|);
    LengthByteIsLastBlock(data);
  }

  /** The message of the test vector of appendix A of the paper: the
      bytes 00 01 .. 0e. */
  const VectorMessage: seq<bv8> := [0, 1, 2, 3, 4, 5, 6, 7, 8, 9, 10, 11, 12, 13, 14]

  /** Its key, 00 01 .. 0f, and the value the paper gives. */
  const VectorKey: State := SetSeed(0x0706050403020100, 0x0f0e0d0c0b0a0908)
  const VectorHash: bv64 := 0xa129ca6149be45e5

  /** The two words the vector's message is absorbed as. */
  lemma VectorFirstWord()
    ensures BytesToLong(VectorMessage, 0) == 0x0706050403020100
  {
  }

  lemma VectorTailWord(msg: seq<bv8>)
    requires msg == VectorMessage
    ensures TailAsWritten(msg, 8, 15, 0, LengthByte(15)) == 0x0f0e0d0c0b0a0908
  {
    assert LengthByte(15) == 0x0f00000000000000;
    assert TailAsWritten(msg, 8, 15, 0, 0x0f00000000000000) == TailAsWritten(msg, 9, 15, 8, 0x0f00000000000008);
    assert TailAsWritten(msg, 9, 15, 8, 0x0f00000000000008) == TailAsWritten(msg, 10, 15, 16, 0x0f00000000000908);
    assert TailAsWritten(msg, 10, 15, 16, 0x0f00000000000908) == TailAsWritten(msg, 11, 15, 24, 0x0f000000000a0908);
    assert TailAsWritten(msg, 11, 15, 24, 0x0f000000000a0908) == TailAsWritten(msg, 12, 15, 32, 0x0f0000000b0a0908);
    assert TailAsWritten(msg, 12, 15, 32, 0x0f0000000b0a0908) == TailAsWritten(msg, 13, 15, 40, 0x0f00000c0b0a0908);
    assert TailAsWritten(msg, 13, 15, 40, 0x0f00000c0b0a0908) == TailAsWritten(msg, 14, 15, 48, 0x0f000d0c0b0a0908);
    assert TailAsWritten(msg, 14, 15, 48, 0x0f000d0c0b0a0908) == TailAsWritten(msg, 15, 15, 56, 0x0f0e0d0c0b0a0908);
  }

  lemma VectorPadding(msg: seq<bv8>)
    requires msg == VectorMessage
    ensures Padded(msg) == [8, 9, 10, 11, 12, 13, 14, 15]
  {
    assert msg[8..] == [8, 9, 10, 11, 12, 13, 14];
    assert (|msg| % 256) as bv8 == 15;
  }

  lemma VectorLastWord(msg: seq<bv8>)
    requires msg == VectorMessage
    ensures LastWord(msg) == 0x0f0e0d0c0b0a0908
  {
    VectorPadding(msg);
    var p := Padded(msg);
    assert Widen(p[0]) == 8 && Widen(p[1]) == 9 && Widen(p[2]) == 10 && Widen(p[3]) == 11;
    assert Widen(p[4]) == 12 && Widen(p[5]) == 13 && Widen(p[6]) == 14 && Widen(p[7]) == 15;
  }

  lemma VectorRounds()
    ensures Finalise(Compress(VectorKey, 0x0706050403020100), 0x0f0e0d0c0b0a0908).0 == VectorHash
  {
  }

  /** A message of one to two words is one full word and a tail, for the
      code ... */
  lemma OneWordThenTail(key: State, msg: seq<bv8>)
    requires 8 <= |msg| < 16
    ensures HashAll(key, msg) ==
      Finalise(Compress(key, BytesToLong(msg, 0)), TailAsWritten(msg, 8, |msg|, 0, LengthByte(|msg|)))
  {
    AbsorbOneWord(key, msg);
  }

  lemma AbsorbOneWord(key: State, msg: seq<bv8>)
    requires 8 <= |msg| < 16
    ensures Absorb(key, msg, 0, Blocks(|msg|)) == Compress(key, BytesToLong(msg, 0))
    ensures TailStart(0, |msg|) == 8
  {
    assert Blocks(|msg|) == 1;
  }

  lemma RefStateOneWord(key: State, msg: seq<bv8>)
    requires 8 <= |msg| < 16
    ensures CompressAll(key, WordsAt(msg, 0, |msg| / 8)) == Compress(key, BytesToLong(msg, 0))
  {
    assert WordsAt(msg, 0, |msg| / 8) == [BytesToLong(msg, 0)];
  }

  /** ... and for the reference definition. */
  lemma ReferenceOneWord(key: State, msg: seq<bv8>)
    requires 8 <= |msg| < 16
    ensures Reference(key, msg) == Finalise(Compress(key, BytesToLong(msg, 0)), LastWord(msg))
  {
    RefStateOneWord(key, msg);
  }

  /** The code gives the paper's value on the test vector ... */
  lemma PaperVectorAsWritten(key: State, msg: seq<bv8>)
    requires key == VectorKey && msg == VectorMessage
    ensures HashAll(key, msg).0 == VectorHash
  {
    OneWordThenTail(key, msg);
    VectorFirstWord();
    VectorTailWord(msg);
    VectorRounds();
  }

  /** ... and so does the reference definition. */
  lemma PaperVectorReference(key: State, msg: seq<bv8>)
    requires key == VectorKey && msg == VectorMessage
    ensures Reference(key, msg).0 == VectorHash
  {
    ReferenceOneWord(key, msg);
    VectorFirstWord();
    VectorLastWord(msg);
    VectorRounds();
  }

  // ---------------------------------------------------------------------
  // The two slips of the tail loop.

  /** Sign extension: the bytes 0xFF and 0xFF 0xFF both leave an all-ones
      last word, so the two messages hash alike under every key. */
  lemma SignExtensionCollision(s: State)
    ensures HashAll(s, [0xFF]) == HashAll(s, [0xFF, 0xFF])
  {
    OneByteTail();
    TwoByteTail();
    AbsorbNoWord(s, [0xFF]);
    AbsorbNoWord(s, [0xFF, 0xFF]);
  }

  /** A message shorter than a word absorbs nothing before its tail. */
  lemma AbsorbNoWord(s: State, msg: seq<bv8>)
    requires |msg| < 8
    ensures Absorb(s, msg, 0, Blocks(|msg|)) == s
    ensures TailStart(0, |msg|) == 0
  {
  }

  lemma OneByteTail()
    ensures TailAsWritten([0xFF], 0, 1, 0, LengthByte(1)) == 0xFFFF_FFFF_FFFF_FFFF
  {
  }

  lemma TwoByteTail()
    ensures TailAsWritten([0xFF, 0xFF], 0, 2, 0, LengthByte(2)) == 0xFFFF_FFFF_FFFF_FFFF
  {
  }

  /** The bound `n < length`: with an offset, the tail loop starts past
      `length` and reads nothing, so bytes 4 to 7 never reach the hash. */
  lemma OffsetTailIgnored(s: State, d1: seq<bv8>, d2: seq<bv8>)
    requires |d1| >= 8 && |d2| >= 8
    ensures Hash(s, d1, 4, 4) == Hash(s, d2, 4, 4)
  {
  }

  /** `hash` with both slips corrected: the bytes masked, and the loop
      bounded by `offset + length`. It is the reference on the addressed
      slice. */
  function HashCorrected(s: State, data: seq<bv8>, offset: int, length: int): (r: (bv64, State))
    requires 0 <= offset && 0 <= length && offset + length <= |data|
    ensures r.1.v0 == r.0
  {
    Reference(s, data[offset..offset + length])
  }

  /** Corrected, two different messages shorter than a word get different
      last words, and the hash finalises exactly that word: `FF` and
      `FF FF` no longer share one. */
  lemma CorrectedSeparatesShortMessages(s: State, m1: seq<bv8>, m2: seq<bv8>)
    requires |m1| < 8 && |m2| < 8 && m1 != m2
    ensures HashCorrected(s, m1, 0, |m1|) == Finalise(s, LastWord(m1))
    ensures HashCorrected(s, m2, 0, |m2|) == Finalise(s, LastWord(m2))
    ensures LastWord(m1) != LastWord(m2)
  {
    assert m1[0..|m1|] == m1 && m2[0..|m2|] == m2;
    if LastWord(m1) == LastWord(m2) {
      LastWordDeterminesTail(m1, m2);
    }
  }

  /** Corrected, the four bytes at offset 4 reach the last word, and
      different bytes there give different last words. */
  lemma CorrectedReadsOffsetTail(s: State, d1: seq<bv8>, d2: seq<bv8>)
    requires |d1| >= 8 && |d2| >= 8 && d1[4..8] != d2[4..8]
    ensures HashCorrected(s, d1, 4, 4) == Finalise(s, LastWord(d1[4..8]))
    ensures HashCorrected(s, d2, 4, 4) == Finalise(s, LastWord(d2[4..8]))
    ensures LastWord(d1[4..8]) != LastWord(d2[4..8])
  {
    if LastWord(d1[4..8]) == LastWord(d2[4..8]) {
      LastWordDeterminesTail(d1[4..8], d2[4..8]);
    }
  }

  /** On a whole number of words the code was right: the corrected hash
      of the whole array is the code's. */
  lemma CorrectedAgreesOnWholeWords(s: State, data: seq<bv8>)
    requires |data| % 8 == 0
    ensures HashCorrected(s, data, 0, |data|) == HashAll(s, data)
  {
    assert data[0..|data|] == data;
    AgreesOnWholeWords(s, data);
  }

  /** The corrected hash reads the slice's own tail bytes into its last
      word, and the slice's length into its top byte. */
  lemma CorrectedReadsSlice(data: seq<bv8>, offset: int, length: int)
    requires 0 <= offset && 0 <= length && offset + length <= |data|
    ensures var w := LastWord(data[offset..offset + length]);
      ByteOf(w, 7) == (length % 256) as bv8
      && forall k :: 0 <= k < length % 8 ==> ByteOf(w, k) == data[offset + 8 * (length / 8) + k]
  {
    var m := data[offset..offset + length];
    LastWordLayout(m);
    forall k | 0 <= k < length % 8
      ensures ByteOf(LastWord(m), k) == data[offset + 8 * (length / 8) + k]
    {
      assert m[8 * (length / 8) + k] == data[offset + 8 * (length / 8) + k];
    }
  }
}
