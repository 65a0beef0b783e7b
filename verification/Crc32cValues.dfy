/** That the register is the one of CRC-32C, by value: the published generator polynomial and the check value of the
message "123456789". And what holds of messages in parts, and of messages that carry their own checksum. */
module Crc32cValues {
  import opened Laws
  import opened ShiftRegister
  import opened Crc32c

  // ----- machine words

  function Mask(i: nat): bv32 {
    match i
    case 0 => 0x1 case 1 => 0x2 case 2 => 0x4 case 3 => 0x8
    case 4 => 0x10 case 5 => 0x20 case 6 => 0x40 case 7 => 0x80
    case 8 => 0x100 case 9 => 0x200 case 10 => 0x400 case 11 => 0x800
    case 12 => 0x1000 case 13 => 0x2000 case 14 => 0x4000 case 15 => 0x8000
    case 16 => 0x10000 case 17 => 0x20000 case 18 => 0x40000 case 19 => 0x80000
    case 20 => 0x100000 case 21 => 0x200000 case 22 => 0x400000 case 23 => 0x800000
    case 24 => 0x1000000 case 25 => 0x2000000 case 26 => 0x4000000 case 27 => 0x8000000
    case 28 => 0x10000000 case 29 => 0x20000000 case 30 => 0x40000000 case 31 => 0x80000000
    case _ => 0
  }

  predicate Masked(c: bv32, m: bv32) { c & m != 0 }

  /** The bits of a machine word, lowest first. */
  function Bits(c: bv32): (w: Word) { BitsBy(Mask, c) }

  function BitsBy(ms: nat -> bv32, c: bv32): (w: Word)
  {
    seq(32, i requires 0 <= i < 32 => Masked(c, ms(i)))
  }

  predicate Single(m: bv32) { m & (m - 1) == 0 }

  predicate Double(m: bv32, n: bv32) { n == m << 1 }

  /** What the proofs need to know of the masks. */
  ghost predicate AreMasks(ms: nat -> bv32) {
    && ms(0) == 1 && ms(31) == 0x8000_0000
    && (forall i: nat, j: nat :: j == i + 1 < 32 ==> Double(ms(i), ms(j)))
    && (forall i: nat :: i < 32 ==> Single(ms(i)))
    && (forall i: nat :: i < 32 ==> Masked(0xffff_ffff, ms(i)))
    && (forall i: nat :: 8 <= i < 32 ==> !Masked(0xff, ms(i)))
    && (forall i: nat :: i < 32 ==> (POLY[i] <==> Masked(0x82f6_3b78, ms(i))))
  }

  lemma {:induction false} XorMasked(a: bv32, b: bv32, m: bv32)
    requires Single(m)
    ensures Masked(a ^ b, m) <==> Masked(a, m) != Masked(b, m)
  {
  }

  lemma {:induction false} XorBits(ms: nat -> bv32, a: bv32, b: bv32)
    requires AreMasks(ms)
    ensures BitsBy(ms, a ^ b) == Xor(BitsBy(ms, a), BitsBy(ms, b))
  {
    forall i | 0 <= i < 32 ensures BitsBy(ms, a ^ b)[i] == Xor(BitsBy(ms, a), BitsBy(ms, b))[i] {
      XorMasked(a, b, ms(i));
    }
  }

  lemma {:induction false} ShiftMasked(c: bv32, m: bv32, n: bv32)
    requires Double(m, n)
    ensures Masked(c >> 1, m) <==> Masked(c, n)
  {
  }

  lemma {:induction false} ShiftTop(c: bv32)
    ensures !Masked(c >> 1, 0x8000_0000)
  {
  }

  lemma {:induction false} ShrAt(w: Word, i: nat)
    requires i < 32
    ensures Shr(w, 1)[i] == (i < 31 && w[i + 1])
  {
  }

  lemma {:induction false} ShiftBits(ms: nat -> bv32, c: bv32)
    requires AreMasks(ms)
    ensures Shr(BitsBy(ms, c), 1) == BitsBy(ms, c >> 1)
  {
    forall i | 0 <= i < 32 ensures Shr(BitsBy(ms, c), 1)[i] == BitsBy(ms, c >> 1)[i] {
      ShrAt(BitsBy(ms, c), i);
      if i < 31 { ShiftMasked(c, ms(i), ms(i + 1)); } else { ShiftTop(c); }
    }
  }

  // ----- the generator polynomial

  /** The polynomial of CRC-32C, by its exponents below 32. */
  const EXPONENTS: set<int> := {28, 27, 26, 25, 23, 22, 20, 19, 18, 14, 13, 11, 10, 9, 8, 6, 0}

  /** Bit i of the constant is the coefficient of x^(31 - i). */
  lemma {:induction false} GeneratorIs(i: nat)
    requires i < 32
    ensures POLY[i] <==> 31 - i in EXPONENTS
  {
  }

  /** And the constant is 0x82f63b78. */
  lemma {:induction false} PolyValue()
    ensures POLY == Bits(0x82f6_3b78)
  {
    forall i | 0 <= i < 32 ensures POLY[i] == Bits(0x82f6_3b78)[i] {
      if i < 8 { PolyByte0(i); } else if i < 16 { PolyByte1(i); }
        else if i < 24 { PolyByte2(i); } else { PolyByte3(i); }
    }
  }

  lemma {:induction false} PolyByte0(i: nat)
    requires i < 8
    ensures POLY[i] <==> Masked(0x82f6_3b78, Mask(i))
  {
  }

  lemma {:induction false} PolyByte1(i: nat)
    requires 8 <= i < 16
    ensures POLY[i] <==> Masked(0x82f6_3b78, Mask(i))
  {
  }

  lemma {:induction false} PolyByte2(i: nat)
    requires 16 <= i < 24
    ensures POLY[i] <==> Masked(0x82f6_3b78, Mask(i))
  {
  }

  lemma {:induction false} PolyByte3(i: nat)
    requires 24 <= i < 32
    ensures POLY[i] <==> Masked(0x82f6_3b78, Mask(i))
  {
  }

  // ----- the masks are what they should be

  lemma {:induction false} Doubles(i: nat)
    requires i < 31
    ensures Double(Mask(i), Mask(i + 1))
  {
    EachDoubles();
  }

  lemma {:induction false} EachDoubles()
    ensures Double(Mask(0), Mask(1)) && Double(Mask(1), Mask(2)) && Double(Mask(2), Mask(3))
    ensures Double(Mask(3), Mask(4)) && Double(Mask(4), Mask(5)) && Double(Mask(5), Mask(6))
    ensures Double(Mask(6), Mask(7)) && Double(Mask(7), Mask(8)) && Double(Mask(8), Mask(9))
    ensures Double(Mask(9), Mask(10)) && Double(Mask(10), Mask(11)) && Double(Mask(11), Mask(12))
    ensures Double(Mask(12), Mask(13)) && Double(Mask(13), Mask(14)) && Double(Mask(14), Mask(15))
    ensures Double(Mask(15), Mask(16)) && Double(Mask(16), Mask(17)) && Double(Mask(17), Mask(18))
    ensures Double(Mask(18), Mask(19)) && Double(Mask(19), Mask(20)) && Double(Mask(20), Mask(21))
    ensures Double(Mask(21), Mask(22)) && Double(Mask(22), Mask(23)) && Double(Mask(23), Mask(24))
    ensures Double(Mask(24), Mask(25)) && Double(Mask(25), Mask(26)) && Double(Mask(26), Mask(27))
    ensures Double(Mask(27), Mask(28)) && Double(Mask(28), Mask(29)) && Double(Mask(29), Mask(30))
    ensures Double(Mask(30), Mask(31))
  {
  }

  lemma {:induction false} FirstSingle()
    ensures Single(1)
  {
  }

  lemma {:induction false} DoubleIsSingle(m: bv32, n: bv32)
    requires Single(m) && Double(m, n)
    ensures Single(n)
  {
  }

  lemma {:induction false} Singles(i: nat)
    requires i < 32
    ensures Single(Mask(i))
    decreases i
  {
    if i == 0 {
      FirstSingle();
    } else {
      Singles(i - 1);
      Doubles(i - 1);
      DoubleIsSingle(Mask(i - 1), Mask(i));
    }
  }

  lemma {:induction false} AllOnes(i: nat)
    requires i < 32
    ensures Masked(0xffff_ffff, Mask(i)) && (i >= 8 ==> !Masked(0xff, Mask(i)))
  {
  }

  lemma {:induction false} MasksAre()
    ensures AreMasks(Mask)
  {
    PolyValue();
    forall i: nat, j: nat | j == i + 1 < 32 ensures Double(Mask(i), Mask(j)) { Doubles(i); }
    forall i | 0 <= i < 32 ensures Single(Mask(i)) { Singles(i); }
    forall i | 0 <= i < 32 ensures Masked(0xffff_ffff, Mask(i)) { AllOnes(i); }
    forall i | 8 <= i < 32 ensures !Masked(0xff, Mask(i)) { AllOnes(i); }
    forall i | 0 <= i < 32 ensures POLY[i] <==> Masked(0x82f6_3b78, Mask(i)) {
      assert POLY[i] == Bits(0x82f6_3b78)[i];
    }
  }

  // ----- the check value

  function WordStep(c: bv32): bv32 {
    if c & 1 == 1 then (c >> 1) ^ 0x82f6_3b78 else c >> 1
  }

  lemma {:induction false} LowBit(c: bv32)
    ensures Masked(c, 1) <==> c & 1 == 1
  {
  }

  lemma {:induction false} StepBits(ms: nat -> bv32, c: bv32)
    requires AreMasks(ms)
    ensures Step(BitsBy(ms, c)) == BitsBy(ms, WordStep(c))
  {
    LowBit(c);
    ShiftBits(ms, c);
    XorBits(ms, c >> 1, 0x82f6_3b78);
    assert POLY == BitsBy(ms, 0x82f6_3b78);
  }

  function WordByte(c: bv32, b: bv32): bv32 {
    WordStep(WordStep(WordStep(WordStep(WordStep(WordStep(WordStep(WordStep(c ^ b))))))))
  }

  lemma {:induction false} ByteBits(ms: nat -> bv32, c: bv32, b: bv32)
    requires AreMasks(ms)
    ensures ByteStep(CRC, BitsBy(ms, c), BitsBy(ms, b)) == BitsBy(ms, WordByte(c, b))
  {
    var x0 := c ^ b;
    var x1 := WordStep(x0);
    var x2 := WordStep(x1);
    var x3 := WordStep(x2);
    var x4 := WordStep(x3);
    var x5 := WordStep(x4);
    var x6 := WordStep(x5);
    var x7 := WordStep(x6);
    XorBits(ms, c, b);
    EightSteps(BitsBy(ms, x0));
    StepBits(ms, x0);
    StepBits(ms, x1);
    StepBits(ms, x2);
    StepBits(ms, x3);
    StepBits(ms, x4);
    StepBits(ms, x5);
    StepBits(ms, x6);
    StepBits(ms, x7);
  }

  /** Machine bytes as the bytes of a message. */
  function Text(t: seq<bv32>): (bytes: seq<Byte>) { TextBy(Mask, t) }

  function TextBy(ms: nat -> bv32, t: seq<bv32>): (bytes: seq<Byte>)
    ensures |bytes| == |t|
  {
    seq(|t|, i requires 0 <= i < |t| => BitsBy(ms, t[i])[..8])
  }

  function WordRun(c: bv32, t: seq<bv32>): bv32 {
    if t == [] then c else WordByte(WordRun(c, t[..|t| - 1]), t[|t| - 1])
  }

  predicate IsByte(b: bv32) { b & 0xff == b }

  lemma {:induction false} BeyondByte(b: bv32, m: bv32)
    requires IsByte(b) && !Masked(0xff, m)
    ensures !Masked(b, m)
  {
  }

  lemma {:induction false} ByteIsEmbedded(ms: nat -> bv32, b: bv32)
    requires AreMasks(ms) && IsByte(b)
    ensures Embed(BitsBy(ms, b)[..8]) == BitsBy(ms, b)
  {
    forall i | 8 <= i < 32 ensures !BitsBy(ms, b)[i] { BeyondByte(b, ms(i)); }
  }

  lemma {:induction false} RunBits(ms: nat -> bv32, c: bv32, t: seq<bv32>)
    requires AreMasks(ms) && forall i :: 0 <= i < |t| ==> IsByte(t[i])
    ensures Run(CRC, BitsBy(ms, c), Words(TextBy(ms, t))) == BitsBy(ms, WordRun(c, t))
    decreases |t|
  {
    if t != [] {
      var k := |t| - 1;
      RunBits(ms, c, t[..k]);
      assert Words(TextBy(ms, t))[..k] == Words(TextBy(ms, t[..k]));
      ByteIsEmbedded(ms, t[k]);
      ByteBits(ms, WordRun(c, t[..k]), t[k]);
    }
  }

  lemma {:induction false} OnesAre(ms: nat -> bv32)
    requires AreMasks(ms)
    ensures Ones() == BitsBy(ms, 0xffff_ffff)
  {
  }

  lemma {:induction false} NoBit(m: bv32)
    ensures !Masked(0, m)
  {
  }

  lemma {:induction false} ZeroIs(ms: nat -> bv32)
    requires AreMasks(ms)
    ensures ZERO == BitsBy(ms, 0)
  {
    forall i | 0 <= i < 32 ensures !BitsBy(ms, 0)[i] { NoBit(ms(i)); }
  }

  /** The reference CRC of machine bytes, as a machine word. */
  lemma {:induction false} CrcBits(ms: nat -> bv32, c: bv32, t: seq<bv32>)
    requires AreMasks(ms) && forall i :: 0 <= i < |t| ==> IsByte(t[i])
    ensures Crc(BitsBy(ms, c), TextBy(ms, t)) == BitsBy(ms, WordRun(c ^ 0xffff_ffff, t) ^ 0xffff_ffff)
  {
    OnesAre(ms);
    XorBits(ms, c, 0xffff_ffff);
    RunIsBitwise(BitsBy(ms, c ^ 0xffff_ffff), TextBy(ms, t));
    RunBits(ms, c ^ 0xffff_ffff, t);
    XorBits(ms, WordRun(c ^ 0xffff_ffff, t), 0xffff_ffff);
  }

  /** The message "123456789". */
  const DIGITS: seq<bv32> := [0x31, 0x32, 0x33, 0x34, 0x35, 0x36, 0x37, 0x38, 0x39]

  /** The register before and after each digit. */
  const STATES: seq<bv32> := [
    0xffff_ffff, 0x6f0a_661c, 0x8caa_3b9f, 0xef84_d04d, 0x09c5_0b11, 0xe72e_dcca, 0xbeca_8e79, 0xedbd_6815, 0x9f78_7f65,
    0x1cf9_6d7c
  ]

  lemma {:induction false} DigitStep(k: nat)
    requires k < 9
    ensures WordByte(STATES[k], DIGITS[k]) == STATES[k + 1]
  {
  }

  lemma {:induction false} DigitIsByte(k: nat)
    requires k < 9
    ensures IsByte(DIGITS[k])
  {
  }

  lemma {:induction false} DigitsRun(k: nat)
    requires k <= 9
    ensures WordRun(0xffff_ffff, DIGITS[..k]) == STATES[k]
  {
    if k > 0 {
      DigitsRun(k - 1);
      DigitStep(k - 1);
      assert DIGITS[..k][..k - 1] == DIGITS[..k - 1];
    }
  }

  /** The check value of CRC-32C: of the message "123456789" it is 0xe3069283. */
  lemma {:induction false} CheckValue()
    ensures Crc(ZERO, Text(DIGITS)) == Bits(0xe306_9283)
  {
    MasksAre();
    ZeroIs(Mask);
    forall k | 0 <= k < |DIGITS| ensures IsByte(DIGITS[k]) { DigitIsByte(k); }
    CrcBits(Mask, 0, DIGITS);
    DigitsRun(9);
    assert DIGITS[..9] == DIGITS;
  }

  // ----- messages in parts, and with their checksum

  /** The CRC of a message can be continued from that of its first part. */
  lemma {:induction false} CrcContinues(crc: Word, a: seq<Byte>, b: seq<Byte>)
    ensures Crc(Crc(crc, a), b) == Crc(crc, a + b)
  {
    CrcLaws();
    var r := FeedBits(Xor(crc, Ones()), MessageBits(a));
    assert At(r, Ones(), Ones()) && At(r, ZERO, ZERO) && At(Ones(), Ones(), Ones());
    MessageAppend(a, b);
    FeedAppend(CRC, Xor(crc, Ones()), BitWords(MessageBits(a)), BitWords(MessageBits(b)));
    assert BitWords(MessageBits(a) + MessageBits(b)) == BitWords(MessageBits(a)) + BitWords(MessageBits(b));
  }

  lemma {:induction false} MessageAppend(a: seq<Byte>, b: seq<Byte>)
    ensures MessageBits(a + b) == MessageBits(a) + MessageBits(b)
    decreases |b|
  {
    if b == [] {
      assert a + b == a;
    } else {
      MessageAppend(a, b[..|b| - 1]);
      assert (a + b)[..|a + b| - 1] == a + b[..|b| - 1];
    }
  }

  /** The bytes of a word, lowest first. */
  function LittleEndian(w: Word): seq<Byte> { [w[..8], w[8..16], w[16..24], w[24..]] }

  lemma {:induction false} LittleEndianBits(w: Word)
    ensures MessageBits(LittleEndian(w)) == w
  {
    var s := LittleEndian(w);
    assert s[..3] == [w[..8], w[8..16], w[16..24]] && s[..3][..2] == [w[..8], w[8..16]];
    assert s[..3][..2][..1] == [w[..8]] && s[..3][..2][..1][..0] == [];
    assert MessageBits(s[..3][..2][..1]) == w[..8];
    assert MessageBits(s[..3][..2]) == w[..16];
    assert MessageBits(s[..3]) == w[..24];
  }

  lemma {:induction false} EightZeros(ms: nat -> bv32, c: bv32, n: nat, d: bv32)
    requires AreMasks(ms) && Iter(CRC, n, Ones()) == BitsBy(ms, c) && WordByte(c, 0) == d
    ensures Iter(CRC, n + 8, Ones()) == BitsBy(ms, d)
  {
    ZeroIs(ms);
    assert Xor(BitsBy(ms, c), ZERO) == BitsBy(ms, c);
    ByteBits(ms, c, 0);
    IterAdd(CRC, 8, n, Ones());
  }

  lemma {:induction false} ResidueSteps()
    ensures WordByte(0xffff_ffff, 0) == 0xad82_acae && WordByte(0xad82_acae, 0) == 0x0e9e_882d
    ensures WordByte(0x0e9e_882d, 0) == 0x9f9b_5c85 && WordByte(0x9f9b_5c85, 0) == 0xb798_b438
  {
  }

  lemma {:induction false} ResidueRun(ms: nat -> bv32)
    requires AreMasks(ms)
    ensures Iter(CRC, 32, Ones()) == BitsBy(ms, 0xb798_b438)
  {
    OnesAre(ms);
    ResidueSteps();
    assert Iter(CRC, 0, Ones()) == BitsBy(ms, 0xffff_ffff);
    EightZeros(ms, 0xffff_ffff, 0, 0xad82_acae);
    EightZeros(ms, 0xad82_acae, 8, 0x0e9e_882d);
    EightZeros(ms, 0x0e9e_882d, 16, 0x9f9b_5c85);
    EightZeros(ms, 0x9f9b_5c85, 24, 0xb798_b438);
  }

  /** A message that is followed by its own checksum, lowest byte first, always has the checksum 0x48674bc7. */
  lemma {:induction false} Residue(crc: Word, bytes: seq<Byte>)
    ensures Crc(crc, bytes + LittleEndian(Crc(crc, bytes))) == Bits(0x4867_4bc7)
  {
    MasksAre();
    ResidueBy(Mask, crc, bytes);
  }

  lemma {:induction false} ResidueBy(ms: nat -> bv32, crc: Word, bytes: seq<Byte>)
    requires AreMasks(ms)
    ensures Crc(crc, bytes + LittleEndian(Crc(crc, bytes))) == BitsBy(ms, 0x4867_4bc7)
  {
    var sum := Crc(crc, bytes);
    CrcContinues(crc, bytes, LittleEndian(sum));
    LittleEndianBits(sum);
    FeedAtOnce(Xor(sum, Ones()), sum);
    assert Embed(sum) == sum;
    assert Xor(Xor(sum, Ones()), sum) == Ones();
    ResidueRun(ms);
    OnesAre(ms);
    XorBits(ms, 0xb798_b438, 0xffff_ffff);
  }
}
