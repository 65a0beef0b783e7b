/** CRC-32C: the bit-at-a-time definition of section 12.1 of RFC 3720 and the table-driven software form.

Machine words are sequences of bits, lowest bit first, of their exact width; a little-endian load is then
the concatenation of the bytes loaded. */
module Crc32c {
  import opened Sequences
  import opened Laws
  import opened ShiftRegister

  type Word = w: seq<bool> | |w| == 32 witness Repeat(false, 32)
  type Byte = b: seq<bool> | |b| == 8 witness Repeat(false, 8)
  type Quad = q: seq<bool> | |q| == 64 witness Repeat(false, 64)

  /** The all-ones word that register and result are complemented with. */
  function Ones(): Word {
    Repeat(true, 32)
  }

  function FromNat(n: nat, width: nat): (bits: seq<bool>)
    ensures |bits| == width
  {
    if width == 0 then [] else [n % 2 == 1] + FromNat(n / 2, width - 1)
  }

  function ToNat(bits: seq<bool>): nat {
    if bits == [] then 0 else (if bits[0] then 1 else 0) + 2 * ToNat(bits[1..])
  }

  const ZERO: Word := Repeat(false, 32)
  const POLY: Word := Poly()

  /** The CRC-32C polynomial 0x82f63b78, in reversed bit order, by its set bits. */
  function Poly(): (p: Word) {
    seq(32, i => i in {3, 4, 5, 6, 8, 9, 11, 12, 13, 17, 18, 20, 21, 22, 23, 25, 31})
  }

  function Xor(a: Word, b: Word): Word {
    seq(32, i requires 0 <= i < 32 => a[i] != b[i])
  }

  function Shr(c: seq<bool>, k: nat): (r: seq<bool>)
    requires k <= |c|
    ensures |r| == |c|
  {
    c[k..] + Repeat(false, k)
  }

  /** The register after one zero bit. */
  function Step(c: Word): Word {
    if c[0] then Xor(Shr(c, 1), POLY) else Shr(c, 1)
  }

  const CRC: Register<Word> := Register(ZERO, Xor, Step)

  lemma {:induction false} StepAt(c: Word, i: nat)
    requires i < 32
    ensures Step(c)[i] == ((i < 31 && c[i + 1]) != (c[0] && POLY[i]))
  {
    assert Shr(c, 1)[i] == (i < 31 && c[i + 1]);
  }

  lemma {:induction false} StepXor(a: Word, b: Word)
    ensures Step(Xor(a, b)) == Xor(Step(a), Step(b))
  {
    forall i | 0 <= i < 32 ensures Step(Xor(a, b))[i] == Xor(Step(a), Step(b))[i] {
      StepAt(a, i);
      StepAt(b, i);
      StepAt(Xor(a, b), i);
    }
  }

  lemma {:induction false} CrcLaws()
    ensures Lawful(CRC)
  {
    forall a: Word, b: Word, c: Word | At(a, b, c)
      ensures Xor(a, b) == Xor(b, a) && Xor(Xor(a, b), c) == Xor(a, Xor(b, c)) && Xor(a, ZERO) == a && Xor(a, a) == ZERO
      ensures Step(Xor(a, b)) == Xor(Step(a), Step(b))
    {
      StepXor(a, b);
    }
  }

  // ----- the reference

  function Embed(bits: seq<bool>): (w: Word)
    requires |bits| <= 32
  {
    bits + Repeat(false, 32 - |bits|)
  }

  function Words(bytes: seq<Byte>): (w: seq<Word>)
    ensures |w| == |bytes|
  {
    seq(|bytes|, i requires 0 <= i < |bytes| => Embed(bytes[i]))
  }

  /** Message bits enter at the low end, one after the other. */
  function FeedBits(c: Word, bits: seq<bool>): Word {
    Feed(CRC, c, BitWords(bits))
  }

  function BitWords(bits: seq<bool>): (w: seq<Word>)
    ensures |w| == |bits|
  {
    seq(|bits|, i requires 0 <= i < |bits| => Embed([bits[i]]))
  }

  function MessageBits(bytes: seq<Byte>): seq<bool> {
    if bytes == [] then [] else MessageBits(bytes[..|bytes| - 1]) + bytes[|bytes| - 1]
  }

  /** The CRC of a buffer that continues from `crc`: register and result are complemented. */
  function Crc(crc: Word, bytes: seq<Byte>): Word {
    Xor(FeedBits(Xor(crc, Ones()), MessageBits(bytes)), Ones())
  }

  /** Bits from i on, without the first of them, are shifted into those from i + 1 on. */
  lemma {:induction false} FeedBit(b: seq<bool>, i: nat)
    requires i < |b| <= 32
    ensures var high := Embed([false] + b[i + 1..]);
      Embed(b[i..]) == Xor(BitWords(b)[i], high) && Step(high) == Embed(b[i + 1..])
  {
    assert Shr(Embed([false] + b[i + 1..]), 1) == Embed(b[i + 1..]);
  }

  /** Up to 32 bits xored in at once, and as many steps, are these bits fed one by one. */
  lemma {:induction false} FeedAtOnce(c: Word, b: seq<bool>)
    requires |b| <= 32
    ensures FeedBits(c, b) == Iter(CRC, |b|, Xor(c, Embed(b)))
  {
    CrcLaws();
    var n := |b|;
    var w: seq<Word> := seq(n + 1, i requires 0 <= i <= n => Embed(b[i..]));
    var high: seq<Word> := seq(n, i requires 0 <= i < n => Embed([false] + b[i + 1..]));
    forall i | 0 <= i < n ensures w[i] == Xor(BitWords(b)[i], high[i]) && Step(high[i]) == w[i + 1] {
      FeedBit(b, i);
    }
    assert w[n] == ZERO && w[0] == Embed(b) by { assert b[0..] == b; }
    FeedPacked(CRC, c, BitWords(b), w, high);
  }

  lemma {:induction false} FeedByte(c: Word, b: Byte)
    ensures FeedBits(c, b) == ByteStep(CRC, c, Embed(b))
  {
    FeedAtOnce(c, b);
  }

  /** Processing whole bytes agrees with the bit-at-a-time definition on every message. */
  lemma {:induction false} RunIsBitwise(c: Word, bytes: seq<Byte>)
    ensures Run(CRC, c, Words(bytes)) == FeedBits(c, MessageBits(bytes))
    decreases |bytes|
  {
    if bytes != [] {
      var k := |bytes| - 1;
      RunIsBitwise(c, bytes[..k]);
      assert Words(bytes)[..k] == Words(bytes[..k]);
      FeedAppend(CRC, c, BitWords(MessageBits(bytes[..k])), BitWords(bytes[k]));
      assert BitWords(MessageBits(bytes)) == BitWords(MessageBits(bytes[..k])) + BitWords(bytes[k]);
      FeedByte(Run(CRC, c, Words(bytes[..k])), bytes[k]);
    }
  }

  // ----- table entries

  /** As long as zeros leave the register it is simply shifted. */
  lemma {:induction false} IterShifts(c: Word, k: nat)
    requires k <= 32 && forall i :: 0 <= i < k ==> !c[i]
    ensures Iter(CRC, k, c) == Shr(c, k)
    decreases k
  {
    if k == 0 {
      assert Shr(c, 0) == c;
    } else {
      IterInner(CRC, k, c);
      var d := Shr(c, 1);
      assert Step(c) == d;
      IterShifts(d, k - 1);
      assert Shr(d, k - 1) == Shr(c, k);
    }
  }

  function High(c: Word): Word { Repeat(false, 8) + c[8..] }

  lemma {:induction false} LowHigh(c: Word)
    ensures Xor(Embed(c[..8]), High(c)) == c && Iter(CRC, 8, High(c)) == Shr(c, 8)
  {
    IterShifts(High(c), 8);
    assert Shr(High(c), 8) == Shr(c, 8);
  }

  /** Eight zero bits: one table entry for the low byte, and the rest shifted down. */
  lemma {:induction false} ByteOut(c: Word)
    ensures Iter(CRC, 8, c) == Xor(Iter(CRC, 8, Embed(c[..8])), Shr(c, 8))
  {
    CrcLaws();
    LowHigh(c);
    IterXor(CRC, 8, Embed(c[..8]), High(c));
  }

  function XorByte(a: Byte, b: Byte): Byte {
    seq(8, i requires 0 <= i < 8 => a[i] != b[i])
  }

  lemma {:induction false} EmbedXor(a: Byte, b: Byte)
    ensures Xor(Embed(a), Embed(b)) == Embed(XorByte(a, b))
  {
  }

  /** The slicing sum: each message byte meets one register byte in the table for its distance to the end. */
  function SliceSum(c: Word, bytes: seq<Byte>): Word
    decreases |bytes|
  {
    if bytes == [] then c
    else Xor(Iter(CRC, 8 * |bytes|, Embed(XorByte(c[..8], bytes[0]))), SliceSum(Shr(c, 8), bytes[1..]))
  }

  /** Slicing by any number of bytes is running them one by one. */
  lemma {:induction false} SlicingIsRunning(c: Word, bytes: seq<Byte>)
    ensures Run(CRC, c, Words(bytes)) == SliceSum(c, bytes)
    decreases |bytes|
  {
    if bytes != [] {
      CrcLaws();
      LowHigh(c);
      EmbedXor(c[..8], bytes[0]);
      Peel(CRC, Embed(c[..8]), High(c), Shr(c, 8), Embed(bytes[0]), Words(bytes[1..]));
      assert Words(bytes) == [Embed(bytes[0])] + Words(bytes[1..]);
      SlicingIsRunning(Shr(c, 8), bytes[1..]);
    }
  }

  lemma {:induction false} FromToNat(bits: seq<bool>, width: nat)
    requires |bits| <= width
    ensures FromNat(ToNat(bits), width) == bits + Repeat(false, width - |bits|)
    decreases width
  {
    if bits == [] {
      if width > 0 {
        FromToNat([], width - 1);
        assert Repeat(false, width) == [false] + Repeat(false, width - 1);
      }
    } else {
      FromToNat(bits[1..], width - 1);
      assert ToNat(bits) / 2 == ToNat(bits[1..]);
      assert bits + Repeat(false, width - |bits|) == [bits[0]] + (bits[1..] + Repeat(false, width - |bits|));
    }
  }

  lemma {:induction false} ToNatBound(b: Byte)
    ensures ToNat(b) < 256
  {
    var b1, b2, b3, b4, b5, b6, b7 := b[1..], b[2..], b[3..], b[4..], b[5..], b[6..], b[7..];
    assert b1[1..] == b2 && b2[1..] == b3 && b3[1..] == b4 && b4[1..] == b5;
    assert b5[1..] == b6 && b6[1..] == b7 && b7[1..] == [];
    assert ToNat(b7) <= 1 && ToNat(b6) <= 3 && ToNat(b5) <= 7 && ToNat(b4) <= 15;
    assert ToNat(b3) <= 31 && ToNat(b2) <= 63 && ToNat(b1) <= 127;
  }

  // ----- software form

  /** Entry n of table k is the register that byte n leaves behind after k more zero bytes. */
  ghost predicate TableOk(table: array2<Word>)
    reads table
  {
    && table.Length0 == 8 && table.Length1 == 256
    && forall n :: 0 <= n < 256 ==> ColumnOk(table, n)
  }

  /** Table lookup with a byte as the index. */
  function Lookup(table: array2<Word>, k: nat, b: Byte): (w: Word)
    requires TableOk(table) && k < 8
    reads table
    ensures w == Iter(CRC, 8 * (k + 1), Embed(b))
  {
    ToNatBound(b);
    FromToNat(b, 32);
    assert ColumnOk(table, ToNat(b));
    table[k, ToNat(b)]
  }

  lemma {:induction false} EightSteps(c: Word)
    ensures Iter(CRC, 8, c) == Step(Step(Step(Step(Step(Step(Step(Step(c))))))))
  {
    var c1, c2, c3 := Step(c), Step(Step(c)), Step(Step(Step(c)));
    var c4, c5, c6 := Step(c3), Step(Step(c3)), Step(Step(Step(c3)));
    IterInner(CRC, 8, c); IterInner(CRC, 7, c1); IterInner(CRC, 6, c2); IterInner(CRC, 5, c3);
    IterInner(CRC, 4, c4); IterInner(CRC, 3, c5); IterInner(CRC, 2, c6); IterInner(CRC, 1, Step(c6));
  }

  /** The first table: eight steps from the byte alone. */
  method InitFirst(table: array2<Word>)
    requires table.Length0 == 8 && table.Length1 == 256
    modifies table
    ensures FirstOk(table)
  {
    for n := 0 to 256
      invariant forall i :: 0 <= i < n ==> table[0, i] == Iter(CRC, 8, FromNat(i, 32))
    {
      table[0, n] := FirstEntry(n);
    }
  }

  method FirstEntry(n: nat) returns (crc: Word)
    ensures crc == Iter(CRC, 8, FromNat(n, 32))
  {
    crc := FromNat(n, 32);
    EightSteps(crc);
    crc := Step(Step(Step(Step(Step(Step(Step(Step(crc))))))));
  }

  ghost predicate FirstOk(table: array2<Word>)
    requires table.Length0 == 8 && table.Length1 == 256
    reads table
  {
    forall i :: 0 <= i < 256 ==> table[0, i] == Iter(CRC, 8, FromNat(i, 32))
  }

  ghost predicate ColumnOk(table: array2<Word>, n: nat)
    requires table.Length0 == 8 && table.Length1 == 256 && n < 256
    reads table
  {
    forall k :: 0 <= k < 8 ==> table[k, n] == Iter(CRC, 8 * (k + 1), FromNat(n, 32))
  }

  /** crc32c_init_sw. */
  method InitSw(table: array2<Word>)
    requires table.Length0 == 8 && table.Length1 == 256
    modifies table
    ensures TableOk(table)
  {
    InitFirst(table);
    for n := 0 to 256
      invariant FirstOk(table)
      invariant forall i :: 0 <= i < n ==> ColumnOk(table, i)
    {
      label before:
      InitColumn(table, n);
      forall i | 0 <= i < n ensures ColumnOk(table, i) {
        assert old@before(ColumnOk(table, i));
      }
    }
  }

  lemma {:induction false} NextEntry(crc: Word, k: nat, n: Word)
    requires crc == Iter(CRC, 8 * k, n)
    ensures ToNat(crc[..8]) < 256
    ensures Xor(Iter(CRC, 8, FromNat(ToNat(crc[..8]), 32)), Shr(crc, 8)) == Iter(CRC, 8 * (k + 1), n)
  {
    ToNatBound(crc[..8]);
    FromToNat(crc[..8], 32);
    ByteOut(crc);
    IterAdd(CRC, 8, 8 * k, n);
  }

  /** The further tables for one byte, each from the one before by one zero byte. */
  method InitColumn(table: array2<Word>, n: nat)
    requires table.Length0 == 8 && table.Length1 == 256 && n < 256 && FirstOk(table)
    modifies table
    ensures FirstOk(table) && ColumnOk(table, n)
    ensures forall k, i :: 0 <= k < 8 && 0 <= i < 256 && i != n ==> table[k, i] == old(table[k, i])
  {
    var crc := table[0, n];
    for k := 1 to 8
      invariant FirstOk(table) && crc == Iter(CRC, 8 * k, FromNat(n, 32))
      invariant forall j, i :: 0 <= j < 8 && 0 <= i < 256 && i != n ==> table[j, i] == old(table[j, i])
      invariant forall j :: 0 <= j < k ==> table[j, n] == Iter(CRC, 8 * (j + 1), FromNat(n, 32))
    {
      NextEntry(crc, k, FromNat(n, 32));
      crc := Xor(table[0, ToNat(crc[..8])], Shr(crc, 8));
      table[k, n] := crc;
    }
  }

  function Wide(c: Word): Quad { c + Repeat(false, 32) }

  function XorQuad(a: Quad, b: Quad): Quad {
    seq(64, i requires 0 <= i < 64 => a[i] != b[i])
  }

  /** Little-endian load of eight bytes. */
  function Load(bytes: seq<Byte>): Quad
    requires |bytes| == 8
  {
    seq(64, i requires 0 <= i < 64 => bytes[i / 8][i % 8])
  }

  function ByteOf(q: Quad, k: nat): Byte
    requires k < 8
  {
    q[8 * k..8 * k + 8]
  }

  /** One byte through the first table. */
  lemma {:induction false} ByteByTable(c: Word, b: Byte)
    ensures ByteStep(CRC, c, Embed(b)) == Xor(Iter(CRC, 8, Embed(XorByte(c[..8], b))), Shr(c, 8))
  {
    var x := Xor(c, Embed(b));
    ByteOut(x);
    assert x[..8] == XorByte(c[..8], b) && Shr(x, 8) == Shr(c, 8);
  }

  /** Byte k of register xor message, and what is left of the register after k shifts. */
  lemma {:induction false} LoadedByte(c: Word, bytes: seq<Byte>, k: nat)
    requires |bytes| == 8 && k < 8
    ensures ByteOf(XorQuad(Wide(c), Load(bytes)), k) == XorByte(Shifted(c, k)[..8], bytes[k])
    ensures Shifted(c, k + 1) == Shr(Shifted(c, k), 8)
  {
    assert forall i :: 0 <= i < 8 ==> Load(bytes)[8 * k + i] == bytes[k][i];
  }

  /** The register after k bytes have been shifted out. */
  function Shifted(c: Word, k: nat): Word {
    if 8 * k <= 32 then Shr(c, 8 * k) else ZERO
  }

  /** Table 7 - k at byte k of register xor message. */
  function SliceTerm(c: Word, bytes: seq<Byte>, k: nat): Word
    requires |bytes| == 8 && k < 8
  {
    Iter(CRC, 64 - 8 * k, Embed(ByteOf(XorQuad(Wide(c), Load(bytes)), k)))
  }

  lemma {:induction false} SliceStep(c: Word, bytes: seq<Byte>, k: nat)
    requires |bytes| == 8 && k < 8
    ensures SliceSum(Shifted(c, k), bytes[k..]) ==
      Xor(SliceTerm(c, bytes, k), SliceSum(Shifted(c, k + 1), bytes[k + 1..]))
  {
    LoadedByte(c, bytes, k);
    assert bytes[k..][1..] == bytes[k + 1..];
  }

  /** Eight bytes at once: the xor of the eight table entries is the register after the eight bytes. */
  lemma {:induction false} SliceEight(c: Word, bytes: seq<Byte>)
    requires |bytes| == 8
    ensures Run(CRC, c, Words(bytes)) == Fold(CRC, seq(8, k requires 0 <= k < 8 => SliceTerm(c, bytes, k)))
  {
    CrcLaws();
    var t := seq(8, k requires 0 <= k < 8 => SliceTerm(c, bytes, k));
    var s: seq<Word> := seq(9, k requires 0 <= k < 9 => SliceSum(Shifted(c, k), bytes[k..]));
    SlicingIsRunning(c, bytes);
    assert Shifted(c, 0) == c && bytes[0..] == bytes && bytes[8..] == [];
    assert s[8] == ZERO;
    forall k | 0 <= k < 8 ensures s[k] == CRC.xor(t[k], s[k + 1]) {
      SliceStep(c, bytes, k);
    }
    FoldRight(CRC, t, s, 8);
    assert t[..8] == t;
    ZeroNeutral(CRC, Fold(CRC, t));
  }

  /** The expression in the body of the quadword loop. */
  function SlicedRegister(table: array2<Word>, x: Quad): Word
    requires TableOk(table)
    reads table
  {
    Xor(Xor(Xor(Xor(Xor(Xor(Xor(Lookup(table, 7, ByteOf(x, 0)), Lookup(table, 6, ByteOf(x, 1))),
      Lookup(table, 5, ByteOf(x, 2))), Lookup(table, 4, ByteOf(x, 3))), Lookup(table, 3, ByteOf(x, 4))),
      Lookup(table, 2, ByteOf(x, 5))), Lookup(table, 1, ByteOf(x, 6))), Lookup(table, 0, ByteOf(x, 7)))
  }

  lemma {:induction false} QuadStep(table: array2<Word>, c: Word, bytes: seq<Byte>)
    requires TableOk(table) && |bytes| == 8
    ensures SlicedRegister(table, XorQuad(Wide(c), Load(bytes))) == Run(CRC, c, Words(bytes))
  {
    SliceEight(c, bytes);
    FoldEight(CRC, seq(8, k requires 0 <= k < 8 => SliceTerm(c, bytes, k)));
  }

  lemma {:induction false} RunTo(c: Word, bytes: seq<Byte>, i: nat, j: nat)
    requires i <= j <= |bytes|
    ensures Run(CRC, c, Words(bytes[..j])) == Run(CRC, Run(CRC, c, Words(bytes[..i])), Words(bytes[i..j]))
  {
    RunAppend(CRC, c, Words(bytes[..i]), Words(bytes[i..j]));
    assert Words(bytes[..j]) == Words(bytes[..i]) + Words(bytes[i..j]);
  }

  lemma {:induction false} RunByte(c: Word, b: Byte)
    ensures Run(CRC, c, Words([b])) == ByteStep(CRC, c, Embed(b))
  {
    assert Words([b])[..0] == [];
  }

  lemma {:induction false} RunNext(start: Word, buf: seq<Byte>, next: nat)
    requires next < |buf|
    ensures Run(CRC, start, Words(buf[..next + 1])) ==
      ByteStep(CRC, Run(CRC, start, Words(buf[..next])), Embed(buf[next]))
  {
    RunTo(start, buf, next, next + 1);
    assert buf[next..next + 1] == [buf[next]];
    RunByte(Run(CRC, start, Words(buf[..next])), buf[next]);
  }

  /** The upper half of the 64-bit register stays zero. */
  lemma {:induction false} WideStep(c: Word, t: Word)
    ensures XorQuad(Wide(t), Shr(Wide(c), 8)) == Wide(Xor(t, Shr(c, 8))) && Wide(c)[..8] == c[..8]
  {
  }

  method SwByte(table: array2<Word>, crc: Quad, b: Byte, ghost c: Word) returns (r: Quad)
    requires TableOk(table) && crc == Wide(c)
    ensures r == Wide(ByteStep(CRC, c, Embed(b)))
  {
    WideStep(c, Lookup(table, 0, XorByte(crc[..8], b)));
    ByteByTable(c, b);
    r := XorQuad(Wide(Lookup(table, 0, XorByte(crc[..8], b))), Shr(crc, 8));
  }

  method SwQuad(table: array2<Word>, crc: Quad, bytes: seq<Byte>, ghost c: Word) returns (r: Quad)
    requires TableOk(table) && crc == Wide(c) && |bytes| == 8
    ensures r == Wide(Run(CRC, c, Words(bytes)))
  {
    QuadStep(table, c, bytes);
    var x := XorQuad(crc, Load(bytes));
    r := Wide(SlicedRegister(table, x));
  }

  /** The 64-bit register after the first `next` bytes. */
  ghost predicate Reached(crc: Quad, start: Word, buf: seq<Byte>, next: nat) {
    next <= |buf| && crc == Wide(Run(CRC, start, Words(buf[..next])))
  }

  method SwAlign(table: array2<Word>, start: Word, buf: seq<Byte>, address: nat) returns (crc: Quad, next: nat)
    requires TableOk(table)
    ensures Reached(crc, start, buf, next)
  {
    crc, next := Wide(start), 0;
    while next < |buf| && (address + next) % 8 != 0
      invariant Reached(crc, start, buf, next)
    {
      RunNext(start, buf, next);
      crc := SwByte(table, crc, buf[next], Run(CRC, start, Words(buf[..next])));
      next := next + 1;
    }
  }

  method SwQuads(
      table: array2<Word>, start: Word, buf: seq<Byte>, crc0: Quad, next0: nat) returns (crc: Quad, next: nat)
    requires TableOk(table) && Reached(crc0, start, buf, next0)
    ensures Reached(crc, start, buf, next)
  {
    crc, next := crc0, next0;
    while |buf| - next >= 8
      invariant Reached(crc, start, buf, next)
    {
      RunTo(start, buf, next, next + 8);
      crc := SwQuad(table, crc, buf[next..next + 8], Run(CRC, start, Words(buf[..next])));
      next := next + 8;
    }
  }

  method SwRest(table: array2<Word>, start: Word, buf: seq<Byte>, crc0: Quad, next0: nat) returns (crc: Quad)
    requires TableOk(table) && Reached(crc0, start, buf, next0)
    ensures Reached(crc, start, buf, |buf|)
  {
    crc := crc0;
    var next := next0;
    while next < |buf|
      invariant Reached(crc, start, buf, next)
    {
      RunNext(start, buf, next);
      crc := SwByte(table, crc, buf[next], Run(CRC, start, Words(buf[..next])));
      next := next + 1;
    }
  }

  /** crc32c_sw: leading bytes up to an eight-byte boundary of the address, then quadwords, then the rest. */
  method CrcSw(table: array2<Word>, crci: Word, buf: seq<Byte>, address: nat) returns (r: Word)
    requires TableOk(table)
    ensures r == Crc(crci, buf)
  {
    var start := Xor(crci, Ones());
    var crc, next := SwAlign(table, start, buf, address);
    crc, next := SwQuads(table, start, buf, crc, next);
    crc := SwRest(table, start, buf, crc, next);
    assert buf[..|buf|] == buf;
    RunIsBitwise(start, buf);
    assert crc[..32] == Run(CRC, start, Words(buf));
    r := Xor(crc[..32], Ones());
  }
}
