/** CRC-32C with the crc32 instruction: three independent lanes, joined by operators that append zeros.

The operators are 32 by 32 bit matrices over GF(2); row i is the image of the word with only bit i set. */
module Crc32cLanes {
  import opened Sequences
  import opened ShiftRegister
  import opened Crc32c

  function Unit(i: nat): Word {
    seq(32, j => j == i)
  }

  function Basis(): (b: seq<Word>)
    ensures |b| == 32
  {
    seq(32, i requires 0 <= i => Unit(i))
  }

  /** `rows` is the operator that appends `n` zero bits. */
  ghost predicate Appends(n: nat, rows: seq<Word>) {
    |rows| == 32 && forall i :: 0 <= i < 32 ==> rows[i] == Iter(CRC, n, Unit(i))
  }

  /** Every word is the xor of the unit words of its set bits. */
  lemma {:induction false} BasisSpans(v: Word, k: nat)
    requires k <= 32
    ensures Combine(CRC, Basis()[k..], v[k..]) == Repeat(false, k) + v[k..]
    decreases 32 - k
  {
    if k < 32 {
      BasisSpans(v, k + 1);
      assert Basis()[k..][1..] == Basis()[k + 1..] && v[k..][1..] == v[k + 1..];
      assert Xor(if v[k] then Unit(k) else ZERO, Repeat(false, k + 1) + v[k + 1..]) == Repeat(false, k) + v[k..];
    } else {
      assert ZERO == Repeat(false, 32) + v[32..];
    }
  }

  /** Multiplying by the matrix is appending the zeros. */
  lemma {:induction false} TimesAppends(n: nat, rows: seq<Word>, v: Word)
    requires Appends(n, rows)
    ensures Combine(CRC, rows, v) == Iter(CRC, n, v)
  {
    CrcLaws();
    IterLinear(CRC, n);
    CombineLinear(CRC, (x: Word) => Iter(CRC, n, x), Basis(), rows, v);
    BasisSpans(v, 0);
    assert Basis()[0..] == Basis() && v[0..] == v && Repeat(false, 0) + v == v;
  }

  predicate IsZero(v: Word) { forall i :: 0 <= i < 32 ==> !v[i] }

  lemma {:induction false} ShiftedOut(v: Word, k: nat)
    requires k <= 32 && !IsZero(Shr(v, k))
    ensures k < 32
  {
    assert v[32..] == [];
  }

  /** gf2_matrix_times: the vector is shifted down, the matrix pointer moves along, until no bit is left. */
  method MatrixTimes(mat: array<Word>, v: Word) returns (sum: Word)
    requires mat.Length == 32
    ensures sum == Combine(CRC, mat[..], v)
  {
    CrcLaws();
    sum := ZERO;
    var vec, k := v, 0;
    assert mat[0..] == mat[..] && v[0..] == v && Shr(v, 0) == v;
    ZeroNeutral(CRC, Combine(CRC, mat[..], v));
    while !IsZero(vec)
      invariant k <= 32 && vec == Shr(v, k)
      invariant Xor(sum, Combine(CRC, mat[k..], v[k..])) == Combine(CRC, mat[..], v)
      decreases 32 - k
    {
      ShiftedOut(v, k);
      assert vec[0] == v[k] && mat[k..][1..] == mat[k + 1..] && v[k..][1..] == v[k + 1..];
      var rest := Combine(CRC, mat[k + 1..], v[k + 1..]);
      Assoc(CRC, sum, if v[k] then mat[k] else ZERO, rest);
      ZeroNeutral(CRC, sum);
      if vec[0] {
        sum := Xor(sum, mat[k]);
      }
      assert Shr(Shr(v, k), 1) == Shr(v, k + 1);
      vec, k := Shr(vec, 1), k + 1;
    }
    forall i | 0 <= i < |v[k..]| ensures !v[k..][i] {
      assert vec[i] == v[k..][i];
    }
    CombineNone(CRC, mat[k..], v[k..]);
    ZeroNeutral(CRC, sum);
  }

  /** gf2_matrix_square: appending the zeros twice. */
  method MatrixSquare(square: array<Word>, mat: array<Word>, ghost n: nat)
    requires square != mat && square.Length == mat.Length == 32 && Appends(n, mat[..])
    modifies square
    ensures Appends(2 * n, square[..])
  {
    for i := 0 to 32
      invariant mat[..] == old(mat[..])
      invariant forall j :: 0 <= j < i ==> square[j] == Iter(CRC, 2 * n, Unit(j))
    {
      var row := MatrixTimes(mat, mat[i]);
      TimesAppends(n, mat[..], mat[i]);
      IterAdd(CRC, n, n, Unit(i));
      square[i] := row;
    }
  }

  lemma {:induction false} StepOfUnit(n: nat)
    requires n < 32
    ensures Step(Unit(n)) == if n == 0 then POLY else Unit(n - 1)
  {
    forall i | 0 <= i < 32 ensures Step(Unit(n))[i] == if n == 0 then POLY[i] else i == n - 1 {
      StepAt(Unit(n), i);
    }
    if n == 0 { assert Step(Unit(0)) == POLY; } else { assert Step(Unit(n)) == Unit(n - 1); }
  }

  lemma {:induction false} OneStep(n: nat)
    requires n < 32
    ensures Iter(CRC, 1, Unit(n)) == if n == 0 then POLY else Unit(n - 1)
  {
    StepOfUnit(n);
    assert Iter(CRC, 1, Unit(n)) == Step(Iter(CRC, 0, Unit(n)));
  }

  /** The operator for one zero bit. */
  method OneZeroBit(odd: array<Word>)
    requires odd.Length == 32
    modifies odd
    ensures Appends(1, odd[..])
  {
    odd[0] := POLY;
    OneStep(0);
    var row: Word := Unit(0);
    for n := 1 to 32
      invariant row == Unit(n - 1)
      invariant forall i :: 0 <= i < n ==> odd[i] == Iter(CRC, 1, Unit(i))
    {
      OneStep(n);
      odd[n] := row;
      assert [false] + row[..31] == Unit(n);
      row := [false] + row[..31];
    }
  }

  /** The largest power of two that is not above `len`, and 1 for 0. */
  function TopPower(len: nat): nat {
    if len <= 1 then 1 else 2 * TopPower(len / 2)
  }

  /** Zero bits appended after doubling an operator for `e` bits once, and once more per halving of `len`. */
  function Doubled(e: nat, len: nat): nat
    decreases len
  {
    if len <= 1 then 2 * e else Doubled(2 * e, len / 2)
  }

  lemma {:induction false} DoubledIs(e: nat, len: nat)
    ensures Doubled(e, len) == 2 * e * TopPower(len)
    decreases len
  {
    if len > 1 {
      DoubledIs(2 * e, len / 2);
      Regroup(e, TopPower(len / 2));
    }
  }

  lemma {:induction false} Regroup(e: nat, p: nat)
    ensures 2 * (2 * e) * p == 2 * e * (2 * p)
  {
  }

  /** crc32c_zeros_op, for every length: the operator that appends the largest power of two not above it. */
  method ZerosOp(even: array<Word>, size: nat)
    requires even.Length == 32
    modifies even
    ensures Appends(8 * TopPower(size), even[..])
  {
    var odd := new Word[32](i => ZERO);
    OneZeroBit(odd);
    MatrixSquare(even, odd, 1);
    MatrixSquare(odd, even, 2);
    DoubledIs(4, size);
    ghost var goal := Doubled(4, size);
    var len := size;
    ghost var e: nat := 4;
    while true
      invariant fresh(odd) && Appends(e, odd[..]) && Doubled(e, len) == goal
      decreases len
    {
      MatrixSquare(even, odd, e);
      len := len / 2;
      if len == 0 {
        return;
      }
      MatrixSquare(odd, even, 2 * e);
      e, len := 4 * e, len / 2;
      if len == 0 {
        break;
      }
    }
    Copy(even, odd);
  }

  method Copy(even: array<Word>, odd: array<Word>)
    requires even != odd && even.Length == odd.Length == 32
    modifies even
    ensures even[..] == odd[..]
  {
    for n := 0 to 32
      invariant forall i :: 0 <= i < n ==> even[i] == odd[i]
    {
      even[n] := odd[n];
    }
  }

  // ----- shift tables

  /** Byte b at byte position j of a word. */
  function Place(b: Byte, j: nat): (w: Word)
    requires j < 4
  {
    Repeat(false, 8 * j) + b + Repeat(false, 24 - 8 * j)
  }

  ghost predicate ShiftOk(zeros: array2<Word>, bits: nat)
    reads zeros
  {
    && zeros.Length0 == 4 && zeros.Length1 == 256
    && forall n :: 0 <= n < 256 ==> ShiftColumnOk(zeros, bits, n)
  }

  ghost predicate ShiftColumnOk(zeros: array2<Word>, bits: nat, n: nat)
    requires zeros.Length0 == 4 && zeros.Length1 == 256 && n < 256
    reads zeros
  {
    forall j :: 0 <= j < 4 ==> zeros[j, n] == Iter(CRC, bits, Shl(FromNat(n, 32), 8 * j))
  }

  function Shl(c: Word, k: nat): Word
    requires k <= 32
  {
    Repeat(false, k) + c[..32 - k]
  }

  /** crc32c_zeros. */
  method ZerosTables(zeros: array2<Word>, len: nat)
    requires zeros.Length0 == 4 && zeros.Length1 == 256
    modifies zeros
    ensures ShiftOk(zeros, 8 * TopPower(len))
  {
    var op := new Word[32](i => ZERO);
    ZerosOp(op, len);
    ghost var bits := 8 * TopPower(len);
    for n := 0 to 256
      invariant Appends(bits, op[..])
      invariant forall i :: 0 <= i < n ==> ShiftColumnOk(zeros, bits, i)
    {
      label before:
      ZerosColumn(zeros, op, n, bits);
      forall i | 0 <= i < n ensures ShiftColumnOk(zeros, bits, i) {
        assert old@before(ShiftColumnOk(zeros, bits, i));
      }
    }
  }

  method ZerosColumn(zeros: array2<Word>, op: array<Word>, n: nat, ghost bits: nat)
    requires zeros.Length0 == 4 && zeros.Length1 == 256 && n < 256 && op.Length == 32 && Appends(bits, op[..])
    modifies zeros
    ensures ShiftColumnOk(zeros, bits, n)
    ensures forall j, i :: 0 <= j < 4 && 0 <= i < 256 && i != n ==> zeros[j, i] == old(zeros[j, i])
  {
    for j := 0 to 4
      invariant forall k :: 0 <= k < j ==> zeros[k, n] == Iter(CRC, bits, Shl(FromNat(n, 32), 8 * k))
      invariant forall k, i :: 0 <= k < 4 && 0 <= i < 256 && i != n ==> zeros[k, i] == old(zeros[k, i])
    {
      var z := MatrixTimes(op, Shl(FromNat(n, 32), 8 * j));
      TimesAppends(bits, op[..], Shl(FromNat(n, 32), 8 * j));
      zeros[j, n] := z;
    }
  }

  /** Lookup by byte position and byte. */
  function ShiftEntry(zeros: array2<Word>, ghost bits: nat, j: nat, b: Byte): (w: Word)
    requires ShiftOk(zeros, bits) && j < 4
    reads zeros
    ensures w == Iter(CRC, bits, Place(b, j))
  {
    ToNatBound(b);
    FromToNat(b, 32);
    assert ShiftColumnOk(zeros, bits, ToNat(b));
    assert Shl(FromNat(ToNat(b), 32), 8 * j) == Place(b, j);
    zeros[j, ToNat(b)]
  }

  /** crc32c_shift: four table entries apply the operator to any register. */
  function Shift(zeros: array2<Word>, ghost bits: nat, crc: Word): (w: Word)
    requires ShiftOk(zeros, bits)
    reads zeros
    ensures w == Iter(CRC, bits, crc)
  {
    var b0, b1, b2, b3 := crc[..8], crc[8..16], crc[16..24], crc[24..];
    CrcLaws();
    IterXor(CRC, bits, Place(b0, 0), Place(b1, 1));
    IterXor(CRC, bits, Xor(Place(b0, 0), Place(b1, 1)), Place(b2, 2));
    IterXor(CRC, bits, Xor(Xor(Place(b0, 0), Place(b1, 1)), Place(b2, 2)), Place(b3, 3));
    assert Xor(Xor(Xor(Place(b0, 0), Place(b1, 1)), Place(b2, 2)), Place(b3, 3)) == crc;
    Xor(Xor(Xor(ShiftEntry(zeros, bits, 0, b0), ShiftEntry(zeros, bits, 1, b1)), ShiftEntry(zeros, bits, 2, b2)),
      ShiftEntry(zeros, bits, 3, b3))
  }

  // ----- three lanes

  const LONG := 8192
  const SHORT := 256

  /** Join the lanes of a round with two table shifts. */
  method JoinLanes(zeros: array2<Word>, lane: nat, crc0: Word, crc1: Word, crc2: Word) returns (r: Word)
    requires ShiftOk(zeros, 8 * lane)
    ensures r == Xor(Iter(CRC, 8 * lane, Xor(Iter(CRC, 8 * lane, crc0), crc1)), crc2)
  {
    r := Xor(Shift(zeros, 8 * lane, crc0), crc1);
    r := Xor(Shift(zeros, 8 * lane, r), crc2);
  }

  /** One round: three lanes in parallel, joined. */
  method Round(zeros: array2<Word>, words: nat, crc: Word, buf: seq<Word>, l0: nat, end: nat) returns (r: Word)
    requires end == l0 + 24 * words <= |buf| && ShiftOk(zeros, 64 * words)
    ensures r == Part(CRC, crc, buf, l0, end)
  {
    CrcLaws();
    var lane := 8 * words;
    var l1, l2 := l0 + lane, l0 + 2 * lane;
    var crc0, crc1, crc2 := RunLanes(CRC, words, crc, buf, l0, l1, l2, end);
    JoinThree(CRC, lane, crc, buf, l0, l1, l2, end);
    r := JoinLanes(zeros, lane, crc0, crc1, crc2);
  }

  /** The LONG or the SHORT loop: rounds of three lanes while enough bytes are left. */
  method Rounds(zeros: array2<Word>, words: nat, crc: Word, buf: seq<Word>, from: nat) returns (r: Word, next: nat)
    requires words > 0 && from <= |buf| && ShiftOk(zeros, 64 * words)
    ensures from <= next <= |buf| && r == Part(CRC, crc, buf, from, next)
    ensures |buf| - next < 24 * words
  {
    r, next := crc, from;
    while |buf| - next >= 24 * words
      invariant from <= next <= |buf| && r == Part(CRC, crc, buf, from, next)
      decreases |buf| - next
    {
      var end := next + 24 * words;
      PartJoin(CRC, crc, buf, from, next, end);
      r := Round(zeros, words, r, buf, next, end);
      next := end;
    }
  }

  /** crc32c_hw gives the reference value for every start value, buffer, length and alignment. The crc32b and
      crc32q instructions are given by their specification: one more byte, eight more bytes. */
  method CrcHw(long: array2<Word>, short: array2<Word>, crci: Word, bytes: seq<Byte>, address: nat) returns (r: Word)
    requires ShiftOk(long, 8 * LONG) && ShiftOk(short, 8 * SHORT)
    ensures r == Crc(crci, bytes)
  {
    var start, buf := Xor(crci, Ones()), Words(bytes);
    var crc0, a := SingleBytes(CRC, start, buf, 0, address, true);
    var crc1, b := Rounds(long, LONG / 8, crc0, buf, a);
    PartJoin(CRC, start, buf, 0, a, b);
    var crc2, c := Rounds(short, SHORT / 8, crc1, buf, b);
    PartJoin(CRC, start, buf, 0, b, c);
    var crc3, d := Quadwords(CRC, crc2, buf, c);
    PartJoin(CRC, start, buf, 0, c, d);
    var crc4, e := SingleBytes(CRC, crc3, buf, d, address, false);
    PartJoin(CRC, start, buf, 0, d, e);
    PartIsRun(CRC, start, buf, 0, |buf|);
    assert buf[0..|buf|] == buf;
    RunIsBitwise(start, bytes);
    r := Xor(crc4, Ones());
  }

  lemma {:induction false} LanePowers()
    ensures TopPower(LONG) == LONG && TopPower(SHORT) == SHORT
  {
    assert TopPower(8) == 8;
    assert TopPower(32) == 32;
    assert TopPower(128) == 128;
    assert TopPower(512) == 512;
    assert TopPower(2048) == 2048;
  }

  /** crc32c: with or without the instruction, the result is the reference value. */
  method Crc32cOf(crci: Word, buf: seq<Byte>, address: nat, sse42: bool) returns (r: Word)
    ensures r == Crc(crci, buf)
  {
    if sse42 {
      LanePowers();
      var long, short := new Word[4, 256]((i, j) => ZERO), new Word[4, 256]((i, j) => ZERO);
      ZerosTables(long, LONG);
      ZerosTables(short, SHORT);
      r := CrcHw(long, short, crci, buf, address);
    } else {
      var table := new Word[8, 256]((i, j) => ZERO);
      InitSw(table);
      r := CrcSw(table, crci, buf, address);
    }
  }
}
