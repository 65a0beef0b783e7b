/** Linear shift registers over GF(2), in the abstract: words that can be xored, and a linear step. */
module ShiftRegister {
  import opened Laws

  datatype Register<!T> = Register(zero: T, xor: (T, T) -> T, step: T -> T)

  ghost predicate Lawful<T(!new)>(R: Register<T>) {
    forall a: T, b: T, c: T {:trigger At(a, b, c)} :: At(a, b, c) ==>
      && R.xor(a, b) == R.xor(b, a)
      && R.xor(R.xor(a, b), c) == R.xor(a, R.xor(b, c))
      && R.xor(a, R.zero) == a
      && R.xor(a, a) == R.zero
      && R.step(R.xor(a, b)) == R.xor(R.step(a), R.step(b))
  }

  lemma {:induction false} Assoc<T(!new)>(R: Register<T>, a: T, b: T, c: T)
    requires Lawful(R)
    ensures R.xor(R.xor(a, b), c) == R.xor(a, R.xor(b, c))
  {
    assert At(a, b, c);
  }

  lemma {:induction false} ZeroNeutral<T(!new)>(R: Register<T>, a: T)
    requires Lawful(R)
    ensures R.xor(a, R.zero) == a && R.xor(R.zero, a) == a && R.step(R.zero) == R.zero
  {
    assert At(a, R.zero, a) && At(R.zero, R.zero, a) && At(R.step(R.zero), a, a);
  }

  // ----- zero bits

  function Iter<T>(R: Register<T>, n: nat, c: T): T {
    if n == 0 then c else R.step(Iter(R, n - 1, c))
  }

  lemma {:induction false} IterXor<T(!new)>(R: Register<T>, n: nat, a: T, b: T)
    requires Lawful(R)
    ensures Iter(R, n, R.xor(a, b)) == R.xor(Iter(R, n, a), Iter(R, n, b))
  {
    if n > 0 {
      IterXor(R, n - 1, a, b);
      assert At(Iter(R, n - 1, a), Iter(R, n - 1, b), a);
    }
  }

  lemma {:induction false} IterZero<T(!new)>(R: Register<T>, n: nat)
    requires Lawful(R)
    ensures Iter(R, n, R.zero) == R.zero
  {
    if n > 0 {
      IterZero(R, n - 1);
      ZeroNeutral(R, R.zero);
    }
  }

  lemma {:induction false} IterAdd<T>(R: Register<T>, m: nat, n: nat, c: T)
    ensures Iter(R, m + n, c) == Iter(R, m, Iter(R, n, c))
  {
    if m > 0 { IterAdd(R, m - 1, n, c); }
  }

  lemma {:induction false} IterInner<T>(R: Register<T>, n: nat, c: T)
    requires n > 0
    ensures Iter(R, n, c) == Iter(R, n - 1, R.step(c))
  {
    IterAdd(R, n - 1, 1, c);
    assert Iter(R, 1, c) == R.step(Iter(R, 0, c));
  }

  // ----- message bits

  /** Each message bit, as a word with that bit at the low end, is xored in before a step. */
  function Feed<T>(R: Register<T>, c: T, bits: seq<T>): T
    decreases |bits|
  {
    if bits == [] then c else Feed(R, R.step(R.xor(c, bits[0])), bits[1..])
  }

  lemma {:induction false} FeedAppend<T>(R: Register<T>, c: T, s: seq<T>, t: seq<T>)
    ensures Feed(R, c, s + t) == Feed(R, Feed(R, c, s), t)
    decreases |s|
  {
    if s == [] {
      assert s + t == t;
    } else {
      assert (s + t)[1..] == s[1..] + t && (s + t)[0] == s[0];
      FeedAppend(R, R.step(R.xor(c, s[0])), s[1..], t);
    }
  }

  /** Xoring all bits in at once and then stepping is feeding them one by one: w[i] packs the bits from i on,
      and is bit i plus a part that one step moves down to w[i + 1]. */
  lemma {:induction false} FeedPacked<T(!new)>(R: Register<T>, c: T, bits: seq<T>, w: seq<T>, high: seq<T>)
    requires Lawful(R) && |w| == |bits| + 1 && |high| == |bits| && w[|bits|] == R.zero
    requires forall i :: 0 <= i < |bits| ==> w[i] == R.xor(bits[i], high[i]) && R.step(high[i]) == w[i + 1]
    ensures Feed(R, c, bits) == Iter(R, |bits|, R.xor(c, w[0]))
    decreases |bits|
  {
    if bits == [] {
      ZeroNeutral(R, c);
    } else {
      var d := R.step(R.xor(c, bits[0]));
      FeedPacked(R, d, bits[1..], w[1..], high[1..]);
      Assoc(R, c, bits[0], high[0]);
      assert At(R.xor(c, bits[0]), high[0], c);
      IterInner(R, |bits|, R.xor(c, w[0]));
    }
  }

  // ----- bytes: a byte is the word with its bits at the low end

  function ByteStep<T>(R: Register<T>, c: T, b: T): T {
    Iter(R, 8, R.xor(c, b))
  }

  function Run<T>(R: Register<T>, c: T, bytes: seq<T>): T {
    if bytes == [] then c else ByteStep(R, Run(R, c, bytes[..|bytes| - 1]), bytes[|bytes| - 1])
  }

  lemma {:induction false} RunAppend<T>(R: Register<T>, c: T, s: seq<T>, t: seq<T>)
    ensures Run(R, c, s + t) == Run(R, Run(R, c, s), t)
    decreases |t|
  {
    if t == [] {
      assert s + t == s;
    } else {
      assert (s + t)[..|s + t| - 1] == s + t[..|t| - 1];
      RunAppend(R, c, s, t[..|t| - 1]);
    }
  }

  /** The register is linear in its start value: running bytes is appending as many zeros, plus running them from 0. */
  lemma {:induction false} RunXor<T(!new)>(R: Register<T>, a: T, b: T, bytes: seq<T>)
    requires Lawful(R)
    ensures Run(R, R.xor(a, b), bytes) == R.xor(Iter(R, 8 * |bytes|, a), Run(R, b, bytes))
    decreases |bytes|
  {
    if bytes != [] {
      var k := |bytes| - 1;
      var z, r := Iter(R, 8 * k, a), Run(R, b, bytes[..k]);
      RunXor(R, a, b, bytes[..k]);
      Assoc(R, z, r, bytes[k]);
      IterXor(R, 8, z, R.xor(r, bytes[k]));
      IterAdd(R, 8, 8 * k, a);
    }
  }

  lemma {:induction false} RunSplit<T(!new)>(R: Register<T>, c: T, bytes: seq<T>)
    requires Lawful(R)
    ensures Run(R, c, bytes) == R.xor(Iter(R, 8 * |bytes|, c), Run(R, R.zero, bytes))
  {
    RunXor(R, c, R.zero, bytes);
    ZeroNeutral(R, c);
  }

  /** One byte into a register whose upper part `high` shifts down to `rest`: the low byte and the message byte meet
      in one table entry, and the rest of the register and of the message go on independently. */
  lemma {:induction false} Peel<T(!new)>(R: Register<T>, low: T, high: T, rest: T, b: T, bytes: seq<T>)
    requires Lawful(R) && Iter(R, 8, high) == rest
    ensures Run(R, R.xor(low, high), [b] + bytes) ==
      R.xor(Iter(R, 8 * (1 + |bytes|), R.xor(low, b)), Run(R, rest, bytes))
  {
    var one := ByteStep(R, R.xor(low, high), b);
    RunAppend(R, R.xor(low, high), [b], bytes);
    assert [b][..0] == [];
    assert Run(R, R.xor(low, high), [b]) == one;
    assert At(low, high, b) && At(high, b, high) && At(low, b, high);
    assert R.xor(R.xor(low, high), b) == R.xor(R.xor(low, b), high);
    IterXor(R, 8, R.xor(low, b), high);
    RunXor(R, Iter(R, 8, R.xor(low, b)), rest, bytes);
    IterAdd(R, 8 * |bytes|, 8, R.xor(low, b));
  }

  // ----- operators as matrices: row i is the image of basis word i

  ghost predicate Linear<T(!new)>(R: Register<T>, f: T -> T) {
    f(R.zero) == R.zero && forall a: T, b: T {:trigger At(a, b, b)} :: At(a, b, b) ==>
      f(R.xor(a, b)) == R.xor(f(a), f(b))
  }

  /** The xor of the rows selected by `bits`. */
  function Combine<T>(R: Register<T>, rows: seq<T>, bits: seq<bool>): T
    requires |rows| == |bits|
    decreases |rows|
  {
    if rows == [] then R.zero
    else R.xor(if bits[0] then rows[0] else R.zero, Combine(R, rows[1..], bits[1..]))
  }

  lemma {:induction false} CombineNone<T(!new)>(R: Register<T>, rows: seq<T>, bits: seq<bool>)
    requires Lawful(R) && |rows| == |bits| && forall i :: 0 <= i < |bits| ==> !bits[i]
    ensures Combine(R, rows, bits) == R.zero
    decreases |rows|
  {
    if rows != [] {
      CombineNone(R, rows[1..], bits[1..]);
      ZeroNeutral(R, R.zero);
    }
  }

  /** A linear operator is determined by its rows. */
  lemma {:induction false} CombineLinear<T(!new)>(
      R: Register<T>, f: T -> T, basis: seq<T>, rows: seq<T>, bits: seq<bool>)
    requires Lawful(R) && Linear(R, f) && |basis| == |rows| == |bits|
    requires forall i :: 0 <= i < |rows| ==> rows[i] == f(basis[i])
    ensures Combine(R, rows, bits) == f(Combine(R, basis, bits))
    decreases |rows|
  {
    if rows != [] {
      CombineLinear(R, f, basis[1..], rows[1..], bits[1..]);
      var rest := Combine(R, basis[1..], bits[1..]);
      assert At(if bits[0] then basis[0] else R.zero, rest, rest);
    }
  }

  lemma {:induction false} IterLinear<T(!new)>(R: Register<T>, n: nat)
    requires Lawful(R)
    ensures Linear(R, (x: T) => Iter(R, n, x))
  {
    IterZero(R, n);
    forall a: T, b: T | At(a, b, b) ensures Iter(R, n, R.xor(a, b)) == R.xor(Iter(R, n, a), Iter(R, n, b)) {
      IterXor(R, n, a, b);
    }
  }

  /** t[0] xor t[1] xor ..., grouped to the left. */
  function Fold<T>(R: Register<T>, t: seq<T>): T {
    if t == [] then R.zero else if |t| == 1 then t[0] else R.xor(Fold(R, t[..|t| - 1]), t[|t| - 1])
  }

  /** Grouping to the right, with the partial results in `s`, gives the same. */
  lemma {:induction false} FoldRight<T(!new)>(R: Register<T>, t: seq<T>, s: seq<T>, k: nat)
    requires Lawful(R) && |s| == |t| + 1 && 0 < k <= |t|
    requires forall i :: 0 <= i < |t| ==> s[i] == R.xor(t[i], s[i + 1])
    ensures s[0] == R.xor(Fold(R, t[..k]), s[k])
    decreases k
  {
    if k > 1 {
      FoldRight(R, t, s, k - 1);
      assert t[..k][..k - 1] == t[..k - 1];
      Assoc(R, Fold(R, t[..k - 1]), t[k - 1], s[k]);
    }
  }

  lemma {:induction false} FoldEight<T>(R: Register<T>, t: seq<T>)
    requires |t| == 8
    ensures Fold(R, t) ==
      R.xor(R.xor(R.xor(R.xor(R.xor(R.xor(R.xor(t[0], t[1]), t[2]), t[3]), t[4]), t[5]), t[6]), t[7])
  {
    var t7, t6, t5, t4, t3, t2, t1 := t[..7], t[..6], t[..5], t[..4], t[..3], t[..2], t[..1];
    assert t7[..6] == t6 && t6[..5] == t5 && t5[..4] == t4 && t4[..3] == t3 && t3[..2] == t2 && t2[..1] == t1;
    assert Fold(R, t1) == t[0];
    assert Fold(R, t2) == R.xor(t[0], t[1]);
    assert Fold(R, t3) == R.xor(Fold(R, t2), t[2]);
    assert Fold(R, t4) == R.xor(Fold(R, t3), t[3]);
    assert Fold(R, t5) == R.xor(Fold(R, t4), t[4]);
    assert Fold(R, t6) == R.xor(Fold(R, t5), t[5]);
    assert Fold(R, t7) == R.xor(Fold(R, t6), t[6]);
  }

  // ----- lanes

  /** Bytes `from` up to `upto` of the buffer, run from register `c`. */
  function Part<T>(R: Register<T>, c: T, buf: seq<T>, from: nat, upto: nat): T
    requires from <= upto <= |buf|
  {
    if from == upto then c else ByteStep(R, Part(R, c, buf, from, upto - 1), buf[upto - 1])
  }

  lemma {:induction false} PartIsRun<T>(R: Register<T>, c: T, buf: seq<T>, from: nat, upto: nat)
    requires from <= upto <= |buf|
    ensures Part(R, c, buf, from, upto) == Run(R, c, buf[from..upto])
    decreases upto
  {
    if from < upto {
      PartIsRun(R, c, buf, from, upto - 1);
      assert buf[from..upto][..upto - from - 1] == buf[from..upto - 1];
    }
  }

  lemma {:induction false} PartJoin<T>(R: Register<T>, c: T, buf: seq<T>, i: nat, j: nat, k: nat)
    requires i <= j <= k <= |buf|
    ensures Part(R, Part(R, c, buf, i, j), buf, j, k) == Part(R, c, buf, i, k)
    decreases k
  {
    if j < k { PartJoin(R, c, buf, i, j, k - 1); }
  }

  /** A lane of `n` bytes run from 0 is joined to what precedes it by appending as many zeros there. */
  lemma {:induction false} LaneJoin<T(!new)>(R: Register<T>, c: T, buf: seq<T>, i: nat, j: nat, k: nat, n: nat)
    requires Lawful(R) && i <= j <= k <= |buf| && k - j == n
    ensures Part(R, c, buf, i, k) == R.xor(Iter(R, 8 * n, Part(R, c, buf, i, j)), Part(R, R.zero, buf, j, k))
  {
    PartJoin(R, c, buf, i, j, k);
    PartIsRun(R, Part(R, c, buf, i, j), buf, j, k);
    PartIsRun(R, R.zero, buf, j, k);
    RunSplit(R, Part(R, c, buf, i, j), buf[j..k]);
  }

  /** The inner loop of a round: three lanes of `words` quadwords each, in parallel. */
  method RunLanes<T>(R: Register<T>, words: nat, crc: T, buf: seq<T>, l0: nat, l1: nat, l2: nat, end: nat)
    returns (crc0: T, crc1: T, crc2: T)
    requires l1 - l0 == l2 - l1 == end - l2 == 8 * words && end <= |buf|
    ensures crc0 == Part(R, crc, buf, l0, l1)
    ensures crc1 == Part(R, R.zero, buf, l1, l2)
    ensures crc2 == Part(R, R.zero, buf, l2, end)
  {
    crc0, crc1, crc2 := crc, R.zero, R.zero;
    var n0, n1, n2 := l0, l1, l2;
    for k := 0 to words
      invariant n0 == l0 + 8 * k && n1 == l1 + 8 * k && n2 == l2 + 8 * k
      invariant crc0 == Part(R, crc, buf, l0, n0)
      invariant crc1 == Part(R, R.zero, buf, l1, n1)
      invariant crc2 == Part(R, R.zero, buf, l2, n2)
    {
      var m0, m1, m2 := n0 + 8, n1 + 8, n2 + 8;
      PartJoin(R, crc, buf, l0, n0, m0);
      PartJoin(R, R.zero, buf, l1, n1, m1);
      PartJoin(R, R.zero, buf, l2, n2, m2);
      crc0, crc1, crc2 := Part(R, crc0, buf, n0, m0), Part(R, crc1, buf, n1, m1), Part(R, crc2, buf, n2, m2);
      n0, n1, n2 := m0, m1, m2;
    }
  }

  /** Two shifts by one lane join the three lanes. */
  lemma {:induction false} JoinThree<T(!new)>(
      R: Register<T>, lane: nat, c: T, buf: seq<T>, l0: nat, l1: nat, l2: nat, end: nat)
    requires Lawful(R) && l1 - l0 == l2 - l1 == end - l2 == lane && end <= |buf|
    ensures R.xor(Iter(R, 8 * lane, R.xor(Iter(R, 8 * lane, Part(R, c, buf, l0, l1)), Part(R, R.zero, buf, l1, l2))),
              Part(R, R.zero, buf, l2, end)) == Part(R, c, buf, l0, end)
  {
    LaneJoin(R, c, buf, l0, l1, l2, lane);
    LaneJoin(R, c, buf, l0, l2, end, lane);
  }

  /** Single bytes, up to the next eight-byte boundary of the address or up to the end. */
  method SingleBytes<T>(
      R: Register<T>, crc: T, buf: seq<T>, from: nat, address: nat, toBoundary: bool) returns (r: T, next: nat)
    requires from <= |buf|
    ensures from <= next <= |buf| && r == Part(R, crc, buf, from, next)
    ensures !toBoundary ==> next == |buf|
  {
    r, next := crc, from;
    while next < |buf| && (!toBoundary || (address + next) % 8 != 0)
      invariant from <= next <= |buf| && r == Part(R, crc, buf, from, next)
    {
      r, next := ByteStep(R, r, buf[next]), next + 1;
    }
  }

  /** The whole eight-byte units that are left. */
  method Quadwords<T>(R: Register<T>, crc: T, buf: seq<T>, from: nat) returns (r: T, next: nat)
    requires from <= |buf|
    ensures from <= next <= |buf| && r == Part(R, crc, buf, from, next)
  {
    r, next := crc, from;
    var end := next + (|buf| - next) / 8 * 8;
    while next < end
      invariant from <= next <= end <= |buf| && (end - next) % 8 == 0 && r == Part(R, crc, buf, from, next)
    {
      PartJoin(R, crc, buf, from, next, next + 8);
      r, next := Part(R, r, buf, next, next + 8), next + 8;
    }
  }
}
