/** Quorum safety for clusters that hold the key on its homes only. A parity that is then looked up on a drive that is
no home is found absent. This costs less than a parity looked up on a wrong home: the exact condition is finer. */
module ClusterHomes {
  import opened Sequences
  import opened Election
  import opened LinearAlgebra
  import opened Laws
  import opened Redundancy
  import opened Striping
  import opened StripeAccess
  import opened Placement
  import opened ClusterAccess
  import opened ClusterSafety

  /** Drives other than the homes of the chunks hold nothing under the key. */
  ghost predicate HomesOnly<T>(l: Layout, size: nat, cluster: seq<Slot<T>>)
    requires l.Valid()
  {
    |cluster| == l.n && forall d :: 0 <= d < l.n && Index(l, d) >= size ==> cluster[d] == Vacant
  }

  /** Where parity j is looked up, counted around the ring from the home of chunk 0. */
  function Sought(l: Layout, nData: nat, nParity: nat, j: nat): nat
    requires l.Valid() && j < nParity
  {
    Index(l, l.Asked(nData, nParity)[nData + j])
  }

  /** Every parity is looked up on a drive that is no home. */
  predicate Astray(l: Layout, nData: nat, nParity: nat)
    requires l.Valid()
  {
    forall j :: 0 <= j < nParity ==> Sought(l, nData, nParity, j) >= nData + nParity
  }

  lemma {:induction false} DataIndex(l: Layout, nData: nat, nParity: nat, i: nat)
    requires l.Valid() && i < nData && nData + nParity <= l.n
    ensures Index(l, l.Asked(nData, nParity)[i]) == i
  {
    IndexIs(l, i);
    assert l.Asked(nData, nParity)[i] == Around(First(l.hash, 0, l.n), i, l.n);
  }

  /** Different parities are looked up on different drives. */
  lemma {:induction false} SoughtApart(l: Layout, nData: nat, nParity: nat, i: nat, j: nat)
    requires l.Valid() && nParity <= l.n && i < nParity && j < nParity && i != j
    ensures Sought(l, nData, nParity, i) != Sought(l, nData, nParity, j)
  {
    AskedIndex(l, nData, nParity, i);
    AskedIndex(l, nData, nParity, j);
  }

  /** After a harmful wrap no parity is looked up at its own home. */
  lemma {:induction false} SoughtElsewhere(l: Layout, nData: nat, nParity: nat, j: nat)
    requires l.Valid() && nData > nParity > j && nData + nParity <= l.n && !l.Straight(nData, nParity)
    ensures Sought(l, nData, nParity, j) != nData + j
  {
    FirstMoves(l.hash, 0, nData, l.n);
    assert Index(l, First(l.hash, nData, l.n)) != nData;
    AskedIndex(l, nData, nParity, j);
  }

  // ----- parity rows of a code differ

  lemma {:induction false} DotHot<T(!new)>(R: Ring<T>, u: Vec<T>, x: Vec<T>, k: nat)
    requires Lawful(R) && |u| == |x| && k < |x| && forall i :: 0 <= i < |x| && i != k ==> x[i] == R.zero
    ensures Dot(R, u, x) == R.mul(u[k], x[k])
    decreases |u|
  {
    var n := |u| - 1;
    if k == n {
      DotNothing(R, u[..n], x[..n]);
      assert At(R.zero, R.mul(u[k], x[k]), R.zero) && At(R.mul(u[k], x[k]), R.zero, R.zero);
    } else {
      DotHot(R, u[..n], x[..n], k);
      assert At(u[n], R.zero, R.zero) && At(R.mul(u[k], x[k]), R.zero, R.zero);
    }
  }

  function Single<T>(x: Vec<T>): (data: Mat<T>)
    ensures |data| == |x| && IsMatrix(data, |x|, 1)
  {
    seq(|x|, i requires 0 <= i < |x| => [x[i]])
  }

  lemma {:induction false} SingleCodeword<T(!new)>(code: Code<T>, x: Vec<T>, i: nat)
    requires code.Valid() && |x| == code.nData && i < code.Size()
    ensures code.Codeword(Single(x), 1)[i] == [Dot(code.R, code.Effective()[i], x)]
  {
    assert Column(Single(x), 1, 0) == x;
  }

  /** Symbols that agree in enough blocks of their code words are the same. */
  lemma {:induction false} DecodesOne<T(!new)>(code: Code<T>, pattern: seq<bool>, x: Vec<T>, y: Vec<T>)
    requires code.Valid() && code.Recoverable(pattern) && |x| == |y| == code.nData
    requires forall i :: 0 <= i < code.Size() && !pattern[i] ==>
      Dot(code.R, code.Effective()[i], x) == Dot(code.R, code.Effective()[i], y)
    ensures x == y
  {
    var w := code.Codeword(Single(x), 1);
    var stripe: seq<Block<T>> := seq(code.Size(), i requires 0 <= i < code.Size() => if pattern[i] then [] else w[i]);
    assert code.Pattern(stripe) == pattern;
    forall i | 0 <= i < code.Size() && !pattern[i] ensures stripe[i] == code.Codeword(Single(y), 1)[i] {
      SingleCodeword(code, x, i);
      SingleCodeword(code, y, i);
    }
    code.CompletedIsCodeword(stripe, Single(x), 1);
    code.CompletedIsCodeword(stripe, Single(y), 1);
    code.DataIsPrefix(Single(x), 1);
    code.DataIsPrefix(Single(y), 1);
    assert Single(x) == Single(y);
    forall i | 0 <= i < |x| ensures x[i] == y[i] { assert Single(x)[i] == [x[i]] && Single(y)[i] == [y[i]]; }
  }

  /** Data chunks 0 and 1 are missing, and all parities but two. */
  function TwoForTwo(nData: nat, nParity: nat, p: nat, q: nat): (b: seq<bool>)
    ensures |b| == nData + nParity
  {
    seq(nData + nParity, i => i < 2 || (i >= nData && i != p && i != q))
  }

  lemma {:induction false} TwoForTwoCount(nData: nat, nParity: nat, p: nat, q: nat)
    requires 2 <= nData <= p < nData + nParity && nData <= q < nData + nParity && p != q
    ensures |Where(TwoForTwo(nData, nParity, p, q), true)| == nParity
  {
    var f, all := TwoForTwo(nData, nParity, p, q), AllParities(nData, nParity);
    AllParitiesCount(nData, nParity);
    CountTwoLess(all, p, q);
    CountTwoLess(f, 0, 1);
    assert all[p := false][q := false] == f[0 := false][1 := false];
    WhereCounts(f, true);
  }

  function AllParities(nData: nat, nParity: nat): (b: seq<bool>)
    ensures |b| == nData + nParity
  {
    seq(nData + nParity, i => i >= nData)
  }

  lemma {:induction false} AllParitiesCount(nData: nat, nParity: nat)
    ensures Count(AllParities(nData, nParity), true) == nParity
  {
    var all := AllParities(nData, nParity);
    AllMarked(all, nData);
    NothingMarked(all[..nData]);
    WhereCounts(all, true);
  }

  lemma {:induction false} CountTwoLess(b: seq<bool>, p: nat, q: nat)
    requires p < |b| && q < |b| && p != q && b[p] && b[q]
    ensures Count(b[p := false][q := false], true) == Count(b, true) - 2
  {
    CountUpdate(b, p, true, false);
    CountUpdate(b[p := false], q, true, false);
  }

  function Hot<T>(zero: T, n: nat, k: nat, a: T): (x: Vec<T>)
    ensures |x| == n && forall i :: 0 <= i < n ==> x[i] == if i == k then a else zero
  {
    seq(n, i => if i == k then a else zero)
  }

  /** Two parity rows cannot be the same, or two parities would tell no more than one. */
  lemma {:induction false} RowsDiffer<T(!new)>(code: Code<T>, p: nat, q: nat)
    requires code.Valid() && 2 <= code.nData <= p < code.Size() && code.nData <= q < code.Size() && p != q
    requires code.R.zero != code.R.one
    ensures code.Effective()[p] != code.Effective()[q]
  {
    var R, e := code.R, code.Effective()[p];
    var none := e[0] == R.zero && e[1] == R.zero;
    var a, b := if none then R.one else e[1], if none then R.zero else e[0];
    var x, y := Hot(R.zero, code.nData, 0, a), Hot(R.zero, code.nData, 1, b);
    var pattern := TwoForTwo(code.nData, code.nParity, p, q);
    TwoForTwoCount(code.nData, code.nParity, p, q);
    assert x[0] == a && y[0] == R.zero && x[1] == R.zero && y[1] == b;
    assert x != y;
    if code.Effective()[p] == code.Effective()[q] {
      forall i | 0 <= i < code.Size() && !pattern[i]
        ensures Dot(R, code.Effective()[i], x) == Dot(R, code.Effective()[i], y)
      {
        SameProducts(code, i, x, y);
      }
      DecodesOne(code, pattern, x, y);
    }
  }

  lemma {:induction false} RowsDifferAt<T(!new)>(code: Code<T>, p: nat, q: nat) returns (k: nat)
    requires code.Valid() && 2 <= code.nData <= p < code.Size() && code.nData <= q < code.Size() && p != q
    requires code.R.zero != code.R.one
    ensures k < code.nData && code.Effective()[p][k] != code.Effective()[q][k]
  {
    RowsDiffer(code, p, q);
    var e, f := code.Effective()[p], code.Effective()[q];
    k :| k < code.nData && e[k] != f[k];
  }

  lemma {:induction false} SameProducts<T(!new)>(code: Code<T>, i: nat, x: Vec<T>, y: Vec<T>)
    requires code.Valid() && 2 <= i < code.Size() && |x| == |y| == code.nData >= 2
    requires forall m :: 0 <= m < |x| ==> (m != 0 ==> x[m] == code.R.zero) && (m != 1 ==> y[m] == code.R.zero)
    requires i >= code.nData ==> var e := code.Effective()[i];
      (x[0] == e[1] && y[1] == e[0]) || (e[0] == e[1] == y[1] == code.R.zero)
    ensures Dot(code.R, code.Effective()[i], x) == Dot(code.R, code.Effective()[i], y)
  {
    var R, e := code.R, code.Effective()[i];
    DotHot(R, e, x, 0);
    DotHot(R, e, y, 1);
    if i < code.nData { assert e == UnitRow(R, code.nData, i); }
    assert At(e[0], e[1], R.zero) && At(x[0], R.zero, R.zero) && At(y[1], R.zero, R.zero);
    assert At(R.zero, x[0], R.zero) && At(R.zero, y[1], R.zero);
  }

  // ----- a parity taken for another one

  /** The data chunks of a value with one symbol. */
  lemma {:induction false} HotData<T(!new)>(code: Code<T>, cap: nat, a: T, k: nat, m: nat)
    requires code.Valid() && cap > 0 && k < code.nData && m < code.nData
    ensures var data := DataChunks(code.R.zero, OneHot(code.R.zero, a, cap, code.nData, k), cap, code.nData);
      data[m] == if m == k then Hot(code.R.zero, cap, 0, a) else Repeat(code.R.zero, cap)
  {
    var value := OneHot(code.R.zero, a, cap, code.nData, k);
    var data := DataChunks(code.R.zero, value, cap, code.nData);
    FullStripe(code, cap, value);
    FullChunk(code, cap, value, m);
    code.DataIsPrefix(data, cap);
    assert code.Codeword(data, cap)[..code.nData][m] == data[m];
    if m != k { OneHotStripe(code, cap, a, k, m); }
  }

  /** And its parities. */
  lemma {:induction false} HotParity<T(!new)>(code: Code<T>, cap: nat, a: T, k: nat, i: nat)
    requires code.Valid() && cap > 0 && k < code.nData && i < code.Size()
    ensures StripeOf(code, cap, OneHot(code.R.zero, a, cap, code.nData, k))[i] ==
      Hot(code.R.zero, cap, 0, code.R.mul(code.Effective()[i][k], a))
  {
    var value, e := OneHot(code.R.zero, a, cap, code.nData, k), code.Effective()[i];
    var data := DataChunks(code.R.zero, value, cap, code.nData);
    FullStripe(code, cap, value);
    forall m | 0 <= m < code.nData
      ensures data[m] == if m == k then Hot(code.R.zero, cap, 0, a) else Repeat(code.R.zero, cap)
    {
      HotData(code, cap, a, k, m);
    }
    forall b | 0 <= b < cap
      ensures code.Codeword(data, cap)[i][b] == if b == 0 then code.R.mul(e[k], a) else code.R.zero
    {
      var x := Column(data, cap, b);
      if b == 0 { DotHot(code.R, e, x, k); } else { DotNothing(code.R, e, x); }
    }
  }

  /** The drives that answer: the homes of the data chunks but k, and one more. */
  function Answering(l: Layout, nData: nat, k: nat, index: nat): (reach: seq<bool>)
    requires l.Valid()
    ensures |reach| == l.n
  {
    seq(l.n, d requires 0 <= d < l.n => (Index(l, d) < nData && Index(l, d) != k) || Index(l, d) == index)
  }

  /** Which chunks are then answered for, if no parity is looked up at the home of a data chunk. */
  lemma {:induction false} AnsweredFor(l: Layout, nData: nat, nParity: nat, k: nat, j: nat, i: nat)
    requires l.Valid() && nData + nParity <= l.n && k < nData && j < nParity && i < nData + nParity
    requires forall h :: 0 <= h < nParity ==> Sought(l, nData, nParity, h) >= nData
    ensures Pick(Answering(l, nData, k, Sought(l, nData, nParity, j)), l.Asked(nData, nParity))[i] <==>
      (i < nData && i != k) || i == nData + j
  {
    if i < nData {
      DataIndex(l, nData, nParity, i);
    } else if i != nData + j {
      SoughtApart(l, nData, nParity, i - nData, j);
    }
  }

  /** Two values that look the same without chunk k, if parity p of the first is taken for parity q of the second. */
  ghost predicate Alike<T(!new)>(code: Code<T>, cap: nat, k: nat, p: nat, q: nat, value: seq<T>, other: seq<T>)
    requires code.Valid() && cap > 0 && p < code.Size() && q < code.Size()
  {
    && SameChunk(code, cap, value, p, other, q)
    && forall i :: 0 <= i < code.nData && i != k ==> SameChunk(code, cap, value, i, other, i)
  }

  /** Chunk m of the first value is what chunk i of the second would be. */
  ghost predicate SameChunk<T(!new)>(code: Code<T>, cap: nat, value: seq<T>, m: nat, other: seq<T>, i: nat)
    requires code.Valid() && cap > 0 && m < code.Size() && i < code.Size()
  {
    StripeOf(code, cap, value)[m] == StripeOf(code, cap, other)[i]
  }

  lemma {:induction false} HotsAreAlike<T(!new)>(code: Code<T>, cap: nat, k: nat, p: nat, q: nat, e: T, f: T)
    requires code.Valid() && cap > 0 && k < code.nData && p < code.Size() && q < code.Size()
    requires e == code.Effective()[p][k] && f == code.Effective()[q][k]
    ensures Alike(code, cap, k, p, q, OneHot(code.R.zero, f, cap, code.nData, k),
      OneHot(code.R.zero, e, cap, code.nData, k))
  {
    HotParity(code, cap, f, k, p);
    HotParity(code, cap, e, k, q);
    assert At(e, f, code.R.zero);
    var value, other := OneHot(code.R.zero, f, cap, code.nData, k), OneHot(code.R.zero, e, cap, code.nData, k);
    forall i | 0 <= i < code.nData && i != k ensures SameChunk(code, cap, value, i, other, i) {
      OneHotStripe(code, cap, e, k, i);
      OneHotStripe(code, cap, f, k, i);
    }
  }

  /** With the drives in `reach` alone, the stripe of the first value on its homes looks like that of the second. */
  ghost predicate Misleads<T(!new)>(
      code: Code<T>, cap: nat, l: Layout, value: seq<T>, other: seq<T>, reach: seq<bool>)
    requires code.Valid() && cap > 0 && l.Valid()
  {
    && |reach| == l.n && |value| == |other| == code.nData * cap && value != other
    && Count(Pick(reach, l.Asked(code.nData, code.nParity)), true) >= code.nData
    && forall i :: 0 <= i < code.Size() && Pick(reach, l.Asked(code.nData, code.nParity))[i] ==>
         LooksLike(code, cap, l, value, other, i)
  }

  /** The drive asked for chunk i holds what would be chunk i of the other value. */
  ghost predicate LooksLike<T(!new)>(code: Code<T>, cap: nat, l: Layout, value: seq<T>, other: seq<T>, i: nat)
    requires code.Valid() && cap > 0 && l.Valid() && i < code.Size()
  {
    var m := Index(l, l.Asked(code.nData, code.nParity)[i]);
    m < code.Size() && SameChunk(code, cap, value, m, other, i)
  }

  /** A parity that is looked up at the home of another one: the one symbol of the value is read as another. */
  lemma {:induction false} ParityForParity<T(!new)>(code: Code<T>, cap: nat, l: Layout, j: nat)
    returns (value: seq<T>, other: seq<T>, reach: seq<bool>)
    requires code.Valid() && cap > 0 && l.Valid() && code.Size() <= l.n && code.nData > code.nParity > j
    requires code.R.zero != code.R.one && code.nData + j != Sought(l, code.nData, code.nParity, j) < code.Size()
    requires forall h :: 0 <= h < code.nParity ==> Sought(l, code.nData, code.nParity, h) >= code.nData
    ensures Misleads(code, cap, l, value, other, reach)
  {
    var p := Sought(l, code.nData, code.nParity, j);
    var k := RowsDifferAt(code, p, code.nData + j);
    reach := Answering(l, code.nData, k, p);
    JustEnoughAnswered(l, code.nData, code.nParity, k, j);
    value, other := SymbolMisleads(code, cap, l, j, k, p, reach);
  }

  lemma {:induction false} SymbolMisleads<T(!new)>(
      code: Code<T>, cap: nat, l: Layout, j: nat, k: nat, p: nat, reach: seq<bool>)
    returns (value: seq<T>, other: seq<T>)
    requires code.Valid() && cap > 0 && l.Valid() && code.Size() <= l.n && j < code.nParity && k < code.nData
    requires p == Sought(l, code.nData, code.nParity, j) < code.Size() && |reach| == l.n
    requires code.Effective()[p][k] != code.Effective()[code.nData + j][k]
    requires JustEnough(l, code.nData, code.nParity, k, j, reach)
    ensures Misleads(code, cap, l, value, other, reach)
  {
    var e, f := code.Effective()[p][k], code.Effective()[code.nData + j][k];
    value, other := OneHot(code.R.zero, f, cap, code.nData, k), OneHot(code.R.zero, e, cap, code.nData, k);
    HotsAreAlike(code, cap, k, p, code.nData + j, e, f);
    HotsDiffer(code.R.zero, e, f, cap, code.nData, k);
    AlikeMisleads(code, cap, l, j, k, p, value, other, reach);
  }

  lemma {:induction false} AlikeMisleads<T(!new)>(
      code: Code<T>, cap: nat, l: Layout, j: nat, k: nat, p: nat, value: seq<T>, other: seq<T>, reach: seq<bool>)
    requires code.Valid() && cap > 0 && l.Valid() && code.Size() <= l.n && j < code.nParity && |reach| == l.n
    requires p == Sought(l, code.nData, code.nParity, j) < code.Size()
    requires |value| == |other| == code.nData * cap && value != other
    requires Alike(code, cap, k, p, code.nData + j, value, other)
    requires JustEnough(l, code.nData, code.nParity, k, j, reach)
    ensures Misleads(code, cap, l, value, other, reach)
  {
    forall i | 0 <= i < code.Size() && Pick(reach, l.Asked(code.nData, code.nParity))[i]
      ensures LooksLike(code, cap, l, value, other, i)
    {
      AlikeLooksLike(code, cap, l, j, k, p, value, other, i);
    }
  }

  lemma {:induction false} AlikeLooksLike<T(!new)>(
      code: Code<T>, cap: nat, l: Layout, j: nat, k: nat, p: nat, value: seq<T>, other: seq<T>, i: nat)
    requires code.Valid() && cap > 0 && l.Valid() && code.Size() <= l.n && j < code.nParity && i < code.Size()
    requires p == Sought(l, code.nData, code.nParity, j) < code.Size()
    requires Alike(code, cap, k, p, code.nData + j, value, other) && ((i < code.nData && i != k) || i == code.nData + j)
    ensures LooksLike(code, cap, l, value, other, i)
  {
    if i < code.nData {
      DataIndex(l, code.nData, code.nParity, i);
      assert SameChunk(code, cap, value, i, other, i);
    }
  }

  /** A data quorum of chunks is answered for, none of them but parity j and data chunks other than k. */
  ghost predicate JustEnough(l: Layout, nData: nat, nParity: nat, k: nat, j: nat, reach: seq<bool>)
    requires l.Valid() && |reach| == l.n
  {
    var b := Pick(reach, l.Asked(nData, nParity));
    Count(b, true) >= nData && forall i :: 0 <= i < |b| && b[i] ==> (i < nData && i != k) || i == nData + j
  }

  lemma {:induction false} JustEnoughAnswered(l: Layout, nData: nat, nParity: nat, k: nat, j: nat)
    requires l.Valid() && nData > nParity && nData + nParity <= l.n && k < nData && j < nParity
    requires forall h :: 0 <= h < nParity ==> Sought(l, nData, nParity, h) >= nData
    ensures JustEnough(l, nData, nParity, k, j, Answering(l, nData, k, Sought(l, nData, nParity, j)))
  {
    EnoughAnswered(l, nData, nParity, k, j);
    var b := Pick(Answering(l, nData, k, Sought(l, nData, nParity, j)), l.Asked(nData, nParity));
    forall i | 0 <= i < |b| && b[i] ensures (i < nData && i != k) || i == nData + j {
      AnsweredFor(l, nData, nParity, k, j, i);
    }
  }

  lemma {:induction false} HotsDiffer<T>(zero: T, a: T, b: T, cap: nat, n: nat, k: nat)
    requires a != b && k < n && cap > 0
    ensures OneHot(zero, a, cap, n, k) != OneHot(zero, b, cap, n, k)
  {
    assert OneHot(zero, a, cap, n, k)[k * cap] == a && OneHot(zero, b, cap, n, k)[k * cap] == b;
  }

  lemma {:induction false} EnoughAnswered(l: Layout, nData: nat, nParity: nat, k: nat, j: nat)
    requires l.Valid() && nData > nParity && nData + nParity <= l.n && k < nData && j < nParity
    requires Sought(l, nData, nParity, j) != k
    ensures Count(Pick(Answering(l, nData, k, Sought(l, nData, nParity, j)), l.Asked(nData, nParity)), true) >= nData
  {
    var b := Pick(Answering(l, nData, k, Sought(l, nData, nParity, j)), l.Asked(nData, nParity));
    forall i | 0 <= i < nData ensures b[i] <==> i != k { DataIndex(l, nData, nParity, i); }
    EnoughAnswer(b, nData, k, nData + j);
  }

  /** If what is answered looks like another value, this is what is read. */
  lemma {:induction false} MisledGet<T(!new)>(
      code: Code<T>, cap: nat, chk: Block<T> -> nat, v: Version, l: Layout, value: seq<T>, other: seq<T>,
      reach: seq<bool>)
    requires code.Valid() && cap > 0 && l.Valid() && code.nData > code.nParity
    requires Misleads(code, cap, l, value, other, reach) && v.size == |value|
    ensures Get(code, chk, l, Alone(code, cap, chk, v, value, l), reach) == GetOk(v, other)
  {
    var asked, cluster := l.Asked(code.nData, code.nParity), Alone(code, cap, chk, v, value, l);
    var slots := seq(code.Size(), i requires 0 <= i < code.Size() => StripeSlot(code, cap, chk, v, other, i));
    forall i | 0 <= i < code.Size() && Pick(reach, asked)[i] ensures cluster[asked[i]] == slots[i] {
      assert LooksLike(code, cap, l, value, other, i);
    }
    assert AnswersOf(cluster, reach, asked) == Ask(slots, Pick(reach, asked));
    ReadsStripe(code, cap, chk, v, other, slots, Pick(reach, asked));
  }

  // ----- a data chunk taken for a parity

  /** A parity that is looked up at the home of a data chunk: the value is read as zeros. */
  lemma {:induction false} DataForParity<T(!new)>(code: Code<T>, cap: nat, l: Layout, j: nat)
    returns (value: seq<T>, other: seq<T>, reach: seq<bool>)
    requires code.Valid() && cap > 0 && l.Valid() && code.Size() <= l.n && code.nData > code.nParity > j
    requires code.R.zero != code.R.one && Sought(l, code.nData, code.nParity, j) < code.nData
    ensures Misleads(code, cap, l, value, other, reach)
  {
    var d := Sought(l, code.nData, code.nParity, j);
    var k := if d == 0 then 1 else 0;
    value := OneHot(code.R.zero, code.R.one, cap, code.nData, k);
    other := Repeat(code.R.zero, |value|);
    reach := Answering(l, code.nData, k, d);
    assert value[k * cap] != other[k * cap];
    forall i | 0 <= i < code.Size() && Pick(reach, l.Asked(code.nData, code.nParity))[i]
      ensures LooksLike(code, cap, l, value, other, i)
    {
      ZeroStripe(code, cap, i);
      OneHotStripe(code, cap, code.R.one, k, Index(l, l.Asked(code.nData, code.nParity)[i]));
    }
    EnoughAnswered(l, code.nData, code.nParity, k, j);
  }

  // ----- parities found absent

  /** With all parities looked up on drives that are no homes, and data chunks 0 to numParity - 1 missing. */
  ghost function Gapped<T(!new)>(
      code: Code<T>, cap: nat, chk: Block<T> -> nat, v: Version, value: seq<T>, l: Layout): (c: seq<Slot<T>>)
    requires code.Valid() && cap > 0 && l.Valid()
    ensures |c| == l.n
  {
    seq(l.n, d requires 0 <= d < l.n =>
      if Index(l, d) < code.nParity then Vacant else Alone(code, cap, chk, v, value, l)[d])
  }

  /** The first `gap` replies are absences, the others up to `n` the version, and the rest absences again. */
  ghost function Gap(v: Version, gap: nat, n: nat, size: nat): (r: seq<Reply<Version>>)
    ensures |r| == size
  {
    seq(size, i => if gap <= i < n then Found(v) else NotFound)
  }

  lemma {:induction false} GapCounts(v: Version, gap: nat, n: nat, size: nat, k: nat)
    requires gap <= n <= size && k <= size
    ensures var found := if k <= gap then 0 else if k <= n then k - gap else n - gap;
      Count(Gap(v, gap, n, size)[..k], Found(v)) == found && Count(Gap(v, gap, n, size)[..k], NotFound) == k - found
    decreases k
  {
    if k > 0 {
      GapCounts(v, gap, n, size, k - 1);
      CountPush(Gap(v, gap, n, size), k - 1, Found(v));
      CountPush(Gap(v, gap, n, size), k - 1, NotFound);
    }
  }

  /** Too few chunks are found for the version, and enough absences or not. */
  lemma {:induction false} GapAttempt<T(!new)>(
      code: Code<T>, chk: Block<T> -> nat, v: Version, answers: seq<Answer<T>>, gap: nat)
    requires code.Valid() && 0 < gap < code.nData <= |answers| && Replies(answers) == Gap(v, gap, code.nData, |answers|)
    ensures Attempt(code, chk, answers) == if gap + |answers| >= 2 * code.nData then GetNotFound else GetFailed
  {
    var r := Replies(answers);
    GapCounts(v, gap, code.nData, |answers|, |answers|);
    assert r[..|answers|] == r;
    var vc := Elected(r);
    if vc.version.Some? {
      CountPositive(r, Found(vc.version.value));
      assert vc.version.value == v || vc.frequency == 0;
    }
  }

  /** If every parity is found absent and half of the data chunks may be missing, a GET returns NOT_FOUND. */
  lemma {:induction false} FoundAbsent<T(!new)>(
      code: Code<T>, cap: nat, chk: Block<T> -> nat, v: Version, value: seq<T>, l: Layout)
    requires code.Valid() && cap > 0 && l.Valid() && code.Size() <= l.n && code.nData > code.nParity > 0
    requires Astray(l, code.nData, code.nParity) && 2 * code.nParity >= code.nData
    requires v.size == |value| <= code.nData * cap
    ensures AfterPut(code, cap, chk, v, value, Pick(Gapped(code, cap, chk, v, value, l), l.Homes(code.Size())))
    ensures Get(code, chk, l, Gapped(code, cap, chk, v, value, l), AllReachable(l.n)) == GetNotFound
  {
    GappedIsPut(code, cap, chk, v, value, l);
    GappedReplies(code, cap, chk, v, value, l);
    var answers := AnswersOf(Gapped(code, cap, chk, v, value, l), AllReachable(l.n), l.Asked(code.nData, code.nParity));
    var part := answers[..code.nData];
    forall i | 0 <= i < code.nData ensures Replies(part)[i] == Gap(v, code.nParity, code.nData, code.nData)[i] {
      assert Replies(part)[i] == Replies(answers)[i];
    }
    GapAttempt(code, chk, v, part, code.nParity);
    GapAttempt(code, chk, v, answers, code.nParity);
  }

  lemma {:induction false} GappedReplies<T(!new)>(
      code: Code<T>, cap: nat, chk: Block<T> -> nat, v: Version, value: seq<T>, l: Layout)
    requires code.Valid() && cap > 0 && l.Valid() && code.Size() <= l.n && code.nData > code.nParity
    requires Astray(l, code.nData, code.nParity)
    ensures
      var cluster := Gapped(code, cap, chk, v, value, l);
      Replies(AnswersOf(cluster, AllReachable(l.n), l.Asked(code.nData, code.nParity))) ==
        Gap(v, code.nParity, code.nData, code.Size())
  {
    forall i | 0 <= i < code.Size()
      ensures
        var d := l.Asked(code.nData, code.nParity)[i];
        if i < code.nData then Index(l, d) == i else Index(l, d) >= code.Size()
    {
      if i < code.nData {
        DataIndex(l, code.nData, code.nParity, i);
      } else {
        assert Sought(l, code.nData, code.nParity, i - code.nData) >= code.Size();
      }
    }
  }

  lemma {:induction false} GappedIsPut<T(!new)>(
      code: Code<T>, cap: nat, chk: Block<T> -> nat, v: Version, value: seq<T>, l: Layout)
    requires code.Valid() && cap > 0 && l.Valid() && code.Size() <= l.n && code.nData > code.nParity
    requires v.size == |value| <= code.nData * cap
    ensures AfterPut(code, cap, chk, v, value, Pick(Gapped(code, cap, chk, v, value, l), l.Homes(code.Size())))
  {
    var slots := Pick(Gapped(code, cap, chk, v, value, l), l.Homes(code.Size()));
    forall i | 0 <= i < code.Size()
      ensures slots[i] == if i < code.nParity then Vacant else StripeSlot(code, cap, chk, v, value, i)
    {
      IndexIs(l, i);
    }
    var r := Replies(Ask(slots, AllReachable(code.Size())));
    assert r == Gap(v, code.nParity, code.Size(), code.Size());
    GapCounts(v, code.nParity, code.Size(), code.Size(), code.Size());
    assert r[..code.Size()] == r;
  }

  // ----- where absences do no harm

  /** Absences instead of missing answers do not matter as long as there are not too many. */
  lemma {:induction false} AbsencesKeep<T(!new)>(
      code: Code<T>, chk: Block<T> -> nat, a: seq<Answer<T>>, b: seq<Answer<T>>)
    requires code.Valid() && |a| == |b| && Count(Replies(a), NotFound) < code.nData
    requires forall i :: 0 <= i < |a| ==> a[i] == b[i] || (a[i] == Got(Vacant) && b[i] == NoAnswer)
    ensures Attempt(code, chk, a) == Attempt(code, chk, b)
  {
    var r, s := Replies(a), Replies(b);
    assert Chunks(a) == Chunks(b);
    CountMono(s, NotFound, r, NotFound);
    forall i | 0 <= i < |r| && r[i].Found? ensures s[i] == r[i] && Count(r, r[i]) == Count(s, r[i]) {
      CountMono(r, r[i], s, r[i]);
      CountMono(s, r[i], r, r[i]);
    }
    SameElection(r, s);
  }

  lemma {:induction false} SameElection<V(!new)>(r: seq<Reply<V>>, s: seq<Reply<V>>)
    requires |r| == |s| && forall i :: 0 <= i < |r| ==> r[i] == s[i] || (!r[i].Found? && !s[i].Found?)
    requires forall i :: 0 <= i < |r| && r[i].Found? ==> Count(r, r[i]) == Count(s, r[i])
    ensures Elected(r) == Elected(s)
  {
    var vc := Elected(r);
    assert IsElected(r, vc);
    if vc.version.Some? {
      var p :| ElectedAt(r, p, vc.version.value) && vc.frequency == Count(r, Found(vc.version.value));
      assert ElectedAt(s, p, vc.version.value);
    }
    assert IsElected(s, vc);
    ElectionUnique(s, vc, Elected(s));
  }

  lemma {:induction false} CountRest<V>(s: seq<V>, k: nat, x: V)
    requires k <= |s|
    ensures Count(s, x) <= Count(s[..k], x) + |s| - k
    decreases |s|
  {
    if k < |s| {
      CountRest(s[..|s| - 1], k, x);
      assert s[..|s| - 1][..k] == s[..k];
    } else {
      assert s[..k] == s;
    }
  }

  /** After a completed PUT at most numParity of its homes lack the key. */
  lemma {:induction false} FewAbsent<T(!new)>(
      code: Code<T>, cap: nat, chk: Block<T> -> nat, v: Version, value: seq<T>, slots: seq<Slot<T>>, heard: seq<bool>)
    requires code.Valid() && cap > 0 && AfterPut(code, cap, chk, v, value, slots) && |heard| == code.Size()
    ensures Count(Replies(Ask(slots, heard)), NotFound) <= code.nParity
  {
    var all := Replies(Ask(slots, AllReachable(code.Size())));
    CountDisjoint(all, NotFound, Found(v));
    CountMono(Replies(Ask(slots, heard)), NotFound, all, NotFound);
  }

  /** The answers of the data homes alone. */
  function Heard(l: Layout, nData: nat, nParity: nat, reach: seq<bool>): (heard: seq<bool>)
    requires l.Valid() && |reach| == l.n
    ensures |heard| == nData + nParity
  {
    seq(nData + nParity, i requires 0 <= i < nData + nParity => i < nData && reach[l.Asked(nData, nParity)[i]])
  }

  lemma {:induction false} AnswersHeard<T(!new)>(
      code: Code<T>, l: Layout, cluster: seq<Slot<T>>, reach: seq<bool>, i: nat)
    requires l.Valid() && |reach| == l.n && HomesOnly(l, code.Size(), cluster)
    requires Astray(l, code.nData, code.nParity) && i < code.Size()
    ensures
      var a := AnswersOf(cluster, reach, l.Asked(code.nData, code.nParity))[i];
      var b := Ask(Pick(cluster, l.Homes(code.Size())), Heard(l, code.nData, code.nParity, reach))[i];
      a == b || (a == Got(Vacant) && b == NoAnswer && i >= code.nData)
  {
    if i < code.nData {
      assert l.Asked(code.nData, code.nParity)[i] == l.Homes(code.Size())[i];
    } else {
      assert Sought(l, code.nData, code.nParity, i - code.nData) >= code.Size();
    }
  }

  /** If every parity is found absent and less than half of the data chunks may be missing, a GET is safe. */
  lemma {:induction false} AstrayIsSafe<T(!new)>(
      code: Code<T>, cap: nat, chk: Block<T> -> nat, v: Version, value: seq<T>, l: Layout, cluster: seq<Slot<T>>,
      reach: seq<bool>)
    requires code.Valid() && cap > 0 && l.Valid() && HomesOnly(l, code.Size(), cluster)
    requires Astray(l, code.nData, code.nParity) && 2 * code.nParity < code.nData
    ensures Safe(code, cap, chk, v, value, l, cluster, reach)
  {
    var slots := Pick(cluster, l.Homes(code.Size()));
    if |reach| == l.n && AfterPut(code, cap, chk, v, value, slots) {
      var a := AnswersOf(cluster, reach, l.Asked(code.nData, code.nParity));
      var heard := Heard(l, code.nData, code.nParity, reach);
      var b := Ask(slots, heard);
      forall i | 0 <= i < |a| ensures a[i] == b[i] || (a[i] == Got(Vacant) && b[i] == NoAnswer && i >= code.nData) {
        AnswersHeard(code, l, cluster, reach, i);
      }
      assert a[..code.nData] == b[..code.nData];
      FewAbsences(code, a, b, cap, chk, v, value, slots, heard);
      AbsencesKeep(code, chk, a, b);
      AttemptAfterPut(code, cap, chk, v, value, slots, heard, code.nData);
      AttemptAfterPut(code, cap, chk, v, value, slots, heard, code.Size());
      assert b[..code.Size()] == b;
    }
  }

  lemma {:induction false} FewAbsences<T(!new)>(
      code: Code<T>, a: seq<Answer<T>>, b: seq<Answer<T>>, cap: nat, chk: Block<T> -> nat, v: Version, value: seq<T>,
      slots: seq<Slot<T>>, heard: seq<bool>)
    requires code.Valid() && cap > 0 && AfterPut(code, cap, chk, v, value, slots) && |heard| == code.Size()
    requires |a| == |b| == code.Size() && b == Ask(slots, heard) && a[..code.nData] == b[..code.nData]
    ensures Count(Replies(a), NotFound) <= 2 * code.nParity
  {
    FewAbsent(code, cap, chk, v, value, slots, heard);
    PrefixCount(Replies(b), code.nData, NotFound);
    CountRest(Replies(a), code.nData, NotFound);
    forall i | 0 <= i < code.nData ensures Replies(a)[i] == Replies(b)[i] {
      assert a[i] == a[..code.nData][i] && b[i] == b[..code.nData][i];
    }
    assert Replies(a)[..code.nData] == Replies(b)[..code.nData];
  }

  // ----- the theorem

  ghost predicate SafeAtHome<T(!new)>(
      code: Code<T>, cap: nat, chk: Block<T> -> nat, v: Version, value: seq<T>, l: Layout, cluster: seq<Slot<T>>,
      reach: seq<bool>)
    requires code.Valid() && cap > 0 && l.Valid()
  {
    HomesOnly(l, code.Size(), cluster) ==> Safe(code, cap, chk, v, value, l, cluster, reach)
  }

  /** What goes wrong otherwise. */
  lemma {:induction false} UnsafeAtHome<T(!new)>(code: Code<T>, cap: nat, chk: Block<T> -> nat, l: Layout)
    returns (v: Version, value: seq<T>, cluster: seq<Slot<T>>, reach: seq<bool>)
    requires code.Valid() && cap > 0 && l.Valid() && code.Size() <= l.n && code.nData > code.nParity
    requires code.R.zero != code.R.one && !l.Straight(code.nData, code.nParity)
    requires !(Astray(l, code.nData, code.nParity) && 2 * code.nParity < code.nData)
    ensures !SafeAtHome(code, cap, chk, v, value, l, cluster, reach)
  {
    if Astray(l, code.nData, code.nParity) {
      v, value, reach := Version(1, 0), [code.R.zero], AllReachable(l.n);
      cluster := Gapped(code, cap, chk, v, value, l);
      MulMono(1, code.nData, cap);
      FoundAbsent(code, cap, chk, v, value, l);
    } else {
      var other;
      v, value, reach, other := Misread(code, cap, chk, l);
      cluster := Alone(code, cap, chk, v, value, l);
      AloneIsWritten(code, cap, chk, v, value, l);
      FullyWrittenIsAfterPut(code, cap, chk, v, value, Pick(cluster, l.Homes(code.Size())));
    }
  }

  /** A parity that is looked up at a wrong home makes a complete PUT be read as another value. */
  lemma {:induction false} Misread<T(!new)>(code: Code<T>, cap: nat, chk: Block<T> -> nat, l: Layout)
    returns (v: Version, value: seq<T>, reach: seq<bool>, other: seq<T>)
    requires code.Valid() && cap > 0 && l.Valid() && code.Size() <= l.n && code.nData > code.nParity
    requires code.R.zero != code.R.one && !l.Straight(code.nData, code.nParity)
    requires !Astray(l, code.nData, code.nParity)
    ensures |reach| == l.n && v.size == |value| <= code.nData * cap && other != value
    ensures Get(code, chk, l, Alone(code, cap, chk, v, value, l), reach) == GetOk(v, other)
  {
    value, other, reach := Misleading(code, cap, l);
    v := Version(|value|, 0);
    MisledGet(code, cap, chk, v, l, value, other, reach);
  }

  lemma {:induction false} Misleading<T(!new)>(code: Code<T>, cap: nat, l: Layout)
    returns (value: seq<T>, other: seq<T>, reach: seq<bool>)
    requires code.Valid() && cap > 0 && l.Valid() && code.Size() <= l.n && code.nData > code.nParity
    requires code.R.zero != code.R.one && !l.Straight(code.nData, code.nParity)
    requires !Astray(l, code.nData, code.nParity)
    ensures Misleads(code, cap, l, value, other, reach)
  {
    if j: nat :| j < code.nParity && Sought(l, code.nData, code.nParity, j) < code.nData {
      value, other, reach := DataForParity(code, cap, l, j);
    } else {
      var j: nat :| j < code.nParity && Sought(l, code.nData, code.nParity, j) < code.Size();
      SoughtElsewhere(l, code.nData, code.nParity, j);
      value, other, reach := ParityForParity(code, cap, l, j);
    }
  }

  /** If drives that are no homes hold nothing under the key, a GET after a completed PUT never returns another value,
      another version or NOT_FOUND if and only if there is no harmful wrap, or the wrap sends all parities to such
      drives and there are more than twice as many data chunks as parities. */
  lemma {:induction false} SafetyAtHomeIsExact<T(!new)>(code: Code<T>, cap: nat, chk: Block<T> -> nat, l: Layout)
    requires code.Valid() && cap > 0 && l.Valid() && code.Size() <= l.n && code.nData > code.nParity
    requires code.R.zero != code.R.one
    ensures
      (|| l.Straight(code.nData, code.nParity)
       || (Astray(l, code.nData, code.nParity) && 2 * code.nParity < code.nData)) <==>
      forall v, value, cluster, reach :: SafeAtHome(code, cap, chk, v, value, l, cluster, reach)
  {
    if l.Straight(code.nData, code.nParity) {
      forall v, value, cluster, reach ensures SafeAtHome(code, cap, chk, v, value, l, cluster, reach) {
        StraightIsSafe(code, cap, chk, v, value, l, cluster, reach);
      }
    } else if Astray(l, code.nData, code.nParity) && 2 * code.nParity < code.nData {
      forall v, value, cluster, reach ensures SafeAtHome(code, cap, chk, v, value, l, cluster, reach) {
        if HomesOnly(l, code.Size(), cluster) { AstrayIsSafe(code, cap, chk, v, value, l, cluster, reach); }
      }
    } else {
      var v, value, cluster, reach := UnsafeAtHome(code, cap, chk, l);
    }
  }
}
