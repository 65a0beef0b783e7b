/** Quorum safety, exactly: a GET after a completed PUT never returns anything but its value if and only if the drives
it asks are the drives written.

After a harmful wrap of the hash some parity is looked up where no parity is. A value that is zero but for one symbol
then has a stripe whose remaining chunks, read from the wrong drives, are those of the all-zero value. */
module ClusterSafety {
  import opened Sequences
  import opened LinearAlgebra
  import opened Laws
  import opened Redundancy
  import opened Striping
  import opened StripeAccess
  import opened Placement
  import opened ClusterAccess

  // ----- values that fill all chunks

  lemma {:induction false} DotNothing<T(!new)>(R: Ring<T>, u: Vec<T>, x: Vec<T>)
    requires Lawful(R) && |u| == |x| && forall i :: 0 <= i < |x| ==> x[i] == R.zero
    ensures Dot(R, u, x) == R.zero
    decreases |u|
  {
    if u != [] {
      DotNothing(R, u[..|u| - 1], x[..|u| - 1]);
      assert At(u[|u| - 1], R.zero, R.zero);
      assert At(R.zero, R.zero, R.zero);
    }
  }

  /** No chunk of a value of full length is elided. */
  lemma {:induction false} FullStripe<T(!new)>(code: Code<T>, cap: nat, value: seq<T>)
    requires code.Valid() && cap > 0 && |value| == code.nData * cap
    ensures value != []
    ensures StripeOf(code, cap, value) == code.Codeword(DataChunks(code.R.zero, value, cap, code.nData), cap)
  {
    MulMono(1, code.nData, cap);
    var cs := ChunkSize(cap, |value|);
    assert cs == cap;
    UsedCovers(|value|, cap);
    FitsUsed(cap, code.nData, |value|);
    MulMono(code.nData - 1, code.nData - 1, cap);
    assert code.nData - 1 < UsedChunks(|value|, cap);
  }

  lemma {:induction false} FullChunk<T(!new)>(code: Code<T>, cap: nat, value: seq<T>, i: nat)
    requires code.Valid() && cap > 0 && |value| == code.nData * cap && i < code.nData
    ensures 0 <= i * cap <= i * cap + cap <= |value| && StripeOf(code, cap, value)[i] == value[i * cap..i * cap + cap]
  {
    FullStripe(code, cap, value);
    var data := DataChunks(code.R.zero, value, cap, code.nData);
    code.DataIsPrefix(data, cap);
    assert code.Codeword(data, cap)[..code.nData][i] == data[i];
    MulMono(0, i, cap);
    MulMono(i, code.nData - 1, cap);
    MulMono(code.nData - 1, code.nData - 1, cap);
    assert Padded(code.R.zero, value, code.nData * cap) == value;
  }

  lemma {:induction false} ZeroSlice<T>(zero: T, cap: nat, n: nat, k: nat)
    requires k < n && n * cap >= 0
    ensures DataChunks(zero, Repeat(zero, n * cap), cap, n)[k] == Repeat(zero, cap)
  {
    MulMono(0, k, cap);
    MulMono(k, n - 1, cap);
    MulMono(n - 1, n - 1, cap);
    assert Padded(zero, Repeat(zero, n * cap), n * cap) == Repeat(zero, n * cap);
  }

  /** All chunks of the all-zero value are zero. */
  lemma {:induction false} ZeroStripe<T(!new)>(code: Code<T>, cap: nat, i: nat)
    requires code.Valid() && cap > 0 && i < code.Size()
    ensures code.nData * cap >= 0
    ensures StripeOf(code, cap, Repeat(code.R.zero, code.nData * cap))[i] == Repeat(code.R.zero, cap)
  {
    MulMono(0, code.nData, cap);
    var value := Repeat(code.R.zero, code.nData * cap);
    FullStripe(code, cap, value);
    var data := DataChunks(code.R.zero, value, cap, code.nData);
    forall k | 0 <= k < code.nData ensures data[k] == Repeat(code.R.zero, cap) {
      ZeroSlice(code.R.zero, cap, code.nData, k);
    }
    forall b | 0 <= b < cap ensures code.Codeword(data, cap)[i][b] == code.R.zero {
      DotNothing(code.R, code.Effective()[i], Column(data, cap, b));
    }
  }

  /** Zero but for one symbol, at the start of chunk k. */
  function OneHot<T>(zero: T, a: T, cap: nat, n: nat, k: nat): (value: seq<T>)
    requires k < n && cap > 0
    ensures 0 <= k * cap < |value| == n * cap && value[k * cap] == a
    ensures forall i :: 0 <= i < |value| && i != k * cap ==> value[i] == zero
  {
    MulMono(0, k, cap);
    MulMono(k, n - 1, cap);
    MulMono(n - 1, n - 1, cap);
    Repeat(zero, n * cap)[k * cap := a]
  }

  lemma {:induction false} OneHotStripe<T(!new)>(code: Code<T>, cap: nat, a: T, k: nat, i: nat)
    requires code.Valid() && cap > 0 && k < code.nData && i < code.nData && i != k
    ensures StripeOf(code, cap, OneHot(code.R.zero, a, cap, code.nData, k))[i] == Repeat(code.R.zero, cap)
  {
    var value := OneHot(code.R.zero, a, cap, code.nData, k);
    FullChunk(code, cap, value, i);
    if i < k { MulMono(i + 1, k, cap); MulMono(i, i, cap); } else { MulMono(k + 1, i, cap); MulMono(k, k, cap); }
    assert value[i * cap..i * cap + cap] == Repeat(code.R.zero, cap);
  }

  // ----- the witness

  ghost function ZeroSlot<T(!new)>(code: Code<T>, cap: nat, chk: Block<T> -> nat, v: Version): Slot<T> {
    Holds(v, Repeat(code.R.zero, cap), chk(Repeat(code.R.zero, cap)))
  }

  /** The stripe of `value` at its homes, and zero chunks of the same version on all other drives. */
  ghost function Decoyed<T(!new)>(
      code: Code<T>, cap: nat, chk: Block<T> -> nat, v: Version, value: seq<T>, l: Layout): (c: seq<Slot<T>>)
    requires code.Valid() && cap > 0 && l.Valid()
    ensures |c| == l.n
  {
    seq(l.n, d requires 0 <= d < l.n =>
      var i := Index(l, d);
      if i < code.Size() then Holds(v, StripeOf(code, cap, value)[i], chk(StripeOf(code, cap, value)[i]))
      else ZeroSlot(code, cap, chk, v))
  }

  /** All drives answer but the home of chunk k and the homes of the parities. */
  function Reachable(l: Layout, nData: nat, nParity: nat, k: nat): (reach: seq<bool>)
    requires l.Valid()
    ensures |reach| == l.n
  {
    seq(l.n, d requires 0 <= d < l.n => Index(l, d) != k && !(nData <= Index(l, d) < nData + nParity))
  }

  lemma {:induction false} DecoyIsWritten<T(!new)>(
      code: Code<T>, cap: nat, chk: Block<T> -> nat, v: Version, value: seq<T>, l: Layout)
    requires code.Valid() && cap > 0 && l.Valid() && code.Size() <= l.n
    ensures FullyWritten(code, cap, chk, v, value, Pick(Decoyed(code, cap, chk, v, value, l), l.Homes(code.Size())))
  {
    forall i | 0 <= i < code.Size() ensures Index(l, l.Homes(code.Size())[i]) == i { IndexIs(l, i); }
  }

  /** Every answer is missing or a zero chunk of version v. */
  lemma {:induction false} DecoyAnswers<T(!new)>(
      code: Code<T>, cap: nat, chk: Block<T> -> nat, v: Version, l: Layout, k: nat)
    requires code.Valid() && cap > 0 && l.Valid() && k < code.nData
    ensures
      var value := OneHot(code.R.zero, code.R.one, cap, code.nData, k);
      var asked := l.Asked(code.nData, code.nParity);
      var reach := Reachable(l, code.nData, code.nParity, k);
      AnswersOf(Decoyed(code, cap, chk, v, value, l), reach, asked) ==
        Ask(Repeat(ZeroSlot(code, cap, chk, v), code.Size()), Pick(reach, asked))
  {
    var value := OneHot(code.R.zero, code.R.one, cap, code.nData, k);
    var asked, reach := l.Asked(code.nData, code.nParity), Reachable(l, code.nData, code.nParity, k);
    var cluster := Decoyed(code, cap, chk, v, value, l);
    forall i | 0 <= i < code.Size() && reach[asked[i]] ensures cluster[asked[i]] == ZeroSlot(code, cap, chk, v) {
      var d := Index(l, asked[i]);
      if d < code.nData { OneHotStripe(code, cap, code.R.one, k, d); }
    }
  }

  /** Data chunks other than k, and one parity, answer: enough to rebuild a value. */
  lemma {:induction false} EnoughAnswer(b: seq<bool>, n: nat, k: nat, p: nat)
    requires k < n <= p < |b| && b[p] && !b[k] && forall i :: 0 <= i < n && i != k ==> b[i]
    ensures Count(b, true) >= n
  {
    CountUpdate(b, p, true, false);
    PrefixCount(b[p := false], n, true);
    assert b[p := false][..n] == b[..n];
    var all := b[..n][k := true];
    CountAll(all, true);
    CountUpdate(all, k, true, false);
    assert all[k := false] == b[..n];
  }

  lemma {:induction false} DecoysAnswer(l: Layout, nData: nat, nParity: nat, j: nat, k: nat)
    requires l.Valid() && j < nParity && k < nData && nData + nParity <= l.n
    requires var d := Index(l, l.Asked(nData, nParity)[nData + j]); d != k && !(nData <= d < nData + nParity)
    ensures Count(Pick(Reachable(l, nData, nParity, k), l.Asked(nData, nParity)), true) >= nData
  {
    var asked := l.Asked(nData, nParity);
    var b := Pick(Reachable(l, nData, nParity, k), asked);
    forall i | 0 <= i < nData ensures b[i] <==> i != k {
      IndexIs(l, i);
      assert asked[i] == Around(First(l.hash, 0, l.n), i, l.n);
    }
    EnoughAnswer(b, nData, k, nData + j);
  }

  ghost function StripeSlot<T(!new)>(
      code: Code<T>, cap: nat, chk: Block<T> -> nat, v: Version, value: seq<T>, i: nat): Slot<T>
    requires code.Valid() && cap > 0 && i < code.Size()
  {
    Holds(v, StripeOf(code, cap, value)[i], chk(StripeOf(code, cap, value)[i]))
  }

  /** What looks like enough chunks of a value of full length is read as that value. */
  lemma {:induction false} ReadsStripe<T(!new)>(
      code: Code<T>, cap: nat, chk: Block<T> -> nat, v: Version, value: seq<T>, slots: seq<Slot<T>>, reach: seq<bool>)
    requires code.Valid() && cap > 0 && code.nData > code.nParity && |slots| == |reach| == code.Size()
    requires forall i :: 0 <= i < |slots| ==> slots[i] == StripeSlot(code, cap, chk, v, value, i)
    requires v.size == |value| == code.nData * cap && Count(reach, true) >= code.nData
    ensures TwoPhase(code, chk, Ask(slots, reach)) == GetOk(v, value)
  {
    FullyWrittenIsAfterPut(code, cap, chk, v, value, slots);
    TwoPhaseAfterPut(code, cap, chk, v, value, slots, reach);
    var bad := Bad(chk, v, Chunks(Ask(slots, reach)));
    ReachedAreIntact(reach, bad);
    WhereCounts(reach, true);
    FullStripe(code, cap, value);
  }

  /** Zero chunks of version v, enough of them, are read as the all-zero value. */
  lemma {:induction false} ReadsZeros<T(!new)>(
      code: Code<T>, cap: nat, chk: Block<T> -> nat, v: Version, reach: seq<bool>)
    requires code.Valid() && cap > 0 && code.nData > code.nParity && |reach| == code.Size()
    requires v.size == code.nData * cap && Count(reach, true) >= code.nData
    ensures TwoPhase(code, chk, Ask(Repeat(ZeroSlot(code, cap, chk, v), code.Size()), reach)) ==
      GetOk(v, Repeat(code.R.zero, v.size))
  {
    var zeros, slots := Repeat(code.R.zero, v.size), Repeat(ZeroSlot(code, cap, chk, v), code.Size());
    forall i | 0 <= i < code.Size() ensures slots[i] == StripeSlot(code, cap, chk, v, zeros, i) {
      ZeroStripe(code, cap, i);
    }
    ReadsStripe(code, cap, chk, v, zeros, slots, reach);
  }

  /** For every code, layout, chunk size and checksum, a harmful wrap lets a GET after a complete PUT return another
      value with status OK. */
  lemma {:induction false} WrapLosesSafety<T(!new)>(code: Code<T>, cap: nat, chk: Block<T> -> nat, l: Layout)
    returns (v: Version, value: seq<T>, cluster: seq<Slot<T>>, reach: seq<bool>)
    requires code.Valid() && cap > 0 && l.Valid() && code.Size() <= l.n && code.nData > code.nParity
    requires code.R.zero != code.R.one && !l.Straight(code.nData, code.nParity)
    ensures |cluster| == |reach| == l.n && v.size == |value| <= code.nData * cap
    ensures FullyWritten(code, cap, chk, v, value, Pick(cluster, l.Homes(code.Size())))
    ensures Get(code, chk, l, cluster, reach) == GetOk(v, Repeat(code.R.zero, v.size))
    ensures value != Repeat(code.R.zero, v.size)
  {
    var j := MisplacedParity(l, code.nData, code.nParity);
    var k := if Index(l, l.Asked(code.nData, code.nParity)[code.nData + j]) == 0 then 1 else 0;
    value := OneHot(code.R.zero, code.R.one, cap, code.nData, k);
    v := Version(|value|, 0);
    cluster, reach := Decoyed(code, cap, chk, v, value, l), Reachable(l, code.nData, code.nParity, k);
    DecoyIsWritten(code, cap, chk, v, value, l);
    DecoyAnswers(code, cap, chk, v, l, k);
    DecoysAnswer(l, code.nData, code.nParity, j, k);
    ReadsZeros(code, cap, chk, v, Pick(reach, l.Asked(code.nData, code.nParity)));
    assert value[k * cap] != Repeat(code.R.zero, v.size)[k * cap];
  }

  // ----- the theorem

  /** After a completed PUT, with whatever drives reachable, the GET returns its version and value or fails. */
  ghost predicate Safe<T(!new)>(
      code: Code<T>, cap: nat, chk: Block<T> -> nat, v: Version, value: seq<T>, l: Layout, cluster: seq<Slot<T>>,
      reach: seq<bool>)
    requires code.Valid() && cap > 0 && l.Valid()
  {
    |cluster| == |reach| == l.n && AfterPut(code, cap, chk, v, value, Pick(cluster, l.Homes(code.Size()))) ==>
      Get(code, chk, l, cluster, reach) == GetOk(v, value) || Get(code, chk, l, cluster, reach) == GetFailed
  }

  /** A GET after a completed PUT never returns another value, another version or NOT_FOUND if and only if the sum of
      hash and offset does not wrap on the way to the parities or the number of drives divides 2^32. */
  lemma {:induction false} SafetyIsExact<T(!new)>(code: Code<T>, cap: nat, chk: Block<T> -> nat, l: Layout)
    requires code.Valid() && cap > 0 && l.Valid() && code.Size() <= l.n && code.nData > code.nParity
    requires code.R.zero != code.R.one
    ensures l.Straight(code.nData, code.nParity) <==>
      forall v, value, cluster, reach :: Safe(code, cap, chk, v, value, l, cluster, reach)
  {
    if l.Straight(code.nData, code.nParity) {
      forall v, value, cluster, reach ensures Safe(code, cap, chk, v, value, l, cluster, reach) {
        StraightIsSafe(code, cap, chk, v, value, l, cluster, reach);
      }
    } else {
      var v, value, cluster, reach := WrapLosesSafety(code, cap, chk, l);
      FullyWrittenIsAfterPut(code, cap, chk, v, value, Pick(cluster, l.Homes(code.Size())));
      assert !Safe(code, cap, chk, v, value, l, cluster, reach);
    }
  }

  lemma {:induction false} StraightIsSafe<T(!new)>(
      code: Code<T>, cap: nat, chk: Block<T> -> nat, v: Version, value: seq<T>, l: Layout, cluster: seq<Slot<T>>,
      reach: seq<bool>)
    requires code.Valid() && cap > 0 && l.Valid() && code.Size() <= l.n && code.nData > code.nParity
    requires l.Straight(code.nData, code.nParity)
    ensures Safe(code, cap, chk, v, value, l, cluster, reach)
  {
    if |cluster| == |reach| == l.n && AfterPut(code, cap, chk, v, value, Pick(cluster, l.Homes(code.Size()))) {
      GetAfterPut(code, cap, chk, v, value, l, cluster, reach);
    }
  }
}
