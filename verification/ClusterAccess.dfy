/** A stripe on the drives of a cluster: where a GET looks for the chunks, and what it then returns.

PUT, scan and repair expand the drives of all chunks at once. A GET expands those of the data chunks first and those of
the parities later, with an offset; when the 32-bit sum of hash and offset wraps, these are other drives. */
module ClusterAccess {
  import opened Sequences
  import opened Election
  import opened Redundancy
  import opened Striping
  import opened StripeAccess
  import opened Placement

  /** The hash of a key, and the number of drives. */
  datatype Layout = Layout(hash: nat, n: nat) {
    predicate Valid() { hash < WIDTH && 0 < n < WIDTH }

    /** The drives that chunks are written to. */
    function Homes(size: nat): (s: seq<nat>)
      requires Valid()
      ensures |s| == size && forall i :: 0 <= i < size ==> s[i] < n
    {
      Drives(hash, size, 0, n)
    }

    /** The drives that a GET asks. */
    function Asked(nData: nat, nParity: nat): (s: seq<nat>)
      requires Valid()
      ensures |s| == nData + nParity && forall i :: 0 <= i < |s| ==> s[i] < n
    {
      Drives(hash, nData, 0, n) + Drives(hash, nParity, nData, n)
    }

    /** The sum of hash and offset does not wrap on the way to the parities, or the wrap does no harm. */
    predicate Straight(nData: nat, nParity: nat)
      requires Valid()
    {
      nParity == 0 || !WrapsBetween(hash, 0, nData) || Mod(WIDTH, n) == 0
    }

    lemma {:induction false} AskedAreHomes(nData: nat, nParity: nat)
      requires Valid() && nData < WIDTH
      ensures Asked(nData, nParity) == Homes(nData + nParity) <==> Straight(nData, nParity)
    {
      if nParity > 0 { TwoPhasesAgree(hash, nData, nParity, n); }
    }

    lemma {:induction false} StraightIsHome(nData: nat, nParity: nat)
      requires Valid() && nData < WIDTH && Straight(nData, nParity)
      ensures Asked(nData, nParity) == Homes(nData + nParity)
    {
      AskedAreHomes(nData, nParity);
    }
  }

  function Pick<A>(s: seq<A>, at: seq<nat>): (r: seq<A>)
    requires forall i :: 0 <= i < |at| ==> at[i] < |s|
    ensures |r| == |at|
  {
    seq(|at|, i requires 0 <= i < |at| => s[at[i]])
  }

  /** The answers of the drives asked. */
  function AnswersOf<T>(cluster: seq<Slot<T>>, reach: seq<bool>, asked: seq<nat>): (answers: seq<Answer<T>>)
    requires |cluster| == |reach| && forall i :: 0 <= i < |asked| ==> asked[i] < |cluster|
    ensures |answers| == |asked|
  {
    Ask(Pick(cluster, asked), Pick(reach, asked))
  }

  /** What a GET returns, with a slot and a state of reachability per drive. */
  ghost function Get<T(!new)>(
      code: Code<T>, chk: Block<T> -> nat, l: Layout, cluster: seq<Slot<T>>, reach: seq<bool>): GetResult<T>
    requires code.Valid() && l.Valid() && |cluster| == |reach| == l.n
  {
    TwoPhase(code, chk, AnswersOf(cluster, reach, l.Asked(code.nData, code.nParity)))
  }

  /** The first attempt, on the data chunks alone. */
  ghost function FirstAttempt<T(!new)>(
      code: Code<T>, chk: Block<T> -> nat, l: Layout, cluster: seq<Slot<T>>, reach: seq<bool>): GetResult<T>
    requires code.Valid() && l.Valid() && |cluster| == |reach| == l.n
  {
    Attempt(code, chk, AnswersOf(cluster, reach, l.Homes(code.nData)))
  }

  /** StripeOperation_GET::execute up to the search for handoff chunks. The parities are asked for only if the data
      chunks alone give no result. */
  method Execute<T(!new, ==)>(
      rp: RedundancyProvider<T>, chk: Block<T> -> nat, l: Layout, cluster: seq<Slot<T>>, reach: seq<bool>)
    returns (r: GetResult<T>, drives: seq<nat>)
    requires rp.Valid() && l.Valid() && |cluster| == |reach| == l.n
    modifies rp`cache
    ensures rp.Valid() && r == Get(rp.code, chk, l, cluster, reach)
    ensures drives == if FirstAttempt(rp.code, chk, l, cluster, reach).GetFailed?
      then l.Asked(rp.code.nData, rp.code.nParity) else l.Homes(rp.code.nData)
  {
    var op := new StripeOperation(l.hash, l.n);
    op.ExpandOperationVector(rp.code.nData, 0);
    var first := op.operations;
    ghost var asked := l.Asked(rp.code.nData, rp.code.nParity);
    ghost var all := AnswersOf(cluster, reach, asked);
    assert first == asked[..rp.code.nData];
    var answers := AnswersOf(cluster, reach, first);
    assert answers == all[..rp.code.nData];
    r := DoExecute(rp, chk, answers);
    drives := op.operations;
    if !r.GetFailed? {
      return;
    }
    op.ExpandOperationVector(rp.code.nParity, |op.operations|);
    assert op.operations == asked;
    drives := op.operations;
    answers := AnswersOf(cluster, reach, drives);
    r := DoExecute(rp, chk, answers);
  }

  // ----- where it holds

  /** Quorum safety and availability in one: if the drives asked are the drives written, then whatever drives are
      unreachable, a GET after a completed PUT returns that version and value if a data quorum of its chunks can be
      reached intact, and otherwise fails. It never returns another version, another value or NOT_FOUND. */
  lemma {:induction false} GetAfterPut<T(!new)>(
      code: Code<T>, cap: nat, chk: Block<T> -> nat, v: Version, value: seq<T>, l: Layout, cluster: seq<Slot<T>>,
      reach: seq<bool>)
    requires code.Valid() && cap > 0 && WIDTH > code.nData > code.nParity
    requires l.Valid() && l.Straight(code.nData, code.nParity) && |cluster| == |reach| == l.n
    requires AfterPut(code, cap, chk, v, value, Pick(cluster, l.Homes(code.Size())))
    ensures Get(code, chk, l, cluster, reach) ==
      if Enough(code, chk, v, AnswersOf(cluster, reach, l.Homes(code.Size()))) then GetOk(v, value) else GetFailed
  {
    var homes := l.Homes(code.Size());
    var slots, seen := Pick(cluster, homes), Pick(reach, homes);
    TwoPhaseAfterPut(code, cap, chk, v, value, slots, seen);
    GetAtHome(code, chk, l, cluster, reach);
  }

  /** After a completed PUT the data chunks alone are enough exactly if all of them can be read intact, or the value is
      empty and their drives answer with its version; then no parity is asked for, wrap or no wrap. */
  lemma {:induction false} DataChunksSuffice<T(!new)>(
      code: Code<T>, cap: nat, chk: Block<T> -> nat, v: Version, value: seq<T>, l: Layout, cluster: seq<Slot<T>>,
      reach: seq<bool>)
    requires code.Valid() && cap > 0 && code.nData > code.nParity && l.Valid() && |cluster| == |reach| == l.n
    requires AfterPut(code, cap, chk, v, value, Pick(cluster, l.Homes(code.Size())))
    ensures FirstAttempt(code, chk, l, cluster, reach) ==
      if Enough(code, chk, v, AnswersOf(cluster, reach, l.Homes(code.nData))) then GetOk(v, value) else GetFailed
  {
    var homes := l.Homes(code.Size());
    AttemptAfterPut(code, cap, chk, v, value, Pick(cluster, homes), Pick(reach, homes), code.nData);
    assert AnswersOf(cluster, reach, homes)[..code.nData] == AnswersOf(cluster, reach, l.Homes(code.nData));
  }

  /** A GET of a key that no drive holds returns NOT_FOUND if numData of the drives asked answer, and fails otherwise.
      */
  lemma {:induction false} GetOfNoKey<T(!new)>(
      code: Code<T>, chk: Block<T> -> nat, l: Layout, cluster: seq<Slot<T>>, reach: seq<bool>)
    requires code.Valid() && l.Valid() && |cluster| == |reach| == l.n
    requires forall d :: 0 <= d < l.n ==> cluster[d] == Vacant
    ensures Get(code, chk, l, cluster, reach) ==
      if Count(Pick(reach, l.Asked(code.nData, code.nParity)), true) >= code.nData then GetNotFound else GetFailed
  {
    var asked := l.Asked(code.nData, code.nParity);
    GetOfNothing(code, chk, Pick(cluster, asked), Pick(reach, asked));
  }

  lemma {:induction false} GetAtHome<T(!new)>(
      code: Code<T>, chk: Block<T> -> nat, l: Layout, cluster: seq<Slot<T>>, reach: seq<bool>)
    requires code.Valid() && code.nData < WIDTH && |cluster| == |reach| == l.n
    requires l.Valid() && l.Straight(code.nData, code.nParity)
    ensures Get(code, chk, l, cluster, reach) == TwoPhase(code, chk, AnswersOf(cluster, reach, l.Homes(code.Size())))
  {
    l.StraightIsHome(code.nData, code.nParity);
    assert l.Asked(code.nData, code.nParity) == l.Homes(code.Size());
  }

  lemma {:induction false} WhereCounts(b: seq<bool>, val: bool)
    ensures |Where(b, val)| == Count(b, val)
    decreases |b|
  {
    if b != [] { WhereCounts(b[..|b| - 1], val); }
  }

  /** Different positions that are not reached are on different drives. */
  lemma {:induction false} PickedSilent(reach: seq<bool>, at: seq<nat>)
    requires Distinct(at) && forall i :: 0 <= i < |at| ==> at[i] < |reach|
    ensures Count(Pick(reach, at), false) <= Count(reach, false)
    decreases |at|
  {
    if at != [] {
      var k := |at| - 1;
      var rest, d := at[..k], at[k];
      assert Pick(reach, at)[..k] == Pick(reach, rest);
      if reach[d] {
        PickedSilent(reach, rest);
      } else {
        CountUpdate(reach, d, false, true);
        PickedSilent(reach[d := true], rest);
        assert Pick(reach[d := true], rest) == Pick(reach, rest);
      }
    }
  }

  lemma {:induction false} FewerSilent(l: Layout, size: nat, reach: seq<bool>)
    requires l.Valid() && size <= l.n == |reach|
    ensures |Where(Pick(reach, l.Homes(size)), false)| <= |Where(reach, false)|
  {
    StripeIsSpread(l.hash, size, 0, l.n);
    PickedSilent(reach, l.Homes(size));
    WhereCounts(reach, false);
    WhereCounts(Pick(reach, l.Homes(size)), false);
  }

  /** Chunks that were read from their homes, at whatever time. */
  lemma {:induction false} SlotsTolerate<T(!new)>(
      code: Code<T>, cap: nat, chk: Block<T> -> nat, v: Version, value: seq<T>, l: Layout, slots: seq<Slot<T>>,
      reach: seq<bool>)
    requires code.Valid() && cap > 0 && code.nData > code.nParity && v.size == |value| <= code.nData * cap
    requires l.Valid() && code.Size() <= l.n == |reach| && |Where(reach, false)| <= code.nParity
    requires FullyWritten(code, cap, chk, v, value, slots)
    ensures TwoPhase(code, chk, Ask(slots, Pick(reach, l.Homes(code.Size())))) == GetOk(v, value)
  {
    FewerSilent(l, code.Size(), reach);
    TwoPhaseTolerates(code, cap, chk, v, value, slots, Pick(reach, l.Homes(code.Size())));
  }

  /** All chunks of `value` are in place, at most numParity drives do not answer, and the GET returns the value. */
  ghost predicate Tolerated<T(!new)>(
      code: Code<T>, cap: nat, chk: Block<T> -> nat, v: Version, value: seq<T>, l: Layout, cluster: seq<Slot<T>>,
      reach: seq<bool>)
    requires code.Valid() && cap > 0 && l.Valid()
  {
    && v.size == |value| <= code.nData * cap && |cluster| == |reach| == l.n
    && FullyWritten(code, cap, chk, v, value, Pick(cluster, l.Homes(code.Size())))
    && |Where(reach, false)| <= code.nParity
    ==> Get(code, chk, l, cluster, reach) == GetOk(v, value)
  }

  /** With all chunks in place any numParity unreachable drives are tolerated, if the drives asked are those written. */
  lemma {:induction false} ToleratesLosses<T(!new)>(
      code: Code<T>, cap: nat, chk: Block<T> -> nat, v: Version, value: seq<T>, l: Layout, cluster: seq<Slot<T>>,
      reach: seq<bool>)
    requires code.Valid() && cap > 0 && code.nData > code.nParity
    requires l.Valid() && code.Size() <= l.n && l.Straight(code.nData, code.nParity)
    ensures Tolerated(code, cap, chk, v, value, l, cluster, reach)
  {
    if |cluster| == |reach| == l.n && |Where(reach, false)| <= code.nParity && v.size == |value| <= code.nData * cap {
      GetAtHome(code, chk, l, cluster, reach);
      var homes := l.Homes(code.Size());
      FewerSilent(l, code.Size(), reach);
      if FullyWritten(code, cap, chk, v, value, Pick(cluster, homes)) {
        TwoPhaseTolerates(code, cap, chk, v, value, Pick(cluster, homes), Pick(reach, homes));
      }
    }
  }

  /** Repair restores redundancy: if `before` are the chunks of an uncorrupted stripe with a data quorum of one version,
      whatever the other drives hold, and `after` a cluster with the repaired chunks at their homes, then every chunk is
      in place, a scan asks for no action and, if the drives asked are those written, any numParity later losses are
      tolerated. The repair itself expands all drives at once and needs no such condition. */
  lemma {:induction false} RepairRestores<T(!new)>(
      code: Code<T>, chk: Block<T> -> nat, cap: nat, v: Version, value: seq<T>, l: Layout,
      before: seq<Slot<T>>, after: seq<Slot<T>>)
    requires code.Valid() && cap > 0 && code.nData > code.nParity && l.Valid() && |after| == l.n
    requires AfterPut(code, cap, chk, v, value, before) && Uncorrupted(chk, before)
    requires Pick(after, l.Homes(code.Size())) == RepairSpec(code, chk, cap, before).1
    ensures RepairSpec(code, chk, cap, before).0 == Repaired
    ensures FullyWritten(code, cap, chk, v, value, RepairSpec(code, chk, cap, before).1)
    ensures Scan(code.nData, Ask(RepairSpec(code, chk, cap, before).1, AllReachable(code.Size()))) == NoAction
    ensures code.Size() <= l.n && l.Straight(code.nData, code.nParity) ==>
      forall reach :: |reach| == l.n && |Where(reach, false)| <= code.nParity ==>
        Get(code, chk, l, after, reach) == GetOk(v, value)
  {
    RepairRewrites(code, chk, cap, v, value, before);
    WrittenScans(code, cap, chk, v, value, RepairSpec(code, chk, cap, before).1);
    if code.Size() <= l.n && l.Straight(code.nData, code.nParity) {
      forall reach | |reach| == l.n && |Where(reach, false)| <= code.nParity
        ensures Get(code, chk, l, after, reach) == GetOk(v, value)
      {
        ToleratesLosses(code, cap, chk, v, value, l, after, reach);
      }
    }
  }

  // ----- where it does not

  /** How far around the ring drive d is from the home of chunk 0. */
  function Index(l: Layout, d: nat): (i: nat)
    requires l.Valid() && d < l.n
    ensures i < l.n && Around(First(l.hash, 0, l.n), i, l.n) == d
  {
    var f := First(l.hash, 0, l.n);
    var i := if f <= d then d - f else d + l.n - f;
    AroundMoves(f, i, l.n);
    i
  }

  lemma {:induction false} IndexIs(l: Layout, i: nat)
    requires l.Valid() && i < l.n
    ensures Index(l, Around(First(l.hash, 0, l.n), i, l.n)) == i
  {
    AroundMoves(First(l.hash, 0, l.n), i, l.n);
  }

  /** Where the parities are looked up, counted around the ring. */
  lemma {:induction false} AskedIndex(l: Layout, nData: nat, nParity: nat, j: nat)
    requires l.Valid() && j < nParity <= l.n
    ensures var t := Index(l, First(l.hash, nData, l.n));
      Index(l, l.Asked(nData, nParity)[nData + j]) == if t + j < l.n then t + j else t + j - l.n
  {
    var f, g := First(l.hash, 0, l.n), First(l.hash, nData, l.n);
    var t := Index(l, g);
    AroundMoves(f, t, l.n);
    AroundMoves(g, j, l.n);
    var i := if t + j < l.n then t + j else t + j - l.n;
    AroundMoves(f, i, l.n);
    assert l.Asked(nData, nParity)[nData + j] == Around(f, i, l.n);
    IndexIs(l, i);
  }

  /** After a harmful wrap, some parity is looked up where no parity is: on the drive of a data chunk or of no chunk. */
  lemma {:induction false} MisplacedParity(l: Layout, nData: nat, nParity: nat) returns (j: nat)
    requires l.Valid() && nData > nParity && nData + nParity <= l.n && !l.Straight(nData, nParity)
    ensures j < nParity && !(nData <= Index(l, l.Asked(nData, nParity)[nData + j]) < nData + nParity)
  {
    var t := Index(l, First(l.hash, nData, l.n));
    FirstMoves(l.hash, 0, nData, l.n);
    assert t != nData;
    j := if nData < t < nData + nParity then nParity - 1 else 0;
    AskedIndex(l, nData, nParity, j);
  }

  /** Every answer is missing, absent or an empty chunk of version v, and the first one is missing. */
  ghost predicate Hollow<T>(v: Version, answers: seq<Answer<T>>) {
    && answers != [] && answers[0] == NoAnswer
    && forall i :: 0 <= i < |answers| && answers[i].Got? && answers[i].slot.Holds? ==>
         answers[i].slot.version == v && answers[i].slot.value == []
  }

  /** A nonempty value is not rebuilt from such answers. */
  lemma {:induction false} HollowFails<T(!new)>(
      code: Code<T>, chk: Block<T> -> nat, v: Version, answers: seq<Answer<T>>)
    requires code.Valid() && Hollow(v, answers) && v.size > 0
    requires Count(Replies(answers), NotFound) < code.nData
    ensures Attempt(code, chk, answers) == GetFailed
  {
    var r, vc, chunks := Replies(answers), Elected(Replies(answers)), Chunks(answers);
    if vc.frequency >= code.nData {
      CountPositive(r, Found(vc.version.value));
      assert vc.version.value == v;
      var b, z := Bad(chk, v, chunks), ZeroFilled(code.R.zero, code.nData, chk, v, chunks);
      assert b[0];
      WhereAt(b, 0, true);
      FirstSizeZero(Gather(chk, v, chunks));
      forall i | 0 <= i < |z| ensures z[i] == [] { }
      assert forall i :: 0 <= i < |z| ==> code.Pattern(z)[i];
      AllMarked(code.Pattern(z), 0);
    }
  }

  /** The stripe of the value alone on its drives. */
  ghost function Alone<T(!new)>(
      code: Code<T>, cap: nat, chk: Block<T> -> nat, v: Version, value: seq<T>, l: Layout): (c: seq<Slot<T>>)
    requires code.Valid() && cap > 0 && l.Valid()
    ensures |c| == l.n
  {
    seq(l.n, d requires 0 <= d < l.n =>
      var i := Index(l, d);
      if i < code.Size() then Holds(v, StripeOf(code, cap, value)[i], chk(StripeOf(code, cap, value)[i])) else Vacant)
  }

  lemma {:induction false} AloneIsWritten<T(!new)>(
      code: Code<T>, cap: nat, chk: Block<T> -> nat, v: Version, value: seq<T>, l: Layout)
    requires code.Valid() && cap > 0 && l.Valid() && code.Size() <= l.n
    ensures FullyWritten(code, cap, chk, v, value, Pick(Alone(code, cap, chk, v, value, l), l.Homes(code.Size())))
  {
    forall i | 0 <= i < code.Size() ensures Index(l, l.Homes(code.Size())[i]) == i { IndexIs(l, i); }
  }

  /** All drives but the listed ones. */
  function AllBut(n: nat, silent: seq<nat>): (reach: seq<bool>)
    ensures |reach| == n
  {
    seq(n, d => d !in silent)
  }

  lemma {:induction false} AllButCount(n: nat, silent: seq<nat>)
    ensures Count(AllBut(n, silent), false) <= |silent|
    decreases |silent|
  {
    var all := AllBut(n, silent);
    if silent == [] {
      CountPositive(all, false);
      assert forall i :: 0 <= i < n ==> all[i];
    } else {
      var k := |silent| - 1;
      var rest, d := silent[..k], silent[k];
      assert silent == rest + [d];
      AllButCount(n, rest);
      if d < n && !all[d] {
        CountUpdate(all, d, false, true);
        if d in rest {
          assert all == AllBut(n, rest);
        } else {
          assert all[d := true] == AllBut(n, rest);
        }
      } else {
        assert all == AllBut(n, rest);
      }
    }
  }

  /** The drive of chunk 0 and all drives asked for parities but the misplaced one. */
  ghost function Silenced(l: Layout, nData: nat, nParity: nat, j: nat): (s: seq<nat>)
    requires l.Valid() && j < nParity && nData > 0
    ensures |s| == nParity
  {
    var asked := l.Asked(nData, nParity);
    [asked[0]] + asked[nData..nData + j] + asked[nData + j + 1..]
  }

  lemma {:induction false} SingleIsElided<T(!new)>(code: Code<T>, cap: nat, x: T)
    requires code.Valid() && cap > 0
    ensures forall i :: 1 <= i < code.nData ==> StripeOf(code, cap, [x])[i] == []
  {
    assert ChunkSize(cap, 1) == 1;
    assert UsedChunks(1, 1) == 1;
  }

  lemma {:induction false} SilencedAnswers<T(!new)>(
      code: Code<T>, cap: nat, chk: Block<T> -> nat, v: Version, x: T, l: Layout, j: nat, i: nat)
    requires code.Valid() && cap > 0 && l.Valid() && code.Size() <= l.n && code.nData > code.nParity && j < code.nParity
    requires i < code.Size()
    requires var d := Index(l, l.Asked(code.nData, code.nParity)[code.nData + j]); !(code.nData <= d < code.Size())
    ensures
      var asked := l.Asked(code.nData, code.nParity);
      var a := AnswersOf(Alone(code, cap, chk, v, [x], l), AllBut(l.n, Silenced(l, code.nData, code.nParity, j)),
        asked)[i];
      && (i == 0 ==> a == NoAnswer) && (i != code.nData + j ==> a != Got(Vacant))
      && (a.Got? && a.slot.Holds? ==> a.slot.version == v && a.slot.value == [])
  {
    var asked, silent := l.Asked(code.nData, code.nParity), Silenced(l, code.nData, code.nParity, j);
    SingleIsElided(code, cap, x);
    SilencedHolds(l, code.nData, code.nParity, j, i);
    if 0 < i < code.nData {
      IndexIs(l, i);
      assert asked[i] == Around(First(l.hash, 0, l.n), i, l.n);
    } else if i == code.nData + j && Index(l, asked[i]) == 0 {
      assert asked[i] == asked[0];
      SilencedHolds(l, code.nData, code.nParity, j, 0);
    }
  }

  lemma {:induction false} SilencedHolds(l: Layout, nData: nat, nParity: nat, j: nat, i: nat)
    requires l.Valid() && j < nParity && nData > 0 && i < nData + nParity
    ensures i == 0 || (i >= nData && i != nData + j) ==> l.Asked(nData, nParity)[i] in Silenced(l, nData, nParity, j)
  {
    var asked, silent := l.Asked(nData, nParity), Silenced(l, nData, nParity, j);
    if i == 0 {
      assert silent[0] == asked[0];
    } else if nData <= i < nData + j {
      assert silent[1 + i - nData] == asked[i];
    } else if i > nData + j {
      assert silent[i - nData] == asked[i];
    }
  }

  /** For a stripe of one symbol, a harmful wrap makes the GET fail although only numParity drives are silent. */
  lemma {:induction false} WrapLosesTolerance<T(!new)>(
      code: Code<T>, cap: nat, chk: Block<T> -> nat, v: Version, x: T, l: Layout)
    returns (cluster: seq<Slot<T>>, reach: seq<bool>)
    requires code.Valid() && cap > 0 && l.Valid() && code.Size() <= l.n && code.nData > code.nParity && v.size == 1
    requires !l.Straight(code.nData, code.nParity)
    ensures |cluster| == |reach| == l.n && |Where(reach, false)| <= code.nParity
    ensures FullyWritten(code, cap, chk, v, [x], Pick(cluster, l.Homes(code.Size())))
    ensures Get(code, chk, l, cluster, reach) == GetFailed
  {
    var j := MisplacedParity(l, code.nData, code.nParity);
    var silent := Silenced(l, code.nData, code.nParity, j);
    cluster, reach := Alone(code, cap, chk, v, [x], l), AllBut(l.n, silent);
    AloneIsWritten(code, cap, chk, v, [x], l);
    AllButCount(l.n, silent);
    WhereCounts(reach, false);
    var answers := AnswersOf(cluster, reach, l.Asked(code.nData, code.nParity));
    forall i | 0 <= i < |answers|
      ensures i == 0 ==> answers[i] == NoAnswer
      ensures i != code.nData + j ==> answers[i] != Got(Vacant)
      ensures answers[i].Got? && answers[i].slot.Holds? ==> answers[i].slot.version == v && answers[i].slot.value == []
    {
      SilencedAnswers(code, cap, chk, v, x, l, j, i);
    }
    HollowGet(code, chk, v, answers, code.nData + j);
  }

  lemma {:induction false} HollowGet<T(!new)>(
      code: Code<T>, chk: Block<T> -> nat, v: Version, answers: seq<Answer<T>>, p: nat)
    requires code.Valid() && code.nData > 1 && code.nData <= p < |answers| == code.Size()
    requires v.size > 0 && Hollow(v, answers)
    requires forall i :: 0 <= i < |answers| && i != p ==> answers[i] != Got(Vacant)
    ensures TwoPhase(code, chk, answers) == GetFailed
  {
    var part := answers[..code.nData];
    CountPositive(Replies(part), NotFound);
    HollowFails(code, chk, v, part);
    var r := Replies(answers);
    var others := r[p := Failed];
    CountPositive(others, NotFound);
    if r[p] == NotFound { CountUpdate(r, p, NotFound, Failed); }
      else { assert NotFound !in r; CountPositive(r, NotFound); }
    HollowFails(code, chk, v, answers);
  }

  /** Any numParity silent drives are tolerated, for every value that fits, exactly if the sum of hash and offset does
      not wrap on the way to the parities or the number of drives divides 2^32. */
  lemma {:induction false} ToleranceIsExact<T(!new)>(code: Code<T>, cap: nat, chk: Block<T> -> nat, l: Layout)
    requires code.Valid() && cap > 0 && l.Valid() && code.Size() <= l.n && code.nData > code.nParity
    ensures l.Straight(code.nData, code.nParity) <==>
      forall v, value, cluster, reach :: Tolerated(code, cap, chk, v, value, l, cluster, reach)
  {
    if l.Straight(code.nData, code.nParity) {
      forall v, value, cluster, reach ensures Tolerated(code, cap, chk, v, value, l, cluster, reach) {
        ToleratesLosses(code, cap, chk, v, value, l, cluster, reach);
      }
    } else {
      var v, x := Version(1, 0), code.R.zero;
      var cluster, reach := WrapLosesTolerance(code, cap, chk, v, x, l);
      MulMono(1, code.nData, cap);
      assert !Tolerated(code, cap, chk, v, [x], l, cluster, reach);
    }
  }
}
