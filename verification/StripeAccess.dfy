/** Reading, scanning and repairing the chunks of one stripe, without concurrent writers. Position i of a sequence of
slots or answers stands for the drive that was asked for chunk i. */
module StripeAccess {
  import opened Wrappers
  import opened Sequences
  import opened Election
  import opened Redundancy
  import opened Striping

  /** What a drive stores under the key. */
  datatype Slot<T> = Vacant | Holds(version: Version, value: Block<T>, tag: nat)

  /** What a request to that drive came back with. */
  datatype Answer<T> = Got(slot: Slot<T>) | NoAnswer

  datatype GetResult<T> = GetOk(version: Version, value: seq<T>) | GetNotFound | GetFailed

  function ReplyOf<T>(a: Answer<T>): Reply<Version> {
    match a
    case NoAnswer => Failed
    case Got(Vacant) => NotFound
    case Got(Holds(v, _, _)) => Found(v)
  }

  function ChunkOf<T>(a: Answer<T>): Chunk<T> {
    if a.Got? && a.slot.Holds? then Record(a.slot.version, a.slot.value, a.slot.tag) else NoRecord
  }

  function Replies<T>(answers: seq<Answer<T>>): (r: seq<Reply<Version>>)
    ensures |r| == |answers|
  {
    seq(|answers|, i requires 0 <= i < |answers| => ReplyOf(answers[i]))
  }

  function Chunks<T>(answers: seq<Answer<T>>): (r: seq<Chunk<T>>)
    ensures |r| == |answers|
  {
    seq(|answers|, i requires 0 <= i < |answers| => ChunkOf(answers[i]))
  }

  function Ask<T>(drives: seq<Slot<T>>, reach: seq<bool>): (answers: seq<Answer<T>>)
    requires |reach| == |drives|
    ensures |answers| == |drives|
  {
    seq(|drives|, i requires 0 <= i < |drives| => if reach[i] then Got(drives[i]) else NoAnswer)
  }

  // ----- GET

  /** One attempt on the chunks asked so far: a status needs a data quorum, and a success a rebuilt value. */
  ghost function Attempt<T(!new)>(code: Code<T>, chk: Block<T> -> nat, answers: seq<Answer<T>>): GetResult<T>
    requires code.Valid()
  {
    var vc := Elected(Replies(answers));
    if vc.frequency >= code.nData then
      match Rebuilt(code, chk, vc.version.value, Chunks(answers))
      case Some(value) => GetOk(vc.version.value, value)
      case None => GetFailed
    else if Count(Replies(answers), NotFound) >= code.nData then GetNotFound
    else GetFailed
  }

  /** First the data chunks alone, then all chunks; answers already at hand are not asked for again. */
  ghost function TwoPhase<T(!new)>(code: Code<T>, chk: Block<T> -> nat, answers: seq<Answer<T>>): GetResult<T>
    requires code.Valid() && |answers| == code.Size()
  {
    var r := Attempt(code, chk, answers[..code.nData]);
    if r.GetFailed? then Attempt(code, chk, answers) else r
  }

  function FoundCount<V>(replies: seq<Reply<V>>): nat {
    if replies == [] then 0
    else FoundCount(replies[..|replies| - 1]) + if replies[|replies| - 1].Found? then 1 else 0
  }

  lemma {:induction false} FoundAtLeast<V>(replies: seq<Reply<V>>, v: V)
    ensures Count(replies, Found(v)) <= FoundCount(replies)
    decreases |replies|
  {
    if replies != [] { FoundAtLeast(replies[..|replies| - 1], v); }
  }

  /** StripeOperation_GET::do_execute; an exception is GetFailed. */
  method DoExecute<T(!new, ==)>(rp: RedundancyProvider<T>, chk: Block<T> -> nat, answers: seq<Answer<T>>)
    returns (r: GetResult<T>)
    requires rp.Valid()
    modifies rp`cache
    ensures rp.Valid() && r == Attempt(rp.code, chk, answers)
  {
    var replies := Replies(answers);
    var ok, notFound := 0, 0;
    for i := 0 to |replies|
      invariant ok == FoundCount(replies[..i]) && notFound == Count(replies[..i], NotFound)
      invariant rp.Valid()
    {
      CountPush(replies, i, NotFound);
      assert replies[..i + 1][..i] == replies[..i];
      if replies[i].Found? { ok := ok + 1; }
      if replies[i].NotFound? { notFound := notFound + 1; }
    }
    assert replies[..|replies|] == replies;
    var vc := MostFrequentVersion(replies);
    if vc.version.Some? { FoundAtLeast(replies, vc.version.value); }
    if ok > vc.frequency {
      ok := vc.frequency;
    }
    if ok >= rp.code.nData {
      var rebuilt := ReconstructValue(rp, chk, vc.version.value, Chunks(answers));
      if rebuilt.Done? {
        return GetOk(vc.version.value, rebuilt.value);
      }
      return GetFailed;
    }
    if notFound >= rp.code.nData {
      return GetNotFound;
    }
    r := GetFailed;
  }

  // ----- reading after a write

  /** The drive holds a chunk of version `v` whose checksum matches. */
  ghost predicate Intact<T>(chk: Block<T> -> nat, v: Version, slot: Slot<T>) {
    slot.Holds? && slot.version == v && slot.tag == chk(slot.value)
  }

  /** A PUT of `value` under `v` returned OK: a data quorum of positions took it, the others hold anything else.
      A chunk of version `v` whose checksum matches is the chunk that was written there. */
  ghost predicate AfterPut<T(!new)>(
      code: Code<T>, cap: nat, chk: Block<T> -> nat, v: Version, value: seq<T>, drives: seq<Slot<T>>)
    requires code.Valid() && cap > 0
  {
    && |drives| == code.Size() && v.size == |value| <= code.nData * cap
    && Count(Replies(Ask(drives, AllReachable(code.Size()))), Found(v)) >= code.nData
    && forall i :: 0 <= i < |drives| && Intact(chk, v, drives[i]) ==> drives[i].value == StripeOf(code, cap, value)[i]
  }

  function AllReachable(n: nat): (r: seq<bool>)
    ensures |r| == n
  {
    seq(n, i => true)
  }

  /** Enough of the write can be reached: a data quorum of intact chunks, or of empty ones for the empty value. */
  ghost predicate Enough<T(!new)>(code: Code<T>, chk: Block<T> -> nat, v: Version, answers: seq<Answer<T>>) {
    if v.size == 0 then Count(Replies(answers), Found(v)) >= code.nData
    else |Where(Bad(chk, v, Chunks(answers)), false)| >= code.nData
  }

  /** Intact chunks are found chunks. */
  lemma {:induction false} IntactAreFound<T(!new)>(chk: Block<T> -> nat, v: Version, answers: seq<Answer<T>>)
    ensures |Where(Bad(chk, v, Chunks(answers)), false)| <= Count(Replies(answers), Found(v))
    decreases |answers|
  {
    if answers != [] {
      var k := |answers| - 1;
      IntactAreFound(chk, v, answers[..k]);
      assert Bad(chk, v, Chunks(answers))[..k] == Bad(chk, v, Chunks(answers[..k]));
      assert Replies(answers)[..k] == Replies(answers[..k]);
    }
  }

  lemma {:induction false} PrefixCount<T>(s: seq<T>, k: nat, x: T)
    requires k <= |s|
    ensures Count(s[..k], x) <= Count(s, x)
    decreases |s|
  {
    if k < |s| {
      PrefixCount(s[..|s| - 1], k, x);
      assert s[..|s| - 1][..k] == s[..k];
    } else {
      assert s[..k] == s;
    }
  }

  /** No other version and no absence can reach a data quorum beside a completed write. */
  lemma {:induction false} QuorumIntersects<T(!new)>(
      code: Code<T>, cap: nat, chk: Block<T> -> nat, v: Version, value: seq<T>, drives: seq<Slot<T>>,
      reach: seq<bool>, k: nat, x: Reply<Version>)
    requires code.Valid() && cap > 0 && code.nData > code.nParity && AfterPut(code, cap, chk, v, value, drives)
    requires |reach| == |drives| && k <= |drives| && x != Found(v) && x != Failed
    ensures Count(Replies(Ask(drives, reach)[..k]), x) < code.nData
  {
    var all, some := Replies(Ask(drives, AllReachable(code.Size()))), Replies(Ask(drives, reach));
    CountDisjoint(all, x, Found(v));
    CountMono(some, x, all, x);
    PrefixCount(some, k, x);
    assert Replies(Ask(drives, reach)[..k]) == some[..k];
  }

  /** One attempt after a completed write, on the data chunks or on all: the written value, or no result. */
  lemma {:induction false} AttemptAfterPut<T(!new)>(
      code: Code<T>, cap: nat, chk: Block<T> -> nat, v: Version, value: seq<T>, drives: seq<Slot<T>>,
      reach: seq<bool>, k: nat)
    requires code.Valid() && cap > 0 && code.nData > code.nParity && AfterPut(code, cap, chk, v, value, drives)
    requires |reach| == |drives| && (k == code.nData || k == code.Size())
    ensures Attempt(code, chk, Ask(drives, reach)[..k]) ==
      if Enough(code, chk, v, Ask(drives, reach)[..k]) then GetOk(v, value) else GetFailed
  {
    var answers := Ask(drives, reach)[..k];
    var r := Replies(answers);
    var vc := Elected(r);
    QuorumIntersects(code, cap, chk, v, value, drives, reach, k, NotFound);
    IntactAreFound(chk, v, answers);
    if vc.frequency >= code.nData {
      if vc.version != Some(v) {
        QuorumIntersects(code, cap, chk, v, value, drives, reach, k, Found(vc.version.value));
      }
      assert vc.version == Some(v) && Count(r, Found(v)) >= code.nData;
      assert LeftOf(code, cap, chk, v, value, Chunks(answers));
      RebuiltExactly(code, cap, chk, v, value, Chunks(answers));
    } else if Count(r, Found(v)) >= code.nData {
      ElectedIsMax(r, v);
    }
  }

  lemma {:induction false} ElectedIsMax<V>(replies: seq<Reply<V>>, v: V)
    ensures Count(replies, Found(v)) <= Elected(replies).frequency
  {
    CountPositive(replies, Found(v));
    if i :| 0 <= i < |replies| && replies[i] == Found(v) {
      assert IsElected(replies, Elected(replies));
      assert Count(replies, replies[i]) <= Elected(replies).frequency;
    }
  }

  lemma {:induction false} WhereGrows(b: seq<bool>, k: nat)
    requires k <= |b|
    ensures |Where(b[..k], false)| <= |Where(b, false)|
  {
    WherePrefix(b, k, false);
  }

  /** Both attempts after a completed write, if every chunk is asked of its own drive: the written value if a data
      quorum of its chunks can be reached intact, no result otherwise. */
  lemma {:induction false} TwoPhaseAfterPut<T(!new)>(
      code: Code<T>, cap: nat, chk: Block<T> -> nat, v: Version, value: seq<T>, drives: seq<Slot<T>>,
      reach: seq<bool>)
    requires code.Valid() && cap > 0 && code.nData > code.nParity && AfterPut(code, cap, chk, v, value, drives)
    requires |reach| == |drives|
    ensures TwoPhase(code, chk, Ask(drives, reach)) ==
      if Enough(code, chk, v, Ask(drives, reach)) then GetOk(v, value) else GetFailed
  {
    var answers := Ask(drives, reach);
    assert answers[..code.Size()] == answers;
    AttemptAfterPut(code, cap, chk, v, value, drives, reach, code.nData);
    AttemptAfterPut(code, cap, chk, v, value, drives, reach, code.Size());
    EnoughStays(code, chk, v, answers, code.nData);
  }

  /** What is enough among the first chunks is enough among all. */
  lemma {:induction false} EnoughStays<T(!new)>(
      code: Code<T>, chk: Block<T> -> nat, v: Version, answers: seq<Answer<T>>, k: nat)
    requires k <= |answers|
    ensures Enough(code, chk, v, answers[..k]) ==> Enough(code, chk, v, answers)
  {
    PrefixCount(Replies(answers), k, Found(v));
    assert Replies(answers[..k]) == Replies(answers)[..k];
    WhereGrows(Bad(chk, v, Chunks(answers)), k);
    assert Bad(chk, v, Chunks(answers[..k])) == Bad(chk, v, Chunks(answers))[..k];
  }

  /** All chunks of the stripe of `value` are in place. */
  ghost predicate FullyWritten<T(!new)>(
      code: Code<T>, cap: nat, chk: Block<T> -> nat, v: Version, value: seq<T>, drives: seq<Slot<T>>)
    requires code.Valid() && cap > 0
  {
    && |drives| == code.Size()
    && forall i :: 0 <= i < |drives| ==>
         drives[i] == Holds(v, StripeOf(code, cap, value)[i], chk(StripeOf(code, cap, value)[i]))
  }

  lemma {:induction false} FullyWrittenIsAfterPut<T(!new)>(
      code: Code<T>, cap: nat, chk: Block<T> -> nat, v: Version, value: seq<T>, drives: seq<Slot<T>>)
    requires code.Valid() && cap > 0 && v.size == |value| <= code.nData * cap
    requires FullyWritten(code, cap, chk, v, value, drives)
    ensures AfterPut(code, cap, chk, v, value, drives)
  {
    CountAll(Replies(Ask(drives, AllReachable(code.Size()))), Found(v));
  }

  /** With all chunks in place and asked of their own drives, any numParity missing answers are tolerated. */
  lemma {:induction false} TwoPhaseTolerates<T(!new)>(
      code: Code<T>, cap: nat, chk: Block<T> -> nat, v: Version, value: seq<T>, drives: seq<Slot<T>>,
      reach: seq<bool>)
    requires code.Valid() && cap > 0 && code.nData > code.nParity && v.size == |value| <= code.nData * cap
    requires FullyWritten(code, cap, chk, v, value, drives) && |reach| == |drives|
    requires |Where(reach, false)| <= code.nParity
    ensures TwoPhase(code, chk, Ask(drives, reach)) == GetOk(v, value)
  {
    FullyWrittenIsAfterPut(code, cap, chk, v, value, drives);
    TwoPhaseAfterPut(code, cap, chk, v, value, drives, reach);
    var b := Bad(chk, v, Chunks(Ask(drives, reach)));
    ReachedAreIntact(reach, b);
    WherePartition(reach);
    IntactAreFound(chk, v, Ask(drives, reach));
  }

  lemma {:induction false} ReachedAreIntact(reach: seq<bool>, b: seq<bool>)
    requires |reach| == |b| && forall i :: 0 <= i < |b| ==> b[i] == !reach[i]
    ensures |Where(b, false)| == |Where(reach, true)|
    decreases |b|
  {
    if b != [] { ReachedAreIntact(reach[..|b| - 1], b[..|b| - 1]); }
  }

  // ----- scan and repair

  datatype ScanResult = NoAction | NeedsAction | Unfixable

  /** KineticAdminCluster::scanKey: compare the elected frequency with the usable answers. */
  method ScanKey<T(==)>(nData: nat, answers: seq<Answer<T>>) returns (r: ScanResult, incomplete: bool)
    ensures r == Scan(nData, answers)
    ensures incomplete <==> Failed in Replies(answers)
  {
    var replies := Replies(answers);
    var ok, notFound := 0, 0;
    for i := 0 to |replies|
      invariant ok == FoundCount(replies[..i]) && notFound == Count(replies[..i], NotFound)
      invariant ok + notFound <= i && (ok + notFound < i <==> Failed in replies[..i])
    {
      CountPush(replies, i, NotFound);
      assert replies[..i + 1][..i] == replies[..i] && replies[..i + 1] == replies[..i] + [replies[i]];
      if replies[i].Found? { ok := ok + 1; }
      if replies[i].NotFound? { notFound := notFound + 1; }
    }
    assert replies[..|replies|] == replies;
    var target := MostFrequentVersion(replies);
    var valid := ok + notFound;
    incomplete := valid < |replies|;
    if target.frequency == valid && valid >= nData {
      r := NoAction;
    } else if target.frequency >= nData || notFound >= nData {
      r := NeedsAction;
    } else {
      r := Unfixable;
    }
  }

  ghost function Scan<T>(nData: nat, answers: seq<Answer<T>>): ScanResult {
    var replies := Replies(answers);
    var f, nf := Elected(replies).frequency, Count(replies, NotFound);
    if f == FoundCount(replies) + nf && f >= nData then NoAction
    else if f >= nData || nf >= nData then NeedsAction
    else Unfixable
  }

  datatype RepairOutcome = Repaired | Removed | Unrepairable

  /** A conditional put: it takes effect exactly if the drive holds the expected version. */
  method CompareAndPut<T>(drives: array<Slot<T>>, i: nat, expected: Option<Version>, slot: Slot<T>) returns (ok: bool)
    requires i < drives.Length
    modifies drives
    ensures ok == (expected == VersionOf(old(drives[i])))
    ensures drives[..] == if ok then old(drives[..])[i := slot] else old(drives[..])
  {
    ok := expected == VersionOf(drives[i]);
    if ok {
      drives[i] := slot;
    }
  }

  function VersionOf<T>(slot: Slot<T>): Option<Version> {
    if slot.Holds? then Some(slot.version) else None
  }

  /** quick_repair: rewrite every chunk whose drive showed another version, against the version it showed. */
  method QuickRepair<T>(
      drives: array<Slot<T>>, chk: Block<T> -> nat, v: Version, stripe: seq<Block<T>>, seen: seq<Option<Version>>)
    returns (complete: bool)
    requires drives.Length == |stripe| == |seen|
    modifies drives
    ensures complete <==> forall i :: 0 <= i < |seen| ==> seen[i] == Some(v) || seen[i] == VersionOf(old(drives[i]))
    ensures forall i :: 0 <= i < drives.Length ==>
      drives[i] ==
        if seen[i] != Some(v) && seen[i] == VersionOf(old(drives[i])) then Holds(v, stripe[i], chk(stripe[i]))
        else old(drives[i])
  {
    complete := true;
    for i := 0 to |seen|
      invariant complete <==> forall j :: 0 <= j < i ==> seen[j] == Some(v) || seen[j] == VersionOf(old(drives[j]))
      invariant forall j :: i <= j < drives.Length ==> drives[j] == old(drives[j])
      invariant forall j :: 0 <= j < i ==>
        drives[j] ==
          if seen[j] != Some(v) && seen[j] == VersionOf(old(drives[j])) then Holds(v, stripe[j], chk(stripe[j]))
          else old(drives[j])
    {
      if seen[i] != Some(v) {
        var ok := CompareAndPut(drives, i, seen[i], Holds(v, stripe[i], chk(stripe[i])));
        complete := complete && ok;
      }
    }
  }

  /** KineticAdminCluster::repairKey with all drives answering and nobody else writing. */
  method RepairKey<T(!new, ==)>(rp: RedundancyProvider<T>, chk: Block<T> -> nat, cap: nat, drives: array<Slot<T>>)
    returns (o: RepairOutcome)
    requires rp.Valid() && cap > 0 && drives.Length == rp.code.Size()
    modifies rp`cache, drives
    ensures rp.Valid()
    ensures (o, drives[..]) == RepairSpec(rp.code, chk, cap, old(drives[..]))
  {
    ghost var before := drives[..];
    var answers := Ask(drives[..], AllReachable(drives.Length));
    var r := DoExecute(rp, chk, answers);
    match r
    case GetFailed => o := Unrepairable;
    case GetNotFound =>
      for i := 0 to drives.Length
        invariant rp.Valid() && forall j :: 0 <= j < i ==> drives[j] == Vacant
      {
        drives[i] := Vacant;
      }
      o := Removed;
      assert drives[..] == RepairSpec(rp.code, chk, cap, before).1;
    case GetOk(version, value) =>
      var stripe := ValueToStripe(rp, cap, value);
      var seen := seq(drives.Length, i requires 0 <= i < drives.Length reads drives => VersionOf(drives[i]));
      var complete := QuickRepair(drives, chk, version, stripe, seen);
      assert complete;
      o := Repaired;
      assert drives[..] == RepairSpec(rp.code, chk, cap, before).1;
  }

  ghost function RepairSpec<T(!new)>(
      code: Code<T>, chk: Block<T> -> nat, cap: nat, drives: seq<Slot<T>>): (r: (RepairOutcome, seq<Slot<T>>))
    requires code.Valid() && cap > 0 && |drives| == code.Size()
    ensures |r.1| == |drives|
  {
    match Attempt(code, chk, Ask(drives, AllReachable(|drives|)))
    case GetFailed => (Unrepairable, drives)
    case GetNotFound => (Removed, seq(|drives|, i => Vacant))
    case GetOk(v, value) =>
      var stripe := StripeOf(code, cap, value);
      (Repaired, seq(|drives|, i requires 0 <= i < |drives| =>
        if VersionOf(drives[i]) == Some(v) then drives[i] else Holds(v, stripe[i], chk(stripe[i]))))
  }

  ghost predicate Uncorrupted<T>(chk: Block<T> -> nat, drives: seq<Slot<T>>) {
    forall i :: 0 <= i < |drives| && drives[i].Holds? ==> drives[i].tag == chk(drives[i].value)
  }

  /** From an uncorrupted stripe with a data quorum of one version, whatever the other drives hold, every drive ends up
      with that version and with exactly the chunk its value has there. */
  lemma {:induction false} RepairRewrites<T(!new)>(
      code: Code<T>, chk: Block<T> -> nat, cap: nat, v: Version, value: seq<T>, drives: seq<Slot<T>>)
    requires code.Valid() && cap > 0 && code.nData > code.nParity
    requires AfterPut(code, cap, chk, v, value, drives) && Uncorrupted(chk, drives)
    ensures RepairSpec(code, chk, cap, drives).0 == Repaired
    ensures FullyWritten(code, cap, chk, v, value, RepairSpec(code, chk, cap, drives).1)
  {
    var n := |drives|;
    var answers := Ask(drives, AllReachable(n));
    assert answers[..n] == answers;
    AttemptAfterPut(code, cap, chk, v, value, drives, AllReachable(n), n);
    FoundAreIntact(chk, v, answers);
  }

  lemma {:induction false} WrittenScans<T(!new)>(
      code: Code<T>, cap: nat, chk: Block<T> -> nat, v: Version, value: seq<T>, drives: seq<Slot<T>>)
    requires code.Valid() && cap > 0 && FullyWritten(code, cap, chk, v, value, drives)
    ensures Scan(code.nData, Ask(drives, AllReachable(|drives|))) == NoAction
  {
    AlignedScan(Replies(Ask(drives, AllReachable(|drives|))), v);
  }

  /** On an uncorrupted stripe every chunk found is intact. */
  lemma {:induction false} FoundAreIntact<T(!new)>(chk: Block<T> -> nat, v: Version, answers: seq<Answer<T>>)
    requires forall i :: 0 <= i < |answers| && answers[i].Got? && answers[i].slot.Holds? ==>
      answers[i].slot.tag == chk(answers[i].slot.value)
    ensures |Where(Bad(chk, v, Chunks(answers)), false)| == Count(Replies(answers), Found(v))
    decreases |answers|
  {
    if answers != [] {
      var k := |answers| - 1;
      FoundAreIntact(chk, v, answers[..k]);
      assert Bad(chk, v, Chunks(answers))[..k] == Bad(chk, v, Chunks(answers[..k]));
      assert Replies(answers)[..k] == Replies(answers[..k]);
    }
  }

  lemma {:induction false} AlignedScan<V>(replies: seq<Reply<V>>, v: V)
    requires |replies| > 0 && forall i :: 0 <= i < |replies| ==> replies[i] == Found(v)
    ensures Elected(replies).frequency == FoundCount(replies) == |replies| && Count(replies, NotFound) == 0
  {
    CountAll(replies, Found(v));
    ElectedIsMax(replies, v);
    CountDisjoint(replies, Found(v), NotFound);
    FoundAtLeast(replies, v);
    FoundAtMost(replies);
  }

  lemma {:induction false} FoundAtMost<V>(replies: seq<Reply<V>>)
    ensures FoundCount(replies) <= |replies|
    decreases |replies|
  {
    if replies != [] { FoundAtMost(replies[..|replies| - 1]); }
  }

  lemma {:induction false} RepliesPartition<V>(replies: seq<Reply<V>>)
    requires forall i :: 0 <= i < |replies| ==> replies[i] != Failed
    ensures FoundCount(replies) + Count(replies, NotFound) == |replies|
    decreases |replies|
  {
    if replies != [] { RepliesPartition(replies[..|replies| - 1]); }
  }

  ghost predicate AllOf<T>(v: Version, drives: seq<Slot<T>>) {
    forall i :: 0 <= i < |drives| ==> drives[i].Holds? && drives[i].version == v
  }

  /** With all drives answering, a scan asks for no action exactly if all drives hold one version. It calls a key
      unfixable only if repair cannot do anything, and only then if the elected version can be rebuilt. */
  lemma {:induction false} ScanForetellsRepair<T(!new)>(
      code: Code<T>, chk: Block<T> -> nat, cap: nat, drives: seq<Slot<T>>)
    requires code.Valid() && cap > 0 && |drives| == code.Size()
    ensures var answers := Ask(drives, AllReachable(|drives|));
      && (Scan(code.nData, answers) == NoAction <==> exists v :: AllOf(v, drives))
      && (Scan(code.nData, answers) == Unfixable ==> RepairSpec(code, chk, cap, drives) == (Unrepairable, drives))
      && (Scan(code.nData, answers) != Unfixable && RepairSpec(code, chk, cap, drives).0 == Unrepairable ==>
            && Elected(Replies(answers)).version.Some?
            && Rebuilt(code, chk, Elected(Replies(answers)).version.value, Chunks(answers)).None?)
  {
    var replies := Replies(Ask(drives, AllReachable(|drives|)));
    var vc := Elected(replies);
    RepliesPartition(replies);
    if Scan(code.nData, Ask(drives, AllReachable(|drives|))) == NoAction {
      var v := vc.version.value;
      FoundAtLeast(replies, v);
      CountAll(replies, Found(v));
      forall i | 0 <= i < |drives| ensures drives[i].Holds? && drives[i].version == v { assert replies[i] == Found(v); }
      assert AllOf(v, drives);
    }
    if v :| AllOf(v, drives) {
      AlignedScan(replies, v);
    }
  }

  // ----- what the statuses mean, by what the drives hold

  /** Some version is found a given number of times. */
  ghost predicate Quorate<V(!new)>(replies: seq<Reply<V>>, n: nat) {
    exists v :: Count(replies, Found(v)) >= n
  }

  lemma {:induction false} ElectedQuorum<V(!new)>(replies: seq<Reply<V>>, n: nat)
    requires n > 0
    ensures Elected(replies).frequency >= n <==> Quorate(replies, n)
  {
    var vc := Elected(replies);
    assert IsElected(replies, vc);
    if v :| Count(replies, Found(v)) >= n { ElectedIsMax(replies, v); }
  }

  /** An attempt says NOT_FOUND exactly if no version is found on a data quorum of the drives and the absence is. */
  lemma {:induction false} NotFoundExactly<T(!new)>(code: Code<T>, chk: Block<T> -> nat, answers: seq<Answer<T>>)
    requires code.Valid()
    ensures Attempt(code, chk, answers) == GetNotFound <==>
      !Quorate(Replies(answers), code.nData) && Count(Replies(answers), NotFound) >= code.nData
    ensures Attempt(code, chk, answers).GetOk? ==> Quorate(Replies(answers), code.nData)
  {
    ElectedQuorum(Replies(answers), code.nData);
  }

  lemma {:induction false} NothingFound<T(!new)>(answers: seq<Answer<T>>, n: nat)
    requires n > 0 && forall i :: 0 <= i < |answers| ==> answers[i] == Got(Vacant) || answers[i] == NoAnswer
    ensures !Quorate(Replies(answers), n)
  {
    forall v ensures Count(Replies(answers), Found(v)) < n { CountPositive(Replies(answers), Found(v)); }
  }

  /** A GET of a key that no drive holds returns NOT_FOUND if numData of the drives asked answer, and fails otherwise.
      */
  lemma {:induction false} GetOfNothing<T(!new)>(
      code: Code<T>, chk: Block<T> -> nat, drives: seq<Slot<T>>, reach: seq<bool>)
    requires code.Valid() && |drives| == |reach| == code.Size() && forall i :: 0 <= i < |drives| ==> drives[i] == Vacant
    ensures TwoPhase(code, chk, Ask(drives, reach)) ==
      if Count(reach, true) >= code.nData then GetNotFound else GetFailed
  {
    var answers := Ask(drives, reach);
    var part := answers[..code.nData];
    NothingFound(answers, code.nData);
    NothingFound(part, code.nData);
    NotFoundExactly(code, chk, answers);
    NotFoundExactly(code, chk, part);
    CountMono(reach, true, Replies(answers), NotFound);
    CountMono(Replies(answers), NotFound, reach, true);
    PrefixCount(Replies(answers), code.nData, NotFound);
    assert Replies(part) == Replies(answers)[..code.nData];
  }

  /** The three outcomes of a scan, whichever drives answer: nothing to do exactly if all that answer, a data quorum at
      least, hold one version; unfixable exactly if neither a version nor the absence is found on a data quorum. */
  lemma {:induction false} ScanExactly<T(!new)>(nData: nat, answers: seq<Answer<T>>)
    requires nData > 0
    ensures Scan(nData, answers) == NoAction <==> exists v :: Aligned(nData, Replies(answers), v)
    ensures Scan(nData, answers) == Unfixable <==>
      !Quorate(Replies(answers), nData) && Count(Replies(answers), NotFound) < nData
  {
    var r := Replies(answers);
    var vc := Elected(r);
    ElectedQuorum(r, nData);
    if vc.version.Some? {
      FoundAtLeast(r, vc.version.value);
      FoundAllSame(r, vc.version.value);
      CountPositive(r, NotFound);
      if vc.frequency == FoundCount(r) + Count(r, NotFound) && vc.frequency >= nData {
        assert Aligned(nData, r, vc.version.value);
      }
    }
    if v :| Aligned(nData, r, v) { AlignedIsElected(nData, r, v); }
  }

  /** All drives that answer hold version v, and they are enough. */
  ghost predicate Aligned<V>(nData: nat, replies: seq<Reply<V>>, v: V) {
    && Count(replies, Found(v)) >= nData
    && forall i :: 0 <= i < |replies| ==> replies[i] == Found(v) || replies[i] == Failed
  }

  lemma {:induction false} AlignedIsElected<V(!new)>(nData: nat, r: seq<Reply<V>>, v: V)
    requires nData > 0 && Aligned(nData, r, v)
    ensures Elected(r).frequency == FoundCount(r) == Count(r, Found(v)) && Count(r, NotFound) == 0
  {
    var vc := Elected(r);
    ElectedIsMax(r, v);
    FoundAllSame(r, v);
    CountPositive(r, NotFound);
    FoundAtLeast(r, vc.version.value);
  }

  lemma {:induction false} FoundAllSame<V>(r: seq<Reply<V>>, v: V)
    ensures FoundCount(r) == Count(r, Found(v)) <==> forall i :: 0 <= i < |r| && r[i].Found? ==> r[i] == Found(v)
    decreases |r|
  {
    if r != [] {
      FoundAllSame(r[..|r| - 1], v);
      FoundAtLeast(r[..|r| - 1], v);
    }
  }

  /** What repair does, by what the drives hold: it removes the key exactly if no version is on a data quorum of them
      and as many lack the key, and then no drive holds it any more; otherwise it brings all drives to a version that
      was on a data quorum of them, without touching those that had it, or leaves everything as it was. */
  lemma {:induction false} RepairExactly<T(!new)>(
      code: Code<T>, chk: Block<T> -> nat, cap: nat, drives: seq<Slot<T>>)
    requires code.Valid() && cap > 0 && |drives| == code.Size()
    ensures var r, (o, after) := Replies(Ask(drives, AllReachable(|drives|))), RepairSpec(code, chk, cap, drives);
      && (o == Removed <==> !Quorate(r, code.nData) && Count(r, NotFound) >= code.nData)
      && (o == Removed ==> forall i :: 0 <= i < |after| ==> after[i] == Vacant)
      && (o == Unrepairable ==> after == drives)
      && (o == Repaired ==> exists v :: Count(r, Found(v)) >= code.nData && AllOf(v, after) && Keeps(v, drives, after))
      && (!Quorate(r, code.nData) && Count(r, NotFound) < code.nData ==> o == Unrepairable)
  {
    var answers := Ask(drives, AllReachable(|drives|));
    NotFoundExactly(code, chk, answers);
    var (o, after) := RepairSpec(code, chk, cap, drives);
    if o == Repaired {
      var v := Elected(Replies(answers)).version.value;
      assert Count(Replies(answers), Found(v)) >= code.nData && AllOf(v, after) && Keeps(v, drives, after);
    }
  }

  /** Drives that held version v are as they were. */
  ghost predicate Keeps<T>(v: Version, before: seq<Slot<T>>, after: seq<Slot<T>>) {
    |before| == |after| && forall i :: 0 <= i < |before| && VersionOf(before[i]) == Some(v) ==> after[i] == before[i]
  }

  /** After a removal a GET finds nothing, with any numParity drives silent. */
  lemma {:induction false} RemovedIsGone<T(!new)>(
      code: Code<T>, chk: Block<T> -> nat, cap: nat, drives: seq<Slot<T>>, reach: seq<bool>)
    requires code.Valid() && cap > 0 && |drives| == |reach| == code.Size()
    requires RepairSpec(code, chk, cap, drives).0 == Removed && Count(reach, false) <= code.nParity
    ensures TwoPhase(code, chk, Ask(RepairSpec(code, chk, cap, drives).1, reach)) == GetNotFound
  {
    GetOfNothing(code, chk, RepairSpec(code, chk, cap, drives).1, reach);
    forall i | 0 <= i < |reach| ensures reach[i] == true || reach[i] == false { if reach[i] { } }
    OneOrTheOther(reach, true, false);
  }
}
