/** Concurrent conditional writes of one stripe.

Every PUT first sends one compare-and-swap per drive. A PUT that succeeded on some drives only polls the
chunk versions, drive by drive, until it either finds its own version elected and overwrites the other
chunks, or finds its version gone. Steps of different clients interleave arbitrarily; one step touches one
drive. All drives answer; the overwrite after the polling period has run out is not a step. */
module StripeProtocol {
  import opened Wrappers
  import opened Sequences
  import opened Election

  /** A chunk version; 0 stands for the empty version of an absent key. */
  type Version = nat
  const ABSENT: Version := 0

  datatype Config = Config(numData: nat, numParity: nat, base: Version) {
    function Size(): nat { numData + numParity }
    /** The cluster map refuses configurations with at least as many parities as data chunks. */
    predicate Accepted() { numData > numParity }
  }

  datatype Result = Pending | Ok | Mismatch
  datatype Op = Op(expected: Version, result: Result)
  datatype Status = OK | VERSION_MISMATCH | CLIENT_IO_ERROR

  datatype Phase =
    | Writing
    | Polling(view: seq<Option<Version>>)
    | Repairing(seen: seq<Version>)
    | Returned(status: Status)

  datatype Client = Client(ops: seq<Op>, phase: Phase)

  /** Clients are named by the fresh version they write. `first` records the first version that
      replaced the base version on each drive; no step reads it. */
  datatype State = State(drives: seq<Version>, first: seq<Version>, clients: map<Version, Client>)

  datatype Step =
    | Start(c: Version)
    | Cas(c: Version, d: nat)
    | WritesDone(c: Version)
    | Read(c: Version, d: nat)
    | Decide(c: Version, vc: VersionCount<Version>)
    | RepairDone(c: Version)

  // ----- what one client computes

  function Results(ops: seq<Op>): (r: seq<Result>)
    ensures |r| == |ops|
  {
    seq(|ops|, i requires 0 <= i < |ops| => ops[i].result)
  }

  function Replies(versions: seq<Version>): (r: seq<Reply<Version>>)
    ensures |r| == |versions|
  {
    seq(|versions|, i requires 0 <= i < |versions| => if versions[i] == ABSENT then NotFound else Found(versions[i]))
  }

  /** The first status, successes before mismatches, that reached the data quorum. */
  function Evaluate(cfg: Config, ops: seq<Op>): Status
  {
    if Count(Results(ops), Ok) >= cfg.numData then OK
    else if Count(Results(ops), Mismatch) >= cfg.numData then VERSION_MISMATCH
    else CLIENT_IO_ERROR
  }

  /** attemptStripeRepair: reissue every mismatched write against the version just seen on its drive. */
  function Refill(ops: seq<Op>, seen: seq<Version>): (r: seq<Op>)
    requires |ops| == |seen|
    ensures |r| == |ops|
  {
    seq(|ops|, i requires 0 <= i < |ops| => if ops[i].result.Mismatch? then Op(seen[i], Pending) else ops[i])
  }

  ghost predicate NonePending(ops: seq<Op>) {
    forall d :: 0 <= d < |ops| ==> !ops[d].result.Pending?
  }

  function Blank(n: nat): (view: seq<Option<Version>>)
    ensures |view| == n
  {
    seq(n, i => None)
  }

  /** What a client has seen that has read the first k drives. */
  function View(seen: seq<Version>, k: nat): (view: seq<Option<Version>>)
    ensures |view| == |seen|
  {
    seq(|seen|, d requires 0 <= d < |seen| => if d < k then Some(seen[d]) else None)
  }

  ghost predicate Complete(view: seq<Option<Version>>) {
    forall d :: 0 <= d < |view| ==> view[d].Some?
  }

  function Seen(view: seq<Option<Version>>): (r: seq<Version>)
    ensures |r| == |view|
  {
    seq(|view|, i requires 0 <= i < |view| => if view[i].Some? then view[i].value else ABSENT)
  }

  /** The version to be carried through: the elected one, or the absent version if more drives lack the key. */
  function Target(seen: seq<Version>, vc: VersionCount<Version>): Option<Version> {
    if Count(Replies(seen), NotFound) > vc.frequency then Some(ABSENT) else vc.version
  }

  // ----- steps

  ghost predicate Init(cfg: Config, s: State) {
    && s.drives == s.first
    && |s.drives| == cfg.Size()
    && (forall d :: 0 <= d < |s.drives| ==> s.drives[d] == cfg.base)
    && s.clients == map[]
  }

  ghost predicate Enabled(cfg: Config, s: State, step: Step) {
    match step
    case Start(c) => c !in s.clients && c != ABSENT && c != cfg.base
    case Cas(c, d) =>
      && c in s.clients && d < |s.drives| == |s.first| == |s.clients[c].ops|
      && s.clients[c].ops[d].result.Pending?
    case WritesDone(c) => c in s.clients && s.clients[c].phase.Writing? && NonePending(s.clients[c].ops)
    case Read(c, d) =>
      && c in s.clients && s.clients[c].phase.Polling?
      && d < |s.drives| == |s.clients[c].phase.view| && s.clients[c].phase.view[d].None?
    case Decide(c, vc) =>
      && c in s.clients && s.clients[c].phase.Polling? && Complete(s.clients[c].phase.view)
      && |s.clients[c].phase.view| == |s.clients[c].ops|
      && IsElected(Replies(Seen(s.clients[c].phase.view)), vc)
    case RepairDone(c) => c in s.clients && s.clients[c].phase.Repairing? && NonePending(s.clients[c].ops)
  }

  /** After a poll that did not end the resolution: wait and poll again while the own version is in the stripe. */
  function PollAgain(cfg: Config, c: Version, ops: seq<Op>, seen: seq<Version>): Client {
    if c in seen then Client(ops, Polling(Blank(|ops|))) else Client(ops, Returned(Evaluate(cfg, ops)))
  }

  ghost function Apply(cfg: Config, s: State, step: Step): State
    requires Enabled(cfg, s, step)
  {
    match step
    case Start(c) =>
      s.(clients := s.clients[c := Client(seq(cfg.Size(), i => Op(cfg.base, Pending)), Writing)])
    case Cas(c, d) =>
      var me := s.clients[c];
      if s.drives[d] == me.ops[d].expected then
        State(s.drives[d := c], if s.first[d] == cfg.base then s.first[d := c] else s.first,
              s.clients[c := me.(ops := me.ops[d := me.ops[d].(result := Ok)])])
      else
        s.(clients := s.clients[c := me.(ops := me.ops[d := me.ops[d].(result := Mismatch)])])
    case WritesDone(c) =>
      var me := s.clients[c];
      s.(clients := s.clients[c :=
        if Ok in Results(me.ops) && Mismatch in Results(me.ops) then me.(phase := Polling(Blank(|me.ops|)))
        else me.(phase := Returned(Evaluate(cfg, me.ops)))])
    case Read(c, d) =>
      var me := s.clients[c];
      s.(clients := s.clients[c := me.(phase := Polling(me.phase.view[d := Some(s.drives[d])]))])
    case Decide(c, vc) =>
      var me := s.clients[c];
      var seen := Seen(me.phase.view);
      s.(clients := s.clients[c :=
        if Target(seen, vc) == Some(c) then Client(Refill(me.ops, seen), Repairing(seen))
        else PollAgain(cfg, c, me.ops, seen)])
    case RepairDone(c) =>
      var me := s.clients[c];
      s.(clients := s.clients[c :=
        if Mismatch !in Results(me.ops) then me.(phase := Returned(Evaluate(cfg, me.ops)))
        else PollAgain(cfg, c, me.ops, me.phase.seen)])
  }

  ghost predicate Next(cfg: Config, s: State, t: State) {
    exists step :: Enabled(cfg, s, step) && Apply(cfg, s, step) == t
  }

  ghost predicate IsRun(cfg: Config, run: seq<State>) {
    && |run| > 0 && Init(cfg, run[0])
    && forall i :: 0 <= i < |run| - 1 ==> Next(cfg, run[i], run[i + 1])
  }

  // ----- the invariant

  ghost predicate Settled(cfg: Config, s: State) {
    forall d :: 0 <= d < |s.first| ==> s.first[d] != cfg.base
  }

  /** `w` is the most frequent first-written version, at its earliest position. */
  ghost predicate IsWinner(cfg: Config, s: State, w: Version) {
    Settled(cfg, s) && exists p :: ElectedAt(Replies(s.first), p, w)
  }

  ghost predicate AllHold(s: State, w: Version) {
    forall d :: 0 <= d < |s.drives| ==> s.drives[d] == w
  }

  ghost predicate Nowhere(s: State, c: Version) {
    forall d :: 0 <= d < |s.drives| ==> s.drives[d] != c
  }

  ghost predicate DriveInv(cfg: Config, s: State, d: int)
    requires 0 <= d < |s.drives| == |s.first|
  {
    && (s.first[d] == cfg.base ==> s.drives[d] == cfg.base)
    && (s.first[d] != cfg.base ==> s.first[d] in s.clients)
    && (s.drives[d] != s.first[d] ==>
          && IsWinner(cfg, s, s.drives[d]) && s.drives[d] in s.clients
          && (s.clients[s.drives[d]].phase.Repairing? || s.clients[s.drives[d]].phase.Returned?))
  }

  ghost predicate WritingInv(cfg: Config, s: State, c: Version, op: Op, d: int)
    requires 0 <= d < |s.first|
  {
    && op.expected == cfg.base
    && match op.result
       case Pending => s.first[d] != c
       case Ok => s.first[d] == c
       case Mismatch => s.first[d] != c && s.first[d] != cfg.base
  }

  ghost predicate RepairInv(s: State, c: Version, op: Op, d: int)
    requires 0 <= d < |s.first| == |s.drives|
  {
    if s.first[d] == c then op.result.Ok?
    else (op == Op(s.first[d], Pending) && s.drives[d] == s.first[d]) || (op.result.Ok? && s.drives[d] == c)
  }

  ghost predicate ClientInv(cfg: Config, s: State, c: Version, me: Client)
    requires |s.drives| == |s.first|
  {
    && |me.ops| == |s.first| && c != ABSENT && c != cfg.base
    && match me.phase
       case Writing => forall d :: 0 <= d < |me.ops| ==> WritingInv(cfg, s, c, me.ops[d], d)
       case Polling(view) =>
         && Settled(cfg, s) && c in s.first && |view| == |s.first| && Mismatch in Results(me.ops)
         && (forall d :: 0 <= d < |me.ops| ==> me.ops[d].result == if s.first[d] == c then Ok else Mismatch)
         && (forall d :: 0 <= d < |view| && view[d].Some? ==>
               view[d].value == s.first[d] || (view[d].value != c && IsWinner(cfg, s, view[d].value)))
         && (forall d :: 0 <= d < |view| && s.first[d] == c && view[d].Some? && view[d].value != c ==> s.drives[d] != c)
       case Repairing(seen) =>
         && IsWinner(cfg, s, c) && seen == s.first && c in s.first
         && forall d :: 0 <= d < |me.ops| ==> RepairInv(s, c, me.ops[d], d)
       case Returned(status) =>
         && Settled(cfg, s) && NonePending(me.ops)
         && (status == OK <==> IsWinner(cfg, s, c))
         && (status == OK ==> AllHold(s, c))
         && (status != OK ==> (status == VERSION_MISMATCH <==> Count(s.first, c) <= cfg.numParity))
         && (status != OK ==> Nowhere(s, c))
  }

  ghost predicate Inv(cfg: Config, s: State) {
    && |s.drives| == |s.first| == cfg.Size()
    && (forall d :: 0 <= d < |s.first| ==> DriveInv(cfg, s, d))
    && (forall c :: c in s.clients ==> ClientInv(cfg, s, c, s.clients[c]))
  }

  // ----- election facts

  lemma {:induction false} WinnerUnique(cfg: Config, s: State, a: Version, b: Version)
    requires IsWinner(cfg, s, a) && IsWinner(cfg, s, b)
    ensures a == b
  {
    var r := Replies(s.first);
    ElectionUnique(r, VersionCount(Some(a), Count(r, Found(a))), VersionCount(Some(b), Count(r, Found(b))));
  }

  /** A non-atomic poll sees each drive before or after its repair. Whatever the mixture, it elects the winner. */
  lemma {:induction false} MixElectsWinner(
      first: seq<Version>, seen: seq<Version>, w: Version, vc: VersionCount<Version>)
    requires |first| == |seen|
    requires forall d :: 0 <= d < |first| ==> first[d] != ABSENT && (seen[d] == first[d] || seen[d] == w)
    requires exists p :: ElectedAt(Replies(first), p, w)
    requires IsElected(Replies(seen), vc)
    ensures Target(seen, vc) == Some(w)
  {
    var f, r := Replies(first), Replies(seen);
    var p :| ElectedAt(f, p, w);
    assert r[p] == Found(w);
    var e := EarliestPosition(r, Found(w));
    forall i | 0 <= i < e ensures r[i] != Found(w) { assert r[i] == r[..e][i]; }
    assert e <= p;
    CountMono(f, Found(w), r, Found(w));
    forall i | 0 <= i < |r| && r[i].Found?
      ensures Count(r, r[i]) <= Count(r, r[e]) && (i < e ==> Count(r, r[i]) < Count(r, r[e]))
    {
      if r[i] != Found(w) { CountMono(r, r[i], f, r[i]); }
    }
    assert ElectedAt(r, e, w);
    ElectionUnique(r, vc, VersionCount(Some(w), Count(r, Found(w))));
    CountPositive(r, NotFound);
  }

  lemma {:induction false} FirstNotAbsent(cfg: Config, s: State)
    requires Inv(cfg, s) && Settled(cfg, s)
    ensures forall d :: 0 <= d < |s.first| ==> s.first[d] != ABSENT
  {
    forall d | 0 <= d < |s.first| ensures s.first[d] != ABSENT {
      assert DriveInv(cfg, s, d);
    }
  }

  lemma {:induction false} EarliestPosition<T>(s: seq<T>, x: T) returns (p: nat)
    requires x in s
    ensures p < |s| && s[p] == x && x !in s[..p]
  {
    p := 0;
    while s[p] != x
      invariant p < |s| && x !in s[..p]
      decreases |s| - p
    {
      assert s == s[..p] + [s[p]] + s[p + 1..];
      p := p + 1;
    }
  }

  /** Owning a data quorum of first writes means being the winner. */
  lemma {:induction false} QuorumIsWinner(cfg: Config, s: State, c: Version)
    requires Inv(cfg, s) && Settled(cfg, s) && cfg.Accepted() && c != ABSENT
    requires Count(s.first, c) >= cfg.numData
    ensures IsWinner(cfg, s, c)
  {
    var r := Replies(s.first);
    CountMono(s.first, c, r, Found(c));
    CountPositive(r, Found(c));
    var p := EarliestPosition(r, Found(c));
    forall i | 0 <= i < |r| && r[i].Found? && r[i] != Found(c)
      ensures Count(r, r[i]) < Count(r, Found(c))
    {
      CountDisjoint(r, r[i], Found(c));
    }
    forall i | 0 <= i < p ensures r[i] != Found(c) {
      assert r[i] == r[..p][i];
    }
    assert ElectedAt(r, p, c);
  }

  // ----- every step keeps the invariant

  lemma {:induction false} StartKeeps(cfg: Config, s: State, c: Version)
    requires Inv(cfg, s) && Enabled(cfg, s, Start(c))
    ensures Inv(cfg, Apply(cfg, s, Start(c)))
  {
    var t := Apply(cfg, s, Start(c));
    forall d | 0 <= d < |s.first| ensures DriveInv(cfg, t, d) && s.first[d] != c {
      assert DriveInv(cfg, s, d);
      assert IsWinner(cfg, s, s.drives[d]) ==> IsWinner(cfg, t, s.drives[d]);
    }
    forall x | x in t.clients ensures ClientInv(cfg, t, x, t.clients[x]) {
      if x != c { Unmoved(cfg, s, t, x); }
    }
  }

  /** A client's invariant depends on the first writes, and on the drives only where they come to hold its version or if
      it is the winner. */
  lemma {:induction false} Unmoved(cfg: Config, s: State, t: State, x: Version)
    requires |s.drives| == |s.first| == |t.drives|
    requires x in s.clients && x in t.clients && t.clients[x] == s.clients[x]
    requires ClientInv(cfg, s, x, s.clients[x])
    requires t.first == s.first
    requires t.drives == s.drives || !IsWinner(cfg, s, x)
    requires forall d :: 0 <= d < |s.drives| ==> t.drives[d] == s.drives[d] || t.drives[d] != x
    ensures ClientInv(cfg, t, x, t.clients[x])
  {
    forall w: Version ensures IsWinner(cfg, s, w) == IsWinner(cfg, t, w) { }
  }

  lemma {:induction false} CasWriteKeeps(cfg: Config, s: State, c: Version, d: nat)
    requires Inv(cfg, s) && Enabled(cfg, s, Cas(c, d)) && s.clients[c].phase.Writing?
    ensures Inv(cfg, Apply(cfg, s, Cas(c, d)))
  {
    var t := Apply(cfg, s, Cas(c, d));
    assert DriveInv(cfg, s, d) && ClientInv(cfg, s, c, s.clients[c]);
    assert WritingInv(cfg, s, c, s.clients[c].ops[d], d);
    if s.drives[d] == cfg.base {
      assert forall x :: x in s.clients ==> ClientInv(cfg, s, x, s.clients[x]) && x != cfg.base;
      assert s.first[d] == cfg.base;
      assert !Settled(cfg, s);
      forall e | 0 <= e < |s.first| ensures DriveInv(cfg, t, e) {
        assert DriveInv(cfg, s, e);
      }
      forall x | x in t.clients ensures ClientInv(cfg, t, x, t.clients[x]) {
        assert ClientInv(cfg, s, x, s.clients[x]);
        assert s.clients[x].phase.Writing?;
        forall e | 0 <= e < |s.first| ensures WritingInv(cfg, t, x, t.clients[x].ops[e], e) {
          assert WritingInv(cfg, s, x, s.clients[x].ops[e], e);
        }
      }
    } else {
      forall w: Version ensures IsWinner(cfg, s, w) == IsWinner(cfg, t, w) { }
      forall e | 0 <= e < |s.first| ensures DriveInv(cfg, t, e) {
        assert DriveInv(cfg, s, e);
      }
      forall x | x in t.clients ensures ClientInv(cfg, t, x, t.clients[x]) {
        if x != c { Unmoved(cfg, s, t, x); } else {
          forall e | 0 <= e < |s.first| ensures WritingInv(cfg, t, c, t.clients[c].ops[e], e) {
            assert WritingInv(cfg, s, c, s.clients[c].ops[e], e);
          }
        }
      }
    }
  }

  /** A repair write always finds the version it expects: nobody else repairs. */
  lemma {:induction false} CasRepairKeeps(cfg: Config, s: State, c: Version, d: nat)
    requires Inv(cfg, s) && Enabled(cfg, s, Cas(c, d)) && !s.clients[c].phase.Writing?
    ensures Inv(cfg, Apply(cfg, s, Cas(c, d)))
    ensures s.clients[c].phase.Repairing? && Apply(cfg, s, Cas(c, d)).drives[d] == c
  {
    var t := Apply(cfg, s, Cas(c, d));
    var me := s.clients[c];
    assert ClientInv(cfg, s, c, me);
    assert me.phase.Repairing? && RepairInv(s, c, me.ops[d], d);
    assert t.first == s.first && t.drives == s.drives[d := c];
    forall w: Version ensures IsWinner(cfg, s, w) == IsWinner(cfg, t, w) { }
    forall e | 0 <= e < |s.first| ensures DriveInv(cfg, t, e) {
      assert DriveInv(cfg, s, e);
    }
    forall x | x in t.clients ensures ClientInv(cfg, t, x, t.clients[x]) {
      if x != c {
        if IsWinner(cfg, s, x) { WinnerUnique(cfg, s, x, c); }
        Unmoved(cfg, s, t, x);
      } else {
        forall e | 0 <= e < |s.first| ensures RepairInv(t, c, t.clients[c].ops[e], e) {
          assert RepairInv(s, c, me.ops[e], e);
        }
      }
    }
  }

  /** One client changes its own record only. */
  lemma {:induction false} LocalKeeps(cfg: Config, s: State, t: State, c: Version)
    requires Inv(cfg, s) && c in s.clients && c in t.clients && t == s.(clients := s.clients[c := t.clients[c]])
    requires ClientInv(cfg, s, c, t.clients[c])
    requires s.clients[c].phase.Repairing? || s.clients[c].phase.Returned? ==>
               t.clients[c].phase.Repairing? || t.clients[c].phase.Returned?
    ensures Inv(cfg, t)
  {
    forall w: Version ensures IsWinner(cfg, s, w) == IsWinner(cfg, t, w) { }
    forall d | 0 <= d < |s.first| ensures DriveInv(cfg, t, d) {
      assert DriveInv(cfg, s, d);
    }
    forall x | x in t.clients ensures ClientInv(cfg, t, x, t.clients[x]) {
      if x != c { Unmoved(cfg, s, t, x); }
    }
  }

  lemma {:induction false} OkCount(first: seq<Version>, ops: seq<Op>, c: Version)
    requires |first| == |ops| && forall d :: 0 <= d < |ops| ==> (ops[d].result.Ok? <==> first[d] == c)
    ensures Count(Results(ops), Ok) == Count(first, c)
  {
    CountMono(first, c, Results(ops), Ok);
    CountMono(Results(ops), Ok, first, c);
  }

  /** A client whose successes are exactly its first writes returns OK only if it is the winner; otherwise a mismatch if
      the writes of others were first on a data quorum of drives. */
  lemma {:induction false} LoserNotOk(cfg: Config, s: State, c: Version, ops: seq<Op>)
    requires Inv(cfg, s) && Settled(cfg, s) && cfg.Accepted() && c != ABSENT && !IsWinner(cfg, s, c)
    requires |s.first| == |ops|
    requires forall d :: 0 <= d < |ops| ==> Results(ops)[d] == if s.first[d] == c then Ok else Mismatch
    ensures Evaluate(cfg, ops) ==
      if Count(s.first, c) <= cfg.numParity then VERSION_MISMATCH else CLIENT_IO_ERROR
  {
    OkCount(s.first, ops, c);
    OneOrTheOther(Results(ops), Ok, Mismatch);
    if Count(s.first, c) >= cfg.numData {
      QuorumIsWinner(cfg, s, c);
    }
  }

  /** Once all its writes are answered, a client knows which drives it wrote first. */
  lemma {:induction false} WritesSettle(cfg: Config, s: State, c: Version)
    requires Inv(cfg, s) && Enabled(cfg, s, WritesDone(c))
    ensures Settled(cfg, s) && |s.clients[c].ops| == |s.first| && ClientInv(cfg, s, c, s.clients[c])
    ensures forall d :: 0 <= d < |s.first| ==> Results(s.clients[c].ops)[d] == if s.first[d] == c then Ok else Mismatch
  {
    var me := s.clients[c];
    assert ClientInv(cfg, s, c, me);
    forall d | 0 <= d < |me.ops|
      ensures Results(me.ops)[d] == if s.first[d] == c then Ok else Mismatch
      ensures s.first[d] != cfg.base
    {
      assert WritingInv(cfg, s, c, me.ops[d], d);
    }
  }

  /** A client that did not win is on those drives only that it wrote first and nobody has repaired. */
  lemma {:induction false} LoserNowhere(cfg: Config, s: State, c: Version)
    requires Inv(cfg, s) && !IsWinner(cfg, s, c)
    requires forall d :: 0 <= d < |s.first| && s.first[d] == c ==> s.drives[d] != c
    ensures Nowhere(s, c)
  {
    forall d | 0 <= d < |s.drives| ensures s.drives[d] != c { assert DriveInv(cfg, s, d); }
  }

  lemma {:induction false} WritesDoneKeeps(cfg: Config, s: State, c: Version)
    requires Inv(cfg, s) && cfg.Accepted() && Enabled(cfg, s, WritesDone(c))
    ensures Inv(cfg, Apply(cfg, s, WritesDone(c)))
  {
    var t := Apply(cfg, s, WritesDone(c));
    var me, r := s.clients[c], Results(s.clients[c].ops);
    WritesSettle(cfg, s, c);
    if Ok in r && Mismatch in r {
      var d :| 0 <= d < |r| && r[d] == Ok;
      assert c == s.first[d];
    } else if Ok in r {
      assert forall d :: 0 <= d < |r| ==> r[d] in r && r[d] == Ok;
      CountAll(s.first, c);
      QuorumIsWinner(cfg, s, c);
      WinnerHoldsAll(cfg, s, c);
      CountAll(r, Ok);
    } else {
      assert forall d :: 0 <= d < |r| ==> r[d] in r && r[d] == Mismatch;
      assert !IsWinner(cfg, s, c) by { assert c !in s.first; }
      LoserNotOk(cfg, s, c, me.ops);
      LoserNowhere(cfg, s, c);
    }
    LocalKeeps(cfg, s, t, c);
  }

  /** Once the winner's version was written first everywhere, or repaired everywhere, it is everywhere. */
  lemma {:induction false} WinnerHoldsAll(cfg: Config, s: State, w: Version)
    requires Inv(cfg, s) && IsWinner(cfg, s, w)
    requires forall d :: 0 <= d < |s.first| ==> s.first[d] == w || s.drives[d] == w
    ensures AllHold(s, w)
  {
    forall d | 0 <= d < |s.drives| ensures s.drives[d] == w {
      assert DriveInv(cfg, s, d);
      if s.drives[d] != s.first[d] { WinnerUnique(cfg, s, s.drives[d], w); }
    }
  }

  lemma {:induction false} ReadKeeps(cfg: Config, s: State, c: Version, d: nat)
    requires Inv(cfg, s) && Enabled(cfg, s, Read(c, d))
    ensures Inv(cfg, Apply(cfg, s, Read(c, d)))
  {
    assert ClientInv(cfg, s, c, s.clients[c]) && DriveInv(cfg, s, d);
    LocalKeeps(cfg, s, Apply(cfg, s, Read(c, d)), c);
  }

  /** What a complete poll of client `c` elects: `c` itself exactly if `c` is the winner. */
  lemma {:induction false} PollDecides(cfg: Config, s: State, c: Version, vc: VersionCount<Version>)
    requires Inv(cfg, s) && Enabled(cfg, s, Decide(c, vc))
    ensures (Target(Seen(s.clients[c].phase.view), vc) == Some(c)) <==> IsWinner(cfg, s, c)
    ensures IsWinner(cfg, s, c) ==> Seen(s.clients[c].phase.view) == s.first
  {
    var view, seen := s.clients[c].phase.view, Seen(s.clients[c].phase.view);
    assert ClientInv(cfg, s, c, s.clients[c]);
    FirstNotAbsent(cfg, s);
    if IsWinner(cfg, s, c) {
      forall d | 0 <= d < |seen| ensures seen[d] == s.first[d] {
        assert view[d].Some?;
        if seen[d] != s.first[d] { WinnerUnique(cfg, s, c, seen[d]); }
      }
      MixElectsWinner(s.first, seen, c, vc);
    } else if d :| 0 <= d < |seen| && seen[d] != s.first[d] {
      assert view[d].Some? && IsWinner(cfg, s, seen[d]);
      forall e | 0 <= e < |seen| ensures seen[e] == s.first[e] || seen[e] == seen[d] {
        assert view[e].Some?;
        if seen[e] != s.first[e] { WinnerUnique(cfg, s, seen[d], seen[e]); }
      }
      MixElectsWinner(s.first, seen, seen[d], vc);
    } else {
      assert seen == s.first;
      CountPositive(Replies(seen), NotFound);
    }
  }

  lemma {:induction false} DecideKeeps(cfg: Config, s: State, c: Version, vc: VersionCount<Version>)
    requires Inv(cfg, s) && cfg.Accepted() && Enabled(cfg, s, Decide(c, vc))
    ensures Inv(cfg, Apply(cfg, s, Decide(c, vc)))
  {
    var t := Apply(cfg, s, Decide(c, vc));
    var me := s.clients[c];
    assert ClientInv(cfg, s, c, me);
    PollDecides(cfg, s, c, vc);
    if IsWinner(cfg, s, c) {
      forall d | 0 <= d < |me.ops| ensures RepairInv(s, c, t.clients[c].ops[d], d) {
        assert DriveInv(cfg, s, d);
        if s.drives[d] != s.first[d] { WinnerUnique(cfg, s, s.drives[d], c); }
      }
    } else {
      LoserDecides(cfg, s, c, vc);
    }
    LocalKeeps(cfg, s, t, c);
  }

  /** A loser gives up only when no drive holds its version any more. */
  lemma {:induction false} LoserDecides(cfg: Config, s: State, c: Version, vc: VersionCount<Version>)
    requires Inv(cfg, s) && cfg.Accepted() && Enabled(cfg, s, Decide(c, vc)) && !IsWinner(cfg, s, c)
    ensures ClientInv(cfg, s, c, Apply(cfg, s, Decide(c, vc)).clients[c])
    ensures !Apply(cfg, s, Decide(c, vc)).clients[c].phase.Repairing?
  {
    var me, seen := s.clients[c], Seen(s.clients[c].phase.view);
    assert ClientInv(cfg, s, c, me);
    PollDecides(cfg, s, c, vc);
    if c !in seen {
      forall d | 0 <= d < |s.first| && s.first[d] == c ensures s.drives[d] != c {
        assert seen[d] in seen && me.phase.view[d].Some?;
      }
      LoserNowhere(cfg, s, c);
      LoserNotOk(cfg, s, c, me.ops);
    }
  }

  lemma {:induction false} RepairDoneKeeps(cfg: Config, s: State, c: Version)
    requires Inv(cfg, s) && cfg.Accepted() && Enabled(cfg, s, RepairDone(c))
    ensures Inv(cfg, Apply(cfg, s, RepairDone(c)))
  {
    var t := Apply(cfg, s, RepairDone(c));
    var me := s.clients[c];
    assert ClientInv(cfg, s, c, me);
    forall d | 0 <= d < |me.ops| ensures Results(me.ops)[d] == Ok && (s.first[d] == c || s.drives[d] == c) {
      assert RepairInv(s, c, me.ops[d], d);
    }
    CountAll(Results(me.ops), Ok);
    WinnerHoldsAll(cfg, s, c);
    LocalKeeps(cfg, s, t, c);
  }

  lemma {:induction false} NextKeeps(cfg: Config, s: State, t: State)
    requires Inv(cfg, s) && cfg.Accepted() && Next(cfg, s, t)
    ensures Inv(cfg, t)
  {
    var step :| Enabled(cfg, s, step) && Apply(cfg, s, step) == t;
    match step
    case Start(c) => StartKeeps(cfg, s, c);
    case Cas(c, d) => if s.clients[c].phase.Writing? { CasWriteKeeps(cfg, s, c, d); }
      else { CasRepairKeeps(cfg, s, c, d); }
    case WritesDone(c) => WritesDoneKeeps(cfg, s, c);
    case Read(c, d) => ReadKeeps(cfg, s, c, d);
    case Decide(c, vc) => DecideKeeps(cfg, s, c, vc);
    case RepairDone(c) => RepairDoneKeeps(cfg, s, c);
  }

  lemma {:induction false} RunKeeps(cfg: Config, run: seq<State>, i: nat)
    requires cfg.Accepted() && IsRun(cfg, run) && i < |run|
    ensures Inv(cfg, run[i])
  {
    if i > 0 {
      RunKeeps(cfg, run, i - 1);
      assert Next(cfg, run[i - 1], run[i - 1 + 1]);
      NextKeeps(cfg, run[i - 1], run[i]);
    }
  }

  // ----- the results

  /** What a poll is taken to show: the absent version exactly if strictly more drives lack the key than hold any one
      version; otherwise the version that most drives hold, the earliest of those. */
  lemma {:induction false} TargetIs(seen: seq<Version>, vc: VersionCount<Version>)
    requires IsElected(Replies(seen), vc)
    ensures var r := Replies(seen);
      && (Target(seen, vc) == Some(ABSENT) <==>
            seen != [] && forall v: Version :: v != ABSENT ==> Count(r, Found(v)) < Count(r, NotFound))
      && forall w: Version :: w != ABSENT ==> (Target(seen, vc) == Some(w) <==>
           Count(r, Found(w)) >= Count(r, NotFound) && exists p :: ElectedAt(r, p, w))
  {
    var r := Replies(seen);
    forall v: Version ensures Count(r, Found(v)) <= vc.frequency {
      CountPositive(r, Found(v));
      if Found(v) in r {
        var i :| 0 <= i < |r| && r[i] == Found(v);
        assert r[i].Found?;
      }
    }
    CountPositive(r, NotFound);
    if vc.version.None? {
      assert seen != [] ==> r[0] == NotFound;
      assert Count(r, Found(ABSENT + 1)) == 0;
    } else {
      assert vc.version.value != ABSENT;
    }
    forall w: Version | exists p :: ElectedAt(r, p, w) ensures vc == VersionCount(Some(w), Count(r, Found(w))) {
      ElectionUnique(r, vc, VersionCount(Some(w), Count(r, Found(w))));
    }
  }

  /** A client ends its PUT in one of three cases only: all its writes took effect, none did, or its last poll did not
      show its version. */
  lemma {:induction false} ReturnsOnlyIf(cfg: Config, s: State, step: Step, c: Version)
    requires Enabled(cfg, s, step) && c in s.clients && !s.clients[c].phase.Returned?
    requires Apply(cfg, s, step).clients[c].phase.Returned?
    ensures var ops := s.clients[c].ops;
      && Apply(cfg, s, step).clients[c] == Client(ops, Returned(Evaluate(cfg, ops)))
      && (Mismatch !in Results(ops) || Ok !in Results(ops)
          || (s.clients[c].phase.Repairing? && c !in s.clients[c].phase.seen)
          || (s.clients[c].phase.Polling? && c !in Seen(s.clients[c].phase.view)))
  {
  }

  /** In every run, with any number of clients and any interleaving:
      at most one PUT returns OK; only the elected first writer ever repairs; and in every state in which
      that writer has returned, with or without later clients, all drives hold its version. */
  lemma {:induction false} AtMostOnePutSucceeds(cfg: Config, run: seq<State>, i: nat, a: Version, b: Version)
    requires cfg.Accepted() && IsRun(cfg, run) && i < |run|
    requires a in run[i].clients && b in run[i].clients
    ensures run[i].clients[a].phase == Returned(OK) && run[i].clients[b].phase == Returned(OK) ==> a == b
    ensures run[i].clients[a].phase.Repairing? ==> IsWinner(cfg, run[i], a)
    ensures run[i].clients[a].phase.Repairing? && run[i].clients[b].phase.Repairing? ==> a == b
    ensures run[i].clients[a].phase == Returned(OK) ==> AllHold(run[i], a)
    ensures run[i].clients[a].phase.Returned? && IsWinner(cfg, run[i], a) ==> run[i].clients[a].phase == Returned(OK)
  {
    RunKeeps(cfg, run, i);
    var s := run[i];
    assert ClientInv(cfg, s, a, s.clients[a]) && ClientInv(cfg, s, b, s.clients[b]);
    if IsWinner(cfg, s, a) && IsWinner(cfg, s, b) { WinnerUnique(cfg, s, a, b); }
  }

  /** Which error a PUT returns that did not win, in every state of every run: a version mismatch if it was first on at
      most numParity drives, so that the writes of others reached a data quorum, and an I/O error if it was first on
      more. */
  lemma {:induction false} LoserStatus(cfg: Config, run: seq<State>, i: nat, c: Version)
    requires cfg.Accepted() && IsRun(cfg, run) && i < |run|
    requires c in run[i].clients && run[i].clients[c].phase.Returned?
    ensures var s, status := run[i], run[i].clients[c].phase.status;
      && (status == OK <==> IsWinner(cfg, s, c))
      && (status == VERSION_MISMATCH <==> !IsWinner(cfg, s, c) && Count(s.first, c) <= cfg.numParity)
      && (status == CLIENT_IO_ERROR <==> !IsWinner(cfg, s, c) && Count(s.first, c) > cfg.numParity)
  {
    RunKeeps(cfg, run, i);
    assert ClientInv(cfg, run[i], c, run[i].clients[c]);
  }

  /** A PUT that returned an error has left nothing behind: from then on its version is on no drive, in any state of the
      run. */
  lemma {:induction false} FailedPutIsGone(cfg: Config, run: seq<State>, i: nat, j: nat, c: Version)
    requires cfg.Accepted() && IsRun(cfg, run) && i <= j < |run|
    requires c in run[i].clients && run[i].clients[c].phase.Returned? && run[i].clients[c].phase.status != OK
    ensures Nowhere(run[j], c)
  {
    ReturnIsFinal(cfg, run, i, j, c);
    RunKeeps(cfg, run, j);
    assert ClientInv(cfg, run[j], c, run[j].clients[c]);
  }

  /** A returned status is final, so the results about one state speak about the whole run. */
  lemma {:induction false} ReturnIsFinal(cfg: Config, run: seq<State>, i: nat, j: nat, c: Version)
    requires cfg.Accepted() && IsRun(cfg, run) && i <= j < |run|
    requires c in run[i].clients && run[i].clients[c].phase.Returned?
    ensures c in run[j].clients && run[j].clients[c] == run[i].clients[c]
    decreases j
  {
    if i < j {
      ReturnIsFinal(cfg, run, i, j - 1, c);
      RunKeeps(cfg, run, j - 1);
      assert Next(cfg, run[j - 1], run[j - 1 + 1]);
      ReturnedStays(cfg, run[j - 1], run[j], c);
    }
  }

  lemma {:induction false} ReturnedStays(cfg: Config, s: State, t: State, c: Version)
    requires Inv(cfg, s) && Next(cfg, s, t) && c in s.clients && s.clients[c].phase.Returned?
    ensures c in t.clients && t.clients[c] == s.clients[c]
  {
    assert ClientInv(cfg, s, c, s.clients[c]);
  }
}
