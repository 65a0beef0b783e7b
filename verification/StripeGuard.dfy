/** Why the cluster map insists on more data chunks than parities: with as many parities, or more, there is a run in
which two competing PUTs of the same stripe both return OK. */
module StripeGuard {
  import opened Wrappers
  import opened Sequences
  import opened Election
  import opened StripeProtocol

  ghost predicate IsPath(cfg: Config, run: seq<State>, t: State) {
    IsRun(cfg, run) && run[|run| - 1] == t
  }

  ghost predicate Reachable(cfg: Config, t: State) {
    exists run :: IsPath(cfg, run, t)
  }

  lemma {:induction false} OneStep(cfg: Config, s: State, step: Step, t: State)
    requires Reachable(cfg, s) && Enabled(cfg, s, step) && Apply(cfg, s, step) == t
    ensures Reachable(cfg, t)
  {
    var run :| IsPath(cfg, run, s);
    var longer := run + [t];
    forall i | 0 <= i < |longer| - 1 ensures Next(cfg, longer[i], longer[i + 1]) {
      if i < |run| - 1 { assert longer[i] == run[i] && longer[i + 1] == run[i + 1]; }
    }
    assert IsPath(cfg, longer, t);
  }

  /** The run: client a is first on the leading `split` drives, client b on the other ones. */
  datatype Race = Race(cfg: Config, split: nat, a: Version, b: Version) {
    ghost predicate Valid() {
      && 0 < split < cfg.Size()
      && a != b && a != cfg.base && b != cfg.base && a != ABSENT && b != ABSENT
    }

    /** The leading client is first on no fewer drives than the other. */
    ghost predicate Leads() { Valid() && N() - split <= split }

    /** Both are first on a data quorum. */
    ghost predicate Even() { Leads() && cfg.numData <= N() - split }

    function N(): nat { cfg.Size() }

    function Owner(d: int): Version { if d < split then a else b }

    function Owners(): seq<Version> { seq(N(), d => Owner(d)) }

    // ----- the states on the way

    /** The writes of client c up to drive k. */
    function Ops(c: Version, k: nat): seq<Op> {
      seq(N(), d => Op(cfg.base, if d >= k then Pending else if Owner(d) == c then Ok else Mismatch))
    }

    function DrivesAt(d: int, k: nat): Version { if d < k then Owner(d) else cfg.base }

    function Drives(k: nat): seq<Version> { seq(N(), d => DrivesAt(d, k)) }

    function Both(drives: seq<Version>, first: seq<Version>, x: Client, y: Client): State {
      State(drives, first, map[a := x, b := y])
    }

    function Wrote(k: nat): State {
      Both(Drives(k), Drives(k), Client(Ops(a, k), Writing), Client(Ops(b, k), Writing))
    }

    function Polled(k: nat): State {
      Both(Owners(), Owners(), Client(Ops(a, N()), Polling(View(Owners(), k))),
        Client(Ops(b, N()), Polling(Blank(N()))))
    }

    /** The repair of client a up to drive k. */
    function RepairOps(k: nat): seq<Op> {
      seq(N(), d => if d < split then Op(cfg.base, Ok) else Op(b, if d < k then Ok else Pending))
    }

    function RepairedDrivesAt(d: int, k: nat): Version { if d < k then a else Owner(d) }

    function RepairedDrives(k: nat): seq<Version> { seq(N(), d => RepairedDrivesAt(d, k)) }

    function Repaired(k: nat): State {
      Both(RepairedDrives(k), Owners(), Client(RepairOps(k), Repairing(Owners())),
        Client(Ops(b, N()), Polling(Blank(N()))))
    }

    function AllA(): seq<Version> { RepairedDrives(N()) }

    function Late(k: nat): State {
      Both(AllA(), Owners(), Client(RepairOps(N()), Returned(OK)), Client(Ops(b, N()), Polling(View(AllA(), k))))
    }

    function End(): State {
      Both(AllA(), Owners(), Client(RepairOps(N()), Returned(OK)), Client(Ops(b, N()), Returned(OK)))
    }

    // ----- the steps

    lemma {:induction false} Begins()
      requires Valid()
      ensures Reachable(cfg, Wrote(0))
    {
      var s := State(Drives(0), Drives(0), map[]);
      assert IsPath(cfg, [s], s);
      var t := Apply(cfg, s, Start(a));
      OneStep(cfg, s, Start(a), t);
      assert Apply(cfg, t, Start(b)).clients == Wrote(0).clients by {
        assert seq(N(), i => Op(cfg.base, Pending)) == Ops(a, 0) == Ops(b, 0);
      }
      OneStep(cfg, t, Start(b), Wrote(0));
    }

    lemma {:induction false} WritesOne(k: nat)
      requires Valid() && k < N() && Reachable(cfg, Wrote(k))
      ensures Reachable(cfg, Wrote(k + 1))
    {
      var x, y := Owner(k), if Owner(k) == a then b else a;
      var s := Wrote(k);
      assert Ops(a, k)[k := Op(cfg.base, if x == a then Ok else Mismatch)] == Ops(a, k + 1);
      assert Ops(b, k)[k := Op(cfg.base, if x == b then Ok else Mismatch)] == Ops(b, k + 1);
      assert Drives(k)[k := x] == Drives(k + 1);
      var t := Apply(cfg, s, Cas(x, k));
      assert t.drives == t.first == Drives(k + 1);
      OneStep(cfg, s, Cas(x, k), t);
      assert Apply(cfg, t, Cas(y, k)) == Wrote(k + 1);
      OneStep(cfg, t, Cas(y, k), Wrote(k + 1));
    }

    lemma {:induction false} WritesAll(k: nat)
      requires Valid() && k <= N()
      ensures Reachable(cfg, Wrote(k))
      decreases k
    {
      if k == 0 {
        Begins();
      } else {
        WritesAll(k - 1);
        WritesOne(k - 1);
      }
    }

    lemma {:induction false} StartsPolling()
      requires Valid()
      ensures Reachable(cfg, Polled(0))
    {
      WritesAll(N());
      var s := Wrote(N());
      assert Drives(N()) == Owners();
      var x, y := Results(Ops(a, N())), Results(Ops(b, N()));
      assert x[0] == y[N() - 1] == Ok && x[N() - 1] == y[0] == Mismatch;
      var t := Apply(cfg, s, WritesDone(a));
      OneStep(cfg, s, WritesDone(a), t);
      assert View(Owners(), 0) == Blank(N());
      assert Apply(cfg, t, WritesDone(b)) == Polled(0);
      OneStep(cfg, t, WritesDone(b), Polled(0));
    }

    lemma {:induction false} PollsAll(k: nat)
      requires Valid() && k <= N()
      ensures Reachable(cfg, Polled(k))
      decreases k
    {
      if k == 0 {
        StartsPolling();
      } else {
        PollsAll(k - 1);
        assert View(Owners(), k - 1)[k - 1 := Some(Owners()[k - 1])] == View(Owners(), k);
        OneStep(cfg, Polled(k - 1), Read(a, k - 1), Polled(k));
      }
    }

    /** How often each client was first. */
    lemma {:induction false} OwnerCounts(k: nat)
      requires Valid() && k <= N()
      ensures var r := Replies(Owners())[..k];
        && Count(r, Found(a)) == (if k < split then k else split)
        && Count(r, Found(a)) + Count(r, Found(b)) == k
      decreases k
    {
      if k > 0 {
        OwnerCounts(k - 1);
        CountPush(Replies(Owners()), k - 1, Found(a));
        CountPush(Replies(Owners()), k - 1, Found(b));
      }
    }

    lemma {:induction false} StartsRepair()
      requires Leads()
      ensures Reachable(cfg, Repaired(split))
    {
      PollsAll(N());
      OwnerCounts(N());
      var r := Replies(Owners());
      assert r[..N()] == r;
      assert ElectedAt(r, 0, a);
      var vc := VersionCount(Some(a), Count(r, Found(a)));
      CountPositive(r, NotFound);
      var view := View(Owners(), N());
      assert Seen(view) == Owners();
      assert Refill(Ops(a, N()), Owners()) == RepairOps(split);
      assert RepairedDrives(split) == Owners();
      OneStep(cfg, Polled(N()), Decide(a, vc), Repaired(split));
    }

    lemma {:induction false} RepairsAll(k: nat)
      requires Leads() && split <= k <= N()
      ensures Reachable(cfg, Repaired(k))
      decreases k
    {
      if k == split {
        StartsRepair();
      } else {
        RepairsAll(k - 1);
        var s := Repaired(k - 1);
        assert RepairOps(k - 1)[k - 1 := Op(b, Ok)] == RepairOps(k);
        assert RepairedDrives(k - 1)[k - 1 := a] == RepairedDrives(k);
        assert s.first[k - 1] == b;
        OneStep(cfg, s, Cas(a, k - 1), Repaired(k));
      }
    }

    lemma {:induction false} RepairReturns()
      requires Leads()
      ensures Reachable(cfg, Late(0))
    {
      RepairsAll(N());
      var r := Results(RepairOps(N()));
      CountAll(r, Ok);
      assert View(AllA(), 0) == Blank(N());
      OneStep(cfg, Repaired(N()), RepairDone(a), Late(0));
    }

    lemma {:induction false} LatePoll(k: nat)
      requires Leads() && k <= N()
      ensures Reachable(cfg, Late(k))
      decreases k
    {
      if k == 0 {
        RepairReturns();
      } else {
        LatePoll(k - 1);
        assert View(AllA(), k - 1)[k - 1 := Some(AllA()[k - 1])] == View(AllA(), k);
        OneStep(cfg, Late(k - 1), Read(b, k - 1), Late(k));
      }
    }

    /** The late poll elects client a. */
    lemma {:induction false} LateElection() returns (vc: VersionCount<Version>)
      requires Leads()
      ensures IsElected(Replies(AllA()), vc) && Target(AllA(), vc) == Some(a)
    {
      var r := Replies(AllA());
      CountAll(r, Found(a));
      assert ElectedAt(r, 0, a);
      vc := VersionCount(Some(a), Count(r, Found(a)));
      CountPositive(r, NotFound);
    }

    /** The own writes of the late client reach the quorum. */
    lemma {:induction false} LateQuorum()
      requires Even()
      ensures Evaluate(cfg, Ops(b, N())) == OK
    {
      OwnerCounts(N());
      assert Replies(Owners())[..N()] == Replies(Owners());
      CountMono(Replies(Owners()), Found(b), Results(Ops(b, N())), Ok);
    }

    /** The late client does not find its version any more, and returns OK as well. */
    lemma {:induction false} BothSucceed()
      requires Even()
      ensures Reachable(cfg, End())
    {
      LatePoll(N());
      var vc := LateElection();
      LateQuorum();
      assert Seen(View(AllA(), N())) == AllA();
      assert b !in AllA();
      OneStep(cfg, Late(N()), Decide(b, vc), End());
    }
  }

  ghost predicate TwoSucceed(cfg: Config, run: seq<State>, a: Version, b: Version) {
    && IsRun(cfg, run) && a != b
    && var s := run[|run| - 1];
       && a in s.clients && b in s.clients
       && s.clients[a].phase == Returned(OK) && s.clients[b].phase == Returned(OK)
  }

  /** At most one of several competing PUTs succeeds, in every run, exactly if there are more data chunks than
      parities. */
  lemma {:induction false} GuardIsExact(cfg: Config)
    requires cfg.numData > 0
    ensures cfg.Accepted() <==> forall run, a, b :: !TwoSucceed(cfg, run, a, b)
  {
    if cfg.Accepted() {
      forall run: seq<State>, a, b ensures !TwoSucceed(cfg, run, a, b) {
        if IsRun(cfg, run) && a in run[|run| - 1].clients && b in run[|run| - 1].clients {
          AtMostOnePutSucceeds(cfg, run, |run| - 1, a, b);
        }
      }
    } else {
      var race := Race(cfg, cfg.numParity, cfg.base + 1, cfg.base + 2);
      race.BothSucceed();
      var run :| IsPath(cfg, run, race.End());
      assert TwoSucceed(cfg, run, race.a, race.b);
    }
  }
}
