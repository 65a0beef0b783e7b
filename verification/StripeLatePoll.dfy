/** What a late poll can do: in a stripe of three chunks or more a client that goes on reading versions while a later
generation writes may come to return OK, although the winner of its own generation has returned OK before it. */
module StripeLatePoll {
  import opened Wrappers
  import opened Sequences
  import opened Election
  import opened StripeProtocol
  import opened StripeGenerations
  import opened StripeHistories
  import StripeGuard

  /** Client L is first on drive 0 only, client W on all the others and so the winner; afterwards one client X(d) of the
      next generation replaces the winner's version on each drive d but drive 0. */
  datatype Poll = Poll(cfg: Config) {
    ghost predicate Valid() { cfg.Accepted() && cfg.Size() >= 3 }

    function N(): nat { cfg.Size() }
    function L(): Version { cfg.base + 1 }
    function W(): Version { cfg.base + 2 }
    function X(d: nat): Version { cfg.base + 2 + d }

    function Plan(): Setup { Setup(cfg, [W()], v => if v > cfg.base + 2 then 1 else 0, cfg.Size()) }

    function First(): StripeGuard.Race { StripeGuard.Race(cfg, 1, L(), W()) }

    /** The drives once the later clients up to k have written. */
    function MixedAt(d: int, k: nat): Version { if 1 <= d <= k then X(d) else W() }

    function Mixed(k: nat): seq<Version> { seq(N(), d => MixedAt(d, k)) }

    function Later(k: nat): map<Version, Client> {
      if k == 0 then map[] else Later(k - 1)[X(k) := One(k, Ok)]
    }

    /** A later client, and what it knows of its drive. */
    function One(d: nat, result: Result): Client {
      Client(seq(N(), i => Op(W(), if i == d then result else Pending)), Writing)
    }

    function Both(drives: seq<Version>, second: seq<Version>, era: nat, k: nat, x: Client, y: Client): Ages {
      Ages(drives, [First().Owners(), second], era, Later(k)[L() := x][W() := y])
    }

    function Loser(seen: seq<Version>, k: nat): Client {
      Client(First().Ops(L(), N()), Polling(View(seen, k)))
    }

    function Winner(k: nat): Client {
      Client(First().Ops(W(), N()), Polling(View(First().Owners(), k)))
    }

    function Opening(drives: seq<Version>, x: Client, y: Client): Ages { Both(drives, Mixed(0), 0, 0, x, y) }

    /** Client L has read drive 0 and pauses, client W has read the drives up to k. */
    function Paused(k: nat): Ages { Opening(First().Owners(), Loser(First().Owners(), 1), Winner(k)) }

    function WinnerOps(result: Result): seq<Op> {
      seq(N(), d => if d == 0 then Op(L(), result) else Op(cfg.base, Ok))
    }

    function Done(): Client { Client(WinnerOps(Ok), Returned(OK)) }

    /** The later clients up to k have started and written; the last one may not have written yet. */
    function Written(k: nat): Ages {
      Both(Mixed(k), Mixed(k), if k == 0 then 0 else 1, k, Loser(First().Owners(), 1), Done())
    }

    /** What client L sees in the end: its own version on drive 0, a different one on every other drive. */
    function SightAt(d: nat): Version { if d == 0 then L() else X(d) }

    function Sight(): seq<Version> { seq(N(), d requires 0 <= d => SightAt(d)) }

    function ReadOn(k: nat): Ages
      requires Valid()
    {
      Both(Mixed(N() - 1), Mixed(N() - 1), 1, N() - 1, Loser(Sight(), k), Done())
    }

    function LoserOps(k: nat): seq<Op> {
      seq(N(), d requires 0 <= d => if d == 0 then Op(cfg.base, Ok) else Op(X(d), if d < k then Ok else Pending))
    }

    /** The repair of client L up to drive k. */
    function Repaired(k: nat, phase: Phase): Ages
      requires Valid()
    {
      Both(Overwritten(k), Mixed(N() - 1), 1, N() - 1, Client(LoserOps(k), phase), Done())
    }

    function OverwrittenAt(d: nat, k: nat): Version { if d == 0 then W() else if d < k then L() else X(d) }

    function Overwritten(k: nat): seq<Version> { seq(N(), d requires 0 <= d => OverwrittenAt(d, k)) }

    function Mending(k: nat): Ages
      requires Valid()
    {
      Repaired(k, Repairing(Sight()))
    }

    function End(): Ages
      requires Valid()
    {
      Repaired(N(), Returned(OK))
    }

    // ----- the first generation

    lemma {:induction false} ReachPaused()
      requires Valid()
      ensures Reachable(Plan(), false, Paused(0))
    {
      var u, r := Plan(), First();
      r.StartsPolling();
      var run :| StripeGuard.IsPath(cfg, run, r.Polled(0));
      RunIsHistory(u, false, run);
      var owners := r.Owners();
      assert View(owners, 0) == Blank(N()) && Mixed(0) == Repeat(W(), N());
      var s := Opening(owners, Loser(owners, 0), Winner(0));
      assert Lifted(u, r.Polled(0)) == s;
      assert View(owners, 0)[0 := Some(L())] == View(owners, 1);
      Turns(u, false, s, Read(L(), 0), Loser(owners, 1), Paused(0));
    }

    lemma {:induction false} OwnersElect() returns (vc: VersionCount<Version>)
      requires Valid()
      ensures IsElected(Replies(First().Owners()), vc) && Target(First().Owners(), vc) == Some(W())
    {
      var r := Replies(First().Owners());
      First().OwnerCounts(N());
      assert r[..N()] == r;
      vc := Elects(First().Owners(), 1, W());
    }

    function Restoring(drives: seq<Version>, result: Result): Ages {
      Opening(drives, Loser(First().Owners(), 1), Client(WinnerOps(result), Repairing(First().Owners())))
    }

    lemma {:induction false} WinnerReads()
      requires Valid()
      ensures Reachable(Plan(), false, Paused(N()))
    {
      ReachPaused();
      var s, owners := Paused(0), First().Owners();
      assert View(owners, 0) == Blank(N()) && Seeing(s, W(), View(owners, 0)) == s;
      Reads(Plan(), false, s, W(), owners, 0, N());
      assert Seeing(s, W(), View(owners, N())) == Paused(N());
    }

    lemma {:induction false} WinnerDecides()
      requires Valid()
      ensures Reachable(Plan(), false, Restoring(First().Owners(), Pending))
    {
      WinnerReads();
      var owners := First().Owners();
      var vc := OwnersElect();
      assert Refill(First().Ops(W(), N()), owners) == WinnerOps(Pending);
      var t := Restoring(owners, Pending);
      Mends(Plan(), false, Paused(N()), W(), owners, vc, t);
    }

    lemma {:induction false} WinnerRepairs()
      requires Valid()
      ensures Reachable(Plan(), false, Restoring(Mixed(0), Ok))
    {
      WinnerDecides();
      var u, s, t := Plan(), Restoring(First().Owners(), Pending), Restoring(Mixed(0), Ok);
      assert WinnerOps(Pending)[0 := Op(L(), Ok)] == WinnerOps(Ok);
      assert s.drives[0 := W()] == t.drives;
      assert s.firsts[0 := s.firsts[0]] == t.firsts && u.Base(0) == cfg.base;
      Casts(u, false, s, W(), 0, WinnerOps(Ok), t);
    }

    lemma {:induction false} WinnerReturns()
      requires Valid()
      ensures Reachable(Plan(), false, Written(0))
    {
      WinnerRepairs();
      CountAll(Results(WinnerOps(Ok)), Ok);
      Turns(Plan(), false, Restoring(Mixed(0), Ok), RepairDone(W()), Done(), Written(0));
    }

    // ----- the second generation

    lemma {:induction false} LaterOnly(k: nat, c: Version)
      ensures c in Later(k) ==> cfg.base + 2 < c <= cfg.base + 2 + k
      decreases k
    {
      if k > 0 { LaterOnly(k - 1, c); }
    }

    /** Client X(k) has started. */
    function Started(k: nat): Ages
      requires 0 < k
    {
      var s := Written(k - 1);
      s.(era := 1, clients := s.clients[X(k) := One(k, Pending)])
    }

    lemma {:induction false} OneStarts(k: nat)
      requires Valid() && 0 < k < N() && Reachable(Plan(), false, Written(k - 1))
      ensures Reachable(Plan(), false, Started(k))
    {
      var u, s := Plan(), Written(k - 1);
      LaterOnly(k - 1, X(k));
      assert u.ConfigOf(1).base == W();
      assert seq(N(), i => Op(W(), Pending)) == One(k, Pending).ops;
      Turns(u, false, s, Start(X(k)), One(k, Pending), Started(k));
    }

    lemma {:induction false} OneMore(k: nat)
      requires 0 < k
      ensures Written(k).clients == Started(k).clients[X(k) := One(k, Ok)]
    {
    }

    lemma {:induction false} OneWrites(k: nat)
      requires Valid() && 0 < k < N() && Reachable(Plan(), false, Started(k))
      ensures Reachable(Plan(), false, Written(k))
    {
      var u, s, t := Plan(), Started(k), Written(k);
      assert One(k, Pending).ops[k := Op(W(), Ok)] == One(k, Ok).ops;
      assert s.clients[X(k)] == One(k, Pending) && s.drives[k] == W() == u.Base(1);
      assert Mixed(k - 1)[k := X(k)] == Mixed(k);
      OneMore(k);
      assert s.firsts[1 := Mixed(k)] == t.firsts;
      Casts(u, false, s, X(k), k, One(k, Ok).ops, t);
    }

    lemma {:induction false} AllWrite(k: nat)
      requires Valid() && k < N()
      ensures Reachable(Plan(), false, Written(k))
      decreases k
    {
      if k == 0 {
        WinnerReturns();
      } else {
        AllWrite(k - 1);
        OneStarts(k);
        OneWrites(k);
      }
    }

    // ----- the late poll

    lemma {:induction false} LoserReads()
      requires Valid()
      ensures Reachable(Plan(), false, ReadOn(N()))
    {
      AllWrite(N() - 1);
      assert View(First().Owners(), 1) == View(Sight(), 1);
      LoserSees(1);
      LoserSees(N());
      Reads(Plan(), false, Written(N() - 1), L(), Sight(), 1, N());
    }

    /** Client L alone changes. */
    lemma {:induction false} BothChanges(
        drives: seq<Version>, second: seq<Version>, era: nat, k: nat, x: Client, y: Client, z: Client)
      ensures var s := Both(drives, second, era, k, x, y).clients;
        L() in s && s[L()] == x && Both(drives, second, era, k, z, y).clients == s[L() := z]
    {
    }

    lemma {:induction false} LoserSees(k: nat)
      requires Valid()
      ensures L() in Written(N() - 1).clients && Seeing(Written(N() - 1), L(), View(Sight(), k)) == ReadOn(k)
    {
      assert Seeing(Written(N() - 1), L(), View(Sight(), k)).clients == ReadOn(k).clients;
    }

    /** All versions differ, so the first one is elected. */
    lemma {:induction false} SightElects() returns (vc: VersionCount<Version>)
      requires Valid()
      ensures IsElected(Replies(Sight()), vc) && Target(Sight(), vc) == Some(L())
    {
      var r := Replies(Sight());
      forall d | 0 <= d < N() ensures r[d] == Found(Sight()[d]) { assert Sight()[d] > cfg.base; }
      assert Distinct(r);
      forall i | 0 <= i < N() ensures Count(r, Found(Sight()[i])) <= 1 { DistinctCount(r, Found(Sight()[i])); }
      CountPositive(r, Found(L()));
      assert r[0] == Found(L());
      vc := Elects(Sight(), 0, L());
    }

    lemma {:induction false} LoserRefills()
      requires Valid()
      ensures Mixed(N() - 1) == Overwritten(1)
      ensures Refill(First().Ops(L(), N()), Sight()) == LoserOps(1)
    {
    }

    lemma {:induction false} LoserDecides()
      requires Valid()
      ensures Reachable(Plan(), false, Mending(1))
    {
      LoserReads();
      var vc := SightElects();
      LoserRefills();
      var s, t, x := ReadOn(N()), Mending(1), Client(LoserOps(1), Repairing(Sight()));
      BothChanges(Mixed(N() - 1), Mixed(N() - 1), 1, N() - 1, Loser(Sight(), N()), Done(), x);
      Mends(Plan(), false, s, L(), Sight(), vc, t);
    }

    lemma {:induction false} LoserRepairsOne(k: nat)
      requires Valid() && 0 < k < N() && Reachable(Plan(), false, Mending(k))
      ensures Reachable(Plan(), false, Mending(k + 1))
    {
      var u, s, t := Plan(), Mending(k), Mending(k + 1);
      assert LoserOps(k)[k := Op(X(k), Ok)] == LoserOps(k + 1);
      assert s.drives[k := L()] == t.drives;
      assert s.firsts[0][k] == W() != u.Base(0);
      assert t.clients == s.clients[L() := t.clients[L()]];
      Casts(u, false, s, L(), k, LoserOps(k + 1), t);
    }

    lemma {:induction false} LoserRepairs(k: nat)
      requires Valid() && 0 < k <= N()
      ensures Reachable(Plan(), false, Mending(k))
      decreases k
    {
      if k == 1 {
        LoserDecides();
      } else {
        LoserRepairs(k - 1);
        LoserRepairsOne(k - 1);
      }
    }

    lemma {:induction false} LoserReturns()
      requires Valid()
      ensures Reachable(Plan(), false, End())
    {
      LoserRepairs(N());
      CountAll(Results(LoserOps(N())), Ok);
      var s, t := Mending(N()), End();
      assert t.clients == s.clients[L() := t.clients[L()]];
      Turns(Plan(), false, s, RepairDone(L()), t.clients[L()], t);
    }
  }

  // ----- exactly the stripes of at most two chunks are safe

  /** A history, with later generations starting on uniform stripes only, that ends with two clients of one generation
      having returned OK. */
  ghost predicate Collides(cfg: Config, u: Setup, run: seq<Ages>, steps: seq<Step>, a: Version, b: Version) {
    u.Valid() && u.cfg == cfg && u.Uniform() && IsHistory(u, run, steps) && TwoOk(u, run[|steps|], a, b)
  }

  lemma {:induction false} LatePollSucceeds(cfg: Config) returns (run: seq<Ages>, steps: seq<Step>)
    requires cfg.Accepted() && cfg.Size() >= 3
    ensures Collides(cfg, Poll(cfg).Plan(), run, steps, Poll(cfg).L(), Poll(cfg).W())
  {
    var p := Poll(cfg);
    p.LoserReturns();
    run, steps :| IsPath(p.Plan(), false, run, steps, p.End());
  }

  /** Without a bound on the time a poll takes, generations stay apart in every run exactly if the stripe has at most
      two chunks. */
  lemma {:induction false} ApartExactly(cfg: Config)
    requires cfg.Accepted()
    ensures cfg.Size() <= 2 <==> forall u, run, steps, a, b :: !Collides(cfg, u, run, steps, a, b)
  {
    if cfg.Size() <= 2 {
      forall u: Setup, run: seq<Ages>, steps, a, b ensures !Collides(cfg, u, run, steps, a, b) {
        if u.Valid() && u.cfg == cfg && u.Uniform() && IsHistory(u, run, steps) {
          TwoChunksKeep(u, run, steps, |steps|);
          AgesHaveOneOk(u, run[|steps|], a, b);
        }
      }
    } else {
      var run, steps := LatePollSucceeds(cfg);
    }
  }
}
