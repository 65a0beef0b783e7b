/** What an early start can do: a client may learn of a version that numData chunks carry before the PUT of that version
has repaired the others, and replace it. The chunks still to be repaired then take part in its generation late. */
module StripeEarlyStart {
  import opened Wrappers
  import opened Sequences
  import opened Election
  import opened StripeProtocol
  import opened StripeGenerations
  import opened StripeHistories
  import StripeGuard

  /** A client of the latest generation has returned OK, and yet its version is not on all drives. */
  ghost predicate Exposed(u: Setup, s: Ages, c: Version) {
    && c in s.clients && u.age(c) == s.era && s.clients[c].phase == Returned(OK)
    && exists d :: 0 <= d < |s.drives| && s.drives[d] != c
  }

  lemma {:induction false} AgesAreNotExposed(u: Setup, s: Ages, c: Version)
    requires u.Valid() && AgesInv(u, s)
    ensures !Exposed(u, s, c)
  {
    var a := Present(u, s);
    if c in a.clients { assert ClientInv(u.ConfigOf(s.era), a, c, a.clients[c]); }
  }

  /** Client W is first on all drives but the last, where client L is. While W is about to repair the last drive,
      clients X and Y start from W's version and divide the other drives evenly; X, with the odd one if there is one,
      is elected among them. Then W repairs, and Y is first on the last drive as well: now Y is elected, too. X repairs
      all drives and returns OK; on the drives that X was first on Y finds the version it expects, and returns OK. */
  datatype Meeting = Meeting(cfg: Config, quorum: nat) {
    ghost predicate Valid() { cfg.Accepted() && cfg.Size() >= 3 && quorum < cfg.Size() }

    function N(): nat { cfg.Size() }
    function W(): Version { cfg.base + 1 }
    function L(): Version { cfg.base + 2 }
    function X(): Version { cfg.base + 3 }
    function Y(): Version { cfg.base + 4 }

    function Plan(): Setup { Setup(cfg, [W()], v => if v > cfg.base + 2 then 1 else 0, quorum) }

    function First(): StripeGuard.Race
      requires Valid()
    {
      StripeGuard.Race(cfg, N() - 1, W(), L())
    }

    function Half(): int { (N() - 1) / 2 }

    // ----- the second generation

    /** Which of X and Y is first on a drive. Among equals the leading drives decide. */
    function Owner(d: int): Version {
      if d == N() - 1 then Y() else if (d < Half()) == (N() % 2 == 1) then X() else Y()
    }

    function Owners(): seq<Version> { seq(N(), d => Owner(d)) }

    /** What client X sees. */
    function StaleAt(d: int): Version { if d == N() - 1 then L() else Owner(d) }

    function Stale(): seq<Version> { seq(N(), d => StaleAt(d)) }

    function DrivesAt(d: int, k: nat): Version { if d == N() - 1 then L() else if d < k then Owner(d) else W() }

    function Drives(k: nat): seq<Version> { seq(N(), d => DrivesAt(d, k)) }

    function SecondAt(d: int, k: nat): Version { if d < k then Owner(d) else W() }

    function Second(k: nat): seq<Version> { seq(N(), d => SecondAt(d, k)) }

    function Ops(c: Version, k: nat): seq<Op> {
      seq(N(), d => Op(W(), if d >= k then Pending else if Owner(d) == c then Ok else Mismatch))
    }

    /** Client W before and after its last repair, and client L, which polls. */
    function Four(drives: seq<Version>, second: seq<Version>, through: bool, x: Client, y: Client): Ages
      requires Valid()
    {
      Ages(drives, [First().Owners(), second], 1,
           map[W() := Client(First().RepairOps(if through then N() else N() - 1), Repairing(First().Owners())),
               L() := Client(First().Ops(L(), N()), Polling(Blank(N()))), X() := x, Y() := y])
    }

    function Before(): Ages
      requires Valid()
    {
      var s := First().Repaired(N() - 1);
      Ages(s.drives, [s.first, Repeat(W(), N())], 0, s.clients)
    }

    function Wrote(k: nat): Ages
      requires Valid()
    {
      Four(Drives(k), Second(k), false, Client(Ops(X(), k), Writing), Client(Ops(Y(), k), Writing))
    }

    /** Client X has missed the last drive and polls. */
    function Polled(view: seq<Option<Version>>): Ages
      requires Valid()
    {
      Four(Stale(), Second(N() - 1), false, Client(Ops(X(), N()), Polling(view)), Client(Ops(Y(), N() - 1), Writing))
    }

    /** The repair of client X, up to drive k. */
    function XOps(k: nat): seq<Op> {
      seq(N(), d => if d < N() - 1 && Owner(d) == X() then Op(W(), Ok)
                    else Op(if d == N() - 1 then L() else Y(), if d < k then Ok else Pending))
    }

    function Mender(k: nat): Client { Client(XOps(k), Repairing(Stale())) }

    /** Client W has repaired the last drive, client Y has replaced its version there, and polls. */
    function Forked(view: seq<Option<Version>>): Ages
      requires Valid()
    {
      Four(Owners(), Owners(), true, Mender(0), Client(Ops(Y(), N()), Polling(view)))
    }

    lemma {:induction false} ReachBefore()
      requires Valid()
      ensures Reachable(Plan(), true, Before())
    {
      var r := First();
      r.RepairsAll(N() - 1);
      var run :| StripeGuard.IsPath(cfg, run, r.Repaired(N() - 1));
      RunIsHistory(Plan(), true, run);
      assert Lifted(Plan(), r.Repaired(N() - 1)) == Before();
    }

    /** Enough drives hold W's version. */
    lemma {:induction false} QuorumHolds()
      requires Valid()
      ensures First().RepairedDrives(N() - 1) == Drives(0) && Count(Drives(0), W()) >= quorum
    {
      var owners := First().Owners();
      assert First().RepairedDrives(N() - 1) == owners == Drives(0);
      First().OwnerCounts(N());
      assert Replies(owners)[..N()] == Replies(owners);
      CountMono(Replies(owners), Found(W()), owners, W());
    }

    function OneStarted(): Ages
      requires Valid()
    {
      Before().(era := 1, clients := Before().clients[X() := Client(Ops(X(), 0), Writing)])
    }

    lemma {:induction false} OneStarts()
      requires Valid()
      ensures Reachable(Plan(), true, OneStarted())
    {
      ReachBefore();
      QuorumHolds();
      var u, s := Plan(), Before();
      assert seq(N(), i => Op(W(), Pending)) == Ops(X(), 0);
      assert u.ConfigOf(1).base == W();
      Turns(u, true, s, Start(X()), Client(Ops(X(), 0), Writing), OneStarted());
    }

    lemma {:induction false} BothStart()
      requires Valid()
      ensures Reachable(Plan(), true, Wrote(0))
    {
      OneStarts();
      QuorumHolds();
      var u, s, t := Plan(), OneStarted(), Wrote(0);
      assert seq(N(), i => Op(W(), Pending)) == Ops(X(), 0) == Ops(Y(), 0);
      assert Second(0) == Repeat(W(), N());
      assert u.ConfigOf(1).base == W();
      assert t.clients == s.clients[Y() := t.clients[Y()]];
      Turns(u, true, s, Start(Y()), t.clients[Y()], t);
    }

    function Other(d: int): Version { if Owner(d) == X() then Y() else X() }

    /** The owner of drive k has written it. */
    function Owned(k: nat): Ages
      requires Valid()
    {
      var c := Owner(k);
      var s := Four(Drives(k + 1), Second(k + 1), false, Client(Ops(X(), k), Writing), Client(Ops(Y(), k), Writing));
      s.(clients := s.clients[c := Client(Ops(c, k + 1), Writing)])
    }

    lemma {:induction false} OwnerWrites(k: nat)
      requires Valid() && k < N() - 1 && Reachable(Plan(), true, Wrote(k))
      ensures Reachable(Plan(), true, Owned(k))
    {
      var u, s, t, c := Plan(), Wrote(k), Owned(k), Owner(k);
      assert Ops(c, k)[k := Op(W(), Ok)] == Ops(c, k + 1);
      assert Drives(k)[k := c] == Drives(k + 1) && Second(k)[k := c] == Second(k + 1);
      assert s.firsts[1 := Second(k + 1)] == t.firsts;
      Casts(u, true, s, c, k, Ops(c, k + 1), t);
    }

    lemma {:induction false} OtherMisses(k: nat)
      requires Valid() && k < N() - 1 && Reachable(Plan(), true, Owned(k))
      ensures Reachable(Plan(), true, Wrote(k + 1))
    {
      var s, t, o := Owned(k), Wrote(k + 1), Other(k);
      assert Ops(o, k)[k := Op(W(), Mismatch)] == Ops(o, k + 1);
      assert s.firsts[1 := s.firsts[1]] == t.firsts;
      assert t.clients == s.clients[o := t.clients[o]];
      Casts(Plan(), true, s, o, k, Ops(o, k + 1), t);
    }

    lemma {:induction false} WritesOne(k: nat)
      requires Valid() && k < N() - 1 && Reachable(Plan(), true, Wrote(k))
      ensures Reachable(Plan(), true, Wrote(k + 1))
    {
      OwnerWrites(k);
      OtherMisses(k);
    }

    lemma {:induction false} WritesAll(k: nat)
      requires Valid() && k < N()
      ensures Reachable(Plan(), true, Wrote(k))
      decreases k
    {
      if k == 0 {
        BothStart();
      } else {
        WritesAll(k - 1);
        WritesOne(k - 1);
      }
    }

    function Missed(): Ages
      requires Valid()
    {
      var s := Wrote(N() - 1);
      s.(clients := s.clients[X() := Client(Ops(X(), N()), Writing)])
    }

    /** Client X misses the last drive, which W has not repaired yet. */
    lemma {:induction false} LastIsMissed()
      requires Valid()
      ensures Reachable(Plan(), true, Missed())
    {
      var u, k := Plan(), N() - 1;
      WritesAll(k);
      var s := Wrote(k);
      assert Ops(X(), k)[k := Op(W(), Mismatch)] == Ops(X(), N());
      assert s.firsts[1 := s.firsts[1]] == s.firsts;
      Casts(u, true, s, X(), k, Ops(X(), N()), Missed());
    }

    lemma {:induction false} StartsPolling()
      requires Valid()
      ensures Reachable(Plan(), true, Polled(Blank(N())))
    {
      LastIsMissed();
      var s, t, r := Missed(), Polled(Blank(N())), Results(Ops(X(), N()));
      assert r[N() - 1] == Mismatch && r[if N() % 2 == 1 then 0 else Half()] == Ok;
      assert Drives(N() - 1) == Stale();
      assert t.clients == s.clients[X() := t.clients[X()]];
      Turns(Plan(), true, s, WritesDone(X()), t.clients[X()], t);
    }

    /** X or Y polls all drives. */
    lemma {:induction false} Polls(s: Ages, c: Version, t: Ages)
      requires Valid() && Reachable(Plan(), true, s) && |s.firsts| == 2 && |s.drives| == N() && s.era <= 1
      requires c in {X(), Y()} && c in s.clients && s.clients[c].phase == Polling(Blank(N()))
      requires t.drives == s.drives && t.firsts == s.firsts && t.era == s.era
      requires t.clients == s.clients[c := s.clients[c].(phase := Polling(View(s.drives, N())))]
      ensures Reachable(Plan(), true, t) && Seen(View(s.drives, N())) == s.drives
    {
      assert View(s.drives, 0) == Blank(N()) && Seeing(s, c, View(s.drives, 0)) == s;
      Reads(Plan(), true, s, c, s.drives, 0, N());
    }

    // ----- elections

    function XCount(k: nat): nat {
      if N() % 2 == 1 then (if k < Half() then k else Half()) else (if k < Half() then 0 else k - Half())
    }

    /** How often a version is first on the leading k drives. */
    lemma {:induction false} OwnerCount(seen: seq<Version>, v: Version, k: nat)
      requires Valid() && |seen| == N() && k < N() && forall d :: 0 <= d < N() - 1 ==> seen[d] == Owner(d)
      ensures Count(Replies(seen)[..k], Found(v)) ==
        if v == X() then XCount(k) else if v == Y() then k - XCount(k) else 0
      decreases k
    {
      if k > 0 {
        OwnerCount(seen, v, k - 1);
        CountPush(Replies(seen), k - 1, Found(v));
        assert Replies(seen)[k - 1] == Found(Owner(k - 1));
      }
    }

    /** And on all drives, with a version on the last one. */
    lemma {:induction false} AllCounts(seen: seq<Version>, v: Version)
      requires Valid() && |seen| == N() && seen[N() - 1] != ABSENT
      requires forall d :: 0 <= d < N() - 1 ==> seen[d] == Owner(d)
      ensures var k := N() - 1;
        Count(Replies(seen), Found(v)) == (if seen[k] == v then 1 else 0) +
          if v == X() then XCount(k) else if v == Y() then k - XCount(k) else 0
    {
      var k := N() - 1;
      OwnerCount(seen, v, k);
      CountPush(Replies(seen), k, Found(v));
      assert Replies(seen)[..N()] == Replies(seen);
    }

    lemma {:induction false} StaleElects() returns (vc: VersionCount<Version>)
      requires Valid()
      ensures IsElected(Replies(Stale()), vc) && Target(Stale(), vc) == Some(X())
    {
      AllCounts(Stale(), X());
      AllCounts(Stale(), Y());
      AllCounts(Stale(), L());
      assert forall d :: 0 <= d < N() ==> Stale()[d] in {X(), Y(), L()};
      vc := Elects(Stale(), if N() % 2 == 1 then 0 else Half(), X());
    }

    lemma {:induction false} OwnersElect() returns (vc: VersionCount<Version>)
      requires Valid()
      ensures IsElected(Replies(Owners()), vc) && Target(Owners(), vc) == Some(Y())
    {
      AllCounts(Owners(), X());
      AllCounts(Owners(), Y());
      assert forall d :: 0 <= d < N() ==> Owners()[d] in {X(), Y()};
      vc := Elects(Owners(), if N() % 2 == 1 then Half() else 0, Y());
    }

    // ----- the last drive changes hands

    function Fixing(drives: seq<Version>, second: seq<Version>, through: bool, y: Client): Ages
      requires Valid()
    {
      Four(drives, second, through, Mender(0), y)
    }

    lemma {:induction false} FirstPolls()
      requires Valid()
      ensures Reachable(Plan(), true, Polled(View(Stale(), N()))) && Seen(View(Stale(), N())) == Stale()
    {
      StartsPolling();
      Polls(Polled(Blank(N())), X(), Polled(View(Stale(), N())));
    }

    lemma {:induction false} FirstDecides()
      requires Valid()
      ensures Reachable(Plan(), true, Fixing(Stale(), Second(N() - 1), false, Client(Ops(Y(), N() - 1), Writing)))
    {
      FirstPolls();
      var s, y := Polled(View(Stale(), N())), Client(Ops(Y(), N() - 1), Writing);
      var t := Fixing(Stale(), Second(N() - 1), false, y);
      var vc := StaleElects();
      assert Refill(Ops(X(), N()), Stale()) == XOps(0);
      assert t.clients == s.clients[X() := t.clients[X()]];
      Mends(Plan(), true, s, X(), Stale(), vc, t);
    }

    lemma {:induction false} WinnerRepairs()
      requires Valid()
      ensures Reachable(Plan(), true,
        Fixing(Stale()[N() - 1 := W()], Second(N() - 1), true, Client(Ops(Y(), N() - 1), Writing)))
    {
      FirstDecides();
      var u, k, y := Plan(), N() - 1, Client(Ops(Y(), N() - 1), Writing);
      var s, t := Fixing(Stale(), Second(k), false, y), Fixing(Stale()[k := W()], Second(k), true, y);
      assert First().RepairOps(k)[k := Op(L(), Ok)] == First().RepairOps(N());
      assert t.clients == s.clients[W() := t.clients[W()]];
      assert s.firsts[0][k] == L() && u.Base(0) == cfg.base && s.firsts[0 := s.firsts[0]] == t.firsts;
      Casts(u, true, s, W(), k, First().RepairOps(N()), t);
    }

    lemma {:induction false} LastIsTaken()
      requires Valid()
      ensures Reachable(Plan(), true, Fixing(Owners(), Owners(), true, Client(Ops(Y(), N()), Writing)))
    {
      WinnerRepairs();
      var u, k, y := Plan(), N() - 1, Client(Ops(Y(), N()), Writing);
      var s := Fixing(Stale()[k := W()], Second(k), true, Client(Ops(Y(), k), Writing));
      var t := Fixing(Owners(), Owners(), true, y);
      assert Ops(Y(), k)[k := Op(W(), Ok)] == Ops(Y(), N());
      assert s.drives[k := Y()] == Owners() && Second(k)[k := Y()] == Owners();
      assert t.clients == s.clients[Y() := y];
      assert s.firsts[1 := Owners()] == t.firsts && u.Base(1) == W();
      Casts(u, true, s, Y(), k, Ops(Y(), N()), t);
    }

    lemma {:induction false} SecondStartsPolling()
      requires Valid()
      ensures Reachable(Plan(), true, Forked(Blank(N())))
    {
      LastIsTaken();
      var s, t := Fixing(Owners(), Owners(), true, Client(Ops(Y(), N()), Writing)), Forked(Blank(N()));
      var r := Results(Ops(Y(), N()));
      assert r[N() - 1] == Ok && r[if N() % 2 == 1 then 0 else Half()] == Mismatch;
      assert t.clients == s.clients[Y() := t.clients[Y()]];
      Turns(Plan(), true, s, WritesDone(Y()), t.clients[Y()], t);
    }

    // ----- Y is elected, while X is about to repair

    /** The repair of client Y, up to drive k. */
    function YOps(k: nat): seq<Op> {
      seq(N(), d => if Owner(d) == Y() then Op(W(), Ok) else Op(X(), if d < k then Ok else Pending))
    }

    /** Client Y waits with its repair. */
    function Pair(drives: seq<Version>, x: Client): Ages
      requires Valid()
    {
      Four(drives, Owners(), true, x, Client(YOps(0), Repairing(Owners())))
    }

    lemma {:induction false} SecondPolls()
      requires Valid()
      ensures Reachable(Plan(), true, Forked(View(Owners(), N()))) && Seen(View(Owners(), N())) == Owners()
    {
      SecondStartsPolling();
      Polls(Forked(Blank(N())), Y(), Forked(View(Owners(), N())));
    }

    lemma {:induction false} SecondDecides()
      requires Valid()
      ensures Reachable(Plan(), true, Pair(Owners(), Mender(0)))
    {
      SecondPolls();
      var s, t := Forked(View(Owners(), N())), Pair(Owners(), Mender(0));
      var vc := OwnersElect();
      assert Refill(Ops(Y(), N()), Owners()) == YOps(0);
      assert t.clients == s.clients[Y() := t.clients[Y()]];
      Mends(Plan(), true, s, Y(), Owners(), vc, t);
    }

    // ----- X returns OK

    /** The drives while X repairs all but the last one. */
    function OverwrittenAt(d: int, k: nat): Version { if d < k && d < N() - 1 then X() else Owner(d) }

    function Overwritten(k: nat): seq<Version> { seq(N(), d => OverwrittenAt(d, k)) }

    function AllX(): seq<Version> { Repeat(X(), N()) }

    lemma {:induction false} FirstRepairsOne(k: nat)
      requires Valid() && k < N() - 1 && Reachable(Plan(), true, Pair(Overwritten(k), Mender(k)))
      ensures Reachable(Plan(), true, Pair(Overwritten(k + 1), Mender(k + 1)))
    {
      var s, t := Pair(Overwritten(k), Mender(k)), Pair(Overwritten(k + 1), Mender(k + 1));
      if Owner(k) == X() {
        assert XOps(k) == XOps(k + 1) && Overwritten(k) == Overwritten(k + 1);
      } else {
        assert XOps(k)[k := Op(Y(), Ok)] == XOps(k + 1);
        assert Overwritten(k)[k := X()] == Overwritten(k + 1);
        assert s.firsts[1 := Owners()] == t.firsts && Plan().Base(1) == W();
        assert t.clients == s.clients[X() := Mender(k + 1)];
        Casts(Plan(), true, s, X(), k, XOps(k + 1), t);
      }
    }

    lemma {:induction false} FirstRepairs(k: nat)
      requires Valid() && k < N()
      ensures Reachable(Plan(), true, Pair(Overwritten(k), Mender(k)))
      decreases k
    {
      if k == 0 {
        SecondDecides();
        assert Overwritten(0) == Owners();
      } else {
        FirstRepairs(k - 1);
        FirstRepairsOne(k - 1);
      }
    }

    /** All writes of X are through but the one that found the last drive changed. */
    function Almost(): seq<Op>
      requires Valid()
    {
      XOps(N())[N() - 1 := Op(L(), Mismatch)]
    }

    lemma {:induction false} FirstMisses()
      requires Valid()
      ensures Reachable(Plan(), true, Pair(Overwritten(N()), Client(Almost(), Repairing(Stale()))))
    {
      var k := N() - 1;
      FirstRepairs(k);
      var s, t := Pair(Overwritten(k), Mender(k)), Pair(Overwritten(N()), Client(Almost(), Repairing(Stale())));
      assert XOps(k)[k := Op(L(), Mismatch)] == Almost();
      assert Overwritten(k) == Overwritten(N());
      assert s.firsts[1 := Owners()] == t.firsts && Plan().Base(1) == W();
      assert t.clients == s.clients[X() := t.clients[X()]];
      Casts(Plan(), true, s, X(), k, Almost(), t);
    }

    lemma {:induction false} FirstPollsAgain()
      requires Valid()
      ensures Reachable(Plan(), true, Pair(Overwritten(N()), Client(Almost(), Polling(Blank(N())))))
    {
      FirstMisses();
      var s := Pair(Overwritten(N()), Client(Almost(), Repairing(Stale())));
      var t := Pair(Overwritten(N()), Client(Almost(), Polling(Blank(N()))));
      assert Results(Almost())[N() - 1] == Mismatch;
      assert Stale()[if N() % 2 == 1 then 0 else Half()] == X();
      assert t.clients == s.clients[X() := t.clients[X()]];
      Turns(Plan(), true, s, RepairDone(X()), t.clients[X()], t);
    }

    /** X holds all drives but the last one. */
    lemma {:induction false} OverwrittenElects() returns (vc: VersionCount<Version>)
      requires Valid()
      ensures IsElected(Replies(Overwritten(N())), vc) && Target(Overwritten(N()), vc) == Some(X())
    {
      var r, k := Replies(Overwritten(N())), N() - 1;
      CountAll(r[..k], Found(X()));
      CountPush(r, k, Found(X()));
      assert r[..N()] == r && r[k] == Found(Y()) && r[0] == Found(X());
      CountDisjoint(r, Found(X()), Found(Y()));
      vc := Elects(Overwritten(N()), 0, X());
    }

    function Final(result: Result): seq<Op>
      requires Valid()
    {
      XOps(N())[N() - 1 := Op(Y(), result)]
    }

    lemma {:induction false} FirstReadsAgain()
      requires Valid()
      ensures var drives := Overwritten(N());
        && Reachable(Plan(), true, Pair(drives, Client(Almost(), Polling(View(drives, N())))))
        && Seen(View(drives, N())) == drives
    {
      FirstPollsAgain();
      var drives := Overwritten(N());
      var s, t := Client(Almost(), Polling(Blank(N()))), Client(Almost(), Polling(View(drives, N())));
      Polls(Pair(drives, s), X(), Pair(drives, t));
    }

    lemma {:induction false} FirstDecidesAgain()
      requires Valid()
      ensures Reachable(Plan(), true, Pair(Overwritten(N()), Client(Final(Pending), Repairing(Overwritten(N())))))
    {
      FirstReadsAgain();
      var drives := Overwritten(N());
      var s := Pair(drives, Client(Almost(), Polling(View(drives, N()))));
      var t := Pair(drives, Client(Final(Pending), Repairing(drives)));
      var vc := OverwrittenElects();
      assert Refill(Almost(), drives) == Final(Pending);
      assert t.clients == s.clients[X() := t.clients[X()]];
      Mends(Plan(), true, s, X(), drives, vc, t);
    }

    lemma {:induction false} FirstFinishes()
      requires Valid()
      ensures Reachable(Plan(), true, Pair(AllX(), Client(Final(Ok), Repairing(Overwritten(N())))))
    {
      FirstDecidesAgain();
      var drives, k := Overwritten(N()), N() - 1;
      var s := Pair(drives, Client(Final(Pending), Repairing(drives)));
      var t := Pair(AllX(), Client(Final(Ok), Repairing(drives)));
      assert Final(Pending)[k := Op(Y(), Ok)] == Final(Ok);
      assert drives[k := X()] == AllX();
      assert s.firsts[1 := Owners()] == t.firsts && Plan().Base(1) == W();
      assert t.clients == s.clients[X() := t.clients[X()]];
      Casts(Plan(), true, s, X(), k, Final(Ok), t);
    }

    lemma {:induction false} FirstReturns()
      requires Valid()
      ensures Reachable(Plan(), true, Pair(AllX(), Client(Final(Ok), Returned(OK))))
    {
      FirstFinishes();
      var s := Pair(AllX(), Client(Final(Ok), Repairing(Overwritten(N()))));
      var t := Pair(AllX(), Client(Final(Ok), Returned(OK)));
      CountAll(Results(Final(Ok)), Ok);
      assert t.clients == s.clients[X() := t.clients[X()]];
      Turns(Plan(), true, s, RepairDone(X()), t.clients[X()], t);
    }

    // ----- Y returns OK

    /** The drives while Y repairs those that X was first on. */
    function TakenBackAt(d: int, k: nat): Version { if d < k && Owner(d) == X() then Y() else X() }

    function TakenBack(k: nat): seq<Version> { seq(N(), d => TakenBackAt(d, k)) }

    function Returning(k: nat, phase: Phase): Ages
      requires Valid()
    {
      Four(TakenBack(k), Owners(), true, Client(Final(Ok), Returned(OK)), Client(YOps(k), phase))
    }

    lemma {:induction false} SecondRepairsOne(k: nat)
      requires Valid() && k < N() && Reachable(Plan(), true, Returning(k, Repairing(Owners())))
      ensures Reachable(Plan(), true, Returning(k + 1, Repairing(Owners())))
    {
      var s, t := Returning(k, Repairing(Owners())), Returning(k + 1, Repairing(Owners()));
      if Owner(k) == Y() {
        assert YOps(k) == YOps(k + 1) && TakenBack(k) == TakenBack(k + 1);
      } else {
        assert YOps(k)[k := Op(X(), Ok)] == YOps(k + 1);
        assert TakenBack(k)[k := Y()] == TakenBack(k + 1);
        assert s.firsts[1 := Owners()] == t.firsts && Plan().Base(1) == W();
        assert t.clients == s.clients[Y() := t.clients[Y()]];
        Casts(Plan(), true, s, Y(), k, YOps(k + 1), t);
      }
    }

    lemma {:induction false} SecondRepairs(k: nat)
      requires Valid() && k <= N()
      ensures Reachable(Plan(), true, Returning(k, Repairing(Owners())))
      decreases k
    {
      if k == 0 {
        FirstReturns();
        assert TakenBack(0) == AllX();
      } else {
        SecondRepairs(k - 1);
        SecondRepairsOne(k - 1);
      }
    }

    function End(): Ages
      requires Valid()
    {
      Returning(N(), Returned(OK))
    }

    lemma {:induction false} BothReturn()
      requires Valid()
      ensures Reachable(Plan(), true, End())
      ensures TwoOk(Plan(), End(), X(), Y()) && Exposed(Plan(), End(), X()) && Exposed(Plan(), End(), Y())
    {
      SecondRepairs(N());
      CountAll(Results(YOps(N())), Ok);
      var s, t := Returning(N(), Repairing(Owners())), End();
      assert t.clients == s.clients[Y() := t.clients[Y()]];
      Turns(Plan(), true, s, RepairDone(Y()), t.clients[Y()], t);
      assert t.drives[if N() % 2 == 1 then 0 else Half()] == Y() && t.drives[N() - 1] == X();
    }
  }

  // ----- the exact condition

  /** A history with timely polls in which clients start as soon as `quorum` drives hold the version they expect. */
  ghost predicate Timely(cfg: Config, quorum: nat, u: Setup, run: seq<Ages>, steps: seq<Step>) {
    && u.Valid() && u.cfg == cfg && u.quorum == quorum
    && IsHistory(u, run, steps) && PollsEndInTime(u, run, steps)
  }

  /** It ends with two clients of one generation having returned OK. */
  ghost predicate Doubles(
      cfg: Config, quorum: nat, u: Setup, run: seq<Ages>, steps: seq<Step>, a: Version, b: Version) {
    Timely(cfg, quorum, u, run, steps) && TwoOk(u, run[|steps|], a, b)
  }

  /** It ends with an OK of the latest generation for a version that is not on all drives. */
  ghost predicate Breaks(cfg: Config, quorum: nat, u: Setup, run: seq<Ages>, steps: seq<Step>, c: Version) {
    Timely(cfg, quorum, u, run, steps) && Exposed(u, run[|steps|], c)
  }

  /** Starting on a stripe that is all of one version is enough. */
  lemma {:induction false} UniformIsSafe(
      cfg: Config, quorum: nat, u: Setup, run: seq<Ages>, steps: seq<Step>, a: Version, b: Version)
    requires cfg.Accepted() && quorum >= cfg.Size()
    ensures !Doubles(cfg, quorum, u, run, steps, a, b) && !Breaks(cfg, quorum, u, run, steps, a)
  {
    if Timely(cfg, quorum, u, run, steps) {
      InTimeKeeps(u, run, steps, |steps|);
      AgesHaveOneOk(u, run[|steps|], a, b);
      AgesAreNotExposed(u, run[|steps|], a);
    }
  }

  /** Starting earlier is not: the run in which both return OK. */
  lemma {:induction false} EarlyIsUnsafe(cfg: Config, quorum: nat)
    returns (u: Setup, run: seq<Ages>, steps: seq<Step>, a: Version, b: Version)
    requires cfg.Accepted() && cfg.Size() >= 3 && quorum < cfg.Size()
    ensures Doubles(cfg, quorum, u, run, steps, a, b) && Breaks(cfg, quorum, u, run, steps, a)
  {
    var m := Meeting(cfg, quorum);
    m.BothReturn();
    u, a, b := m.Plan(), m.X(), m.Y();
    run, steps :| IsPath(u, true, run, steps, m.End());
  }

  /** Whatever number of drives lets a client start from the version on them: no generation has two clients that return
      OK, in any history with timely polls, exactly if that number is all drives. */
  lemma {:induction false} StartExactly(cfg: Config, quorum: nat)
    requires cfg.Accepted() && cfg.Size() >= 3
    ensures quorum >= cfg.Size() <==> forall u, run, steps, a, b :: !Doubles(cfg, quorum, u, run, steps, a, b)
  {
    if quorum >= cfg.Size() {
      forall u: Setup, run: seq<Ages>, steps, a, b ensures !Doubles(cfg, quorum, u, run, steps, a, b) {
        UniformIsSafe(cfg, quorum, u, run, steps, a, b);
      }
    } else {
      var u, run, steps, a, b := EarlyIsUnsafe(cfg, quorum);
    }
  }

  /** So it is with the OK itself: exactly then it means that all drives hold the version. */
  lemma {:induction false} EverywhereExactly(cfg: Config, quorum: nat)
    requires cfg.Accepted() && cfg.Size() >= 3
    ensures quorum >= cfg.Size() <==> forall u, run, steps, c :: !Breaks(cfg, quorum, u, run, steps, c)
  {
    if quorum >= cfg.Size() {
      forall u: Setup, run: seq<Ages>, steps, c ensures !Breaks(cfg, quorum, u, run, steps, c) {
        UniformIsSafe(cfg, quorum, u, run, steps, c, c);
      }
    } else {
      var u, run, steps, a, b := EarlyIsUnsafe(cfg, quorum);
    }
  }

  /** A GET lets clients start from a version that a data quorum holds: both results then hold exactly if there are no
      parities. */
  lemma {:induction false} QuorumStartExactly(cfg: Config)
    requires cfg.Accepted()
    ensures cfg.numParity == 0 <==> forall u, run, steps, a, b :: !Doubles(cfg, cfg.numData, u, run, steps, a, b)
    ensures cfg.numParity == 0 <==> forall u, run, steps, c :: !Breaks(cfg, cfg.numData, u, run, steps, c)
  {
    if cfg.numParity > 0 {
      StartExactly(cfg, cfg.numData);
      EverywhereExactly(cfg, cfg.numData);
    } else {
      forall u: Setup, run: seq<Ages>, steps, a, b ensures !Doubles(cfg, cfg.numData, u, run, steps, a, b) {
        UniformIsSafe(cfg, cfg.numData, u, run, steps, a, b);
      }
      forall u: Setup, run: seq<Ages>, steps, c ensures !Breaks(cfg, cfg.numData, u, run, steps, c) {
        UniformIsSafe(cfg, cfg.numData, u, run, steps, c, c);
      }
    }
  }
}
