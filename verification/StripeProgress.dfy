/** The protocol gets somewhere: the winner is never blocked, needs a bounded number of steps of its own, and in the end
exactly one client has succeeded. */
module StripeProgress {
  import opened Wrappers
  import opened Sequences
  import opened Election
  import opened StripeProtocol

  /** Own steps the winner still has to take: outstanding writes, one poll, outstanding repairs. */
  ghost function Work(n: nat, me: Client): nat {
    match me.phase
    case Writing => Count(Results(me.ops), Pending) + 2 * n + 3
    case Polling(view) => Count(view, None) + n + 2
    case Repairing(_) => Count(Results(me.ops), Pending) + 1
    case Returned(_) => 0
  }

  /** Whatever the other clients do, every own step brings the winner closer to its return. */
  lemma {:induction false} WinnerProgresses(cfg: Config, s: State, step: Step, w: Version)
    requires Inv(cfg, s) && cfg.Accepted() && IsWinner(cfg, s, w) && w in s.clients && Enabled(cfg, s, step)
    ensures step.c != w ==> Apply(cfg, s, step).clients[w] == s.clients[w]
    ensures step.c == w ==> Work(cfg.Size(), Apply(cfg, s, step).clients[w]) < Work(cfg.Size(), s.clients[w])
  {
    var me := s.clients[w];
    assert ClientInv(cfg, s, w, me);
    if step.c == w {
      match step
      case Cas(_, d) => CasProgresses(cfg, s, w, d);
      case WritesDone(_) => WritesDoneProgresses(cfg, s, w);
      case Read(_, d) => CountUpdate(me.phase.view, d, None, Some(s.drives[d]));
      case Decide(_, vc) => PollDecides(cfg, s, w, vc);
      case RepairDone(_) => RepairReturns(cfg, s, w);
    }
  }

  lemma {:induction false} WritesDoneProgresses(cfg: Config, s: State, w: Version)
    requires Inv(cfg, s) && w in s.clients && Enabled(cfg, s, WritesDone(w))
    ensures Work(cfg.Size(), Apply(cfg, s, WritesDone(w)).clients[w]) < Work(cfg.Size(), s.clients[w])
  {
    var after := Apply(cfg, s, WritesDone(w)).clients[w];
    assert after.phase.Polling? ==> Count(after.phase.view, None) <= |after.phase.view|;
  }

  lemma {:induction false} CasProgresses(cfg: Config, s: State, w: Version, d: nat)
    requires Inv(cfg, s) && w in s.clients && Enabled(cfg, s, Cas(w, d))
    ensures Work(cfg.Size(), Apply(cfg, s, Cas(w, d)).clients[w]) < Work(cfg.Size(), s.clients[w])
  {
    var me, after := s.clients[w], Apply(cfg, s, Cas(w, d)).clients[w];
    CountUpdate(Results(me.ops), d, Pending, after.ops[d].result);
    assert Results(after.ops) == Results(me.ops)[d := after.ops[d].result];
  }

  lemma {:induction false} RepairReturns(cfg: Config, s: State, w: Version)
    requires Inv(cfg, s) && w in s.clients && Enabled(cfg, s, RepairDone(w))
    ensures Work(cfg.Size(), Apply(cfg, s, RepairDone(w)).clients[w]) < Work(cfg.Size(), s.clients[w])
  {
    var me := s.clients[w];
    assert ClientInv(cfg, s, w, me);
    forall d | 0 <= d < |me.ops| ensures Results(me.ops)[d] == Ok {
      assert RepairInv(s, w, me.ops[d], d);
    }
  }

  /** Nobody is ever blocked: until it has returned, a client can take a step on its own. */
  lemma {:induction false} NeverBlocked(cfg: Config, s: State, c: Version)
    requires Inv(cfg, s) && c in s.clients && !s.clients[c].phase.Returned?
    ensures exists step: Step :: step.c == c && Enabled(cfg, s, step)
  {
    var me := s.clients[c];
    assert ClientInv(cfg, s, c, me);
    if d :| 0 <= d < |me.ops| && me.ops[d].result.Pending? {
      assert Enabled(cfg, s, Cas(c, d));
    } else if me.phase.Writing? {
      assert Enabled(cfg, s, WritesDone(c));
    } else if me.phase.Repairing? {
      assert Enabled(cfg, s, RepairDone(c));
    } else if d :| 0 <= d < |me.phase.view| && me.phase.view[d].None? {
      assert Enabled(cfg, s, Read(c, d));
    } else {
      ElectionExists(Replies(Seen(me.phase.view)));
      var vc :| IsElected(Replies(Seen(me.phase.view)), vc);
      assert Enabled(cfg, s, Decide(c, vc));
    }
  }

  // ----- the others, once the winner has returned

  /** Own steps that a client which did not win still has to take: a poll that has seen its version, then one that does
      not. */
  ghost function LoserWork(n: nat, c: Version, me: Client): nat {
    match me.phase
    case Writing => Count(Results(me.ops), Pending) + 2 * n + 3
    case Polling(view) => Count(view, None) + if Some(c) in view then n + 2 else 1
    case Repairing(_) => 0
    case Returned(_) => 0
  }

  /** Once all drives hold the winner's version, every own step brings each other client closer to its return. */
  lemma {:induction false} LoserProgresses(cfg: Config, s: State, step: Step, c: Version, w: Version)
    requires Inv(cfg, s) && cfg.Accepted() && IsWinner(cfg, s, w) && AllHold(s, w) && c in s.clients && c != w
    requires Enabled(cfg, s, step)
    ensures step.c != c ==> Apply(cfg, s, step).clients[c] == s.clients[c]
    ensures step.c == c ==>
      LoserWork(cfg.Size(), c, Apply(cfg, s, step).clients[c]) < LoserWork(cfg.Size(), c, s.clients[c])
  {
    var me := s.clients[c];
    assert ClientInv(cfg, s, c, me);
    if step.c == c {
      if IsWinner(cfg, s, c) { WinnerUnique(cfg, s, c, w); }
      match step
      case Cas(_, d) => CasProgresses(cfg, s, c, d);
      case WritesDone(_) => LoserWritesDone(cfg, s, c);
      case Read(_, d) => LoserReads(cfg, s, c, d);
      case Decide(_, vc) => LoserGivesUp(cfg, s, c, vc);
    }
  }

  lemma {:induction false} LoserWritesDone(cfg: Config, s: State, c: Version)
    requires Inv(cfg, s) && c in s.clients && Enabled(cfg, s, WritesDone(c))
    ensures LoserWork(cfg.Size(), c, Apply(cfg, s, WritesDone(c)).clients[c]) < LoserWork(cfg.Size(), c, s.clients[c])
  {
    assert ClientInv(cfg, s, c, s.clients[c]);
    var after := Apply(cfg, s, WritesDone(c)).clients[c];
    assert after.phase.Polling? ==> Count(after.phase.view, None) <= |after.phase.view|;
  }

  lemma {:induction false} LoserReads(cfg: Config, s: State, c: Version, d: nat)
    requires Inv(cfg, s) && c in s.clients && Enabled(cfg, s, Read(c, d)) && s.drives[d] != c
    ensures LoserWork(cfg.Size(), c, Apply(cfg, s, Read(c, d)).clients[c]) < LoserWork(cfg.Size(), c, s.clients[c])
  {
    var view := s.clients[c].phase.view;
    CountUpdate(view, d, None, Some(s.drives[d]));
    if Some(c) in view[d := Some(s.drives[d])] {
      var e :| 0 <= e < |view| && view[d := Some(s.drives[d])][e] == Some(c);
      assert view[e] == Some(c);
    }
  }

  lemma {:induction false} LoserGivesUp(cfg: Config, s: State, c: Version, vc: VersionCount<Version>)
    requires Inv(cfg, s) && cfg.Accepted() && Enabled(cfg, s, Decide(c, vc)) && !IsWinner(cfg, s, c)
    ensures LoserWork(cfg.Size(), c, Apply(cfg, s, Decide(c, vc)).clients[c]) < LoserWork(cfg.Size(), c, s.clients[c])
  {
    var view := s.clients[c].phase.view;
    assert ClientInv(cfg, s, c, s.clients[c]);
    PollDecides(cfg, s, c, vc);
    if c in Seen(view) {
      var d :| 0 <= d < |view| && Seen(view)[d] == c;
      assert view[d].Some? && view[d] == Some(c);
      assert Count(Blank(|view|), None) <= |view|;
      assert Some(c) !in Blank(|view|);
    }
  }

  /** Once every client has returned, exactly one of them has returned OK. */
  lemma {:induction false} ExactlyOnePutSucceeds(cfg: Config, run: seq<State>, i: nat) returns (w: Version)
    requires cfg.Accepted() && IsRun(cfg, run) && i < |run| && run[i].clients != map[]
    requires forall c :: c in run[i].clients ==> run[i].clients[c].phase.Returned?
    ensures w in run[i].clients && AllHold(run[i], w)
    ensures forall c :: c in run[i].clients ==> (run[i].clients[c].phase == Returned(OK) <==> c == w)
  {
    RunKeeps(cfg, run, i);
    var s := run[i];
    var any :| any in s.clients;
    assert ClientInv(cfg, s, any, s.clients[any]);
    w := WinnerExists(cfg, s);
    assert ClientInv(cfg, s, w, s.clients[w]);
    forall c | c in s.clients ensures s.clients[c].phase == Returned(OK) <==> c == w {
      AtMostOnePutSucceeds(cfg, run, i, c, w);
    }
  }

  /** A stripe that has been written everywhere has a winner, and it is one of the clients. */
  lemma {:induction false} WinnerExists(cfg: Config, s: State) returns (w: Version)
    requires Inv(cfg, s) && Settled(cfg, s) && cfg.Size() > 0
    ensures w in s.clients && IsWinner(cfg, s, w)
  {
    var r := Replies(s.first);
    FirstNotAbsent(cfg, s);
    ElectionExists(r);
    var vc :| IsElected(r, vc);
    assert r[0].Found?;
    w := vc.version.value;
    var p :| ElectedAt(r, p, w);
    assert DriveInv(cfg, s, p) && s.first[p] == w;
  }

  /** `steps` leads from state to state of the run. */
  ghost predicate Leads(cfg: Config, run: seq<State>, steps: seq<Step>) {
    && |run| == |steps| + 1
    && forall k :: 0 <= k < |steps| ==> Enabled(cfg, run[k], steps[k]) && Apply(cfg, run[k], steps[k]) == run[k + 1]
  }

  ghost function StepsOf(steps: seq<Step>, w: Version): nat {
    if steps == [] then 0 else StepsOf(steps[..|steps| - 1], w) + if steps[|steps| - 1].c == w then 1 else 0
  }

  /** However the steps of the others are interleaved, the winner takes at most 3n + 3 steps from the moment the stripe
      is settled; together with NeverBlocked it returns once it is given that many turns. */
  lemma {:induction false} WinnerStepsAreBounded(cfg: Config, run: seq<State>, steps: seq<Step>, w: Version)
    requires cfg.Accepted() && Leads(cfg, run, steps)
    requires Inv(cfg, run[0]) && IsWinner(cfg, run[0], w) && w in run[0].clients
    ensures StepsOf(steps, w) <= 3 * cfg.Size() + 3
  {
    WorkIsBounded(cfg, run[0], w);
    StepsUseWork(cfg, run, steps, w, |steps|);
    assert steps[..|steps|] == steps;
  }

  /** Every step of the winner uses up some of the work that was left at the start. */
  lemma {:induction false} StepsUseWork(cfg: Config, run: seq<State>, steps: seq<Step>, w: Version, k: nat)
    requires cfg.Accepted() && Leads(cfg, run, steps) && k <= |steps|
    requires Inv(cfg, run[0]) && IsWinner(cfg, run[0], w) && w in run[0].clients
    ensures Inv(cfg, run[k]) && IsWinner(cfg, run[k], w) && w in run[k].clients
    ensures StepsOf(steps[..k], w) + Work(cfg.Size(), run[k].clients[w]) <= Work(cfg.Size(), run[0].clients[w])
    decreases k
  {
    if k > 0 {
      StepsUseWork(cfg, run, steps, w, k - 1);
      assert Apply(cfg, run[k - 1], steps[k - 1]) == run[k - 1 + 1];
      WinnerSteps(cfg, run[k - 1], steps[k - 1], run[k], w);
      StepsOfPush(steps, k - 1, w);
    }
  }

  lemma {:induction false} StepsOfPush(steps: seq<Step>, k: nat, w: Version)
    requires k < |steps|
    ensures StepsOf(steps[..k + 1], w) == StepsOf(steps[..k], w) + if steps[k].c == w then 1 else 0
  {
    assert steps[..k + 1][..k] == steps[..k];
  }

  lemma {:induction false} WorkIsBounded(cfg: Config, s: State, w: Version)
    requires Inv(cfg, s) && w in s.clients
    ensures Work(cfg.Size(), s.clients[w]) <= 3 * cfg.Size() + 3
  {
    assert ClientInv(cfg, s, w, s.clients[w]);
  }

  lemma {:induction false} WinnerSteps(cfg: Config, s: State, step: Step, t: State, w: Version)
    requires Inv(cfg, s) && cfg.Accepted() && IsWinner(cfg, s, w) && w in s.clients
    requires Enabled(cfg, s, step) && Apply(cfg, s, step) == t
    ensures Inv(cfg, t) && IsWinner(cfg, t, w) && w in t.clients
    ensures Work(cfg.Size(), t.clients[w]) + (if step.c == w then 1 else 0) <= Work(cfg.Size(), s.clients[w])
  {
    assert Next(cfg, s, t);
    NextKeeps(cfg, s, t);
    WinnerProgresses(cfg, s, step, w);
    WinnerStays(cfg, s, step, w);
  }

  lemma {:induction false} WinnerStays(cfg: Config, s: State, step: Step, w: Version)
    requires IsWinner(cfg, s, w) && w in s.clients && Enabled(cfg, s, step)
    ensures IsWinner(cfg, Apply(cfg, s, step), w) && w in Apply(cfg, s, step).clients
  {
    assert Apply(cfg, s, step).first == s.first;
  }

  /** Once the winner has returned, every other client takes at most 3n + 3 more steps, however they are interleaved;
      together with NeverBlocked, all clients return if they are given that many turns. */
  lemma {:induction false} LoserStepsAreBounded(cfg: Config, run: seq<State>, steps: seq<Step>, c: Version, w: Version)
    requires cfg.Accepted() && Leads(cfg, run, steps) && c != w && c in run[0].clients
    requires Inv(cfg, run[0]) && w in run[0].clients && run[0].clients[w].phase == Returned(OK)
    ensures StepsOf(steps, c) <= 3 * cfg.Size() + 3
  {
    assert ClientInv(cfg, run[0], c, run[0].clients[c]);
    LoserStepsUseWork(cfg, run, steps, c, w, |steps|);
    assert steps[..|steps|] == steps;
    assert LoserWork(cfg.Size(), c, run[0].clients[c]) <= 3 * cfg.Size() + 3;
  }

  lemma {:induction false} LoserStepsUseWork(
      cfg: Config, run: seq<State>, steps: seq<Step>, c: Version, w: Version, k: nat)
    requires cfg.Accepted() && Leads(cfg, run, steps) && k <= |steps| && c != w && c in run[0].clients
    requires Inv(cfg, run[0]) && w in run[0].clients && run[0].clients[w].phase == Returned(OK)
    ensures Inv(cfg, run[k]) && c in run[k].clients
    ensures w in run[k].clients && run[k].clients[w].phase == Returned(OK)
    ensures StepsOf(steps[..k], c) + LoserWork(cfg.Size(), c, run[k].clients[c]) <=
      LoserWork(cfg.Size(), c, run[0].clients[c])
    decreases k
  {
    if k > 0 {
      LoserStepsUseWork(cfg, run, steps, c, w, k - 1);
      assert Apply(cfg, run[k - 1], steps[k - 1]) == run[k - 1 + 1];
      LoserSteps(cfg, run[k - 1], steps[k - 1], run[k], c, w);
      StepsOfPush(steps, k - 1, c);
    }
  }

  lemma {:induction false} LoserSteps(cfg: Config, s: State, step: Step, t: State, c: Version, w: Version)
    requires Inv(cfg, s) && cfg.Accepted() && c in s.clients && c != w
    requires w in s.clients && s.clients[w].phase == Returned(OK)
    requires Enabled(cfg, s, step) && Apply(cfg, s, step) == t
    ensures Inv(cfg, t) && c in t.clients && w in t.clients && t.clients[w].phase == Returned(OK)
    ensures LoserWork(cfg.Size(), c, t.clients[c]) + (if step.c == c then 1 else 0) <=
      LoserWork(cfg.Size(), c, s.clients[c])
  {
    assert Next(cfg, s, t) && ClientInv(cfg, s, w, s.clients[w]);
    NextKeeps(cfg, s, t);
    ReturnedStays(cfg, s, t, w);
    LoserProgresses(cfg, s, step, c, w);
  }
}
