/** Building histories of several generations step by step. */
module StripeHistories {
  import opened Wrappers
  import opened Sequences
  import opened Election
  import opened StripeProtocol
  import opened StripeGenerations

  /** A history up to a state; if `timely` is set, all its polls end before a later generation begins. */
  ghost predicate IsPath(u: Setup, timely: bool, run: seq<Ages>, steps: seq<Step>, t: Ages) {
    IsHistory(u, run, steps) && run[|steps|] == t && (timely ==> PollsEndInTime(u, run, steps))
  }

  ghost predicate Reachable(u: Setup, timely: bool, t: Ages) {
    exists run, steps :: IsPath(u, timely, run, steps, t)
  }

  lemma {:induction false} Takes(u: Setup, timely: bool, s: Ages, step: Step, t: Ages)
    requires Reachable(u, timely, s) && MayStep(u, s, step) && After(u, s, step) == t
    requires timely && step.Read? ==> u.age(step.c) >= s.era
    ensures Reachable(u, timely, t)
  {
    var run, steps :| IsPath(u, timely, run, steps, s);
    var longer, more := run + [t], steps + [step];
    forall k | 0 <= k < |more| ensures MayStep(u, longer[k], more[k]) && After(u, longer[k], more[k]) == longer[k + 1] {
      if k < |steps| { assert longer[k] == run[k] && longer[k + 1] == run[k + 1] && more[k] == steps[k]; }
    }
    assert IsPath(u, timely, longer, more, t);
  }

  /** The first versions of the writer's generation behind a conditional write. */
  ghost function FirstAfter(u: Setup, s: Ages, c: Version, d: nat): seq<Version>
    requires MayStep(u, s, Cas(c, d))
  {
    var first := s.firsts[u.age(c)];
    if s.drives[d] == s.clients[c].ops[d].expected && first[d] == u.Base(u.age(c)) then first[d := c] else first
  }

  /** A conditional write, by its effect. */
  lemma {:induction false} Casts(u: Setup, timely: bool, s: Ages, c: Version, d: nat, ops: seq<Op>, t: Ages)
    requires Reachable(u, timely, s) && MayStep(u, s, Cas(c, d))
    requires var op := s.clients[c].ops[d];
      && ops == s.clients[c].ops[d := op.(result := if s.drives[d] == op.expected then Ok else Mismatch)]
      && t.drives == (if s.drives[d] == op.expected then s.drives[d := c] else s.drives)
      && t.firsts == s.firsts[u.age(c) := FirstAfter(u, s, c, d)]
    requires t.era == s.era && t.clients == s.clients[c := s.clients[c].(ops := ops)]
    ensures Reachable(u, timely, t)
  {
    Takes(u, timely, s, Cas(c, d), t);
  }

  /** Any other step changes its client, and may begin a generation. */
  lemma {:induction false} Turns(u: Setup, timely: bool, s: Ages, step: Step, client: Client, t: Ages)
    requires Reachable(u, timely, s) && MayStep(u, s, step) && !step.Cas?
    requires timely && step.Read? ==> u.age(step.c) >= s.era
    requires After(u, s, step).clients[step.c] == client
    requires t.drives == s.drives && t.firsts == s.firsts && t.clients == s.clients[step.c := client]
    requires t.era == if step.Start? && u.age(step.c) > s.era then u.age(step.c) else s.era
    ensures Reachable(u, timely, t)
  {
    Takes(u, timely, s, step, t);
  }

  function Seeing(s: Ages, c: Version, view: seq<Option<Version>>): Ages
    requires c in s.clients
  {
    s.(clients := s.clients[c := s.clients[c].(phase := Polling(view))])
  }

  /** A client reads one drive after the other, from drive i up to drive k. */
  lemma {:induction false} Reads(
      u: Setup, timely: bool, s: Ages, c: Version, seen: seq<Version>, i: nat, k: nat)
    requires i <= k <= |seen| == |s.drives| && c in s.clients && Reachable(u, timely, Seeing(s, c, View(seen, i)))
    requires u.age(c) <= |u.winners| && u.age(c) < |s.firsts| && (timely ==> u.age(c) >= s.era)
    requires forall d :: i <= d < k ==> seen[d] == s.drives[d]
    ensures Reachable(u, timely, Seeing(s, c, View(seen, k)))
    decreases k
  {
    if i < k {
      Reads(u, timely, s, c, seen, i, k - 1);
      var before, t := Seeing(s, c, View(seen, k - 1)), Seeing(s, c, View(seen, k));
      assert View(seen, k - 1)[k - 1 := Some(seen[k - 1])] == View(seen, k);
      assert t.clients == before.clients[c := t.clients[c]];
      Turns(u, timely, before, Read(c, k - 1), t.clients[c], t);
    }
  }

  /** A poll that elects its own client. */
  lemma {:induction false} Mends(
      u: Setup, timely: bool, s: Ages, c: Version, seen: seq<Version>, vc: VersionCount<Version>, t: Ages)
    requires Reachable(u, timely, s) && c in s.clients && u.age(c) <= |u.winners| && u.age(c) < |s.firsts|
    requires s.clients[c].phase == Polling(View(seen, |seen|)) && |s.clients[c].ops| == |seen|
    requires IsElected(Replies(seen), vc) && Target(seen, vc) == Some(c)
    requires t.drives == s.drives && t.firsts == s.firsts && t.era == s.era
    requires t.clients == s.clients[c := Client(Refill(s.clients[c].ops, seen), Repairing(seen))]
    ensures Reachable(u, timely, t)
  {
    assert Seen(View(seen, |seen|)) == seen;
    Turns(u, timely, s, Decide(c, vc), t.clients[c], t);
  }

  /** The election over a stripe without gaps, by the frequencies of its versions. */
  lemma {:induction false} Elects(seen: seq<Version>, p: nat, v: Version) returns (vc: VersionCount<Version>)
    requires p < |seen| && seen[p] == v && forall i :: 0 <= i < |seen| ==> seen[i] != ABSENT
    requires forall i :: 0 <= i < |seen| ==> Count(Replies(seen), Found(seen[i])) <= Count(Replies(seen), Found(v))
    requires forall i :: 0 <= i < p ==> Count(Replies(seen), Found(seen[i])) < Count(Replies(seen), Found(v))
    ensures IsElected(Replies(seen), vc) && Target(seen, vc) == Some(v)
  {
    var r := Replies(seen);
    assert forall i :: 0 <= i < |seen| ==> r[i] == Found(seen[i]);
    assert ElectedAt(r, p, v);
    vc := VersionCount(Some(v), Count(r, Found(v)));
    CountPositive(r, NotFound);
  }

  // ----- runs of a single generation

  /** A state of the first generation. */
  function Lifted(u: Setup, s: State): Ages {
    Ages(s.drives, [s.first] + seq(|u.winners|, g requires 0 <= g < |u.winners| => Repeat(u.winners[g], u.cfg.Size())),
         0, s.clients)
  }

  /** Every run of the protocol is a history whose later generations have not begun. */
  lemma {:induction false} RunIsHistory(u: Setup, timely: bool, run: seq<State>)
    requires u.Valid() && IsRun(u.cfg, run)
    requires forall c :: c in run[|run| - 1].clients ==> u.age(c) == 0
    ensures Reachable(u, timely, Lifted(u, run[|run| - 1]))
    decreases |run|
  {
    var k := |run| - 1;
    var t := Lifted(u, run[k]);
    if k == 0 {
      assert IsPath(u, timely, [t], [], t);
    } else {
      var before := run[..k];
      assert before[k - 1] == run[k - 1] && run[k] == run[k - 1 + 1];
      var step :| Enabled(u.cfg, run[k - 1], step) && Apply(u.cfg, run[k - 1], step) == run[k];
      RunIsHistory(u, timely, before);
      LiftedStep(u, timely, run[k - 1], step);
    }
  }

  lemma {:induction false} LiftedStep(u: Setup, timely: bool, s: State, step: Step)
    requires u.Valid() && Enabled(u.cfg, s, step) && Reachable(u, timely, Lifted(u, s)) && u.age(step.c) == 0
    ensures Reachable(u, timely, Lifted(u, Apply(u.cfg, s, step)))
  {
    var l, t := Lifted(u, s), Apply(u.cfg, s, step);
    assert u.ConfigOf(0) == u.cfg && l.SeenBy(0) == s;
    assert l.firsts[0 := t.first] == Lifted(u, t).firsts;
    Takes(u, timely, l, step, Lifted(u, t));
  }
}
