/** Generations of writers: the clients of the first one expect the version the stripe has at first, those of each later
one the version with which the winner of the generation before has replaced it.

A poll is not atomic. If a client goes on reading versions while a later generation writes, it may see a mixture that no
election ever decided, take itself for the winner and overwrite. As long as no late poll elects its own client, each
generation is a run of its own. */
module StripeGenerations {
  import opened Wrappers
  import opened Sequences
  import opened Election
  import opened StripeProtocol

  /** `winners[g]` is the client of generation g that the next generation starts from; `age` tells the generation of a
      client. A client may start once the one before it has returned OK, or as soon as `quorum` drives hold its
      version. */
  datatype Setup = Setup(cfg: Config, winners: seq<Version>, age: Version -> nat, quorum: nat) {
    /** A later client starts on a stripe that is all of one version. */
    ghost predicate Uniform() { quorum >= cfg.Size() }

    ghost predicate Valid() {
      && cfg.Accepted() && age(ABSENT) == 0
      && forall g :: 0 <= g < |winners| ==> age(winners[g]) == g && winners[g] != cfg.base && winners[g] != ABSENT
    }

    /** The version that generation g expects. */
    function Base(g: nat): Version
      requires g <= |winners|
    {
      if g == 0 then cfg.base else winners[g - 1]
    }

    function ConfigOf(g: nat): Config
      requires g <= |winners|
    {
      cfg.(base := Base(g))
    }
  }

  /** The drives, for each generation the first version that replaced its expected one, the latest generation that has
      begun, and all clients. */
  datatype Ages = Ages(drives: seq<Version>, firsts: seq<seq<Version>>, era: nat, clients: map<Version, Client>) {
    /** The state as the steps of generation g see it. */
    function SeenBy(g: nat): State
      requires g < |firsts|
    {
      State(drives, firsts[g], clients)
    }
  }

  ghost predicate Begins(u: Setup, s: Ages) {
    && Init(u.cfg, State(s.drives, s.drives, s.clients)) && s.era == 0
    && |s.firsts| == |u.winners| + 1
    && forall g :: 0 <= g < |s.firsts| ==> s.firsts[g] == Repeat(u.Base(g), u.cfg.Size())
  }

  /** May a client of generation g start? */
  ghost predicate MayStart(u: Setup, s: Ages, g: nat)
    requires g <= |u.winners|
  {
    if g == 0 then true
    else
      var w := u.winners[g - 1];
      (w in s.clients && s.clients[w].phase == Returned(OK)) || Count(s.drives, w) >= u.quorum
  }

  ghost predicate MayStep(u: Setup, s: Ages, step: Step) {
    var g := u.age(step.c);
    && g <= |u.winners| && g < |s.firsts| && Enabled(u.ConfigOf(g), s.SeenBy(g), step)
    && (step.Start? ==> step.c != u.cfg.base && MayStart(u, s, g))
  }

  ghost function After(u: Setup, s: Ages, step: Step): Ages
    requires MayStep(u, s, step)
  {
    var g := u.age(step.c);
    var t := Apply(u.ConfigOf(g), s.SeenBy(g), step);
    Ages(t.drives, s.firsts[g := t.first], if step.Start? && g > s.era then g else s.era, t.clients)
  }

  ghost predicate IsHistory(u: Setup, run: seq<Ages>, steps: seq<Step>) {
    && |run| == |steps| + 1 && Begins(u, run[0])
    && forall k :: 0 <= k < |steps| ==> MayStep(u, run[k], steps[k]) && After(u, run[k], steps[k]) == run[k + 1]
  }

  // ----- one generation at a time

  /** The clients of generation g. */
  function Part(u: Setup, clients: map<Version, Client>, g: nat): map<Version, Client> {
    map c | c in clients && u.age(c) == g :: clients[c]
  }

  /** The generation that writes now. */
  function Present(u: Setup, s: Ages): State
    requires s.era < |s.firsts|
  {
    State(s.drives, s.firsts[s.era], Part(u, s.clients, s.era))
  }

  /** A view of the drives in which versions of later generations are taken for the winner they replaced. */
  function MaskedView(u: Setup, g: nat, view: seq<Option<Version>>): (r: seq<Option<Version>>)
    requires g < |u.winners|
    ensures |r| == |view|
  {
    seq(|view|, d requires 0 <= d < |view| =>
      if view[d].Some? && u.age(view[d].value) > g then Some(u.winners[g]) else view[d])
  }

  function Masked(u: Setup, g: nat, c: Client): Client
    requires g < |u.winners|
  {
    if c.phase.Polling? then c.(phase := Polling(MaskedView(u, g, c.phase.view))) else c
  }

  /** A past generation, as it would stand if no later one had ever written. */
  function Past(u: Setup, s: Ages, g: nat): State
    requires g < |u.winners| && g < |s.firsts|
  {
    State(Repeat(u.winners[g], u.cfg.Size()), s.firsts[g],
          map c | c in s.clients && u.age(c) == g :: Masked(u, g, s.clients[c]))
  }

  ghost predicate PastInv(u: Setup, s: Ages, g: nat)
    requires g < |u.winners| && g < |s.firsts|
  {
    && Inv(u.ConfigOf(g), Past(u, s, g))
    && u.winners[g] in s.clients && IsWinner(u.ConfigOf(g), Past(u, s, g), u.winners[g])
  }

  ghost predicate Shape(u: Setup, s: Ages) {
    && s.era <= |u.winners| && |s.firsts| == |u.winners| + 1
    && (forall c :: c in s.clients ==> u.age(c) <= s.era && c != u.cfg.base)
    && (forall g :: s.era < g < |s.firsts| ==> s.firsts[g] == Repeat(u.Base(g), u.cfg.Size()))
  }

  ghost predicate AgesInv(u: Setup, s: Ages) {
    && Shape(u, s) && Inv(u.ConfigOf(s.era), Present(u, s))
    && forall g :: 0 <= g < s.era ==> PastInv(u, s, g)
  }

  /** A client of a past generation polls, and finds its own version elected. */
  ghost predicate LateElection(u: Setup, s: Ages, step: Step) {
    && step.Decide? && step.c in s.clients && u.age(step.c) < s.era && s.clients[step.c].phase.Polling?
    && Target(Seen(s.clients[step.c].phase.view), step.vc) == Some(step.c)
  }

  // ----- steps of the present generation

  lemma {:induction false} InitIsInv(cfg: Config, s: State)
    requires Init(cfg, s)
    ensures Inv(cfg, s)
  {
  }

  /** A past generation does not look at the drives. */
  lemma {:induction false} PastStays(u: Setup, s: Ages, t: Ages, g: nat)
    requires g < |u.winners| && g < |s.firsts| == |t.firsts| && s.firsts[g] == t.firsts[g]
    requires forall c :: u.age(c) == g ==> (c in s.clients <==> c in t.clients)
    requires forall c :: c in s.clients && u.age(c) == g ==> s.clients[c] == t.clients[c]
    requires u.age(u.winners[g]) == g && PastInv(u, s, g)
    ensures PastInv(u, t, g)
  {
    assert Past(u, s, g).clients == Past(u, t, g).clients;
  }

  /** The present generation takes the step as if it were alone. */
  lemma {:induction false} PresentSteps(u: Setup, s: Ages, step: Step)
    requires u.Valid() && Shape(u, s) && MayStep(u, s, step) && u.age(step.c) == s.era
    ensures After(u, s, step).era == s.era
    ensures var cfg, a := u.ConfigOf(s.era), Present(u, s);
      Enabled(cfg, a, step) && Apply(cfg, a, step) == Present(u, After(u, s, step))
  {
    var t, g, c := After(u, s, step), s.era, step.c;
    assert Enabled(u.ConfigOf(g), Present(u, s), step);
    assert Part(u, t.clients, g) == Part(u, s.clients, g)[c := t.clients[c]];
  }

  lemma {:induction false} PresentKeeps(u: Setup, s: Ages, step: Step)
    requires u.Valid() && AgesInv(u, s) && MayStep(u, s, step) && u.age(step.c) == s.era
    ensures AgesInv(u, After(u, s, step))
  {
    var t, cfg := After(u, s, step), u.ConfigOf(s.era);
    PresentSteps(u, s, step);
    assert Next(cfg, Present(u, s), Present(u, t));
    NextKeeps(cfg, Present(u, s), Present(u, t));
    forall h | 0 <= h < t.era ensures PastInv(u, t, h) { PastStays(u, s, t, h); }
  }

  // ----- a new generation

  /** Before anything later is written, there is nothing to mask. */
  lemma {:induction false} NothingToMask(u: Setup, s: Ages, c: Version)
    requires u.Valid() && AgesInv(u, s) && s.era < |u.winners| && c in s.clients && u.age(c) == s.era
    ensures Masked(u, s.era, s.clients[c]) == s.clients[c]
  {
    var me, a := s.clients[c], Present(u, s);
    assert a.clients[c] == me;
    assert ClientInv(u.ConfigOf(s.era), a, c, me);
    if me.phase.Polling? {
      forall d | 0 <= d < |me.phase.view| && me.phase.view[d].Some? ensures u.age(me.phase.view[d].value) == s.era {
        assert DriveInv(u.ConfigOf(s.era), a, d);
        if me.phase.view[d].value != a.first[d] { WinnerIsClient(u.ConfigOf(s.era), a, me.phase.view[d].value); }
      }
      assert MaskedView(u, s.era, me.phase.view) == me.phase.view;
    }
  }

  lemma {:induction false} WinnerIsClient(cfg: Config, s: State, w: Version)
    requires Inv(cfg, s) && IsWinner(cfg, s, w)
    ensures w in s.clients
  {
    var p :| ElectedAt(Replies(s.first), p, w);
    assert DriveInv(cfg, s, p);
  }

  /** A stripe that is all of one client's version has this client as its winner. */
  lemma {:induction false} UniformHasWinner(cfg: Config, s: State, w: Version)
    requires Inv(cfg, s) && cfg.Size() > 0 && AllHold(s, w) && w != cfg.base && w != ABSENT
    ensures w in s.clients && IsWinner(cfg, s, w)
  {
    assert forall d :: 0 <= d < |s.drives| ==> DriveInv(cfg, s, d);
    assert DriveInv(cfg, s, 0);
    if d :| 0 <= d < |s.first| && s.first[d] != w {
      assert DriveInv(cfg, s, d);
    } else {
      var r := Replies(s.first);
      assert r[0] == Found(w);
      assert ElectedAt(r, 0, w);
    }
  }

  /** A winner that holds the whole stripe does not poll, and all its writes are through. */
  lemma {:induction false} WinnerIsThrough(cfg: Config, s: State, w: Version)
    requires Inv(cfg, s) && AllHold(s, w) && w in s.clients
    ensures !s.clients[w].phase.Polling?
    ensures !s.clients[w].phase.Returned? ==> Results(s.clients[w].ops) == Repeat(Ok, cfg.Size())
  {
    var me := s.clients[w];
    assert ClientInv(cfg, s, w, me);
    if !me.phase.Returned? {
      forall d | 0 <= d < |me.ops| ensures Results(me.ops)[d] == Ok {
        assert DriveInv(cfg, s, d);
        if me.phase.Writing? {
          assert WritingInv(cfg, s, w, me.ops[d], d);
        } else if me.phase.Repairing? {
          assert RepairInv(s, w, me.ops[d], d);
        }
      }
    }
  }

  /** A new generation begins on a stripe that is all of the version it expects. */
  lemma {:induction false} StartIsUniform(u: Setup, s: Ages, g: nat)
    requires u.Valid() && u.Uniform() && AgesInv(u, s) && s.era < g <= |u.winners| && MayStart(u, s, g)
    ensures g == s.era + 1 && s.drives == Repeat(u.winners[s.era], u.cfg.Size())
  {
    var w, cfg, a := u.winners[g - 1], u.ConfigOf(s.era), Present(u, s);
    if w in s.clients && s.clients[w].phase == Returned(OK) {
      assert a.clients[w] == s.clients[w];
      assert ClientInv(cfg, a, w, s.clients[w]);
    } else {
      CountAll(s.drives, w);
      assert s.drives[0] == w && DriveInv(cfg, a, 0);
    }
  }

  lemma {:induction false} NewAgeKeeps(u: Setup, s: Ages, step: Step)
    requires u.Valid() && u.Uniform() && AgesInv(u, s) && MayStep(u, s, step) && u.age(step.c) > s.era
    ensures AgesInv(u, After(u, s, step))
  {
    var t, c, g := After(u, s, step), step.c, u.age(step.c);
    assert step.Start?;
    StartIsUniform(u, s, g);
    UniformHasWinner(u.ConfigOf(s.era), Present(u, s), u.winners[s.era]);
    NewPast(u, s, t);
    NewPresent(u, s, t, c);
    forall h | 0 <= h < s.era ensures PastInv(u, t, h) { PastStays(u, s, t, h); }
  }

  lemma {:induction false} NewPast(u: Setup, s: Ages, t: Ages)
    requires u.Valid() && AgesInv(u, s) && s.era < |u.winners| && s.drives == Repeat(u.winners[s.era], u.cfg.Size())
    requires u.winners[s.era] in s.clients && IsWinner(u.ConfigOf(s.era), Present(u, s), u.winners[s.era])
    requires |t.firsts| == |s.firsts| && t.firsts[s.era] == s.firsts[s.era]
    requires forall c :: u.age(c) == s.era ==> (c in s.clients <==> c in t.clients)
    requires forall c :: c in s.clients && u.age(c) == s.era ==> s.clients[c] == t.clients[c]
    ensures PastInv(u, t, s.era)
  {
    forall c | c in s.clients && u.age(c) == s.era ensures Masked(u, s.era, t.clients[c]) == s.clients[c] {
      NothingToMask(u, s, c);
    }
    assert Past(u, t, s.era).clients == Present(u, s).clients;
    assert Past(u, t, s.era) == Present(u, s);
  }

  lemma {:induction false} NewPresent(u: Setup, s: Ages, t: Ages, c: Version)
    requires u.Valid() && Shape(u, s) && s.era < |u.winners| && s.drives == Repeat(u.winners[s.era], u.cfg.Size())
    requires t.era == s.era + 1 && t.drives == s.drives && t.firsts == s.firsts && u.age(c) == t.era && c !in s.clients
    requires Enabled(u.ConfigOf(t.era), s.SeenBy(t.era), Start(c))
    requires t.clients == Apply(u.ConfigOf(t.era), s.SeenBy(t.era), Start(c)).clients
    ensures Inv(u.ConfigOf(t.era), Present(u, t))
  {
    var cfg, none := u.ConfigOf(t.era), State(s.drives, s.firsts[t.era], map[]);
    InitIsInv(cfg, none);
    StartKeeps(cfg, none, c);
    assert Part(u, t.clients, t.era) == map[c := t.clients[c]];
    assert Apply(cfg, none, Start(c)) == Present(u, t);
  }

  // ----- steps of a past generation

  /** What a drive holds is out of a later generation, or the version its winner has left. */
  lemma {:induction false} DriveIsLater(u: Setup, s: Ages, g: nat, d: nat)
    requires u.Valid() && AgesInv(u, s) && g < s.era && d < u.cfg.Size()
    ensures |s.drives| == u.cfg.Size() && s.drives[d] != u.Base(g)
    ensures s.drives[d] == u.winners[g] || u.age(s.drives[d]) > g
  {
    assert DriveInv(u.ConfigOf(s.era), Present(u, s), d);
    assert s.drives[d] == u.winners[s.era - 1] || s.drives[d] in Part(u, s.clients, s.era);
  }

  /** In a past generation nobody but its winner can repair any more, and the winner has nothing left to write. */
  lemma {:induction false} NobodyRepairs(u: Setup, s: Ages, g: nat, c: Version)
    requires u.Valid() && AgesInv(u, s) && g < s.era && c in s.clients && u.age(c) == g
    ensures Inv(u.ConfigOf(g), Past(u, s, g)) && ClientInv(u.ConfigOf(g), Past(u, s, g), c, Masked(u, g, s.clients[c]))
    ensures c != u.winners[g] ==> !s.clients[c].phase.Repairing? && !IsWinner(u.ConfigOf(g), Past(u, s, g), c)
    ensures c == u.winners[g] ==> !s.clients[c].phase.Polling?
    ensures c == u.winners[g] && !s.clients[c].phase.Returned? ==>
      Results(s.clients[c].ops) == Repeat(Ok, u.cfg.Size())
  {
    var cfg, p, w := u.ConfigOf(g), Past(u, s, g), u.winners[g];
    assert PastInv(u, s, g);
    assert p.clients[c] == Masked(u, g, s.clients[c]) && p.clients[w] == Masked(u, g, s.clients[w]);
    assert ClientInv(cfg, p, c, p.clients[c]);
    WinnerIsThrough(cfg, p, w);
    if IsWinner(cfg, p, c) { WinnerUnique(cfg, p, c, w); }
  }

  /** How a step of a past generation looks if no later one had ever written. */
  ghost predicate Mirrors(u: Setup, s: Ages, step: Step, g: nat, m: Step)
    requires g < |u.winners| && g < |s.firsts| && MayStep(u, s, step)
  {
    var t, p := After(u, s, step), Past(u, s, g);
    && t.drives == s.drives && t.firsts == s.firsts && t.clients == s.clients[step.c := t.clients[step.c]]
    && Enabled(u.ConfigOf(g), p, m)
    && Apply(u.ConfigOf(g), p, m) == p.(clients := p.clients[step.c := Masked(u, g, t.clients[step.c])])
  }

  lemma {:induction false} CasMirrors(u: Setup, s: Ages, step: Step, g: nat)
    requires u.Valid() && AgesInv(u, s) && MayStep(u, s, step) && g == u.age(step.c) < s.era && step.Cas?
    ensures Mirrors(u, s, step, g, step)
  {
    var c, d, p := step.c, step.d, Past(u, s, g);
    assert PastInv(u, s, g);
    NobodyRepairs(u, s, g, c);
    DriveIsLater(u, s, g, d);
    assert p.clients[c] == Masked(u, g, s.clients[c]);
    if s.clients[c].phase.Writing? { assert WritingInv(u.ConfigOf(g), p, c, s.clients[c].ops[d], d); }
    assert u.winners[g] != u.Base(g);
  }

  lemma {:induction false} ReadMirrors(u: Setup, s: Ages, step: Step, g: nat)
    requires u.Valid() && AgesInv(u, s) && MayStep(u, s, step) && g == u.age(step.c) < s.era && step.Read?
    ensures Mirrors(u, s, step, g, step)
  {
    var c, d, p, t := step.c, step.d, Past(u, s, g), After(u, s, step);
    assert PastInv(u, s, g);
    DriveIsLater(u, s, g, d);
    var view := s.clients[c].phase.view;
    assert p.clients[c] == Masked(u, g, s.clients[c]);
    assert MaskedView(u, g, view[d := Some(s.drives[d])]) == MaskedView(u, g, view)[d := Some(u.winners[g])];
    assert t.firsts == s.firsts;
  }

  /** Masking neither hides nor invents a client's own version. */
  lemma {:induction false} MaskKeepsOwn(u: Setup, g: nat, c: Version, view: seq<Option<Version>>)
    requires g < |u.winners| && u.age(c) == g && c != u.winners[g] && Complete(view)
    ensures Complete(MaskedView(u, g, view)) && (c in Seen(view) <==> c in Seen(MaskedView(u, g, view)))
  {
    var m := MaskedView(u, g, view);
    forall d | 0 <= d < |view| ensures Seen(view)[d] == c <==> Seen(m)[d] == c {
      assert view[d].Some?;
    }
    if c in Seen(view) { var d :| 0 <= d < |view| && Seen(view)[d] == c; assert Seen(m)[d] == c; }
    if c in Seen(m) { var d :| 0 <= d < |view| && Seen(m)[d] == c; assert Seen(view)[d] == c; }
  }

  /** A late poll that does not elect its own client elects somebody else under the mask, too. */
  lemma {:induction false} MaskedPoll(u: Setup, s: Ages, c: Version, g: nat) returns (vc: VersionCount<Version>)
    requires u.Valid() && AgesInv(u, s) && g < s.era && c in s.clients && u.age(c) == g
    requires s.clients[c].phase.Polling? && Complete(s.clients[c].phase.view)
    ensures var view := s.clients[c].phase.view;
      var masked := MaskedView(u, g, view);
      && Complete(masked) && (c in Seen(view) <==> c in Seen(masked))
      && IsElected(Replies(Seen(masked)), vc) && Target(Seen(masked), vc) != Some(c)
  {
    var view, p := s.clients[c].phase.view, Past(u, s, g);
    NobodyRepairs(u, s, g, c);
    assert p.clients[c] == Masked(u, g, s.clients[c]);
    MaskKeepsOwn(u, g, c, view);
    ElectionExists(Replies(Seen(MaskedView(u, g, view))));
    vc :| IsElected(Replies(Seen(MaskedView(u, g, view))), vc);
    PollDecides(u.ConfigOf(g), p, c, vc);
  }

  lemma {:induction false} DecideMirrors(u: Setup, s: Ages, step: Step, g: nat) returns (m: Step)
    requires u.Valid() && AgesInv(u, s) && MayStep(u, s, step) && g == u.age(step.c) < s.era && step.Decide?
    requires !LateElection(u, s, step)
    ensures m.c == step.c && Mirrors(u, s, step, g, m)
  {
    var c, t, p := step.c, After(u, s, step), Past(u, s, g);
    var vc := MaskedPoll(u, s, c, g);
    m := Decide(c, vc);
    var view := s.clients[c].phase.view;
    assert p.clients[c] == Masked(u, g, s.clients[c]);
    assert MaskedView(u, g, Blank(|view|)) == Blank(|view|);
    assert t.firsts == s.firsts;
  }

  lemma {:induction false} OtherMirrors(u: Setup, s: Ages, step: Step, g: nat)
    requires u.Valid() && AgesInv(u, s) && MayStep(u, s, step) && g == u.age(step.c) < s.era
    requires step.Start? || step.WritesDone?
    ensures Mirrors(u, s, step, g, step)
  {
    var c, p, t := step.c, Past(u, s, g), After(u, s, step);
    assert PastInv(u, s, g);
    if step.WritesDone? {
      assert p.clients[c] == Masked(u, g, s.clients[c]);
      assert MaskedView(u, g, Blank(|s.clients[c].ops|)) == Blank(|s.clients[c].ops|);
    }
    assert t.firsts == s.firsts;
  }

  lemma {:induction false} StepMirrors(u: Setup, s: Ages, step: Step, g: nat) returns (m: Step)
    requires u.Valid() && AgesInv(u, s) && MayStep(u, s, step) && g == u.age(step.c) < s.era
    requires !LateElection(u, s, step)
    ensures Mirrors(u, s, step, g, m)
  {
    m := step;
    if step.Cas? {
      CasMirrors(u, s, step, g);
    } else if step.Read? {
      ReadMirrors(u, s, step, g);
    } else if step.Decide? {
      m := DecideMirrors(u, s, step, g);
    } else if step.RepairDone? {
      NobodyRepairs(u, s, g, step.c);
    } else {
      OtherMirrors(u, s, step, g);
    }
  }

  lemma {:induction false} PastKeeps(u: Setup, s: Ages, step: Step)
    requires u.Valid() && AgesInv(u, s) && MayStep(u, s, step) && u.age(step.c) < s.era && !LateElection(u, s, step)
    ensures AgesInv(u, After(u, s, step))
  {
    var t, c, g := After(u, s, step), step.c, u.age(step.c);
    var m := StepMirrors(u, s, step, g);
    MirroredIsInv(u, s, step, g, m);
    assert Part(u, t.clients, s.era) == Part(u, s.clients, s.era);
    assert Present(u, t) == Present(u, s);
    forall h | 0 <= h < t.era && h != g ensures PastInv(u, t, h) { PastStays(u, s, t, h); }
  }

  lemma {:induction false} MirroredState(u: Setup, s: Ages, step: Step, g: nat, m: Step)
    requires g < |u.winners| && g < |s.firsts| && MayStep(u, s, step) && g == u.age(step.c) && Mirrors(u, s, step, g, m)
    ensures |After(u, s, step).firsts| == |s.firsts|
    ensures Past(u, After(u, s, step), g) == Apply(u.ConfigOf(g), Past(u, s, g), m)
  {
    var t, p, c := After(u, s, step), Past(u, s, g), step.c;
    assert Past(u, t, g).clients == p.clients[c := Masked(u, g, t.clients[c])];
  }

  lemma {:induction false} MirroredIsInv(u: Setup, s: Ages, step: Step, g: nat, m: Step)
    requires u.Valid() && AgesInv(u, s) && MayStep(u, s, step) && g == u.age(step.c) < s.era
    requires Mirrors(u, s, step, g, m)
    ensures PastInv(u, After(u, s, step), g)
  {
    var cfg, p, q := u.ConfigOf(g), Past(u, s, g), Past(u, After(u, s, step), g);
    assert PastInv(u, s, g);
    MirroredState(u, s, step, g, m);
    assert Next(cfg, p, q);
    NextKeeps(cfg, p, q);
  }

  // ----- runs

  lemma {:induction false} BeginningIsInv(u: Setup, s: Ages)
    requires u.Valid() && Begins(u, s)
    ensures AgesInv(u, s)
  {
    assert s.drives == Repeat(u.cfg.base, u.cfg.Size());
    assert Present(u, s) == State(s.drives, s.drives, map[]);
    InitIsInv(u.cfg, Present(u, s));
    assert u.ConfigOf(0) == u.cfg;
  }

  /** Every step but a late election keeps all generations in order. */
  lemma {:induction false} StepKeeps(u: Setup, s: Ages, step: Step)
    requires u.Valid() && u.Uniform() && AgesInv(u, s) && MayStep(u, s, step) && !LateElection(u, s, step)
    ensures AgesInv(u, After(u, s, step))
  {
    if u.age(step.c) == s.era {
      PresentKeeps(u, s, step);
    } else if u.age(step.c) > s.era {
      NewAgeKeeps(u, s, step);
    } else {
      PastKeeps(u, s, step);
    }
  }

  /** Two clients of one generation have both returned OK. */
  ghost predicate TwoOk(u: Setup, s: Ages, a: Version, b: Version) {
    && a != b && a in s.clients && b in s.clients && u.age(a) == u.age(b)
    && s.clients[a].phase == Returned(OK) && s.clients[b].phase == Returned(OK)
  }

  lemma {:induction false} OkIsUnique(cfg: Config, s: State, a: Version, b: Version)
    requires Inv(cfg, s) && a in s.clients && b in s.clients
    requires s.clients[a].phase == Returned(OK) && s.clients[b].phase == Returned(OK)
    ensures a == b
  {
    assert ClientInv(cfg, s, a, s.clients[a]) && ClientInv(cfg, s, b, s.clients[b]);
    WinnerUnique(cfg, s, a, b);
  }

  lemma {:induction false} AgesHaveOneOk(u: Setup, s: Ages, a: Version, b: Version)
    requires u.Valid() && AgesInv(u, s)
    ensures !TwoOk(u, s, a, b)
  {
    if TwoOk(u, s, a, b) {
      var g := u.age(a);
      if g == s.era {
        OkIsUnique(u.ConfigOf(g), Present(u, s), a, b);
      } else {
        assert PastInv(u, s, g);
        OkIsUnique(u.ConfigOf(g), Past(u, s, g), a, b);
      }
    }
  }

  ghost predicate NoLateElection(u: Setup, run: seq<Ages>, steps: seq<Step>)
    requires |run| == |steps| + 1
  {
    forall k :: 0 <= k < |steps| ==> !LateElection(u, run[k], steps[k])
  }

  lemma {:induction false} HistoryKeeps(u: Setup, run: seq<Ages>, steps: seq<Step>, k: nat)
    requires u.Valid() && u.Uniform() && IsHistory(u, run, steps) && NoLateElection(u, run, steps) && k < |run|
    ensures AgesInv(u, run[k])
    decreases k
  {
    if k == 0 {
      BeginningIsInv(u, run[0]);
    } else {
      HistoryKeeps(u, run, steps, k - 1);
      assert After(u, run[k - 1], steps[k - 1]) == run[k - 1 + 1];
      StepKeeps(u, run[k - 1], steps[k - 1]);
    }
  }

  /** Any number of generations: as long as no late poll elects its own client, each of them has at most one PUT that
      returns OK, in every state of every run. */
  lemma {:induction false} GenerationsStayApart(
      u: Setup, run: seq<Ages>, steps: seq<Step>, k: nat, a: Version, b: Version)
    requires u.Valid() && u.Uniform() && IsHistory(u, run, steps) && NoLateElection(u, run, steps) && k < |run|
    ensures !TwoOk(u, run[k], a, b)
  {
    HistoryKeeps(u, run, steps, k);
    AgesHaveOneOk(u, run[k], a, b);
  }

  // ----- polls that end in time

  /** No client reads a version once a later generation has begun. */
  ghost predicate PollsEndInTime(u: Setup, run: seq<Ages>, steps: seq<Step>)
    requires |run| == |steps| + 1
  {
    forall k :: 0 <= k < |steps| && steps[k].Read? ==> u.age(steps[k].c) >= run[k].era
  }

  /** No client of a past generation has seen a later version. */
  ghost predicate Unmixed(u: Setup, s: Ages)
    requires Shape(u, s)
  {
    forall c :: c in s.clients && u.age(c) < s.era ==> Masked(u, u.age(c), s.clients[c]) == s.clients[c]
  }

  lemma {:induction false} UnmixedStays(u: Setup, s: Ages, step: Step)
    requires u.Valid() && AgesInv(u, s) && Unmixed(u, s) && MayStep(u, s, step)
    requires step.Read? ==> u.age(step.c) >= s.era
    requires AgesInv(u, After(u, s, step))
    ensures Unmixed(u, After(u, s, step))
  {
    var t := After(u, s, step);
    forall c | c in t.clients && u.age(c) < t.era ensures Masked(u, u.age(c), t.clients[c]) == t.clients[c] {
      var g := u.age(c);
      if c == step.c {
        assert MaskedView(u, g, Blank(|t.clients[c].ops|)) == Blank(|t.clients[c].ops|);
      } else if g == s.era {
        NothingToMask(u, s, c);
      }
    }
  }

  /** A client that has seen no later version does not elect itself. */
  lemma {:induction false} UnmixedLoses(u: Setup, s: Ages, step: Step)
    requires u.Valid() && AgesInv(u, s) && Unmixed(u, s) && MayStep(u, s, step)
    ensures !LateElection(u, s, step)
  {
    if step.Decide? && u.age(step.c) < s.era {
      var g, p := u.age(step.c), Past(u, s, u.age(step.c));
      NobodyRepairs(u, s, g, step.c);
      assert p.clients[step.c] == s.clients[step.c];
      PollDecides(u.ConfigOf(g), p, step.c, step.vc);
    }
  }

  lemma {:induction false} InTimeKeeps(u: Setup, run: seq<Ages>, steps: seq<Step>, k: nat)
    requires u.Valid() && u.Uniform() && IsHistory(u, run, steps) && PollsEndInTime(u, run, steps) && k < |run|
    ensures AgesInv(u, run[k]) && Unmixed(u, run[k])
    decreases k
  {
    if k == 0 {
      BeginningIsInv(u, run[0]);
    } else {
      InTimeKeeps(u, run, steps, k - 1);
      var s, step := run[k - 1], steps[k - 1];
      assert After(u, s, step) == run[k - 1 + 1];
      UnmixedLoses(u, s, step);
      StepKeeps(u, s, step);
      UnmixedStays(u, s, step);
    }
  }

  /** If every poll has ended when a later generation begins, all generations stay apart. */
  lemma {:induction false} InTimeIsEnough(u: Setup, run: seq<Ages>, steps: seq<Step>, k: nat, a: Version, b: Version)
    requires u.Valid() && u.Uniform() && IsHistory(u, run, steps) && PollsEndInTime(u, run, steps) && k < |run|
    ensures !TwoOk(u, run[k], a, b)
  {
    InTimeKeeps(u, run, steps, k);
    AgesHaveOneOk(u, run[k], a, b);
  }

  // ----- stripes of two chunks

  /** The client that is first on drive 0 of two, or of one, is the winner. */
  lemma {:induction false} FirstDriveWins(cfg: Config, s: State, c: Version)
    requires Inv(cfg, s) && Settled(cfg, s) && 0 < cfg.Size() <= 2 && s.first[0] == c && c != ABSENT
    ensures IsWinner(cfg, s, c)
  {
    var r := Replies(s.first);
    assert r[0] == Found(c);
    forall i | 0 <= i < |r| && r[i].Found? ensures Count(r, r[i]) <= Count(r, Found(c)) {
      if r[i] != Found(c) {
        CountDisjoint(r, r[i], Found(c));
        CountPositive(r, Found(c));
      }
    }
    assert ElectedAt(r, 0, c);
  }

  /** Of two versions the first is elected unless it is the second. */
  lemma {:induction false} SecondIsNotElected(seen: seq<Version>, c: Version, vc: VersionCount<Version>)
    requires |seen| <= 2 && seen != [] && seen[0] != c && seen[0] != ABSENT && c != ABSENT
    requires IsElected(Replies(seen), vc)
    ensures Target(seen, vc) != Some(c)
  {
    var r := Replies(seen);
    assert r[0] == Found(seen[0]);
    CountDisjoint(r, Found(seen[0]), Found(c));
    CountPositive(r, Found(seen[0]));
    assert Count(r, Found(c)) <= Count(r, r[0]);
    assert forall p :: !ElectedAt(r, p, c);
  }

  /** With at most two chunks no late poll elects its own client. */
  lemma {:induction false} TwoChunksLose(u: Setup, s: Ages, step: Step)
    requires u.Valid() && AgesInv(u, s) && MayStep(u, s, step) && u.cfg.Size() <= 2
    ensures !LateElection(u, s, step)
  {
    if step.Decide? && u.age(step.c) < s.era {
      var c, g := step.c, u.age(step.c);
      var p, view := Past(u, s, g), s.clients[c].phase.view;
      NobodyRepairs(u, s, g, c);
      var m := MaskedView(u, g, view);
      FirstNotAbsent(u.ConfigOf(g), p);
      if p.first[0] == c { FirstDriveWins(u.ConfigOf(g), p, c); }
      assert view[0].Some? && m[0].Some?;
      assert m[0].value != ABSENT && m[0].value != c by {
        if m[0].value != p.first[0] { WinnerNotAbsent(u.ConfigOf(g), p, m[0].value); }
      }
      SecondIsNotElected(Seen(view), c, step.vc);
    }
  }

  lemma {:induction false} WinnerNotAbsent(cfg: Config, s: State, w: Version)
    requires Inv(cfg, s) && IsWinner(cfg, s, w)
    ensures w != ABSENT
  {
    var p :| ElectedAt(Replies(s.first), p, w);
  }

  lemma {:induction false} TwoChunksKeep(u: Setup, run: seq<Ages>, steps: seq<Step>, k: nat)
    requires u.Valid() && u.Uniform() && IsHistory(u, run, steps) && u.cfg.Size() <= 2 && k < |run|
    ensures AgesInv(u, run[k])
    decreases k
  {
    if k == 0 {
      BeginningIsInv(u, run[0]);
    } else {
      TwoChunksKeep(u, run, steps, k - 1);
      assert After(u, run[k - 1], steps[k - 1]) == run[k - 1 + 1];
      TwoChunksLose(u, run[k - 1], steps[k - 1]);
      StepKeeps(u, run[k - 1], steps[k - 1]);
    }
  }
}
