/** The protocol and the stripes joined: what a GET returns during a run of competing PUTs, once one of them is done. */
module StripeEndToEnd {
  import P = StripeProtocol
  import opened Redundancy
  import opened Striping
  import opened StripeAccess
  import opened ClusterAccess

  /** What the clients of a run write: each has a version that carries the size of its value. */
  datatype Payloads<!T> = Payloads(version: P.Version -> Version, value: P.Version -> seq<T>) {
    ghost predicate Fits(c: P.Version, limit: nat) {
      version(c).size == |value(c)| <= limit
    }
  }

  /** What the drive of chunk i holds if the protocol has version c there: that client's chunk and its checksum. */
  ghost function SlotAt<T(!new)>(
      code: Code<T>, cap: nat, chk: Block<T> -> nat, p: Payloads<T>, s: P.State, i: nat): Slot<T>
    requires code.Valid() && cap > 0 && i < |s.drives| && i < code.Size()
  {
    var c := s.drives[i];
    if c == P.ABSENT then Vacant
    else
      var block := StripeOf(code, cap, p.value(c))[i];
      Holds(p.version(c), block, chk(block))
  }

  /** The drives of the cluster in a state of the run. Drives that have no chunk of the stripe hold anything. */
  ghost predicate IsDisk<T(!new)>(
      code: Code<T>, cap: nat, chk: Block<T> -> nat, p: Payloads<T>, l: Layout, s: P.State, disk: seq<Slot<T>>)
    requires code.Valid() && cap > 0 && l.Valid()
  {
    && |disk| == l.n && |s.drives| == code.Size()
    && forall i :: 0 <= i < code.Size() ==> disk[l.Homes(code.Size())[i]] == SlotAt(code, cap, chk, p, s, i)
  }

  /** What a GET reads that looks at the drive it asks for chunk i in state times[i] of the run. */
  ghost function Collected<T(!new)>(
      n: nat, disks: seq<seq<Slot<T>>>, times: seq<nat>, asked: seq<nat>): (slots: seq<Slot<T>>)
    requires |times| == |asked| && forall k :: 0 <= k < |disks| ==> |disks[k]| == n
    requires forall i :: 0 <= i < |times| ==> times[i] < |disks| && asked[i] < n
    ensures |slots| == |times|
  {
    seq(|times|, i requires 0 <= i < |times| => disks[times[i]][asked[i]])
  }

  /** Once a PUT has returned OK, every drive holds its version in every later state of the run. */
  lemma {:induction false} OkIsLasting(cfg: P.Config, run: seq<P.State>, i: nat, j: nat, c: P.Version)
    requires cfg.Accepted() && P.IsRun(cfg, run) && i <= j < |run|
    requires c in run[i].clients && run[i].clients[c].phase == P.Returned(P.OK)
    ensures |run[j].drives| == cfg.Size() && c != P.ABSENT
    ensures forall d :: 0 <= d < |run[j].drives| ==> run[j].drives[d] == c
  {
    P.ReturnIsFinal(cfg, run, i, j, c);
    P.AtMostOnePutSucceeds(cfg, run, j, c, c);
    P.RunKeeps(cfg, run, j);
    assert P.ClientInv(cfg, run[j], c, run[j].clients[c]);
  }

  /** A PUT of `c` has returned OK in state i of the run. */
  ghost predicate HasReturned(cfg: P.Config, run: seq<P.State>, i: nat, c: P.Version) {
    && cfg.Accepted() && P.IsRun(cfg, run) && i < |run|
    && c in run[i].clients && run[i].clients[c].phase == P.Returned(P.OK)
  }

  /** The drives of the cluster throughout a run. */
  ghost predicate AreDisks<T(!new)>(
      code: Code<T>, cap: nat, chk: Block<T> -> nat, p: Payloads<T>, l: Layout, run: seq<P.State>,
      disks: seq<seq<Slot<T>>>)
    requires code.Valid() && cap > 0 && l.Valid()
  {
    && |disks| == |run| && (forall k :: 0 <= k < |disks| ==> |disks[k]| == l.n)
    && forall k :: 0 <= k < |run| ==> IsDisk(code, cap, chk, p, l, run[k], disks[k])
  }

  /** A run in which the PUT of client c has returned OK in state i, and a GET that looks at the drive it asks for chunk
      k in state times[k], not before i, and gets an answer from the drives in `reach`. */
  datatype Reading<!T(!new)> = Reading(
    cfg: P.Config, run: seq<P.State>, i: nat, c: P.Version, code: Code<T>, cap: nat, chk: Block<T> -> nat,
    p: Payloads<T>, l: Layout, disks: seq<seq<Slot<T>>>, times: seq<nat>, reach: seq<bool>) {

    ghost predicate Valid() {
      && HasReturned(cfg, run, i, c) && code.Valid() && code.nData == cfg.numData && code.nParity == cfg.numParity
      && cap > 0 && p.Fits(c, code.nData * cap) && l.Valid() && code.Size() <= l.n
      && AreDisks(code, cap, chk, p, l, run, disks)
      && |times| == code.Size() && (forall d :: 0 <= d < |times| ==> i <= times[d] < |run|)
      && |reach| == l.n && |Where(reach, false)| <= code.nParity
    }

    /** What the GET returns if it asks drive asked[k] for chunk k. */
    ghost function From(asked: seq<nat>): GetResult<T>
      requires Valid() && |asked| == code.Size() && forall k :: 0 <= k < |asked| ==> asked[k] < l.n
    {
      TwoPhase(code, chk, Ask(Collected(l.n, disks, times, asked), Pick(reach, asked)))
    }

    lemma {:induction false} IsWritten()
      requires Valid()
      ensures FullyWritten(code, cap, chk, p.version(c), p.value(c), Collected(l.n, disks, times, l.Homes(code.Size())))
    {
      var homes := l.Homes(code.Size());
      forall d | 0 <= d < code.Size()
        ensures var block := StripeOf(code, cap, p.value(c))[d];
          disks[times[d]][homes[d]] == Holds(p.version(c), block, chk(block))
      {
        OkIsLasting(cfg, run, i, times[d], c);
        assert IsDisk(code, cap, chk, p, l, run[times[d]], disks[times[d]]);
      }
    }

    lemma {:induction false} FromHomes(asked: seq<nat>)
      requires Valid() && asked == l.Homes(code.Size())
      ensures From(asked) == GetOk(p.version(c), p.value(c))
    {
      IsWritten();
      SlotsTolerate(code, cap, chk, p.version(c), p.value(c), l, Collected(l.n, disks, times, asked), reach);
    }
  }

  /** In every run of competing PUTs, once one of them has returned OK, a GET that starts later returns exactly its
      version and value, whatever other clients do meanwhile, in whatever states of the run the drives are read, and
      whichever numParity drives do not answer, if the drives it asks are the drives written. */
  lemma {:induction false} GetAfterOkPut<T(!new)>(r: Reading<T>)
    requires r.Valid() && r.l.Straight(r.code.nData, r.code.nParity)
    ensures r.From(r.l.Asked(r.code.nData, r.code.nParity)) == GetOk(r.p.version(r.c), r.p.value(r.c))
  {
    r.l.StraightIsHome(r.code.nData, r.code.nParity);
    r.FromHomes(r.l.Asked(r.code.nData, r.code.nParity));
  }
}
