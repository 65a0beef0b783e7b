/** Callback accounting: results arrive from other threads, at any time, more than once or too late, while a vector of
operations is sent out, waited for and timed out.

What the callbacks look like is a function of the history of answers alone. */
module Callbacks {
  import opened Wrappers
  import opened Sequences

  datatype Status =
    | OK
    | REMOTE_NOT_FOUND
    | REMOTE_VERSION_MISMATCH
    | CLIENT_IO_ERROR
    | CLIENT_INTERNAL_ERROR
    | OTHER(code: int)

  type Payload = nat

  /** What a callback is called with: a record or version, or an error. */
  datatype Result = Success(payload: Payload) | Failure(error: Status) {
    function Code(): Status { if Success? then OK else error }
  }

  datatype Answer = Answer(id: nat, result: Result)

  datatype Callback = Callback(done: bool, status: Status, payload: Option<Payload>)

  // ----- callbacks from a history of answers

  /** The first answer to a callback. */
  function First(log: seq<Answer>, id: nat): Option<Result> {
    if log == [] then None
    else
      var f := First(log[..|log| - 1], id);
      if f.None? && log[|log| - 1].id == id then Some(log[|log| - 1].result) else f
  }

  predicate Answered(log: seq<Answer>, id: nat) { First(log, id).Some? }

  /** The last record or version handed to a callback. */
  function LastPayload(log: seq<Answer>, id: nat): Option<Payload> {
    if log == [] then None
    else
      var a := log[|log| - 1];
      if a.id == id && a.result.Success? then Some(a.result.payload) else LastPayload(log[..|log| - 1], id)
  }

  /** A callback keeps its first status, but the last payload. */
  function Of(log: seq<Answer>, id: nat): Callback {
    var f := First(log, id);
    Callback(f.Some?, if f.Some? then f.value.Code() else CLIENT_INTERNAL_ERROR, LastPayload(log, id))
  }

  /** How many of the first n callbacks have no answer yet. */
  function Waiting(log: seq<Answer>, n: nat): nat {
    if n == 0 then 0 else Waiting(log, n - 1) + if !Answered(log, n - 1) then 1 else 0
  }

  ghost predicate Known(log: seq<Answer>, n: nat) {
    forall i :: 0 <= i < |log| ==> log[i].id < n
  }

  lemma {:induction false} FirstAfter(log: seq<Answer>, a: Answer, id: nat)
    ensures First(log + [a], id) == if First(log, id).None? && a.id == id then Some(a.result) else First(log, id)
    ensures LastPayload(log + [a], id) ==
      if a.id == id && a.result.Success? then Some(a.result.payload) else LastPayload(log, id)
  {
    assert (log + [a])[..|log|] == log;
  }

  /** The first answer is an answer to the callback, and there is none before it. */
  lemma {:induction false} FirstIs(log: seq<Answer>, id: nat, r: Result)
    ensures First(log, id) == Some(r) <==>
      exists k :: 0 <= k < |log| && log[k] == Answer(id, r) && forall j :: 0 <= j < k ==> log[j].id != id
    ensures First(log, id).None? <==> forall j :: 0 <= j < |log| ==> log[j].id != id
    decreases |log|
  {
    if log != [] {
      var init, k := log[..|log| - 1], |log| - 1;
      FirstIs(init, id, r);
      if First(init, id).None? && log[k] == Answer(id, r) {
        assert forall j :: 0 <= j < k ==> log[j].id == init[j].id;
      } else if First(init, id) == Some(r) {
        var m :| 0 <= m < |init| && init[m] == Answer(id, r) && forall j :: 0 <= j < m ==> init[j].id != id;
        assert log[m] == Answer(id, r) && forall j :: 0 <= j < m ==> log[j].id == init[j].id;
      }
    }
  }

  /** Whatever comes later, the first answer stays. */
  lemma {:induction false} FirstStays(log: seq<Answer>, more: seq<Answer>, id: nat)
    ensures First(log, id).Some? ==> First(log + more, id) == First(log, id)
    ensures First(log, id).None? ==> First(log + more, id) == First(more, id)
    decreases |more|
  {
    if more == [] {
      assert log + more == log;
    } else {
      var init, a := more[..|more| - 1], more[|more| - 1];
      FirstStays(log, init, id);
      assert log + more == (log + init) + [a];
      FirstAfter(log + init, a, id);
    }
  }

  /** A late or repeated success replaces the payload although the status stays: the payload is kept exactly if the
      answers that follow bring none or, as the last one, the same. */
  lemma {:induction false} PayloadStays(log: seq<Answer>, more: seq<Answer>, id: nat)
    ensures LastPayload(log + more, id) == LastPayload(log, id)
      <==> LastPayload(more, id).None? || LastPayload(more, id) == LastPayload(log, id)
    ensures LastPayload(log + more, id) ==
      if LastPayload(more, id).None? then LastPayload(log, id) else LastPayload(more, id)
    decreases |more|
  {
    if more == [] {
      assert log + more == log;
    } else {
      var init, a := more[..|more| - 1], more[|more| - 1];
      PayloadStays(log, init, id);
      assert log + more == (log + init) + [a];
      FirstAfter(log + init, a, id);
    }
  }

  lemma {:induction false} TimedOutWithPayload()
    ensures Of([Answer(0, Failure(CLIENT_IO_ERROR)), Answer(0, Success(7))], 0) ==
      Callback(true, CLIENT_IO_ERROR, Some(7))
    ensures Of([Answer(0, Success(1)), Answer(0, Success(7))], 0) == Callback(true, OK, Some(7))
  {
    FirstAfter([], Answer(0, Failure(CLIENT_IO_ERROR)), 0);
    FirstAfter([], Answer(0, Success(1)), 0);
    FirstAfter([Answer(0, Failure(CLIENT_IO_ERROR))], Answer(0, Success(7)), 0);
    FirstAfter([Answer(0, Success(1))], Answer(0, Success(7)), 0);
    assert [Answer(0, Failure(CLIENT_IO_ERROR))] + [Answer(0, Success(7))] ==
           [Answer(0, Failure(CLIENT_IO_ERROR)), Answer(0, Success(7))];
    assert [Answer(0, Success(1))] + [Answer(0, Success(7))] == [Answer(0, Success(1)), Answer(0, Success(7))];
    assert [] + [Answer(0, Success(1))] == [Answer(0, Success(1))];
    assert [] + [Answer(0, Failure(CLIENT_IO_ERROR))] == [Answer(0, Failure(CLIENT_IO_ERROR))];
  }

  lemma {:induction false} WaitingAfter(log: seq<Answer>, a: Answer, n: nat)
    ensures Waiting(log + [a], n) == Waiting(log, n) - if a.id < n && First(log, a.id).None? then 1 else 0
    decreases n
  {
    if n > 0 {
      WaitingAfter(log, a, n - 1);
      FirstAfter(log, a, n - 1);
    }
  }

  /** The counter is zero exactly if every callback is finished. */
  lemma {:induction false} WaitingZero(log: seq<Answer>, n: nat)
    ensures Waiting(log, n) == 0 <==> forall id: nat :: id < n ==> Answered(log, id)
    decreases n
  {
    if n > 0 {
      WaitingZero(log, n - 1);
      if Waiting(log, n) == 0 {
        forall id: nat | id < n ensures Answered(log, id) {
          if id == n - 1 { assert Answered(log, n - 1); }
        }
      } else if Waiting(log, n - 1) == 0 {
        assert !Answered(log, n - 1);
      } else {
        var id: nat :| id < n - 1 && !Answered(log, id);
        assert id < n;
      }
    }
  }

  lemma {:induction false} UnknownIsWaiting(log: seq<Answer>, n: nat, id: nat)
    requires Known(log, n) && id >= n
    ensures Of(log, id) == Callback(false, CLIENT_INTERNAL_ERROR, None)
    decreases |log|
  {
    if log != [] { UnknownIsWaiting(log[..|log| - 1], n, id); }
  }

  // ----- the operation vector

  /** What the network does: the answers that arrive at each step of the call, and the operations whose connection is
      available and whose request can be put on the wire. */
  datatype World = World(arrivals: nat -> seq<Answer>, reachable: set<nat>, running: set<nat>)

  ghost predicate Mirrors(callbacks: seq<Callback>, log: seq<Answer>) {
    Known(log, |callbacks|) && forall id: nat :: id < |callbacks| ==> callbacks[id] == Of(log, id)
  }

  ghost predicate Slots(slots: seq<nat>, n: nat) {
    Distinct(slots) && forall i :: 0 <= i < |slots| ==> slots[i] < n
  }

  /** Callbacks that are in no slot any more are finished. */
  ghost predicate OthersDone(slots: seq<nat>, log: seq<Answer>, n: nat) {
    forall id: nat :: id < n && id !in slots ==> Answered(log, id)
  }

  /** The first k slots are finished. */
  ghost predicate DoneUpTo(slots: seq<nat>, log: seq<Answer>, k: nat)
    requires k <= |slots|
  {
    forall i :: 0 <= i < k ==> Answered(log, slots[i])
  }

  lemma {:induction false} MirrorsAfter(callbacks: seq<Callback>, log: seq<Answer>, a: Answer)
    requires Mirrors(callbacks, log) && a.id < |callbacks|
    ensures Mirrors(callbacks[a.id := Of(log + [a], a.id)], log + [a])
  {
    forall id: nat | id < |callbacks| ensures id != a.id ==>
      Of(log + [a], id) == Of(log, id) { FirstAfter(log, a, id); }
  }

  lemma {:induction false} DoneStays(slots: seq<nat>, log: seq<Answer>, more: seq<Answer>, n: nat, k: nat)
    requires k <= |slots|
    ensures OthersDone(slots, log, n) ==> OthersDone(slots, log + more, n)
    ensures DoneUpTo(slots, log, k) ==> DoneUpTo(slots, log + more, k)
  {
    forall id ensures Answered(log, id) ==> Answered(log + more, id) { FirstStays(log, more, id); }
  }

  lemma {:induction false} AllDone(slots: seq<nat>, log: seq<Answer>, n: nat)
    requires DoneUpTo(slots, log, |slots|)
    ensures Waiting(log, n) == 0 <==> OthersDone(slots, log, n)
  {
    WaitingZero(log, n);
    if OthersDone(slots, log, n) {
      forall id: nat | id < n ensures Answered(log, id) {
        if id in slots {
          var i :| 0 <= i < |slots| && slots[i] == id;
        }
      }
    }
  }

  // ----- what an execution makes of the answers

  /** The answers to known callbacks. */
  function Relevant(answers: seq<Answer>, n: nat): seq<Answer> {
    if answers == [] then []
    else
      var a := answers[|answers| - 1];
      Relevant(answers[..|answers| - 1], n) + if a.id < n then [a] else []
  }

  lemma {:induction false} RelevantFirst(answers: seq<Answer>, n: nat, id: nat)
    requires id < n
    ensures First(Relevant(answers, n), id) == First(answers, id)
    ensures LastPayload(Relevant(answers, n), id) == LastPayload(answers, id)
    decreases |answers|
  {
    if answers != [] {
      var init, a := answers[..|answers| - 1], answers[|answers| - 1];
      RelevantFirst(init, n, id);
      FirstAfter(Relevant(init, n), a, id);
      assert Relevant(init, n) + [] == Relevant(init, n);
    }
  }

  /** Everything that arrives in the first t steps, in order. */
  ghost function Arrived(w: World, t: nat): seq<Answer> {
    if t == 0 then [] else Arrived(w, t - 1) + w.arrivals(t - 1)
  }

  /** The operation that is failed at a step of an execution of k operations, unless it is finished: in the first k
      steps one that cannot be sent, in the last k steps one after the other. */
  ghost function Fails(w: World, k: nat, step: nat): Option<nat> {
    if step < k then if step in w.reachable && step in w.running then None else Some(step)
    else if k < step <= 2 * k then Some(step - k - 1)
    else None
  }

  /** The step at which operation i is failed at the latest. */
  ghost function Due(w: World, k: nat, i: nat): nat {
    if i in w.reachable && i in w.running then k + 1 + i else i
  }

  /** A callback that is not finished is failed. */
  function Failed(log: seq<Answer>, id: nat): seq<Answer> {
    if Answered(log, id) then log else log + [Answer(id, Failure(CLIENT_IO_ERROR))]
  }

  /** What one step adds to the history: what arrives, and then the failure. */
  ghost function Advanced(w: World, slots: seq<nat>, log: seq<Answer>, n: nat, step: nat): seq<Answer> {
    var now, f := log + Relevant(w.arrivals(step), n), Fails(w, |slots|, step);
    if f.Some? then Failed(now, slots[f.value]) else now
  }

  /** The history after t steps. */
  ghost function History(w: World, slots: seq<nat>, log: seq<Answer>, n: nat, t: nat): seq<Answer> {
    if t == 0 then log else Advanced(w, slots, History(w, slots, log, n, t - 1), n, t - 1)
  }

  /** The history, not to be unfolded. */
  ghost function Past(w: World, slots: seq<nat>, log: seq<Answer>, n: nat, t: nat, lock: nat): seq<Answer> {
    if lock == 0 then History(w, slots, log, n, t) else Past(w, slots, log, n, t, lock - 1)
  }

  lemma {:induction false} OpenPast(w: World, slots: seq<nat>, log: seq<Answer>, n: nat, t: nat, lock: nat)
    ensures Past(w, slots, log, n, t, lock) == History(w, slots, log, n, t)
  {
    if lock > 0 { OpenPast(w, slots, log, n, t, lock - 1); }
  }

  lemma {:induction false} PastMore(w: World, slots: seq<nat>, log: seq<Answer>, n: nat, t: nat, lock: nat)
    ensures Past(w, slots, log, n, t + 1, lock) == Advanced(w, slots, Past(w, slots, log, n, t, lock), n, t)
  {
    OpenPast(w, slots, log, n, t, lock);
    OpenPast(w, slots, log, n, t + 1, lock);
  }

  /** The result of operation i: the first answer to it, old ones included, if one arrives before it is failed. */
  ghost function Outcome(w: World, slots: seq<nat>, log: seq<Answer>, i: nat): Result
    requires i < |slots|
  {
    var f := First(log + Arrived(w, Due(w, |slots|, i) + 1), slots[i]);
    if f.Some? then f.value else Failure(CLIENT_IO_ERROR)
  }

  lemma {:induction false} ArrivedFirst(w: World, log: seq<Answer>, t: nat, id: nat)
    requires t > 0
    ensures First(log + Arrived(w, t), id) ==
      var f := First(log + Arrived(w, t - 1), id); if f.Some? then f else First(w.arrivals(t - 1), id)
  {
    assert log + Arrived(w, t) == log + Arrived(w, t - 1) + w.arrivals(t - 1);
    FirstStays(log + Arrived(w, t - 1), w.arrivals(t - 1), id);
  }

  lemma {:induction false} FailedFirst(log: seq<Answer>, id: nat, x: nat)
    ensures First(Failed(log, id), x) ==
      if x == id && First(log, x).None? then Some(Failure(CLIENT_IO_ERROR)) else First(log, x)
    ensures LastPayload(Failed(log, id), x) == LastPayload(log, x)
  {
    FirstAfter(log, Answer(id, Failure(CLIENT_IO_ERROR)), x);
  }

  lemma {:induction false} AdvancedFirst(w: World, slots: seq<nat>, log: seq<Answer>, n: nat, step: nat, i: nat)
    requires Slots(slots, n) && i < |slots|
    ensures First(Advanced(w, slots, log, n, step), slots[i]) ==
      Next(First(log, slots[i]), w, |slots|, step, i, slots[i])
  {
    FirstStays(log, Relevant(w.arrivals(step), n), slots[i]);
    RelevantFirst(w.arrivals(step), n, slots[i]);
    var f := Fails(w, |slots|, step);
    if f.Some? {
      assert f.value < i || f.value == i || i < f.value;
      FailedFirst(log + Relevant(w.arrivals(step), n), slots[f.value], slots[i]);
    }
  }

  /** What a step makes of the first answer to operation i. */
  ghost function Next(f: Option<Result>, w: World, k: nat, step: nat, i: nat, id: nat): Option<Result> {
    var g := if f.Some? then f else First(w.arrivals(step), id);
    if g.None? && Fails(w, k, step) == Some(i) then Some(Failure(CLIENT_IO_ERROR)) else g
  }

  /** The first answer to operation i after t steps. */
  ghost function ResultAt(w: World, slots: seq<nat>, log: seq<Answer>, t: nat, i: nat): Option<Result>
    requires i < |slots|
  {
    if t <= Due(w, |slots|, i) then First(log + Arrived(w, t), slots[i]) else Some(Outcome(w, slots, log, i))
  }

  lemma {:induction false} ResultStep(w: World, slots: seq<nat>, log: seq<Answer>, t: nat, i: nat)
    requires i < |slots| && t > 0
    ensures ResultAt(w, slots, log, t, i) == Next(ResultAt(w, slots, log, t - 1, i), w, |slots|, t - 1, i, slots[i])
  {
    ArrivedFirst(w, log, t, slots[i]);
  }

  /** Until it is failed, an operation is finished by the first answer to it; then it is finished in any case. */
  lemma {:induction false} PastFirst(w: World, slots: seq<nat>, log: seq<Answer>, n: nat, t: nat, i: nat, lock: nat)
    requires Slots(slots, n) && i < |slots| && lock > 2
    ensures First(Past(w, slots, log, n, t, lock), slots[i]) == ResultAt(w, slots, log, t, i)
    decreases t
  {
    if t == 0 {
      OpenPast(w, slots, log, n, 0, lock);
      assert log + Arrived(w, 0) == log;
    } else {
      PastFirst(w, slots, log, n, t - 1, i, lock);
      PastMore(w, slots, log, n, t - 1, lock);
      AdvancedFirst(w, slots, Past(w, slots, log, n, t - 1, lock), n, t - 1, i);
      ResultStep(w, slots, log, t, i);
    }
  }

  lemma {:induction false} RelevantOther(log: seq<Answer>, answers: seq<Answer>, n: nat, id: nat)
    requires id < n
    ensures First(log + Relevant(answers, n), id) == First(log + answers, id)
    ensures LastPayload(log + Relevant(answers, n), id) == LastPayload(log + answers, id)
  {
    FirstStays(log, Relevant(answers, n), id);
    FirstStays(log, answers, id);
    PayloadStays(log, Relevant(answers, n), id);
    PayloadStays(log, answers, id);
    RelevantFirst(answers, n, id);
  }

  /** Failures bring no payload, and go to operations of the vector only. */
  lemma {:induction false} AdvancedOther(w: World, slots: seq<nat>, log: seq<Answer>, n: nat, step: nat, id: nat)
    requires id < n
    ensures LastPayload(Advanced(w, slots, log, n, step), id) == LastPayload(log + w.arrivals(step), id)
    ensures id !in slots ==> First(Advanced(w, slots, log, n, step), id) == First(log + w.arrivals(step), id)
  {
    RelevantOther(log, w.arrivals(step), n, id);
    var f := Fails(w, |slots|, step);
    if f.Some? { FailedFirst(log + Relevant(w.arrivals(step), n), slots[f.value], id); }
  }

  lemma {:induction false} PastOther(w: World, slots: seq<nat>, log: seq<Answer>, n: nat, t: nat, id: nat, lock: nat)
    requires id < n && lock > 2
    ensures LastPayload(Past(w, slots, log, n, t, lock), id) == LastPayload(log + Arrived(w, t), id)
    ensures id !in slots ==> First(Past(w, slots, log, n, t, lock), id) == First(log + Arrived(w, t), id)
    decreases t
  {
    if t == 0 {
      OpenPast(w, slots, log, n, 0, lock);
      assert log + Arrived(w, 0) == log;
    } else {
      var before := Past(w, slots, log, n, t - 1, lock);
      PastOther(w, slots, log, n, t - 1, id, lock);
      PastMore(w, slots, log, n, t - 1, lock);
      AdvancedOther(w, slots, before, n, t - 1, id);
      assert log + Arrived(w, t) == log + Arrived(w, t - 1) + w.arrivals(t - 1);
      FirstStays(before, w.arrivals(t - 1), id);
      FirstStays(log + Arrived(w, t - 1), w.arrivals(t - 1), id);
      PayloadStays(before, w.arrivals(t - 1), id);
      PayloadStays(log + Arrived(w, t - 1), w.arrivals(t - 1), id);
    }
  }

  lemma {:induction false} PastGrows(w: World, slots: seq<nat>, log: seq<Answer>, n: nat, t: nat, lock: nat)
    requires lock > 2
    ensures log <= Past(w, slots, log, n, t, lock)
    decreases t
  {
    if t == 0 {
      OpenPast(w, slots, log, n, 0, lock);
    } else {
      PastGrows(w, slots, log, n, t - 1, lock);
      PastMore(w, slots, log, n, t - 1, lock);
    }
  }

  /** At the end every operation has its outcome, and nothing is outstanding but what was left behind before. */
  lemma {:induction false} PastEnds(w: World, slots: seq<nat>, log: seq<Answer>, n: nat, lock: nat)
    requires Slots(slots, n) && lock > 2
    ensures var end := Past(w, slots, log, n, 2 * |slots| + 1, lock);
      && log <= end && DoneUpTo(slots, end, |slots|)
      && (Waiting(end, n) == 0 <==> OthersDone(slots, end, n))
      && (OthersDone(slots, log, n) ==> Waiting(end, n) == 0)
      && forall i :: 0 <= i < |slots| ==> First(end, slots[i]) == Some(Outcome(w, slots, log, i))
  {
    var end := Past(w, slots, log, n, 2 * |slots| + 1, lock);
    forall i | 0 <= i < |slots| ensures First(end, slots[i]) == Some(Outcome(w, slots, log, i)) {
      PastFirst(w, slots, log, n, 2 * |slots| + 1, i, lock);
    }
    PastGrows(w, slots, log, n, 2 * |slots| + 1, lock);
    DoneStays(slots, log, end[|log|..], n, 0);
    assert log + end[|log|..] == end;
    AllDone(slots, end, n);
  }

  /** A callback has the last payload that arrived and, if it is not in the vector, the first result that did. */
  ghost predicate Arrives(w: World, slots: seq<nat>, log: seq<Answer>, end: seq<Answer>, id: nat) {
    var all := log + Arrived(w, 2 * |slots| + 1);
    LastPayload(end, id) == LastPayload(all, id) && (id !in slots ==> First(end, id) == First(all, id))
  }

  /** Operation i has a connection and no answer when its turn comes. */
  ghost predicate Sends(w: World, slots: seq<nat>, log: seq<Answer>, i: nat)
    requires i < |slots|
  {
    i in w.reachable && First(log + Arrived(w, i + 1), slots[i]).None?
  }

  lemma {:induction false} SendsAtTurn(w: World, slots: seq<nat>, log: seq<Answer>, n: nat, i: nat, lock: nat)
    requires Slots(slots, n) && i < |slots| && lock > 2
    ensures Sends(w, slots, log, i) <==>
      i in w.reachable && !Answered(Past(w, slots, log, n, i, lock) + Relevant(w.arrivals(i), n), slots[i])
  {
    PastFirst(w, slots, log, n, i, i, lock);
    ArrivedFirst(w, log, i + 1, slots[i]);
    FirstStays(Past(w, slots, log, n, i, lock), Relevant(w.arrivals(i), n), slots[i]);
    RelevantFirst(w.arrivals(i), n, slots[i]);
  }

  /** The callbacks of the first k operations, those that are chosen. */
  ghost function Chosen(slots: seq<nat>, choice: nat -> bool, k: nat): seq<nat>
    requires k <= |slots|
  {
    if k == 0 then [] else Chosen(slots, choice, k - 1) + if choice(k - 1) then [slots[k - 1]] else []
  }

  lemma {:induction false} ChosenFrom(slots: seq<nat>, choice: nat -> bool, k: nat)
    requires k <= |slots|
    ensures forall id :: id in Chosen(slots, choice, k) ==> id in slots[..k]
    decreases k
  {
    if k > 0 {
      ChosenFrom(slots, choice, k - 1);
      assert slots[..k] == slots[..k - 1] + [slots[k - 1]];
    }
  }

  lemma {:induction false} ChosenAre(slots: seq<nat>, choice: nat -> bool, k: nat)
    requires k <= |slots| && Distinct(slots)
    ensures Distinct(Chosen(slots, choice, k))
    ensures forall i :: 0 <= i < k ==> (slots[i] in Chosen(slots, choice, k) <==> choice(i))
    decreases k
  {
    if k > 0 {
      ChosenAre(slots, choice, k - 1);
      ChosenFrom(slots, choice, k - 1);
      assert slots[k - 1] !in slots[..k - 1];
    }
  }

  /** What is sent in the first k steps. */
  ghost function Requests(w: World, slots: seq<nat>, log: seq<Answer>, k: nat): seq<nat>
    requires k <= |slots|
  {
    Chosen(slots, (i: nat) => i < |slots| && Sends(w, slots, log, i), k)
  }

  /** Every unfinished operation with a connection is sent, once, and nothing else is. */
  lemma {:induction false} RequestsAre(w: World, slots: seq<nat>, log: seq<Answer>)
    requires Distinct(slots)
    ensures Distinct(Requests(w, slots, log, |slots|))
    ensures forall id :: id in Requests(w, slots, log, |slots|) ==> id in slots
    ensures forall i :: 0 <= i < |slots| ==> (slots[i] in Requests(w, slots, log, |slots|) <==> Sends(w, slots, log, i))
  {
    var choice := (i: nat) => i < |slots| && Sends(w, slots, log, i);
    ChosenAre(slots, choice, |slots|);
    ChosenFrom(slots, choice, |slots|);
    assert Requests(w, slots, log, |slots|) == Chosen(slots, choice, |slots|);
  }

  lemma {:induction false} UpdateKeeps(slots: seq<nat>, i: nat, x: nat, id: nat)
    requires i < |slots| && id in slots && id != slots[i]
    ensures id in slots[i := x]
  {
    var j :| 0 <= j < |slots| && slots[j] == id;
    assert slots[i := x][j] == id;
  }

  /** A refill leaves the callback of slot i behind, and all others where they are. */
  lemma {:induction false} RefillLeaves(slots: seq<nat>, log: seq<Answer>, n: nat, i: nat)
    requires OthersDone(slots, log, n) && i < |slots| && Slots(slots, n)
    ensures OthersDone(slots[i := n], log, n + 1) <==> Answered(log, slots[i])
  {
    var now := slots[i := n];
    assert now[i] == n;
    assert slots[i] !in now by {
      forall j | 0 <= j < |now| ensures now[j] != slots[i] { if j != i { assert now[j] == slots[j]; } }
    }
    if Answered(log, slots[i]) {
      forall id: nat | id < n + 1 && id !in now ensures Answered(log, id) {
        if id in slots && id != slots[i] { UpdateKeeps(slots, i, n, id); }
      }
    }
  }

  class Operations {
    var callbacks: seq<Callback>
    var outstanding: int
    var slots: seq<nat>
    /** The callbacks whose requests were handed to a connection. */
    var sent: seq<nat>
    ghost var log: seq<Answer>

    ghost predicate Valid()
      reads this
    {
      Mirrors(callbacks, log) && Slots(slots, |callbacks|) && outstanding == Waiting(log, |callbacks|)
    }

    /** A vector of n operations, none of them executed yet. */
    constructor (n: nat)
      ensures Valid() && OthersDone(slots, log, |callbacks|) && |slots| == n && log == [] && sent == []
    {
      callbacks, outstanding, slots, sent, log := [], 0, [], [], [];
      new;
      for i := 0 to n
        invariant Valid() && OthersDone(slots, log, |callbacks|) && |slots| == i && log == [] && sent == []
      {
        Append();
      }
    }

    /** A new operation with its callback; the constructor of the callback counts it. */
    method Append()
      requires Valid() && OthersDone(slots, log, |callbacks|)
      modifies this
      ensures Valid() && OthersDone(slots, log, |callbacks|) && log == old(log) && sent == old(sent)
      ensures slots == old(slots) + [|old(callbacks)|]
    {
      UnknownIsWaiting(log, |callbacks|, |callbacks|);
      callbacks := callbacks + [Callback(false, CLIENT_INTERNAL_ERROR, None)];
      outstanding := outstanding + 1;
      slots := slots + [|callbacks| - 1];
    }

    /** An operation is filled again: it gets a new callback. If the old one is finished, which it is after every
        execution, the counter goes on counting the operations of the vector only. */
    method Refill(i: nat)
      requires Valid() && OthersDone(slots, log, |callbacks|) && i < |slots|
      modifies this
      ensures Valid() && log == old(log) && sent == old(sent) && slots == old(slots)[i := |old(callbacks)|]
      ensures OthersDone(slots, log, |callbacks|) <==> Answered(log, old(slots)[i])
    {
      UnknownIsWaiting(log, |callbacks|, |callbacks|);
      callbacks := callbacks + [Callback(false, CLIENT_INTERNAL_ERROR, None)];
      outstanding := outstanding + 1;
      slots := slots[i := |callbacks| - 1];
      RefillLeaves(old(slots), log, |old(callbacks)|, i);
    }

    /** Success and Failure: the payload is stored first, then OnResult decides whether the status still counts. */
    method Deliver(a: Answer)
      requires Valid() && a.id < |callbacks|
      modifies this`callbacks, this`outstanding, this`log
      ensures Valid() && |callbacks| == |old(callbacks)| && log == old(log) + [a]
    {
      FirstAfter(log, a, a.id);
      WaitingAfter(log, a, |callbacks|);
      MirrorsAfter(callbacks, log, a);
      if a.result.Success? {
        callbacks := callbacks[a.id := callbacks[a.id].(payload := Some(a.result.payload))];
      }
      if !callbacks[a.id].done {
        callbacks := callbacks[a.id := callbacks[a.id].(done := true, status := a.result.Code())];
        outstanding := outstanding - 1;
      }
      log := log + [a];
      assert callbacks == old(callbacks)[a.id := Of(log, a.id)];
    }

    /** Whatever arrives meanwhile. */
    method DeliverAll(answers: seq<Answer>)
      requires Valid()
      modifies this`callbacks, this`outstanding, this`log
      ensures Valid() && |callbacks| == |old(callbacks)| && log == old(log) + Relevant(answers, |callbacks|)
    {
      var i := 0;
      while i < |answers|
        invariant 0 <= i <= |answers| && Valid() && |callbacks| == |old(callbacks)|
        invariant log == old(log) + Relevant(answers[..i], |callbacks|)
      {
        if answers[i].id < |callbacks| {
          Deliver(answers[i]);
        }
        assert answers[..i + 1][..i] == answers[..i];
        i := i + 1;
      }
      assert answers[..i] == answers;
    }

    /** Sending out one operation. */
    method Send(i: nat, w: World)
      requires Valid() && i < |slots|
      modifies this`callbacks, this`outstanding, this`log, this`sent
      ensures Valid() && |callbacks| == |old(callbacks)| && log == Advanced(w, slots, old(log), |callbacks|, i)
      ensures sent == old(sent) +
        if i in w.reachable && !Answered(old(log) + Relevant(w.arrivals(i), |callbacks|), slots[i])
        then [slots[i]] else []
    {
      DeliverAll(w.arrivals(i));
      if callbacks[slots[i]].done {
        return;
      }
      if i !in w.reachable {
        Deliver(Answer(slots[i], Failure(CLIENT_IO_ERROR)));
        return;
      }
      sent := sent + [slots[i]];
      if i !in w.running {
        Deliver(Answer(slots[i], Failure(CLIENT_IO_ERROR)));
      }
    }

    method SendNext(i: nat, w: World, ghost before: seq<Answer>, ghost done: seq<nat>, ghost lock: nat)
      requires Valid() && i < |slots| && lock > 2
      requires log == Past(w, slots, before, |callbacks|, i, lock) && sent == done + Requests(w, slots, before, i)
      modifies this`callbacks, this`outstanding, this`log, this`sent
      ensures Valid() && |callbacks| == |old(callbacks)|
      ensures log == Past(w, slots, before, |callbacks|, i + 1, lock)
      ensures sent == done + Requests(w, slots, before, i + 1)
    {
      Send(i, w);
      PastMore(w, slots, before, |callbacks|, i, lock);
      SendsAtTurn(w, slots, before, |callbacks|, i, lock);
    }

    /** Waiting until nothing is outstanding or the time is over. */
    method Await(w: World)
      requires Valid()
      modifies this`callbacks, this`outstanding, this`log
      ensures Valid() && |callbacks| == |old(callbacks)| && log == Advanced(w, slots, old(log), |callbacks|, |slots|)
    {
      DeliverAll(w.arrivals(|slots|));
    }

    /** Timing out one operation, unless it finished meanwhile. */
    method Expire(i: nat, w: World, step: nat)
      requires Valid() && i < |slots| && step == |slots| + 1 + i
      modifies this`callbacks, this`outstanding, this`log
      ensures Valid() && |callbacks| == |old(callbacks)| && log == Advanced(w, slots, old(log), |callbacks|, step)
    {
      DeliverAll(w.arrivals(step));
      if !callbacks[slots[i]].done {
        Deliver(Answer(slots[i], Failure(CLIENT_IO_ERROR)));
      }
    }

    /** executeOperationVector: ends with every operation finished, whatever arrives and when, and with nothing
        outstanding if and only if no unfinished callback was left behind by a refill.
        The result of an operation is the first answer to it if one arrives before it is failed for want of a connection
        or timed out, and CLIENT_IO_ERROR otherwise. Every unfinished operation with a connection is sent, once; the
        histogram counts the results of the operations, each of them once. */
    method Execute(w: World) returns (rmap: multiset<Status>)
      requires Valid()
      modifies this`callbacks, this`outstanding, this`log, this`sent
      ensures Valid() && |callbacks| == |old(callbacks)| && DoneUpTo(slots, log, |slots|)
      ensures outstanding == 0 <==> OthersDone(slots, log, |callbacks|)
      ensures old(OthersDone(slots, log, |callbacks|)) ==> outstanding == 0
      ensures old(log) <= log
      ensures forall i :: 0 <= i < |slots| ==> First(log, slots[i]) == Some(Outcome(w, slots, old(log), i))
      ensures forall i :: 0 <= i < |slots| ==> (callbacks[slots[i]].status == CLIENT_IO_ERROR <==>
          var f := First(old(log) + Arrived(w, Due(w, |slots|, i) + 1), slots[i]);
          f.None? || f.value.Code() == CLIENT_IO_ERROR)
      ensures forall id: nat :: id < |callbacks| ==> Arrives(w, slots, old(log), log, id)
      ensures sent == old(sent) + Requests(w, slots, old(log), |slots|)
      ensures rmap == multiset(Codes(slots, log)) && |rmap| == |slots|
    {
      ghost var lock: nat :| lock > 2;
      Perform(w, lock);
      PastEnds(w, slots, old(log), |callbacks|, lock);
      forall id: nat | id < |callbacks| ensures Arrives(w, slots, old(log), log, id) {
        PastOther(w, slots, old(log), |callbacks|, 2 * |slots| + 1, id, lock);
      }
      rmap := Histogram();
    }

    /** All steps of an execution. */
    method Perform(w: World, ghost lock: nat)
      requires Valid() && lock > 2
      modifies this`callbacks, this`outstanding, this`log, this`sent
      ensures Valid() && |callbacks| == |old(callbacks)|
      ensures log == Past(w, slots, old(log), |callbacks|, 2 * |slots| + 1, lock)
      ensures sent == old(sent) + Requests(w, slots, old(log), |slots|)
    {
      SendAll(w, lock);
      Await(w);
      PastMore(w, slots, old(log), |callbacks|, |slots|, lock);
      ExpireAll(w, old(log), lock);
    }

    method SendAll(w: World, ghost lock: nat)
      requires Valid() && lock > 2
      modifies this`callbacks, this`outstanding, this`log, this`sent
      ensures Valid() && |callbacks| == |old(callbacks)|
      ensures log == Past(w, slots, old(log), |callbacks|, |slots|, lock)
      ensures sent == old(sent) + Requests(w, slots, old(log), |slots|)
    {
      var i := 0;
      OpenPast(w, slots, log, |callbacks|, 0, lock);
      while i < |slots|
        invariant 0 <= i <= |slots| && Valid() && |callbacks| == |old(callbacks)|
        invariant log == Past(w, slots, old(log), |callbacks|, i, lock)
        invariant sent == old(sent) + Requests(w, slots, old(log), i)
      {
        SendNext(i, w, old(log), old(sent), lock);
        i := i + 1;
      }
    }

    method ExpireAll(w: World, ghost before: seq<Answer>, ghost lock: nat)
      requires Valid() && lock > 2 && log == Past(w, slots, before, |callbacks|, |slots| + 1, lock)
      modifies this`callbacks, this`outstanding, this`log
      ensures Valid() && |callbacks| == |old(callbacks)|
      ensures log == Past(w, slots, before, |callbacks|, 2 * |slots| + 1, lock)
    {
      var i, step := 0, |slots| + 1;
      while i < |slots|
        invariant 0 <= i <= |slots| && step == |slots| + 1 + i && Valid() && |callbacks| == |old(callbacks)|
        invariant log == Past(w, slots, before, |callbacks|, step, lock)
      {
        Expire(i, w, step);
        PastMore(w, slots, before, |callbacks|, step, lock);
        i, step := i + 1, step + 1;
      }
    }

    method Histogram() returns (rmap: multiset<Status>)
      requires Valid() && DoneUpTo(slots, log, |slots|)
      ensures rmap == multiset(Codes(slots, log)) && |rmap| == |slots|
    {
      rmap := multiset{};
      for i := 0 to |slots|
        invariant rmap == multiset(Codes(slots[..i], log))
      {
        CodesNext(slots, i, log);
        rmap := rmap + multiset{callbacks[slots[i]].status};
      }
      assert slots[..|slots|] == slots;
    }
  }

  /** The codes of the first results of the operations. */
  function Codes(slots: seq<nat>, log: seq<Answer>): (s: seq<Status>)
    ensures |s| == |slots|
  {
    if slots == [] then [] else Codes(slots[..|slots| - 1], log) + [Of(log, slots[|slots| - 1]).status]
  }

  lemma {:induction false} CodesAre(slots: seq<nat>, log: seq<Answer>, i: nat)
    requires i < |slots|
    ensures Codes(slots, log)[i] == Of(log, slots[i]).status
    decreases |slots|
  {
    if i < |slots| - 1 { CodesAre(slots[..|slots| - 1], log, i); }
  }

  lemma {:induction false} CodesNext(slots: seq<nat>, i: nat, log: seq<Answer>)
    requires i < |slots|
    ensures multiset(Codes(slots[..i + 1], log)) ==
      multiset(Codes(slots[..i], log)) + multiset{Of(log, slots[i]).status}
  {
    assert slots[..i + 1][..i] == slots[..i];
  }
}
