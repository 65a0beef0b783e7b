/** The version election of a stripe.

A stripe operation asks every drive that holds a chunk for its version and elects
the version that was reported most often; among equally frequent versions the one
that occurs at the lowest chunk position wins. */
module Election {
  import opened Wrappers
  import opened Sequences

  /** What one drive answered to a version request. */
  datatype Reply<V> = Found(version: V) | NotFound | Failed

  /** Elected version and the number of chunks that carry it. */
  datatype VersionCount<V> = VersionCount(version: Option<V>, frequency: nat)

  /** `vc` is the outcome of the election over `replies`: the most frequent version, at its
      earliest position ahead of any equally frequent one, or nothing if no drive had a version. */
  ghost predicate IsElected<V>(replies: seq<Reply<V>>, vc: VersionCount<V>)
  {
    match vc.version
    case None => vc.frequency == 0 && forall i :: 0 <= i < |replies| ==> !replies[i].Found?
    case Some(v) => exists p :: ElectedAt(replies, p, v) && vc.frequency == Count(replies, Found(v))
  }

  ghost predicate ElectedAt<V>(replies: seq<Reply<V>>, p: int, v: V)
  {
    && 0 <= p < |replies| && replies[p] == Found(v)
    && (forall i :: 0 <= i < |replies| && replies[i].Found? ==> Count(replies, replies[i]) <= Count(replies, Found(v)))
    && (forall i :: 0 <= i < p && replies[i].Found? ==> Count(replies, replies[i]) < Count(replies, Found(v)))
  }

  /** At most one outcome is possible. */
  lemma {:induction false} ElectionUnique<V>(replies: seq<Reply<V>>, a: VersionCount<V>, b: VersionCount<V>)
    requires IsElected(replies, a) && IsElected(replies, b)
    ensures a == b
  {
    if a.version.Some? && b.version.Some? {
      var p :| ElectedAt(replies, p, a.version.value) && a.frequency == Count(replies, Found(a.version.value));
      var q :| ElectedAt(replies, q, b.version.value) && b.frequency == Count(replies, Found(b.version.value));
      assert Count(replies, replies[p]) == Count(replies, replies[q]);
    }
  }

  /** Among the first `o` positions, the one the election would pick: none if nothing was found there. */
  lemma {:induction false} BestPosition<V>(replies: seq<Reply<V>>, o: nat) returns (p: int)
    requires o <= |replies|
    ensures p < 0 ==> forall i :: 0 <= i < o ==> !replies[i].Found?
    ensures p >= 0 ==> p < o && replies[p].Found?
    ensures p >= 0 ==> forall i :: 0 <= i < o && replies[i].Found? ==>
      Count(replies, replies[i]) <= Count(replies, replies[p])
    ensures p >= 0 ==> forall i :: 0 <= i < p && replies[i].Found? ==>
      Count(replies, replies[i]) < Count(replies, replies[p])
    decreases o
  {
    if o == 0 {
      return -1;
    }
    p := BestPosition(replies, o - 1);
    if replies[o - 1].Found? && (p < 0 || Count(replies, replies[p]) < Count(replies, replies[o - 1])) {
      p := o - 1;
    }
  }

  lemma {:induction false} ElectionExists<V>(replies: seq<Reply<V>>)
    ensures exists vc :: IsElected(replies, vc)
  {
    var p := BestPosition(replies, |replies|);
    if p < 0 {
      assert IsElected(replies, VersionCount(None, 0));
    } else {
      var v := replies[p].version;
      assert ElectedAt(replies, p, v);
      assert IsElected(replies, VersionCount(Some(v), Count(replies, Found(v))));
    }
  }

  ghost function Elected<V>(replies: seq<Reply<V>>): (vc: VersionCount<V>)
    ensures IsElected(replies, vc)
  {
    ElectionExists(replies);
    var vc :| IsElected(replies, vc);
    vc
  }

  /** A version reported by more than half of the drives wins whatever the order. */
  lemma {:induction false} MajorityWins<V>(replies: seq<Reply<V>>, v: V, vc: VersionCount<V>)
    requires 2 * Count(replies, Found(v)) > |replies|
    requires IsElected(replies, vc)
    ensures vc == VersionCount(Some(v), Count(replies, Found(v)))
  {
    CountPositive(replies, Found(v));
    var i :| 0 <= i < |replies| && replies[i] == Found(v);
    assert vc.version.Some?;
    var u := vc.version.value;
    var p :| ElectedAt(replies, p, u) && vc.frequency == Count(replies, Found(u));
    if u != v {
      CountDisjoint(replies, Found(u), Found(v));
    }
  }

  /** StripeOperation_GET::mostFrequentVersion: quadratic count with an early exit at an absolute majority. */
  method MostFrequentVersion<V(==)>(replies: seq<Reply<V>>) returns (vc: VersionCount<V>)
    ensures vc == Elected(replies)
  {
    var best, element := 0, 0;
    var o := 0;
    while o < |replies|
      invariant 0 <= o <= |replies|
      invariant best == 0 ==> forall i :: 0 <= i < o ==> !replies[i].Found?
      invariant best > 0 ==>
        && 0 <= element < o && replies[element].Found? && best == Count(replies, replies[element])
        && (forall i :: 0 <= i < o && replies[i].Found? ==> Count(replies, replies[i]) <= best)
        && (forall i :: 0 <= i < element && replies[i].Found? ==> Count(replies, replies[i]) < best)
    {
      var frequency := 0;
      for l := 0 to |replies|
        invariant frequency == if replies[o].Found? then Count(replies[..l], replies[o]) else 0
      {
        CountPush(replies, l, replies[o]);
        if replies[o].Found? && replies[l].Found? && replies[o].version == replies[l].version {
          frequency := frequency + 1;
        }
      }
      assert replies[..|replies|] == replies;
      CountPositive(replies, replies[o]);
      if frequency > best {
        best, element := frequency, o;
      }
      if frequency > |replies| / 2 {
        forall i | 0 <= i < |replies| && replies[i].Found?
          ensures Count(replies, replies[i]) <= frequency
        {
          if replies[i] != replies[o] {
            CountDisjoint(replies, replies[i], replies[o]);
          }
        }
        break;
      }
      o := o + 1;
    }
    if best == 0 {
      vc := VersionCount(None, 0);
    } else {
      vc := VersionCount(Some(replies[element].version), best);
      assert ElectedAt(replies, element, replies[element].version);
    }
    ElectionUnique(replies, vc, Elected(replies));
  }
}
