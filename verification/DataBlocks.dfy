/** DataBlock: pending local writes over a remote value that other clients replace at any time. */
module DataBlocks {
  import opened Wrappers
  import opened Sequences

  type Bytes = string

  // ----- what pending writes mean

  datatype Write = Written(off: nat, data: Bytes) {
    function End(): nat { off + |data| }
    predicate Covers(i: int) { off <= i < End() }
  }

  /** The byte the last covering write put at position i. */
  function LastWrite(writes: seq<Write>, i: int): Option<char> {
    if writes == [] then None
    else if writes[|writes| - 1].Covers(i) then Some(writes[|writes| - 1].data[i - writes[|writes| - 1].off])
    else LastWrite(writes[..|writes| - 1], i)
  }

  function Max(a: nat, b: nat): nat { if a < b then b else a }

  /** The larger of `size` and the ends of the writes. */
  function SizeOf(size: nat, writes: seq<Write>): nat {
    if writes == [] then size else Max(SizeOf(size, writes[..|writes| - 1]), writes[|writes| - 1].End())
  }

  /** `v` is `base` overlaid by the writes in order. Bytes between the end of `base` and a write beyond it are
      not determined: the code leaves filler there. */
  ghost predicate IsOverlay(base: Bytes, writes: seq<Write>, v: Bytes) {
    && |v| == SizeOf(|base|, writes)
    && OverlayAt(base, writes, v)
  }

  ghost predicate OverlayAt(base: Bytes, writes: seq<Write>, v: Bytes) {
    forall i :: 0 <= i < |v| ==> Shown(base, writes, i, v[i])
  }

  /** Position i of the overlay: the byte last written there, or else the byte of `base`. */
  ghost predicate Shown(base: Bytes, writes: seq<Write>, i: nat, byte: char) {
    && (LastWrite(writes, i).Some? ==> byte == LastWrite(writes, i).value)
    && (LastWrite(writes, i).None? && i < |base| ==> byte == base[i])
  }

  lemma {:induction false} EndsWithin(size: nat, writes: seq<Write>, k: nat)
    requires k < |writes|
    ensures writes[k].End() <= SizeOf(size, writes) && size <= SizeOf(size, writes)
    decreases |writes|
  {
    SizeAtLeast(size, writes);
    if k < |writes| - 1 { EndsWithin(size, writes[..|writes| - 1], k); }
  }

  lemma {:induction false} SizeAtLeast(size: nat, writes: seq<Write>)
    ensures size <= SizeOf(size, writes)
    decreases |writes|
  {
    if writes != [] { SizeAtLeast(size, writes[..|writes| - 1]); }
  }

  lemma {:induction false} SizeWithin(size: nat, writes: seq<Write>, cap: nat)
    requires size <= cap && forall k :: 0 <= k < |writes| ==> writes[k].End() <= cap
    ensures SizeOf(size, writes) <= cap
    decreases |writes|
  {
    if writes != [] { SizeWithin(size, writes[..|writes| - 1], cap); }
  }

  /** Some write covers i exactly if there is a last one. */
  lemma {:induction false} CoveredIff(writes: seq<Write>, i: int)
    ensures LastWrite(writes, i).Some? <==> exists k :: 0 <= k < |writes| && writes[k].Covers(i)
    decreases |writes|
  {
    if writes != [] {
      CoveredIff(writes[..|writes| - 1], i);
    }
  }

  function Splice(s: Bytes, off: nat, data: Bytes): (r: Bytes)
    requires off + |data| <= |s|
    ensures |r| == |s|
  {
    s[..off] + data + s[off + |data|..]
  }

  /** std::string::resize: cut, or extend with NUL. */
  function Resize(s: Bytes, n: nat): (r: Bytes)
    ensures |r| == n
  {
    if n <= |s| then s[..n] else s + Repeat('\0', n - |s|)
  }

  /** One more write on top of an overlay. */
  lemma {:induction false} OverlayPush(base: Bytes, writes: seq<Write>, v: Bytes, w: Write)
    requires OverlayAt(base, writes, v) && w.End() <= |v|
    ensures OverlayAt(base, writes + [w], Splice(v, w.off, w.data))
  {
    var ws, r := writes + [w], Splice(v, w.off, w.data);
    assert ws[..|writes|] == writes;
    forall i | 0 <= i < |r| ensures Shown(base, ws, i, r[i]) {
      assert Shown(base, writes, i, v[i]);
      assert r[i] == if w.Covers(i) then w.data[i - w.off] else v[i];
    }
  }

  // ----- the contents of a block

  /** `updates` records where the pending writes went. */
  ghost predicate Recorded(cap: nat, writes: seq<Write>, updates: seq<(nat, nat)>) {
    && |updates| == |writes|
    && forall k :: 0 <= k < |writes| ==>
         updates[k] == (writes[k].off, |writes[k].data|) && writes[k].data != [] && writes[k].End() <= cap
  }

  /** The strings a block keeps, against the value it is based on and its pending writes. */
  datatype Contents = Contents(remote: Option<Bytes>, local: Option<Bytes>, size: nat) {
    ghost predicate Fits(cap: nat) {
      if local.Some? then remote.None? && size <= |local.value| <= cap
      else size == if remote.Some? then |remote.value| else 0
    }

    ghost function View(cap: nat): (v: Bytes)
      requires Fits(cap)
      ensures |v| == size
    {
      if local.Some? then local.value[..size] else if remote.Some? then remote.value else []
    }

    ghost predicate Shows(cap: nat, base: Bytes, writes: seq<Write>) {
      Fits(cap) && IsOverlay(base, writes, View(cap)) && (local.None? ==> writes == [])
    }

    /** The string that writes go to: the local copy, or one made from the remote value or from filler. */
    function Prepared(cap: nat, needed: nat): Bytes {
      var l := if local.Some? then local.value else if remote.Some? then remote.value else Repeat('0', cap);
      if needed > |l| then Resize(l, cap) else l
    }
  }

  /** Preparing the local string keeps the view and only adds filler behind it. */
  lemma {:induction false} PreparedKeeps(c: Contents, cap: nat, needed: nat)
    requires c.Fits(cap) && c.size <= needed <= cap
    ensures var l := c.Prepared(cap, needed);
      needed <= |l| && (c.size <= cap ==> |l| <= cap || |l| == c.size) && l[..c.size] == c.View(cap)
  {
  }

  /** Behind the view there is no pending write. */
  lemma {:induction false} NothingBehind(size: nat, writes: seq<Write>, i: int)
    requires i >= SizeOf(size, writes)
    ensures LastWrite(writes, i).None?
  {
    CoveredIff(writes, i);
    if k :| 0 <= k < |writes| && writes[k].Covers(i) { EndsWithin(size, writes, k); }
  }

  lemma {:induction false} FillerKeeps(base: Bytes, writes: seq<Write>, v: Bytes, l: Bytes)
    requires IsOverlay(base, writes, v) && v <= l
    ensures OverlayAt(base, writes, l)
  {
    SizeAtLeast(|base|, writes);
    forall i | 0 <= i < |l| ensures Shown(base, writes, i, l[i]) {
      if i >= |v| { NothingBehind(|base|, writes, i); } else { assert Shown(base, writes, i, v[i]); }
    }
  }

  /** Writing keeps the overlay, with one more pending write. */
  lemma {:induction false} WriteShows(c: Contents, cap: nat, base: Bytes, writes: seq<Write>, w: Write)
    requires c.Shows(cap, base, writes) && w.End() <= cap && c.size <= cap
    ensures var needed := Max(w.End(), c.size);
            var l := c.Prepared(cap, needed);
      && needed <= |l| <= cap
      && Contents(None, Some(Splice(l, w.off, w.data)), needed).Shows(cap, base, writes + [w])
  {
    var needed := Max(w.End(), c.size);
    var l := c.Prepared(cap, needed);
    PreparedKeeps(c, cap, needed);
    var p := l[..needed];
    assert p[..c.size] == l[..c.size] == c.View(cap);
    FillerKeeps(base, writes, c.View(cap), p);
    OverlayPush(base, writes, p, w);
    SpliceFront(l, needed, w.off, w.data);
    assert (writes + [w])[..|writes|] == writes;
  }

  lemma {:induction false} SpliceFront(l: Bytes, n: nat, off: nat, data: Bytes)
    requires off + |data| <= n <= |l|
    ensures Splice(l, off, data)[..n] == Splice(l[..n], off, data)
  {
  }

  /** What a write of length 0 at `offset` does to the strings: the same bytes, at least up to the offset. */
  ghost predicate Emptied(c: Contents, after: Contents, cap: nat, offset: nat)
    requires c.Fits(cap)
  {
    && after.local.Some? && after.remote.None? && after.size == Max(offset, c.size) <= |after.local.value|
    && after.local.value[..c.size] == c.View(cap)
  }

  /** An overlay is one of itself as well. */
  lemma {:induction false} SelfOverlay(base: Bytes, writes: seq<Write>, v: Bytes)
    requires IsOverlay(base, writes, v)
    ensures IsOverlay(v, writes, v)
  {
    SelfSize(|base|, writes);
    forall i | 0 <= i < |v| ensures Shown(v, writes, i, v[i]) { assert Shown(base, writes, i, v[i]); }
  }

  lemma {:induction false} SelfSize(size: nat, writes: seq<Write>)
    ensures SizeOf(SizeOf(size, writes), writes) == SizeOf(size, writes)
  {
    var n := SizeOf(size, writes);
    SizeAtLeast(n, writes);
    forall k | 0 <= k < |writes| ensures writes[k].End() <= n { EndsWithin(size, writes, k); }
    SizeWithin(n, writes, n);
  }

  lemma {:induction false} NoWritesOverlay(v: Bytes)
    ensures IsOverlay(v, [], v)
  {
    forall i | 0 <= i < |v| ensures Shown(v, [], i, v[i]) { }
  }

  lemma {:induction false} RecordedGrows(cap: nat, writes: seq<Write>, updates: seq<(nat, nat)>, w: Write)
    requires Recorded(cap, writes, updates) && w.data != [] && w.End() <= cap
    ensures Recorded(cap, writes + [w], updates + [(w.off, |w.data|)])
  {
  }

  /** Earlier updates stay within the string that a write goes to. */
  lemma {:induction false} WriteWithin(c: Contents, cap: nat, updates: seq<(nat, nat)>, offset: nat, data: Bytes)
    requires c.Fits(cap) && offset + |data| <= cap && c.size <= cap
    requires updates != [] ==> c.local.Some? && Within(updates, cap, |c.local.value|)
    ensures Within(updates + [(offset, |data|)], cap, |c.Prepared(cap, Max(offset + |data|, c.size))|)
  {
    PreparedKeeps(c, cap, Max(offset + |data|, c.size));
  }

  /** The strings after a write. */
  ghost function AfterWrite(c: Contents, cap: nat, offset: nat, data: Bytes): Contents
    requires c.Fits(cap) && offset + |data| <= cap && c.size <= cap
  {
    var needed := Max(offset + |data|, c.size);
    PreparedKeeps(c, cap, needed);
    Contents(None, Some(Splice(c.Prepared(cap, needed), offset, data)), needed)
  }

  lemma {:induction false} WriteResult(c: Contents, cap: nat, base: Bytes, writes: seq<Write>, offset: nat, data: Bytes)
    requires c.Shows(cap, base, writes) && offset + |data| <= cap && c.size <= cap
    ensures var after := AfterWrite(c, cap, offset, data);
      && after.Fits(cap)
      && (data != [] ==> after.Shows(cap, base, writes + [Written(offset, data)]))
      && (data != [] ==> IsOverlay(c.View(cap), [Written(offset, data)], after.View(cap)))
      && (data == [] ==> Emptied(c, after, cap, offset))
  {
    if data == [] {
      EmptyWriteResult(c, cap, offset);
    } else {
      WriteShows(c, cap, base, writes, Written(offset, data));
      WriteOverlays(c, cap, offset, data);
    }
  }

  lemma {:induction false} EmptyWriteResult(c: Contents, cap: nat, offset: nat)
    requires c.Fits(cap) && offset <= cap && c.size <= cap
    ensures AfterWrite(c, cap, offset, []).Fits(cap) && Emptied(c, AfterWrite(c, cap, offset, []), cap, offset)
  {
    var l := c.Prepared(cap, Max(offset, c.size));
    PreparedKeeps(c, cap, Max(offset, c.size));
    assert Splice(l, offset, []) == l;
  }

  lemma {:induction false} WriteOverlays(c: Contents, cap: nat, offset: nat, data: Bytes)
    requires c.Fits(cap) && offset + |data| <= cap && c.size <= cap
    ensures var after := AfterWrite(c, cap, offset, data);
      after.Fits(cap) && IsOverlay(c.View(cap), [Written(offset, data)], after.View(cap))
  {
    NoWritesOverlay(c.View(cap));
    WriteShows(c, cap, c.View(cap), [], Written(offset, data));
    assert [] + [Written(offset, data)] == [Written(offset, data)];
  }

  /** The size the merge loop arrives at, for any list of updates. */
  function MergedSize(size: nat, updates: seq<(nat, nat)>): nat {
    if updates == [] then size
    else
      var (off, len) := updates[|updates| - 1];
      if len == 0 then off else Max(off + len, MergedSize(size, updates[..|updates| - 1]))
  }

  /** The size the updates call for: nothing that was stored is cut off. */
  function CoveringSize(size: nat, updates: seq<(nat, nat)>): nat {
    if updates == [] then size
    else Max(updates[|updates| - 1].0 + updates[|updates| - 1].1, CoveringSize(size, updates[..|updates| - 1]))
  }

  /** A write of length 0 is indistinguishable from a truncation: the merge keeps everything other clients may have
      stored exactly if no pending update has length 0. */
  lemma {:induction false} MergeKeepsSizeExactly(updates: seq<(nat, nat)>)
    ensures (forall size :: MergedSize(size, updates) == CoveringSize(size, updates)) <==>
            (forall k :: 0 <= k < |updates| ==> updates[k].1 > 0)
  {
    if k :| 0 <= k < |updates| && updates[k].1 == 0 {
      var size := CoveringSize(0, updates) + 1;
      SizeIsCut(size, updates, k);
      CoveringAtLeast(size, updates);
      assert MergedSize(size, updates) != CoveringSize(size, updates);
    } else {
      forall size ensures MergedSize(size, updates) == CoveringSize(size, updates) { NoTruncation(size, updates); }
    }
  }

  lemma {:induction false} NoTruncation(size: nat, updates: seq<(nat, nat)>)
    requires forall k :: 0 <= k < |updates| ==> updates[k].1 > 0
    ensures MergedSize(size, updates) == CoveringSize(size, updates)
    decreases |updates|
  {
    if updates != [] { NoTruncation(size, updates[..|updates| - 1]); }
  }

  lemma {:induction false} CoveringAtLeast(size: nat, updates: seq<(nat, nat)>)
    ensures CoveringSize(size, updates) >= size
    decreases |updates|
  {
    if updates != [] { CoveringAtLeast(size, updates[..|updates| - 1]); }
  }

  lemma {:induction false} SizeIsCut(size: nat, updates: seq<(nat, nat)>, k: nat)
    requires k < |updates| && updates[k].1 == 0
    ensures MergedSize(size, updates) <= CoveringSize(0, updates)
    decreases |updates|
  {
    if k < |updates| - 1 { SizeIsCut(size, updates[..|updates| - 1], k); }
  }

  /** The local string holds the bytes of all pending writes. */
  ghost predicate HoldsWrites(local: Bytes, writes: seq<Write>) {
    && (forall k :: 0 <= k < |writes| ==> writes[k].End() <= |local|)
    && (forall i :: 0 <= i < |local| && LastWrite(writes, i).Some? ==> local[i] == LastWrite(writes, i).value)
  }

  lemma {:induction false} ShownWritesAreHeld(c: Contents, cap: nat, base: Bytes, writes: seq<Write>)
    requires c.Shows(cap, base, writes) && c.local.Some?
    ensures HoldsWrites(c.local.value, writes)
  {
    forall k | 0 <= k < |writes| ensures writes[k].End() <= |c.local.value| {
      EndsWithin(|base|, writes, k);
    }
    forall i | 0 <= i < |c.local.value| && LastWrite(writes, i).Some?
      ensures c.local.value[i] == LastWrite(writes, i).value
    {
      if i >= c.size { NothingBehind(|base|, writes, i); } else { assert Shown(base, writes, i, c.View(cap)[i]); }
    }
  }

  /** Every update lies within the capacity, and what it wrote within the local string. */
  ghost predicate Within(updates: seq<(nat, nat)>, cap: nat, local: nat) {
    forall k :: 0 <= k < |updates| ==>
      updates[k].0 + updates[k].1 <= cap && (updates[k].1 > 0 ==> updates[k].0 + updates[k].1 <= local)
  }

  lemma {:induction false} MergedWithin(size: nat, updates: seq<(nat, nat)>, cap: nat, local: nat)
    requires size <= cap && Within(updates, cap, local)
    ensures MergedSize(size, updates) <= cap
    decreases |updates|
  {
    if updates != [] { MergedWithin(size, updates[..|updates| - 1], cap, local); }
  }

  lemma {:induction false} RecordedSize(cap: nat, size: nat, writes: seq<Write>, updates: seq<(nat, nat)>)
    requires Recorded(cap, writes, updates)
    ensures MergedSize(size, updates) == SizeOf(size, writes)
    decreases |writes|
  {
    if writes != [] { RecordedSize(cap, size, writes[..|writes| - 1], updates[..|writes| - 1]); }
  }

  lemma {:induction false} RecordedWithin(cap: nat, local: Bytes, writes: seq<Write>, updates: seq<(nat, nat)>)
    requires Recorded(cap, writes, updates) && HoldsWrites(local, writes)
    ensures Within(updates, cap, |local|)
  {
    forall k | 0 <= k < |updates| ensures updates[k].0 + updates[k].1 <= |local| { assert writes[k].End() <= |local|; }
  }

  /** The merge so far: bytes written come from the local string, the others from the fetched one. */
  ghost predicate MergedSoFar(fetched: Bytes, local: Bytes, writes: seq<Write>, merged: Bytes) {
    forall i :: 0 <= i < |merged| ==>
      if LastWrite(writes, i).Some? then i < |local| && merged[i] == local[i]
      else i < |fetched| ==> merged[i] == fetched[i]
  }

  lemma {:induction false} MergeOne(fetched: Bytes, local: Bytes, writes: seq<Write>, merged: Bytes, w: Write)
    requires MergedSoFar(fetched, local, writes, merged) && w.data != [] && w.End() <= |local| && w.End() <= |merged|
    ensures MergedSoFar(fetched, local, writes + [w], Splice(merged, w.off, local[w.off..w.End()]))
  {
    assert (writes + [w])[..|writes|] == writes;
  }

  /** The string the merge loop arrives at, for any list of updates. */
  function MergedValue(cap: nat, fetched: Bytes, local: Bytes, updates: seq<(nat, nat)>): (merged: Bytes)
    requires |fetched| <= cap && Within(updates, cap, |local|)
    ensures |merged| == cap
  {
    if updates == [] then Resize(fetched, cap)
    else
      var k := |updates| - 1;
      var (off, len) := updates[k];
      var m := MergedValue(cap, fetched, local, updates[..k]);
      if len == 0 then m else Splice(m, off, local[off..off + len])
  }

  /** One update more. */
  lemma {:induction false} MergePush(cap: nat, fetched: Bytes, local: Bytes, updates: seq<(nat, nat)>, k: nat)
    requires |fetched| <= cap && Within(updates, cap, |local|) && k < |updates|
    ensures var (off, len) := updates[k];
      var size, m := MergedSize(|fetched|, updates[..k]), MergedValue(cap, fetched, local, updates[..k]);
      && MergedSize(|fetched|, updates[..k + 1]) == (if len == 0 then off else Max(off + len, size))
      && MergedValue(cap, fetched, local, updates[..k + 1]) ==
         if len == 0 then m else Splice(m, off, local[off..off + len])
  {
    assert updates[..k + 1][..k] == updates[..k];
  }

  /** If the updates record the pending writes, the merge shows them. */
  lemma {:induction false} RecordedMerge(
      cap: nat, fetched: Bytes, local: Bytes, writes: seq<Write>, updates: seq<(nat, nat)>)
    requires |fetched| <= cap && Within(updates, cap, |local|) && Recorded(cap, writes, updates)
    ensures MergedSoFar(fetched, local, writes, MergedValue(cap, fetched, local, updates))
    decreases |writes|
  {
    if writes != [] {
      var k := |writes| - 1;
      RecordedMerge(cap, fetched, local, writes[..k], updates[..k]);
      assert updates[k] == (writes[k].off, |writes[k].data|) && writes[k].End() <= |local|;
      MergeOne(fetched, local, writes[..k], MergedValue(cap, fetched, local, updates[..k]), writes[k]);
      assert writes == writes[..k] + [writes[k]];
    }
  }

  /** Copy every updated range from the local value onto the fetched one. An update of length 0 is a truncation. If the
      updates record the pending writes, the result shows them on top of the fetched value. */
  method MergeUpdates(cap: nat, fetched: Bytes, local: Bytes, updates: seq<(nat, nat)>, ghost writes: seq<Write>)
    returns (merged: Bytes, size: nat)
    requires |fetched| <= cap && Within(updates, cap, |local|)
    ensures |merged| == cap && size == MergedSize(|fetched|, updates)
    ensures Recorded(cap, writes, updates) && HoldsWrites(local, writes) ==> OverlayAt(fetched, writes, merged)
  {
    merged, size := MergeLoop(cap, fetched, local, updates);
    MergeShowsWrites(cap, fetched, local, writes, updates);
  }

  /** The loop. */
  method MergeLoop(cap: nat, fetched: Bytes, local: Bytes, updates: seq<(nat, nat)>)
    returns (merged: Bytes, size: nat)
    requires |fetched| <= cap && Within(updates, cap, |local|)
    ensures merged == MergedValue(cap, fetched, local, updates) && size == MergedSize(|fetched|, updates)
  {
    merged, size := Resize(fetched, cap), |fetched|;
    var k := 0;
    while k < |updates|
      invariant 0 <= k <= |updates|
      invariant merged == MergedValue(cap, fetched, local, updates[..k]) && size == MergedSize(|fetched|, updates[..k])
    {
      merged, size := MergeNext(cap, fetched, local, updates, k, merged, size);
      k := k + 1;
    }
    assert updates[..|updates|] == updates;
  }

  /** One turn of it. */
  method MergeNext(
      cap: nat, ghost fetched: Bytes, local: Bytes, updates: seq<(nat, nat)>, k: nat, before: Bytes, sizeBefore: nat)
    returns (merged: Bytes, size: nat)
    requires |fetched| <= cap && Within(updates, cap, |local|) && k < |updates|
    requires before == MergedValue(cap, fetched, local, updates[..k])
    requires sizeBefore == MergedSize(|fetched|, updates[..k])
    ensures merged == MergedValue(cap, fetched, local, updates[..k + 1])
    ensures size == MergedSize(|fetched|, updates[..k + 1])
  {
    MergePush(cap, fetched, local, updates, k);
    merged, size := before, sizeBefore;
    var (off, len) := updates[k];
    if len == 0 {
      size := off;
    } else {
      size := Max(off + len, size);
      merged := Splice(merged, off, local[off..off + len]);
    }
  }

  lemma {:induction false} MergeShowsWrites(
      cap: nat, fetched: Bytes, local: Bytes, writes: seq<Write>, updates: seq<(nat, nat)>)
    requires |fetched| <= cap && Within(updates, cap, |local|)
    ensures Recorded(cap, writes, updates) && HoldsWrites(local, writes) ==>
      OverlayAt(fetched, writes, MergedValue(cap, fetched, local, updates))
  {
    if Recorded(cap, writes, updates) && HoldsWrites(local, writes) {
      RecordedMerge(cap, fetched, local, writes, updates);
      MergedIsOverlay(fetched, local, writes, MergedValue(cap, fetched, local, updates));
    }
  }

  lemma {:induction false} MergedIsOverlay(fetched: Bytes, local: Bytes, writes: seq<Write>, merged: Bytes)
    requires MergedSoFar(fetched, local, writes, merged) && HoldsWrites(local, writes)
    ensures OverlayAt(fetched, writes, merged)
  {
    forall i | 0 <= i < |merged| ensures Shown(fetched, writes, i, merged[i]) { }
  }

  lemma {:induction false} MergedShows(
      cap: nat, base: Bytes, writes: seq<Write>, updates: seq<(nat, nat)>, merged: Bytes)
    requires |base| <= cap && Recorded(cap, writes, updates) && |merged| == cap && OverlayAt(base, writes, merged)
    ensures SizeOf(|base|, writes) <= cap
    ensures Contents(None, Some(merged), SizeOf(|base|, writes)).Shows(cap, base, writes)
  {
    SizeWithin(|base|, writes, cap);
    var v := merged[..SizeOf(|base|, writes)];
    forall i | 0 <= i < |v| ensures Shown(base, writes, i, v[i]) {
      assert Shown(base, writes, i, merged[i]);
    }
  }

  // ----- the cluster, as far as one key is concerned

  datatype GetStatus = GetOk | GetNotFound | GetIoError
  datatype PutStatus = PutOk | PutMismatch | PutIoError

  /** How the next request goes: it is answered, or an error is reported. A put that is reported as an error may have
      taken effect all the same. */
  datatype Fate = Answered | Lost | LostAnswer

  /** What happens around the next request: puts by other clients, and the fate of the request itself. */
  datatype Event = Event(foreign: seq<Bytes>, fate: Fate)

  ghost predicate AllFit(values: seq<Bytes>, cap: nat) {
    forall i :: 0 <= i < |values| ==> |values[i]| <= cap
  }

  /** `log` holds every value ever stored under the key, oldest first. Versions are unique, so a version is
      the number of values stored up to it; 0 stands for no version. `env` is the behaviour of the other
      clients, for any number of requests to come. */
  class Store {
    const capacity: nat
    var log: seq<Bytes>
    var env: seq<Event>

    ghost predicate Valid()
      reads this
    {
      AllFit(log, capacity) && forall i :: 0 <= i < |env| ==> AllFit(env[i].foreign, capacity)
    }

    /** Nobody else puts. */
    ghost predicate Quiet()
      reads this
    {
      forall i :: 0 <= i < |env| ==> env[i].foreign == []
    }

    /** No request fails. */
    ghost predicate Calm()
      reads this
    {
      forall i :: 0 <= i < |env| ==> env[i].fate == Answered
    }

    /** The value stored last. */
    ghost function Latest(): Bytes
      reads this
    {
      if log == [] then [] else log[|log| - 1]
    }

    constructor (capacity: nat, env: seq<Event>)
      requires forall i :: 0 <= i < |env| ==> AllFit(env[i].foreign, capacity)
      ensures Valid() && this.capacity == capacity && log == [] && this.env == env
    {
      this.capacity, this.env, log := capacity, env, [];
    }

    method Interact() returns (fate: Fate)
      requires Valid()
      modifies this
      ensures Valid() && old(log) <= log && |env| <= old(|env|)
      ensures log != old(log) || fate != Answered ==> |env| < old(|env|)
      ensures old(Quiet()) ==> Quiet() && log == old(log)
      ensures old(Calm()) ==> Calm() && fate == Answered
    {
      fate := Answered;
      if env != [] {
        log, fate, env := log + env[0].foreign, env[0].fate, env[1..];
      }
    }

    method GetVersion() returns (status: GetStatus, version: nat)
      requires Valid()
      modifies this
      ensures Valid() && old(log) <= log && |env| <= old(|env|)
      ensures status == GetOk ==> version == |log| > 0
      ensures status == GetNotFound ==> log == []
      ensures old(Quiet()) ==> Quiet() && log == old(log)
      ensures old(Calm()) ==> Calm() && status != GetIoError
    {
      var fate := Interact();
      if fate != Answered {
        return GetIoError, 0;
      }
      if |log| == 0 {
        return GetNotFound, 0;
      }
      return GetOk, |log|;
    }

    method Get() returns (status: GetStatus, version: nat, value: Bytes)
      requires Valid()
      modifies this
      ensures Valid() && old(log) <= log && |env| <= old(|env|)
      ensures status == GetOk ==> version == |log| > 0 && value == log[version - 1]
      ensures status == GetNotFound ==> log == []
      ensures old(Quiet()) ==> Quiet() && log == old(log)
      ensures old(Calm()) ==> Calm() && status != GetIoError
    {
      var fate := Interact();
      if fate != Answered {
        return GetIoError, 0, [];
      }
      if |log| == 0 {
        return GetNotFound, 0, [];
      }
      return GetOk, |log|, log[|log| - 1];
    }

    /** A conditional put: it succeeds exactly if nothing was stored since `expected`. If it is reported as an error,
        it has taken effect or not. */
    method Put(expected: nat, value: Bytes) returns (status: PutStatus, ghost prior: seq<Bytes>)
      requires Valid() && |value| <= capacity
      modifies this
      ensures Valid() && old(log) <= prior && |env| <= old(|env|)
      ensures status == PutOk ==> |prior| == expected && log == prior + [value]
      ensures status == PutMismatch ==> expected != |prior| && log == prior
      ensures status == PutIoError ==> log == prior || (|prior| == expected && log == prior + [value])
      ensures prior != old(log) ==> |env| < old(|env|)
      ensures old(Quiet()) ==> Quiet() && prior == old(log)
      ensures old(Calm()) ==> Calm() && status != PutIoError
    {
      var fate := Interact();
      prior := log;
      if fate != Answered {
        if fate == LostAnswer && expected == |log| {
          log := log + [value];
        }
        return PutIoError, prior;
      }
      if expected != |log| {
        return PutMismatch, prior;
      }
      log := log + [value];
      status := PutOk;
    }
  }

  datatype Mode = STANDARD | CREATE
  datatype Result<T> = Ok(value: T) | InvalidArgument | IoError

  class DataBlock {
    const store: Store
    const mode: Mode
    var version: nat
    var remote: Option<Bytes>
    var local: Option<Bytes>
    var valueSize: nat
    var updates: seq<(nat, nat)>
    /** The time of the last verification is set: the block was created new, fetched, verified or flushed. */
    var verified: bool
    /** The pending writes with their data; `updates` records only where they went. */
    ghost var writes: seq<Write>

    /** The value of the version the block is based on. */
    ghost function Base(): Bytes
      requires version <= |store.log|
      reads this, store
    {
      if version == 0 then [] else store.log[version - 1]
    }

    ghost function Strings(): Contents
      reads this
    {
      Contents(remote, local, valueSize)
    }

    ghost predicate Valid()
      reads this, store
    {
      && store.Valid() && version <= |store.log| && Recorded(store.capacity, writes, updates)
      && Strings().Shows(store.capacity, Base(), writes)
    }

    /** The block shows the newest value overlaid by its pending writes. */
    ghost predicate Current()
      requires Valid()
      reads this, store
    {
      IsOverlay(store.Latest(), writes, Strings().View(store.capacity))
    }

    /** Nobody else puts, and the block is current once it has been verified, as a new one is. It need not be based on
        the newest version: that may be its own, from a put that was reported as an error. */
    ghost predicate Alone()
      reads this, store
    {
      store.Quiet() && Kept() && (mode == CREATE ==> verified)
    }

    ghost predicate Kept()
      reads this, store
    {
      verified && Valid() ==> Current()
    }

    lemma {:induction false} NewestIsKept()
      requires version == |store.log|
      ensures Kept() && (Valid() ==> Current())
    {
    }

    /** What holds even after a write of length 0, which Valid does not allow for. */
    ghost predicate Usable()
      reads this, store
    {
      && store.Valid() && version <= |store.log| && Strings().Fits(store.capacity)
      && (updates != [] ==> local.Some? && Within(updates, store.capacity, |local.value|))
      && (version == 0 && updates == [] ==> valueSize == 0)
    }

    lemma {:induction false} ValidIsUsable()
      requires Valid()
      ensures Usable()
    {
      if local.Some? {
        ShownWritesAreHeld(Strings(), store.capacity, Base(), writes);
        RecordedWithin(store.capacity, local.value, writes, updates);
      }
    }

    /** What the block holds: the base overlaid by the pending writes. */
    ghost function View(): (v: Bytes)
      requires Valid()
      reads this, store
      ensures IsOverlay(Base(), writes, v)
    {
      Strings().View(store.capacity)
    }

    lemma {:induction false} ViewFits()
      requires Valid()
      ensures |View()| <= store.capacity
    {
      SizeWithin(|Base()|, writes, store.capacity);
    }

    constructor (store: Store, mode: Mode)
      requires store.Valid()
      ensures Valid() && this.store == store && this.mode == mode && version == 0 && writes == [] && fresh(this)
      ensures verified == (mode == CREATE)
    {
      this.store, this.mode, verified := store, mode, mode == CREATE;
      version, remote, local, valueSize, updates, writes := 0, None, None, 0, [], [];
    }

    /** Other clients may put between any two calls; the block stays valid and shows the same. */
    twostate lemma ForeignPutsKeep()
      requires old(Valid()) && store.Valid()
      requires unchanged(this) && old(store.log) <= store.log
      ensures Valid() && Base() == old(Base()) && View() == old(View())
    {
    }

    /** `recent`: the last verification is less than a second ago. Only then the cluster is not asked; otherwise the
        block is found valid if and only if it is based on the newest version. */
    method ValidateVersion(recent: bool) returns (r: bool)
      requires Valid()
      modifies this`verified, store
      ensures Valid() && old(store.log) <= store.log && |store.env| <= old(|store.env|)
      ensures Base() == old(Base()) && View() == old(View())
      ensures old(Alone()) ==> Alone() && store.log == old(store.log) && (r ==> Current())
      ensures old(store.Calm()) ==> store.Calm()
      ensures r && !(recent && old(verified)) ==> version == |store.log| && Current()
      ensures recent && old(verified) ==> r && unchanged(this) && unchanged(store)
      ensures verified == (r || old(verified))
      ensures !r && old(store.Calm()) ==> version != |store.log| || (version == 0 && mode == STANDARD)
    {
      if recent && verified {
        return true;
      }
      if version == 0 && mode == STANDARD {
        return false;
      }
      var status, current := store.GetVersion();
      r := (version == 0 && status == GetNotFound) || (status == GetOk && version != 0 && version == current);
      if r {
        verified := true;
        if version == |store.log| { NewestIsKept(); }
      }
    }

    /** Fetch the current value and bring the pending writes on top of it. An update of length 0 cuts the value. */
    method GetRemoteValue() returns (r: Result<()>)
      requires Usable()
      modifies this, store
      ensures Usable() && old(store.log) <= store.log && |store.env| <= old(|store.env|)
      ensures updates == old(updates) && writes == old(writes)
      ensures r.Ok? ==> version == |store.log| && verified
      ensures r.Ok? && store.log != [] ==> valueSize == MergedSize(|store.Latest()|, updates)
      ensures old(Alone()) ==> Alone() && store.log == old(store.log)
      ensures !r.Ok? ==> r == IoError && version == old(version) && verified == old(verified)
      ensures old(Valid()) ==> Valid()
      ensures !r.Ok? && old(Valid()) ==> View() == old(View())
      ensures old(store.Calm()) ==> store.Calm() && r.Ok?
      ensures old(version) != 0 ==> version != 0
    {
      var status, current, value := Fetch();
      if status == GetIoError {
        return IoError;
      }
      verified := true;
      if status == GetNotFound {
        AdoptNothing();
      } else {
        Adopt(current, value);
      }
      NewestIsKept();
      r := Ok(());
    }

    /** The stored value; what the block shows stays the same. */
    method Fetch() returns (status: GetStatus, current: nat, value: Bytes)
      requires Usable()
      modifies store
      ensures Usable() && old(store.log) <= store.log && |store.env| <= old(|store.env|)
      ensures status == GetOk ==> current == |store.log| > 0 && value == store.log[current - 1]
      ensures status == GetNotFound ==> store.log == []
      ensures old(store.Quiet()) ==> store.Quiet() && store.log == old(store.log)
      ensures old(Valid()) ==> Valid() && View() == old(View())
      ensures old(store.Calm()) ==> store.Calm() && status != GetIoError
    {
      status, current, value := store.Get();
      if old(Valid()) { ForeignPutsKeep(); }
    }

    /** Nothing is stored: the local value, if there are updates, can be left alone. */
    method AdoptNothing()
      requires Usable() && store.log == []
      modifies this`version, this`local
      ensures Usable() && version == 0 && (old(Valid()) ==> Valid())
    {
      version := 0;
      if |updates| == 0 {
        local := None;
      }
    }

    /** A value was fetched: without updates it is served as it is, otherwise they are merged into it. */
    method Adopt(current: nat, value: Bytes)
      requires Usable() && current == |store.log| > 0 && value == store.log[current - 1]
      modifies this`version, this`remote, this`valueSize, this`local
      ensures Usable() && version == |store.log| && valueSize == MergedSize(|value|, updates)
      ensures old(Valid()) ==> Valid()
    {
      if |updates| == 0 {
        AdoptAll(current, value);
      } else {
        AdoptBelow(current, value);
      }
    }

    method AdoptAll(current: nat, value: Bytes)
      requires Usable() && current == |store.log| > 0 && value == store.log[current - 1] && updates == []
      modifies this`version, this`remote, this`valueSize, this`local
      ensures Usable() && version == |store.log| && valueSize == |value|
      ensures old(Valid()) ==> Valid()
    {
      version, remote, valueSize := current, Some(value), |value|;
      local := None;
    }

    method AdoptBelow(current: nat, value: Bytes)
      requires Usable() && current == |store.log| > 0 && value == store.log[current - 1] && updates != []
      modifies this`version, this`remote, this`valueSize, this`local
      ensures Usable() && version == |store.log| && valueSize == MergedSize(|value|, updates)
      ensures old(Valid()) ==> Valid()
    {
      if Valid() { ShownWritesAreHeld(Strings(), store.capacity, Base(), writes); }
      version, remote, valueSize := current, Some(value), |value|;
      MergeFetched();
    }

    method MergeFetched()
      requires store.Valid() && 0 < version <= |store.log| && remote == Some(Base()) && local.Some? && updates != []
      requires Within(updates, store.capacity, |local.value|)
      modifies this`valueSize, this`remote, this`local
      ensures Usable() && valueSize == MergedSize(|Base()|, updates)
      ensures Recorded(store.capacity, writes, updates) && HoldsWrites(old(local.value), writes) ==> Valid()
    {
      var merged, size := MergeUpdates(store.capacity, remote.value, local.value, updates, writes);
      MergedWithin(|remote.value|, updates, store.capacity, |local.value|);
      if Recorded(store.capacity, writes, updates) && HoldsWrites(local.value, writes) {
        RecordedSize(store.capacity, |remote.value|, writes, updates);
        MergedShows(store.capacity, remote.value, writes, updates, merged);
      }
      valueSize, remote, local := size, None, Some(merged);
    }

    method Refresh(recent: bool) returns (r: Result<()>)
      requires Valid()
      modifies this, store
      ensures Valid() && old(store.log) <= store.log && writes == old(writes)
      ensures r.Ok? || r == IoError
      ensures old(Alone()) ==> Alone() && store.log == old(store.log) && (r.Ok? ==> Current())
      ensures old(store.Calm()) ==> store.Calm() && r.Ok?
      ensures old(version) != 0 ==> version != 0
      ensures r.Ok? && !(recent && old(verified)) ==> version == |store.log| && Current()
      ensures recent && old(verified) ==> r.Ok? && unchanged(this) && unchanged(store)
      ensures verified == (r.Ok? || old(verified))
    {
      var valid := ValidateVersion(recent);
      if valid {
        return Ok(());
      }
      ValidIsUsable();
      r := GetRemoteValue();
    }

    /** A write of length 0 to a block without pending writes, and then a fetch: whatever other clients have stored, the
        block shows no more than `offset` bytes of it. */
    method EmptyWriteTruncates(offset: nat) returns (r: Result<()>)
      requires Valid() && updates == [] && offset <= store.capacity
      modifies this, store
      ensures r.Ok? && store.log != [] ==> version == |store.log| && valueSize == offset
    {
      var written := Write(offset, []);
      r := GetRemoteValue();
      assert updates[..0] == [];
    }

    /** Any read up to the capacity is legal; NUL is returned where the value has ended. Unless the block was verified
        less than a second ago, what is read is the newest value overlaid by the pending writes, whoever stored it. */
    method Read(offset: nat, length: nat, recent: bool) returns (r: Result<Bytes>)
      requires Valid()
      modifies this, store
      ensures Valid() && old(store.log) <= store.log && writes == old(writes)
      ensures r == InvalidArgument <==> offset + length > store.capacity
      ensures r.Ok? ==> r.value == ReadOf(View(), offset, length)
      ensures verified == (r.Ok? || old(verified))
      ensures old(Alone()) ==> Alone() && store.log == old(store.log) && (r.Ok? ==> Current())
      ensures old(store.Calm()) ==> store.Calm() && r != IoError
      ensures old(version) != 0 ==> version != 0
      ensures r.Ok? && !(recent && old(verified)) ==> version == |store.log| && Current()
      ensures recent && old(verified) ==> unchanged(this) && unchanged(store)
    {
      if offset + length > store.capacity {
        return InvalidArgument;
      }
      var fetched := Refresh(recent);
      if !fetched.Ok? {
        return IoError;
      }
      var buffer := Repeat('\0', length);
      if valueSize > offset {
        var n := if length < valueSize - offset then length else valueSize - offset;
        var source := if local.Some? then local.value else remote.value;
        buffer := CopyOver(source[offset..offset + n], buffer);
      }
      assert buffer == ReadOf(View(), offset, length);
      r := Ok(buffer);
    }

    /** In memory only. A write of length 0 is recorded as (offset, 0), which the merge takes for a truncation: it
        leaves the states for which Valid speaks, see MergeKeepsSizeExactly. */
    method Write(offset: nat, data: Bytes) returns (r: Result<()>)
      requires Valid()
      modifies this
      ensures version == old(version) && verified == old(verified) && (r.Ok? || r == InvalidArgument)
      ensures r == InvalidArgument <==> offset + |data| > store.capacity
      ensures r == InvalidArgument ==> Valid() && writes == old(writes) && View() == old(View())
      ensures r.Ok? && data != [] ==> Valid() && writes == old(writes) + [Written(offset, data)]
      ensures r.Ok? && data != [] ==> IsOverlay(old(View()), [Written(offset, data)], View())
      ensures r.Ok? && data == [] ==> Emptied(old(Strings()), Strings(), store.capacity, offset)
      ensures r.Ok? ==> Usable() && updates == old(updates) + [(offset, |data|)]
      ensures old(Alone()) ==> Alone()
    {
      if offset + |data| > store.capacity {
        return InvalidArgument;
      }
      if Current() { WriteStaysCurrent(offset, data); }
      WriteWithinCapacity(offset, data);
      r := Ok(());
    }

    /** A block that is current stays so. */
    lemma {:induction false} WriteStaysCurrent(offset: nat, data: Bytes)
      requires Valid() && Current() && offset + |data| <= store.capacity
      ensures |View()| <= store.capacity && data != [] ==>
        AfterWrite(Strings(), store.capacity, offset, data).Shows(
          store.capacity, store.Latest(), writes + [Written(offset, data)])
    {
      ViewFits();
      WriteResult(Strings(), store.capacity, store.Latest(), writes, offset, data);
    }

    method WriteWithinCapacity(offset: nat, data: Bytes)
      requires Valid() && offset + |data| <= store.capacity
      modifies this`valueSize, this`local, this`remote, this`updates, this`writes
      ensures Usable() && updates == old(updates) + [(offset, |data|)]
      ensures data != [] ==> Valid() && writes == old(writes) + [Written(offset, data)]
      ensures data != [] ==> IsOverlay(old(View()), [Written(offset, data)], View())
      ensures data == [] ==> Emptied(old(Strings()), Strings(), store.capacity, offset)
      ensures Strings() == AfterWrite(old(Strings()), store.capacity, offset, data) && (data == [] ==> !Valid())
    {
      ViewFits();
      ValidIsUsable();
      WriteResult(Strings(), store.capacity, Base(), writes, offset, data);
      WriteWithin(Strings(), store.capacity, updates, offset, data);
      if data != [] { RecordedGrows(store.capacity, writes, updates, Written(offset, data)); }
      SpliceIn(offset, data);
    }

    method SpliceIn(offset: nat, data: Bytes)
      requires Strings().Fits(store.capacity) && offset + |data| <= store.capacity && valueSize <= store.capacity
      modifies this`valueSize, this`local, this`remote, this`updates, this`writes
      ensures Strings() == AfterWrite(old(Strings()), store.capacity, offset, data)
      ensures local.Some? && |local.value| == |old(Strings()).Prepared(store.capacity, valueSize)|
      ensures valueSize == Max(offset + |data|, old(valueSize)) && updates == old(updates) + [(offset, |data|)]
      ensures writes == if data == [] then old(writes) else old(writes) + [Written(offset, data)]
    {
      var size := Max(offset + |data|, valueSize);
      var l := Contents(remote, local, valueSize).Prepared(store.capacity, size);
      valueSize, local, remote := size, Some(Splice(l, offset, data)), None;
      updates, writes := updates + [(offset, |data|)], if data == [] then writes else writes + [Written(offset, data)];
    }

    /** Make the string to be stored exactly as long as the value. */
    method Trim()
      requires Valid()
      modifies this`local, this`remote
      ensures Valid() && View() == old(View()) && (local.None? ==> remote.Some?)
      ensures View() == if local.Some? then local.value else remote.value
    {
      if local.Some? {
        ghost var view := View();
        if valueSize != |local.value| {
          local := Some(Resize(local.value, valueSize));
        }
        assert local.value == view && local.value[..valueSize] == view;
      } else if remote.None? {
        remote := Some([]);
      }
    }

    /** One conditional put of the current view. */
    method PutView() returns (status: PutStatus, ghost prior: seq<Bytes>)
      requires Valid()
      modifies this, store
      ensures Valid() && old(store.log) <= prior && |store.env| <= old(|store.env|)
      ensures prior != old(store.log) ==> |store.env| < old(|store.env|)
      ensures status == PutMismatch ==> old(version) != |prior|
      ensures status == PutOk ==>
        && |prior| == old(version) && store.log == prior + [old(View())]
        && version == |store.log| && writes == [] && verified && View() == old(View())
      ensures status == PutMismatch ==> store.log == prior
      ensures status == PutIoError ==>
        store.log == prior || (|prior| == old(version) && store.log == prior + [old(View())])
      ensures status != PutOk ==> writes == old(writes) && version == old(version) && View() == old(View())
      ensures old(Alone()) ==> Alone() && prior == old(store.log)
      ensures old(store.Calm()) ==> store.Calm() && status != PutIoError
    {
      ViewFits();
      Trim();
      status, prior := PutTrimmed();
    }

    method PutTrimmed() returns (status: PutStatus, ghost prior: seq<Bytes>)
      requires Valid() && (local.None? ==> remote.Some?) && |View()| <= store.capacity
      requires View() == if local.Some? then local.value else remote.value
      modifies this, store
      ensures Valid() && old(store.log) <= prior && |store.env| <= old(|store.env|)
      ensures prior != old(store.log) ==> |store.env| < old(|store.env|)
      ensures status == PutMismatch ==> old(version) != |prior|
      ensures status == PutOk ==>
        && |prior| == old(version) && store.log == prior + [old(View())]
        && version == |store.log| && writes == [] && verified && View() == old(View())
      ensures status == PutMismatch ==> store.log == prior
      ensures status == PutIoError ==>
        store.log == prior || (|prior| == old(version) && store.log == prior + [old(View())])
      ensures status != PutOk ==> writes == old(writes) && version == old(version) && View() == old(View())
      ensures old(Alone()) ==> Alone() && prior == old(store.log)
      ensures old(store.Calm()) ==> store.Calm() && status != PutIoError
    {
      status, prior := store.Put(version, if local.Some? then local.value else remote.value);
      if status == PutOk {
        version, updates, verified, writes := version + 1, [], true, [];
        NewestIsKept();
      } else {
        SelfOverlay(Base(), writes, View());
      }
    }

    /** Behind `prior` one value is stored: the last one of `prior`, overlaid by the writes. */
    ghost predicate Stores(prior: seq<Bytes>, writes: seq<Write>)
      reads store
    {
      && |store.log| == |prior| + 1 && store.log[..|prior|] == prior
      && IsOverlay(if prior == [] then [] else prior[|prior| - 1], writes, store.log[|prior|])
    }

    /** Put until no other put came in between; every mismatch is answered by fetching and merging anew.
        On success the value stored replaces exactly the version it was merged onto: `prior` is everything stored
        before, foreign puts included, and the new value is its last entry overlaid by the pending writes. On an error
        the same value is stored or nothing is, and the writes stay pending. */
    method Flush() returns (r: Result<()>, ghost prior: seq<Bytes>)
      requires Valid()
      modifies this, store
      ensures Valid() && old(store.log) <= prior
      ensures r.Ok? ==>
        && Stores(prior, old(writes)) && version == |store.log| && View() == store.log[|prior|]
        && writes == [] && verified
      ensures !r.Ok? ==> r == IoError && writes == old(writes)
      ensures !r.Ok? ==> store.log == prior || Stores(prior, old(writes))
      ensures old(Alone()) ==> Alone() && prior == old(store.log)
      ensures old(store.Calm()) ==> store.Calm() && r.Ok?
      ensures old(version) != 0 ==> version != 0
    {
      var mismatch := false;
      while true
        invariant Valid() && writes == old(writes) && old(store.log) <= store.log
        invariant old(Alone()) ==> Alone() && store.log == old(store.log)
        invariant old(store.Calm()) ==> store.Calm()
        invariant old(version) != 0 ==> version != 0
        decreases |store.env|, !mismatch
      {
        var status;
        status, prior := FlushOnce(mismatch);
        if status == PutOk {
          return Ok(()), prior;
        }
        if status != PutMismatch {
          return IoError, prior;
        }
        mismatch := true;
      }
    }

    /** One round: fetch and merge if needed, then put. A second mismatch in a row needs another foreign put. */
    method FlushOnce(mismatch: bool) returns (status: PutStatus, ghost prior: seq<Bytes>)
      requires Valid()
      modifies this, store
      ensures Valid() && old(store.log) <= prior && |store.env| <= old(|store.env|)
      ensures status == PutMismatch && mismatch ==> |store.env| < old(|store.env|)
      ensures status == PutOk ==>
        && Stores(prior, old(writes)) && version == |store.log| && View() == store.log[|prior|]
        && writes == [] && verified
      ensures status == PutMismatch ==> store.log == prior
      ensures status == PutIoError ==> store.log == prior || Stores(prior, old(writes))
      ensures status != PutOk ==> writes == old(writes)
      ensures old(Alone()) ==> Alone() && prior == old(store.log)
      ensures old(store.Calm()) ==> store.Calm() && status != PutIoError
      ensures old(version) != 0 ==> version != 0
    {
      var ok := FetchToFlush(mismatch);
      if !ok {
        return PutIoError, store.log;
      }
      status, prior := PutOverlay();
    }

    /** One put, of the value it replaces overlaid by the pending writes. */
    method PutOverlay() returns (status: PutStatus, ghost prior: seq<Bytes>)
      requires Valid()
      modifies this, store
      ensures Valid() && old(store.log) <= prior && |store.env| <= old(|store.env|)
      ensures status == PutMismatch && old(version) == old(|store.log|) ==> |store.env| < old(|store.env|)
      ensures status == PutOk ==>
        && Stores(prior, old(writes)) && version == |store.log| && View() == store.log[|prior|]
        && writes == [] && verified
      ensures status == PutMismatch ==> store.log == prior
      ensures status == PutIoError ==> store.log == prior || Stores(prior, old(writes))
      ensures status != PutOk ==> writes == old(writes)
      ensures old(Alone()) ==> Alone() && prior == old(store.log)
      ensures old(store.Calm()) ==> store.Calm() && status != PutIoError
      ensures old(version) != 0 ==> version != 0
    {
      ghost var base, view := Base(), View();
      status, prior := PutView();
      assert |prior| == old(version) ==> base == if prior == [] then [] else prior[|prior| - 1];
    }

    /** Before a put: fetch after a mismatch, or if nothing was ever fetched of a block that should exist. */
    method FetchToFlush(mismatch: bool) returns (ok: bool)
      requires Valid()
      modifies this, store
      ensures Valid() && old(store.log) <= store.log && |store.env| <= old(|store.env|) && writes == old(writes)
      ensures mismatch && ok ==> version == |store.log|
      ensures old(Alone()) ==> Alone() && store.log == old(store.log)
      ensures old(store.Calm()) ==> store.Calm() && ok
      ensures old(version) != 0 ==> version != 0
    {
      ok := true;
      if mismatch || (version == 0 && mode == STANDARD) {
        ValidIsUsable();
        var fetched := GetRemoteValue();
        ok := fetched.Ok?;
      }
    }

    /** Unflushed changes, or a block that was created and never stored. */
    method Dirty() returns (r: bool)
      requires Valid()
      ensures r <==> writes != [] || (version == 0 && mode == CREATE)
    {
      r := |updates| != 0 || (version == 0 && mode == CREATE);
    }

    /** The larger of the base size and the ends of the pending writes. */
    method Size(recent: bool) returns (r: Result<nat>)
      requires Valid()
      modifies this, store
      ensures Valid() && old(store.log) <= store.log && writes == old(writes)
      ensures r.Ok? ==> r.value == |View()| == SizeOf(|Base()|, writes)
      ensures verified == (r.Ok? || old(verified))
      ensures old(Alone()) ==> Alone() && store.log == old(store.log) && (r.Ok? ==> Current())
      ensures old(store.Calm()) ==> store.Calm() && r.Ok?
      ensures old(version) != 0 ==> version != 0
      ensures r.Ok? && !(recent && old(verified)) ==> version == |store.log| && Current()
      ensures recent && old(verified) ==> unchanged(this) && unchanged(store)
    {
      var fetched := Refresh(recent);
      if !fetched.Ok? {
        return IoError;
      }
      r := Ok(valueSize);
    }
  }

  /** `s` over the start of `buffer`. */
  function CopyOver(s: Bytes, buffer: Bytes): (r: Bytes)
    requires |s| <= |buffer|
    ensures |r| == |buffer|
  {
    s + buffer[|s|..]
  }

  /** length bytes from offset, NUL where the value has ended. */
  function ReadOf(v: Bytes, offset: nat, length: nat): (r: Bytes)
    ensures |r| == length
    ensures forall i :: 0 <= i < length ==> r[i] == if offset + i < |v| then v[offset + i] else '\0'
  {
    seq(length, i requires 0 <= i < length => if offset + i < |v| then v[offset + i] else '\0')
  }
}
