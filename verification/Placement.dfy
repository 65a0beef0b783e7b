/** Which drives a stripe and its fallback keys go to. The key's hash is an arbitrary 32-bit number. */
module Placement {
  import opened Sequences

  /** The drive index is computed in 32 bits. */
  const WIDTH: nat := 0x1_0000_0000

  /** The remainder, by counting down; ModIsRemainder says that it is the usual one. */
  function Mod(a: nat, n: nat): (r: nat)
    requires n > 0
    ensures r < n
  {
    if a < n then a else Mod(a - n, n)
  }

  /** The first drive picked for a hash and an offset. */
  function First(hash: nat, offset: nat, n: nat): (d: nat)
    requires n > 0
    ensures d < n
  {
    Mod(Mod(Mod(hash + offset, WIDTH) + 1, WIDTH), n)
  }

  /** k steps around the ring of n drives. */
  function Around(d: nat, k: nat, n: nat): (r: nat)
    requires d < n
    ensures r < n
  {
    if k == 0 then d else var p := Around(d, k - 1, n); if p + 1 == n then 0 else p + 1
  }

  /** The drives of an expansion by `size` operations. */
  function Drives(hash: nat, size: nat, offset: nat, n: nat): seq<nat>
    requires n > 0
  {
    seq(size, k requires 0 <= k => Around(First(hash, offset, n), k, n))
  }

  // ----- arithmetic around the ring

  lemma {:induction false} ModIsRemainder(a: nat, n: nat)
    requires n > 0
    ensures Mod(a, n) == a % n
  {
    if a >= n {
      ModIsRemainder(a - n, n);
      RemainderUnique(a, n, (a - n) / n + 1, (a - n) % n);
    }
  }

  lemma {:induction false} RemainderUnique(a: nat, n: nat, q: int, r: nat)
    requires r < n && a == n * q + r
    ensures a % n == r
  {
    var k := q - a / n;
    assert a == n * (a / n) + a % n;
    assert n * k == a % n - r;
    if k >= 1 { MultipleIsLarge(n, k); }
    if k <= -1 {
      MultipleIsLarge(n, -k);
    }
  }

  lemma MultipleIsLarge(n: nat, k: int)
    requires k >= 1
    ensures n * k >= n
  {
  }

  lemma {:induction false} ModAdd(a: nat, b: nat, n: nat)
    requires n > 0
    ensures Mod(Mod(a, n) + b, n) == Mod(a + b, n)
  {
    if a >= n { ModAdd(a - n, b, n); }
  }

  lemma {:induction false} AroundIsMod(a: nat, k: nat, n: nat)
    requires n > 0
    ensures Around(Mod(a, n), k, n) == Mod(a + k, n)
    decreases k
  {
    if k > 0 {
      AroundIsMod(a, k - 1, n);
      ModAdd(a + k - 1, 1, n);
    }
  }

  /** Less than a full turn never comes back. */
  lemma {:induction false} AroundMoves(d: nat, k: nat, n: nat)
    requires d < n && k <= n
    ensures Around(d, k, n) == if d + k < n then d + k else d + k - n
    decreases k
  {
    if k > 0 { AroundMoves(d, k - 1, n); }
  }

  lemma {:induction false} AroundAdds(d: nat, j: nat, k: nat, n: nat)
    requires d < n
    ensures Around(d, j + k, n) == Around(Around(d, j, n), k, n)
    decreases k
  {
    if k > 0 { AroundAdds(d, j, k - 1, n); }
  }

  /** Adding w keeps the residue exactly if w is whole turns. */
  lemma {:induction false} SameResidue(a: nat, w: nat, n: nat)
    requires n > 0
    ensures Mod(a + w, n) == Mod(a, n) <==> Mod(w, n) == 0
  {
    ModAdd(a, w, n);
    ModAdd(w, Mod(a, n), n);
  }

  // ----- stripes

  /** A stripe no larger than the drive count lands on pairwise distinct drives. */
  lemma {:induction false} StripeIsSpread(hash: nat, size: nat, offset: nat, n: nat)
    requires n > 0
    ensures Distinct(Drives(hash, size, offset, n)) <==> size <= n
  {
    var d, s := First(hash, offset, n), Drives(hash, size, offset, n);
    if size <= n {
      forall i, j | 0 <= i < j < size ensures s[i] != s[j] {
        AroundMoves(d, i, n);
        AroundMoves(d, j, n);
      }
    } else {
      AroundMoves(d, n, n);
      assert s[0] == s[n];
    }
  }

  /** Does the 32-bit sum pass its limit between an expansion at `offset` and one `more` further on? */
  predicate WrapsBetween(hash: nat, offset: nat, more: nat) {
    Mod(hash + offset + 1, WIDTH) + more >= WIDTH
  }

  /** The first drive, `more` operations further on. */
  lemma {:induction false} FirstAt(hash: nat, offset: nat, more: nat, n: nat)
    requires n > 0 && more < WIDTH
    ensures var a := Mod(hash + offset + 1, WIDTH);
      First(hash, offset + more, n) == Mod(if a + more < WIDTH then a + more else a + more - WIDTH, n)
  {
    ModAdd(hash + offset + more, 1, WIDTH);
    ModAdd(hash + offset + 1, more, WIDTH);
  }

  lemma {:induction false} FirstMoves(hash: nat, offset: nat, more: nat, n: nat)
    requires n > 0 && more < WIDTH
    ensures First(hash, offset + more, n) == Around(First(hash, offset, n), more, n)
      <==> !WrapsBetween(hash, offset, more) || Mod(WIDTH, n) == 0
  {
    var a := Mod(hash + offset + 1, WIDTH);
    FirstAt(hash, offset, 0, n);
    FirstAt(hash, offset, more, n);
    AroundIsMod(a, more, n);
    if a + more >= WIDTH {
      SameResidue(a + more - WIDTH, WIDTH, n);
    }
  }

  lemma {:induction false} DrivesJoin(hash: nat, first: nat, more: nat, offset: nat, n: nat)
    requires n > 0 && First(hash, offset + first, n) == Around(First(hash, offset, n), first, n)
    ensures Drives(hash, first, offset, n) + Drives(hash, more, offset + first, n) ==
      Drives(hash, first + more, offset, n)
  {
    var d := First(hash, offset, n);
    var both := Drives(hash, first, offset, n) + Drives(hash, more, offset + first, n);
    forall k | 0 <= k < first + more ensures both[k] == Drives(hash, first + more, offset, n)[k] {
      if k >= first { AroundAdds(d, first, k - first, n); }
    }
  }

  /** Reading the data chunks first and the parities later visits the drives the stripe was written to, exactly if the
      32-bit sum of hash and offset does not wrap in between or the drive count divides 2^32. */
  lemma {:induction false} TwoPhasesAgree(hash: nat, numData: nat, numParity: nat, n: nat)
    requires n > 0 && numParity > 0 && numData < WIDTH
    ensures Drives(hash, numData, 0, n) + Drives(hash, numParity, numData, n) == Drives(hash, numData + numParity, 0, n)
      <==> !WrapsBetween(hash, 0, numData) || Mod(WIDTH, n) == 0
  {
    FirstMoves(hash, 0, numData, n);
    var both := Drives(hash, numData, 0, n) + Drives(hash, numParity, numData, n);
    if First(hash, numData, n) == Around(First(hash, 0, n), numData, n) {
      DrivesJoin(hash, numData, numParity, 0, n);
    } else {
      assert both[numData] != Drives(hash, numData + numParity, 0, n)[numData];
    }
  }

  /** Three drives, two data chunks and one parity: a key with this hash is written to drives 2, 0, 1, but its parity is
      looked up on drive 0. */
  lemma {:induction false} ParityOnWrongDrive()
    ensures var h := 0xFFFF_FFFD;
      && Drives(h, 2, 0, 3) + Drives(h, 1, 2, 3) == [2, 0, 0]
      && Drives(h, 3, 0, 3) == [2, 0, 1]
  {
    var h := 0xFFFF_FFFD;
    ModIsRemainder(0xFFFF_FFFE, 3);
    FirstAt(h, 0, 0, 3);
    FirstAt(h, 0, 2, 3);
    AroundMoves(2, 1, 3);
    AroundMoves(2, 2, 3);
  }

  // ----- the single-key fallback

  /** The drives of `count` single-operation expansions, each offset by the operations made before. */
  function Attempts(hash: nat, made: nat, count: nat, n: nat): (s: seq<nat>)
    requires n > 0
    ensures |s| == count && forall k :: 0 <= k < count ==> s[k] == First(hash, made + k, n)
  {
    if count == 0 then [] else Attempts(hash, made, count - 1, n) + [First(hash, made + count - 1, n)]
  }

  /** n attempts visit every drive once, exactly if the 32-bit sum does not wrap within them or n divides 2^32. */
  lemma {:induction false} FallbackVisitsAll(hash: nat, made: nat, n: nat)
    requires 0 < n < WIDTH
    ensures Distinct(Attempts(hash, made, n, n)) <==> !WrapsBetween(hash, made, n - 1) || Mod(WIDTH, n) == 0
    ensures Distinct(Attempts(hash, made, n, n)) ==> forall d: nat :: d < n ==> d in Attempts(hash, made, n, n)
  {
    var s := Attempts(hash, made, n, n);
    if !WrapsBetween(hash, made, n - 1) || Mod(WIDTH, n) == 0 {
      assert s == Drives(hash, n, made, n) by {
        forall k | 0 <= k < n ensures s[k] == Drives(hash, n, made, n)[k] { FirstMoves(hash, made, k, n); }
      }
      StripeIsSpread(hash, n, made, n);
      forall d: nat | d < n ensures d in s {
        var f := First(hash, made, n);
        var k := if f <= d then d - f else d + n - f;
        AroundMoves(f, k, n);
        assert s[k] == d;
      }
    } else {
      WrappedRepeats(hash, made, n);
    }
  }

  /** The attempts before the wrap end just below the residue of WIDTH and those after it start at 0, so two meet. */
  lemma {:induction false} WrappedRepeats(hash: nat, made: nat, n: nat)
    requires 0 < n < WIDTH && WrapsBetween(hash, made, n - 1) && Mod(WIDTH, n) != 0
    ensures !Distinct(Attempts(hash, made, n, n))
  {
    var s := Attempts(hash, made, n, n);
    var a := Mod(hash + made + 1, WIDTH);
    var l, r := WIDTH - a, Mod(WIDTH, n);
    // counting back from WIDTH, attempt k stands at r - (l - k) as long as this is not negative
    var k := if l <= r then 0 else l - r;
    var v := r - (l - k);
    BackFromWidth(l - k, n);
    FirstAt(hash, made, k, n);
    FirstAt(hash, made, l + v, n);
    assert s[k] == v && s[l + v] == v;
  }

  lemma {:induction false} BackFromWidth(back: nat, n: nat)
    requires 0 < n && back <= Mod(WIDTH, n) && back <= WIDTH
    ensures Mod(WIDTH - back, n) == Mod(WIDTH, n) - back
  {
    ModAdd(WIDTH - back, back, n);
  }

  /** Attempts `after` the operations `before`: one drive after the other, and none but the last one has answered. */
  ghost predicate Trying(answering: set<nat>, hash: nat, before: seq<nat>, after: seq<nat>, n: nat)
    requires n > 0
  {
    && |before| < |after| <= |before| + n && before == after[..|before|]
    && (forall k :: |before| <= k < |after| ==> after[k] == First(hash, k, n))
    && (forall k :: |before| <= k < |after| - 1 ==> after[k] !in answering)
  }

  /** The attempts are over: with an answer, or after n of them. */
  ghost predicate Tried(answering: set<nat>, hash: nat, before: seq<nat>, after: seq<nat>, n: nat, ok: bool)
    requires n > 0
  {
    && Trying(answering, hash, before, after, n)
    && (ok <==> after[|after| - 1] in answering) && (|after| < |before| + n ==> ok)
  }

  lemma {:induction false} FallbackFinds(
      answering: set<nat>, hash: nat, before: seq<nat>, after: seq<nat>, n: nat, ok: bool)
    requires 0 < n < WIDTH && Tried(answering, hash, before, after, n, ok)
    requires !WrapsBetween(hash, |before|, n - 1) || Mod(WIDTH, n) == 0
    ensures ok <==> exists d: nat :: d < n && d in answering
  {
    FallbackVisitsAll(hash, |before|, n);
    if !ok {
      var s := Attempts(hash, |before|, n, n);
      forall d: nat | d < n ensures d !in answering {
        assert d in s;
        var k :| 0 <= k < n && s[k] == d;
        assert after[|before| + k] == d;
      }
    }
  }

  lemma {:induction false} DrivesGrow(hash: nat, k: nat, offset: nat, n: nat)
    requires n > 0
    ensures Drives(hash, k + 1, offset, n) == Drives(hash, k, offset, n) + [Around(First(hash, offset, n), k, n)]
  {
  }

  lemma {:induction false} NextIndex(index: nat, n: nat)
    requires index < n < WIDTH
    ensures Mod(Mod(index + 1, WIDTH), n) == if index + 1 == n then 0 else index + 1
  {
    assert Mod(index + 1, WIDTH) == index + 1;
    assert Mod(0, n) == 0;
  }

  // ----- the operation vector

  class StripeOperation {
    const hash: nat
    const n: nat
    var operations: seq<nat>

    constructor (hash: nat, n: nat)
      requires hash < WIDTH && 0 < n < WIDTH
      ensures this.hash == hash && this.n == n && operations == []
    {
      this.hash, this.n, operations := hash, n, [];
    }

    /** expandOperationVector. */
    method ExpandOperationVector(size: nat, offset: nat)
      requires 0 < n < WIDTH
      modifies this
      ensures operations == old(operations) + Drives(hash, size, offset, n)
    {
      var index := Mod(hash + offset, WIDTH);
      var todo: nat := size;
      ghost var k: nat := 0;
      while todo > 0
        invariant k + todo == size && operations == old(operations) + Drives(hash, k, offset, n)
        invariant index == if k == 0 then Mod(hash + offset, WIDTH) else Around(First(hash, offset, n), k - 1, n)
      {
        if k > 0 { NextIndex(index, n); }
        DrivesGrow(hash, k, offset, n);
        index := Mod(Mod(index + 1, WIDTH), n);
        operations := operations + [index];
        todo, k := todo - 1, k + 1;
      }
    }

    method Attempt() returns (drive: nat)
      requires 0 < n < WIDTH
      modifies this
      ensures drive == First(hash, |old(operations)|, n) && operations == old(operations) + [drive]
    {
      ExpandOperationVector(1, |operations|);
      drive := operations[|operations| - 1];
    }

    /** createSingleKey: attempt after attempt, until a drive gives a valid answer or n attempts were made. Which drives
        answer is up to the outside world; without a wrap the key is placed exactly if one of them does. */
    method CreateSingleKey(answering: set<nat>) returns (ok: bool)
      requires 0 < n < WIDTH
      modifies this
      ensures Tried(answering, hash, old(operations), operations, n, ok)
      ensures !WrapsBetween(hash, |old(operations)|, n - 1) || Mod(WIDTH, n) == 0 ==>
        (ok <==> exists d: nat :: d < n && d in answering)
    {
      ok := TryDrives(answering);
      if !WrapsBetween(hash, |old(operations)|, n - 1) || Mod(WIDTH, n) == 0 {
        FallbackFinds(answering, hash, old(operations), operations, n, ok);
      }
    }

    /** The loop. */
    method TryDrives(answering: set<nat>) returns (ok: bool)
      requires 0 < n < WIDTH
      modifies this
      ensures Tried(answering, hash, old(operations), operations, n, ok)
    {
      ghost var before := operations;
      var last := Attempt();
      var count := 1;
      while last !in answering && count < n
        invariant 0 < count <= n && |operations| == |before| + count && last == operations[|operations| - 1]
        invariant Trying(answering, hash, before, operations, n)
      {
        last := Attempt();
        count := count + 1;
      }
      ok := last in answering;
    }
  }
}
