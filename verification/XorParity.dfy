/** The smallest stripe with a parity, two data chunks and their exclusive or: a code as the others require it, and what
a GET returns of it when the hash wraps. */
module XorParity {
  import opened Sequences
  import opened LinearAlgebra
  import opened Election
  import opened Redundancy
  import opened Striping
  import opened StripeAccess
  import opened Placement
  import opened ClusterAccess

  function Bits(): Ring<bool> {
    Ring(false, true, (a, b) => a != b, (a, b) => a && b)
  }

  function Rows(): Mat<bool> { [[true, false], [false, true], [true, true]] }

  /** Only the rows of chunk 1 and the parity are not their own inverse. */
  function Inverse(B: Mat<bool>): Mat<bool> {
    if B == [[false, true], [true, true]] then [[true, true], [true, false]] else B
  }

  function Xor(): Code<bool> { Code(Bits(), 2, 1, Rows(), Inverse) }

  lemma {:induction false} DotTwo(u: Vec<bool>, v: Vec<bool>)
    requires |u| == |v| == 2
    ensures Dot(Bits(), u, v) == ((u[0] && v[0]) != (u[1] && v[1]))
  {
    assert Dot(Bits(), u[..0], v[..0]) == false;
    assert u[..1][..0] == u[..0] && v[..1][..0] == v[..0];
    assert Dot(Bits(), u[..1], v[..1]) == (u[0] && v[0]);
  }

  lemma {:induction false} TimesRow(u: Vec<bool>, B: Mat<bool>)
    requires |u| == 2 && IsMatrix(B, 2, 2)
    ensures VecMat(Bits(), u, B, 2) == [(u[0] && B[0][0]) != (u[1] && B[1][0]), (u[0] && B[0][1]) != (u[1] && B[1][1])]
  {
    DotTwo(u, Column(B, 2, 0));
    DotTwo(u, Column(B, 2, 1));
  }

  lemma {:induction false} InverseInverts(B: Mat<bool>)
    requires B == [Rows()[0], Rows()[1]] || B == [Rows()[0], Rows()[2]] || B == [Rows()[1], Rows()[2]]
    ensures LeftInverse(Bits(), Inverse(B), B, 2)
  {
    var inv := Inverse(B);
    assert UnitRow(Bits(), 2, 0) == [true, false] && UnitRow(Bits(), 2, 1) == [false, true];
    TimesRow(inv[0], B);
    TimesRow(inv[1], B);
  }

  /** Which chunks survive, in order. */
  lemma {:induction false} Survivors(pattern: seq<bool>)
    requires |pattern| == 3
    ensures Where(pattern, false) ==
      (if pattern[0] then [] else [0]) + (if pattern[1] then [] else [1]) + (if pattern[2] then [] else [2])
    ensures |Where(pattern, true)| + |Where(pattern, false)| == 3
  {
    var a, b, c := pattern[0], pattern[1], pattern[2];
    assert pattern[..0] == [];
    WherePush(pattern, 0, false);
    assert Where(pattern[..1], false) == if a then [] else [0];
    WherePush(pattern, 1, false);
    assert Where(pattern[..2], false) == (if a then [] else [0]) + (if b then [] else [1]);
    WherePush(pattern, 2, false);
    assert pattern[..3] == pattern;
    WherePartition(pattern);
  }

  /** A code with a parity that meets all conditions. */
  lemma {:induction false} XorIsValid()
    ensures Xor().Valid()
  {
    var code := Xor();
    assert UnitRow(Bits(), 2, 0) == [true, false] && UnitRow(Bits(), 2, 1) == [false, true];
    forall pattern {:trigger code.Recoverable(pattern)} | code.Recoverable(pattern)
      ensures LeftInverse(Bits(), Inverse(code.SurvivingRows(pattern)), code.SurvivingRows(pattern), 2)
    {
      Survivors(pattern);
      var w, B := code.Indices(pattern), code.SurvivingRows(pattern);
      assert B == [Rows()[w[0]], Rows()[w[1]]];
      InverseInverts(B);
    }
  }

  /** The stripe of two bits. */
  lemma {:induction false} XorStripe(a: bool, b: bool)
    ensures Xor().Valid() && StripeOf(Xor(), 1, [a, b]) == [[a], [b], [a != b]]
  {
    XorIsValid();
    var code := Xor();
    assert ChunkSize(1, 2) == 1 && UsedChunks(2, 1) == 2;
    var data := DataChunks(false, [a, b], 1, 2);
    assert data == [[a], [b]] by {
      assert Padded(false, [a, b], 2) == [a, b];
      assert data[0] == [a] && data[1] == [b];
    }
    var w := code.Codeword(data, 1);
    code.DataIsPrefix(data, 1);
    assert w[0] == w[..2][0] && w[1] == w[..2][1];
    DotTwo(Rows()[2], Column(data, 1, 0));
    assert w[2] == [a != b];
  }

  ghost function Chunk(chk: Block<bool> -> nat, v: Version, x: bool): Slot<bool> { Holds(v, [x], chk([x])) }

  /** Two answers with chunk 1, one of them in the place of the parity, are what is left of another value. */
  lemma {:induction false} ChunkForParity(chk: Block<bool> -> nat, u: Version, b: bool, first: Answer<bool>)
    requires u.size == 2 && ReplyOf(first) != Found(u)
    ensures Xor().Valid()
    ensures TwoPhase(Xor(), chk, [first, Got(Chunk(chk, u, b)), Got(Chunk(chk, u, b))]) == GetOk(u, [false, b])
  {
    XorStripe(false, b);
    var answers := [first, Got(Chunk(chk, u, b)), Got(Chunk(chk, u, b))];
    FirstPhaseFails(chk, first, answers[1]);
    assert answers[..2] == [first, answers[1]];
    var r, chunks := Replies(answers), Chunks(answers);
    assert r == [ReplyOf(first), Found(u), Found(u)];
    CountThree(r, Found(u));
    MajorityWins(r, u, Elected(r));
    assert chunks[0] == ChunkOf(first) && chunks[1] == chunks[2] == Record(u, [b], chk([b]));
    assert !Good(chk, u, chunks[0]);
    var bad := Bad(chk, u, chunks);
    Survivors(bad);
    assert bad == [true, false, false];
    RebuiltExactly(Xor(), 1, chk, u, [false, b], chunks);
  }

  lemma {:induction false} FirstPhaseFails(chk: Block<bool> -> nat, x: Answer<bool>, y: Answer<bool>)
    requires Xor().Valid() && ReplyOf(x) != ReplyOf(y)
    ensures Attempt(Xor(), chk, [x, y]) == GetFailed
  {
    var r := Replies([x, y]);
    assert r == [ReplyOf(x), ReplyOf(y)];
    CountAll(r, NotFound);
    var vc := Elected(r);
    if vc.version.Some? { CountAll(r, Found(vc.version.value)); }
  }

  /** Three drives, and a hash that wraps on the way to the parity: chunks 0, 1 and the parity are on drives 2, 0 and 1,
      but the parity is asked of drive 0. */
  function Wrapped(): Layout { Layout(0xFFFF_FFFD, 3) }

  lemma {:induction false} WrappedDrives()
    ensures Wrapped().Homes(3) == [2, 0, 1] && Wrapped().Asked(2, 1) == [2, 0, 0]
    ensures !Wrapped().Straight(2, 1)
  {
    ParityOnWrongDrive();
    Wrapped().AskedAreHomes(2, 1);
  }

  /** A complete PUT of [true, b], and only the drive of chunk 0 silent: the GET returns [false, b], with status OK. */
  lemma {:induction false} WrongValue(chk: Block<bool> -> nat, v: Version, b: bool)
    requires v.size == 2
    ensures Xor().Valid()
    ensures var cluster, reach := [Chunk(chk, v, b), Chunk(chk, v, !b), Chunk(chk, v, true)], [true, true, false];
      && FullyWritten(Xor(), 1, chk, v, [true, b], Pick(cluster, Wrapped().Homes(3)))
      && |Where(reach, false)| == 1
      && Get(Xor(), chk, Wrapped(), cluster, reach) == GetOk(v, [false, b])
  {
    var cluster, reach := [Chunk(chk, v, b), Chunk(chk, v, !b), Chunk(chk, v, true)], [true, true, false];
    XorStripe(true, b);
    WrappedDrives();
    Survivors(reach);
    ChunkForParity(chk, v, b, NoAnswer);
    assert AnswersOf(cluster, reach, [2, 0, 0]) == [NoAnswer, Got(Chunk(chk, v, b)), Got(Chunk(chk, v, b))];
  }

  /** A PUT that reached all drives but that of chunk 1, which still holds an older version, and all drives answer: the
      GET returns the older version. */
  lemma {:induction false} WrongVersion(chk: Block<bool> -> nat, v: Version, a: bool, c: bool, u: Version, b: bool)
    requires v.size == u.size == 2 && u != v
    ensures Xor().Valid()
    ensures var cluster := [Chunk(chk, u, b), Chunk(chk, v, a != c), Chunk(chk, v, a)];
      && AfterPut(Xor(), 1, chk, v, [a, c], Pick(cluster, Wrapped().Homes(3)))
      && Get(Xor(), chk, Wrapped(), cluster, AllReachable(3)) == GetOk(u, [false, b])
  {
    var cluster := [Chunk(chk, u, b), Chunk(chk, v, a != c), Chunk(chk, v, a)];
    WrappedDrives();
    OneDriveBehind(chk, v, a, c, u, b);
    assert Pick(cluster, [2, 0, 1]) == [Chunk(chk, v, a), Chunk(chk, u, b), Chunk(chk, v, a != c)];
    ChunkForParity(chk, u, b, Got(Chunk(chk, v, a)));
    assert AnswersOf(cluster, AllReachable(3), [2, 0, 0]) ==
      [Got(Chunk(chk, v, a)), Got(Chunk(chk, u, b)), Got(Chunk(chk, u, b))];
  }

  lemma {:induction false} OneDriveBehind(chk: Block<bool> -> nat, v: Version, a: bool, c: bool, u: Version, b: bool)
    requires v.size == 2 && u != v
    ensures Xor().Valid()
    ensures AfterPut(Xor(), 1, chk, v, [a, c], [Chunk(chk, v, a), Chunk(chk, u, b), Chunk(chk, v, a != c)])
  {
    XorStripe(a, c);
    var slots := [Chunk(chk, v, a), Chunk(chk, u, b), Chunk(chk, v, a != c)];
    var r := Replies(Ask(slots, AllReachable(3)));
    assert r == [Found(v), Found(u), Found(v)];
    CountThree(r, Found(v));
  }

  /** Six drives, and the same hash: the chunks are on drives 2, 3 and 4, but the parity is asked of drive 0. */
  function Sparse(): Layout { Layout(0xFFFF_FFFD, 6) }

  lemma {:induction false} SparseDrives()
    ensures Sparse().Homes(3) == [2, 3, 4] && Sparse().Asked(2, 1) == [2, 3, 0]
  {
    var h := 0xFFFF_FFFD;
    ModIsRemainder(0xFFFF_FFFE, 6);
    FirstAt(h, 0, 0, 6);
    FirstAt(h, 0, 2, 6);
    AroundMoves(2, 1, 6);
    AroundMoves(2, 2, 6);
  }

  /** A PUT on a fresh key that missed only the drive of chunk 1, and all drives answer: the GET returns NOT_FOUND. */
  lemma {:induction false} WronglyNotFound(chk: Block<bool> -> nat, v: Version, a: bool, c: bool)
    requires v.size == 2
    ensures Xor().Valid()
    ensures var cluster := [Vacant, Vacant, Chunk(chk, v, a), Vacant, Chunk(chk, v, a != c), Vacant];
      && AfterPut(Xor(), 1, chk, v, [a, c], Pick(cluster, Sparse().Homes(3)))
      && Get(Xor(), chk, Sparse(), cluster, AllReachable(6)) == GetNotFound
  {
    var cluster := [Vacant, Vacant, Chunk(chk, v, a), Vacant, Chunk(chk, v, a != c), Vacant];
    SparseDrives();
    OneChunkMissing(chk, v, a, c);
    assert Pick(cluster, [2, 3, 4]) == [Chunk(chk, v, a), Vacant, Chunk(chk, v, a != c)];
    TwoAbsences(chk, Got(Chunk(chk, v, a)));
    assert AnswersOf(cluster, AllReachable(6), [2, 3, 0]) == [Got(Chunk(chk, v, a)), Got(Vacant), Got(Vacant)];
  }

  lemma {:induction false} OneChunkMissing(chk: Block<bool> -> nat, v: Version, a: bool, c: bool)
    requires v.size == 2
    ensures Xor().Valid()
    ensures AfterPut(Xor(), 1, chk, v, [a, c], [Chunk(chk, v, a), Vacant, Chunk(chk, v, a != c)])
  {
    XorStripe(a, c);
    var slots := [Chunk(chk, v, a), Vacant, Chunk(chk, v, a != c)];
    var r := Replies(Ask(slots, AllReachable(3)));
    assert r == [Found(v), NotFound, Found(v)];
    CountThree(r, Found(v));
  }

  lemma {:induction false} CountThree<T>(s: seq<T>, x: T)
    requires |s| == 3
    ensures Count(s, x) == (if s[0] == x then 1 else 0) + (if s[1] == x then 1 else 0) + (if s[2] == x then 1 else 0)
  {
    assert Count(s[..0], x) == 0;
    CountPush(s, 0, x);
    CountPush(s, 1, x);
    CountPush(s, 2, x);
    assert s[..3] == s;
  }

  lemma {:induction false} TwoAbsences(chk: Block<bool> -> nat, x: Answer<bool>)
    requires Xor().Valid() && ReplyOf(x).Found?
    ensures TwoPhase(Xor(), chk, [x, Got(Vacant), Got(Vacant)]) == GetNotFound
  {
    var answers := [x, Got(Vacant), Got(Vacant)];
    FirstPhaseFails(chk, x, Got(Vacant));
    assert answers[..2] == [x, Got(Vacant)];
    var r := Replies(answers);
    assert r == [ReplyOf(x), NotFound, NotFound];
    CountThree(r, NotFound);
    var vc := Elected(r);
    if vc.version.Some? { CountThree(r, Found(vc.version.value)); }
  }
}
