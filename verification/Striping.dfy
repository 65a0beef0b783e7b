/** Cutting a value into the chunks of a stripe, and rebuilding the value from the chunks that can be trusted.

A value shorter than the stripe is padded with zero chunks for the parity computation; those chunks are
then stored as empty records. */
module Striping {
  import opened LinearAlgebra
  import opened Redundancy
  import opened Wrappers
  import opened Sequences

  /** A version carries the size of the value it belongs to. */
  datatype Version = Version(size: nat, uuid: nat)

  /** What a drive returned for a chunk: nothing usable, or a record with its checksum tag. */
  datatype Chunk<T> = NoRecord | Record(version: Version, value: Block<T>, tag: nat)

  // ----- the layout

  /** The first `len` symbols of the value, filled up with zeros. */
  function Padded<T>(zero: T, value: seq<T>, len: nat): (p: seq<T>)
    ensures |p| == len
  {
    if |value| >= len then value[..len] else value + Repeat(zero, len - |value|)
  }

  function ChunkSize(cap: nat, size: nat): nat {
    if size < cap then size else cap
  }

  /** Number of data chunks that hold a part of the value. */
  function UsedChunks(size: nat, chunkSize: nat): nat
    requires chunkSize > 0
  {
    (size + chunkSize - 1) / chunkSize
  }

  lemma {:induction false} MulMono(a: int, b: int, c: nat)
    requires a <= b
    ensures a * c <= b * c && (a + 1) * c == a * c + c
    decreases b - a
  {
    if a < b { MulMono(a, b - 1, c); }
    assert b * c == (b - 1) * c + c;
  }

  /** Exactly the used chunks begin inside the value, and together they cover it. */
  lemma {:induction false} UsedCovers(size: nat, cs: nat)
    requires cs > 0 && size > 0
    ensures UsedChunks(size, cs) > 0 && UsedChunks(size, cs) * cs >= size
    ensures forall i :: i >= 0 ==> (i * cs < size <==> i < UsedChunks(size, cs))
  {
    var u := UsedChunks(size, cs);
    assert size + cs - 1 == u * cs + (size + cs - 1) % cs;
    assert (u - 1) * cs == u * cs - cs;
    forall i | i >= 0 ensures i * cs < size <==> i < u {
      if i < u { MulMono(i, u - 1, cs); } else { MulMono(u, i, cs); }
    }
  }

  lemma {:induction false} FitsUsed(cap: nat, nData: nat, size: nat)
    requires 0 < size <= nData * cap && cap > 0 && nData > 0
    ensures UsedChunks(size, ChunkSize(cap, size)) <= nData
  {
    var cs := ChunkSize(cap, size);
    UsedCovers(size, cs);
    assert nData * cs >= size by { MulMono(1, nData, cs); }
    assert !(nData * cs < size);
  }

  function Slice<T>(p: seq<T>, cs: nat, n: nat, i: nat): (b: Block<T>)
    requires |p| == n * cs && i < n
    ensures |b| == cs
  {
    MulMono(0, i, cs); MulMono(i, n - 1, cs); MulMono(n - 1, n - 1, cs);
    p[i * cs..i * cs + cs]
  }

  /** The nData data chunks, cut from the padded value. */
  function DataChunks<T>(zero: T, value: seq<T>, cs: nat, n: nat): (d: Mat<T>)
    ensures |d| == n && forall i :: 0 <= i < n ==> |d[i]| == cs
  {
    MulMono(0, n, cs);
    var p := Padded(zero, value, n * cs);
    seq(n, i requires 0 <= i < n => Slice(p, cs, n, i))
  }

  function Flatten<T>(blocks: seq<Block<T>>): seq<T> {
    if blocks == [] then [] else Flatten(blocks[..|blocks| - 1]) + blocks[|blocks| - 1]
  }

  lemma {:induction false} FlattenSplit<T>(blocks: seq<Block<T>>, k: nat)
    requires k <= |blocks|
    ensures Flatten(blocks) == Flatten(blocks[..k]) + Flatten(blocks[k..])
    decreases |blocks|
  {
    if k == |blocks| {
      assert blocks[..k] == blocks;
    } else {
      var n := |blocks| - 1;
      FlattenSplit(blocks[..n], k);
      assert blocks[..n][..k] == blocks[..k];
      assert blocks[k..][..n - k] == blocks[..n][k..];
    }
  }

  /** Consecutive slices put together give the prefix they were cut from. */
  lemma {:induction false} SlicesTile<T>(p: seq<T>, cs: nat, n: nat, k: nat, blocks: seq<Block<T>>)
    requires |p| == n * cs && k <= n && |blocks| == k
    requires forall i :: 0 <= i < k ==> blocks[i] == Slice(p, cs, n, i)
    ensures k * cs <= |p| && Flatten(blocks) == p[..k * cs]
    decreases k
  {
    MulMono(k, n, cs);
    if k > 0 {
      SlicesTile(p, cs, n, k - 1, blocks[..k - 1]);
      MulMono(k - 1, n, cs);
      assert p[..(k - 1) * cs] + p[(k - 1) * cs..k * cs] == p[..k * cs];
    }
  }

  /** The stripe that is stored for a value. */
  ghost function StripeOf<T(!new)>(code: Code<T>, cap: nat, value: seq<T>): (s: seq<Block<T>>)
    requires code.Valid() && cap > 0
    ensures |s| == code.Size()
  {
    if value == [] then seq(code.Size(), i => [])
    else
      var cs := ChunkSize(cap, |value|);
      var w := code.Codeword(DataChunks(code.R.zero, value, cs, code.nData), cs);
      seq(code.Size(), i requires 0 <= i < code.Size() =>
        if UsedChunks(|value|, cs) <= i < code.nData then [] else w[i])
  }

  /** Any stripe that starts with the used data chunks of a value spells that value. */
  lemma {:induction false} UsedChunksSpell<T>(zero: T, value: seq<T>, cap: nat, n: nat, blocks: seq<Block<T>>)
    requires 0 < |value| <= n * cap && cap > 0 && n > 0
    requires var cs := ChunkSize(cap, |value|);
             var u := UsedChunks(|value|, cs);
             u <= n && u <= |blocks| && blocks[..u] == DataChunks(zero, value, cs, n)[..u]
    ensures |value| <= |Flatten(blocks)| && Flatten(blocks)[..|value|] == value
  {
    var cs := ChunkSize(cap, |value|);
    var u := UsedChunks(|value|, cs);
    UsedCovers(|value|, cs);
    MulMono(0, n, cs);
    var p := Padded(zero, value, n * cs);
    SlicesTile(p, cs, n, u, blocks[..u]);
    FlattenSplit(blocks, u);
    MulMono(u, n, cs);
    assert p[..|value|] == value;
    assert Flatten(blocks)[..u * cs] == p[..u * cs];
    assert Flatten(blocks)[..|value|] == p[..u * cs][..|value|];
  }

  // ----- reconstruction

  predicate Good<T(==)>(chk: Block<T> -> nat, v: Version, c: Chunk<T>) {
    c.Record? && c.version == v && c.tag == chk(c.value)
  }

  /** The trusted chunk values, empty where nothing can be trusted. */
  function Gather<T(==)>(chk: Block<T> -> nat, v: Version, chunks: seq<Chunk<T>>): (s: seq<Block<T>>)
    ensures |s| == |chunks|
  {
    seq(|chunks|, i requires 0 <= i < |chunks| => if Good(chk, v, chunks[i]) then chunks[i].value else [])
  }

  function Bad<T(==)>(chk: Block<T> -> nat, v: Version, chunks: seq<Chunk<T>>): (b: seq<bool>)
    ensures |b| == |chunks|
  {
    seq(|chunks|, i requires 0 <= i < |chunks| => !Good(chk, v, chunks[i]))
  }

  /** Trusted data chunks that are empty were elided zero chunks; restore them for the decoder. */
  function ZeroFilled<T(==)>(
      zero: T, nData: nat, chk: Block<T> -> nat, v: Version, chunks: seq<Chunk<T>>): (s: seq<Block<T>>)
    ensures |s| == |chunks|
  {
    var g := Gather(chk, v, chunks);
    seq(|chunks|, i requires 0 <= i < |chunks| =>
      if Good(chk, v, chunks[i]) && g[i] == [] && i < nData then Repeat(zero, FirstSize(g)) else g[i])
  }

  function Cut<T>(blocks: seq<Block<T>>, size: nat): seq<T> {
    if size <= |Flatten(blocks)| then Flatten(blocks)[..size] else Flatten(blocks)
  }

  /** `chunks` is what is left of the stripe of `value`: each chunk is intact or recognisably not of this version. */
  ghost predicate LeftOf<T(!new)>(
      code: Code<T>, cap: nat, chk: Block<T> -> nat, v: Version, value: seq<T>, chunks: seq<Chunk<T>>)
    requires code.Valid() && cap > 0
  {
    && |chunks| <= code.Size() && v.size == |value|
    && forall i :: 0 <= i < |chunks| && Good(chk, v, chunks[i]) ==> chunks[i].value == StripeOf(code, cap, value)[i]
  }

  lemma {:induction false} AllMarked(b: seq<bool>, k: nat)
    requires k <= |b| && forall i :: k <= i < |b| ==> b[i]
    ensures |Where(b, true)| == |Where(b[..k], true)| + |b| - k
    decreases |b|
  {
    if k < |b| {
      AllMarked(b[..|b| - 1], k);
      assert b[..|b| - 1][..k] == b[..k];
    } else {
      assert b[..k] == b;
    }
  }

  /** With at most nParity bad chunks, some chunk that was stored non-empty is good. */
  lemma {:induction false} SomeGood(b: seq<bool>, nData: nat)
    requires 0 < nData <= |b| && |Where(b, true)| <= |b| - nData
    ensures !b[0] || exists i :: nData <= i < |b| && !b[i]
  {
    if b[0] && forall i :: nData <= i < |b| ==> b[i] {
      AllMarked(b, nData);
      WhereAt(b[..nData], 0, true);
    }
  }

  /** The data chunks behind the used ones consist of padding. */
  lemma {:induction false} UnusedAreZero<T>(zero: T, value: seq<T>, cs: nat, n: nat, i: nat)
    requires cs > 0 && |value| > 0 && UsedChunks(|value|, cs) <= i < n
    ensures DataChunks(zero, value, cs, n)[i] == Repeat(zero, cs)
  {
    UsedCovers(|value|, cs);
    MulMono(0, n, cs);
    MulMono(UsedChunks(|value|, cs), i, cs); MulMono(i, n - 1, cs); MulMono(n - 1, n - 1, cs);
    var p := Padded(zero, value, n * cs);
    assert |value| <= i * cs;
    assert forall j :: |value| <= j < n * cs ==> p[j] == zero;
  }

  /** Stored chunks against the codeword: the elided ones are its zero chunks, all others are stored as they are. */
  lemma {:induction false} StoredChunk<T(!new)>(code: Code<T>, cap: nat, value: seq<T>, i: nat)
    requires code.Valid() && cap > 0 && value != [] && i < code.Size()
    ensures var cs := ChunkSize(cap, |value|);
            var data := DataChunks(code.R.zero, value, cs, code.nData);
            var s := StripeOf(code, cap, value)[i];
      && |code.Codeword(data, cs)[i]| == cs
      && (if s == [] then i < code.nData && code.Codeword(data, cs)[i] == Repeat(code.R.zero, cs)
          else s == code.Codeword(data, cs)[i])
      && (i == 0 || i >= code.nData ==> s != [])
      && (i < UsedChunks(|value|, cs) && i < code.nData ==> s == data[i])
      && (i < code.nData ==> code.Codeword(data, cs)[i] == data[i])
  {
    var cs := ChunkSize(cap, |value|);
    var data := DataChunks(code.R.zero, value, cs, code.nData);
    UsedCovers(|value|, cs);
    if i < code.nData {
      code.DataIsPrefix(data, cs);
      assert code.Codeword(data, cs)[..code.nData][i] == data[i];
      if UsedChunks(|value|, cs) <= i { UnusedAreZero(code.R.zero, value, cs, code.nData, i); }
    }
  }

  /** `s` is the value from `start` on, filled up with zeros. */
  ghost predicate HoldsFrom<T(!new)>(s: seq<T>, value: seq<T>, start: nat, zero: T) {
    forall j :: 0 <= j < |s| ==> s[j] == if start + j < |value| then value[start + j] else zero
  }

  /** The layout, symbol by symbol: chunk i holds the value from i chunk sizes on, filled up with zeros; exactly the
      data chunks that begin behind the value are elided. */
  lemma {:induction false} LayoutIs<T(!new)>(code: Code<T>, cap: nat, value: seq<T>, i: nat, cs: nat, start: nat)
    requires code.Valid() && cap > 0 && value != [] && i < code.Size()
    requires start == i * cs && cs == if |value| < cap then |value| else cap
    ensures var s := StripeOf(code, cap, value)[i];
      && (s == [] <==> i < code.nData && start >= |value|)
      && (s != [] ==> |s| == cs)
      && (s != [] && i < code.nData ==> HoldsFrom(s, value, start, code.R.zero))
  {
    StoredChunk(code, cap, value, i);
    UsedCovers(|value|, cs);
    if i < code.nData && start < |value| {
      ChunkHolds(code.R.zero, value, cs, code.nData, i, start);
    }
  }

  lemma {:induction false} ChunkHolds<T(!new)>(zero: T, value: seq<T>, cs: nat, n: nat, i: nat, start: nat)
    requires i < n && start == i * cs
    ensures HoldsFrom(DataChunks(zero, value, cs, n)[i], value, start, zero)
  {
    MulMono(0, n, cs); MulMono(i, n - 1, cs); MulMono(n - 1, n - 1, cs);
    var p := Padded(zero, value, n * cs);
    assert start + cs <= |p|;
    assert DataChunks(zero, value, cs, n)[i] == p[start..start + cs];
  }

  /** The common size is that of the first chunk that is good and was not elided. */
  lemma {:induction false} GatheredSize<T(!new)>(
      code: Code<T>, cap: nat, chk: Block<T> -> nat, v: Version, value: seq<T>, chunks: seq<Chunk<T>>)
    requires code.Valid() && cap > 0 && value != []
    requires LeftOf(code, cap, chk, v, value, chunks) && |chunks| == code.Size()
    requires |Where(Bad(chk, v, chunks), true)| <= code.nParity
    ensures FirstSize(Gather(chk, v, chunks)) == ChunkSize(cap, |value|)
  {
    var cs := ChunkSize(cap, |value|);
    var g, b := Gather(chk, v, chunks), Bad(chk, v, chunks);
    forall i | 0 <= i < |g| ensures g[i] == [] || |g[i]| == cs {
      StoredChunk(code, cap, value, i);
    }
    SomeGood(b, code.nData);
    var k :| 0 <= k < |b| && (k == 0 || k >= code.nData) && !b[k];
    StoredChunk(code, cap, value, k);
    FirstSizeIs(g, cs, k);
  }

  /** What reaches the decoder is part of the codeword, with exactly the bad chunks missing. */
  lemma {:induction false} ZeroFilledIsPart<T(!new)>(
      code: Code<T>, cap: nat, chk: Block<T> -> nat, v: Version, value: seq<T>, chunks: seq<Chunk<T>>)
    requires code.Valid() && cap > 0 && value != []
    requires LeftOf(code, cap, chk, v, value, chunks) && |chunks| == code.Size()
    requires |Where(Bad(chk, v, chunks), true)| <= code.nParity
    ensures var cs := ChunkSize(cap, |value|);
            var z := ZeroFilled(code.R.zero, code.nData, chk, v, chunks);
            code.PartOf(z, DataChunks(code.R.zero, value, cs, code.nData), cs) && code.Pattern(z) == Bad(chk, v, chunks)
  {
    var cs := ChunkSize(cap, |value|);
    var data := DataChunks(code.R.zero, value, cs, code.nData);
    var g, b := Gather(chk, v, chunks), Bad(chk, v, chunks);
    var z := ZeroFilled(code.R.zero, code.nData, chk, v, chunks);
    GatheredSize(code, cap, chk, v, value, chunks);
    forall i | 0 <= i < |z| ensures if b[i] then z[i] == [] else z[i] != [] && z[i] == code.Codeword(data, cs)[i] {
      StoredChunk(code, cap, value, i);
    }
  }

  /** A value that fits comes back directly if no chunk is bad. */
  lemma {:induction false} RoundTripDirect<T(!new)>(
      code: Code<T>, cap: nat, chk: Block<T> -> nat, v: Version, value: seq<T>, chunks: seq<Chunk<T>>)
    requires code.Valid() && cap > 0 && 0 < |value| <= code.nData * cap
    requires LeftOf(code, cap, chk, v, value, chunks) && |chunks| >= code.nData
    requires Where(Bad(chk, v, chunks), true) == []
    ensures Cut(Gather(chk, v, chunks), v.size) == value
  {
    var cs := ChunkSize(cap, |value|);
    var data := DataChunks(code.R.zero, value, cs, code.nData);
    var g, b, u := Gather(chk, v, chunks), Bad(chk, v, chunks), UsedChunks(|value|, cs);
    FitsUsed(cap, code.nData, |value|);
    forall i | 0 <= i < u ensures g[i] == data[i] {
      if b[i] { WhereAt(b, i, true); }
      StoredChunk(code, cap, value, i);
    }
    UsedChunksSpell(code.R.zero, value, cap, code.nData, g);
  }

  /** A value that fits comes back through the decoder if at most nParity chunks are lost, of another
      version or fail the checksum, including values whose zero chunks were never stored. */
  lemma {:induction false} RoundTripDecoded<T(!new)>(
      code: Code<T>, cap: nat, chk: Block<T> -> nat, v: Version, value: seq<T>, chunks: seq<Chunk<T>>)
    requires code.Valid() && cap > 0 && 0 < |value| <= code.nData * cap
    requires LeftOf(code, cap, chk, v, value, chunks) && |chunks| == code.Size()
    requires |Where(Bad(chk, v, chunks), true)| <= code.nParity
    ensures var z := ZeroFilled(code.R.zero, code.nData, chk, v, chunks);
      code.Solvable(z) && Cut(code.Solution(z), v.size) == value
  {
    var cs := ChunkSize(cap, |value|);
    var data := DataChunks(code.R.zero, value, cs, code.nData);
    var w, u := code.Codeword(data, cs), UsedChunks(|value|, cs);
    FitsUsed(cap, code.nData, |value|);
    ZeroFilledIsPart(code, cap, chk, v, value, chunks);
    code.CompletedIsCodeword(ZeroFilled(code.R.zero, code.nData, chk, v, chunks), data, cs);
    forall i | 0 <= i < u ensures w[i] == data[i] {
      StoredChunk(code, cap, value, i);
    }
    UsedChunksSpell(code.R.zero, value, cap, code.nData, w);
  }

  /** The value that reconstruction yields from the chunks at hand, if any. */
  ghost function Rebuilt<T(!new)>(
      code: Code<T>, chk: Block<T> -> nat, v: Version, chunks: seq<Chunk<T>>): Option<seq<T>>
    requires code.Valid()
  {
    var z := ZeroFilled(code.R.zero, code.nData, chk, v, chunks);
    if v.size == 0 then Some([])
    else if Where(Bad(chk, v, chunks), true) == [] then Some(Cut(Gather(chk, v, chunks), v.size))
    else if code.Solvable(z) then Some(Cut(code.Solution(z), v.size))
    else None
  }

  lemma {:induction false} WhereMono(a: seq<bool>, b: seq<bool>)
    requires |a| == |b| && forall i :: 0 <= i < |a| && a[i] ==> b[i]
    ensures |Where(a, true)| <= |Where(b, true)|
    decreases |a|
  {
    if a != [] { WhereMono(a[..|a| - 1], b[..|b| - 1]); }
  }

  /** Exactly when reconstruction succeeds, from the data chunks alone or from the whole stripe; and then
      it yields the stored value, never another one. */
  lemma {:induction false} RebuiltExactly<T(!new)>(
      code: Code<T>, cap: nat, chk: Block<T> -> nat, v: Version, value: seq<T>, chunks: seq<Chunk<T>>)
    requires code.Valid() && cap > 0 && |value| <= code.nData * cap
    requires LeftOf(code, cap, chk, v, value, chunks) && (|chunks| == code.nData || |chunks| == code.Size())
    ensures Rebuilt(code, chk, v, chunks) ==
      if value == [] || |Where(Bad(chk, v, chunks), false)| >= code.nData then Some(value) else None
  {
    var b := Bad(chk, v, chunks);
    WherePartition(b);
    if value == [] {
    } else if Where(b, true) == [] {
      RoundTripDirect(code, cap, chk, v, value, chunks);
    } else if |chunks| == code.Size() && |Where(b, true)| <= code.nParity {
      RoundTripDecoded(code, cap, chk, v, value, chunks);
    } else if |chunks| == code.Size() {
      WhereMono(b, code.Pattern(ZeroFilled(code.R.zero, code.nData, chk, v, chunks)));
    }
  }

  // ----- the operations

  lemma {:induction false} NothingMarked(b: seq<bool>)
    requires forall i :: 0 <= i < |b| ==> !b[i]
    ensures Where(b, true) == []
    decreases |b|
  {
    if b != [] { NothingMarked(b[..|b| - 1]); }
  }

  /** The stripe with its data chunks and no parities yet is recoverable and completes to the codeword. */
  lemma {:induction false} ParitiesAreComputed<T(!new)>(code: Code<T>, data: Mat<T>, cs: nat, stripe: seq<Block<T>>)
    requires code.Valid() && cs > 0 && IsMatrix(data, code.nData, cs)
    requires |stripe| == code.Size() && stripe[..code.nData] == data
    requires forall i :: code.nData <= i < |stripe| ==> stripe[i] == []
    ensures code.Solvable(stripe) && code.Solution(stripe) == code.Codeword(data, cs)
  {
    assert forall i :: 0 <= i < code.nData ==> stripe[i] == stripe[..code.nData][i] == data[i] != [];
    ParitiesAreMissing(code, stripe);
    code.DataIsPrefix(data, cs);
    assert forall i :: 0 <= i < code.nData ==> code.Codeword(data, cs)[i] == code.Codeword(data, cs)[..code.nData][i];
    code.CompletedIsCodeword(stripe, data, cs);
  }

  lemma {:induction false} ParitiesAreMissing<T(!new)>(code: Code<T>, stripe: seq<Block<T>>)
    requires |stripe| == code.Size() && forall i :: code.nData <= i < |stripe| ==> stripe[i] == []
    requires forall i :: 0 <= i < code.nData ==> stripe[i] != []
    ensures code.Recoverable(code.Pattern(stripe))
  {
    var b := code.Pattern(stripe);
    AllMarked(b, code.nData);
    NothingMarked(b[..code.nData]);
  }

  /** KineticCluster::valueToStripe. The redundancy computation never throws here. */
  method ValueToStripe<T(!new, ==)>(rp: RedundancyProvider<T>, cap: nat, value: seq<T>) returns (s: seq<Block<T>>)
    requires rp.Valid() && cap > 0
    modifies rp`cache
    ensures rp.Valid() && s == StripeOf(rp.code, cap, value)
  {
    if |value| == 0 {
      return seq(rp.code.Size(), i => []);
    }
    var cs := if |value| < cap then |value| else cap;
    s := ElidedStripe(rp, cs, value);
    ElidedIsStripe(rp.code, cap, value, s);
  }

  /** The encoded stripe, with the data chunks that hold no part of the value cleared. */
  method ElidedStripe<T(!new, ==)>(rp: RedundancyProvider<T>, cs: nat, value: seq<T>) returns (s: seq<Block<T>>)
    requires rp.Valid() && cs > 0 && value != []
    modifies rp`cache
    ensures rp.Valid() && |s| == rp.code.Size()
    ensures forall j :: 0 <= j < |s| ==>
      s[j] == if UsedChunks(|value|, cs) <= j < rp.code.nData then []
              else rp.code.Codeword(DataChunks(rp.code.R.zero, value, cs, rp.code.nData), cs)[j]
  {
    var stripe := EncodedStripe(rp, cs, value);
    ElideUnused(stripe, (|value| + cs - 1) / cs, rp.code.nData);
    s := stripe[..];
  }

  /** Data chunks and computed parities, before the zero chunks are dropped. */
  method EncodedStripe<T(!new, ==)>(rp: RedundancyProvider<T>, cs: nat, value: seq<T>)
    returns (stripe: array<Block<T>>)
    requires rp.Valid() && cs > 0 && value != []
    modifies rp`cache
    ensures rp.Valid() && fresh(stripe)
    ensures stripe[..] == rp.code.Codeword(DataChunks(rp.code.R.zero, value, cs, rp.code.nData), cs)
  {
    stripe := LayOut(rp.code.R.zero, value, cs, rp.code.nData, rp.code.nParity);
    ParitiesAreComputed(rp.code, DataChunks(rp.code.R.zero, value, cs, rp.code.nData), cs, stripe[..]);
    var computed := rp.Compute(stripe);
    assert computed.Done?;
  }

  lemma {:induction false} ElidedIsStripe<T(!new)>(code: Code<T>, cap: nat, value: seq<T>, s: seq<Block<T>>)
    requires code.Valid() && cap > 0 && value != [] && |s| == code.Size()
    requires var cs := ChunkSize(cap, |value|);
      forall j :: 0 <= j < |s| ==>
        s[j] == if UsedChunks(|value|, cs) <= j < code.nData then []
                else code.Codeword(DataChunks(code.R.zero, value, cs, code.nData), cs)[j]
    ensures s == StripeOf(code, cap, value)
  {
  }

  /** The data chunks, followed by empty strings for the parities. */
  method LayOut<T>(zero: T, value: seq<T>, cs: nat, nData: nat, nParity: nat) returns (stripe: array<Block<T>>)
    requires cs > 0 && value != []
    ensures fresh(stripe) && stripe.Length == nData + nParity
    ensures stripe[..nData] == DataChunks(zero, value, cs, nData)
    ensures forall i :: nData <= i < stripe.Length ==> stripe[i] == []
  {
    stripe := new Block<T>[nData + nParity](i => []);
    ghost var data := DataChunks(zero, value, cs, nData);
    for i := 0 to nData
      invariant forall j :: 0 <= j < i ==> stripe[j] == data[j]
      invariant forall j :: i <= j < stripe.Length ==> stripe[j] == []
    {
      stripe[i] := DataChunk(zero, value, cs, nData, i);
    }
  }

  /** Zero chunks were needed for the parities only. */
  method ElideUnused<T>(stripe: array<Block<T>>, used: nat, nData: nat)
    requires nData <= stripe.Length
    modifies stripe
    ensures forall j :: 0 <= j < stripe.Length ==> stripe[j] == if used <= j < nData then [] else old(stripe[j])
  {
    var index := used;
    while index < nData
      invariant used <= index && (index <= nData || index == used)
      invariant forall j :: 0 <= j < stripe.Length ==> stripe[j] == if used <= j < index then [] else old(stripe[j])
    {
      stripe[index] := [];
      index := index + 1;
    }
  }

  /** substr and resize of one data chunk, or the zero chunk behind the end of the value. */
  function DataChunk<T>(zero: T, value: seq<T>, cs: nat, n: nat, i: nat): (b: Block<T>)
    requires cs > 0 && i < n && value != []
    ensures b == DataChunks(zero, value, cs, n)[i]
  {
    MulMono(0, n, cs); MulMono(0, i, cs); MulMono(i, n - 1, cs); MulMono(n - 1, n - 1, cs);
    if i * cs < |value| then
      var rest := |value| - i * cs;
      if rest < cs then value[i * cs..] + Repeat(zero, cs - rest) else value[i * cs..i * cs + cs]
    else
      Repeat(zero, cs)
  }

  /** StripeOperation_GET::reconstructValue. An exception of the redundancy provider is passed on. */
  method ReconstructValue<T(!new, ==)>(
      rp: RedundancyProvider<T>, chk: Block<T> -> nat, v: Version, chunks: seq<Chunk<T>>)
    returns (r: Outcome<seq<T>>)
    requires rp.Valid()
    modifies rp`cache
    ensures rp.Valid()
    ensures Rebuilt(rp.code, chk, v, chunks) == if r.Done? then Some(r.value) else None
  {
    if v.size == 0 {
      return Done([]);
    }
    var stripe, zeroed, needRecovery := GatherChunks(rp.code.nData, chk, v, chunks);
    BadChunks(chk, v, chunks);
    if needRecovery {
      FillZeroed(rp.code.R.zero, stripe, zeroed);
      assert stripe[..] == ZeroFilled(rp.code.R.zero, rp.code.nData, chk, v, chunks);
      var computed := rp.Compute(stripe);
      if computed.Thrown? {
        return Thrown(computed.error);
      }
    }
    var value := Merge(stripe[..], v.size);
    r := Done(value);
  }

  lemma {:induction false} BadChunks<T>(chk: Block<T> -> nat, v: Version, chunks: seq<Chunk<T>>)
    ensures Where(Bad(chk, v, chunks), true) != [] <==> exists i :: 0 <= i < |chunks| && !Good(chk, v, chunks[i])
  {
    var b := Bad(chk, v, chunks);
    if i :| 0 <= i < |chunks| && !Good(chk, v, chunks[i]) {
      assert b[i];
      WhereAt(b, i, true);
    } else {
      NothingMarked(b);
    }
  }

  /** Step 1: collect the trusted chunk values, remembering empty data chunks and whether anything is bad. */
  method GatherChunks<T(==)>(nData: nat, chk: Block<T> -> nat, v: Version, chunks: seq<Chunk<T>>)
    returns (stripe: array<Block<T>>, zeroed: seq<nat>, needRecovery: bool)
    ensures fresh(stripe) && stripe[..] == Gather(chk, v, chunks)
    ensures needRecovery <==> exists i :: 0 <= i < |chunks| && !Good(chk, v, chunks[i])
    ensures forall j: nat :: j in zeroed <==> j < |chunks| && Elided(nData, chk, v, chunks[j], j)
  {
    stripe := new Block<T>[|chunks|](i => []);
    zeroed, needRecovery := [], false;
    for i := 0 to |chunks|
      invariant forall j :: 0 <= j < i ==> stripe[j] == if Good(chk, v, chunks[j]) then chunks[j].value else []
      invariant forall j :: i <= j < stripe.Length ==> stripe[j] == []
      invariant needRecovery <==> exists j :: 0 <= j < i && !Good(chk, v, chunks[j])
      invariant forall j: nat :: j in zeroed <==> j < i && Elided(nData, chk, v, chunks[j], j)
    {
      var trusted := Good(chk, v, chunks[i]);
      if trusted {
        stripe[i] := chunks[i].value;
        if |chunks[i].value| == 0 && i < nData {
          zeroed := zeroed + [i];
        }
      } else {
        needRecovery := true;
      }
    }
  }

  /** A trusted data chunk without content. */
  predicate Elided<T(==)>(nData: nat, chk: Block<T> -> nat, v: Version, c: Chunk<T>, i: nat) {
    i < nData && Good(chk, v, c) && c.value == []
  }

  /** Step 2: an elided zero chunk gets the size of the first chunk that has one. */
  method FillZeroed<T>(zero: T, stripe: array<Block<T>>, zeroed: seq<nat>)
    requires forall i :: i in zeroed ==> i < stripe.Length && stripe[i] == []
    modifies stripe
    ensures forall i :: 0 <= i < stripe.Length ==>
      stripe[i] == if i in zeroed then Repeat(zero, FirstSize(old(stripe[..]))) else old(stripe[i])
  {
    if |zeroed| > 0 {
      var chunkSize: nat, k := 0, 0;
      while k < stripe.Length
        invariant 0 <= k <= stripe.Length && stripe[..] == old(stripe[..])
        invariant chunkSize == 0 && forall i :: 0 <= i < k ==> stripe[i] == []
      {
        if |stripe[k]| > 0 {
          chunkSize := |stripe[k]|;
          break;
        }
        k := k + 1;
      }
      FirstSizeAt(stripe[..], k);
      for n := 0 to |zeroed|
        invariant forall i :: 0 <= i < stripe.Length ==>
          stripe[i] == if i in zeroed[..n] then Repeat(zero, chunkSize) else old(stripe[i])
      {
        assert zeroed[n] in zeroed && zeroed[..n + 1] == zeroed[..n] + [zeroed[n]];
        stripe[zeroed[n]] := Repeat(zero, chunkSize);
      }
      assert zeroed[..|zeroed|] == zeroed;
    }
  }

  /** Concatenate chunks until the size recorded in the version is reached. */
  method Merge<T>(stripe: seq<Block<T>>, size: nat) returns (value: seq<T>)
    ensures value == Cut(stripe, size)
  {
    value := [];
    for i := 0 to |stripe|
      invariant value == Flatten(stripe[..i]) && |value| <= size
    {
      assert stripe[..i + 1][..i] == stripe[..i];
      FlattenSplit(stripe, i + 1);
      if |value| + |stripe[i]| <= size {
        value := value + stripe[i];
      } else {
        return value + stripe[i][..size - |value|];
      }
    }
    assert stripe[..|stripe|] == stripe;
  }
}
