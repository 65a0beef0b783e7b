/** FileIo::ReadWrite: a flat byte file cut into blocks of fixed capacity, each of them a DataBlock on a key of its own.

One client uses the file; its requests may fail. The blocks it has touched stay in the cache. */
module FileAccess {
  import opened Wrappers
  import opened Paging
  import opened Keys
  import opened LastBlock
  import opened DataBlocks

  // ----- positions

  /** The position at which block b begins. */
  ghost function Start(b: nat, cap: nat): nat {
    if b == 0 then 0 else Start(b - 1, cap) + cap
  }

  lemma {:induction false} StartIsProduct(b: nat, cap: nat)
    ensures Start(b, cap) == b * cap
  {
    if b > 0 { StartIsProduct(b - 1, cap); }
  }

  lemma {:induction false} StartGrows(a: nat, b: nat, cap: nat)
    requires a < b
    ensures Start(a, cap) + cap <= Start(b, cap)
  {
    if a < b - 1 { StartGrows(a, b - 1, cap); }
  }

  /** The block a position falls into, and the offset there. */
  ghost function Locate(p: nat, cap: nat): (l: (nat, nat))
    requires cap > 0
    ensures p == Start(l.0, cap) + l.1 && l.1 < cap
    decreases p
  {
    if p < cap then (0, p)
    else
      var (b, r) := Locate(p - cap, cap);
      (b + 1, r)
  }

  lemma {:induction false} LocateIsUnique(p: nat, cap: nat, b: nat, r: nat)
    requires p == Start(b, cap) + r && r < cap
    ensures Locate(p, cap) == (b, r)
  {
    var (c, s) := Locate(p, cap);
    if c < b { StartGrows(c, b, cap); } else if b < c { StartGrows(b, c, cap); }
  }

  lemma {:induction false} LocateIsDivision(p: nat, cap: nat)
    requires cap > 0
    ensures Locate(p, cap) == (p / cap, p - p / cap * cap)
  {
    assert p == p / cap * cap + p % cap;
    StartIsProduct(p / cap, cap);
    LocateIsUnique(p, cap, p / cap, p % cap);
  }

  /** `m` with the bytes of `data` at `pos`. */
  ghost function Updated(m: map<nat, char>, pos: nat, data: Bytes): map<nat, char> {
    if data == [] then m else Updated(m, pos, data[..|data| - 1])[pos + |data| - 1 := data[|data| - 1]]
  }

  lemma {:induction false} UpdatedAt(m: map<nat, char>, pos: nat, data: Bytes, p: nat)
    ensures p in Updated(m, pos, data) <==> p in m || pos <= p < pos + |data|
    ensures p in Updated(m, pos, data) ==>
      Updated(m, pos, data)[p] == if pos <= p < pos + |data| then data[p - pos] else m[p]
    decreases |data|
  {
    if data != [] { UpdatedAt(m, pos, data[..|data| - 1], p); }
  }

  lemma {:induction false} NextUpdated(m: map<nat, char>, pos: nat, data: Bytes, done: nat, length: nat)
    requires done + length <= |data|
    ensures Updated(Updated(m, pos, data[..done]), pos + done, data[done..done + length]) ==
      Updated(m, pos, data[..done + length])
  {
    UpdatedTwice(m, pos, data[..done], data[done..done + length]);
    assert data[..done] + data[done..done + length] == data[..done + length];
  }

  lemma {:induction false} UpdatedTwice(m: map<nat, char>, pos: nat, data: Bytes, more: Bytes)
    ensures Updated(Updated(m, pos, data), pos + |data|, more) == Updated(m, pos, data + more)
    decreases |more|
  {
    if more == [] {
      assert data + more == data;
    } else {
      UpdatedTwice(m, pos, data, more[..|more| - 1]);
      assert (data + more)[..|data + more| - 1] == data + more[..|more| - 1];
    }
  }

  // ----- the contents of the blocks

  /** A block, as far as its results go: the value stored last, the writes pending on top of it, and whether anything
      is stored at all. */
  datatype Pending = Pending(base: Bytes, writes: seq<Write>, stored: bool) {
    function Size(): nat { SizeOf(|base|, writes) }

    /** Byte i is determined, by a pending write or by the stored value. */
    ghost predicate Fixes(i: nat, byte: char) {
      match LastWrite(writes, i)
      case Some(c) => byte == c
      case None => i < |base| && byte == base[i]
    }

    function Then(w: Write): Pending { this.(writes := writes + [w]) }
  }

  type Blocks = map<nat, Pending>

  function BlockIn(blocks: Blocks, b: nat): Pending {
    if b in blocks then blocks[b] else Pending([], [], false)
  }

  lemma {:induction false} ThenSize(x: Pending, w: Write)
    ensures x.Then(w).Size() == Max(x.Size(), w.End())
  {
    assert (x.writes + [w])[..|x.writes|] == x.writes;
  }

  lemma {:induction false} ThenFixes(x: Pending, w: Write, i: nat, byte: char)
    ensures w.Covers(i) ==> (x.Then(w).Fixes(i, byte) <==> byte == w.data[i - w.off])
    ensures !w.Covers(i) && x.Fixes(i, byte) ==> x.Then(w).Fixes(i, byte)
  {
    assert (x.writes + [w])[..|x.writes|] == x.writes;
  }

  /** Storing what is pending determines no byte differently. */
  lemma {:induction false} FlushFixes(x: Pending, y: Pending, i: nat, byte: char)
    requires Flushed(x, y) && i < x.Size() && x.Fixes(i, byte)
    ensures y.Fixes(i, byte)
  {
    if y != x { assert Shown(x.base, x.writes, i, y.base[i]); }
  }

  /** Every position ever written is found in its block, with the byte last written there. */
  ghost predicate Stored(blocks: Blocks, cap: nat, written: map<nat, char>)
    requires cap > 0
  {
    forall p :: p in written ==> StoredAt(blocks, cap, p, written[p])
  }

  ghost predicate StoredAt(blocks: Blocks, cap: nat, p: nat, byte: char)
    requires cap > 0
  {
    var (b, r) := Locate(p, cap);
    r < BlockIn(blocks, b).Size() && BlockIn(blocks, b).Fixes(r, byte)
  }

  /** The file ends in the last block, which is not empty unless it is the only one. */
  ghost predicate Sized(blocks: Blocks, cap: nat, last: nat, fileSize: nat) {
    && (forall b :: b in blocks ==> blocks[b].Size() <= cap && (b > last ==> blocks[b].Size() == 0))
    && fileSize == Start(last, cap) + BlockIn(blocks, last).Size()
    && (last > 0 ==> BlockIn(blocks, last).Size() > 0)
  }

  lemma {:induction false} PieceIsStored(blocks: Blocks, cap: nat, written: map<nat, char>, pos: nat, b: nat, w: Write)
    requires w.End() <= cap && cap > 0 && pos == Start(b, cap) + w.off && Stored(blocks, cap, written)
    ensures Stored(blocks[b := BlockIn(blocks, b).Then(w)], cap, Updated(written, pos, w.data))
  {
    var x, after, now := BlockIn(blocks, b), Updated(written, pos, w.data), blocks[b := BlockIn(blocks, b).Then(w)];
    ThenSize(x, w);
    forall p | p in after ensures StoredAt(now, cap, p, after[p]) {
      var (c, r) := Locate(p, cap);
      UpdatedAt(written, pos, w.data, p);
      ThenFixes(x, w, r, after[p]);
      if pos <= p < pos + |w.data| {
        LocateIsUnique(p, cap, b, p - pos + w.off);
      } else {
        assert StoredAt(blocks, cap, p, written[p]);
      }
    }
  }

  lemma {:induction false} PieceIsSized(blocks: Blocks, cap: nat, last: nat, size: nat, pos: nat, b: nat, w: Write)
    requires w.End() <= cap && w.data != [] && pos == Start(b, cap) + w.off && Sized(blocks, cap, last, size)
    ensures Sized(blocks[b := BlockIn(blocks, b).Then(w)], cap, Max(last, b), Max(size, pos + |w.data|))
  {
    var x := BlockIn(blocks, b);
    ThenSize(x, w);
    if b > last { StartGrows(last, b, cap); } else if b < last { StartGrows(b, last, cap); }
  }

  /** Creating an empty block changes nothing. */
  lemma {:induction false} TouchKeeps(blocks: Blocks, cap: nat, written: map<nat, char>, last: nat, size: nat, b: nat)
    requires cap > 0 && Stored(blocks, cap, written) && Sized(blocks, cap, last, size)
    ensures var now := blocks[b := BlockIn(blocks, b)]; Stored(now, cap, written) && Sized(now, cap, last, size)
  {
    var now := blocks[b := BlockIn(blocks, b)];
    assert forall c :: BlockIn(now, c) == BlockIn(blocks, c);
    forall p | p in written ensures StoredAt(now, cap, p, written[p]) { assert StoredAt(blocks, cap, p, written[p]); }
  }

  /** What a flush leaves: the overlay is stored, and the writes are forgotten; or an error was reported, and they are
      not, whether the overlay is stored or not. */
  ghost predicate Flushed(x: Pending, y: Pending) {
    || y == x
    || (IsOverlay(x.base, x.writes, y.base) && (y.writes == [] || y.writes == x.writes))
  }

  lemma {:induction false} FlushedSize(x: Pending, y: Pending)
    requires Flushed(x, y)
    ensures y.Size() == x.Size()
  {
    SelfSize(|x.base|, x.writes);
  }

  lemma {:induction false} FlushKeeps(
      blocks: Blocks, cap: nat, written: map<nat, char>, last: nat, size: nat, b: nat, y: Pending)
    requires cap > 0 && Stored(blocks, cap, written) && Sized(blocks, cap, last, size)
    requires Flushed(BlockIn(blocks, b), y)
    ensures var now := blocks[b := y]; Stored(now, cap, written) && Sized(now, cap, last, size)
  {
    var x, now := BlockIn(blocks, b), blocks[b := y];
    FlushedSize(x, y);
    forall p | p in written ensures StoredAt(now, cap, p, written[p]) {
      assert StoredAt(blocks, cap, p, written[p]);
      var (c, r) := Locate(p, cap);
      if c == b { FlushFixes(x, y, r, written[p]); }
    }
  }

  /** The file, as its blocks hold it: behind a few steps of recursion, so that proofs about the loops do not open
      it. */
  ghost predicate Tracks(blocks: Blocks, cap: nat, last: nat, size: nat, written: map<nat, char>, n: nat)
    requires cap > 0
    decreases n
  {
    if n == 0 then Sized(blocks, cap, last, size) && Stored(blocks, cap, written)
    else Tracks(blocks, cap, last, size, written, n - 1)
  }

  lemma {:induction false} OpenTracks(blocks: Blocks, cap: nat, last: nat, size: nat, written: map<nat, char>, n: nat)
    requires cap > 0
    ensures Tracks(blocks, cap, last, size, written, n) <==>
      Sized(blocks, cap, last, size) && Stored(blocks, cap, written)
    decreases n
  {
    if n > 0 { OpenTracks(blocks, cap, last, size, written, n - 1); }
  }

  lemma {:induction false} PieceTracks(
      blocks: Blocks, cap: nat, last: nat, size: nat, written: map<nat, char>, n: nat, pos: nat, b: nat, w: Write)
    requires cap > 0 && w.End() <= cap && w.data != [] && pos == Start(b, cap) + w.off
    requires n > 2 && Tracks(blocks, cap, last, size, written, n)
    ensures var now := blocks[b := BlockIn(blocks, b).Then(w)];
      Tracks(now, cap, Max(last, b), Max(size, pos + |w.data|), Updated(written, pos, w.data), n)
  {
    OpenTracks(blocks, cap, last, size, written, n);
    PieceIsStored(blocks, cap, written, pos, b, w);
    PieceIsSized(blocks, cap, last, size, pos, b, w);
    var now := blocks[b := BlockIn(blocks, b).Then(w)];
    OpenTracks(now, cap, Max(last, b), Max(size, pos + |w.data|), Updated(written, pos, w.data), n);
  }

  lemma {:induction false} TouchTracks(
      blocks: Blocks, cap: nat, last: nat, size: nat, written: map<nat, char>, n: nat, b: nat)
    requires cap > 0 && n > 2 && Tracks(blocks, cap, last, size, written, n)
    ensures Tracks(blocks[b := BlockIn(blocks, b)], cap, last, size, written, n)
  {
    OpenTracks(blocks, cap, last, size, written, n);
    TouchKeeps(blocks, cap, written, last, size, b);
    OpenTracks(blocks[b := BlockIn(blocks, b)], cap, last, size, written, n);
  }

  lemma {:induction false} FlushTracks(
      blocks: Blocks, cap: nat, last: nat, size: nat, written: map<nat, char>, n: nat, b: nat, y: Pending)
    requires cap > 0 && n > 2 && Tracks(blocks, cap, last, size, written, n) && Flushed(BlockIn(blocks, b), y)
    ensures Tracks(blocks[b := y], cap, last, size, written, n) && y.Size() == BlockIn(blocks, b).Size()
  {
    OpenTracks(blocks, cap, last, size, written, n);
    FlushedSize(BlockIn(blocks, b), y);
    FlushKeeps(blocks, cap, written, last, size, b, y);
    OpenTracks(blocks[b := y], cap, last, size, written, n);
  }

  // ----- what is read

  ghost predicate Same(a: Blocks, b: Blocks) {
    forall c :: BlockIn(a, c) == BlockIn(b, c)
  }

  /** Some overlay of a block, read from `off`. */
  ghost predicate ReadsAs(x: Pending, off: nat, length: nat, out: Bytes) {
    exists v :: IsOverlay(x.base, x.writes, v) && out == ReadOf(v, off, length)
  }

  /** Position p may read as `byte`: what was written or stored there, anything in a gap, NUL behind the block's end. */
  ghost predicate ShowsAt(blocks: Blocks, cap: nat, p: nat, byte: char)
    requires cap > 0
  {
    var (b, r) := Locate(p, cap);
    var x := BlockIn(blocks, b);
    if r < x.Size() then Shown(x.base, x.writes, r, byte) else byte == '\0'
  }

  /** `out` is what the file shows from `off` on. */
  ghost predicate Shows(blocks: Blocks, cap: nat, off: nat, out: Bytes)
    requires cap > 0
  {
    forall i :: 0 <= i < |out| ==> ShowsAt(blocks, cap, off + i, out[i])
  }

  lemma {:induction false} ShowsSame(a: Blocks, b: Blocks, cap: nat, off: nat, out: Bytes)
    requires cap > 0 && Same(a, b) && Shows(a, cap, off, out)
    ensures Shows(b, cap, off, out)
  {
    forall i | 0 <= i < |out| ensures ShowsAt(b, cap, off + i, out[i]) { assert ShowsAt(a, cap, off + i, out[i]); }
  }

  lemma {:induction false} ShowsMore(
      blocks: Blocks, cap: nat, off: nat, out: Bytes, b: nat, r: nat, n: nat, piece: Bytes, m: nat)
    requires cap > 0 && Shows(blocks, cap, off, out) && Locate(off + |out|, cap) == (b, r) && r + n <= cap
    requires ReadsAs(BlockIn(blocks, b), r, n, piece) && m <= n == |piece|
    ensures Shows(blocks, cap, off, out + piece[..m])
  {
    var x, more := BlockIn(blocks, b), out + piece[..m];
    var v :| IsOverlay(x.base, x.writes, v) && piece == ReadOf(v, r, n);
    forall i | 0 <= i < |more| ensures ShowsAt(blocks, cap, off + i, more[i]) {
      if i < |out| {
        assert more[i] == out[i];
      } else {
        var j := r + i - |out|;
        LocateIsUnique(off + i, cap, b, j);
        assert more[i] == piece[i - |out|];
        if j < |v| { assert Shown(x.base, x.writes, j, v[j]); }
      }
    }
  }

  /** Every position that was written lies inside the file and shows the byte last written there, and no other. */
  lemma {:induction false} WrittenAreShown(
      blocks: Blocks, cap: nat, last: nat, size: nat, written: map<nat, char>, off: nat, out: Bytes, i: nat)
    requires cap > 0 && Sized(blocks, cap, last, size) && Stored(blocks, cap, written)
    requires Shows(blocks, cap, off, out) && i < |out| && off + i in written
    ensures off + i < size && out[i] == written[off + i]
  {
    var p := off + i;
    assert StoredAt(blocks, cap, p, written[p]) && ShowsAt(blocks, cap, p, out[i]);
    var (b, r) := Locate(p, cap);
    assert b in blocks && b <= last;
    if b < last { StartGrows(b, last, cap); }
  }

  /** How many bytes a flat file of that size has to offer from `off` on. */
  function Available(size: nat, off: nat, length: nat): nat {
    if off + length <= size then length else if off < size then size - off else 0
  }

  /** The cut of the last piece. */
  function CutAt(size: nat, r: nat, n: nat): nat {
    if size <= r then 0 else if n < size - r then n else size - r
  }

  /** Where the file ends for a client that takes block z for the last one. */
  ghost function EndAt(blocks: Blocks, cap: nat, z: nat): nat { Start(z, cap) + BlockIn(blocks, z).Size() }

  /** The last block that a read from `off` on looks at: z, or the block it begins in. */
  ghost function Furthest(z: nat, off: nat, cap: nat): nat
    requires cap > 0
  {
    Max(z, Locate(off, cap).0)
  }

  /** At the block taken for the last one or behind it, the read ends exactly where that block does. */
  lemma {:induction false} EndsWithBlock(
      blocks: Blocks, cap: nat, last: nat, size: nat, z: nat, off: nat, done: nat, todo: nat, b: nat, r: nat, n: nat)
    requires cap > 0 && Sized(blocks, cap, last, size) && todo > 0 && b >= z && Locate(off + done, cap) == (b, r)
    requires 0 < n <= todo && r + n <= cap && (n < todo ==> r + n == cap)
    requires done > 0 ==> off + done <= Start(z, cap)
    ensures done + CutAt(BlockIn(blocks, b).Size(), r, n) ==
      Available(EndAt(blocks, cap, Furthest(z, off, cap)), off, done + todo)
  {
    if done > 0 {
      if b > z { StartGrows(z, b, cap); }
      BeginsBefore(off, z, cap);
    }
  }

  lemma {:induction false} BeginsBefore(off: nat, z: nat, cap: nat)
    requires cap > 0 && off < Start(z, cap)
    ensures Locate(off, cap).0 < z
  {
    var b := Locate(off, cap).0;
    if z < b { StartGrows(z, b, cap); }
  }

  /** A nonempty read that takes block z for the last one is as long as the flat file allows: always if z, or the
      block it begins in, is the last one; if that is an earlier block, exactly if the request ends within it; if a
      later one, exactly if the request ends within the file or begins behind both ends. */
  lemma {:induction false} LengthIsExact(
      blocks: Blocks, cap: nat, last: nat, size: nat, z: nat, off: nat, length: nat)
    requires cap > 0 && Sized(blocks, cap, last, size)
    ensures var f := Furthest(z, off, cap);
      var end := EndAt(blocks, cap, f);
      Available(end, off, length) == Available(size, off, length) <==>
        || length == 0 || f == last
        || (f < last && off + length <= end) || (f > last && (off + length <= size || end <= off || end == size))
  {
    var f := Furthest(z, off, cap);
    if f < last {
      StartGrows(f, last, cap);
      if off >= size { BeginsBehind(off, last, cap); }
    } else if last < f {
      StartGrows(last, f, cap);
    }
  }

  /** The end of block z is the end of the file exactly if z is the last block, or the next one and the last is full. */
  lemma {:induction false} EndIsExact(blocks: Blocks, cap: nat, last: nat, size: nat, z: nat)
    requires cap > 0 && Sized(blocks, cap, last, size)
    ensures EndAt(blocks, cap, z) == size <==> z == last || (z == last + 1 && BlockIn(blocks, last).Size() == cap)
  {
    if z < last {
      StartGrows(z, last, cap);
    } else if last + 1 < z {
      StartGrows(last, last + 1, cap);
      StartGrows(last + 1, z, cap);
    }
  }

  lemma {:induction false} BeginsBehind(off: nat, z: nat, cap: nat)
    requires cap > 0 && off >= Start(z, cap)
    ensures Locate(off, cap).0 >= z
  {
    var b := Locate(off, cap).0;
    if b < z { StartGrows(b, z, cap); }
  }

  // ----- the last block, as the client knows it

  /** The keys that the drives hold when the end of the file is looked up, and which drives answer. */
  datatype Inventory = Inventory(drives: seq<seq<Key>>, numParity: nat, answering: seq<bool>, exists_: bool) {
    ghost predicate Valid() {
      |answering| == |drives| && forall d :: 0 <= d < |drives| ==> Sorted(drives[d])
    }

    function Answer(cluster: string, path: string): Eof
      requires |answering| == |drives|
    {
      EofOf(drives, numParity, answering, cluster, path, exists_)
    }
  }

  /** A verification: whether the last one was more than a second ago, and what the cluster holds at the first and at
      the second look. */
  datatype Check = Check(expired: bool, first: Inventory, second: Inventory) {
    ghost predicate Valid() { first.Valid() && second.Valid() }
  }

  /** The last block number after verify_eof, None where it throws. `dirty`: block `eof` has unflushed changes. */
  function Verified(c: Check, cluster: string, path: string, eof: nat, dirty: bool): Option<nat>
    requires |c.first.answering| == |c.first.drives| && |c.second.answering| == |c.second.drives|
  {
    if !c.expired then Some(eof)
    else
      match c.first.Answer(cluster, path)
      case Last(b) =>
        if b >= eof then Some(b)
        else if dirty then Some(eof)
        else if c.second.Answer(cluster, path).Last? then Some(c.second.Answer(cluster, path).block)
        else None
      case _ => None
  }

  /** The listing shows the last block: every answering drive that holds any block of the file holds it. */
  ghost predicate ShowsLast(l: Inventory, cluster: string, path: string, last: nat)
    requires l.Valid()
  {
    || HeldByAll(l.drives, l.answering, cluster, path, DataKey(cluster, path, last))
    || (last == 0 && l.exists_ && forall d :: 0 <= d < |l.drives| && l.answering[d] ==>
       !HasBlock(l.drives[d], cluster, path))
  }

  /** A quorum answers, and no foreign key is in the range. */
  ghost predicate Proper(l: Inventory, cluster: string, path: string, last: nat) {
    l.Valid() && Quorum(l.numParity, l.answering) && OwnUpTo(l.drives, cluster, path, last)
  }

  /** A verification that takes place finds the last block if and only if the first listing shows it or, where that one
      shows less than is known already, if the known block is the last and has unflushed changes, or has none and the
      second listing shows it. */
  lemma {:induction false} VerifiedExactly(c: Check, cluster: string, path: string, eof: nat, dirty: bool, last: nat)
    requires c.expired && eof <= last <= LAST
    requires Proper(c.first, cluster, path, last) && Proper(c.second, cluster, path, last)
    ensures Verified(c, cluster, path, eof, dirty) == Some(last) <==>
      || ShowsLast(c.first, cluster, path, last)
      || (var a := c.first.Answer(cluster, path);
          a.Last? && a.block < eof && if dirty then eof == last else ShowsLast(c.second, cluster, path, last))
  {
    LastBlockExactly(c.first.drives, c.first.numParity, c.first.answering, cluster, path, c.first.exists_, last);
    LastBlockExactly(c.second.drives, c.second.numParity, c.second.answering, cluster, path, c.second.exists_, last);
  }

  // ----- the file

  /** Whichever turn it takes place in, the verification leads from block e to block z. */
  ghost predicate AlwaysFinds(turns: nat -> Turn, cluster: string, path: string, e: nat, dirty: bool, z: nat)
  {
    forall k :: turns(k).check.Valid() && Verified(turns(k).check, cluster, path, e, dirty) == Some(z)
  }

  /** From block e, known first, and from block z, with or without unflushed changes, every verification finds z: behind
      a few steps of recursion. */
  datatype Lead = Lead(e: nat, de: bool, z: nat, dz: bool) {
    ghost predicate Holds(turns: nat -> Turn, cluster: string, path: string, n: nat)
      decreases n
    {
      if n > 0 then Holds(turns, cluster, path, n - 1)
      else AlwaysFinds(turns, cluster, path, e, de, z) && AlwaysFinds(turns, cluster, path, z, dz, z)
    }

    lemma {:induction false} Open(turns: nat -> Turn, cluster: string, path: string, n: nat)
      ensures Holds(turns, cluster, path, n) <==>
        AlwaysFinds(turns, cluster, path, e, de, z) && AlwaysFinds(turns, cluster, path, z, dz, z)
      decreases n
    {
      if n > 0 { Open(turns, cluster, path, n - 1); }
    }
  }

  lemma {:induction false} FindsOne(
      turns: nat -> Turn, cluster: string, path: string, e: nat, dirty: bool, y: nat, z: nat)
    requires AlwaysFinds(turns, cluster, path, e, dirty, y) && AlwaysFinds(turns, cluster, path, e, dirty, z)
    ensures y == z
  {
    assert turns(0).check.Valid() && Verified(turns(0).check, cluster, path, e, dirty) == Some(y);
  }

  /** What happens around one turn of the read loop: the verification, and whether the block was verified less than a
      second ago when it is read and when its size is asked for. */
  datatype Turn = Turn(check: Check, recentRead: bool, recentSize: bool)

  lemma {:induction false} SeparateGrows(blocks: map<nat, DataBlock>, b: nat, block: DataBlock)
    requires Separate(blocks) && forall c :: c in blocks ==> blocks[c] != block && blocks[c].store != block.store
    ensures Separate(blocks[b := block])
  {
  }

  ghost predicate Separate(blocks: map<nat, DataBlock>) {
    forall b, c :: b in blocks && c in blocks && b != c ==> blocks[b] != blocks[c] && blocks[b].store != blocks[c].store
  }

  ghost predicate IsFair(weather: nat -> seq<Fate>) {
    forall b: nat, i: nat :: i < |weather(b)| ==> weather(b)[i] == Answered
  }

  class File {
    const cap: nat
    const cluster: string
    const path: string
    /** How the requests for the key of each block go. */
    const weather: nat -> seq<Fate>
    var blocks: map<nat, DataBlock>
    /** The last block number known to this client. */
    var eof: nat
    /** The true last block, the byte last written to each position that was ever written, and the size. */
    ghost var last: nat
    ghost var written: map<nat, char>
    ghost var fileSize: nat

    /** The blocks and their stores, and what they hold. */
    ghost var objects: set<object>
    ghost var held: Blocks

    ghost predicate Sound()
      reads this`blocks, this`objects, this`held, objects
    {
      && held.Keys == blocks.Keys && Separate(blocks) && this !in objects && lock > 2
      && (forall b :: b in blocks ==> blocks[b] in objects && blocks[b].store in objects)
      && (forall b :: b in blocks ==> Locked(blocks[b], held[b], lock))
    }

    /** IsBlock and Sound behind a few steps of recursion, so that a proof about all blocks does not open each of them,
        nor a proof about the file all blocks. */
    ghost const lock: nat

    ghost predicate Whole(n: nat)
      reads this`blocks, this`objects, this`held, objects
      decreases n
    {
      if n == 0 then Sound() else Whole(n - 1)
    }

    lemma {:induction false} Open(n: nat)
      ensures Whole(n) <==> Sound()
      decreases n
    {
      if n > 0 { Open(n - 1); }
    }

    ghost predicate Locked(block: DataBlock, x: Pending, n: nat)
      reads block, block.store
      decreases n
    {
      if n == 0 then IsBlock(block, x) else Locked(block, x, n - 1)
    }

    lemma {:induction false} Unlock(block: DataBlock, x: Pending, n: nat)
      ensures Locked(block, x, n) <==> IsBlock(block, x)
      decreases n
    {
      if n > 0 { Unlock(block, x, n - 1); }
    }

    /** A block of the right capacity, on a key that only this client writes. A block is created with its first write,
        so it is dirty exactly if there are pending ones. */
    ghost predicate IsBlock(block: DataBlock, x: Pending)
      reads block, block.store
    {
      && block.Valid() && block.Alone() && block.store.capacity == cap && (Fair() ==> block.store.Calm())
      && (block.mode == CREATE ==> block.writes != [] || block.version != 0)
      && x == Pending(block.store.Latest(), block.writes, block.store.log != [])
    }

    /** No request ever fails. */
    ghost predicate Fair() { IsFair(weather) }

    /** Block b has unflushed changes. */
    ghost predicate Unflushed(b: nat)
      reads this`held
    {
      BlockIn(held, b).writes != []
    }

    ghost predicate Valid()
      reads this`blocks, this`objects, this`held, this`last, this`fileSize, this`written, objects
    {
      && cap > 0 && lock > 2 && this !in objects && held.Keys == blocks.Keys && Whole(lock)
      && Tracks(held, cap, last, fileSize, written, lock)
    }

    constructor (cap: nat, cluster: string, path: string, weather: nat -> seq<Fate>)
      requires cap > 0
      ensures Valid() && this.cap == cap && fileSize == 0 && written == map[] && eof == last && blocks == map[]
      ensures this.cluster == cluster && this.path == path && this.weather == weather && objects == {}
    {
      this.cap, this.cluster, this.path, this.weather, lock := cap, cluster, path, weather, 3;
      blocks, eof, last, written, fileSize, objects, held := map[], 0, 0, map[], 0, {}, map[];
      new;
      Open(lock);
      OpenTracks(held, cap, last, fileSize, written, lock);
    }

    /** A block on a key that nothing is stored under yet. */
    method NewBlock(b: nat, mode: Mode) returns (block: DataBlock)
      ensures fresh(block) && fresh(block.store) && block.Valid() && block.Alone() && block.mode == mode
      ensures block.store.capacity == cap && block.store.log == [] && block.writes == []
      ensures Fair() ==> block.store.Calm()
    {
      var fates := weather(b);
      var store := new Store(cap, seq(|fates|, i requires 0 <= i < |fates| => Event([], fates[i])));
      block := new DataBlock(store, mode);
    }

    /** DataCache::getDataKey for a read: the cached block, or a new one. */
    method GetBlock(b: nat)
      requires Sound()
      modifies this`blocks, this`objects, this`held
      ensures Sound() && b in blocks && fresh(objects - old(objects))
      ensures held == old(held)[b := BlockIn(old(held), b)]
      ensures b in old(blocks) ==> blocks == old(blocks)
    {
      if b in blocks {
        return;
      }
      var block := NewBlock(b, STANDARD);
      Unlock(block, Pending([], [], false), lock);
      Enter(b, block, Pending([], [], false));
    }

    method Enter(b: nat, block: DataBlock, ghost x: Pending)
      requires Sound() && b !in blocks && Locked(block, x, lock)
      requires block !in objects && block.store !in objects
      modifies this`blocks, this`objects, this`held
      ensures Sound() && blocks == old(blocks)[b := block] && objects == old(objects) + {block, block.store}
      ensures held == old(held)[b := x]
    {
      SeparateGrows(blocks, b, block);
      blocks, objects, held := blocks[b := block], objects + {block, block.store}, held[b := x];
    }

    /** Work on one block leaves the others alone. */
    twostate lemma StaysSound(b: nat)
      requires old(Sound()) && unchanged(this`blocks, this`objects)
      requires b in blocks && b in held && Locked(blocks[b], held[b], lock)
      requires unchanged(objects - {blocks[b], blocks[b].store}) && held == old(held)[b := held[b]]
      ensures Sound()
    {
      forall c | c in blocks && c != b ensures Locked(blocks[c], held[c], lock) {
        assert blocks[c] in objects - {blocks[b], blocks[b].store};
        assert blocks[c].store in objects - {blocks[b], blocks[b].store};
      }
    }

    /** A write to one block. */
    method WriteBlock(b: nat, mode: Mode, off: nat, data: Bytes)
      requires Whole(lock) && data != [] && off + |data| <= cap
      modifies this`blocks, this`objects, this`held, objects
      ensures Whole(lock) && fresh(objects - old(objects)) && this !in objects && held.Keys == blocks.Keys
      ensures held == old(held)[b := BlockIn(old(held), b).Then(Written(off, data))]
      ensures b in blocks && if b in old(blocks) then blocks == old(blocks) else blocks[b].mode == mode
    {
      Open(lock);
      WriteSound(b, mode, off, data);
      Open(lock);
    }

    method WriteSound(b: nat, mode: Mode, off: nat, data: Bytes)
      requires Sound() && data != [] && off + |data| <= cap
      modifies this`blocks, this`objects, this`held, objects
      ensures Sound() && fresh(objects - old(objects))
      ensures held == old(held)[b := BlockIn(old(held), b).Then(Written(off, data))]
      ensures b in blocks && if b in old(blocks) then blocks == old(blocks) else blocks[b].mode == mode
    {
      if b in blocks {
        WriteCached(b, off, data);
      } else {
        WriteCreated(b, mode, off, data);
      }
    }

    /** DataCache::getDataKey for a write to a block that is not cached, and the write. */
    method WriteCreated(b: nat, mode: Mode, off: nat, data: Bytes)
      requires Sound() && b !in blocks && data != [] && off + |data| <= cap
      modifies this`blocks, this`objects, this`held
      ensures Sound() && fresh(objects - old(objects)) && b in blocks && blocks[b].mode == mode
      ensures held == old(held)[b := Pending([], [], false).Then(Written(off, data))]
    {
      var block := NewBlock(b, mode);
      var r := block.Write(off, data);
      ghost var x := Pending([], [Written(off, data)], false);
      assert [] + [Written(off, data)] == x.writes;
      Unlock(block, x, lock);
      Enter(b, block, x);
    }

    method WriteCached(b: nat, off: nat, data: Bytes)
      requires Sound() && b in blocks && data != [] && off + |data| <= cap
      modifies blocks[b], this`held
      ensures Sound() && held == old(held)[b := old(held)[b].Then(Written(off, data))]
    {
      Unlock(blocks[b], held[b], lock);
      var r := blocks[b].Write(off, data);
      held := held[b := held[b].Then(Written(off, data))];
      Unlock(blocks[b], held[b], lock);
      StaysSound(b);
    }

    method ReadCached(b: nat, off: nat, length: nat, recent: bool) returns (r: Result<Bytes>)
      requires Sound() && b in blocks && off + length <= cap
      modifies blocks[b], blocks[b].store
      ensures Sound() && (r.Ok? ==> ReadsAs(held[b], off, length, r.value)) && r != InvalidArgument
      ensures Fair() ==> r.Ok?
    {
      Unlock(blocks[b], held[b], lock);
      r := blocks[b].Read(off, length, recent);
      Unlock(blocks[b], held[b], lock);
      StaysSound(b);
    }

    method SizeCached(b: nat, recent: bool) returns (r: Result<nat>)
      requires Sound() && b in blocks
      modifies blocks[b], blocks[b].store
      ensures Sound() && (r.Ok? ==> r.value == held[b].Size()) && (Fair() ==> r.Ok?)
    {
      Unlock(blocks[b], held[b], lock);
      r := blocks[b].Size(recent);
      Unlock(blocks[b], held[b], lock);
      StaysSound(b);
    }

    /** Flushing a block stores what it shows; the file shows the same bytes wherever they are determined. So it is if
        an error is reported, whether the put has taken effect or not. */
    method FlushBlock(b: nat) returns (r: Result<()>)
      requires Valid() && b in blocks
      modifies this`held, blocks[b], blocks[b].store
      ensures Valid() && (r.Ok? ==> held[b].writes == [] && held[b].stored)
      ensures forall c :: BlockIn(held, c).Size() == BlockIn(old(held), c).Size()
      ensures Fair() ==> r.Ok?
    {
      ghost var x;
      Open(lock);
      r, x := FlushCached(b);
      Open(lock);
      FlushTracks(old(held), cap, last, fileSize, written, lock, b, x);
    }

    method FlushCached(b: nat) returns (r: Result<()>, ghost x: Pending)
      requires Sound() && b in blocks
      modifies this`held, blocks[b], blocks[b].store
      ensures Sound() && held == old(held)[b := x] && Flushed(old(held)[b], x)
      ensures r.Ok? ==> x.writes == [] && x.stored
      ensures Fair() ==> r.Ok?
    {
      Unlock(blocks[b], held[b], lock);
      r, x := FlushOne(blocks[b], held[b]);
      held := held[b := x];
      Unlock(blocks[b], held[b], lock);
      StaysSound(b);
    }

    method FlushOne(block: DataBlock, ghost x: Pending) returns (r: Result<()>, ghost y: Pending)
      requires IsBlock(block, x)
      modifies block, block.store
      ensures IsBlock(block, y) && Flushed(x, y)
      ensures (r.Ok? ==> y.writes == [] && y.stored) && (Fair() ==> r.Ok?)
    {
      ghost var prior;
      r, prior := block.Flush();
      y := Pending(block.store.Latest(), block.writes, block.store.log != []);
    }

    // ----- writing

    /** One piece of a write: the part that falls into one block. */
    method WritePiece(pos: nat, b: nat, off: nat, data: Bytes)
      requires Valid() && data != [] && off + |data| <= cap && pos == Start(b, cap) + off
      modifies this, objects
      ensures Valid() && fresh(objects - old(objects)) && (old(eof) == old(last) ==> eof == last)
      ensures written == Updated(old(written), pos, data)
      ensures fileSize == Max(old(fileSize), pos + |data|)
      ensures eof == Max(old(eof), b) && b in blocks
      ensures b !in old(blocks) ==> blocks[b].mode == if b > old(eof) then CREATE else STANDARD
    {
      var mode := STANDARD;
      if b > eof {
        eof := b;
        mode := CREATE;
      }
      PieceTracks(held, cap, last, fileSize, written, lock, pos, b, Written(off, data));
      WriteBlock(b, mode, off, data);
      written, last, fileSize := Updated(written, pos, data), Max(last, b), Max(fileSize, pos + |data|);
    }

    /** The block that `pos` falls into, the offset there, and how much of the request fits. */
    method NextPiece(pos: nat, todo: nat) returns (b: nat, off: nat, length: nat)
      requires cap > 0 && todo > 0
      ensures Locate(pos, cap) == (b, off) && 0 < length <= todo && off + length <= cap
      ensures length < todo ==> off + length == cap
    {
      b := pos / cap;
      LocateIsDivision(pos, cap);
      off := pos - b * cap;
      length := if todo < cap - off then todo else cap - off;
    }

    /** One turn of the write loop. */
    method WriteNext(off: nat, data: Bytes, done: nat, ghost before: map<nat, char>) returns (length: nat)
      requires Valid() && done < |data| && written == Updated(before, off, data[..done])
      modifies this, objects
      ensures Valid() && fresh(objects - old(objects)) && (old(eof) == old(last) ==> eof == last)
      ensures 0 < length <= |data| - done
      ensures written == Updated(before, off, data[..done + length])
      ensures fileSize == Max(old(fileSize), off + done + length)
    {
      var b, r;
      b, r, length := NextPiece(off + done, |data| - done);
      NextUpdated(before, off, data, done, length);
      WritePiece(off + done, b, r, data[done..done + length]);
    }

    /** ReadWrite in WRITE mode: the pieces tile [off, off + |data|), block by block, none of them empty. */
    method Write(off: nat, data: Bytes) returns (n: nat)
      requires Valid()
      modifies this, objects
      ensures Valid() && fresh(objects - old(objects)) && (old(eof) == old(last) ==> eof == last) && n == |data|
      ensures written == Updated(old(written), off, data)
      ensures fileSize == if data == [] then old(fileSize) else Max(old(fileSize), off + |data|)
    {
      var todo: nat, done: nat := |data|, 0;
      ghost var before, size := written, fileSize;
      assert data[..0] == [];
      while todo > 0
        invariant Valid() && fresh(objects - old(objects)) && (old(eof) == old(last) ==> eof == last)
        invariant done + todo == |data|
        invariant written == Updated(before, off, data[..done])
        invariant fileSize == if done == 0 then size else Max(size, off + done)
      {
        var length := WriteNext(off, data, done, before);
        todo, done := todo - length, done + length;
      }
      assert data[..done] == data;
      n := |data| - todo;
    }

    // ----- reading

    /** Stat: the size of the file, reckoned from the block that the verification finds. */
    method Stat(c: Check, recent: bool) returns (r: Result<nat>)
      requires Valid() && c.Valid()
      modifies this, objects
      ensures Valid() && fresh(objects - old(objects)) && Steady()
      ensures r.Ok? ==> Verified(c, cluster, path, old(eof), old(Unflushed(eof))) == Some(eof)
      ensures r.Ok? ==>
        (r.value == fileSize <==> eof == last || (eof == last + 1 && BlockIn(held, last).Size() == cap))
      ensures r.Ok? ==> r.value == EndAt(held, cap, eof)
      ensures Fair() && Verified(c, cluster, path, old(eof), old(Unflushed(eof))).Some? ==> r.Ok?
    {
      var ok := VerifyEof(c);
      if !ok {
        return Result.IoError;
      }
      var size := SizeBlock(eof, recent);
      if !size.Ok? {
        return Result.IoError;
      }
      StartIsProduct(eof, cap);
      OpenTracks(held, cap, last, fileSize, written, lock);
      EndIsExact(held, cap, last, fileSize, eof);
      r := Ok(eof * cap + size.value);
    }

    /** Nothing that the results speak about has changed. */
    twostate predicate Steady()
      reads this`held, this`written, this`last, this`fileSize
    {
      Same(old(held), held) && written == old(written) && last == old(last) && fileSize == old(fileSize)
    }

    /** Getting a block to read from. */
    method TouchBlock(b: nat)
      requires Valid()
      modifies this`blocks, this`objects, this`held
      ensures Valid() && b in blocks && fresh(objects - old(objects)) && Steady()
    {
      Open(lock);
      TouchTracks(held, cap, last, fileSize, written, lock, b);
      GetBlock(b);
      Open(lock);
    }

    method ReadBlock(b: nat, off: nat, length: nat, recent: bool) returns (r: Result<Bytes>)
      requires Valid() && off + length <= cap
      modifies this`blocks, this`objects, this`held, objects
      ensures Valid() && fresh(objects - old(objects)) && Steady() && r != InvalidArgument
      ensures r.Ok? ==> ReadsAs(BlockIn(held, b), off, length, r.value) && |r.value| == length
      ensures Fair() ==> r.Ok?
    {
      TouchBlock(b);
      Open(lock);
      r := ReadCached(b, off, length, recent);
      Open(lock);
    }

    method SizeBlock(b: nat, recent: bool) returns (r: Result<nat>)
      requires Valid()
      modifies this`blocks, this`objects, this`held, objects
      ensures Valid() && fresh(objects - old(objects)) && Steady()
      ensures (r.Ok? ==> r.value == BlockIn(held, b).Size()) && (Fair() ==> r.Ok?)
    {
      TouchBlock(b);
      Open(lock);
      r := SizeCached(b, recent);
      Open(lock);
    }

    method IsDirty(b: nat) returns (r: bool)
      requires Valid()
      modifies this`blocks, this`objects, this`held
      ensures Valid() && fresh(objects - old(objects)) && Steady() && r == Unflushed(b)
    {
      TouchBlock(b);
      Open(lock);
      Unlock(blocks[b], held[b], lock);
      r := blocks[b].Dirty();
    }

    /** verify_eof: what the cluster says, unless the block known as the last one is beyond that and has unflushed
        changes; without such changes the cluster is asked once more. */
    method VerifyEof(c: Check) returns (ok: bool)
      requires Valid() && c.Valid()
      modifies this`eof, this`blocks, this`objects, this`held
      ensures Valid() && fresh(objects - old(objects)) && Steady()
      ensures match Verified(c, cluster, path, old(eof), old(Unflushed(eof)))
        case Some(e) => ok && eof == e
        case None => !ok && eof == old(eof)
    {
      ok := true;
      if c.expired {
        var first := Look(c.first);
        var done;
        done, ok := Consider(first);
        if !done {
          var second := Look(c.second);
          ok := second.Last?;
          if ok { eof := second.block; }
        }
      }
    }

    /** What the first look settles. */
    method Consider(first: Eof) returns (done: bool, ok: bool)
      requires Valid()
      modifies this`eof, this`blocks, this`objects, this`held
      ensures Valid() && fresh(objects - old(objects)) && Steady()
      ensures done == (!first.Last? || first.block >= old(eof) || old(Unflushed(eof))) && (done ==> ok == first.Last?)
      ensures eof == if first.Last? && first.block >= old(eof) then first.block else old(eof)
    {
      if !first.Last? {
        return true, false;
      }
      if first.block >= eof {
        eof := first.block;
        return true, true;
      }
      done := IsDirty(eof);
      ok := true;
    }

    method Look(l: Inventory) returns (r: Eof)
      requires |l.answering| == |l.drives|
      ensures r == l.Answer(cluster, path)
    {
      r := GetEofBackend(l.drives, l.numParity, l.answering, cluster, path, l.exists_);
    }

    /** The verification leads from block e to block z, from what is known now. */
    ghost predicate Finds(c: Check, e: nat, z: nat)
      requires c.Valid()
      reads this`held
    {
      Verified(c, cluster, path, e, Unflushed(e)) == Some(z)
    }

    /** Every verification, from the known block or from block z, finds z. */
    ghost predicate Settles(turns: nat -> Turn, z: nat)
      reads this`held, this`eof
    {
      && AlwaysFinds(turns, cluster, path, eof, Unflushed(eof), z)
      && AlwaysFinds(turns, cluster, path, z, Unflushed(z), z)
    }

    /** How much a read returns that takes block z for the last one. */
    ghost function Visible(z: nat, off: nat, length: nat): nat
      requires cap > 0
      reads this`held
    {
      Available(EndAt(held, cap, Furthest(z, off, cap)), off, length)
    }

    /** At or behind the last known block: verify that; if there is more, try again, otherwise cut the piece and end. */
    method ReadLast(
        off: nat, out: Bytes, ghost todo: nat, turn: Turn, b: nat, r: nat, n: nat, piece: Bytes, ghost m: nat)
      returns (more: Bytes, end: bool, ok: bool)
      requires Valid() && turn.check.Valid() && b >= eof
      requires Shows(held, cap, off, out) && Locate(off + |out|, cap) == (b, r)
      requires 0 < n <= todo && r + n <= cap && (n < todo ==> r + n == cap)
      requires ReadsAs(BlockIn(held, b), r, n, piece) && |piece| == n
      modifies this, objects
      ensures Valid() && fresh(objects - old(objects)) && Steady()
      ensures ok ==> Shows(held, cap, off, more) && |out| <= |more| <= |out| + n
      ensures ok ==> Verified(turn.check, cluster, path, old(eof), old(Unflushed(eof))) == Some(eof)
      ensures ok && !end ==> more == out && b < eof
      ensures ok && end && Max(old(eof), eof) == m && (out != [] ==> off + |out| <= Start(m, cap)) ==>
        |more| == Visible(m, off, |out| + todo)
      ensures Fair() && Verified(turn.check, cluster, path, old(eof), old(Unflushed(eof))).Some? ==> ok
    {
      more, end := out, false;
      ok := VerifyEof(turn.check);
      if !ok {
        return;
      }
      ShowsSame(old(held), held, cap, off, out);
      if b < eof {
        return;
      }
      assert BlockIn(held, b) == BlockIn(old(held), b);
      more, ok := CutLast(off, out, todo, turn.recentSize, b, r, n, piece, m);
      end := true;
    }

    /** The piece, cut where its block ends. */
    method CutLast(
        off: nat, out: Bytes, ghost todo: nat, recent: bool, b: nat, r: nat, n: nat, piece: Bytes, ghost z: nat)
      returns (more: Bytes, ok: bool)
      requires Valid() && Shows(held, cap, off, out) && Locate(off + |out|, cap) == (b, r)
      requires 0 < n <= todo && r + n <= cap && (n < todo ==> r + n == cap)
      requires ReadsAs(BlockIn(held, b), r, n, piece) && |piece| == n
      modifies this`blocks, this`objects, this`held, objects
      ensures Valid() && fresh(objects - old(objects)) && Steady()
      ensures ok ==> Shows(held, cap, off, more) && |out| <= |more| <= |out| + n
      ensures ok && b >= z && (out != [] ==> off + |out| <= Start(z, cap)) ==> |more| == Visible(z, off, |out| + todo)
      ensures Fair() ==> ok
    {
      var size := SizeBlock(b, recent);
      if !size.Ok? {
        return out, false;
      }
      ShowsSame(old(held), held, cap, off, out);
      assert BlockIn(held, b) == BlockIn(old(held), b);
      var m := CutAt(size.value, r, n);
      ShowsMore(held, cap, off, out, b, r, n, piece, m);
      if b >= z && (out != [] ==> off + |out| <= Start(z, cap)) {
        OpenTracks(held, cap, last, fileSize, written, lock);
        EndsWithBlock(held, cap, last, fileSize, z, off, |out|, todo, b, r, n);
      }
      return out + piece[..m], true;
    }

    /** So far the read has not gone past the blocks known, and those are not more than m. */
    ghost predicate OnTrack(off: nat, out: Bytes, m: nat)
      reads this`eof
    {
      eof <= m && (out != [] ==> off + |out| <= Start(eof, cap))
    }

    /** One turn of the read loop. */
    method ReadNext(off: nat, out: Bytes, todo: nat, turn: Turn, ghost z: nat)
      returns (more: Bytes, end: bool, ok: bool)
      requires Valid() && turn.check.Valid() && todo > 0 && Shows(held, cap, off, out)
      modifies this, objects
      ensures Valid() && fresh(objects - old(objects)) && Steady()
      ensures ok ==> Shows(held, cap, off, more) && |out| <= |more| <= |out| + todo
      ensures ok && !end ==> |out| < |more| || (more == out && old(eof) <= Locate(off + |out|, cap).0 < eof)
      ensures ok && old(OnTrack(off, out, Max(eof, z))) && old(Finds(turn.check, eof, z)) ==>
        if end then |more| == Visible(Max(old(eof), z), off, |out| + todo)
        else (eof == old(eof) || (eof == z && z > old(eof))) && OnTrack(off, more, Max(old(eof), z))
      ensures Fair() && old(Finds(turn.check, eof, z)) ==> ok
    {
      more, end, ok := out, false, false;
      var b, r, n := NextPiece(off + |out|, todo);
      var piece := ReadBlock(b, r, n, turn.recentRead);
      ShowsSame(old(held), held, cap, off, out);
      if !piece.Ok? {
        return;
      }
      if b < eof {
        ShowsMore(held, cap, off, out, b, r, n, piece.value, n);
        StartGrows(b, eof, cap);
        return out + piece.value[..n], false, true;
      }
      assert Unflushed(eof) == old(Unflushed(eof));
      if eof < z { StartGrows(eof, z, cap); }
      more, end, ok := ReadLast(off, out, todo, turn, b, r, n, piece.value, Max(eof, z));
    }

    /** A read that began with block e as the last known and settles on block z: e is known still, or z if it is
        larger, and the read has not gone past it. */
    ghost predicate OnCourse(off: nat, out: Bytes, e: nat, z: nat)
      reads this`eof
    {
      (eof == e || (eof == z && e < z)) && OnTrack(off, out, Max(e, z))
    }

    lemma {:induction false} CourseFinds(off: nat, out: Bytes, turns: nat -> Turn, k: nat, lead: Lead)
      requires lead.Holds(turns, cluster, path, lock) && OnCourse(off, out, lead.e, lead.z) && Dirt(lead)
      ensures turns(k).check.Valid() && Finds(turns(k).check, eof, lead.z) && Max(eof, lead.z) == Max(lead.e, lead.z)
    {
      lead.Open(turns, cluster, path, lock);
    }

    /** The lead knows which of its blocks have unflushed changes. */
    ghost predicate Dirt(lead: Lead)
      reads this`held
    {
      Unflushed(lead.e) == lead.de && Unflushed(lead.z) == lead.dz
    }

    method ReadTurn(off: nat, out: Bytes, todo: nat, turns: nat -> Turn, k: nat, ghost lead: Lead)
      returns (more: Bytes, end: bool, ok: bool)
      requires Valid() && turns(k).check.Valid() && todo > 0 && Shows(held, cap, off, out)
      modifies this, objects
      ensures Valid() && fresh(objects - old(objects)) && Steady()
      ensures ok ==> Shows(held, cap, off, more) && |out| <= |more| <= |out| + todo
      ensures ok && !end ==> |out| < |more| || (more == out && old(eof) <= Locate(off + |out|, cap).0 < eof)
      ensures lead.Holds(turns, cluster, path, lock) && old(OnCourse(off, out, lead.e, lead.z) && Dirt(lead)) ==>
        && (ok && end ==> |more| == Visible(Max(lead.e, lead.z), off, |out| + todo))
        && (ok && !end ==> OnCourse(off, more, lead.e, lead.z)) && (Fair() ==> ok)
    {
      if lead.Holds(turns, cluster, path, lock) && OnCourse(off, out, lead.e, lead.z) && Dirt(lead) {
        CourseFinds(off, out, turns, k, lead);
      }
      more, end, ok := ReadNext(off, out, todo, turns(k), lead.z);
    }

    /** The read loop, for a client whose verifications settle on a block. */
    method ReadPieces(off: nat, length: nat, turns: nat -> Turn, ghost lead: Lead)
      returns (out: Bytes, end: bool, ok: bool)
      requires Valid() && forall k :: turns(k).check.Valid()
      modifies this, objects
      ensures Valid() && fresh(objects - old(objects)) && Steady()
      ensures ok ==> Shows(held, cap, off, out) && |out| <= length && (end || |out| == length)
      ensures old(Leads(turns, lead)) ==>
        && (ok && end ==> |out| == Visible(Max(lead.e, lead.z), off, length))
        && (ok && !end ==> OnCourse(off, out, lead.e, lead.z)) && (Fair() ==> ok)
    {
      ghost var good := Leads(turns, lead);
      var k;
      out, k, end, ok := [], 0, false, true;
      while ok && !end && |out| < length
        invariant Valid() && fresh(objects - old(objects)) && Steady()
        invariant ok ==> Shows(held, cap, off, out) && |out| <= length
        invariant good && ok && end ==> |out| == Visible(Max(lead.e, lead.z), off, length)
        invariant good && ok && !end ==> OnCourse(off, out, lead.e, lead.z)
        invariant good && Fair() ==> ok
        decreases ok && !end, length - |out|, if Locate(off + |out|, cap).0 >= eof then 1 else 0
      {
        var more;
        assert Dirt(lead) == old(Dirt(lead));
        more, end, ok := ReadTurn(off, out, length - |out|, turns, k, lead);
        if ok { out, k := more, k + 1; }
      }
    }

    /** If the block settled on is below the one known first, the latter is what the read ends with. */
    method ReadLoop(off: nat, length: nat, turns: nat -> Turn, ghost lead: Lead) returns (r: Result<Bytes>)
      requires Valid() && forall k :: turns(k).check.Valid()
      modifies this, objects
      ensures Valid() && fresh(objects - old(objects)) && Steady()
      ensures r.Ok? ==> Shows(held, cap, off, r.value) && |r.value| <= length
      ensures old(Leads(turns, lead)) ==>
        (r.Ok? ==> |r.value| == Visible(Max(lead.e, lead.z), off, length)) && (Fair() ==> r.Ok?)
    {
      var out, end, ok := ReadPieces(off, length, turns, lead);
      if ok && !end && OnCourse(off, out, lead.e, lead.z) { EnoughIsThere(off, out, Max(lead.e, lead.z)); }
      r := if ok then Ok(out) else Result.IoError;
    }

    ghost predicate Leads(turns: nat -> Turn, lead: Lead)
      reads this`held, this`eof
    {
      lead.Holds(turns, cluster, path, lock) && eof == lead.e && Dirt(lead)
    }

    /** ReadWrite in READ mode: what the file shows, and as much of it as there is up to the end of the block that the
        verifications settle on, or of the block known before if that is larger, or of the block the read begins in. It
        succeeds if no request fails. If the first two are the true last block, this is exactly what a flat file has;
        LengthIsExact says when it is otherwise, and VerifiedExactly, in terms of the keys
        on the drives, when the true last block is found. */
    method Read(off: nat, length: nat, turns: nat -> Turn) returns (r: Result<Bytes>)
      requires Valid() && forall k :: turns(k).check.Valid()
      modifies this, objects
      ensures Valid() && fresh(objects - old(objects)) && Steady()
      ensures r.Ok? ==> Shows(held, cap, off, r.value) && |r.value| <= length
      ensures r.Ok? ==> forall z :: old(Settles(turns, z)) ==> |r.value| == Visible(Max(old(eof), z), off, length)
      ensures r.Ok? && old(eof <= last && Settles(turns, last)) ==> |r.value| == Available(fileSize, off, length)
      ensures Fair() && old(exists z :: Settles(turns, z)) ==> r.Ok?
    {
      ghost var z := SettledOn(turns);
      forall y | Settles(turns, y) ensures y == z { SettlesOnce(turns, y); }
      ghost var lead := Lead(eof, Unflushed(eof), z, Unflushed(z));
      lead.Open(turns, cluster, path, lock);
      r := ReadLoop(off, length, turns, lead);
      if r.Ok? { ReadsAll(off, length); }
    }

    /** The block that the verifications settle on, if they do. */
    ghost function SettledOn(turns: nat -> Turn): nat
      reads this`held, this`eof
    {
      if exists y: nat :: Settles(turns, y) then var y: nat :| Settles(turns, y); y else 0
    }

    lemma {:induction false} SettlesOnce(turns: nat -> Turn, y: nat)
      requires Settles(turns, y)
      ensures y == SettledOn(turns) && Settles(turns, SettledOn(turns))
    {
      FindsOne(turns, cluster, path, eof, Unflushed(eof), y, SettledOn(turns));
    }

    /** Up to the true last block this is all there is. */
    lemma {:induction false} ReadsAll(off: nat, length: nat)
      requires Valid()
      ensures Visible(last, off, length) == Available(fileSize, off, length)
    {
      OpenTracks(held, cap, last, fileSize, written, lock);
      LengthIsExact(held, cap, last, fileSize, last, off, length);
    }

    lemma {:induction false} EnoughIsThere(off: nat, out: Bytes, z: nat)
      requires Valid() && OnTrack(off, out, z)
      ensures |out| == Visible(z, off, |out|)
    {
      if eof < z { StartGrows(eof, z, cap); }
      if out != [] { BeginsBefore(off, z, cap); }
    }

    /** Three bytes in blocks of two: the third one is in block 1. */
    lemma {:induction false} ThreeBytes()
      requires Valid() && cap == 2 && fileSize == 3 && written == Updated(map[], 0, "abc")
      ensures last == 1 && 1 in blocks && BlockIn(held, 0).Size() == 2
    {
      OpenTracks(held, cap, last, fileSize, written, lock);
      UpdatedAt(map[], 0, "abc", 1);
      assert StoredAt(held, cap, 1, written[1]);
      StartIsProduct(last, cap);
    }

    /** What a read shows at a position that was ever written is the byte last written there. */
    lemma {:induction false} WrittenIsRead(off: nat, out: Bytes, i: nat)
      requires Valid() && Shows(held, cap, off, out) && i < |out| && off + i in written
      ensures off + i < fileSize && out[i] == written[off + i]
    {
      OpenTracks(held, cap, last, fileSize, written, lock);
      WrittenAreShown(held, cap, last, fileSize, written, off, out, i);
    }
  }

  // ----- a read that is cut short

  /** Four drives and stripes of three chunks: the first key is on drives 0 to 2, the second on drives 1 to 3. */
  function OnFourDrives(k0: Key, k1: Key): Inventory {
    Inventory([[k0], [k0, k1], [k0, k1], [k1]], 1, [true, true, true, true], true)
  }

  lemma {:induction false} FourDrivesAreSorted(k0: Key, k1: Key)
    requires Less(k0, k1)
    ensures OnFourDrives(k0, k1).Valid()
  {
  }

  function TwoBlocks(cluster: string, path: string): Inventory {
    OnFourDrives(DataKey(cluster, path, 0), DataKey(cluster, path, 1))
  }

  lemma {:induction false} TwoBlocksAnswer(cluster: string, path: string)
    ensures TwoBlocks(cluster, path).Valid() && TwoBlocks(cluster, path).Answer(cluster, path) == Last(0)
  {
    DataKeyOrder(cluster, path, 0, 1);
    FourDrivesAreSorted(DataKey(cluster, path, 0), DataKey(cluster, path, 1));
    MoreDrivesThanChunks(cluster, path, 1, true);
  }

  function Looks(i: Inventory): Check { Check(true, i, i) }

  /** Both looks find block 0, whatever is known before, unless that has unflushed changes. */
  lemma {:induction false} BothFindFirst(i: Inventory, cluster: string, path: string, eof: nat, dirty: bool)
    requires i.Valid() && i.Answer(cluster, path) == Last(0) && (dirty ==> eof == 0)
    ensures Looks(i).Valid() && Verified(Looks(i), cluster, path, eof, dirty) == Some(0)
  {
  }

  /** A client writes three bytes, the third of them into block 1, and stores that block. As all drives answer, its
      verification nevertheless settles on block 0, and a read of the three bytes returns two. */
  method ReadCutShort(cluster: string, path: string, weather: nat -> seq<Fate>) returns (stored: bool, r: Result<Bytes>)
    ensures stored && r.Ok? ==> r.value == "ab"
    ensures IsFair(weather) ==> stored && r.Ok?
  {
    var f;
    f, stored := StoreThree(cluster, path, weather);
    r := Result.IoError;
    if stored {
      var i := TwoBlocks(cluster, path);
      TwoBlocksAnswer(cluster, path);
      BothFindFirst(i, cluster, path, 1, false);
      var ok := f.VerifyEof(Looks(i));
      r := ReadThree(f, i);
    }
  }

  method ReadThree(f: File, i: Inventory) returns (r: Result<Bytes>)
    requires f.Valid() && f.cap == 2 && f.eof == 0 && BlockIn(f.held, 0).Size() == 2
    requires f.written == Updated(map[], 0, "abc") && i.Valid() && i.Answer(f.cluster, f.path) == Last(0)
    modifies f, f.objects
    ensures (r.Ok? ==> r.value == "ab") && (f.Fair() ==> r.Ok?)
  {
    var turns := (k: nat) => Turn(Looks(i), false, false);
    SettlesOnFirst(f, i, turns);
    r := f.Read(0, 3, turns);
    if r.Ok? { ReadsTwo(f, r.value); }
  }

  lemma {:induction false} SettlesOnFirst(f: File, i: Inventory, turns: nat -> Turn)
    requires f.eof == 0 && i.Valid() && i.Answer(f.cluster, f.path) == Last(0)
    requires forall k :: turns(k) == Turn(Looks(i), false, false)
    ensures f.Settles(turns, 0) && forall k :: turns(k).check.Valid()
  {
    BothFindFirst(i, f.cluster, f.path, 0, f.Unflushed(0));
  }

  lemma {:induction false} ReadsTwo(f: File, out: Bytes)
    requires f.Valid() && f.cap == 2 && BlockIn(f.held, 0).Size() == 2 && f.written == Updated(map[], 0, "abc")
    requires Shows(f.held, f.cap, 0, out) && |out| == f.Visible(0, 0, 3)
    ensures out == "ab"
  {
    UpdatedAt(map[], 0, "abc", 0);
    UpdatedAt(map[], 0, "abc", 1);
    f.WrittenIsRead(0, out, 0);
    f.WrittenIsRead(0, out, 1);
  }

  method StoreThree(cluster: string, path: string, weather: nat -> seq<Fate>) returns (f: File, stored: bool)
    ensures fresh(f) && fresh(f.objects) && f.Valid() && f.cap == 2 && f.cluster == cluster && f.path == path
    ensures f.weather == weather && (f.Fair() ==> stored)
    ensures f.eof == f.last == 1 && BlockIn(f.held, 0).Size() == 2 && (stored ==> !f.Unflushed(1))
    ensures f.fileSize == 3 && f.written == Updated(map[], 0, "abc")
  {
    f := WriteThree(cluster, path, weather);
    f.ThreeBytes();
    f.Open(f.lock);
    var flushed := f.FlushBlock(1);
    stored := flushed.Ok?;
  }

  method WriteThree(cluster: string, path: string, weather: nat -> seq<Fate>) returns (f: File)
    ensures fresh(f) && fresh(f.objects) && f.Valid() && f.cap == 2 && f.cluster == cluster && f.path == path
    ensures f.weather == weather && f.eof == f.last && f.fileSize == 3 && f.written == Updated(map[], 0, "abc")
  {
    f := new File(2, cluster, path, weather);
    var n := f.Write(0, "abc");
  }
}
