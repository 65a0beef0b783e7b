/** RedundancyProvider: completing a stripe of data and parity blocks from the blocks at hand.

A block is a sequence of symbols; an empty block is a missing one. The encode matrix and its inversion come
from the erasure coding library and are parameters: the top rows of the encode matrix are the identity, and
inverting the rows of any numData blocks succeeds. */
module Redundancy {
  import opened Laws
  import opened LinearAlgebra

  type Block<T> = seq<T>

  datatype Failure = IllegalStripeSize | NonStaticBlockSize | MoreErrorsThanParity
  datatype Outcome<T> = Done(value: T) | Thrown(error: Failure)

  /** Positions of `pattern` that hold `val`, ascending. */
  function Where(pattern: seq<bool>, val: bool): (w: seq<nat>)
    ensures |w| <= |pattern|
    ensures forall i :: 0 <= i < |w| ==> w[i] < |pattern| && pattern[w[i]] == val
  {
    if pattern == [] then []
    else Where(pattern[..|pattern| - 1], val) + if pattern[|pattern| - 1] == val then [|pattern| - 1] else []
  }

  lemma {:induction false} WherePush(pattern: seq<bool>, i: nat, val: bool)
    requires i < |pattern|
    ensures Where(pattern[..i + 1], val) == Where(pattern[..i], val) + if pattern[i] == val then [i] else []
  {
    assert pattern[..i + 1][..i] == pattern[..i];
  }

  lemma {:induction false} WherePartition(pattern: seq<bool>)
    ensures |Where(pattern, true)| + |Where(pattern, false)| == |pattern|
    decreases |pattern|
  {
    if pattern != [] { WherePartition(pattern[..|pattern| - 1]); }
  }

  lemma {:induction false} WherePrefix(pattern: seq<bool>, i: nat, val: bool)
    requires i <= |pattern|
    ensures Where(pattern[..i], val) <= Where(pattern, val)
    decreases |pattern| - i
  {
    if i < |pattern| {
      WherePush(pattern, i, val);
      WherePrefix(pattern, i + 1, val);
    } else {
      assert pattern[..i] == pattern;
    }
  }

  /** The marked position `i` is listed right after the marked positions before it. */
  lemma {:induction false} WhereAt(pattern: seq<bool>, i: nat, val: bool)
    requires i < |pattern| && pattern[i] == val
    ensures |Where(pattern[..i], val)| < |Where(pattern, val)| && Where(pattern, val)[|Where(pattern[..i], val)|] == i
  {
    WherePush(pattern, i, val);
    WherePrefix(pattern, i + 1, val);
  }

  /** The marked positions below `k` are listed first. */
  lemma {:induction false} WhereBelow(pattern: seq<bool>, k: nat, val: bool, e: nat)
    requires k <= |pattern| && e < |Where(pattern, val)|
    ensures Where(pattern, val)[e] < k <==> e < |Where(pattern[..k], val)|
    decreases |pattern|
  {
    WherePrefix(pattern, k, val);
    if k < |pattern| {
      var n := |pattern| - 1;
      if e < |Where(pattern[..n], val)| {
        WhereBelow(pattern[..n], k, val, e);
        assert pattern[..n][..k] == pattern[..k];
      } else {
        WherePrefix(pattern[..n], k, val);
        assert pattern[..n][..k] == pattern[..k];
      }
    } else {
      assert pattern[..k] == pattern;
    }
  }

  /** Size of the first block that is not empty, 0 if there is none. */
  function FirstSize<T>(stripe: seq<Block<T>>): nat {
    if stripe == [] then 0
    else var f := FirstSize(stripe[..|stripe| - 1]); if f > 0 then f else |stripe[|stripe| - 1]|
  }

  lemma {:induction false} FirstSizeIs<T>(stripe: seq<Block<T>>, len: nat, k: nat)
    requires forall i :: 0 <= i < |stripe| ==> stripe[i] == [] || |stripe[i]| == len
    requires k < |stripe| && stripe[k] != []
    ensures FirstSize(stripe) == len
    decreases |stripe|
  {
    var n := |stripe| - 1;
    if k < n {
      FirstSizeIs(stripe[..n], len, k);
    } else if j :| 0 <= j < n && stripe[j] != [] {
      FirstSizeIs(stripe[..n], len, j);
    } else {
      FirstSizeZero(stripe[..n]);
    }
  }

  lemma {:induction false} FirstSizeZero<T>(stripe: seq<Block<T>>)
    requires forall i :: 0 <= i < |stripe| ==> stripe[i] == []
    ensures FirstSize(stripe) == 0
    decreases |stripe|
  {
    if stripe != [] { FirstSizeZero(stripe[..|stripe| - 1]); }
  }

  lemma {:induction false} FirstSizeAt<T>(stripe: seq<Block<T>>, k: nat)
    requires k <= |stripe| && forall i :: 0 <= i < k ==> stripe[i] == []
    requires k < |stripe| ==> stripe[k] != []
    ensures FirstSize(stripe) == if k < |stripe| then |stripe[k]| else 0
    decreases |stripe|
  {
    if k + 1 < |stripe| {
      FirstSizeAt(stripe[..|stripe| - 1], k);
    } else if k == |stripe| {
      FirstSizeZero(stripe);
    } else {
      FirstSizeZero(stripe[..k]);
    }
  }

  /** Rows that rebuild the missing blocks, in ascending block order, from the blocks listed in `indices`. */
  datatype CodingTable<T> = CodingTable(indices: seq<nat>, rows: Mat<T>)

  datatype Code<!T(!new)> = Code(R: Ring<T>, nData: nat, nParity: nat, encode: Mat<T>, invert: Mat<T> -> Mat<T>) {
    function Size(): nat { nData + nParity }

    ghost predicate Recoverable(pattern: seq<bool>) {
      |pattern| == Size() && |Where(pattern, true)| <= nParity
    }

    ghost predicate Valid() {
      && Lawful(R) && nData > 0 && IsMatrix(encode, Size(), nData)
      && (forall i :: 0 <= i < nData ==> encode[i] == UnitRow(R, nData, i))
      && (forall pattern {:trigger Recoverable(pattern)} :: Recoverable(pattern) ==>
            LeftInverse(R, invert(SurvivingRows(pattern)), SurvivingRows(pattern), nData))
    }

    /** The first nData surviving blocks. */
    ghost function Indices(pattern: seq<bool>): (w: seq<nat>)
      requires Recoverable(pattern)
      ensures |w| == nData && forall i :: 0 <= i < |w| ==> w[i] < Size() && !pattern[w[i]]
    {
      WherePartition(pattern);
      Where(pattern, false)[..nData]
    }

    ghost function SurvivingRows(pattern: seq<bool>): (B: Mat<T>)
      requires |encode| == Size() && Recoverable(pattern)
      ensures |B| == nData
    {
      seq(nData, i requires 0 <= i < nData => encode[Indices(pattern)[i]])
    }

    /** The row that rebuilds block `r`: a row of the inverse for data, encode row times inverse for parity. */
    ghost function DecodeRow(pattern: seq<bool>, r: nat): (row: Vec<T>)
      requires Valid() && Recoverable(pattern) && r < Size()
      ensures |row| == nData
    {
      var inv := invert(SurvivingRows(pattern));
      assert IsMatrix(inv, nData, nData);
      if r < nData then inv[r] else VecMat(R, encode[r], inv, nData)
    }

    ghost function TableFor(pattern: seq<bool>): CodingTable<T>
      requires Valid() && Recoverable(pattern)
    {
      var errs := Where(pattern, true);
      CodingTable(Indices(pattern), seq(|errs|, e requires 0 <= e < |errs| => DecodeRow(pattern, errs[e])))
    }

    /** The matrix that is effectively in use: a single data block is replicated. */
    ghost function Effective(): (M: Mat<T>)
      requires Valid()
      ensures IsMatrix(M, Size(), nData)
    {
      if nData == 1 then seq(Size(), i => [R.one]) else encode
    }

    /** All blocks of the stripe that belongs to `data`. */
    ghost function Codeword(data: Mat<T>, len: nat): (w: seq<Block<T>>)
      requires Valid() && IsMatrix(data, nData, len)
      ensures |w| == Size() && forall i :: 0 <= i < |w| ==> |w[i]| == len
    {
      seq(Size(), i requires 0 <= i < Size() => VecMat(R, Effective()[i], data, len))
    }

    lemma {:induction false} DataIsPrefix(data: Mat<T>, len: nat)
      requires Valid() && IsMatrix(data, nData, len)
      ensures Codeword(data, len)[..nData] == data
    {
      forall i | 0 <= i < nData ensures Codeword(data, len)[i] == data[i] {
        assert Effective()[i] == UnitRow(R, nData, i);
        forall b | 0 <= b < len ensures Codeword(data, len)[i][b] == data[i][b] {
          DotUnit(R, nData, i, Column(data, len, b));
        }
      }
    }

    ghost predicate Missing(stripe: seq<Block<T>>, pattern: seq<bool>) {
      |pattern| == |stripe| && forall i :: 0 <= i < |stripe| ==> (pattern[i] <==> stripe[i] == [])
    }

    ghost function Pattern(stripe: seq<Block<T>>): (p: seq<bool>)
      ensures |p| == |stripe| && Missing(stripe, p)
    {
      seq(|stripe|, i requires 0 <= i < |stripe| => |stripe[i]| == 0)
    }

    ghost predicate SameSizes(stripe: seq<Block<T>>, len: nat) {
      forall i :: 0 <= i < |stripe| ==> stripe[i] == [] || |stripe[i]| == len
    }

    /** The stripe with every missing block rebuilt. */
    ghost function Completed(stripe: seq<Block<T>>, len: nat): (s: seq<Block<T>>)
      requires Valid() && |stripe| == Size() && Recoverable(Pattern(stripe)) && SameSizes(stripe, len) && len > 0
      ensures |s| == Size()
    {
      var pattern := Pattern(stripe);
      if nData == 1 then
        seq(Size(), i requires 0 <= i < Size() => if pattern[i] then stripe[Indices(pattern)[0]] else stripe[i])
      else
        var blocks := Survivors(stripe, len);
        seq(Size(), i requires 0 <= i < Size() =>
          if pattern[i] then VecMat(R, DecodeRow(pattern, i), blocks, len) else stripe[i])
    }

    /** The conditions under which a stripe can be completed. */
    ghost predicate Solvable(stripe: seq<Block<T>>) {
      |stripe| == Size() && Recoverable(Pattern(stripe)) && SameSizes(stripe, FirstSize(stripe))
    }

    /** Why it cannot be completed otherwise; no stripe meets two of the conditions. */
    ghost predicate Refused(stripe: seq<Block<T>>, error: Failure) {
      match error
      case IllegalStripeSize => |stripe| != Size()
      case NonStaticBlockSize => |stripe| == Size() && !SameSizes(stripe, FirstSize(stripe))
      case MoreErrorsThanParity =>
        |stripe| == Size() && SameSizes(stripe, FirstSize(stripe)) && |Where(Pattern(stripe), true)| > nParity
    }

    ghost function Solution(stripe: seq<Block<T>>): (s: seq<Block<T>>)
      requires Valid() && Solvable(stripe)
      ensures |s| == Size()
    {
      PresentBlock(stripe, FirstSize(stripe));
      Completed(stripe, FirstSize(stripe))
    }

    /** A recoverable stripe has a block at hand, so the common size is determined. */
    lemma {:induction false} PresentBlock(stripe: seq<Block<T>>, len: nat)
      requires nData > 0 && |stripe| == Size() && Recoverable(Pattern(stripe)) && SameSizes(stripe, len)
      ensures FirstSize(stripe) == len > 0
    {
      var k := Indices(Pattern(stripe))[0];
      assert !Pattern(stripe)[k] && stripe[k] != [];
      FirstSizeIs(stripe, len, k);
    }

    ghost function Survivors(stripe: seq<Block<T>>, len: nat): (B: Mat<T>)
      requires |stripe| == Size() && Recoverable(Pattern(stripe)) && SameSizes(stripe, len)
      ensures IsMatrix(B, nData, len)
    {
      var w := Indices(Pattern(stripe));
      assert forall j :: 0 <= j < nData ==> !Pattern(stripe)[w[j]] && |stripe[w[j]]| == len;
      seq(nData, j requires 0 <= j < nData => stripe[w[j]])
    }

    /** `stripe` is what is left of the codeword of `data`. */
    ghost predicate PartOf(stripe: seq<Block<T>>, data: Mat<T>, len: nat)
      requires Valid() && IsMatrix(data, nData, len)
    {
      |stripe| == Size() && forall i :: 0 <= i < |stripe| ==> stripe[i] == [] || stripe[i] == Codeword(data, len)[i]
    }

    /** One missing block, data or parity, is rebuilt symbol by symbol. */
    lemma {:induction false} RebuildsBlock(stripe: seq<Block<T>>, data: Mat<T>, len: nat, r: nat)
      requires Valid() && nData > 1 && len > 0 && IsMatrix(data, nData, len) && r < Size()
      requires PartOf(stripe, data, len) && Recoverable(Pattern(stripe))
      ensures VecMat(R, DecodeRow(Pattern(stripe), r), Survivors(stripe, len), len) == Codeword(data, len)[r]
    {
      var pattern := Pattern(stripe);
      var blocks, B := Survivors(stripe, len), SurvivingRows(pattern);
      var inv := invert(B);
      assert LeftInverse(R, inv, B, nData);
      forall b | 0 <= b < len
        ensures Dot(R, DecodeRow(pattern, r), Column(blocks, len, b)) == Codeword(data, len)[r][b]
      {
        var x := Column(data, len, b);
        forall j | 0 <= j < nData ensures Column(blocks, len, b)[j] == MatVec(R, B, x)[j] {
          assert stripe[Indices(pattern)[j]] == Codeword(data, len)[Indices(pattern)[j]];
        }
        assert Column(blocks, len, b) == MatVec(R, B, x);
        if r < nData {
          InverseRecovers(R, inv, B, x, r);
          DotUnit(R, nData, r, x);
        } else {
          InverseRow(R, encode[r], inv, B, x);
        }
      }
    }

    /** Whatever at most nParity blocks are missing, completing the rest gives back the whole stripe. */
    lemma {:induction false} CompletedIsCodeword(stripe: seq<Block<T>>, data: Mat<T>, len: nat)
      requires Valid() && len > 0 && IsMatrix(data, nData, len)
      requires PartOf(stripe, data, len) && Recoverable(Pattern(stripe))
      ensures Solvable(stripe) && Solution(stripe) == Codeword(data, len)
    {
      assert SameSizes(stripe, len);
      PresentBlock(stripe, len);
      var pattern := Pattern(stripe);
      forall i | 0 <= i < Size() ensures Completed(stripe, len)[i] == Codeword(data, len)[i] {
        if pattern[i] && nData > 1 {
          RebuildsBlock(stripe, data, len, i);
        } else if pattern[i] {
          var j := Indices(pattern)[0];
          assert stripe[j] == Codeword(data, len)[j] && Effective()[i] == Effective()[j];
        }
      }
    }
  }

  class RedundancyProvider<T(!new, ==)> {
    const code: Code<T>
    var cache: map<seq<bool>, CodingTable<T>>

    ghost predicate Valid()
      reads this
    {
      && code.Valid()
      && forall pattern :: pattern in cache ==> code.Recoverable(pattern) && cache[pattern] == code.TableFor(pattern)
    }

    constructor (code: Code<T>)
      requires code.Valid()
      ensures Valid() && this.code == code
    {
      this.code := code;
      this.cache := map[];
    }

    /** Which blocks are missing, or why the stripe cannot be completed. The second result is the common block size. */
    method GetErrorPattern(stripe: seq<Block<T>>) returns (r: Outcome<seq<bool>>, blockSize: nat)
      ensures r.Thrown? ==> code.Refused(stripe, r.error)
      ensures r.Done? ==> r.value == code.Pattern(stripe) && blockSize == FirstSize(stripe)
      ensures r.Done? <==> code.Solvable(stripe)
    {
      blockSize := 0;
      if |stripe| != code.Size() {
        return Thrown(IllegalStripeSize), 0;
      }
      var pattern: seq<bool> := [];
      var nErrs := 0;
      ghost var all := code.Pattern(stripe);
      ghost var k := 0;
      for i := 0 to |stripe|
        invariant pattern == all[..i] && nErrs == |Where(all[..i], true)|
        invariant k <= i && (forall j :: 0 <= j < k ==> stripe[j] == [])
        invariant if blockSize == 0 then k == i else k < i && |stripe[k]| == blockSize
        invariant forall j :: k <= j < i ==> stripe[j] == [] || |stripe[j]| == blockSize
      {
        WherePush(all, i, true);
        assert all[..i + 1] == all[..i] + [all[i]];
        if |stripe[i]| == 0 {
          pattern, nErrs := pattern + [true], nErrs + 1;
          if blockSize == 0 { k := k + 1; }
        } else {
          pattern := pattern + [false];
          if blockSize == 0 {
            blockSize := |stripe[i]|;
          }
          if blockSize != |stripe[i]| {
            FirstSizeAt(stripe, k);
            return Thrown(NonStaticBlockSize), 0;
          }
        }
      }
      assert all[..|stripe|] == all;
      FirstSizeAt(stripe, k);
      if nErrs > code.nParity {
        return Thrown(MoreErrorsThanParity), 0;
      }
      r := Done(pattern);
    }

    /** Matrix b: the encode rows of the first nData surviving blocks, with their block numbers. */
    method RemoveErrorRows(pattern: seq<bool>) returns (b: Mat<T>, index: seq<nat>)
      requires |code.encode| == code.Size() && code.Recoverable(pattern)
      ensures index == code.Indices(pattern) && b == code.SurvivingRows(pattern)
    {
      b, index := [], [];
      var r := 0;
      assert pattern[..|pattern|] == pattern;
      WherePartition(pattern);
      for i := 0 to code.nData
        invariant r <= |pattern| && |index| == |b| == i && index == Where(pattern[..r], false)
        invariant forall j :: 0 <= j < i ==> b[j] == code.encode[index[j]]
      {
        r := NextPresent(pattern, r);
        WherePush(pattern, r, false);
        b, index := b + [code.encode[r]], index + [r];
        r := r + 1;
      }
      WherePrefix(pattern, r, false);
    }

    /** Skip the blocks that are missing. */
    method NextPresent(pattern: seq<bool>, start: nat) returns (r: nat)
      requires start <= |pattern|
      ensures start <= r <= |pattern| && (r < |pattern| ==> !pattern[r])
      ensures Where(pattern[..r], false) == Where(pattern[..start], false)
    {
      r := start;
      while r < |pattern| && pattern[r]
        invariant start <= r <= |pattern| && Where(pattern[..r], false) == Where(pattern[..start], false)
      {
        WherePush(pattern, r, false);
        r := r + 1;
      }
    }

    /** gf_gen_decode_matrix on the path where the first inversion succeeds. */
    method GenDecodeMatrix(pattern: seq<bool>, errs: seq<nat>, nsrcerrs: nat) returns (table: CodingTable<T>)
      requires code.Valid() && code.Recoverable(pattern)
      requires errs == Where(pattern, true) && nsrcerrs == |Where(pattern[..code.nData], true)|
      ensures table == code.TableFor(pattern)
    {
      var b, index := RemoveErrorRows(pattern);
      var inv := code.invert(b);
      WherePrefix(pattern, code.nData, true);
      var dataRows := DataRows(pattern, errs, nsrcerrs, inv);
      var rows := ParityRows(pattern, errs, nsrcerrs, inv, dataRows);
      table := CodingTable(index, rows);
    }

    /** For missing data blocks, the rows of the inverse. */
    method DataRows(pattern: seq<bool>, errs: seq<nat>, nsrcerrs: nat, inv: Mat<T>) returns (rows: Mat<T>)
      requires code.Valid() && code.Recoverable(pattern) && errs == Where(pattern, true)
      requires nsrcerrs == |Where(pattern[..code.nData], true)| <= |errs|
      requires inv == code.invert(code.SurvivingRows(pattern))
      ensures rows == code.TableFor(pattern).rows[..nsrcerrs]
    {
      ghost var want := code.TableFor(pattern).rows;
      rows := [];
      for e := 0 to nsrcerrs
        invariant rows == want[..e]
      {
        TableRow(pattern, e);
        rows := rows + [inv[errs[e]]];
      }
    }

    /** For missing parities, the encode row times the inverse. */
    method ParityRows(pattern: seq<bool>, errs: seq<nat>, nsrcerrs: nat, inv: Mat<T>, dataRows: Mat<T>)
      returns (rows: Mat<T>)
      requires code.Valid() && code.Recoverable(pattern) && errs == Where(pattern, true)
      requires nsrcerrs == |Where(pattern[..code.nData], true)| <= |errs|
      requires inv == code.invert(code.SurvivingRows(pattern))
      requires dataRows == code.TableFor(pattern).rows[..nsrcerrs]
      ensures rows == code.TableFor(pattern).rows
    {
      ghost var want := code.TableFor(pattern).rows;
      rows := dataRows;
      for p := nsrcerrs to |errs|
        invariant rows == want[..p]
      {
        TableRow(pattern, p);
        var row := ParityRow(inv, code.encode[errs[p]]);
        rows := rows + [row];
      }
    }

    /** Row e of the table rebuilds the e-th missing block; missing data blocks come first. */
    lemma {:induction false} TableRow(pattern: seq<bool>, e: nat)
      requires code.Valid() && code.Recoverable(pattern) && e < |Where(pattern, true)|
      ensures var r, inv := Where(pattern, true)[e], code.invert(code.SurvivingRows(pattern));
        && (r < code.nData <==> e < |Where(pattern[..code.nData], true)|) && IsMatrix(inv, code.nData, code.nData)
        && code.TableFor(pattern).rows[e] ==
           if r < code.nData then inv[r] else VecMat(code.R, code.encode[r], inv, code.nData)
    {
      WhereBelow(pattern, code.nData, true, e);
    }

    method ParityRow(inv: Mat<T>, encodeRow: Vec<T>) returns (row: Vec<T>)
      requires Lawful(code.R) && IsMatrix(inv, |encodeRow|, |encodeRow|)
      ensures row == VecMat(code.R, encodeRow, inv, |encodeRow|)
    {
      ghost var want := VecMat(code.R, encodeRow, inv, |encodeRow|);
      row := [];
      for i := 0 to |encodeRow|
        invariant row == want[..i]
      {
        var s := SumOfProducts(inv, i, encodeRow);
        row := row + [s];
      }
    }

    /** The innermost loop: products taken as inverse entry times encode entry. */
    method SumOfProducts(inv: Mat<T>, i: nat, row: Vec<T>) returns (s: T)
      requires Lawful(code.R) && i < |row| && IsMatrix(inv, |row|, |row|)
      ensures s == Dot(code.R, row, Column(inv, |row|, i))
    {
      var R := code.R;
      ghost var col := Column(inv, |row|, i);
      s := R.zero;
      for j := 0 to |row|
        invariant s == Dot(R, row[..j], col[..j])
      {
        assert At(inv[j][i], row[j], s);
        assert row[..j + 1][..j] == row[..j] && col[..j + 1][..j] == col[..j];
        s := R.add(s, R.mul(inv[j][i], row[j]));
      }
      assert row[..|row|] == row && col[..|row|] == col;
    }

    /** The numbers of the missing blocks and how many of them are data blocks. */
    method ExpandPattern(pattern: seq<bool>) returns (errs: seq<nat>, nsrcerrs: nat)
      requires |pattern| == code.Size()
      ensures errs == Where(pattern, true) && nsrcerrs == |Where(pattern[..code.nData], true)|
    {
      errs, nsrcerrs := [], 0;
      assert pattern[..|pattern|] == pattern;
      for i := 0 to |pattern|
        invariant errs == Where(pattern[..i], true)
        invariant nsrcerrs == |Where(pattern[..if i < code.nData then i else code.nData], true)|
      {
        WherePush(pattern, i, true);
        if pattern[i] {
          errs := errs + [i];
          if i < code.nData { nsrcerrs := nsrcerrs + 1; }
        }
      }
    }

    method GetCodingTable(pattern: seq<bool>) returns (table: CodingTable<T>)
      requires Valid() && code.Recoverable(pattern)
      modifies this`cache
      ensures Valid() && table == code.TableFor(pattern)
      ensures cache == old(cache)[pattern := table]
    {
      if pattern !in cache {
        var errs, nsrcerrs := ExpandPattern(pattern);
        var dd := GenDecodeMatrix(pattern, errs, nsrcerrs);
        cache := cache[pattern := dd];
      }
      table := cache[pattern];
    }

    /** Fills in the missing blocks of the stripe in place, or leaves it alone and reports why it cannot. */
    method Compute(stripe: array<Block<T>>) returns (r: Outcome<()>)
      requires Valid()
      modifies this`cache, stripe
      ensures Valid()
      ensures r.Done? <==> code.Solvable(old(stripe[..]))
      ensures r.Thrown? ==> code.Refused(old(stripe[..]), r.error)
      ensures stripe[..] == if r.Done? then code.Solution(old(stripe[..])) else old(stripe[..])
    {
      ghost var before := stripe[..];
      var checked, blockSize := GetErrorPattern(stripe[..]);
      if checked.Thrown? {
        return Thrown(checked.error);
      }
      var pattern := checked.value;
      code.PresentBlock(before, blockSize);
      if code.nParity == 0 {
        NoneMarked(pattern);
        assert stripe[..] == code.Completed(before, blockSize);
        return Done(());
      }
      if code.nData == 1 {
        Replicate(stripe, pattern, blockSize);
        return Done(());
      }
      var table := GetCodingTable(pattern);
      Decode(stripe, pattern, table, blockSize);
      r := Done(());
    }

    lemma {:induction false} NoneMarked(pattern: seq<bool>)
      requires Where(pattern, true) == []
      ensures forall i :: 0 <= i < |pattern| ==> !pattern[i]
    {
      forall i | 0 <= i < |pattern| ensures !pattern[i] {
        if pattern[i] { WhereAt(pattern, i, true); }
      }
    }

    /** replication(): copy the first valid block over the missing ones. */
    method Replicate(stripe: array<Block<T>>, pattern: seq<bool>, ghost len: nat)
      requires code.Valid() && code.nData == 1 && stripe.Length == code.Size() && len > 0
      requires pattern == code.Pattern(stripe[..]) && code.Recoverable(pattern) && code.SameSizes(stripe[..], len)
      modifies stripe
      ensures stripe[..] == code.Completed(old(stripe[..]), len)
    {
      ghost var before := stripe[..];
      var valid := FirstPresent(pattern);
      for i := 0 to |pattern|
        invariant stripe[valid] == before[valid]
        invariant forall j :: 0 <= j < i ==> stripe[j] == if pattern[j] then before[valid] else before[j]
        invariant forall j :: i <= j < stripe.Length ==> stripe[j] == before[j]
      {
        if pattern[i] {
          stripe[i] := stripe[valid];
        }
      }
      CopiesComplete(before, len, valid, stripe[..]);
    }

    method FirstPresent(pattern: seq<bool>) returns (valid: nat)
      requires code.nData == 1 && code.Recoverable(pattern)
      ensures valid < |pattern| && !pattern[valid] && code.Indices(pattern)[0] == valid
    {
      WherePartition(pattern);
      assert pattern[..|pattern|] == pattern;
      valid := NextPresent(pattern, 0);
      WhereAt(pattern, valid, false);
    }

    lemma {:induction false} CopiesComplete(stripe: seq<Block<T>>, len: nat, valid: nat, done: seq<Block<T>>)
      requires code.Valid() && code.nData == 1 && |stripe| == code.Size() && len > 0
      requires code.Recoverable(code.Pattern(stripe)) && code.SameSizes(stripe, len)
      requires valid == code.Indices(code.Pattern(stripe))[0] && |done| == |stripe|
      requires forall j :: 0 <= j < |stripe| ==>
        done[j] == if code.Pattern(stripe)[j] then stripe[valid] else stripe[j]
      ensures done == code.Completed(stripe, len)
    {
    }

    /** Apply the coding table to the surviving blocks and write the results back in block order. */
    method Decode(stripe: array<Block<T>>, pattern: seq<bool>, table: CodingTable<T>, blockSize: nat)
      requires code.Valid() && code.nData > 1 && stripe.Length == code.Size() && blockSize > 0
      requires pattern == code.Pattern(stripe[..]) && code.Recoverable(pattern) && code.SameSizes(stripe[..], blockSize)
      requires table == code.TableFor(pattern)
      modifies stripe
      ensures stripe[..] == code.Completed(old(stripe[..]), blockSize)
    {
      ghost var before := stripe[..];
      var inbuf: Mat<T> := [];
      for i := 0 to code.nData
        invariant inbuf == code.Survivors(before, blockSize)[..i] && stripe[..] == before
      {
        inbuf := inbuf + [stripe[table.indices[i]]];
      }
      assert inbuf == code.Survivors(before, blockSize);
      OutputOrder(before, pattern, table, blockSize);
      WriteBack(stripe, pattern, EncodeData(table.rows, inbuf, blockSize), code.Completed(before, blockSize));
    }

    lemma {:induction false} OutputOrder(stripe: seq<Block<T>>, pattern: seq<bool>, table: CodingTable<T>, len: nat)
      requires code.Valid() && code.nData > 1 && |stripe| == code.Size() && len > 0
      requires pattern == code.Pattern(stripe) && code.Recoverable(pattern) && code.SameSizes(stripe, len)
      requires table == code.TableFor(pattern)
      ensures InOrder(stripe, pattern, EncodeData(table.rows, code.Survivors(stripe, len), len),
        code.Completed(stripe, len))
    {
      forall i | 0 <= i < |pattern| && pattern[i]
        ensures |Where(pattern[..i], true)| < |table.rows|
        ensures table.rows[|Where(pattern[..i], true)|] == code.DecodeRow(pattern, i)
      {
        WhereAt(pattern, i, true);
      }
    }

    /** Missing block i of the goal is the output listed after those of the missing blocks before i. */
    ghost predicate InOrder(stripe: seq<Block<T>>, pattern: seq<bool>, outbuf: seq<Block<T>>, goal: seq<Block<T>>) {
      && |goal| == |pattern| == |stripe|
      && forall i :: 0 <= i < |pattern| ==>
           if pattern[i] then |Where(pattern[..i], true)| < |outbuf| && outbuf[|Where(pattern[..i], true)|] == goal[i]
           else stripe[i] == goal[i]
    }

    method WriteBack(stripe: array<Block<T>>, pattern: seq<bool>, outbuf: seq<Block<T>>, ghost goal: seq<Block<T>>)
      requires stripe.Length == code.Size() && InOrder(stripe[..], pattern, outbuf, goal)
      modifies stripe
      ensures stripe[..] == goal
    {
      var e := 0;
      for i := 0 to code.Size()
        invariant e == |Where(pattern[..i], true)|
        invariant forall j :: 0 <= j < i ==> stripe[j] == goal[j]
        invariant forall j :: i <= j < stripe.Length ==> stripe[j] == old(stripe[j])
      {
        WherePush(pattern, i, true);
        if pattern[i] {
          stripe[i] := outbuf[e];
          e := e + 1;
        }
      }
    }

    /** ec_encode_data, by its specification: output block e is row e times the input blocks. */
    function EncodeData(rows: Mat<T>, inbuf: Mat<T>, len: nat): (out: seq<Block<T>>)
      requires forall e :: 0 <= e < |rows| ==> |rows[e]| == |inbuf|
      requires forall i :: 0 <= i < |inbuf| ==> |inbuf[i]| == len
      ensures |out| == |rows|
    {
      seq(|rows|, e requires 0 <= e < |rows| => VecMat(code.R, rows[e], inbuf, len))
    }
  }
}
