/** The names under which things are stored: data keys, metadata keys, urls, and the size held in a version. */
module Keys {
  import opened Wrappers
  import opened Sequences
  import opened Paging

  const MAX_INT: nat := 0x7FFF_FFFF

  // ----- decimal numbers

  function Digit(d: nat): char
    requires d < 10
  {
    '0' + d as char
  }

  predicate IsDigit(c: char) { '0' <= c <= '9' }

  /** A number in decimal, as an output stream writes it. */
  function Decimal(n: nat): string {
    if n < 10 then [Digit(n)] else Decimal(n / 10) + [Digit(n % 10)]
  }

  /** The output stream's fill: zeros in front up to the width; a longer number is not cut. */
  function ZeroPadded(n: nat, width: nat): string {
    if |Decimal(n)| < width then Repeat('0', width - |Decimal(n)|) + Decimal(n) else Decimal(n)
  }

  /** The last `width` digits of a number. */
  function Fixed(n: nat, width: nat): (s: string)
    ensures |s| == width
  {
    if width == 0 then [] else Fixed(n / 10, width - 1) + [Digit(n % 10)]
  }

  function Pow10(k: nat): nat {
    if k == 0 then 1 else 10 * Pow10(k - 1)
  }

  lemma {:induction false} FixedZero(width: nat)
    ensures Fixed(0, width) == Repeat('0', width)
  {
    if width > 0 { FixedZero(width - 1); }
  }

  lemma {:induction false} ZeroPaddedIsFixed(n: nat, width: nat)
    requires width > 0 && n < Pow10(width)
    ensures ZeroPadded(n, width) == Fixed(n, width) && |Decimal(n)| <= width
    decreases width
  {
    if n < 10 {
      FixedZero(width - 1);
    } else {
      ZeroPaddedIsFixed(n / 10, width - 1);
      assert ZeroPadded(n, width) == ZeroPadded(n / 10, width - 1) + [Digit(n % 10)];
    }
  }

  lemma {:induction false} DecimalIsLong(n: nat, width: nat)
    requires n >= Pow10(width)
    ensures |Decimal(n)| > width
    decreases width
  {
    if width > 0 { DecimalIsLong(n / 10, width - 1); }
  }

  /** The value of a string of digits. */
  function Value(s: string): nat {
    if s == [] || !IsDigit(s[|s| - 1]) then 0 else 10 * Value(s[..|s| - 1]) + (s[|s| - 1] - '0') as nat
  }

  /** The digits a string begins with. */
  function Leading(s: string): string {
    if s == [] || !IsDigit(s[0]) then [] else [s[0]] + Leading(s[1..])
  }

  /** std::stoi on a string without sign or space; None where it throws. */
  function Stoi(s: string): Option<nat> {
    var digits := Leading(s);
    if digits == [] || Value(digits) > MAX_INT then None else Some(Value(digits))
  }

  lemma {:induction false} LeadingIsAll(s: string)
    requires AllDigits(s)
    ensures Leading(s) == s
    decreases |s|
  {
    if s != [] { LeadingIsAll(s[1..]); }
  }

  ghost predicate AllDigits(s: string) {
    forall c :: c in s ==> IsDigit(c)
  }

  lemma {:induction false} FixedValue(n: nat, width: nat)
    requires n < Pow10(width)
    ensures AllDigits(Fixed(n, width)) && Value(Fixed(n, width)) == n
    decreases width
  {
    if width > 0 {
      FixedValue(n / 10, width - 1);
      assert Fixed(n, width)[..width - 1] == Fixed(n / 10, width - 1);
    }
  }

  lemma {:induction false} LessAppended(x: string, c: char, y: string, d: char)
    requires |x| == |y|
    ensures Less(x + [c], y + [d]) <==> Less(x, y) || (x == y && c < d)
    decreases |x|
  {
    if x == [] {
      assert (x + [c])[1..] == [] && (y + [d])[1..] == [];
    } else {
      LessAppended(x[1..], c, y[1..], d);
      assert (x + [c])[1..] == x[1..] + [c] && (y + [d])[1..] == y[1..] + [d];
      assert x == [x[0]] + x[1..] && y == [y[0]] + y[1..];
    }
  }

  lemma {:induction false} LessBehind(p: string, x: string, y: string)
    ensures Less(p + x, p + y) <==> Less(x, y)
    decreases |p|
  {
    if p == [] {
      assert p + x == x && p + y == y;
    } else {
      LessBehind(p[1..], x, y);
      assert (p + x)[1..] == p[1..] + x && (p + y)[1..] == p[1..] + y;
    }
  }

  /** Digit strings of one width are ordered as their numbers. */
  lemma {:induction false} FixedOrder(a: nat, b: nat, width: nat)
    requires a < Pow10(width) && b < Pow10(width)
    ensures Less(Fixed(a, width), Fixed(b, width)) <==> a < b
    ensures Fixed(a, width) == Fixed(b, width) <==> a == b
    decreases width
  {
    FixedValue(a, width);
    FixedValue(b, width);
    if width > 0 {
      FixedOrder(a / 10, b / 10, width - 1);
      LessAppended(Fixed(a / 10, width - 1), Digit(a % 10), Fixed(b / 10, width - 1), Digit(b % 10));
    }
  }

  lemma TenDigits()
    ensures Pow10(10) == 10_000_000_000
  {
    assert Pow10(5) == 100_000;
    assert Pow10(9) == 10 * (10 * (10 * (10 * Pow10(5))));
  }

  // ----- data keys

  function DataKey(cluster: string, path: string, block: nat): Key {
    cluster + ":data:" + path + "_" + ZeroPadded(block, 10)
  }

  function DataPrefix(cluster: string, path: string): string { cluster + ":data:" + path + "_" }

  lemma {:induction false} DataKeyIs(cluster: string, path: string, block: nat)
    requires block <= MAX_INT
    ensures DataKey(cluster, path, block) == DataPrefix(cluster, path) + Fixed(block, 10)
    ensures block < Pow10(10)
  {
    TenDigits();
    ZeroPaddedIsFixed(block, 10);
  }

  /** The blocks of one path are ordered as their numbers. */
  lemma {:induction false} DataKeyOrder(cluster: string, path: string, a: nat, b: nat)
    requires a <= MAX_INT && b <= MAX_INT
    ensures Less(DataKey(cluster, path, a), DataKey(cluster, path, b)) <==> a < b
  {
    DataKeyIs(cluster, path, a);
    DataKeyIs(cluster, path, b);
    LessBehind(DataPrefix(cluster, path), Fixed(a, 10), Fixed(b, 10));
    FixedOrder(a, b, 10);
  }

  /** Nothing is stored under the name of two blocks. */
  lemma {:induction false} DataKeyUnique(cluster: string, p: string, a: nat, q: string, b: nat)
    requires a <= MAX_INT && b <= MAX_INT
    ensures DataKey(cluster, p, a) == DataKey(cluster, q, b) <==> p == q && a == b
  {
    DataKeyIs(cluster, p, a);
    DataKeyIs(cluster, q, b);
    var s, t := DataKey(cluster, p, a), DataKey(cluster, q, b);
    if s == t {
      assert Fixed(a, 10) == s[|s| - 10..] == t[|t| - 10..] == Fixed(b, 10);
      FixedOrder(a, b, 10);
      var n := |cluster| + 6;
      assert p == s[n..|s| - 11] && q == t[n..|t| - 11];
    }
  }

  function FindLast(s: string, c: char): (r: Option<nat>)
    ensures r.Some? ==> r.value < |s| && s[r.value] == c && forall i :: r.value < i < |s| ==> s[i] != c
    ensures r.None? ==> forall i :: 0 <= i < |s| ==> s[i] != c
  {
    if s == [] then None else if s[|s| - 1] == c then Some(|s| - 1) else FindLast(s[..|s| - 1], c)
  }

  /** The parse of a key's trailing number: what follows the last underscore, or all of it. */
  function TrailingNumber(key: Key): Option<nat> {
    match FindLast(key, '_')
    case None => Stoi(key)
    case Some(i) => Stoi(key[i + 1..])
  }

  /** The trailing number of a data key is its block number, whatever characters the path has. */
  lemma {:induction false} BlockNumberRecovered(cluster: string, path: string, block: nat)
    requires block <= MAX_INT
    ensures TrailingNumber(DataKey(cluster, path, block)) == Some(block)
  {
    DataKeyIs(cluster, path, block);
    FixedValue(block, 10);
    var p, key := DataPrefix(cluster, path), DataKey(cluster, path, block);
    assert key[|p| - 1] == '_';
    forall i | |p| <= i < |key| ensures key[i] != '_' { assert key[i] in Fixed(block, 10); }
    assert FindLast(key, '_') == Some(|p| - 1);
    assert key[|p|..] == Fixed(block, 10);
    LeadingIsAll(Fixed(block, 10));
  }

  // ----- the range of a file's blocks

  /** The range get_eof_backend asks for. */
  predicate InBlockRange(cluster: string, path: string, key: Key) {
    AtMost(DataKey(cluster, path, 0), key) && AtMost(key, DataKey(cluster, path, 999_999_999))
  }

  lemma {:induction false} BetweenShares(p: string, lo: string, hi: string, k: string)
    requires AtMost(p + lo, k) && AtMost(k, p + hi) && |p| + |lo| > 0
    ensures p <= k
    decreases |p|
  {
    if p != [] {
      assert (p + lo)[1..] == p[1..] + lo && (p + hi)[1..] == p[1..] + hi;
      assert (p + lo)[0] == p[0] == (p + hi)[0];
      assert k != [] && k[0] == p[0];
      if p[1..] != [] || lo != [] {
        BetweenShares(p[1..], lo, hi, k[1..]);
      }
      assert k == [k[0]] + k[1..] && p == [p[0]] + p[1..];
    }
  }

  /** The range of a path holds its own blocks up to the last one asked for. */
  lemma {:induction false} OwnBlocksInRange(cluster: string, p: string, block: nat)
    requires block <= MAX_INT
    ensures InBlockRange(cluster, p, DataKey(cluster, p, block)) <==> block <= 999_999_999
  {
    DataKeyOrder(cluster, p, 0, block);
    DataKeyOrder(cluster, p, block, 999_999_999);
    DataKeyUnique(cluster, p, 0, p, block);
    DataKeyUnique(cluster, p, block, p, 999_999_999);
  }

  /** What follows the underscore of p in a key of a path that extends p by one. */
  function Rest(p: string, q: string, block: nat): string
    requires |p| < |q|
  {
    q[|p| + 1..] + "_" + Fixed(block, 10)
  }

  /** It holds a block of another path exactly if that path extends it by an underscore and goes on with something
      between 0000000000 and 0999999999. */
  lemma {:induction false} OtherBlocksInRange(cluster: string, p: string, q: string, block: nat)
    requires block <= MAX_INT && p != q
    ensures InBlockRange(cluster, p, DataKey(cluster, q, block)) <==>
      p + "_" <= q && AtMost(Fixed(0, 10), Rest(p, q, block)) && AtMost(Rest(p, q, block), Fixed(999_999_999, 10))
  {
    var pre, key := DataPrefix(cluster, p), DataKey(cluster, q, block);
    DataKeyIs(cluster, p, 0);
    DataKeyIs(cluster, p, 999_999_999);
    if InBlockRange(cluster, p, key) {
      BetweenShares(pre, Fixed(0, 10), Fixed(999_999_999, 10), key);
      OtherPathExtends(cluster, p, q, block);
    }
    if p + "_" <= q {
      ExtendedKey(cluster, p, q, block);
      AtMostBehind(pre, Fixed(0, 10), Rest(p, q, block));
      AtMostBehind(pre, Rest(p, q, block), Fixed(999_999_999, 10));
    }
  }

  lemma {:induction false} AtMostBehind(p: string, x: string, y: string)
    ensures AtMost(p + x, p + y) <==> AtMost(x, y)
  {
    LessBehind(p, x, y);
    assert (p + x)[|p|..] == x && (p + y)[|p|..] == y;
  }

  lemma {:induction false} ExtendedKey(cluster: string, p: string, q: string, block: nat)
    requires block <= MAX_INT && p + "_" <= q
    ensures DataKey(cluster, q, block) == DataPrefix(cluster, p) + Rest(p, q, block)
  {
    DataKeyIs(cluster, q, block);
    assert q == p + "_" + q[|p| + 1..];
  }

  lemma {:induction false} OtherPathExtends(cluster: string, p: string, q: string, block: nat)
    requires block <= MAX_INT && DataPrefix(cluster, p) <= DataKey(cluster, q, block)
    ensures p == q || p + "_" <= q
  {
    DataKeyIs(cluster, q, block);
    FixedValue(block, 10);
    var start, key := cluster + ":data:", DataKey(cluster, q, block);
    var k := q + "_" + Fixed(block, 10);
    assert key[|start|..] == k && DataPrefix(cluster, p)[|start|..] == p + "_";
    assert k[..|p| + 1] == p + "_";
    assert k[|p|] == '_' && k[|q|] == '_';
    forall i | |q| < i < |k| ensures k[i] != '_' { assert k[i] in Fixed(block, 10); }
    assert |p| <= |q|;
    assert k[..|q|] == q && k[..|p|] == p;
  }

  /** The blocks of a file named like a block of another file p are all in the range of p, behind the block the file is
      named after and before the next one, with trailing numbers of their own. */
  lemma {:induction false} NamedLikeBlock(cluster: string, p: string, last: nat, block: nat)
    requires last < 999_999_999 && block <= MAX_INT
    ensures var key := DataKey(cluster, p + "_" + Fixed(last, 10), block);
      && InBlockRange(cluster, p, key) && TrailingNumber(key) == Some(block)
      && Less(DataKey(cluster, p, last), key) && Less(key, DataKey(cluster, p, last + 1))
  {
    var q := p + "_" + Fixed(last, 10);
    BlockNumberRecovered(cluster, q, block);
    var tail := "_" + Fixed(block, 10);
    assert Rest(p, q, block) == Fixed(last, 10) + tail;
    TailIsBetween(last, tail);
    OtherBlocksInRange(cluster, p, q, block);
    DataKeyIs(cluster, p, last);
    DataKeyIs(cluster, p, last + 1);
    ExtendedKey(cluster, p, q, block);
    LessBehind(DataPrefix(cluster, p), Fixed(last, 10), Rest(p, q, block));
    LessBehind(DataPrefix(cluster, p), Rest(p, q, block), Fixed(last + 1, 10));
  }

  lemma {:induction false} TailIsBetween(last: nat, tail: string)
    requires tail != [] && last < 999_999_999
    ensures var x := Fixed(last, 10) + tail;
      && Less(Fixed(last, 10), x) && Less(x, Fixed(last + 1, 10))
      && AtMost(Fixed(0, 10), x) && AtMost(x, Fixed(999_999_999, 10))
  {
    TenDigits();
    var x := Fixed(last, 10) + tail;
    LessLonger(Fixed(last, 10), tail);
    FixedOrder(0, last, 10);
    AtMostLess(Fixed(0, 10), Fixed(last, 10), x);
    FixedOrder(last, last + 1, 10);
    LessExtended(Fixed(last, 10), Fixed(last + 1, 10), tail);
    FixedOrder(last + 1, 999_999_999, 10);
    AtMostLess(x, Fixed(last + 1, 10), Fixed(999_999_999, 10));
  }

  lemma {:induction false} LessLonger(x: string, t: string)
    requires t != []
    ensures Less(x, x + t)
  {
    LessBehind(x, [], t);
    assert x + [] == x;
  }

  lemma {:induction false} LessExtended(x: string, y: string, t: string)
    requires |x| == |y| && Less(x, y)
    ensures Less(x + t, y)
    decreases |x|
  {
    assert (x + t)[1..] == x[1..] + t;
    if x[0] == y[0] { LessExtended(x[1..], y[1..], t); }
  }

  // ----- the size held in a version

  /** A new version for a value: its size in ten digits, then a unique part. */
  function EncodeSize(size: nat, uuid: string): string { ZeroPadded(size, 10) + uuid }

  /** None where the source throws; a number too large for an int reads as the largest int. */
  function DecodeSize(version: string): Option<nat> {
    if |version| != 46 && |version| != 26 then None
    else
      var n := Value(Leading(version[..10]));
      Some(if n > MAX_INT then MAX_INT else n)
  }

  /** The size is read back exactly if it fits in an int. */
  lemma {:induction false} SizeRecovered(size: nat, uuid: string)
    requires |uuid| == 36
    ensures DecodeSize(EncodeSize(size, uuid)) == Some(size) <==> size <= MAX_INT
  {
    TenDigits();
    var v := EncodeSize(size, uuid);
    if size < Pow10(10) {
      ZeroPaddedIsFixed(size, 10);
      FixedValue(size, 10);
      LeadingIsAll(Fixed(size, 10));
      assert v[..10] == Fixed(size, 10);
    } else {
      DecimalIsLong(size, 10);
    }
  }

  // ----- urls

  /** The first position at or behind `from` that holds c. */
  function Find(s: string, c: char, from: nat): (r: Option<nat>)
    ensures r.Some? ==> from <= r.value < |s| && s[r.value] == c && forall i :: from <= i < r.value ==> s[i] != c
    ensures r.None? ==> forall i :: from <= i < |s| ==> s[i] != c
    decreases |s| - from
  {
    if from >= |s| then None else if s[from] == c then Some(from) else Find(s, c, from + 1)
  }

  /** None where the source throws. */
  function UrlToClusterId(url: string): Option<string> {
    if |url| < 10 then None
    else match Find(url, '/', 10)
      case None => Some(url[10..])
      case Some(i) => Some(url[10..i])
  }

  /** The search starts behind the first character of the id; without a match the whole url is the path. */
  function UrlToPath(url: string): string {
    match Find(url, '/', 11)
    case None => url
    case Some(i) => url[i + 1..]
  }

  function MetadataKey(cluster: string, path: string): Key { cluster + ":metadata:" + path }

  /** The keys of a file, by way of example. */
  lemma {:induction false} KeyFormats()
    ensures DataKey("c", "p", 7) == "c:data:p_0000000007" && MetadataKey("c", "p") == "c:metadata:p"
  {
    SevenPadded(7, 10);
    assert Repeat('0', 9) == "000000000";
    assert "000000000" + ['7'] == "0000000007";
  }

  lemma {:induction false} SevenPadded(n: nat, width: nat)
    requires n == 7 && width > 1
    ensures ZeroPadded(n, width) == Repeat('0', width - 1) + ['7']
  {
  }

  /** No data key is a metadata key, of the same or of another cluster. */
  lemma {:induction false} KindsApart(cluster: string, path: string, block: nat, other: string, q: string)
    requires ':' !in cluster && ':' !in other
    ensures DataKey(cluster, path, block) != MetadataKey(other, q)
  {
    var a, b := DataKey(cluster, path, block), MetadataKey(other, q);
    if |cluster| < |other| {
      assert a[|cluster|] == ':' && b[|cluster|] == other[|cluster|];
    } else if |other| < |cluster| {
      assert a[|other|] == cluster[|other|] && b[|other|] == ':';
    } else {
      assert a[|cluster| + 1] == 'd' && b[|cluster| + 1] == 'm';
    }
  }

  function MetadataToUrl(key: Key): string {
    match Find(key, ':', 0)
    case None => "kinetic://" + key + "/" + key
    case Some(i) =>
      match Find(key, ':', i + 1)
      case None => "kinetic://" + key[..i] + "/" + key
      case Some(j) => "kinetic://" + key[..i] + "/" + key[j + 1..]
  }

  ghost predicate WellFormed(url: string) {
    exists cluster, path :: IsUrlOf(url, cluster, path)
  }

  ghost predicate IsUrlOf(url: string, cluster: string, path: string) {
    url == "kinetic://" + cluster + "/" + path && cluster != [] && ':' !in cluster && '/' !in cluster
  }

  ghost predicate RoundTrips(url: string) {
    UrlToClusterId(url).Some? && MetadataToUrl(MetadataKey(UrlToClusterId(url).value, UrlToPath(url))) == url
  }

  lemma {:induction false} UrlParts(url: string, cluster: string, path: string)
    requires IsUrlOf(url, cluster, path)
    ensures UrlToClusterId(url) == Some(cluster) && UrlToPath(url) == path
  {
    var n := 10 + |cluster|;
    assert url[n] == '/' && url[10..n] == cluster && url[n + 1..] == path;
    forall i | 10 <= i < n ensures url[i] != '/' { assert url[i] == cluster[i - 10]; }
  }

  lemma {:induction false} MetadataParts(cluster: string, path: string)
    requires ':' !in cluster
    ensures MetadataToUrl(MetadataKey(cluster, path)) == "kinetic://" + cluster + "/" + path
  {
    var key, n := MetadataKey(cluster, path), |cluster|;
    assert key[n] == ':' && key[n + 9] == ':' && key[..n] == cluster && key[n + 10..] == path;
    forall i | 0 <= i < n ensures key[i] != ':' { assert key[i] == cluster[i]; }
    assert key[n..n + 10] == ":metadata:";
    forall i | n + 1 <= i < n + 9 ensures key[i] != ':' { assert key[i] == ":metadata:"[i - n]; }
  }

  /** A colon in the id is taken for the end of it. */
  lemma {:induction false} ColonBreaks(url: string, cluster: string)
    requires UrlToClusterId(url) == Some(cluster) && ':' in cluster
    ensures !RoundTrips(url)
  {
    var key := MetadataKey(cluster, UrlToPath(url));
    var c := Find(cluster, ':', 0).value;
    assert key[c] == ':' && key[|cluster|] == ':';
    forall i | 0 <= i < c ensures key[i] != ':' { assert key[i] == cluster[i]; }
    assert Find(key, ':', 0) == Some(c);
    assert Find(key, ':', c + 1).Some?;
    assert MetadataToUrl(key)[10 + c] == '/';
    assert url[10 + c] == cluster[c] == ':';
  }

  /** Without a slash behind the first character of the id, the lengths do not match. */
  lemma {:induction false} SlashIsNeeded(url: string, cluster: string)
    requires UrlToClusterId(url) == Some(cluster) && ':' !in cluster
    requires Find(url, '/', 10).None? || Find(url, '/', 10).value == 10
    ensures !RoundTrips(url)
  {
    MetadataParts(cluster, UrlToPath(url));
    assert |MetadataToUrl(MetadataKey(cluster, UrlToPath(url)))| == 11 + |cluster| + |UrlToPath(url)|;
  }

  /** url to cluster id and path to metadata key to url is the identity exactly for the urls of a nonempty id without
      colon and slash. */
  lemma {:induction false} UrlRoundTrip(url: string)
    ensures RoundTrips(url) <==> WellFormed(url)
  {
    if WellFormed(url) {
      var cluster, path :| IsUrlOf(url, cluster, path);
      UrlParts(url, cluster, path);
      MetadataParts(cluster, path);
    }
    if RoundTrips(url) {
      RoundTripIsWellFormed(url);
    }
  }

  lemma {:induction false} RoundTripIsWellFormed(url: string)
    requires RoundTrips(url)
    ensures WellFormed(url)
  {
    var cluster := UrlToClusterId(url).value;
    if ':' in cluster {
      ColonBreaks(url, cluster);
    } else if Find(url, '/', 10).None? || Find(url, '/', 10).value == 10 {
      SlashIsNeeded(url, cluster);
    } else {
      MetadataParts(cluster, UrlToPath(url));
      assert '/' !in cluster;
      assert IsUrlOf(url, cluster, UrlToPath(url));
    }
  }
}
