/** The compressed tables of code points that are not printable: the generator script and the decoder in the library. */
module Printable {

  // ----- The inputs of the generator -----

  predicate StrictlyIncreasing(s: seq<nat>) {
    forall i, j :: 0 <= i < j < |s| ==> s[i] < s[j]
  }

  /** Ranges (start, count), ascending and disjoint, from prev on, with gaps and lengths below 0x8000. */
  predicate Ascending(ranges: seq<(nat, nat)>, prev: nat) {
    ranges == [] ||
    (prev <= ranges[0].0 < prev + 0x8000 && ranges[0].1 < 0x8000 && Ascending(ranges[1..], ranges[0].0 + ranges[0].1))
  }

  predicate InRange(x: nat, range: (nat, nat)) {
    range.0 <= x < range.0 + range.1
  }

  // ----- Singletons: buckets by the high byte -----

  /** The position of the first low byte of bucket k. */
  function BucketStart(uppers: seq<(nat, nat)>, k: nat): nat
    requires k <= |uppers|
  {
    if k == 0 then 0 else BucketStart(uppers, k - 1) + uppers[k - 1].1
  }

  /** The tables hold the singletons: the low bytes in order, in buckets with increasing high bytes. */
  ghost predicate Holds(uppers: seq<(nat, nat)>, lowers: seq<nat>, singletons: seq<nat>) {
    && |lowers| == |singletons| == BucketStart(uppers, |uppers|)
    && (forall j :: 0 <= j < |singletons| ==> lowers[j] == singletons[j] % 256)
    && (forall k :: 0 <= k < |uppers| ==> uppers[k].1 > 0)
    && (forall k :: 0 <= k < |uppers| ==> Bucket(uppers, singletons, k))
  }

  ghost predicate Bucket(uppers: seq<(nat, nat)>, singletons: seq<nat>, k: nat)
    requires k < |uppers|
  {
    forall j :: BucketStart(uppers, k) <= j < BucketStart(uppers, k) + uppers[k].1 ==>
      j < |singletons| && singletons[j] / 256 == uppers[k].0
  }

  lemma {:induction false} SameStart(a: seq<(nat, nat)>, b: seq<(nat, nat)>, k: nat)
    requires k <= |a| && k <= |b| && a[..k] == b[..k]
    ensures BucketStart(a, k) == BucketStart(b, k)
  {
    if k > 0 {
      assert a[..k - 1] == a[..k][..k - 1] == b[..k][..k - 1] == b[..k - 1];
      assert a[k - 1] == a[..k][k - 1] == b[..k][k - 1] == b[k - 1];
      SameStart(a, b, k - 1);
    }
  }

  lemma {:induction false} StartMonotone(uppers: seq<(nat, nat)>, k: nat, n: nat)
    requires k <= n <= |uppers|
    ensures BucketStart(uppers, k) <= BucketStart(uppers, n)
    ensures k < n ==> BucketStart(uppers, k) + uppers[k].1 <= BucketStart(uppers, n)
    decreases n
  {
    if k < n {
      StartMonotone(uppers, k, n - 1);
    }
  }

  /** compress_singletons. */
  method CompressSingletons(singletons: seq<nat>) returns (uppers: seq<(nat, nat)>, lowers: seq<nat>)
    ensures Holds(uppers, lowers, singletons)
  {
    uppers, lowers := [], [];
    for n := 0 to |singletons|
      invariant Holds(uppers, lowers, singletons[..n])
    {
      var i := singletons[n];
      var upper, lower := i / 256, i % 256;
      ghost var before := uppers;
      assert singletons[..n + 1] == singletons[..n] + [i];
      if |uppers| == 0 || uppers[|uppers| - 1].0 != upper {
        uppers := uppers + [(upper, 1)];
        NewBucket(before, lowers, singletons[..n], i);
      } else {
        var count := uppers[|uppers| - 1].1;
        uppers := uppers[|uppers| - 1 := (upper, count + 1)];
        SameBucket(before, lowers, singletons[..n], i);
      }
      lowers := lowers + [lower];
    }
    assert singletons[..|singletons|] == singletons;
  }

  lemma Extended(bucket: (nat, nat), st: nat, s: seq<nat>, i: nat)
    requires st + bucket.1 <= |s| && forall j :: st <= j < st + bucket.1 ==> s[j] / 256 == bucket.0
    ensures forall j :: st <= j < st + bucket.1 ==> (s + [i])[j] / 256 == bucket.0
  {}

  lemma NewBucket(uppers: seq<(nat, nat)>, lowers: seq<nat>, s: seq<nat>, i: nat)
    requires Holds(uppers, lowers, s)
    ensures Holds(uppers + [(i / 256, 1)], lowers + [i % 256], s + [i])
  {
    var u := uppers + [(i / 256, 1)];
    forall k | 0 <= k < |u| ensures Bucket(u, s + [i], k) {
      assert u[..k] == uppers[..k];
      SameStart(u, uppers, k);
      if k < |uppers| {
        StartMonotone(uppers, k, |uppers|);
        assert Bucket(uppers, s, k) && u[k] == uppers[k];
        Extended(uppers[k], BucketStart(uppers, k), s, i);
      }
    }
    SameStart(u, uppers, |uppers|);
  }

  lemma SameBucket(uppers: seq<(nat, nat)>, lowers: seq<nat>, s: seq<nat>, i: nat)
    requires Holds(uppers, lowers, s) && uppers != [] && uppers[|uppers| - 1].0 == i / 256
    ensures Holds(uppers[|uppers| - 1 := (i / 256, uppers[|uppers| - 1].1 + 1)], lowers + [i % 256], s + [i])
  {
    var last := |uppers| - 1;
    var u := uppers[last := (i / 256, uppers[last].1 + 1)];
    forall k | 0 <= k < |u| ensures Bucket(u, s + [i], k) {
      assert u[..k] == uppers[..k];
      SameStart(u, uppers, k);
      StartMonotone(uppers, k, |uppers|);
      assert Bucket(uppers, s, k);
      Extended(uppers[k], BucketStart(uppers, k), s, i);
    }
    assert u[..last] == uppers[..last];
    SameStart(u, uppers, last);
  }

  /** At most 255 singletons with the same high byte: the counts fit a byte. */
  lemma CountsFit(uppers: seq<(nat, nat)>, lowers: seq<nat>, s: seq<nat>, k: nat)
    requires Holds(uppers, lowers, s) && k < |uppers|
    requires forall i, j :: 0 <= i <= j < |s| && s[i] / 256 == s[j] / 256 ==> j - i < 255
    ensures uppers[k].1 <= 255
  {
    var st := BucketStart(uppers, k);
    StartMonotone(uppers, k, |uppers|);
    assert Bucket(uppers, s, k);
    assert s[st] / 256 == s[st + uppers[k].1 - 1] / 256;
  }

  /** The high bytes of 16-bit singletons fit a byte. */
  lemma HighBytesFit(uppers: seq<(nat, nat)>, lowers: seq<nat>, s: seq<nat>, k: nat)
    requires Holds(uppers, lowers, s) && k < |uppers|
    requires forall j :: 0 <= j < |s| ==> s[j] < 0x1_0000
    ensures uppers[k].0 <= 255
  {
    var st := BucketStart(uppers, k);
    StartMonotone(uppers, k, |uppers|);
    assert Bucket(uppers, s, k);
    assert s[st] / 256 == uppers[k].0;
  }

  /** The search for x among the singletons, bucket by bucket. */
  method FindSingleton(x: nat, uppers: seq<(nat, nat)>, lowers: seq<nat>, ghost singletons: seq<nat>) returns (found: bool)
    requires Holds(uppers, lowers, singletons) && StrictlyIncreasing(singletons)
    ensures found <==> x in singletons
  {
    var upper, lowerStart := x / 256, 0;
    var i := 0;
    while i < |uppers|
      invariant 0 <= i <= |uppers| && lowerStart == BucketStart(uppers, i) <= |lowers|
      invariant forall j :: 0 <= j < lowerStart ==> singletons[j] != x
    {
      var s := uppers[i];
      var lowerEnd := lowerStart + s.1;
      StartMonotone(uppers, i, |uppers|);
      assert Bucket(uppers, singletons, i);
      if upper < s.0 {
        BehindBucket(uppers, lowers, singletons, i, x);
        return false;
      }
      if upper == s.0 {
        var j := lowerStart;
        while j < lowerEnd
          invariant lowerStart <= j <= lowerEnd
          invariant forall q :: lowerStart <= q < j ==> singletons[q] != x
        {
          SameBytes(x, singletons[j]);
          if lowers[j] == x % 256 {
            return true;
          }
          j := j + 1;
        }
      }
      lowerStart := lowerEnd;
      i := i + 1;
    }
    return false;
  }

  lemma SameBytes(x: nat, y: nat)
    ensures x == y <==> x / 256 == y / 256 && x % 256 == y % 256
  {}

  /** Everything in this bucket and behind it is larger. */
  lemma BehindBucket(uppers: seq<(nat, nat)>, lowers: seq<nat>, s: seq<nat>, k: nat, x: nat)
    requires Holds(uppers, lowers, s) && StrictlyIncreasing(s) && k < |uppers| && x / 256 < uppers[k].0
    ensures BucketStart(uppers, k) <= |s|
    ensures forall j :: BucketStart(uppers, k) <= j < |s| ==> s[j] != x
  {
    var st := BucketStart(uppers, k);
    StartMonotone(uppers, k, |uppers|);
    assert Bucket(uppers, s, k);
    assert s[st] / 256 == uppers[k].0;
    forall j | st <= j < |s| ensures s[j] != x {
      assert j > st ==> s[st] < s[j];
    }
  }

  // ----- Ranges: alternating lengths of one or two bytes -----

  function LengthBytes(len: nat): seq<nat> {
    if len > 0x7f then [0x80 + len / 256, len % 256] else [len]
  }

  /** The table from the end of the previous range on. */
  function RangeBytes(ranges: seq<(nat, nat)>, prev: nat): seq<nat>
    requires Ascending(ranges, prev)
  {
    if ranges == [] then []
    else
      LengthBytes(ranges[0].0 - prev) + (LengthBytes(ranges[0].1) + RangeBytes(ranges[1..], ranges[0].0 + ranges[0].1))
  }

  function Flatten(entries: seq<seq<nat>>): seq<nat> {
    if entries == [] then [] else Flatten(entries[..|entries| - 1]) + entries[|entries| - 1]
  }

  /** compress_normal. */
  method CompressNormal(normal: seq<(nat, nat)>) returns (compressed: seq<seq<nat>>)
    requires Ascending(normal, 0)
    ensures Flatten(compressed) == RangeBytes(normal, 0)
  {
    compressed := [];
    var prevStart := 0;
    NothingEncoded(normal);
    hide *;
    for n := 0 to |normal|
      invariant Encoded(compressed, normal, n, prevStart)
    {
      var (start, count) := normal[n];
      OneRange(compressed, normal, n, prevStart);
      var trueLen, falseLen := start - prevStart, count;
      prevStart := start + count;
      var entry := Entry(trueLen, falseLen);
      compressed := compressed + [entry];
    }
    AllEncoded(compressed, normal, prevStart);
  }

  /** The first n ranges have been encoded; the table is to go on with those from position prev on. */
  ghost predicate Encoded(compressed: seq<seq<nat>>, normal: seq<(nat, nat)>, n: nat, prev: nat) {
    && Ascending(normal, 0) && n <= |normal| && Ascending(normal[n..], prev)
    && RangeBytes(normal, 0) == Flatten(compressed) + RangeBytes(normal[n..], prev)
  }

  lemma NothingEncoded(normal: seq<(nat, nat)>)
    requires Ascending(normal, 0)
    ensures Encoded([], normal, 0, 0)
  {
    assert normal[0..] == normal;
    hide RangeBytes, Ascending;
  }

  /** The entry of one range takes its bytes off those to come. */
  lemma OneRange(compressed: seq<seq<nat>>, normal: seq<(nat, nat)>, n: nat, prev: nat)
    requires n < |normal| && Encoded(compressed, normal, n, prev)
    ensures prev <= normal[n].0 < prev + 0x8000 && normal[n].1 < 0x8000
    ensures Encoded(compressed + [EntryBytes(normal[n].0 - prev, normal[n].1)], normal, n + 1, normal[n].0 + normal[n].1)
  {
    RangesFrom(normal, n, prev);
    var entry := EntryBytes(normal[n].0 - prev, normal[n].1);
    assert (compressed + [entry])[..|compressed|] == compressed;
    hide RangeBytes, Ascending, LengthBytes;
  }

  lemma AllEncoded(compressed: seq<seq<nat>>, normal: seq<(nat, nat)>, prev: nat)
    requires Encoded(compressed, normal, |normal|, prev)
    ensures Ascending(normal, 0) && Flatten(compressed) == RangeBytes(normal, 0)
  {}

  /** The bytes of one range: the gap before it, and its length. */
  function EntryBytes(gap: nat, len: nat): seq<nat> {
    LengthBytes(gap) + LengthBytes(len)
  }

  /** The same, computed as in the body of the loop. */
  method Entry(trueLen: nat, falseLen: nat) returns (entry: seq<nat>)
    requires trueLen < 0x8000 && falseLen < 0x8000
    ensures entry == EntryBytes(trueLen, falseLen)
  {
    entry := [];
    BytesOf(trueLen);
    BytesOf(falseLen);
    assert EntryBytes(trueLen, falseLen) == LengthBytes(trueLen) + LengthBytes(falseLen);
    hide *;
    if trueLen > 0x7f {
      entry := entry + [0x80 + trueLen / 256];
      entry := entry + [trueLen % 256];
    } else {
      entry := entry + [trueLen % 0x80];
    }
    assert entry == LengthBytes(trueLen);
    if falseLen > 0x7f {
      entry := entry + [0x80 + falseLen / 256];
      entry := entry + [falseLen % 256];
    } else {
      entry := entry + [falseLen % 0x80];
    }
  }

  lemma BytesOf(len: nat)
    ensures len > 0x7f ==> LengthBytes(len) == [0x80 + len / 256] + [len % 256]
    ensures len <= 0x7f ==> LengthBytes(len) == [len % 0x80]
  {}

  lemma RangesFrom(ranges: seq<(nat, nat)>, m: nat, prev: nat)
    requires m < |ranges| && Ascending(ranges[m..], prev)
    ensures prev <= ranges[m].0 < prev + 0x8000 && ranges[m].1 < 0x8000
    ensures Ascending(ranges[m + 1..], ranges[m].0 + ranges[m].1)
    ensures RangeBytes(ranges[m..], prev)
            == LengthBytes(ranges[m].0 - prev)
               + (LengthBytes(ranges[m].1) + RangeBytes(ranges[m + 1..], ranges[m].0 + ranges[m].1))
  {
    assert ranges[m..][0] == ranges[m] && ranges[m..][1..] == ranges[m + 1..];
    hide LengthBytes;
  }

  /** Ranges behind a position that x has not reached. */
  lemma {:induction false} AllBehind(ranges: seq<(nat, nat)>, prev: nat, x: nat, q: nat)
    requires Ascending(ranges, prev) && q < |ranges| && x < ranges[0].0
    ensures !InRange(x, ranges[q])
    decreases |ranges|
  {
    if q > 0 {
      assert ranges[1..][q - 1] == ranges[q];
      AllBehind(ranges[1..], ranges[0].0 + ranges[0].1, x, q - 1);
    }
  }

  lemma NoneBehind(ranges: seq<(nat, nat)>, prev: nat, x: nat, m: nat)
    requires m <= |ranges| && Ascending(ranges[m..], prev) && (m < |ranges| ==> x < ranges[m].0)
    ensures forall q :: m <= q < |ranges| ==> !InRange(x, ranges[q])
  {
    forall q | m <= q < |ranges| ensures !InRange(x, ranges[q]) {
      assert ranges[m..][q - m] == ranges[q];
      AllBehind(ranges[m..], prev, x, q - m);
    }
  }

  /** At position i the table goes on with the gap before range m, counted from prev. */
  ghost predicate AtGap(ranges: seq<(nat, nat)>, m: nat, prev: nat, normal: seq<nat>, i: nat) {
    && m <= |ranges| && i <= |normal| && Ascending(ranges[m..], prev) && normal[i..] == RangeBytes(ranges[m..], prev)
  }

  /** At position i the table goes on with the length of range m. */
  ghost predicate AtLength(ranges: seq<(nat, nat)>, m: nat, normal: seq<nat>, i: nat) {
    && m < |ranges| && i <= |normal| && ranges[m].1 < 0x8000
    && var end := ranges[m].0 + ranges[m].1;
      Ascending(ranges[m + 1..], end) && normal[i..] == LengthBytes(ranges[m].1) + RangeBytes(ranges[m + 1..], end)
  }

  /** The length at position i, in one or two bytes, and the position behind it. */
  function LengthAt(normal: seq<nat>, i: nat): (nat, nat)
    requires i < |normal| && (normal[i] >= 0x80 ==> i + 1 < |normal|)
  {
    if normal[i] >= 0x80 then (normal[i] % 0x80 * 256 + normal[i + 1], i + 2) else (normal[i], i + 1)
  }

  lemma GapRead(ranges: seq<(nat, nat)>, m: nat, prev: nat, normal: seq<nat>, i: nat)
    requires AtGap(ranges, m, prev, normal, i) && i < |normal|
    ensures m < |ranges| && (normal[i] >= 0x80 ==> i + 1 < |normal|)
    ensures var (len, next) := LengthAt(normal, i);
            prev + len == ranges[m].0 && next <= |normal| && AtLength(ranges, m, normal, next)
  {
    assert |normal[i..]| > 0;
    RangesFrom(ranges, m, prev);
    var end := ranges[m].0 + ranges[m].1;
    LengthThere(normal, i, ranges[m].0 - prev, LengthBytes(ranges[m].1) + RangeBytes(ranges[m + 1..], end));
    hide LengthBytes, Ascending, RangeBytes;
  }

  lemma RangeRead(ranges: seq<(nat, nat)>, m: nat, normal: seq<nat>, i: nat)
    requires AtLength(ranges, m, normal, i)
    ensures i < |normal| && (normal[i] >= 0x80 ==> i + 1 < |normal|)
    ensures var (len, next) := LengthAt(normal, i);
            len == ranges[m].1 && next <= |normal| && AtGap(ranges, m + 1, ranges[m].0 + len, normal, next)
  {
    LengthThere(normal, i, ranges[m].1, RangeBytes(ranges[m + 1..], ranges[m].0 + ranges[m].1));
    hide LengthBytes, Ascending, RangeBytes;
  }

  lemma LengthThere(normal: seq<nat>, i: nat, len: nat, rest: seq<nat>)
    requires i <= |normal| && len < 0x8000 && normal[i..] == LengthBytes(len) + rest
    ensures i < |normal| && (normal[i] >= 0x80 ==> i + 1 < |normal|)
    ensures LengthAt(normal, i).0 == len && LengthAt(normal, i).1 <= |normal| && normal[LengthAt(normal, i).1..] == rest
  {
    assert |normal[i..]| > 0;
    LengthRead(normal, i, len, rest);
    hide LengthBytes;
  }

  lemma ScanEnd(ranges: seq<(nat, nat)>, m: nat, prev: nat, normal: seq<nat>)
    ensures !AtLength(ranges, m, normal, |normal|)
    ensures AtGap(ranges, m, prev, normal, |normal|) ==> m == |ranges|
  {
    assert normal[|normal|..] == [];
    if m <= |ranges| {
      NoBytes(ranges[m..], prev);
    }
    assert forall len: nat :: LengthBytes(len) != [];
    hide LengthBytes, Ascending, RangeBytes;
  }

  lemma NoBytes(ranges: seq<(nat, nat)>, prev: nat)
    ensures Ascending(ranges, prev) && RangeBytes(ranges, prev) == [] ==> ranges == []
  {}

  lemma BeforeRange(ranges: seq<(nat, nat)>, m: nat, prev: nat, normal: seq<nat>, i: nat, x: nat)
    requires AtGap(ranges, m, prev, normal, i) && m < |ranges| && x < ranges[m].0
    ensures forall q :: m <= q < |ranges| ==> !InRange(x, ranges[q])
  {
    NoneBehind(ranges, prev, x, m);
  }

  lemma ScanStart(ranges: seq<(nat, nat)>, normal: seq<nat>)
    requires Ascending(ranges, 0) && normal == RangeBytes(ranges, 0)
    ensures AtGap(ranges, 0, 0, normal, 0)
  {
    assert ranges[0..] == ranges && normal[0..] == normal;
  }

  /** The toggling loop over the lengths. */
  method ScanRanges(x: nat, normal: seq<nat>, ghost ranges: seq<(nat, nat)>) returns (current: bool)
    requires Ascending(ranges, 0) && normal == RangeBytes(ranges, 0)
    ensures current <==> forall q :: 0 <= q < |ranges| ==> !InRange(x, ranges[q])
  {
    hide Ascending, RangeBytes, AtGap, AtLength, LengthBytes;
    var xsigned: int := x;
    current := true;
    var i := 0;
    ghost var m: nat, prev: nat := 0, 0;
    ScanStart(ranges, normal);
    while i < |normal|
      invariant 0 <= i <= |normal| && xsigned == x - prev >= 0
      invariant m <= |ranges| && forall q :: 0 <= q < m ==> !InRange(x, ranges[q])
      invariant if current then AtGap(ranges, m, prev, normal, i)
                else m < |ranges| && prev == ranges[m].0 && AtLength(ranges, m, normal, i)
    {
      ghost var i0 := i;
      if current {
        GapRead(ranges, m, prev, normal, i);
      } else {
        RangeRead(ranges, m, normal, i);
      }
      var v := normal[i];
      var len := v;
      if v >= 0x80 {
        i := i + 1;
        len := v % 0x80 * 256 + normal[i];
      }
      i := i + 1;
      assert (len, i) == LengthAt(normal, i0);
      xsigned := xsigned - len;
      if xsigned < 0 {
        if current {
          BeforeRange(ranges, m, prev, normal, i0, x);
        } else {
          assert InRange(x, ranges[m]);
        }
        return;
      }
      current := !current;
      if current {
        m := m + 1;
      }
      prev := prev + len;
    }
    ScanEnd(ranges, m, prev, normal);
  }

  /** One length at position i of the table. */
  lemma LengthRead(normal: seq<nat>, i: nat, len: nat, rest: seq<nat>)
    requires i < |normal| && len < 0x8000 && normal[i..] == LengthBytes(len) + rest
    ensures normal[i] >= 0x80 ==> i + 1 < |normal| && len == normal[i] % 0x80 * 256 + normal[i + 1] && normal[i + 2..] == rest
    ensures normal[i] < 0x80 ==> len == normal[i] && normal[i + 1..] == rest
  {
    var b := LengthBytes(len);
    assert normal[i] == normal[i..][0] == b[0];
    if len > 0x7f {
      assert normal[i + 1] == normal[i..][1] == b[1];
      assert normal[i + 2..] == normal[i..][2..] == rest;
      ByteSplit(len);
    } else {
      assert normal[i + 1..] == normal[i..][1..] == rest;
    }
  }

  lemma ByteSplit(len: nat)
    requires len < 0x8000
    ensures len == (0x80 + len / 256) % 0x80 * 256 + len % 256
  {}

  // ----- The decoder -----

  /** is_printable for 16-bit values: false exactly on the singletons and on the members of the ranges. */
  method IsPrintable(x: nat, uppers: seq<(nat, nat)>, lowers: seq<nat>, normal: seq<nat>,
                     ghost singletons: seq<nat>, ghost ranges: seq<(nat, nat)>)
      returns (printable: bool)
    requires Holds(uppers, lowers, singletons) && StrictlyIncreasing(singletons)
    requires forall k :: 0 <= k < |uppers| ==> uppers[k].1 <= 255
    requires Ascending(ranges, 0) && normal == RangeBytes(ranges, 0)
    ensures printable <==> x !in singletons && forall q :: 0 <= q < |ranges| ==> !InRange(x, ranges[q])
  {
    var found := FindSingleton(x, uppers, lowers, singletons);
    if found {
      return false;
    }
    printable := ScanRanges(x, normal, ranges);
  }

  predicate Bytes(s: seq<nat>) {
    forall i :: 0 <= i < |s| ==> s[i] <= 255
  }

  /** The encoded gaps and lengths are bytes. */
  lemma {:induction false} RangesFit(ranges: seq<(nat, nat)>, prev: nat)
    requires Ascending(ranges, prev)
    ensures Bytes(RangeBytes(ranges, prev))
  {
    if ranges != [] {
      RangesFit(ranges[1..], ranges[0].0 + ranges[0].1);
      LengthFits(ranges[0].0 - prev);
      LengthFits(ranges[0].1);
      BytesConcat(LengthBytes(ranges[0].1), RangeBytes(ranges[1..], ranges[0].0 + ranges[0].1));
      hide LengthBytes, Bytes;
      BytesConcat(LengthBytes(ranges[0].0 - prev), LengthBytes(ranges[0].1) + RangeBytes(ranges[1..], ranges[0].0 + ranges[0].1));
    }
  }

  lemma BytesConcat(a: seq<nat>, b: seq<nat>)
    requires Bytes(a) && Bytes(b)
    ensures Bytes(a + b)
  {}

  lemma LengthFits(len: nat)
    requires len < 0x8000
    ensures Bytes(LengthBytes(len))
  {}

  /** Decoding the tables that the generator builds answers membership, for every 16-bit x; all entries are bytes. */
  method EncodeAndDecode(singletons: seq<nat>, ranges: seq<(nat, nat)>, x: nat)
      returns (printable: bool, uppers: seq<(nat, nat)>, lowers: seq<nat>, normal: seq<nat>)
    requires StrictlyIncreasing(singletons) && Ascending(ranges, 0) && x < 0x1_0000
    requires forall j :: 0 <= j < |singletons| ==> singletons[j] < 0x1_0000
    requires forall i, j :: 0 <= i <= j < |singletons| && singletons[i] / 256 == singletons[j] / 256 ==> j - i < 255
    ensures printable <==> x !in singletons && forall q :: 0 <= q < |ranges| ==> !InRange(x, ranges[q])
    ensures forall k :: 0 <= k < |uppers| ==> uppers[k].0 <= 255 && uppers[k].1 <= 255
    ensures Bytes(lowers) && Bytes(normal)
  {
    uppers, lowers := CompressSingletons(singletons);
    var entries := CompressNormal(ranges);
    normal := Flatten(entries);
    forall k | 0 <= k < |uppers| ensures uppers[k].0 <= 255 && uppers[k].1 <= 255 {
      HighBytesFit(uppers, lowers, singletons, k);
      CountsFit(uppers, lowers, singletons, k);
    }
    RangesFit(ranges, 0);
    printable := IsPrintable(x, uppers, lowers, normal, singletons, ranges);
  }
}
