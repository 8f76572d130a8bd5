/**
 The cluster chains of `file/fat32.c`: the count made by `fat32_open`, the read made by `fat32_read`,
 and what they agree on. The table and its end marks follow section 4 of the Microsoft FAT specification.
 */
module Fat32 {

  import opened Basics

  const SECTOR_SIZE := 512

  // ---------------------------------------------------------------- end marks

  /** `is_ending_cluster`. */
  predicate IsEnding(num: nat) {
    num % 0x1000_0000 >= 0xFFF_FFF8 && num <= 0xFFF_FFFF
  }

  /** The end marks of the specification, which looks at the low 28 bits of a table entry only. */
  predicate EndOfChain(num: nat) {
    num % 0x1000_0000 >= 0xFFF_FFF8
  }

  /** The code knows an end mark exactly when the four reserved bits above it are zero. */
  lemma EndingExactly(num: nat)
    requires num < 0x1_0000_0000
    ensures IsEnding(num) <==> 0xFFF_FFF8 <= num <= 0xFFF_FFFF
    ensures EndOfChain(num) ==> (IsEnding(num) <==> num < 0x1000_0000)
  {
  }

  // ---------------------------------------------------------------- chains

  predicate DataCluster(fat: seq<nat>, c: nat) {
    c < |fat| && !IsEnding(c)
  }

  /** The table leads from the cluster at `i` to the one after it. */
  predicate Next(fat: seq<nat>, walk: seq<nat>, i: nat) {
    i + 1 < |walk| && walk[i] < |fat| && fat[walk[i]] == walk[i + 1] && walk[i + 1] != 0
  }

  /** The clusters visited from `start` until the table says 0 or an end mark. */
  ghost predicate IsWalk(fat: seq<nat>, start: nat, walk: seq<nat>) {
    && |walk| > 0 && walk[0] == start
    && (forall i :: 0 <= i < |walk| ==> DataCluster(fat, walk[i]))
    && (forall i :: 0 <= i < |walk| - 1 ==> Next(fat, walk, i))
    && var last := fat[walk[|walk| - 1]]; last == 0 || IsEnding(last)
  }

  /** A walk that ends at an end mark: a file. */
  ghost predicate IsChain(fat: seq<nat>, start: nat, chain: seq<nat>) {
    IsWalk(fat, start, chain) && IsEnding(fat[chain[|chain| - 1]])
  }

  lemma WalkTail(fat: seq<nat>, start: nat, walk: seq<nat>)
    requires IsWalk(fat, start, walk) && |walk| > 1
    ensures IsWalk(fat, walk[1], walk[1..])
  {
    var tail := walk[1..];
    forall i | 0 <= i < |tail| - 1
      ensures Next(fat, tail, i)
    {
      assert Next(fat, walk, i + 1);
    }
  }

  /** There is at most one walk from a cluster. */
  lemma {:induction false} WalkUnique(fat: seq<nat>, start: nat, v: seq<nat>, w: seq<nat>)
    requires IsWalk(fat, start, v) && IsWalk(fat, start, w)
    ensures v == w
    decreases |v|
  {
    assert |v| > 1 ==> Next(fat, v, 0) && DataCluster(fat, v[1]);
    assert |w| > 1 ==> Next(fat, w, 0) && DataCluster(fat, w[1]);
    if |v| > 1 && |w| > 1 {
      WalkTail(fat, start, v);
      WalkTail(fat, start, w);
      assert v[1] == fat[start] == w[1];
      WalkUnique(fat, v[1], v[1..], w[1..]);
      assert v == [v[0]] + v[1..] && w == [w[0]] + w[1..];
    }
  }

  lemma {:induction false} WalkSuffix(fat: seq<nat>, start: nat, walk: seq<nat>, i: nat)
    requires IsWalk(fat, start, walk) && i < |walk|
    ensures IsWalk(fat, walk[i], walk[i..])
    decreases i
  {
    if i > 0 {
      WalkSuffix(fat, start, walk, i - 1);
      WalkTail(fat, walk[i - 1], walk[i - 1..]);
      assert walk[i - 1..][1..] == walk[i..];
    } else {
      assert walk[0..] == walk;
    }
  }

  /** A walk that ends visits no cluster twice. */
  lemma WalkDistinct(fat: seq<nat>, start: nat, walk: seq<nat>)
    requires IsWalk(fat, start, walk)
    ensures forall i, j :: 0 <= i < j < |walk| ==> walk[i] != walk[j]
  {
    forall i, j | 0 <= i < j < |walk|
      ensures walk[i] != walk[j]
    {
      WalkSuffix(fat, start, walk, i);
      WalkSuffix(fat, start, walk, j);
      assert |walk[i..]| != |walk[j..]|;
      if walk[i] == walk[j] {
        WalkUnique(fat, walk[i], walk[i..], walk[j..]);
      }
    }
  }

  /** A sequence of distinct numbers below `n` has at most `n` of them. */
  lemma {:induction false} DistinctBounded(s: seq<nat>, n: nat)
    requires forall i, j :: 0 <= i < j < |s| ==> s[i] != s[j]
    requires forall i :: 0 <= i < |s| ==> s[i] < n
    ensures |s| <= n
    decreases n
  {
    assert |s| > 0 ==> s[0] < n;
    if n > 0 {
      if k :| 0 <= k < |s| && s[k] == n - 1 {
        DistinctBounded(s[..k] + s[k + 1..], n - 1);
      } else {
        DistinctBounded(s, n - 1);
      }
    }
  }

  /** So the count loop ends within as many rounds as the table has entries, or not at all. */
  lemma WalkBounded(fat: seq<nat>, start: nat, walk: seq<nat>)
    requires IsWalk(fat, start, walk)
    ensures |walk| <= |fat|
  {
    WalkDistinct(fat, start, walk);
    DistinctBounded(walk, |fat|);
  }

  // ---------------------------------------------------------------- chains that do not end

  /** The entry that the count loop has read after `n` rounds, if it goes on that long. */
  function Visited(fat: seq<nat>, start: nat, n: nat): nat {
    if n == 0 then start
    else
      var c := Visited(fat, start, n - 1);
      if c < |fat| then fat[c] else 0
  }

  /** The entry at which the loop stops: a 0, at which it panics, or an end mark. */
  predicate Stop(c: nat) { c == 0 || IsEnding(c) }

  /** The loop has stopped after `n` rounds. */
  predicate StopsAfter(fat: seq<nat>, start: nat, n: nat) {
    n > 0 && Stop(Visited(fat, start, n))
  }

  /** Every entry leads to a cluster of the table or stops the loop. */
  ghost predicate InRange(fat: seq<nat>) {
    forall c :: 0 <= c < |fat| ==> Stop(fat[c]) || fat[c] < |fat|
  }

  lemma {:induction false} VisitedInRange(fat: seq<nat>, start: nat, n: nat)
    requires InRange(fat) && DataCluster(fat, start) && forall k :: 1 <= k <= n ==> !Stop(Visited(fat, start, k))
    ensures DataCluster(fat, Visited(fat, start, n))
  {
    if n > 0 {
      VisitedInRange(fat, start, n - 1);
      assert !Stop(Visited(fat, start, n));
    }
  }

  /** The clusters visited before the first stop are a walk. */
  lemma VisitedIsWalk(fat: seq<nat>, start: nat, n: nat)
    requires InRange(fat) && DataCluster(fat, start) && n > 0 && Stop(Visited(fat, start, n))
    requires forall k :: 1 <= k < n ==> !Stop(Visited(fat, start, k))
    ensures IsWalk(fat, start, seq(n, k requires 0 <= k => Visited(fat, start, k)))
  {
    var walk := seq(n, k requires 0 <= k => Visited(fat, start, k));
    forall i | 0 <= i < n
      ensures DataCluster(fat, walk[i])
    {
      VisitedInRange(fat, start, i);
    }
    forall i | 0 <= i < n - 1
      ensures Next(fat, walk, i)
    {
      assert walk[i + 1] == Visited(fat, start, i + 1) && !Stop(walk[i + 1]);
    }
    assert walk[n - 1] == Visited(fat, start, n - 1);
  }

  /** If the loop stops at all, there is a first stop. */
  lemma {:induction false} FirstStop(fat: seq<nat>, start: nat, n: nat) returns (m: nat)
    requires n > 0 && Stop(Visited(fat, start, n))
    ensures 0 < m <= n && Stop(Visited(fat, start, m)) && forall k :: 1 <= k < m ==> !Stop(Visited(fat, start, k))
  {
    if k :| 1 <= k < n && Stop(Visited(fat, start, k)) {
      m := FirstStop(fat, start, k);
    } else {
      m := n;
    }
  }

  lemma {:induction false} WalkIsVisited(fat: seq<nat>, start: nat, walk: seq<nat>, k: nat)
    requires IsWalk(fat, start, walk) && k < |walk|
    ensures Visited(fat, start, k) == walk[k]
  {
    if k > 0 {
      WalkIsVisited(fat, start, walk, k - 1);
      assert Next(fat, walk, k - 1);
    }
  }

  /**
   The count loop stops exactly when there is a walk, which then has at most as many clusters as the table
   has entries; on a cyclic chain it never stops.
   */
  lemma CountStopsExactly(fat: seq<nat>, start: nat)
    requires InRange(fat) && DataCluster(fat, start)
    ensures (exists n :: StopsAfter(fat, start, n)) <==> exists walk :: IsWalk(fat, start, walk) && |walk| <= |fat|
  {
    if n :| StopsAfter(fat, start, n) {
      var m := FirstStop(fat, start, n);
      var walk := seq(m, k requires 0 <= k => Visited(fat, start, k));
      VisitedIsWalk(fat, start, m);
      WalkBounded(fat, start, walk);
      assert IsWalk(fat, start, walk) && |walk| <= |fat|;
    }
    if walk :| IsWalk(fat, start, walk) && |walk| <= |fat| {
      WalkIsVisited(fat, start, walk, |walk| - 1);
      assert StopsAfter(fat, start, |walk|);
    }
  }

  lemma {:induction false} SelfLinked(fat: seq<nat>, n: nat)
    requires 2 < |fat| && fat[2] == 2
    ensures Visited(fat, 2, n) == 2
  {
    if n > 0 {
      SelfLinked(fat, n - 1);
    }
  }

  /** A cluster that leads to itself is counted for ever. */
  lemma CycleNeverStops(fat: seq<nat>)
    requires 2 < |fat| && fat[2] == 2
    ensures forall n :: !StopsAfter(fat, 2, n)
  {
    forall n: nat
      ensures !StopsAfter(fat, 2, n)
    {
      SelfLinked(fat, n);
    }
  }

  // ---------------------------------------------------------------- counting

  /** The count of `fat32_open`: the length of the chain; `ok` is false where the source panics on a 0 entry. */
  method CountClusters(fat: seq<nat>, start: nat, ghost walk: seq<nat>) returns (ok: bool, count: nat)
    requires IsWalk(fat, start, walk)
    ensures ok == IsChain(fat, start, walk)
    ensures ok ==> count == |walk|
  {
    var current := start;
    count := 0;
    while true
      invariant 0 <= count < |walk| && current == walk[count]
      decreases |walk| - count
    {
      assert count < |walk| - 1 ==> Next(fat, walk, count) && DataCluster(fat, walk[count + 1]);
      count := count + 1;
      current := fat[current];
      if current == 0 {
        return false, count;
      }
      if IsEnding(current) {
        return true, count;
      }
    }
  }

  // ---------------------------------------------------------------- reading

  /** The sector that holds a cluster, as the code computes it in 32 bits. */
  function SectorOf(dataStart: nat, cluster: nat): nat {
    (dataStart + cluster - 2) % 0x1_0000_0000
  }

  /** The contents of the clusters, in order. */
  function Gather(disk: nat -> seq<Byte>, dataStart: nat, clusters: seq<nat>): (r: seq<Byte>)
    requires forall s :: |disk(s)| == SECTOR_SIZE
    ensures |r| == SECTOR_SIZE * |clusters|
  {
    if clusters == [] then []
    else Gather(disk, dataStart, clusters[..|clusters| - 1]) + disk(SectorOf(dataStart, clusters[|clusters| - 1]))
  }

  lemma {:induction false} GatherOne(disk: nat -> seq<Byte>, dataStart: nat, clusters: seq<nat>, c: nat)
    requires forall s :: |disk(s)| == SECTOR_SIZE
    ensures Gather(disk, dataStart, clusters + [c]) ==
            Gather(disk, dataStart, clusters) + disk(SectorOf(dataStart, c))
  {
    assert (clusters + [c])[..|clusters|] == clusters;
  }

  lemma {:induction false} GatherConcat(disk: nat -> seq<Byte>, dataStart: nat, a: seq<nat>, b: seq<nat>)
    requires forall s :: |disk(s)| == SECTOR_SIZE
    ensures Gather(disk, dataStart, a + b) == Gather(disk, dataStart, a) + Gather(disk, dataStart, b)
    decreases |b|
  {
    if b == [] {
      assert a + b == a;
    } else {
      var front, c := b[..|b| - 1], b[|b| - 1];
      assert b == front + [c] && a + b == a + front + [c];
      GatherOne(disk, dataStart, a + front, c);
      GatherOne(disk, dataStart, front, c);
      GatherConcat(disk, dataStart, a, front);
    }
  }

  /** Replacing a cluster replaces its sector among the contents. */
  lemma {:induction false} GatherReplace(disk: nat -> seq<Byte>, dataStart: nat, clusters: seq<nat>, p: nat, c: nat)
    requires (forall s :: |disk(s)| == SECTOR_SIZE) && p < |clusters|
    ensures var old_, at := Gather(disk, dataStart, clusters), SECTOR_SIZE * p;
            Gather(disk, dataStart, clusters[p := c]) ==
            old_[..at] + disk(SectorOf(dataStart, c)) + old_[at + SECTOR_SIZE..]
  {
    var x, d, y := clusters[..p], clusters[p], clusters[p + 1..];
    assert clusters == x + [d] + y && clusters[p := c] == x + [c] + y;
    GatherOne(disk, dataStart, x, d);
    GatherOne(disk, dataStart, x, c);
    GatherConcat(disk, dataStart, x + [d], y);
    GatherConcat(disk, dataStart, x + [c], y);
  }

  /** The `n`th 512 bytes. */
  function NthSector(bytes: seq<Byte>, n: nat): seq<Byte>
    requires SECTOR_SIZE * n + SECTOR_SIZE <= |bytes|
  {
    bytes[SECTOR_SIZE * n..SECTOR_SIZE * n + SECTOR_SIZE]
  }

  lemma SectorInside(a: seq<Byte>, sector: seq<Byte>, b: seq<Byte>, n: nat)
    requires |a| == SECTOR_SIZE * n && |sector| == SECTOR_SIZE
    ensures NthSector(a + sector + b, n) == sector
  {
  }

  lemma {:induction false} GatherNth(disk: nat -> seq<Byte>, dataStart: nat, clusters: seq<nat>, n: nat)
    requires (forall s :: |disk(s)| == SECTOR_SIZE) && n < |clusters|
    ensures NthSector(Gather(disk, dataStart, clusters), n) == disk(SectorOf(dataStart, clusters[n]))
  {
    var x, d, y := clusters[..n], clusters[n], clusters[n + 1..];
    assert clusters == x + [d] + y;
    GatherOne(disk, dataStart, x, d);
    GatherConcat(disk, dataStart, x + [d], y);
    SectorInside(Gather(disk, dataStart, x), disk(SectorOf(dataStart, d)), Gather(disk, dataStart, y), n);
  }

  /** Cluster 2 is the first sector of the data area and the others follow, where the sector number fits in 32 bits. */
  ghost predicate InOrder(disk: nat -> seq<Byte>, dataStart: nat, clusters: seq<nat>, bytes: seq<Byte>)
    requires |bytes| >= SECTOR_SIZE * |clusters|
  {
    forall n :: 0 <= n < |clusters| && 2 <= dataStart + clusters[n] < 0x1_0000_0002 ==>
      NthSector(bytes, n) == disk(dataStart + clusters[n] - 2)
  }

  /** Where the sector number reaches 2^32, it starts again from 0; where it is negative, it ends below 2^32. */
  ghost predicate WrapsAround(disk: nat -> seq<Byte>, dataStart: nat, clusters: seq<nat>, bytes: seq<Byte>)
    requires |bytes| >= SECTOR_SIZE * |clusters|
  {
    forall n :: 0 <= n < |clusters| ==>
      && (0x1_0000_0002 <= dataStart + clusters[n] < 0x2_0000_0002 ==>
            NthSector(bytes, n) == disk(dataStart + clusters[n] - 0x1_0000_0002))
      && (dataStart + clusters[n] < 2 ==> NthSector(bytes, n) == disk(dataStart + clusters[n] + 0xFFFF_FFFE))
  }

  lemma SectorNumber(dataStart: nat, c: nat)
    ensures 2 <= dataStart + c < 0x1_0000_0002 ==> SectorOf(dataStart, c) == dataStart + c - 2
    ensures 0x1_0000_0002 <= dataStart + c < 0x2_0000_0002 ==> SectorOf(dataStart, c) == dataStart + c - 0x1_0000_0002
    ensures dataStart + c < 2 ==> SectorOf(dataStart, c) == dataStart + c + 0xFFFF_FFFE
  {
  }

  /** The contents, sector by sector. */
  lemma {:induction false} GatherSectors(disk: nat -> seq<Byte>, dataStart: nat, clusters: seq<nat>)
    requires forall s :: |disk(s)| == SECTOR_SIZE
    ensures InOrder(disk, dataStart, clusters, Gather(disk, dataStart, clusters))
    ensures WrapsAround(disk, dataStart, clusters, Gather(disk, dataStart, clusters))
  {
    var bytes := Gather(disk, dataStart, clusters);
    forall n | 0 <= n < |clusters| && 2 <= dataStart + clusters[n] < 0x1_0000_0002
      ensures NthSector(bytes, n) == disk(dataStart + clusters[n] - 2)
    {
      GatherNth(disk, dataStart, clusters, n);
      SectorNumber(dataStart, clusters[n]);
    }
    forall n | 0 <= n < |clusters| && 0x1_0000_0002 <= dataStart + clusters[n] < 0x2_0000_0002
      ensures NthSector(bytes, n) == disk(dataStart + clusters[n] - 0x1_0000_0002)
    {
      GatherNth(disk, dataStart, clusters, n);
      SectorNumber(dataStart, clusters[n]);
    }
    forall n | 0 <= n < |clusters| && dataStart + clusters[n] < 2
      ensures NthSector(bytes, n) == disk(dataStart + clusters[n] + 0xFFFF_FFFE)
    {
      GatherNth(disk, dataStart, clusters, n);
      SectorNumber(dataStart, clusters[n]);
    }
  }

  method ReadSector(sector: seq<Byte>, buffer: array<Byte>, at: nat)
    requires |sector| == SECTOR_SIZE && at + SECTOR_SIZE <= buffer.Length
    modifies buffer
    ensures buffer[..] == old(buffer[..at]) + sector + old(buffer[at + SECTOR_SIZE..])
  {
    ghost var front := buffer[..at];
    for i := 0 to SECTOR_SIZE
      invariant buffer[..at + i] == front + sector[..i]
      invariant buffer[at + SECTOR_SIZE..] == old(buffer[at + SECTOR_SIZE..])
    {
      buffer[at + i] := sector[i];
      assert buffer[..at + i + 1] == buffer[..at + i] + [sector[i]];
    }
    assert sector[..SECTOR_SIZE] == sector;
    assert buffer[..] == buffer[..at + SECTOR_SIZE] + buffer[at + SECTOR_SIZE..];
  }

  // ---------------------------------------------------------------- places in the buffer

  /** Sectors before the 32-bit offset into the buffer wraps. */
  const PLACES := 0x80_0000

  /** The offset at which the code stores cluster number `i`, a 32-bit product. */
  function Offset(i: nat): nat { (i * SECTOR_SIZE) % 0x1_0000_0000 }

  lemma OffsetIsPlace(i: nat)
    ensures Offset(i) == SECTOR_SIZE * (i % PLACES)
  {
  }

  /** What the places of the buffer hold after these clusters have been read: a later one overwrites. */
  ghost function InPlaces(clusters: seq<nat>): (r: seq<nat>)
    ensures |r| == if |clusters| < PLACES then |clusters| else PLACES
    decreases |clusters|
  {
    if |clusters| <= PLACES then clusters
    else
      var n := |clusters| - 1;
      InPlaces(clusters[..n])[n % PLACES := clusters[n]]
  }

  lemma {:induction false} InPlacesNext(clusters: seq<nat>, c: nat)
    ensures InPlaces(clusters + [c]) == if |clusters| < PLACES then InPlaces(clusters) + [c]
                                        else InPlaces(clusters)[|clusters| % PLACES := c]
  {
    assert (clusters + [c])[..|clusters|] == clusters;
  }

  /** The last of `n` clusters that is stored in place `p`. */
  function LastAt(n: nat, p: nat): (i: nat)
    requires p < n && p < PLACES
    ensures p <= i < n && i % PLACES == p && n <= i + PLACES
  {
    p + PLACES * ((n - 1 - p) / PLACES)
  }

  lemma LastAtNext(n: nat, p: nat)
    requires p < n && p < PLACES
    ensures LastAt(n + 1, p) == if n % PLACES == p then n else LastAt(n, p)
  {
  }

  /** Each place ends up holding the last cluster that was stored in it. */
  lemma {:induction false} PlaceHolds(clusters: seq<nat>, p: nat)
    requires p < PLACES && p < |clusters|
    ensures InPlaces(clusters)[p] == clusters[LastAt(|clusters|, p)]
    decreases |clusters|
  {
    if |clusters| > PLACES {
      var n := |clusters| - 1;
      PlaceHolds(clusters[..n], p);
      LastAtNext(n, p);
    }
  }

  /** Overwriting a sector inside the first `n` bytes overwrites it in the first `n` bytes. */
  lemma {:induction false} SpliceInside(bytes: seq<Byte>, n: nat, at: nat, sector: seq<Byte>)
    requires at + |sector| <= n <= |bytes|
    ensures var r := bytes[..at] + sector + bytes[at + |sector|..];
            r[..n] == bytes[..n][..at] + sector + bytes[..n][at + |sector|..] && r[n..] == bytes[n..]
  {
  }

  lemma {:induction false} SpliceBehind(bytes: seq<Byte>, n: nat, sector: seq<Byte>)
    requires n + |sector| <= |bytes|
    ensures var r := bytes[..n] + sector + bytes[n + |sector|..];
            r[..n + |sector|] == bytes[..n] + sector && r[n + |sector|..] == bytes[n + |sector|..]
  {
  }

  /** The buffer holds these clusters, and behind them what it held before. */
  ghost predicate Filled(disk: nat -> seq<Byte>, dataStart: nat, kept: seq<nat>, bytes: seq<Byte>, before: seq<Byte>)
    requires forall s :: |disk(s)| == SECTOR_SIZE
  {
    var n := SECTOR_SIZE * |kept|;
    n <= |bytes| == |before| && bytes[..n] == Gather(disk, dataStart, kept) && bytes[n..] == before[n..]
  }

  /** The buffer with a sector stored at `at`. */
  ghost function Stored(bytes: seq<Byte>, at: nat, sector: seq<Byte>): seq<Byte>
    requires at + |sector| <= |bytes|
  {
    bytes[..at] + sector + bytes[at + |sector|..]
  }

  lemma {:induction false} FilledAppend(disk: nat -> seq<Byte>, dataStart: nat, kept: seq<nat>, c: nat,
                                        bytes: seq<Byte>, before: seq<Byte>)
    requires (forall s :: |disk(s)| == SECTOR_SIZE) && Filled(disk, dataStart, kept, bytes, before)
    requires SECTOR_SIZE * |kept| + SECTOR_SIZE <= |bytes|
    ensures var r := Stored(bytes, SECTOR_SIZE * |kept|, disk(SectorOf(dataStart, c)));
            Filled(disk, dataStart, kept + [c], r, before)
  {
    var at := SECTOR_SIZE * |kept|;
    GatherOne(disk, dataStart, kept, c);
    SpliceBehind(bytes, at, disk(SectorOf(dataStart, c)));
    assert bytes[at + SECTOR_SIZE..] == bytes[at..][SECTOR_SIZE..];
    assert before[at + SECTOR_SIZE..] == before[at..][SECTOR_SIZE..];
  }

  lemma {:induction false} FilledReplace(disk: nat -> seq<Byte>, dataStart: nat, kept: seq<nat>, p: nat, c: nat,
                                         bytes: seq<Byte>, before: seq<Byte>)
    requires (forall s :: |disk(s)| == SECTOR_SIZE) && Filled(disk, dataStart, kept, bytes, before) && p < |kept|
    ensures var r := Stored(bytes, SECTOR_SIZE * p, disk(SectorOf(dataStart, c)));
            Filled(disk, dataStart, kept[p := c], r, before)
  {
    GatherReplace(disk, dataStart, kept, p, c);
    SpliceInside(bytes, SECTOR_SIZE * |kept|, SECTOR_SIZE * p, disk(SectorOf(dataStart, c)));
  }

  /** Storing the next cluster at its 32-bit offset. */
  lemma {:induction false} FilledNext(disk: nat -> seq<Byte>, dataStart: nat, done: seq<nat>, c: nat,
                                      bytes: seq<Byte>, before: seq<Byte>)
    requires (forall s :: |disk(s)| == SECTOR_SIZE) && Filled(disk, dataStart, InPlaces(done), bytes, before)
    requires Offset(|done|) + SECTOR_SIZE <= |bytes|
    ensures var r := Stored(bytes, Offset(|done|), disk(SectorOf(dataStart, c)));
            Filled(disk, dataStart, InPlaces(done + [c]), r, before)
  {
    var kept, p := InPlaces(done), |done| % PLACES;
    assert Offset(|done|) == SECTOR_SIZE * p by { OffsetIsPlace(|done|); }
    if |done| < PLACES {
      FilledAppend(disk, dataStart, kept, c, bytes, before);
      assert InPlaces(done + [c]) == kept + [c] by { InPlacesNext(done, c); }
    } else {
      FilledReplace(disk, dataStart, kept, p, c, bytes, before);
      assert InPlaces(done + [c]) == kept[p := c] by { InPlacesNext(done, c); }
    }
  }

  /** The next cluster, read into the buffer. */
  method ReadNth(disk: nat -> seq<Byte>, dataStart: nat, sector: nat, buffer: array<Byte>, i: nat,
                 ghost done: seq<nat>, ghost c: nat, ghost before: seq<Byte>)
    requires (forall s :: |disk(s)| == SECTOR_SIZE) && sector == SectorOf(dataStart, c) && |done| == i
    requires Filled(disk, dataStart, InPlaces(done), buffer[..], before)
    requires SECTOR_SIZE * (if i < PLACES then i + 1 else PLACES) <= buffer.Length
    modifies buffer
    ensures Filled(disk, dataStart, InPlaces(done + [c]), buffer[..], before)
  {
    OffsetIsPlace(i);
    FilledNext(disk, dataStart, done, c, buffer[..], before);
    ghost var bytes := buffer[..];
    ReadSector(disk(sector), buffer, (i * SECTOR_SIZE) % 0x1_0000_0000);
    assert buffer[..] == Stored(bytes, Offset(i), disk(sector));
  }

  /** The clusters that `fat32_read` reads when asked for `size` of them: past the end it follows the end mark once. */
  ghost function Followed(fat: seq<nat>, chain: seq<nat>, size: nat): seq<nat>
    requires |chain| > 0 && chain[|chain| - 1] < |fat|
  {
    if size <= |chain| then chain[..size]
    else if size == |chain| + 1 then chain + [fat[chain[|chain| - 1]]] else chain
  }

  /**
   `fat32_read`, for any number of clusters: those of the file fill the places of the buffer in chain
   order, and from 2^23 clusters on a later one overwrites an earlier one; nothing else is written. The
   code 0 is returned exactly when one cluster more than the file has is asked for, because the last check
   looks at the cluster read last and not at its table entry; for the file's own size it is 1.
   */
  method ReadClusters(fat: seq<nat>, disk: nat -> seq<Byte>, dataStart: nat, start: nat, size: nat,
                      buffer: array<Byte>, ghost chain: seq<nat>) returns (code: int)
    requires forall s :: |disk(s)| == SECTOR_SIZE
    requires IsChain(fat, start, chain)
    requires SECTOR_SIZE * (if size < PLACES then size else PLACES) <= buffer.Length
    modifies buffer
    ensures var read := Followed(fat, chain, size);
            |read| <= size && Filled(disk, dataStart, InPlaces(read), buffer[..], old(buffer[..]))
    ensures code == if size == |chain| + 1 then 0 else 1
  {
    ghost var full := chain + [fat[chain[|chain| - 1]]];
    FullChain(fat, start, chain, full);
    ghost var before, done := buffer[..], [];
    var cluster := start;
    for i := 0 to size
      invariant i <= |full| && (i < |full| || i == size) && done == full[..i]
      invariant cluster == full[if i < size then i else if size == 0 then 0 else size - 1]
      invariant Filled(disk, dataStart, InPlaces(done), buffer[..], before)
    {
      var sector := SectorOf(dataStart, cluster);
      ghost var c := cluster;
      if i < size - 1 {
        if IsEnding(cluster) {
          FollowedAll(fat, chain, size);
          return 1;
        }
        cluster := fat[cluster];
      }
      ReadNth(disk, dataStart, sector, buffer, i, done, c, before);
      assert full[..i + 1] == full[..i] + [full[i]];
      done := done + [c];
    }
    FollowedAll(fat, chain, size);
    return if IsEnding(cluster) then 0 else 1;
  }

  /** The clusters followed, as a part of the chain and its end mark. */
  lemma FollowedAll(fat: seq<nat>, chain: seq<nat>, size: nat)
    requires |chain| > 0 && chain[|chain| - 1] < |fat|
    ensures var full := chain + [fat[chain[|chain| - 1]]];
            Followed(fat, chain, size) == if size <= |full| then full[..size] else full[..|chain|]
  {
  }

  lemma FullChain(fat: seq<nat>, start: nat, chain: seq<nat>, full: seq<nat>)
    requires IsChain(fat, start, chain) && full == chain + [fat[chain[|chain| - 1]]]
    ensures forall i :: 0 <= i < |full| ==> (IsEnding(full[i]) <==> i == |chain|)
    ensures forall i {:trigger fat[full[i]]} :: 0 <= i < |chain| ==> full[i] < |fat| && fat[full[i]] == full[i + 1]
  {
    forall i | 0 <= i < |chain|
      ensures full[i] < |fat| && fat[full[i]] == full[i + 1] && !IsEnding(full[i])
    {
      assert DataCluster(fat, chain[i]);
      assert i < |chain| - 1 ==> Next(fat, chain, i);
    }
  }

  /** Opening a file and reading the number of clusters that `fat32_open` reports. */
  method ReadFile(fat: seq<nat>, disk: nat -> seq<Byte>, dataStart: nat, start: nat, ghost chain: seq<nat>)
    returns (buffer: array<Byte>)
    requires forall s :: |disk(s)| == SECTOR_SIZE
    requires IsChain(fat, start, chain)
    ensures fresh(buffer) && buffer.Length == SECTOR_SIZE * |chain|
    ensures buffer[..SECTOR_SIZE * |InPlaces(chain)|] == Gather(disk, dataStart, InPlaces(chain))
    ensures |chain| <= PLACES ==> buffer[..] == Gather(disk, dataStart, chain)
    ensures |chain| <= PLACES ==>
              forall n :: 0 <= n < |chain| && 2 <= chain[n] && dataStart + chain[n] - 2 < 0x1_0000_0000 ==>
                buffer[SECTOR_SIZE * n..SECTOR_SIZE * n + SECTOR_SIZE] == disk(dataStart + chain[n] - 2)
    ensures |chain| <= PLACES ==> WrapsAround(disk, dataStart, chain, buffer[..])
  {
    var ok, count := CountClusters(fat, start, chain);
    buffer := new Byte[SECTOR_SIZE * count];
    var code := ReadClusters(fat, disk, dataStart, start, count, buffer, chain);
    assert chain[..count] == chain;
    assert |chain| <= PLACES ==> buffer[..SECTOR_SIZE * count] == buffer[..];
    GatherSectors(disk, dataStart, chain);
  }

  /** The places hold the file's clusters in order exactly if it has at most 2^23 of them. */
  lemma {:induction false} WholeFileExactly(fat: seq<nat>, start: nat, chain: seq<nat>)
    requires IsWalk(fat, start, chain)
    ensures InPlaces(chain) <= chain <==> |chain| <= PLACES
  {
    if |chain| > PLACES {
      PlaceHolds(chain, 0);
      WalkDistinct(fat, start, chain);
      assert LastAt(|chain|, 0) > 0;
    }
  }

  /** Clusters 2, 3 and so on in a row, `n` of them. */
  function RowTable(n: nat): seq<nat> {
    seq(n + 2, i => if i == n + 1 then 0xFFF_FFFF else i + 1)
  }

  function Row(n: nat): seq<nat> { seq(n, i => i + 2) }

  lemma RowIsChain(n: nat)
    requires 0 < n < 0xFFF_0000
    ensures IsChain(RowTable(n), 2, Row(n))
  {
    forall i | 0 <= i < n - 1
      ensures Next(RowTable(n), Row(n), i)
    {
    }
  }

  /** A file of 2^23 + 1 clusters: its last cluster ends up in place of its first, and all others in their own. */
  lemma {:induction false} LongFileSpoilt(chain: seq<nat>, p: nat)
    requires chain == Row(PLACES + 1) && p < PLACES
    ensures IsChain(RowTable(PLACES + 1), 2, chain)
    ensures InPlaces(chain)[p] == chain[if p == 0 then PLACES else p]
  {
    RowIsChain(PLACES + 1);
    PlaceHolds(chain, p);
  }
}
