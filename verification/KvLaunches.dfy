/** The launches that clear the segments of a key-value pool: one for all, as wide as the longest page
    needs, or one per page size, which clear the same words with no more thread blocks. */
module KvLaunches {
  import opened Options
  import opened KvZeroing

  // ----- The kernel

  /** The kernel: thread block c of a segment in a logical block clears the words from c * blk on, blk of
      them at most and none past the page. */
  ghost predicate Clears(segments: seq<Segment>, n: nat, blk: nat, chunks: nat, w: nat) {
    exists s, b: nat, c: nat, x: nat :: s in segments && b < n && c < chunks && x < blk && At(s, b, Word(c, blk, x), w)
  }

  function Word(c: nat, blk: nat, x: nat): nat { c * blk + x }

  /** Enough thread blocks for the longest page clear every page and nothing else. */
  lemma EnoughChunks(segments: seq<Segment>, n: nat, blk: nat, chunks: nat, w: nat)
    requires forall s :: s in segments ==> s.page <= chunks * blk
    ensures Clears(segments, n, blk, chunks, w) <==> Covered(segments, n, w)
  {
    hide At;
    if Clears(segments, n, blk, chunks, w) {
      var s, b: nat, c: nat, x: nat :| s in segments && b < n && c < chunks && x < blk && At(s, b, Word(c, blk, x), w);
      assert Hits(s, n, w);
    }
    if Covered(segments, n, w) {
      var s :| s in segments && Hits(s, n, w);
      var b: nat, i: nat :| b < n && At(s, b, i, w);
      ChunkOf(s, b, i, w, blk, chunks);
    }
  }

  lemma ChunkOf(s: Segment, b: nat, i: nat, w: nat, blk: nat, chunks: nat)
    requires s.page <= chunks * blk && At(s, b, i, w)
    ensures blk > 0 && i / blk < chunks && i % blk < blk && i == Word(i / blk, blk, i % blk)
  {
    assert blk > 0;
    assert i == i / blk * blk + i % blk;
    Factor(i / blk - chunks, blk);
    assert (i / blk - chunks) * blk == i / blk * blk - chunks * blk;
  }

  /** The number of bits of an integer's magnitude. */
  function BitLength(n: nat): nat { if n == 0 then 0 else 1 + BitLength(n / 2) }

  function Power(k: nat): (p: nat)
    ensures p >= 1
  {
    if k == 0 then 1 else 2 * Power(k - 1)
  }

  lemma {:induction false} BitLengthFits(n: nat)
    ensures n < Power(BitLength(n))
  {
    if n > 0 {
      BitLengthFits(n / 2);
    }
  }

  /** The bit length of page - 1; of minus one it is one. */
  function BlockSize(page: nat): (b: nat)
    ensures b >= 1
  {
    var p := Power(if page == 0 then 1 else BitLength(page - 1));
    if p < 1024 then p else 1024
  }

  lemma {:induction false} PowerGrows(j: nat, k: nat)
    requires j <= k
    ensures Power(j) <= Power(k) && (j < k ==> 2 * Power(j) <= Power(k))
  {
    if j < k {
      PowerGrows(j, k - 1);
    }
  }

  lemma TenthPower()
    ensures Power(10) == 1024
  {
    assert Power(5) == 32;
    assert Power(8) == 256;
  }

  lemma {:induction false} BitLengthLeast(n: nat)
    requires n > 0
    ensures BitLength(n) > 0 && Power(BitLength(n) - 1) <= n
  {
    if n > 1 {
      BitLengthLeast(n / 2);
    }
  }

  /** The threads of a block: the least power of two that is no smaller than the page, or the tenth power when that
      is smaller. */
  lemma BlockSizeMeans(page: nat)
    ensures page == 0 ==> BlockSize(page) == 2
    ensures page > 0 ==>
            exists k: nat :: k <= 10 && BlockSize(page) == Power(k)
              && (k < 10 ==> page <= Power(k)) && (k > 0 ==> Power(k - 1) < page)
  {
    hide Power, BitLength;
    FirstPowers();
    if page > 0 {
      TenthPower();
      BitLengthFits(page - 1);
      var k := BitLength(page - 1);
      if page > 1 {
        BitLengthLeast(page - 1);
      }
      if k <= 10 {
        PowerGrows(k, 10);
        assert BlockSize(page) == Power(k);
      } else {
        PowerGrows(10, k);
        PowerGrows(9, k - 1);
        assert BlockSize(page) == Power(10);
      }
    }
  }

  lemma FirstPowers()
    ensures BitLength(0) == 0 && Power(1) == 2
  {
  }

  function Chunks(page: nat): nat { (page + BlockSize(page) - 1) / BlockSize(page) }

  lemma DivUp(page: nat, blk: nat)
    requires blk >= 1
    ensures page <= (page + blk - 1) / blk * blk < page + blk
  {
    var n := page + blk - 1;
    assert n == n / blk * blk + n % blk;
  }

  /** Up to 1024 words one thread block does; longer pages take one for every 1024 words. */
  lemma ChunksMeaning(page: nat)
    ensures page <= Chunks(page) * BlockSize(page)
    ensures page == 0 ==> Chunks(page) == 0
    ensures 0 < page <= 1024 ==> Chunks(page) == 1
    ensures page > 1024 ==> Chunks(page) == (page + 1023) / 1024
  {
    hide BlockSize;
    BlockFits(page);
    DivUp(page, BlockSize(page));
    if 0 < page <= 1024 {
      OneChunk(page, BlockSize(page));
    }
    if page == 0 {
      NoChunk(BlockSize(page));
    }
  }

  lemma BlockFits(page: nat)
    ensures if page <= 1024 then page <= BlockSize(page) else BlockSize(page) == 1024
  {
    if page > 0 {
      BitLengthFits(page - 1);
    }
  }

  lemma NoChunk(blk: nat)
    requires blk >= 1
    ensures (blk - 1) / blk == 0
  {
    Quotient(0, blk - 1, blk);
  }

  lemma OneChunk(page: nat, blk: nat)
    requires 0 < page <= blk
    ensures (page + blk - 1) / blk == 1
  {
    Quotient(1, page - 1, blk);
  }

  lemma ChunksMonotone(a: nat, b: nat)
    requires a <= b
    ensures Chunks(a) <= Chunks(b)
  {
    hide Chunks, BlockSize;
    ChunksMeaning(a);
    ChunksMeaning(b);
  }

  // ----- One launch, and one for each page size

  datatype Launch = Launch(segments: seq<Segment>, blk: nat, chunks: nat)

  /** The thread blocks of some launches over n logical blocks. */
  function Ctas(launches: seq<Launch>, n: nat): nat {
    if launches == [] then 0
    else
      var l := launches[|launches| - 1];
      Ctas(launches[..|launches| - 1], n) + n * |l.segments| * l.chunks
  }

  ghost predicate ClearedBy(launches: seq<Launch>, n: nat, w: nat) {
    exists l :: l in launches && Clears(l.segments, n, l.blk, l.chunks, w)
  }

  ghost predicate IsMaxPage(segments: seq<Segment>, m: nat) {
    (forall s :: s in segments ==> s.page <= m) && exists s :: s in segments && s.page == m
  }

  method MaxPage(segments: seq<Segment>) returns (m: nat)
    requires segments != []
    ensures IsMaxPage(segments, m)
  {
    m := segments[0].page;
    for i := 1 to |segments|
      invariant forall j :: 0 <= j < i ==> segments[j].page <= m
      invariant exists s :: s in segments && s.page == m
    {
      if segments[i].page > m {
        m := segments[i].page;
      }
    }
  }

  /** One launch for all segments, as wide as the longest page needs; there is none without segments. */
  method PlanOne(segments: seq<Segment>) returns (launch: Option<Launch>)
    ensures launch.None? <==> segments == []
    ensures launch.Some? ==>
              && launch.value.segments == segments
              && (exists m :: IsMaxPage(segments, m)
                              && launch.value.blk == BlockSize(m) && launch.value.chunks == Chunks(m))
              && forall n: nat, w: nat :: ClearedBy([launch.value], n, w) <==> Covered(segments, n, w)
  {
    if segments == [] {
      return None;
    }
    var m := MaxPage(segments);
    launch := Some(Launch(segments, BlockSize(m), Chunks(m)));
    ChunksMeaning(m);
    forall n: nat, w: nat
      ensures ClearedBy([launch.value], n, w) <==> Covered(segments, n, w)
    {
      EnoughChunks(segments, n, BlockSize(m), Chunks(m), w);
      assert launch.value in [launch.value];
    }
  }

  datatype Bucket = Bucket(page: nat, segments: seq<Segment>)

  /** Into the bucket of its page size, or a new one at the end. */
  function AddTo(buckets: seq<Bucket>, s: Segment): seq<Bucket> {
    if buckets == [] then [Bucket(s.page, [s])]
    else if buckets[0].page == s.page then [buckets[0].(segments := buckets[0].segments + [s])] + buckets[1..]
    else [buckets[0]] + AddTo(buckets[1..], s)
  }

  function Buckets(segments: seq<Segment>): seq<Bucket> {
    if segments == [] then [] else AddTo(Buckets(segments[..|segments| - 1]), segments[|segments| - 1])
  }

  predicate Pure(b: Bucket) { forall s :: s in b.segments ==> s.page == b.page }

  function LaunchOf(b: Bucket): Launch { Launch(b.segments, BlockSize(b.page), Chunks(b.page)) }

  /** Thread blocks for one logical block, if every segment had just enough for its own page. */
  function Cost(segments: seq<Segment>): nat {
    if segments == [] then 0 else Cost(segments[..|segments| - 1]) + Chunks(segments[|segments| - 1].page)
  }

  function CostAll(buckets: seq<Bucket>): nat {
    if buckets == [] then 0 else |buckets[0].segments| * Chunks(buckets[0].page) + CostAll(buckets[1..])
  }

  ghost predicate InBucket(buckets: seq<Bucket>, s: Segment) {
    exists b :: b in buckets && s in b.segments
  }

  ghost predicate AllPure(buckets: seq<Bucket>) {
    forall b :: b in buckets ==> Pure(b)
  }

  lemma {:induction false} AddToPure(buckets: seq<Bucket>, s: Segment)
    requires AllPure(buckets)
    ensures AllPure(AddTo(buckets, s))
    ensures |AddTo(buckets, s)| <= |buckets| + 1
  {
    if buckets == [] {
      assert Pure(Bucket(s.page, [s]));
    } else if buckets[0].page == s.page {
      assert Pure(buckets[0]);
      assert Pure(buckets[0].(segments := buckets[0].segments + [s]));
    } else {
      AddToPure(buckets[1..], s);
    }
  }

  lemma OneMoreTime(k: nat, c: nat)
    ensures (k + 1) * c == k * c + c
  {
  }

  lemma {:induction false} AddToCost(buckets: seq<Bucket>, s: Segment)
    ensures CostAll(AddTo(buckets, s)) == CostAll(buckets) + Chunks(s.page)
  {
    hide Chunks;
    var after := AddTo(buckets, s);
    if buckets == [] {
      assert after[1..] == [];
    } else if buckets[0].page == s.page {
      assert after[1..] == buckets[1..];
      OneMoreTime(|buckets[0].segments|, Chunks(s.page));
    } else {
      assert after[1..] == AddTo(buckets[1..], s);
      AddToCost(buckets[1..], s);
    }
  }

  lemma InFirst(buckets: seq<Bucket>, t: Segment)
    requires buckets != []
    ensures InBucket(buckets, t) <==> t in buckets[0].segments || InBucket(buckets[1..], t)
  {
    if InBucket(buckets, t) {
      var b :| b in buckets && t in b.segments;
      assert b == buckets[0] || b in buckets[1..];
    }
    assert buckets[0] in buckets;
    if InBucket(buckets[1..], t) {
      var b :| b in buckets[1..] && t in b.segments;
      assert b in buckets;
    }
  }

  lemma {:induction false} AddToMembers(buckets: seq<Bucket>, s: Segment, t: Segment)
    ensures InBucket(AddTo(buckets, s), t) <==> InBucket(buckets, t) || t == s
  {
    var after := AddTo(buckets, s);
    InFirst(after, t);
    if buckets == [] {
      assert after[1..] == [];
    } else {
      InFirst(buckets, t);
      if buckets[0].page == s.page {
        assert after[1..] == buckets[1..];
      } else {
        assert after[1..] == AddTo(buckets[1..], s);
        AddToMembers(buckets[1..], s, t);
      }
    }
  }

  ghost predicate PageIn(buckets: seq<Bucket>, p: nat) {
    exists i :: 0 <= i < |buckets| && buckets[i].page == p
  }

  /** One bucket for each page size. */
  ghost predicate PagesApart(buckets: seq<Bucket>) {
    forall i, j :: 0 <= i < j < |buckets| ==> buckets[i].page != buckets[j].page
  }

  lemma {:induction false} AddToPages(buckets: seq<Bucket>, s: Segment)
    requires PagesApart(buckets)
    ensures PagesApart(AddTo(buckets, s))
    ensures forall p :: PageIn(AddTo(buckets, s), p) ==> PageIn(buckets, p) || p == s.page
  {
    var after := AddTo(buckets, s);
    if buckets != [] && buckets[0].page != s.page {
      AddToPages(buckets[1..], s);
      assert after[1..] == AddTo(buckets[1..], s);
      forall i | 1 <= i < |after|
        ensures after[i].page != after[0].page && (after[i].page == s.page || PageIn(buckets, after[i].page))
      {
        assert after[1..][i - 1].page == after[i].page;
        assert PageIn(after[1..], after[i].page);
        if after[i].page != s.page {
          var k :| 0 <= k < |buckets[1..]| && buckets[1..][k].page == after[i].page;
          assert buckets[k + 1].page == after[i].page;
        }
      }
      assert buckets[0].page == after[0].page && PageIn(buckets, after[0].page);
    } else if buckets != [] {
      forall i | 0 <= i < |after|
        ensures after[i].page == buckets[i].page
      {
      }
    }
  }

  ghost predicate Sorted(buckets: seq<Bucket>, segments: seq<Segment>) {
    && AllPure(buckets) && PagesApart(buckets) && CostAll(buckets) == Cost(segments)
    && forall t :: InBucket(buckets, t) <==> t in segments
  }

  lemma NoBuckets()
    ensures PagesApart([]) && forall t :: !InBucket([], t)
  {
  }

  lemma {:induction false} BucketsMeaning(segments: seq<Segment>)
    ensures Sorted(Buckets(segments), segments)
  {
    hide Chunks, AddTo, InBucket, Pure, PagesApart;
    if segments == [] {
      NoBuckets();
    }
    if segments != [] {
      var front, s := segments[..|segments| - 1], segments[|segments| - 1];
      BucketsMeaning(front);
      AddToPure(Buckets(front), s);
      AddToCost(Buckets(front), s);
      AddToPages(Buckets(front), s);
      forall t
        ensures InBucket(Buckets(segments), t) <==> t in segments
      {
        AddToMembers(Buckets(front), s, t);
        assert segments == front + [s];
      }
    }
  }

  // ----- The buckets without the loop

  /** The segments of one page size, in order. */
  function OfPage(segments: seq<Segment>, page: nat): seq<Segment> {
    if segments == [] then []
    else
      var s := segments[|segments| - 1];
      OfPage(segments[..|segments| - 1], page) + if s.page == page then [s] else []
  }

  /** The page sizes, in the order in which each is first met. */
  function PagesOf(segments: seq<Segment>): seq<nat> {
    if segments == [] then []
    else
      var before, p := PagesOf(segments[..|segments| - 1]), segments[|segments| - 1].page;
      if p in before then before else before + [p]
  }

  function ByPage(segments: seq<Segment>): seq<Bucket> {
    var pages := PagesOf(segments);
    seq(|pages|, i requires 0 <= i < |pages| => Bucket(pages[i], OfPage(segments, pages[i])))
  }

  lemma {:induction false} AddToKnown(buckets: seq<Bucket>, s: Segment, k: nat)
    requires PagesApart(buckets) && k < |buckets| && buckets[k].page == s.page
    ensures AddTo(buckets, s) == buckets[k := buckets[k].(segments := buckets[k].segments + [s])]
  {
    if k > 0 {
      assert PagesApart(buckets[1..]);
      AddToKnown(buckets[1..], s, k - 1);
    }
  }

  lemma {:induction false} AddToNew(buckets: seq<Bucket>, s: Segment)
    requires !PageIn(buckets, s.page)
    ensures AddTo(buckets, s) == buckets + [Bucket(s.page, [s])]
  {
    if buckets != [] {
      assert buckets[0].page != s.page;
      assert forall i :: 0 <= i < |buckets[1..]| ==> buckets[1..][i] == buckets[i + 1];
      AddToNew(buckets[1..], s);
    }
  }

  lemma {:induction false} PagesOfMeaning(segments: seq<Segment>)
    ensures forall i, j :: 0 <= i < j < |PagesOf(segments)| ==> PagesOf(segments)[i] != PagesOf(segments)[j]
    ensures forall p: nat :: p !in PagesOf(segments) ==> OfPage(segments, p) == []
  {
    if segments != [] {
      PagesOfMeaning(segments[..|segments| - 1]);
    }
  }

  /** One bucket for each page size, in the order they are first met, with its segments in their order. */
  lemma {:induction false} BucketsInOrder(segments: seq<Segment>)
    ensures Buckets(segments) == ByPage(segments)
  {
    if segments != [] {
      var front, s := segments[..|segments| - 1], segments[|segments| - 1];
      BucketsInOrder(front);
      PagesOfMeaning(front);
      OneMoreSegment(front, s, segments);
    }
  }

  lemma OneMoreSegment(front: seq<Segment>, s: Segment, all: seq<Segment>)
    requires all != [] && front == all[..|all| - 1] && s == all[|all| - 1]
    requires forall i, j :: 0 <= i < j < |PagesOf(front)| ==> PagesOf(front)[i] != PagesOf(front)[j]
    requires forall p: nat :: p !in PagesOf(front) ==> OfPage(front, p) == []
    ensures AddTo(ByPage(front), s) == ByPage(all)
  {
    hide AddTo;
    var pages, buckets := PagesOf(front), ByPage(front);
    if s.page in pages {
      var k :| 0 <= k < |pages| && pages[k] == s.page;
      AddToKnown(buckets, s, k);
      assert PagesOf(all) == pages;
      assert forall i :: 0 <= i < |pages| && i != k ==> OfPage(front, pages[i]) + [] == OfPage(front, pages[i]);
    } else {
      AddToNew(buckets, s);
      assert PagesOf(all) == pages + [s.page];
      assert forall i :: 0 <= i < |pages| ==> OfPage(front, pages[i]) + [] == OfPage(front, pages[i]);
      assert OfPage(all, s.page) == [s];
    }
  }

  // ----- The grouped launches

  function Launches(buckets: seq<Bucket>): seq<Launch> {
    seq(|buckets|, i requires 0 <= i < |buckets| => LaunchOf(buckets[i]))
  }

  /** One launch per page size. */
  method PlanGrouped(segments: seq<Segment>) returns (launches: seq<Launch>)
    ensures launches == Launches(Buckets(segments)) && launches == Launches(ByPage(segments))
  {
    BucketsInOrder(segments);
    var buckets: seq<Bucket> := [];
    for i := 0 to |segments|
      invariant buckets == Buckets(segments[..i])
    {
      assert segments[..i + 1][..i] == segments[..i];
      buckets := AddTo(buckets, segments[i]);
    }
    assert segments[..|segments|] == segments;
    launches := [];
    for i := 0 to |buckets|
      invariant launches == Launches(buckets)[..i]
    {
      launches := launches + [LaunchOf(buckets[i])];
    }
  }

  /** The grouped launches clear the words that one launch for all segments clears. */
  lemma GroupedClearsTheSame(segments: seq<Segment>, n: nat, w: nat)
    ensures ClearedBy(Launches(Buckets(segments)), n, w) <==> Covered(segments, n, w)
  {
    hide Clears, Buckets, Chunks, BlockSize, PagesApart, CostAll, Cost;
    var buckets := Buckets(segments);
    BucketsMeaning(segments);
    forall b | b in buckets
      ensures Clears(b.segments, n, BlockSize(b.page), Chunks(b.page), w) <==> Covered(b.segments, n, w)
    {
      ChunksMeaning(b.page);
      assert Pure(b);
      EnoughChunks(b.segments, n, BlockSize(b.page), Chunks(b.page), w);
    }
    if ClearedBy(Launches(buckets), n, w) {
      var l :| l in Launches(buckets) && Clears(l.segments, n, l.blk, l.chunks, w);
      var i :| 0 <= i < |buckets| && Launches(buckets)[i] == l;
      assert buckets[i] in buckets;
      var s :| s in buckets[i].segments && Hits(s, n, w);
      assert InBucket(buckets, s);
    }
    if Covered(segments, n, w) {
      var s :| s in segments && Hits(s, n, w);
      assert InBucket(buckets, s);
      var b :| b in buckets && s in b.segments;
      var i :| 0 <= i < |buckets| && buckets[i] == b;
      assert Launches(buckets)[i] == LaunchOf(b);
      assert LaunchOf(b) in Launches(buckets);
    }
  }

  lemma {:induction false} CtasAreCost(buckets: seq<Bucket>, n: nat)
    ensures Ctas(Launches(buckets), n) == n * CostAll(buckets)
  {
    hide Chunks, BlockSize;
    if buckets != [] {
      var p, b := buckets[..|buckets| - 1], buckets[|buckets| - 1];
      CtasAreCost(p, n);
      assert Launches(buckets)[..|buckets| - 1] == Launches(p);
      CostAppend(p, b);
      assert buckets == p + [b];
      Distribute(n, CostAll(p), |b.segments|, Chunks(b.page));
    }
  }

  lemma Distribute(n: nat, p: nat, k: nat, c: nat)
    ensures n * p + n * k * c == n * (p + k * c)
  {
    assert n * k * c == n * (k * c);
    assert n * (p + k * c) == n * p + n * (k * c);
  }

  lemma {:induction false} CostAppend(buckets: seq<Bucket>, b: Bucket)
    ensures CostAll(buckets + [b]) == CostAll(buckets) + |b.segments| * Chunks(b.page)
  {
    if buckets == [] {
      assert buckets + [b] == [b] && [b][1..] == [];
    } else {
      assert (buckets + [b])[1..] == buckets[1..] + [b];
      CostAppend(buckets[1..], b);
    }
  }

  lemma {:induction false} CostBound(segments: seq<Segment>, m: nat)
    requires forall s :: s in segments ==> s.page <= m
    ensures Cost(segments) <= |segments| * Chunks(m)
  {
    hide Chunks;
    if segments != [] {
      var front, s := segments[..|segments| - 1], segments[|segments| - 1];
      CostBound(front, m);
      ChunksMonotone(s.page, m);
      OneMoreTime(|front|, Chunks(m));
    }
  }

  /** They take no more thread blocks: just enough for each segment's own page. */
  lemma GroupedTakesNoMore(segments: seq<Segment>, m: nat, n: nat)
    requires IsMaxPage(segments, m)
    ensures Ctas(Launches(Buckets(segments)), n) == n * Cost(segments)
    ensures n * Cost(segments) <= Ctas([Launch(segments, BlockSize(m), Chunks(m))], n)
  {
    hide Chunks, BlockSize, CostAll, Cost;
    BucketsMeaning(segments);
    CtasAreCost(Buckets(segments), n);
    CostBound(segments, m);
    OneLaunch(Launch(segments, BlockSize(m), Chunks(m)), n);
    Scale(n, Cost(segments), |segments| * Chunks(m));
  }

  lemma OneLaunch(l: Launch, n: nat)
    ensures Ctas([l], n) == n * (|l.segments| * l.chunks)
  {
    assert [l][..0] == [];
    assert n * |l.segments| * l.chunks == n * (|l.segments| * l.chunks);
  }

  lemma Scale(n: nat, a: nat, b: nat)
    requires a <= b
    ensures n * a <= n * b
  {
  }
}
