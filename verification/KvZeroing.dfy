/** Clearing blocks of a key-value pool: the segments of every layer cover each word of the pool exactly
    once, whatever the ratios between the pages of the kernel and those of the pool. */
module KvZeroing {
  import opened Options

  datatype Layer = Layer(page: nat, ratio: nat)

  /** Equal layers in a row; pages are in bytes. */
  datatype Group = Group(layers: nat, page: nat, ratio: nat)

  /** Where a segment starts, in bytes, its distance from one logical block to the next and its length,
      in words of four bytes. */
  datatype Segment = Segment(addr: nat, stride: nat, page: nat)

  // ----- Segments

  function LayerSegments(at: nat, page: nat, ratio: nat): (r: seq<Segment>)
    requires ratio > 0
    ensures |r| == ratio
  {
    seq(ratio, v requires 0 <= v < ratio => Segment(at + v * (page / ratio), page / 4, page / ratio / 4))
  }

  function Size(layers: seq<Layer>, blocks: nat): nat {
    if layers == [] then 0 else Size(layers[..|layers| - 1], blocks) + blocks * layers[|layers| - 1].page
  }

  predicate Ratios(layers: seq<Layer>) {
    forall l :: l in layers ==> l.ratio > 0
  }

  function Segments(base: nat, layers: seq<Layer>, blocks: nat): seq<Segment>
    requires Ratios(layers)
  {
    if layers == [] then []
    else
      var front, l := layers[..|layers| - 1], layers[|layers| - 1];
      Segments(base, front, blocks) + LayerSegments(base + Size(front, blocks), l.page, l.ratio)
  }

  function Repeat(l: Layer, k: nat): seq<Layer> { seq(k, _ => l) }

  function Layers(groups: seq<Group>): seq<Layer> {
    if groups == [] then []
    else
      var g := groups[|groups| - 1];
      Layers(groups[..|groups| - 1]) + Repeat(Layer(g.page, g.ratio), g.layers)
  }

  predicate Splits(g: Group) { g.ratio > 0 && g.page % g.ratio == 0 }

  /** A page is so many kernel pages of one size. */
  lemma SplitsMeans(g: Group)
    ensures Splits(g) <==> g.ratio > 0 && exists kernelPage: nat :: g.page == kernelPage * g.ratio
  {
    if Splits(g) {
      assert g.page == (g.page / g.ratio) * g.ratio;
    }
    if g.ratio > 0 {
      if kernelPage: nat :| g.page == kernelPage * g.ratio {
        Quotient(kernelPage, 0, g.ratio);
      }
    }
  }

  /** The kernel pages of one layer, in every logical block. */
  method AddLayer(segments: seq<Segment>, at: nat, page: nat, ratio: nat) returns (out: seq<Segment>)
    requires ratio > 0
    ensures out == segments + LayerSegments(at, page, ratio)
  {
    out := segments;
    var kernelPage := page / ratio;
    for v := 0 to ratio
      invariant out == segments + LayerSegments(at, page, ratio)[..v]
    {
      out := out + [Segment(at + v * kernelPage, page / 4, kernelPage / 4)];
    }
  }

  method AddGroup(segments: seq<Segment>, base: nat, start: nat, g: Group, blocks: nat, ghost front: seq<Layer>)
    returns (out: seq<Segment>, off: nat)
    requires g.ratio > 0 && Ratios(front) && segments == Segments(base, front, blocks) && start == Size(front, blocks)
    ensures var all := front + Repeat(Layer(g.page, g.ratio), g.layers);
            Ratios(all) && out == Segments(base, all, blocks) && off == Size(all, blocks)
  {
    ghost var l := Layer(g.page, g.ratio);
    assert front + Repeat(l, 0) == front;
    out, off := segments, start;
    for k := 0 to g.layers
      invariant Ratios(front + Repeat(l, k))
      invariant out == Segments(base, front + Repeat(l, k), blocks) && off == Size(front + Repeat(l, k), blocks)
    {
      OneMore(base, front, l, k, blocks);
      out := AddLayer(out, base + off, g.page, g.ratio);
      off := off + blocks * g.page;
    }
  }

  /** The segments of all layers, unless a page does not split into its ratio. */
  method Build(base: nat, groups: seq<Group>, blocks: nat) returns (out: Option<seq<Segment>>)
    ensures out.Some? <==> forall g :: g in groups ==> Splits(g)
    ensures out.Some? ==> Ratios(Layers(groups)) && out.value == Segments(base, Layers(groups), blocks)
  {
    var segments: seq<Segment> := [];
    var off := 0;
    for i := 0 to |groups|
      invariant forall g :: g in groups[..i] ==> Splits(g)
      invariant Ratios(Layers(groups[..i]))
      invariant segments == Segments(base, Layers(groups[..i]), blocks) && off == Size(Layers(groups[..i]), blocks)
    {
      var g := groups[i];
      if !Splits(g) {
        return None;
      }
      LayersMore(groups, i);
      segments, off := AddGroup(segments, base, off, g, blocks, Layers(groups[..i]));
    }
    assert groups[..|groups|] == groups;
    return Some(segments);
  }

  lemma LayersMore(groups: seq<Group>, i: nat)
    requires i < |groups|
    ensures Layers(groups[..i + 1])
         == Layers(groups[..i]) + Repeat(Layer(groups[i].page, groups[i].ratio), groups[i].layers)
    ensures groups[..i + 1] == groups[..i] + [groups[i]]
  {
    assert groups[..i + 1][..i] == groups[..i];
  }

  lemma OneMore(base: nat, front: seq<Layer>, l: Layer, k: nat, blocks: nat)
    requires Ratios(front + Repeat(l, k)) && l.ratio > 0
    ensures var all := front + Repeat(l, k);
            && Ratios(front + Repeat(l, k + 1))
            && Size(front + Repeat(l, k + 1), blocks) == Size(all, blocks) + blocks * l.page
            && Segments(base, front + Repeat(l, k + 1), blocks)
               == Segments(base, all, blocks) + LayerSegments(base + Size(all, blocks), l.page, l.ratio)
  {
    var all, more := front + Repeat(l, k), front + Repeat(l, k + 1);
    assert more == all + [l] && more[..|more| - 1] == all;
  }

  // ----- Which words are cleared

  /** Word w is word i of segment s in logical block b. */
  predicate At(s: Segment, b: nat, i: nat, w: nat) {
    i < s.page && w == s.addr / 4 + b * s.stride + i
  }

  ghost predicate Hits(s: Segment, blocks: nat, w: nat) {
    exists b: nat, i: nat :: b < blocks && At(s, b, i, w)
  }

  ghost predicate Covered(segments: seq<Segment>, blocks: nat, w: nat) {
    exists s :: s in segments && Hits(s, blocks, w)
  }

  /** Word w belongs to one of the first blocks of a layer that starts at a byte address. */
  ghost predicate InBlocks(at: nat, page: nat, blocks: nat, w: nat) {
    at / 4 <= w < at / 4 + blocks * (page / 4)
  }

  /** The page splits into whole words under its ratio. */
  predicate WholeWords(l: Layer) { l.ratio > 0 && l.page % (4 * l.ratio) == 0 }

  predicate Whole(layers: seq<Layer>) {
    forall l :: l in layers ==> WholeWords(l)
  }

  lemma PageWords(l: Layer) returns (k: nat)
    requires WholeWords(l)
    ensures l.page == 4 * (l.ratio * k) && l.page / 4 == l.ratio * k && l.page / l.ratio == 4 * k
    ensures l.page / l.ratio / 4 == k
  {
    k := l.page / (4 * l.ratio);
    var r := l.ratio;
    assert l.page == (4 * r) * k;
    assert (4 * r) * k == 4 * (r * k) == r * (4 * k);
    Exact(r, 4 * k);
  }

  lemma Exact(r: nat, q: nat)
    requires r > 0
    ensures (r * q) / r == q
  {
    assert r * q == q * r + 0;
    Quotient(q, 0, r);
  }

  lemma Factor(x: int, d: nat)
    ensures x >= 1 ==> x * d >= d
    ensures x <= -1 ==> x * d + d <= 0
  {
    if x >= 1 {
      assert x * d == (x - 1) * d + d;
    } else if x <= -1 {
      assert x * d == (x + 1) * d - d;
    }
  }

  /** Division with a remainder is unique. */
  lemma OneQuotient(p: nat, i: nat, q: nat, j: nat, d: nat)
    requires i < d && j < d && p * d + i == q * d + j
    ensures p == q && i == j
  {
    Factor(p - q, d);
    assert (p - q) * d == p * d - q * d;
  }

  lemma Quotient(q: nat, rest: nat, d: nat)
    requires rest < d
    ensures (q * d + rest) / d == q && (q * d + rest) % d == rest
  {
    var n := q * d + rest;
    OneQuotient(n / d, n % d, q, rest, d);
  }

  /** The address of a segment in words. */
  lemma SegmentWords(at: nat, l: Layer, v: nat, k: nat)
    requires at % 4 == 0 && v < l.ratio && l.page / l.ratio == 4 * k
    ensures LayerSegments(at, l.page, l.ratio)[v].addr / 4 == at / 4 + v * k
  {
    assert v * (4 * k) == 4 * (v * k);
  }

  // ----- One layer

  lemma LayerReaches(at: nat, l: Layer, blocks: nat, w: nat)
    requires at % 4 == 0 && WholeWords(l) && InBlocks(at, l.page, blocks, w)
    ensures Covered(LayerSegments(at, l.page, l.ratio), blocks, w)
  {
    assert l.ratio > 0;
    hide WholeWords;
    var segments := LayerSegments(at, l.page, l.ratio);
    var k := PageWords(l);
    var b, v, i := Locate(w - at / 4, blocks, l.ratio, k);
    SegmentWords(at, l, v, k);
    assert At(segments[v], b, i, w);
    assert segments[v] in segments;
  }

  lemma LayerStays(at: nat, l: Layer, blocks: nat, w: nat, v: nat, b: nat, i: nat)
    requires at % 4 == 0 && WholeWords(l) && v < l.ratio && b < blocks
    requires At(LayerSegments(at, l.page, l.ratio)[v], b, i, w)
    ensures InBlocks(at, l.page, blocks, w)
  {
    hide WholeWords, At;
    var k := PageWords(l);
    WordOf(at, l, v, b, i, w, k);
    Inside(b, v, i, blocks, l.ratio, k);
  }

  /** The words of a layer's first blocks are exactly those of its segments there. */
  lemma LayerCovers(at: nat, l: Layer, blocks: nat, w: nat)
    requires at % 4 == 0 && WholeWords(l)
    ensures Covered(LayerSegments(at, l.page, l.ratio), blocks, w) <==> InBlocks(at, l.page, blocks, w)
  {
    assert l.ratio > 0;
    hide WholeWords, At, InBlocks;
    var segments := LayerSegments(at, l.page, l.ratio);
    if InBlocks(at, l.page, blocks, w) {
      LayerReaches(at, l, blocks, w);
    }
    if Covered(segments, blocks, w) {
      var s :| s in segments && Hits(s, blocks, w);
      var v :| 0 <= v < l.ratio && segments[v] == s;
      var b: nat, i: nat :| b < blocks && At(s, b, i, w);
      LayerStays(at, l, blocks, w, v, b, i);
    }
  }

  lemma ZeroFactor(blocks: nat, ratio: nat, k: nat)
    ensures k == 0 || ratio * k == 0 ==> blocks * (ratio * k) == 0
  {
  }

  lemma Locate(x: nat, blocks: nat, ratio: nat, k: nat) returns (b: nat, v: nat, i: nat)
    requires x < blocks * (ratio * k)
    ensures b < blocks && v < ratio && i < k && x == v * k + b * (ratio * k) + i
  {
    var page := ratio * k;
    ZeroFactor(blocks, ratio, k);
    b := x / page;
    var y := x % page;
    assert x == b * page + y;
    Factor(b - blocks, page);
    assert (b - blocks) * page == b * page - blocks * page;
    v, i := y / k, y % k;
    assert y == v * k + i;
    Factor(v - ratio, k);
    assert (v - ratio) * k == v * k - ratio * k;
  }

  lemma Inside(b: nat, v: nat, i: nat, blocks: nat, ratio: nat, k: nat)
    requires b < blocks && v < ratio && i < k
    ensures v * k + b * (ratio * k) + i < blocks * (ratio * k)
  {
    Factor(ratio - v, k);
    assert (ratio - v) * k == ratio * k - v * k;
    var page := ratio * k;
    Factor(blocks - b, page);
    assert (blocks - b) * page == blocks * page - b * page;
  }

  lemma ThreeDigits(b: nat, u: nat, i: nat, c: nat, v: nat, j: nat, r: nat, k: nat)
    requires u < r && v < r && i < k && j < k && b * (r * k) + (u * k + i) == c * (r * k) + (v * k + j)
    ensures b == c && u == v && i == j
  {
    Inside(0, u, i, 1, r, k);
    Inside(0, v, j, 1, r, k);
    OneQuotient(b, u * k + i, c, v * k + j, r * k);
    OneQuotient(u, i, v, j, k);
  }

  lemma LayerOnce(at: nat, l: Layer, u: nat, b: nat, i: nat, v: nat, c: nat, j: nat, w: nat)
    requires at % 4 == 0 && WholeWords(l) && u < l.ratio && v < l.ratio
    requires At(LayerSegments(at, l.page, l.ratio)[u], b, i, w) && At(LayerSegments(at, l.page, l.ratio)[v], c, j, w)
    ensures u == v && b == c && i == j
  {
    hide WholeWords, At, LayerSegments;
    var k := PageWords(l);
    WordOf(at, l, u, b, i, w, k);
    WordOf(at, l, v, c, j, w, k);
    ThreeDigits(b, u, i, c, v, j, l.ratio, k);
  }

  lemma WordOf(at: nat, l: Layer, v: nat, b: nat, i: nat, w: nat, k: nat)
    requires at % 4 == 0 && v < l.ratio && l.page / 4 == l.ratio * k && l.page / l.ratio == 4 * k
    requires At(LayerSegments(at, l.page, l.ratio)[v], b, i, w)
    ensures i < k && w == at / 4 + b * (l.ratio * k) + (v * k + i)
  {
    SegmentWords(at, l, v, k);
  }

  // ----- The whole pool

  /** The layers before the k-th take the words before it. */
  lemma SizeWords(layers: seq<Layer>, blocks: nat)
    requires Whole(layers)
    ensures Size(layers, blocks) % 4 == 0
  {
    if layers != [] {
      var l := layers[|layers| - 1];
      SizeWords(layers[..|layers| - 1], blocks);
      var k := PageWords(l);
      assert blocks * l.page == 4 * (blocks * (l.ratio * k));
    }
  }

  /** Word w is in one of the first n blocks of some layer; the ratios play no part in this. */
  ghost predicate InPool(base: nat, layers: seq<Layer>, blocks: nat, n: nat, w: nat) {
    layers != [] &&
    var front, l := layers[..|layers| - 1], layers[|layers| - 1];
    InPool(base, front, blocks, n, w) || InBlocks(base + Size(front, blocks), l.page, n, w)
  }

  /** The words cleared for the first n blocks, whatever the ratios. */
  lemma {:induction false} SegmentsCover(base: nat, layers: seq<Layer>, blocks: nat, n: nat, w: nat)
    requires base % 4 == 0 && Whole(layers)
    ensures Covered(Segments(base, layers, blocks), n, w) <==> InPool(base, layers, blocks, n, w)
  {
    hide At, WholeWords, LayerSegments, Covered, InBlocks;
    if layers == [] {
      NothingCovered(n, w);
    } else {
      var front, l := layers[..|layers| - 1], layers[|layers| - 1];
      LastLayer(base, layers, blocks);
      SegmentsCover(base, front, blocks, n, w);
      SizeWords(front, blocks);
      LayerCovers(base + Size(front, blocks), l, n, w);
      CoveredAppend(Segments(base, front, blocks), LayerSegments(base + Size(front, blocks), l.page, l.ratio), n, w);
    }
  }

  lemma NothingCovered(n: nat, w: nat)
    ensures !Covered([], n, w)
  {
  }

  lemma CoveredAppend(a: seq<Segment>, b: seq<Segment>, n: nat, w: nat)
    ensures Covered(a + b, n, w) <==> Covered(a, n, w) || Covered(b, n, w)
  {
    if Covered(a, n, w) {
      var s :| s in a && Hits(s, n, w);
      assert s in a + b;
    }
    if Covered(b, n, w) {
      var s :| s in b && Hits(s, n, w);
      assert s in a + b;
    }
  }

  /** All blocks together are the pool. */
  lemma {:induction false} AllBlocksArePool(base: nat, layers: seq<Layer>, blocks: nat, w: nat)
    requires base % 4 == 0 && Whole(layers)
    ensures InPool(base, layers, blocks, blocks, w) <==> base / 4 <= w < (base + Size(layers, blocks)) / 4
  {
    if layers != [] {
      var front, l := layers[..|layers| - 1], layers[|layers| - 1];
      AllBlocksArePool(base, front, blocks, w);
      SizeWords(front, blocks);
      var k := PageWords(l);
      assert blocks * l.page == 4 * (blocks * (l.ratio * k));
    }
  }

  lemma HitIsCovered(segments: seq<Segment>, u: nat, b: nat, i: nat, blocks: nat, w: nat)
    requires u < |segments| && b < blocks && At(segments[u], b, i, w)
    ensures Covered(segments, blocks, w)
  {
    assert segments[u] in segments && Hits(segments[u], blocks, w);
  }

  /** The layers so far end where the next begins. */
  lemma Before(base: nat, front: seq<Layer>, blocks: nat, u: nat, b: nat, i: nat, w: nat)
    requires base % 4 == 0 && Whole(front) && b < blocks
    requires u < |Segments(base, front, blocks)| && At(Segments(base, front, blocks)[u], b, i, w)
    ensures w < (base + Size(front, blocks)) / 4
  {
    HitIsCovered(Segments(base, front, blocks), u, b, i, blocks, w);
    SegmentsCover(base, front, blocks, blocks, w);
    AllBlocksArePool(base, front, blocks, w);
  }

  lemma After(at: nat, l: Layer, blocks: nat, u: nat, b: nat, i: nat, w: nat)
    requires at % 4 == 0 && WholeWords(l) && b < blocks
    requires u < |LayerSegments(at, l.page, l.ratio)| && At(LayerSegments(at, l.page, l.ratio)[u], b, i, w)
    ensures w >= at / 4
  {
    HitIsCovered(LayerSegments(at, l.page, l.ratio), u, b, i, blocks, w);
    LayerCovers(at, l, blocks, w);
  }

  lemma LastLayer(base: nat, layers: seq<Layer>, blocks: nat)
    requires Whole(layers) && layers != []
    ensures var front, l := layers[..|layers| - 1], layers[|layers| - 1];
            && Whole(front) && WholeWords(l) && l.ratio > 0 && Ratios(front) && Ratios(layers)
            && Segments(base, layers, blocks)
               == Segments(base, front, blocks) + LayerSegments(base + Size(front, blocks), l.page, l.ratio)
  {
  }

  /** No two (segment, block, word) meet at one word of the pool. */
  lemma {:induction false} WordsOnce(base: nat, layers: seq<Layer>, blocks: nat, u: nat, b: nat, i: nat, v: nat, c: nat,
                                     j: nat, w: nat)
    requires base % 4 == 0 && Whole(layers) && b < blocks && c < blocks
    requires u < |Segments(base, layers, blocks)| && At(Segments(base, layers, blocks)[u], b, i, w)
    requires v < |Segments(base, layers, blocks)| && At(Segments(base, layers, blocks)[v], c, j, w)
    ensures u == v && b == c && i == j
  {
    hide *;
    if layers == [] {
      NoLayers(base, blocks);
    } else {
      LastLayer(base, layers, blocks);
      var front, l := layers[..|layers| - 1], layers[|layers| - 1];
      var before, at := Segments(base, front, blocks), base + Size(front, blocks);
      if u < |before| && v < |before| {
        WordsOnce(base, front, blocks, u, b, i, v, c, j, w);
      } else if u >= |before| && v >= |before| {
        SizeWords(front, blocks);
        LayerOnce(at, l, u - |before|, b, i, v - |before|, c, j, w);
      } else if u < |before| {
        SizeWords(front, blocks);
        Before(base, front, blocks, u, b, i, w);
        After(at, l, blocks, v - |before|, c, j, w);
        assert false;
      } else {
        SizeWords(front, blocks);
        Before(base, front, blocks, v, c, j, w);
        After(at, l, blocks, u - |before|, b, i, w);
        assert false;
      }
    }
  }

  lemma NoLayers(base: nat, blocks: nat)
    ensures Ratios([]) && Segments(base, [], blocks) == []
  {
  }

  ghost predicate SamePages(a: seq<Layer>, b: seq<Layer>) {
    |a| == |b| && forall i :: 0 <= i < |a| ==> a[i].page == b[i].page
  }

  lemma {:induction false} PoolByPages(base: nat, a: seq<Layer>, b: seq<Layer>, blocks: nat, n: nat, w: nat)
    requires SamePages(a, b)
    ensures Size(a, blocks) == Size(b, blocks) && (InPool(base, a, blocks, n, w) <==> InPool(base, b, blocks, n, w))
  {
    if a != [] {
      PoolByPages(base, a[..|a| - 1], b[..|b| - 1], blocks, n, w);
    }
  }

  /** What is cleared does not depend on the ratios. */
  lemma RatiosDoNotMatter(base: nat, a: seq<Layer>, b: seq<Layer>, blocks: nat, n: nat, w: nat)
    requires base % 4 == 0 && Whole(a) && Whole(b) && SamePages(a, b)
    ensures Covered(Segments(base, a, blocks), n, w) <==> Covered(Segments(base, b, blocks), n, w)
  {
    SegmentsCover(base, a, blocks, n, w);
    SegmentsCover(base, b, blocks, n, w);
    PoolByPages(base, a, b, blocks, n, w);
  }
}
