/** Merging the annotations of a trace into regions, and whose name a region bears. */
module TraceRegions {
  import opened TraceIntervals

  datatype Annotation = Annotation(ts: real, dur: real, name: string)

  datatype Region = Region(start: real, end: real, name: string)

  function Spans(anns: seq<Annotation>): seq<Interval> {
    seq(|anns|, i requires 0 <= i < |anns| => Interval(anns[i].ts, anns[i].ts + anns[i].dur))
  }

  function RegionSpans(regions: seq<Region>): seq<Interval> {
    seq(|regions|, i requires 0 <= i < |regions| => Interval(regions[i].start, regions[i].end))
  }

  ghost predicate Separated(regions: seq<Region>) {
    && (forall i :: 0 <= i < |regions| ==> regions[i].start <= regions[i].end)
    && (forall i, j :: 0 <= i < j < |regions| ==> regions[i].end < regions[j].start)
  }

  /** A region carries the name of an annotation that starts with it. */
  ghost predicate NamedByFirst(regions: seq<Region>, anns: seq<Annotation>) {
    forall i :: 0 <= i < |regions| ==>
      exists k :: 0 <= k < |anns| && anns[k].ts == regions[i].start && anns[k].name == regions[i].name
  }

  /** Regions are strictly apart, cover what the annotations cover, and take the first one's name. */
  ghost predicate Merged(out: seq<Region>, anns: seq<Annotation>) {
    && Separated(out) && NamedByFirst(out, anns) && (anns != [] ==> out != [])
    && forall t :: Covered(RegionSpans(out), t) <==> Covered(Spans(anns), t)
  }

  function MergeOne(out: seq<Region>, a: Annotation): (n: seq<Region>)
    ensures n != []
  {
    if out != [] && a.ts <= out[|out| - 1].end then
      var last := out[|out| - 1];
      out[|out| - 1 := last.(end := Max(last.end, a.ts + a.dur))]
    else
      out + [Region(a.ts, a.ts + a.dur, a.name)]
  }

  function MergeAll(anns: seq<Annotation>): seq<Region> {
    if anns == [] then [] else MergeOne(MergeAll(anns[..|anns| - 1]), anns[|anns| - 1])
  }

  method Merge(anns: seq<Annotation>) returns (out: seq<Region>)
    ensures out == MergeAll(anns)
  {
    out := [];
    for i := 0 to |anns|
      invariant out == MergeAll(anns[..i])
    {
      assert anns[..i + 1][..i] == anns[..i];
      var ts, dur := anns[i].ts, anns[i].dur;
      if out != [] && ts <= out[|out| - 1].end {
        var last := out[|out| - 1];
        out := out[|out| - 1 := last.(end := Max(last.end, ts + dur))];
      } else {
        out := out + [Region(ts, ts + dur, anns[i].name)];
      }
    }
    assert anns[..|anns|] == anns;
  }

  lemma {:induction false} MergeKeeps(anns: seq<Annotation>)
    requires StartSorted(Spans(anns))
    ensures Merged(MergeAll(anns), anns)
    ensures anns != [] ==> MergeAll(anns)[|MergeAll(anns)| - 1].start <= anns[|anns| - 1].ts
  {
    if anns == [] {
      assert RegionSpans([]) == Spans([]) == [];
    } else {
      var p, a := anns[..|anns| - 1], anns[|anns| - 1];
      assert p + [a] == anns && Spans(p) == Spans(anns)[..|anns| - 1];
      MergeKeeps(p);
      SpansSorted(anns, |anns| - 1);
      if p != [] {
        SpansSorted(anns, |anns| - 2);
      }
      MergeStep(p, a, MergeAll(p));
    }
  }

  lemma SpansSorted(anns: seq<Annotation>, i: nat)
    requires StartSorted(Spans(anns)) && i < |anns|
    ensures anns[i].dur >= 0.0 && (i + 1 < |anns| ==> anns[i].ts <= anns[i + 1].ts)
  {
    assert Spans(anns)[i] == Interval(anns[i].ts, anns[i].ts + anns[i].dur);
    assert i + 1 < |anns| ==> Spans(anns)[i].start <= Spans(anns)[i + 1].start;
  }

  lemma MergeStep(anns: seq<Annotation>, a: Annotation, out: seq<Region>)
    requires Merged(out, anns) && a.dur >= 0.0
    requires out != [] ==> out[|out| - 1].start <= a.ts
    ensures Merged(MergeOne(out, a), anns + [a])
    ensures MergeOne(out, a)[|MergeOne(out, a)| - 1].start <= a.ts
  {
    hide Covered;
    var n := MergeOne(out, a);
    var x := Interval(a.ts, a.ts + a.dur);
    assert Spans(anns + [a]) == Spans(anns) + [x];
    forall i | 0 <= i < |n|
      ensures exists k :: 0 <= k < |anns + [a]| && (anns + [a])[k].ts == n[i].start && (anns + [a])[k].name == n[i].name
    {
      if i < |out| {
        var k :| 0 <= k < |anns| && anns[k].ts == out[i].start && anns[k].name == out[i].name;
        assert (anns + [a])[k] == anns[k];
      } else {
        assert (anns + [a])[|anns|] == a;
      }
    }
    forall t
      ensures Covered(RegionSpans(n), t) <==> Covered(Spans(anns + [a]), t)
    {
      CoveredAppend(Spans(anns), x, t);
      if |n| > |out| {
        assert RegionSpans(n) == RegionSpans(out) + [x];
        CoveredAppend(RegionSpans(out), x, t);
      } else {
        var front := RegionSpans(out[..|out| - 1]);
        var last := out[|out| - 1];
        assert RegionSpans(out) == front + [Interval(last.start, last.end)];
        assert RegionSpans(n) == front + [Interval(last.start, Max(last.end, x.end))];
        CoveredAppend(front, Interval(last.start, last.end), t);
        CoveredAppend(front, Interval(last.start, Max(last.end, x.end)), t);
      }
    }
  }

  // ----- Whose name a region bears

  function End(a: Annotation): real { a.ts + a.dur }

  /** No earlier annotation reaches this one: it opens a group. */
  ghost predicate Opens(anns: seq<Annotation>, k: int) {
    0 <= k < |anns| && forall j :: 0 <= j < k ==> End(anns[j]) < anns[k].ts
  }

  /** j is k or follows it, and none opens a group in between. */
  ghost predicate InGroup(anns: seq<Annotation>, k: int, j: int) {
    k <= j < |anns| && forall i :: k < i <= j ==> !Opens(anns, i)
  }

  ghost predicate WidestOfGroup(anns: seq<Annotation>, k: int, w: int) {
    0 <= k && InGroup(anns, k, w) && forall j :: InGroup(anns, k, j) ==> anns[j].dur <= anns[w].dur
  }

  ghost predicate StartsIn(r: Region, a: Annotation) {
    r.start <= a.ts <= r.end
  }

  /** A region bears the name of a longest annotation that starts in it. */
  ghost predicate BearsWidest(r: Region, anns: seq<Annotation>) {
    exists w :: 0 <= w < |anns| && StartsIn(r, anns[w]) && anns[w].name == r.name
                && forall j :: 0 <= j < |anns| && StartsIn(r, anns[j]) ==> anns[j].dur <= anns[w].dur
  }

  /** Region i is the group that annotation first[i] opens, and bears its name. */
  ghost predicate RegionOf(r: Region, anns: seq<Annotation>, k: int) {
    && Opens(anns, k) && r.start == anns[k].ts && r.name == anns[k].name
    && forall j :: 0 <= j < |anns| ==> (StartsIn(r, anns[j]) <==> InGroup(anns, k, j))
  }

  ghost predicate GroupsAre(out: seq<Region>, anns: seq<Annotation>, first: seq<int>) {
    && |first| == |out|
    && (forall i :: 0 <= i < |out| ==> RegionOf(out[i], anns, first[i]))
    && (forall k :: Opens(anns, k) ==> k in first)
    && (forall i, j :: 0 <= i < j < |first| ==> first[i] < first[j])
  }

  ghost predicate EndsLast(out: seq<Region>, anns: seq<Annotation>) {
    && (out == [] <==> anns == [])
    && (forall j :: 0 <= j < |anns| ==> out != [] && End(anns[j]) <= out[|out| - 1].end)
    && (anns != [] ==> exists j :: 0 <= j < |anns| && End(anns[j]) == out[|out| - 1].end)
  }

  lemma OpensAppend(anns: seq<Annotation>, a: Annotation)
    ensures forall k :: k < |anns| ==> (Opens(anns + [a], k) <==> Opens(anns, k))
    ensures forall k, j :: 0 <= k && j < |anns| ==> (InGroup(anns + [a], k, j) <==> InGroup(anns, k, j))
    ensures Opens(anns + [a], |anns|) <==> forall j :: 0 <= j < |anns| ==> End(anns[j]) < a.ts
  {
    var n := anns + [a];
    assert forall j :: 0 <= j < |anns| ==> n[j] == anns[j];
  }

  lemma {:induction false} EndsAreLast(anns: seq<Annotation>)
    requires StartSorted(Spans(anns))
    ensures EndsLast(MergeAll(anns), anns)
  {
    if anns != [] {
      var p, a := anns[..|anns| - 1], anns[|anns| - 1];
      assert p + [a] == anns && Spans(p) == Spans(anns)[..|anns| - 1];
      EndsAreLast(p);
      SpansSorted(anns, |anns| - 1);
      EndsStep(p, a, MergeAll(p));
    }
  }

  lemma EndsStep(anns: seq<Annotation>, a: Annotation, out: seq<Region>)
    requires EndsLast(out, anns) && a.dur >= 0.0
    ensures EndsLast(MergeOne(out, a), anns + [a])
  {
    var n, more := MergeOne(out, a), anns + [a];
    assert more[|anns|] == a;
    if out != [] && End(a) < out[|out| - 1].end {
      var j :| 0 <= j < |anns| && End(anns[j]) == out[|out| - 1].end;
      assert more[j] == anns[j];
    }
  }

  lemma JoinKeepsRegion(r: Region, n: Region, anns: seq<Annotation>, a: Annotation, k: int)
    requires RegionOf(r, anns, k) && n == r.(end := Max(r.end, End(a))) && r.start <= a.ts <= r.end && a.dur >= 0.0
    requires !Opens(anns + [a], |anns|) && InGroup(anns, k, |anns| - 1)
    requires forall j :: 0 <= j < |anns| ==> anns[j].ts <= r.end
    ensures RegionOf(n, anns + [a], k)
  {
    OpensAppend(anns, a);
    var more := anns + [a];
    forall j | 0 <= j < |more|
      ensures StartsIn(n, more[j]) <==> InGroup(more, k, j)
    {
      if j < |anns| {
        assert more[j] == anns[j];
      }
    }
  }

  lemma OthersKeepRegion(r: Region, anns: seq<Annotation>, a: Annotation, k: int, last: int)
    requires RegionOf(r, anns, k) && r.end < a.ts && (Opens(anns + [a], last) && k < last)
    ensures RegionOf(r, anns + [a], k)
  {
    OpensAppend(anns, a);
    var more := anns + [a];
    forall j | 0 <= j < |more|
      ensures StartsIn(r, more[j]) <==> InGroup(more, k, j)
    {
      if j < |anns| {
        assert more[j] == anns[j];
      }
    }
  }

  lemma NewRegion(anns: seq<Annotation>, a: Annotation)
    requires a.dur >= 0.0 && Opens(anns + [a], |anns|) && forall j :: 0 <= j < |anns| ==> anns[j].dur >= 0.0
    ensures RegionOf(Region(a.ts, End(a), a.name), anns + [a], |anns|)
  {
    var more := anns + [a];
    forall j | 0 <= j < |anns|
      ensures more[j].ts < a.ts
    {
      assert more[j] == anns[j] && End(more[j]) < more[|anns|].ts;
    }
  }

  /** Merging makes one region of every group. */
  lemma {:induction false} RegionsAreGroups(anns: seq<Annotation>) returns (first: seq<int>)
    requires StartSorted(Spans(anns))
    ensures GroupsAre(MergeAll(anns), anns, first)
  {
    if anns == [] {
      first := [];
    } else {
      var p, a := anns[..|anns| - 1], anns[|anns| - 1];
      assert p + [a] == anns && Spans(p) == Spans(anns)[..|anns| - 1];
      var before := RegionsAreGroups(p);
      MergeKeeps(p);
      EndsAreLast(p);
      forall j | 0 <= j < |anns|
        ensures anns[j].dur >= 0.0 && anns[j].ts <= a.ts
      {
        assert Spans(anns)[j].start <= Spans(anns)[j].end;
        assert j < |anns| - 1 ==> Spans(anns)[j].start <= Spans(anns)[|anns| - 1].start;
      }
      first := GroupsStep(p, a, MergeAll(p), before);
    }
  }

  lemma GroupsStep(anns: seq<Annotation>, a: Annotation, out: seq<Region>, first: seq<int>) returns (more: seq<int>)
    requires GroupsAre(out, anns, first) && EndsLast(out, anns) && Separated(out) && a.dur >= 0.0
    requires forall j :: 0 <= j < |anns| ==> anns[j].dur >= 0.0 && anns[j].ts <= a.ts
    ensures GroupsAre(MergeOne(out, a), anns + [a], more)
  {
    hide RegionOf, InGroup;
    OpensAppend(anns, a);
    var n := MergeOne(out, a);
    if out != [] && a.ts <= out[|out| - 1].end {
      more := first;
      LastGroupOpen(out, anns, first);
      var j :| 0 <= j < |anns| && End(anns[j]) == out[|out| - 1].end;
      JoinKeepsRegion(out[|out| - 1], n[|out| - 1], anns, a, first[|out| - 1]);
      forall i | 0 <= i < |out| - 1
        ensures RegionOf(n[i], anns + [a], first[i])
      {
        OthersKeepRegion(out[i], anns, a, first[i], first[|out| - 1]);
      }
    } else {
      more := first + [|anns|];
      NewRegion(anns, a);
      forall i | 0 <= i < |out|
        ensures RegionOf(n[i], anns + [a], first[i]) && first[i] < |anns|
      {
        RegionOpens(out[i], anns, first[i]);
        OthersKeepRegion(out[i], anns, a, first[i], |anns|);
      }
    }
  }

  lemma RegionOpens(r: Region, anns: seq<Annotation>, k: int)
    requires RegionOf(r, anns, k)
    ensures Opens(anns, k) && r.start == anns[k].ts
  {
  }

  lemma LastGroupOpen(out: seq<Region>, anns: seq<Annotation>, first: seq<int>)
    requires GroupsAre(out, anns, first) && out != [] && anns != []
    ensures InGroup(anns, first[|out| - 1], |anns| - 1)
    ensures forall i :: 0 <= i < |out| ==> Opens(anns, first[i]) && out[i].start == anns[first[i]].ts
  {
    var k := first[|out| - 1];
    assert RegionOf(out[|out| - 1], anns, k);
    assert forall m :: 0 <= m < |first| ==> first[m] <= k;
  }

  /** A longest annotation of the group has the name of the one that opens it. */
  ghost predicate OpenedByWidestName(anns: seq<Annotation>, k: int) {
    0 <= k < |anns| && exists w :: WidestOfGroup(anns, k, w) && anns[w].name == anns[k].name
  }

  lemma BearsWidestOfGroup(r: Region, anns: seq<Annotation>, k: int)
    requires RegionOf(r, anns, k)
    ensures BearsWidest(r, anns) <==> OpenedByWidestName(anns, k)
  {
    if BearsWidest(r, anns) {
      var w :| 0 <= w < |anns| && StartsIn(r, anns[w]) && anns[w].name == r.name
               && forall j :: 0 <= j < |anns| && StartsIn(r, anns[j]) ==> anns[j].dur <= anns[w].dur;
      assert WidestOfGroup(anns, k, w);
    }
  }

  ghost predicate EveryRegionBearsWidest(out: seq<Region>, anns: seq<Annotation>) {
    forall i :: 0 <= i < |out| ==> BearsWidest(out[i], anns)
  }

  ghost predicate EveryGroupOpenedByWidestName(anns: seq<Annotation>) {
    forall k :: Opens(anns, k) ==> OpenedByWidestName(anns, k)
  }

  lemma FromRegionsToGroups(out: seq<Region>, anns: seq<Annotation>, first: seq<int>)
    requires GroupsAre(out, anns, first) && EveryRegionBearsWidest(out, anns)
    ensures EveryGroupOpenedByWidestName(anns)
  {
    hide RegionOf, BearsWidest, OpenedByWidestName, Opens;
    forall k | Opens(anns, k)
      ensures OpenedByWidestName(anns, k)
    {
      var i :| 0 <= i < |first| && first[i] == k;
      BearsWidestOfGroup(out[i], anns, first[i]);
    }
  }

  lemma FromGroupsToRegions(out: seq<Region>, anns: seq<Annotation>, first: seq<int>)
    requires GroupsAre(out, anns, first) && EveryGroupOpenedByWidestName(anns)
    ensures EveryRegionBearsWidest(out, anns)
  {
    hide RegionOf, BearsWidest, OpenedByWidestName, Opens;
    forall i | 0 <= i < |out|
      ensures BearsWidest(out[i], anns)
    {
      RegionOpens(out[i], anns, first[i]);
      BearsWidestOfGroup(out[i], anns, first[i]);
    }
  }

  /** Every region bears the name of a longest annotation in it exactly when, in every group, a longest one has the
      name of the one that opens the group. */
  lemma WidestNameKept(anns: seq<Annotation>)
    requires StartSorted(Spans(anns))
    ensures EveryRegionBearsWidest(MergeAll(anns), anns) <==> EveryGroupOpenedByWidestName(anns)
  {
    hide EveryRegionBearsWidest, EveryGroupOpenedByWidestName, GroupsAre;
    var first := RegionsAreGroups(anns);
    if EveryRegionBearsWidest(MergeAll(anns), anns) {
      FromRegionsToGroups(MergeAll(anns), anns, first);
    }
    if EveryGroupOpenedByWidestName(anns) {
      FromGroupsToRegions(MergeAll(anns), anns, first);
    }
  }

  /** Of two annotations that overlap, the second the longer one and of another name, the name of the shorter stays. */
  lemma WidestNameLost(a: Annotation, b: Annotation)
    requires 0.0 <= a.dur < b.dur && a.ts <= b.ts <= End(a) && a.name != b.name
    ensures MergeAll([a, b]) == [Region(a.ts, End(b), a.name)] && !BearsWidest(MergeAll([a, b])[0], [a, b])
  {
    var anns := [a, b];
    assert anns[..1] == [a] && [a][..0] == [];
    assert MergeAll([a]) == [Region(a.ts, End(a), a.name)];
    var r := Region(a.ts, End(b), a.name);
    assert StartsIn(r, anns[1]);
  }
}
