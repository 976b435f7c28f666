/** Engine steps of a trace: cutting the span into steps, giving each kernel to its step, and
    attributing every idle gap once in each breakdown. */
module TraceSteps {
  import opened Options
  import opened TraceIntervals
  import opened TraceRegions

  datatype Event = Event(ts: real, dur: real, name: string)

  // ----- Steps tile the annotated span

  datatype Span = Span(t0: real, tmid: real, t1: real, name: string)

  function Spans(regions: seq<Region>): seq<Span> {
    seq(if |regions| == 0 then 0 else |regions| - 1, k requires 0 <= k < |regions| - 1 =>
      Span(regions[k].start, regions[k].end, regions[k + 1].start, regions[k].name))
  }

  /** Steps follow one another without gap or overlap, each with its annotated part first. */
  ghost predicate Tiled(spans: seq<Span>) {
    && (forall k :: 0 <= k < |spans| ==> spans[k].t0 <= spans[k].tmid < spans[k].t1)
    && (forall k :: 0 <= k < |spans| - 1 ==> spans[k].t1 == spans[k + 1].t0)
  }

  /** The steps of a merged annotation follow one another from the first region to the last; each is named after
      its region, whose end is where its annotated part ends. */
  lemma StepsTile(regions: seq<Region>)
    requires Separated(regions)
    ensures Tiled(Spans(regions)) && |Spans(regions)| == if |regions| == 0 then 0 else |regions| - 1
    ensures forall k :: 0 <= k < |Spans(regions)| ==>
              && Spans(regions)[k].t0 == regions[k].start && Spans(regions)[k].tmid == regions[k].end
              && Spans(regions)[k].name == regions[k].name
    ensures |regions| >= 2 ==>
              && Spans(regions)[0].t0 == regions[0].start
              && Spans(regions)[|regions| - 2].t1 == regions[|regions| - 1].start
  {
  }

  lemma {:induction false} TiledInOrder(spans: seq<Span>, j: nat, k: nat)
    requires Tiled(spans) && j < k < |spans|
    ensures spans[j].t1 <= spans[k].t0
  {
    if j + 1 < k {
      TiledInOrder(spans, j, k - 1);
    }
  }

  /** The number of leading values at or below x. */
  function BisectRight(values: seq<real>, x: real): (n: nat)
    ensures n <= |values|
    ensures n > 0 ==> values[n - 1] <= x
    ensures n < |values| ==> values[n] > x
  {
    if values == [] || values[0] > x then 0 else 1 + BisectRight(values[1..], x)
  }

  function Starts(spans: seq<Span>): seq<real> {
    seq(|spans|, k requires 0 <= k < |spans| => spans[k].t0)
  }

  /** Every time of the span is in exactly one step, the one the bisection finds. */
  lemma StepOfTime(spans: seq<Span>, t: real)
    requires Tiled(spans) && spans != [] && spans[0].t0 <= t < spans[|spans| - 1].t1
    ensures var k := BisectRight(Starts(spans), t) - 1;
            && 0 <= k < |spans| && spans[k].t0 <= t < spans[k].t1
            && forall j :: 0 <= j < |spans| && spans[j].t0 <= t < spans[j].t1 ==> j == k
  {
    var k := BisectRight(Starts(spans), t) - 1;
    if 0 <= k < |spans| - 1 {
      assert Starts(spans)[k + 1] == spans[k + 1].t0;
    }
    forall j | 0 <= j < |spans| && spans[j].t0 <= t < spans[j].t1
      ensures j == k
    {
      if j < k {
        TiledInOrder(spans, j, k);
      } else if k < j {
        TiledInOrder(spans, k, j);
      }
    }
  }

  // ----- Kernels are given to steps

  class Step {
    const span: Span
    var ev: seq<Event>

    constructor (span: Span)
      ensures this.span == span && ev == []
    {
      this.span := span;
      ev := [];
    }
  }

  function Inside(events: seq<Event>, lo: real, hi: real): seq<Event> {
    if events == [] then []
    else
      var e := events[|events| - 1];
      Inside(events[..|events| - 1], lo, hi) + if lo <= e.ts < hi then [e] else []
  }

  function Total(events: seq<Event>): real {
    if events == [] then 0.0 else Total(events[..|events| - 1]) + events[|events| - 1].dur
  }

  lemma TotalAppend(a: seq<Event>, e: Event)
    ensures Total(a + [e]) == Total(a) + e.dur
  {
    assert (a + [e])[..|a|] == a;
  }

  lemma InsideAppend(p: seq<Event>, e: Event, lo: real, hi: real)
    ensures Inside(p + [e], lo, hi) == Inside(p, lo, hi) + if lo <= e.ts < hi then [e] else []
    ensures Total(Inside(p + [e], lo, hi)) == Total(Inside(p, lo, hi)) + if lo <= e.ts < hi then e.dur else 0.0
  {
    assert (p + [e])[..|p|] == p;
    TotalAppend(Inside(p, lo, hi), e);
    assert Inside(p, lo, hi) + [] == Inside(p, lo, hi);
  }

  ghost predicate AreSteps(steps: seq<Step>, spans: seq<Span>) {
    && |steps| == |spans|
    && (forall k :: 0 <= k < |steps| ==> steps[k].span == spans[k])
    && (forall j, k :: 0 <= j < k < |steps| ==> steps[j] != steps[k])
  }

  ghost predicate Given(steps: seq<Step>, spans: seq<Span>, gpu: seq<Event>)
    requires |steps| == |spans|
    reads steps
  {
    forall k :: 0 <= k < |steps| ==> steps[k].ev == Inside(gpu, spans[k].t0, spans[k].t1)
  }

  method ClearSteps(steps: seq<Step>)
    modifies steps
    ensures forall k :: 0 <= k < |steps| ==> steps[k].ev == []
  {
    for k := 0 to |steps|
      invariant forall j :: 0 <= j < k ==> steps[j].ev == []
    {
      steps[k].ev := [];
    }
  }

  lemma NothingGiven(steps: seq<Step>, spans: seq<Span>)
    requires |steps| == |spans| && forall k :: 0 <= k < |steps| ==> steps[k].ev == []
    ensures Given(steps, spans, []) && Total([]) == 0.0 && forall lo, hi :: Inside([], lo, hi) == []
  {
  }

  /** One kernel: to the step it starts in, if there is one. */
  method AssignOne(steps: seq<Step>, ghost spans: seq<Span>, starts: seq<real>, ghost done: seq<Event>,
                   e: Event) returns (unassigned: real)
    requires AreSteps(steps, spans) && Tiled(spans) && spans != [] && starts == Starts(spans)
    requires Given(steps, spans, done)
    modifies steps
    ensures Given(steps, spans, done + [e])
    ensures unassigned == if spans[0].t0 <= e.ts < spans[|spans| - 1].t1 then 0.0 else e.dur
  {
    hide Given, Inside, Total, BisectRight, Tiled;
    var lo, hi := steps[0].span.t0, steps[|steps| - 1].span.t1;
    if e.ts < lo || e.ts >= hi {
      SkipEvent(steps, spans, done, e);
      return e.dur;
    }
    StepOfTime(spans, e.ts);
    GiveEvent(steps, spans, done, e, BisectRight(starts, e.ts) - 1);
    return 0.0;
  }

  /** Each step receives, in order, the kernels that start in it; the rest is only added up. */
  method AssignEvents(steps: seq<Step>, ghost spans: seq<Span>, gpu: seq<Event>) returns (unassigned: real)
    requires AreSteps(steps, spans) && Tiled(spans) && spans != []
    modifies steps
    ensures Given(steps, spans, gpu)
    ensures unassigned == Total(gpu) - Total(Inside(gpu, spans[0].t0, spans[|spans| - 1].t1))
  {
    hide Given, Inside, Total, BisectRight, Tiled;
    var starts := seq(|steps|, k requires 0 <= k < |steps| => steps[k].span.t0);
    assert starts == Starts(spans);
    ClearSteps(steps);
    NothingGiven(steps, spans);
    ghost var lo, hi := spans[0].t0, spans[|spans| - 1].t1;
    unassigned := 0.0;
    for i := 0 to |gpu|
      invariant Given(steps, spans, gpu[..i])
      invariant unassigned == Total(gpu[..i]) - Total(Inside(gpu[..i], lo, hi))
    {
      assert gpu[..i + 1] == gpu[..i] + [gpu[i]];
      InsideAppend(gpu[..i], gpu[i], lo, hi);
      TotalAppend(gpu[..i], gpu[i]);
      var more := AssignOne(steps, spans, starts, gpu[..i], gpu[i]);
      unassigned := unassigned + more;
    }
    assert gpu[..|gpu|] == gpu;
  }

  lemma SkipEvent(steps: seq<Step>, spans: seq<Span>, done: seq<Event>, e: Event)
    requires AreSteps(steps, spans) && Tiled(spans) && spans != [] && Given(steps, spans, done)
    requires e.ts < spans[0].t0 || e.ts >= spans[|spans| - 1].t1
    ensures Given(steps, spans, done + [e])
  {
    hide Inside, Tiled;
    OutsideAll(spans, e.ts);
    forall k | 0 <= k < |steps|
      ensures steps[k].ev == Inside(done + [e], spans[k].t0, spans[k].t1)
    {
      InsideAppend(done, e, spans[k].t0, spans[k].t1);
    }
  }

  /** Gives one kernel to the one step it starts in. */
  method GiveEvent(steps: seq<Step>, ghost spans: seq<Span>, ghost done: seq<Event>, e: Event, k: nat)
    requires AreSteps(steps, spans) && Given(steps, spans, done) && k < |steps| && spans[k].t0 <= e.ts < spans[k].t1
    requires forall j :: 0 <= j < |spans| && spans[j].t0 <= e.ts < spans[j].t1 ==> j == k
    modifies steps[k]
    ensures Given(steps, spans, done + [e])
  {
    hide Inside;
    steps[k].ev := steps[k].ev + [e];
    forall j | 0 <= j < |steps|
      ensures steps[j].ev == Inside(done + [e], spans[j].t0, spans[j].t1)
    {
      InsideAppend(done, e, spans[j].t0, spans[j].t1);
    }
  }

  lemma OutsideAll(spans: seq<Span>, t: real)
    requires Tiled(spans) && spans != [] && (t < spans[0].t0 || t >= spans[|spans| - 1].t1)
    ensures forall k :: 0 <= k < |spans| ==> !(spans[k].t0 <= t < spans[k].t1)
  {
    forall k | 0 <= k < |spans|
      ensures !(spans[k].t0 <= t < spans[k].t1)
    {
      if 0 < k {
        TiledInOrder(spans, 0, k);
      }
      if k < |spans| - 1 {
        TiledInOrder(spans, k, |spans| - 1);
      }
    }
  }

  /** The kernel time given to the first n steps. */
  function StepTotals(gpu: seq<Event>, spans: seq<Span>): real {
    if spans == [] then 0.0
    else
      var s := spans[|spans| - 1];
      StepTotals(gpu, spans[..|spans| - 1]) + Total(Inside(gpu, s.t0, s.t1))
  }

  lemma {:induction false} InsideSplits(gpu: seq<Event>, lo: real, mid: real, hi: real)
    requires lo <= mid <= hi
    ensures Total(Inside(gpu, lo, mid)) + Total(Inside(gpu, mid, hi)) == Total(Inside(gpu, lo, hi))
  {
    if gpu != [] {
      var p, e := gpu[..|gpu| - 1], gpu[|gpu| - 1];
      InsideSplits(p, lo, mid, hi);
      assert gpu == p + [e];
      InsideAppend(p, e, lo, mid);
      InsideAppend(p, e, mid, hi);
      InsideAppend(p, e, lo, hi);
    }
  }

  /** Durations are conserved: what the steps received is what starts in the span, so together with
      the unassigned rest it is the time of all kernels. */
  lemma {:induction false} DurationsConserved(gpu: seq<Event>, spans: seq<Span>)
    requires Tiled(spans) && spans != []
    ensures StepTotals(gpu, spans) == Total(Inside(gpu, spans[0].t0, spans[|spans| - 1].t1))
  {
    var n := |spans| - 1;
    if n > 0 {
      DurationsConserved(gpu, spans[..n]);
      TiledInOrder(spans, 0, n);
      InsideSplits(gpu, spans[0].t0, spans[n].t0, spans[n].t1);
    } else {
      assert StepTotals(gpu, spans[..0]) == 0.0;
    }
  }

  // ----- The innermost operation around a gap

  /** Operations of one thread: of two, the later is after the earlier or inside it. */
  ghost predicate Nested(ops: seq<Interval>) {
    forall i, k :: 0 <= i < k < |ops| ==>
      ops[i].start <= ops[k].start && (ops[i].end <= ops[k].start || ops[k].end <= ops[i].end)
  }

  ghost predicate Around(op: Interval, t0: real, t1: real) {
    op.start <= t0 && t1 <= op.end
  }

  function OpStarts(ops: seq<Interval>): seq<real> {
    seq(|ops|, i requires 0 <= i < |ops| => ops[i].start)
  }

  /** Walks back from the last operation that has started, over at most maxBack of them. */
  method Enclosing(ops: seq<Interval>, t0: real, t1: real, maxBack: int) returns (r: Option<nat>)
    requires forall i, k :: 0 <= i < k < |ops| ==> ops[i].start <= ops[k].start
    ensures r.Some? ==> r.value < |ops| && Around(ops[r.value], t0, t1)
    ensures var first := BisectRight(OpStarts(ops), t0) - maxBack;
            forall k :: 0 <= k < |ops| && Around(ops[k], t0, t1) && first <= k ==> r.Some? && k <= r.value
    ensures r.Some? ==> BisectRight(OpStarts(ops), t0) - maxBack <= r.value
  {
    var starts := OpStarts(ops);
    var n := BisectRight(starts, t0);
    assert n < |ops| ==> starts[n] == ops[n].start;
    var j := n - 1;
    var stop := if j - maxBack < -1 then -1 else j - maxBack;
    while j > stop
      invariant j < n && (j >= stop || j == n - 1)
      invariant forall k :: j < k < |ops| ==> !Around(ops[k], t0, t1)
    {
      assert j < n - 1 ==> ops[j].start <= ops[n - 1].start;
      assert starts[n - 1] == ops[n - 1].start <= t0;
      if ops[j].end >= t1 {
        return Some(j);
      }
      j := j - 1;
    }
    return None;
  }

  /** On nested operations the latest one around a gap is inside every other one around it. */
  lemma LatestIsInnermost(ops: seq<Interval>, t0: real, t1: real, i: nat, k: nat)
    requires Nested(ops) && t0 < t1 && i <= k < |ops| && Around(ops[i], t0, t1) && Around(ops[k], t0, t1)
    ensures ops[i].start <= ops[k].start && ops[k].end <= ops[i].end
  {
  }
}
