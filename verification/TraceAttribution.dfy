/** Where the idle time of each step goes: every gap is counted once by phase, once by size, and once
    by cause or, below the threshold, as a small gap. */
module TraceAttribution {
  import opened Options
  import opened TraceIntervals
  import opened TraceSteps

  // ----- The phases of a step

  datatype Phase = Head | Body | Logits | Draft

  datatype Phases = Phases(head: real, body: real, logits: real, draft: real) {
    function Add(p: Phase, d: real): Phases {
      match p
      case Head => this.(head := head + d)
      case Body => this.(body := body + d)
      case Logits => this.(logits := logits + d)
      case Draft => this.(draft := draft + d)
    }

    function Sum(): real { head + body + logits + draft }
  }

  /** A step with its two inner marks. */
  datatype Marked = Marked(span: Span, p1: real, p3: real)

  ghost predicate MarksInOrder(s: Marked) {
    s.span.t0 <= s.p1 <= s.span.tmid <= s.p3 <= s.span.t1
  }

  /** x is the start of the first of n kernels that qualifies, or the default when none does. */
  ghost predicate StartOfFirst(x: real, kernels: seq<Event>, n: nat, qualifies: Event -> bool, default: real)
    requires n <= |kernels|
  {
    || (x == default && forall i :: 0 <= i < n ==> !qualifies(kernels[i]))
    || (exists i :: 0 <= i < n && IsFirst(kernels, i, qualifies) && x == kernels[i].ts)
  }

  ghost predicate IsFirst(kernels: seq<Event>, i: nat, qualifies: Event -> bool)
    requires i < |kernels|
  {
    qualifies(kernels[i]) && forall j :: 0 <= j < i ==> !qualifies(kernels[j])
  }

  function Long(tmid: real): Event -> bool {
    (e: Event) => e.dur >= 100.0 && e.ts < tmid
  }

  function Drafts(tmid: real, prepares: Event -> bool): Event -> bool {
    (e: Event) => e.ts >= tmid && prepares(e)
  }

  /** The marks, from the kernels that start in the step, in order: the first long one before the
      annotation ends, and the first of the drafter's own after it. */
  method Mark(span: Span, kernels: seq<Event>, prepares: Event -> bool) returns (s: Marked)
    requires span.t0 <= span.tmid <= span.t1
    requires forall i :: 0 <= i < |kernels| ==> span.t0 <= kernels[i].ts < span.t1
    requires forall i, j :: 0 <= i < j < |kernels| ==> kernels[i].ts <= kernels[j].ts
    ensures s.span == span && MarksInOrder(s)
    ensures StartOfFirst(s.p1, kernels, |kernels|, Long(span.tmid), span.tmid)
    ensures StartOfFirst(s.p3, kernels, |kernels|, Drafts(span.tmid, prepares), span.t1)
  {
    ghost var long, drafts := Long(span.tmid), Drafts(span.tmid, prepares);
    var p1, p3 := span.tmid, span.t1;
    for i := 0 to |kernels|
      invariant span.t0 <= p1 <= span.tmid && p3 == span.t1
      invariant forall j :: 0 <= j < i ==> !drafts(kernels[j])
      invariant StartOfFirst(p1, kernels, i, long, span.tmid)
      invariant p1 == span.tmid ==> forall j :: 0 <= j < i ==> !long(kernels[j])
    {
      var e := kernels[i];
      if p1 == span.tmid && e.dur >= 100.0 && e.ts < span.tmid {
        p1 := e.ts;
        assert IsFirst(kernels, i, long);
      }
      if e.ts >= span.tmid && prepares(e) {
        assert IsFirst(kernels, i, drafts);
        p3 := e.ts;
        NoLongLater(p1, kernels, i, long, span.tmid);
        break;
      }
    }
    return Marked(span, p1, p3);
  }

  lemma NoLongLater(p1: real, kernels: seq<Event>, i: nat, long: Event -> bool, tmid: real)
    requires i < |kernels| && kernels[i].ts >= tmid
    requires forall j, k :: 0 <= j < k < |kernels| ==> kernels[j].ts <= kernels[k].ts
    requires forall e :: long(e) ==> e.ts < tmid
    requires StartOfFirst(p1, kernels, i + 1, long, tmid)
    ensures StartOfFirst(p1, kernels, |kernels|, long, tmid)
  {
    assert forall j :: i <= j < |kernels| ==> !long(kernels[j]);
  }

  function PhaseOf(s: Marked, at: real): Phase {
    if at < s.p1 then Head else if at < s.span.tmid then Body else if at < s.p3 then Logits else Draft
  }

  function PhaseStart(s: Marked, p: Phase): real {
    match p case Head => s.span.t0 case Body => s.p1 case Logits => s.span.tmid case Draft => s.p3
  }

  function PhaseEnd(s: Marked, p: Phase): real {
    match p case Head => s.p1 case Body => s.span.tmid case Logits => s.p3 case Draft => s.span.t1
  }

  /** A gap is counted in the one phase in which it starts. */
  lemma PhaseHoldsStart(s: Marked, at: real, p: Phase)
    requires MarksInOrder(s) && s.span.t0 <= at < s.span.t1
    ensures PhaseOf(s, at) == p <==> PhaseStart(s, p) <= at < PhaseEnd(s, p)
  {
  }

  // ----- Sizes and causes

  /** The first bucket a gap fits in; none when it is longer than the last. */
  function Bucket(bounds: seq<real>, d: real): (b: Option<nat>)
    ensures b.Some? ==> b.value < |bounds| && d <= bounds[b.value]
    ensures b.Some? ==> forall j :: 0 <= j < b.value ==> bounds[j] < d
    ensures b.None? ==> forall j :: 0 <= j < |bounds| ==> bounds[j] < d
  {
    if bounds == [] then None
    else if d <= bounds[0] then Some(0)
    else match Bucket(bounds[1..], d) case None => None case Some(n) => Some(n + 1)
  }

  /** The analyser's bounds stop it exactly at gaps longer than a thousand seconds. */
  lemma HistogramStops(d: real)
    ensures Bucket([0.5, 1.0, 1.5, 2.0, 3.0, 5.0, 10.0, 20.0, 50.0, 100.0, 1000000000.0], d).None? <==> d > 1000000000.0
  {
    var bounds := [0.5, 1.0, 1.5, 2.0, 3.0, 5.0, 10.0, 20.0, 50.0, 100.0, 1000000000.0];
    assert bounds[10] == 1000000000.0;
  }

  datatype Cause = Blocking | Orchestration | RoundTrip | Nccl | Launch | DeviceWait

  datatype Causes = Causes(blocking: real, orchestration: real, roundTrip: real, nccl: real, launch: real,
                           deviceWait: real) {
    function Add(c: Cause, d: real): Causes {
      match c
      case Blocking => this.(blocking := blocking + d)
      case Orchestration => this.(orchestration := orchestration + d)
      case RoundTrip => this.(roundTrip := roundTrip + d)
      case Nccl => this.(nccl := nccl + d)
      case Launch => this.(launch := launch + d)
      case DeviceWait => this.(deviceWait := deviceWait + d)
    }

    function Sum(): real { blocking + orchestration + roundTrip + nccl + launch + deviceWait }
  }

  /** Gaps below the threshold: in the draft or the target part, bound by the host or by the device. */
  datatype Smalls = Smalls(draftHost: real, draftDevice: real, targetHost: real, targetDevice: real) {
    function Add(inDraft: bool, hostBound: bool, d: real): Smalls {
      if inDraft && hostBound then this.(draftHost := draftHost + d)
      else if inDraft then this.(draftDevice := draftDevice + d)
      else if hostBound then this.(targetHost := targetHost + d)
      else this.(targetDevice := targetDevice + d)
    }

    function Sum(): real { draftHost + draftDevice + targetHost + targetDevice }
  }

  /** Time per size bucket. */
  function AddAt(sizes: seq<real>, b: nat, d: real): seq<real> {
    if b < |sizes| then sizes[b := sizes[b] + d] else sizes
  }

  function SumOf(sizes: seq<real>): real {
    if sizes == [] then 0.0 else sizes[0] + SumOf(sizes[1..])
  }

  lemma {:induction false} SumAddAt(sizes: seq<real>, b: nat, d: real)
    requires b < |sizes|
    ensures SumOf(AddAt(sizes, b, d)) == SumOf(sizes) + d
  {
    var n := AddAt(sizes, b, d);
    if b == 0 {
      assert n[1..] == sizes[1..];
    } else {
      assert n[1..] == AddAt(sizes[1..], b - 1, d);
      SumAddAt(sizes[1..], b - 1, d);
    }
  }

  /** What the trace says about a gap. */
  datatype Facts = Facts(hostBound: bool, blocking: bool, inAnnotation: bool, covered: bool, coverNccl: bool,
                         nextNccl: bool)

  function CauseOf(f: Facts, inDraft: bool): Cause {
    if f.blocking then Blocking
    else if inDraft && !f.inAnnotation then Orchestration
    else if !f.inAnnotation && !f.covered then RoundTrip
    else if f.coverNccl || (f.nextNccl && f.hostBound) then Nccl
    else if f.hostBound then Launch
    else DeviceWait
  }

  // ----- The counters over all steps

  datatype Tally = Tally(idle: real, width: Phases, byPhase: Phases, bySize: seq<real>, byCause: Causes, small: Smalls)

  function AddGap(t: Tally, s: Marked, gap: Interval, facts: Facts, bounds: seq<real>, minGap: real): Option<Tally> {
    var d := gap.end - gap.start;
    var inDraft := gap.start >= s.span.tmid - 1.0;
    match Bucket(bounds, d)
    case None => None
    case Some(b) =>
      var u := t.(byPhase := t.byPhase.Add(PhaseOf(s, gap.start), d), bySize := AddAt(t.bySize, b, d));
      Some(if d < minGap then u.(small := u.small.Add(inDraft, facts.hostBound, d))
           else u.(byCause := u.byCause.Add(CauseOf(facts, inDraft), d)))
  }

  function AddGaps(t: Tally, s: Marked, gaps: seq<Interval>, facts: (Marked, Interval) -> Facts, bounds: seq<real>,
                   minGap: real): Option<Tally> {
    if gaps == [] then Some(t)
    else
      match AddGaps(t, s, gaps[..|gaps| - 1], facts, bounds, minGap)
      case None => None
      case Some(u) => AddGap(u, s, gaps[|gaps| - 1], facts(s, gaps[|gaps| - 1]), bounds, minGap)
  }

  function AddWidths(w: Phases, s: Marked): Phases {
    w.Add(Head, s.p1 - s.span.t0).Add(Body, s.span.tmid - s.p1)
     .Add(Logits, s.p3 - s.span.tmid).Add(Draft, s.span.t1 - s.p3)
  }

  function AddStep(t: Tally, s: Marked, iv: seq<Interval>, facts: (Marked, Interval) -> Facts, bounds: seq<real>,
                   minGap: real): Option<Tally> {
    var near := Slice(iv, s.span.t0, s.span.t1, 60000.0);
    var u := t.(idle := t.idle + (s.span.t1 - s.span.t0) - Busy(near, s.span.t0, s.span.t1),
                width := AddWidths(t.width, s));
    AddGaps(u, s, Gaps(near, s.span.t0, s.span.t1), facts, bounds, minGap)
  }

  function AddSteps(t: Tally, steps: seq<Marked>, iv: seq<Interval>, facts: (Marked, Interval) -> Facts,
                    bounds: seq<real>, minGap: real): Option<Tally> {
    if steps == [] then Some(t)
    else
      var s := steps[|steps| - 1];
      match AddSteps(t, steps[..|steps| - 1], iv, facts, bounds, minGap)
      case None => None
      case Some(u) => AddStep(u, s, iv, facts, bounds, minGap)
  }

  function Empty(buckets: nat): Tally {
    Tally(0.0, Phases(0.0, 0.0, 0.0, 0.0), Phases(0.0, 0.0, 0.0, 0.0), seq(buckets, _ => 0.0),
          Causes(0.0, 0.0, 0.0, 0.0, 0.0, 0.0), Smalls(0.0, 0.0, 0.0, 0.0))
  }

  /** The counters of one run; a gap longer than the last bucket stops the analysis. */
  method Attribute(steps: seq<Marked>, iv: seq<Interval>, facts: (Marked, Interval) -> Facts, bounds: seq<real>,
                   minGap: real) returns (r: Option<Tally>)
    ensures r == AddSteps(Empty(|bounds|), steps, iv, facts, bounds, minGap)
  {
    r := Some(Empty(|bounds|));
    var i := 0;
    while i < |steps| && r.Some?
      invariant 0 <= i <= |steps|
      invariant r == AddSteps(Empty(|bounds|), steps[..i], iv, facts, bounds, minGap)
    {
      assert steps[..i + 1][..i] == steps[..i];
      r := AttributeStep(r.value, steps[i], iv, facts, bounds, minGap);
      i := i + 1;
    }
    StopsForGood(steps, i, iv, facts, bounds, minGap);
    if r.Some? {
      assert steps[..i] == steps;
    }
  }

  /** One step: its slice of events, its idle time, and each of its gaps. */
  method AttributeStep(t: Tally, s: Marked, iv: seq<Interval>, facts: (Marked, Interval) -> Facts, bounds: seq<real>,
                       minGap: real) returns (r: Option<Tally>)
    ensures r == AddStep(t, s, iv, facts, bounds, minGap)
  {
    var near := Slice(iv, s.span.t0, s.span.t1, 60000.0);
    var gaps, busy := GapsOf(near, s.span.t0, s.span.t1);
    var u := t.(idle := t.idle + (s.span.t1 - s.span.t0) - busy, width := AddWidths(t.width, s));
    r := AddEach(u, s, gaps, facts, bounds, minGap);
  }

  lemma {:induction false} StopsForGood(steps: seq<Marked>, i: nat, iv: seq<Interval>,
                                        facts: (Marked, Interval) -> Facts, bounds: seq<real>, minGap: real)
    requires i <= |steps|
    ensures AddSteps(Empty(|bounds|), steps[..i], iv, facts, bounds, minGap).None? ==>
      AddSteps(Empty(|bounds|), steps, iv, facts, bounds, minGap).None?
    decreases |steps|
  {
    if i < |steps| {
      assert steps[..|steps| - 1][..i] == steps[..i];
      StopsForGood(steps[..|steps| - 1], i, iv, facts, bounds, minGap);
    } else {
      assert steps[..i] == steps;
    }
  }

  /** One step's gaps, counted one at a time. */
  method AddEach(t: Tally, s: Marked, gaps: seq<Interval>, facts: (Marked, Interval) -> Facts, bounds: seq<real>,
                 minGap: real) returns (r: Option<Tally>)
    ensures r == AddGaps(t, s, gaps, facts, bounds, minGap)
  {
    r := Some(t);
    for i := 0 to |gaps|
      invariant r == AddGaps(t, s, gaps[..i], facts, bounds, minGap)
    {
      assert gaps[..i + 1][..i] == gaps[..i];
      if r.Some? {
        r := AddGap(r.value, s, gaps[i], facts(s, gaps[i]), bounds, minGap);
      }
    }
    assert gaps[..|gaps|] == gaps;
  }

  // ----- Every breakdown adds up

  /** By phase, by size, and by cause with the small gaps: each adds up to the same time. */
  ghost predicate AddsUpTo(t: Tally, idle: real) {
    && t.byPhase.Sum() == idle && SumOf(t.bySize) == idle
    && t.byCause.Sum() + t.small.Sum() == idle
  }

  lemma AddGapAddsUp(t: Tally, s: Marked, gap: Interval, facts: Facts, bounds: seq<real>, minGap: real, counted: real)
    requires AddsUpTo(t, counted) && |t.bySize| == |bounds|
    ensures var r := AddGap(t, s, gap, facts, bounds, minGap);
            r.Some? ==> && AddsUpTo(r.value, counted + (gap.end - gap.start)) && |r.value.bySize| == |bounds|
                        && r.value.idle == t.idle && r.value.width == t.width
  {
    var d := gap.end - gap.start;
    var b := Bucket(bounds, d);
    if b.Some? {
      SumAddAt(t.bySize, b.value, d);
    }
  }

  lemma {:induction false} AddGapsAddsUp(t: Tally, s: Marked, gaps: seq<Interval>, facts: (Marked, Interval) -> Facts,
                                         bounds: seq<real>, minGap: real, counted: real)
    requires AddsUpTo(t, counted) && |t.bySize| == |bounds|
    ensures var r := AddGaps(t, s, gaps, facts, bounds, minGap);
            r.Some? ==> && AddsUpTo(r.value, counted + Length(gaps)) && |r.value.bySize| == |bounds|
                        && r.value.idle == t.idle && r.value.width == t.width
  {
    if gaps != [] {
      var p, g := gaps[..|gaps| - 1], gaps[|gaps| - 1];
      AddGapsAddsUp(t, s, p, facts, bounds, minGap, counted);
      assert p + [g] == gaps;
      LengthAppend(p, g);
      var u := AddGaps(t, s, p, facts, bounds, minGap);
      if u.Some? {
        AddGapAddsUp(u.value, s, g, facts(s, g), bounds, minGap, counted + Length(p));
      }
    }
  }

  ghost function IdleTime(steps: seq<Marked>, iv: seq<Interval>): real {
    if steps == [] then 0.0
    else
      var s := steps[|steps| - 1].span;
      IdleTime(steps[..|steps| - 1], iv) + (s.t1 - s.t0) - Busy(iv, s.t0, s.t1)
  }

  ghost function WallTime(steps: seq<Marked>): real {
    if steps == [] then 0.0
    else WallTime(steps[..|steps| - 1]) + (steps[|steps| - 1].span.t1 - steps[|steps| - 1].span.t0)
  }

  lemma {:induction false} SumOfZeros(n: nat)
    ensures SumOf(seq(n, _ => 0.0)) == 0.0
  {
    if n > 0 {
      assert seq(n, _ => 0.0)[1..] == seq(n - 1, _ => 0.0);
      SumOfZeros(n - 1);
    }
  }

  /** Conservation over a whole run, however long the events are: the three breakdowns add up to the idle
      counter, and the phase widths to the wall time. */
  lemma {:induction false} BreakdownsAddUp(steps: seq<Marked>, iv: seq<Interval>, facts: (Marked, Interval) -> Facts,
                                           bounds: seq<real>, minGap: real)
    requires StartSorted(iv) && forall i :: 0 <= i < |steps| ==> steps[i].span.t0 <= steps[i].span.t1
    ensures var r := AddSteps(Empty(|bounds|), steps, iv, facts, bounds, minGap);
            r.Some? ==> && AddsUpTo(r.value, r.value.idle) && |r.value.bySize| == |bounds|
                        && r.value.width.Sum() == WallTime(steps)
  {
    if steps == [] {
      SumOfZeros(|bounds|);
    } else {
      var p, s := steps[..|steps| - 1], steps[|steps| - 1];
      BreakdownsAddUp(p, iv, facts, bounds, minGap);
      var u := AddSteps(Empty(|bounds|), p, iv, facts, bounds, minGap);
      if u.Some? {
        AddStepAddsUp(u.value, s, iv, facts, bounds, minGap);
      }
    }
  }

  lemma AddStepAddsUp(t: Tally, s: Marked, iv: seq<Interval>, facts: (Marked, Interval) -> Facts, bounds: seq<real>,
                      minGap: real)
    requires StartSorted(iv) && s.span.t0 <= s.span.t1 && AddsUpTo(t, t.idle) && |t.bySize| == |bounds|
    ensures var r := AddStep(t, s, iv, facts, bounds, minGap);
            var d := (s.span.t1 - s.span.t0) - Busy(Slice(iv, s.span.t0, s.span.t1, 60000.0), s.span.t0, s.span.t1);
            r.Some? ==> && r.value.idle == t.idle + d && AddsUpTo(r.value, t.idle + d) && |r.value.bySize| == |bounds|
                        && r.value.width.Sum() == t.width.Sum() + (s.span.t1 - s.span.t0)
  {
    hide Gaps, Busy, Slice, Run, AddGaps, Length;
    var lo, hi := s.span.t0, s.span.t1;
    var near := Slice(iv, lo, hi, 60000.0);
    SliceCovers(iv, lo, hi, 60000.0);
    GapsAreComplement(near, lo, hi);
    var u := t.(idle := t.idle + (hi - lo) - Busy(near, lo, hi), width := AddWidths(t.width, s));
    AddGapsAddsUp(u, s, Gaps(near, lo, hi), facts, bounds, minGap, t.idle);
  }

  // ----- What the idle counter is

  /** The slices of all steps lose nothing of what covers the steps. */
  ghost predicate NothingLostIn(steps: seq<Marked>, iv: seq<Interval>) {
    forall i :: 0 <= i < |steps| ==> NothingLost(iv, steps[i].span.t0, steps[i].span.t1, 60000.0)
  }

  lemma NothingLostInMore(steps: seq<Marked>, iv: seq<Interval>)
    requires steps != []
    ensures NothingLostIn(steps, iv)
       <==> && NothingLostIn(steps[..|steps| - 1], iv)
            && NothingLost(iv, steps[|steps| - 1].span.t0, steps[|steps| - 1].span.t1, 60000.0)
  {
  }

  lemma {:induction false} AddGapsKeepsIdle(t: Tally, s: Marked, gaps: seq<Interval>,
                                            facts: (Marked, Interval) -> Facts, bounds: seq<real>, minGap: real)
    ensures var r := AddGaps(t, s, gaps, facts, bounds, minGap); r.Some? ==> r.value.idle == t.idle
  {
    if gaps != [] {
      AddGapsKeepsIdle(t, s, gaps[..|gaps| - 1], facts, bounds, minGap);
    }
  }

  /** The idle counter is never below the idle time that all events leave, and is that time exactly when no step
      loses an event that began before its look-back. */
  lemma {:induction false} IdleIsExact(steps: seq<Marked>, iv: seq<Interval>, facts: (Marked, Interval) -> Facts,
                                       bounds: seq<real>, minGap: real)
    requires StartSorted(iv) && forall i :: 0 <= i < |steps| ==> steps[i].span.t0 <= steps[i].span.t1
    ensures var r := AddSteps(Empty(|bounds|), steps, iv, facts, bounds, minGap);
            r.Some? ==> && IdleTime(steps, iv) <= r.value.idle
                        && (r.value.idle == IdleTime(steps, iv) <==> NothingLostIn(steps, iv))
  {
    hide NothingLost, NothingLostIn, Busy, Slice, Gaps, AddGaps;
    if steps == [] {
      NoStepsLoseNothing(iv);
    } else {
      var p, s := steps[..|steps| - 1], steps[|steps| - 1];
      IdleIsExact(p, iv, facts, bounds, minGap);
      NothingLostInMore(steps, iv);
      var lo, hi := s.span.t0, s.span.t1;
      SliceIsExact(iv, lo, hi, 60000.0);
      var u := AddSteps(Empty(|bounds|), p, iv, facts, bounds, minGap);
      if u.Some? {
        var near := Slice(iv, lo, hi, 60000.0);
        var v := u.value.(idle := u.value.idle + (hi - lo) - Busy(near, lo, hi), width := AddWidths(u.value.width, s));
        AddGapsKeepsIdle(v, s, Gaps(near, lo, hi), facts, bounds, minGap);
      }
    }
  }

  lemma NoStepsLoseNothing(iv: seq<Interval>)
    ensures NothingLostIn([], iv)
  {
  }

  // ----- When the analysis stops

  /** Longer than every bound of the histogram. */
  ghost predicate TooLong(gap: Interval, bounds: seq<real>) {
    forall j :: 0 <= j < |bounds| ==> bounds[j] < gap.end - gap.start
  }

  ghost predicate SomeTooLong(s: Marked, iv: seq<Interval>, bounds: seq<real>) {
    exists g :: g in Gaps(Slice(iv, s.span.t0, s.span.t1, 60000.0), s.span.t0, s.span.t1) && TooLong(g, bounds)
  }

  lemma {:induction false} GapsStop(t: Tally, s: Marked, gaps: seq<Interval>, facts: (Marked, Interval) -> Facts,
                                    bounds: seq<real>, minGap: real)
    ensures AddGaps(t, s, gaps, facts, bounds, minGap).None? <==> exists g :: g in gaps && TooLong(g, bounds)
  {
    if gaps != [] {
      var p, g := gaps[..|gaps| - 1], gaps[|gaps| - 1];
      GapsStop(t, s, p, facts, bounds, minGap);
      assert p + [g] == gaps;
      assert Bucket(bounds, g.end - g.start).None? <==> TooLong(g, bounds);
    }
  }

  /** The analysis stops exactly when some step has a gap longer than every bound of the histogram. */
  lemma {:induction false} StopsExactly(steps: seq<Marked>, iv: seq<Interval>, facts: (Marked, Interval) -> Facts,
                                        bounds: seq<real>, minGap: real)
    ensures AddSteps(Empty(|bounds|), steps, iv, facts, bounds, minGap).None?
       <==> exists s :: s in steps && SomeTooLong(s, iv, bounds)
  {
    hide SomeTooLong, AddGaps, Gaps, Slice, Busy;
    if steps != [] {
      var p, s := steps[..|steps| - 1], steps[|steps| - 1];
      StopsExactly(p, iv, facts, bounds, minGap);
      assert p + [s] == steps;
      var u := AddSteps(Empty(|bounds|), p, iv, facts, bounds, minGap);
      if u.Some? {
        StepStops(u.value, s, iv, facts, bounds, minGap);
      }
    }
  }

  lemma StepStops(t: Tally, s: Marked, iv: seq<Interval>, facts: (Marked, Interval) -> Facts, bounds: seq<real>,
                  minGap: real)
    ensures AddStep(t, s, iv, facts, bounds, minGap).None? <==> SomeTooLong(s, iv, bounds)
  {
    hide AddGaps, Gaps, Slice, Busy, TooLong;
    var lo, hi := s.span.t0, s.span.t1;
    var near := Slice(iv, lo, hi, 60000.0);
    var u := t.(idle := t.idle + (hi - lo) - Busy(near, lo, hi), width := AddWidths(t.width, s));
    GapsStop(u, s, Gaps(near, lo, hi), facts, bounds, minGap);
  }
}
