/** What each counter of the gap analysis means: the time of the gaps it describes, over the whole run. */
module TraceCounters {
  import opened Options
  import opened TraceIntervals
  import opened TraceSteps
  import opened TraceAttribution

  datatype Counter = OfPhase(p: Phase) | OfSize(b: nat) | OfCause(c: Cause) | OfSmall(inDraft: bool, hostBound: bool)

  function Read(t: Tally, c: Counter): real {
    match c
    case OfPhase(Head) => t.byPhase.head
    case OfPhase(Body) => t.byPhase.body
    case OfPhase(Logits) => t.byPhase.logits
    case OfPhase(Draft) => t.byPhase.draft
    case OfSize(b) => if b < |t.bySize| then t.bySize[b] else 0.0
    case OfCause(Blocking) => t.byCause.blocking
    case OfCause(Orchestration) => t.byCause.orchestration
    case OfCause(RoundTrip) => t.byCause.roundTrip
    case OfCause(Nccl) => t.byCause.nccl
    case OfCause(Launch) => t.byCause.launch
    case OfCause(DeviceWait) => t.byCause.deviceWait
    case OfSmall(true, true) => t.small.draftHost
    case OfSmall(true, false) => t.small.draftDevice
    case OfSmall(false, true) => t.small.targetHost
    case OfSmall(false, false) => t.small.targetDevice
  }

  predicate InDraft(s: Marked, gap: Interval) { gap.start >= s.span.tmid - 1.0 }

  /** The gap lies in the forward part: in the annotation, or under an operation in the target part. */
  ghost predicate InForward(f: Facts, inDraft: bool) {
    f.inAnnotation || (f.covered && !inDraft)
  }

  ghost predicate NcclCalled(f: Facts) {
    f.coverNccl || (f.hostBound && f.nextNccl)
  }

  /** What each cause is: a blocking call; else the drafter's part outside the annotation; else the target's with
      no operation around; else, in the forward part, NCCL, a late launch, or the device. */
  ghost predicate HasCause(cause: Cause, f: Facts, inDraft: bool) {
    match cause
    case Blocking => f.blocking
    case Orchestration => !f.blocking && !f.inAnnotation && inDraft
    case RoundTrip => !f.blocking && !f.inAnnotation && !inDraft && !f.covered
    case Nccl => !f.blocking && InForward(f, inDraft) && NcclCalled(f)
    case Launch => !f.blocking && InForward(f, inDraft) && !NcclCalled(f) && f.hostBound
    case DeviceWait => !f.blocking && InForward(f, inDraft) && !NcclCalled(f) && !f.hostBound
  }

  /** Every gap has exactly one cause, the one it is counted under. */
  lemma OneCause(f: Facts, inDraft: bool, cause: Cause)
    ensures HasCause(cause, f, inDraft) <==> cause == CauseOf(f, inDraft)
  {
  }

  /** The gaps a counter is about: those that start in the phase; those above the bounds before the bucket's
      and not above its own; of the longer ones those with the cause, of the shorter ones those of the kind. */
  ghost predicate Describes(c: Counter, s: Marked, gap: Interval, facts: Facts, bounds: seq<real>, minGap: real) {
    var d := gap.end - gap.start;
    match c
    case OfPhase(p) => PhaseStart(s, p) <= gap.start < PhaseEnd(s, p)
    case OfSize(b) => b < |bounds| && d <= bounds[b] && forall j :: 0 <= j < b ==> bounds[j] < d
    case OfCause(cause) => d >= minGap && HasCause(cause, facts, InDraft(s, gap))
    case OfSmall(inDraft, hostBound) => d < minGap && InDraft(s, gap) == inDraft && facts.hostBound == hostBound
  }

  ghost function TimeOf(c: Counter, s: Marked, gaps: seq<Interval>, facts: (Marked, Interval) -> Facts,
                        bounds: seq<real>, minGap: real): real {
    if gaps == [] then 0.0
    else
      var g := gaps[|gaps| - 1];
      TimeOf(c, s, gaps[..|gaps| - 1], facts, bounds, minGap)
      + if Describes(c, s, g, facts(s, g), bounds, minGap) then g.end - g.start else 0.0
  }

  /** The gaps that a step sees, in its slice of the events. */
  ghost function Seen(s: Marked, iv: seq<Interval>): seq<Interval> {
    Gaps(Slice(iv, s.span.t0, s.span.t1, 60000.0), s.span.t0, s.span.t1)
  }

  /** Over all steps, each with the gaps it sees. */
  ghost function TimeOver(c: Counter, steps: seq<Marked>, iv: seq<Interval>, facts: (Marked, Interval) -> Facts,
                          bounds: seq<real>, minGap: real): real {
    if steps == [] then 0.0
    else
      var s := steps[|steps| - 1];
      TimeOver(c, steps[..|steps| - 1], iv, facts, bounds, minGap) + TimeOf(c, s, Seen(s, iv), facts, bounds, minGap)
  }

  ghost predicate StartsInStep(s: Marked, gap: Interval) { s.span.t0 <= gap.start < s.span.t1 }

  lemma GapCounted(c: Counter, t: Tally, s: Marked, gap: Interval, facts: Facts, bounds: seq<real>, minGap: real)
    requires MarksInOrder(s) && StartsInStep(s, gap) && |t.bySize| == |bounds|
    ensures var r := AddGap(t, s, gap, facts, bounds, minGap);
            r.Some? ==> |r.value.bySize| == |bounds| &&
                        Read(r.value, c)
                             == Read(t, c) + if Describes(c, s, gap, facts, bounds, minGap) then gap.end - gap.start
                                             else 0.0
  {
    var d := gap.end - gap.start;
    var b := Bucket(bounds, d);
    if c.OfCause? {
      OneCause(facts, InDraft(s, gap), c.c);
    } else if c.OfPhase? {
      PhaseHoldsStart(s, gap.start, c.p);
    } else if c.OfSize? && b.Some? && b.value != c.b {
      BucketIsOne(bounds, d, b.value, c.b);
    }
  }

  lemma BucketIsOne(bounds: seq<real>, d: real, a: nat, b: nat)
    requires a < |bounds| && d <= bounds[a] && (forall j :: 0 <= j < a ==> bounds[j] < d) && a != b
    ensures !(b < |bounds| && d <= bounds[b] && forall j :: 0 <= j < b ==> bounds[j] < d)
  {
    if b < a {
      assert b < |bounds| ==> bounds[b] < d;
    } else {
      assert 0 <= a < b && !(bounds[a] < d);
    }
  }

  lemma {:induction false} GapsCounted(c: Counter, t: Tally, s: Marked, gaps: seq<Interval>,
                                       facts: (Marked, Interval) -> Facts, bounds: seq<real>, minGap: real)
    requires MarksInOrder(s) && |t.bySize| == |bounds| && forall i :: 0 <= i < |gaps| ==> StartsInStep(s, gaps[i])
    ensures var r := AddGaps(t, s, gaps, facts, bounds, minGap);
            r.Some? ==>
              |r.value.bySize| == |bounds| && Read(r.value, c) == Read(t, c) + TimeOf(c, s, gaps, facts, bounds, minGap)
  {
    hide Read, Describes, AddGap;
    if gaps != [] {
      var p, g := gaps[..|gaps| - 1], gaps[|gaps| - 1];
      GapsCounted(c, t, s, p, facts, bounds, minGap);
      var u := AddGaps(t, s, p, facts, bounds, minGap);
      if u.Some? {
        GapCounted(c, u.value, s, g, facts(s, g), bounds, minGap);
      }
    }
  }

  lemma StepCounted(c: Counter, t: Tally, s: Marked, iv: seq<Interval>, facts: (Marked, Interval) -> Facts,
                    bounds: seq<real>, minGap: real)
    requires StartSorted(iv) && MarksInOrder(s) && |t.bySize| == |bounds|
    ensures var r := AddStep(t, s, iv, facts, bounds, minGap);
            r.Some? ==> |r.value.bySize| == |bounds| &&
                        Read(r.value, c) == Read(t, c) + TimeOf(c, s, Seen(s, iv), facts, bounds, minGap)
  {
    hide Gaps, Busy, Slice, Run, AddGaps, TimeOf, Describes, Covered, Length;
    var lo, hi := s.span.t0, s.span.t1;
    var near := Slice(iv, lo, hi, 60000.0);
    SliceCovers(iv, lo, hi, 60000.0);
    GapsAreComplement(near, lo, hi);
    var u := t.(idle := t.idle + (hi - lo) - Busy(near, lo, hi), width := AddWidths(t.width, s));
    GapsCounted(c, u, s, Gaps(near, lo, hi), facts, bounds, minGap);
  }

  /** After a whole run, however long the events are, every counter holds exactly the time of the gaps it is
      about, among those its step sees. */
  lemma {:induction false} CountersMean(c: Counter, steps: seq<Marked>, iv: seq<Interval>,
                                        facts: (Marked, Interval) -> Facts, bounds: seq<real>, minGap: real)
    requires StartSorted(iv) && forall i :: 0 <= i < |steps| ==> MarksInOrder(steps[i])
    ensures var r := AddSteps(Empty(|bounds|), steps, iv, facts, bounds, minGap);
            r.Some? ==>
              |r.value.bySize| == |bounds| && Read(r.value, c) == TimeOver(c, steps, iv, facts, bounds, minGap)
  {
    hide Read, TimeOf, AddStep, Seen;
    if steps == [] {
      NothingRead(c, |bounds|);
    } else {
      var p, s := steps[..|steps| - 1], steps[|steps| - 1];
      CountersMean(c, p, iv, facts, bounds, minGap);
      var u := AddSteps(Empty(|bounds|), p, iv, facts, bounds, minGap);
      if u.Some? {
        StepCounted(c, u.value, s, iv, facts, bounds, minGap);
      }
    }
  }

  /** What a step sees is what all events leave, when every event cut off in front had ended. */
  lemma SeenIsAll(s: Marked, iv: seq<Interval>)
    requires StartSorted(iv) && s.span.t0 <= s.span.t1
    requires forall i :: 0 <= i < |iv| && iv[i].start < s.span.t0 - 60000.0 ==> iv[i].end <= s.span.t0
    ensures Seen(s, iv) == Gaps(iv, s.span.t0, s.span.t1)
  {
    SliceIsEnough(iv, s.span.t0, s.span.t1, 60000.0);
  }

  lemma NothingRead(c: Counter, buckets: nat)
    ensures Read(Empty(buckets), c) == 0.0 && |Empty(buckets).bySize| == buckets
  {
  }

  // ----- The phase widths

  function Width(w: Phases, p: Phase): real {
    match p case Head => w.head case Body => w.body case Logits => w.logits case Draft => w.draft
  }

  /** The time between a phase's marks, over all steps. */
  ghost function WidthOver(p: Phase, steps: seq<Marked>): real {
    if steps == [] then 0.0
    else
      var s := steps[|steps| - 1];
      WidthOver(p, steps[..|steps| - 1]) + (PhaseEnd(s, p) - PhaseStart(s, p))
  }

  lemma GapsKeepWidths(t: Tally, s: Marked, gaps: seq<Interval>, facts: (Marked, Interval) -> Facts,
                       bounds: seq<real>, minGap: real)
    ensures var r := AddGaps(t, s, gaps, facts, bounds, minGap);
            r.Some? ==> r.value.width == t.width && r.value.idle == t.idle
  {
    if gaps != [] {
      GapsKeepWidths(t, s, gaps[..|gaps| - 1], facts, bounds, minGap);
    }
  }

  lemma StepWidths(t: Tally, s: Marked, iv: seq<Interval>, facts: (Marked, Interval) -> Facts, bounds: seq<real>,
                   minGap: real, p: Phase)
    ensures var r := AddStep(t, s, iv, facts, bounds, minGap);
            r.Some? ==> Width(r.value.width, p) == Width(t.width, p) + (PhaseEnd(s, p) - PhaseStart(s, p))
  {
    hide Gaps, Busy, Slice, AddGaps;
    var lo, hi := s.span.t0, s.span.t1;
    var near := Slice(iv, lo, hi, 60000.0);
    var u := t.(idle := t.idle + (hi - lo) - Busy(near, lo, hi), width := AddWidths(t.width, s));
    GapsKeepWidths(u, s, Gaps(near, lo, hi), facts, bounds, minGap);
  }

  /** After a whole run each phase's width is the time between its marks, over all steps. */
  lemma {:induction false} WidthsMean(p: Phase, steps: seq<Marked>, iv: seq<Interval>,
                                      facts: (Marked, Interval) -> Facts, bounds: seq<real>, minGap: real)
    ensures var r := AddSteps(Empty(|bounds|), steps, iv, facts, bounds, minGap);
            r.Some? ==> Width(r.value.width, p) == WidthOver(p, steps)
  {
    hide AddStep;
    if steps != [] {
      var front, s := steps[..|steps| - 1], steps[|steps| - 1];
      WidthsMean(p, front, iv, facts, bounds, minGap);
      var u := AddSteps(Empty(|bounds|), front, iv, facts, bounds, minGap);
      if u.Some? {
        StepWidths(u.value, s, iv, facts, bounds, minGap, p);
      }
    }
  }
}
