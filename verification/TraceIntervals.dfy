/** Interval arithmetic of the trace analysers: merging annotations, the union of GPU events, and the
    idle gaps of a window.  Times are reals; an interval holds its start and not its end. */
module TraceIntervals {
  import Sorting

  datatype Interval = Interval(start: real, end: real)

  function Max(x: real, y: real): real { if x < y then y else x }

  function Min(x: real, y: real): real { if y < x then y else x }

  // ----- What a list of intervals covers and how long it is

  ghost predicate Covered(iv: seq<Interval>, t: real) {
    exists i :: 0 <= i < |iv| && iv[i].start <= t < iv[i].end
  }

  /** Sorted by start, none ending before it starts. */
  ghost predicate StartSorted(iv: seq<Interval>) {
    && (forall i :: 0 <= i < |iv| ==> iv[i].start <= iv[i].end)
    && (forall i, j :: 0 <= i < j < |iv| ==> iv[i].start <= iv[j].start)
  }

  /** Non-empty, in order, not overlapping. */
  ghost predicate Disjoint(iv: seq<Interval>) {
    && (forall i :: 0 <= i < |iv| ==> iv[i].start < iv[i].end)
    && (forall i, j :: 0 <= i < j < |iv| ==> iv[i].end <= iv[j].start)
  }

  function Length(iv: seq<Interval>): real {
    if iv == [] then 0.0 else iv[0].end - iv[0].start + Length(iv[1..])
  }

  lemma {:induction false} LengthAppend(a: seq<Interval>, x: Interval)
    ensures Length(a + [x]) == Length(a) + (x.end - x.start)
  {
    if a != [] {
      LengthAppend(a[1..], x);
      assert (a + [x])[1..] == a[1..] + [x];
    }
  }

  lemma CoveredAppend(a: seq<Interval>, x: Interval, t: real)
    ensures Covered(a + [x], t) <==> Covered(a, t) || x.start <= t < x.end
  {
    var b := a + [x];
    if Covered(a, t) {
      var i :| 0 <= i < |a| && a[i].start <= t < a[i].end;
      assert b[i] == a[i];
    }
    if x.start <= t < x.end {
      assert b[|a|] == x;
    }
  }

  lemma CoveredHead(a: seq<Interval>, t: real)
    requires a != []
    ensures Covered(a, t) <==> a[0].start <= t < a[0].end || Covered(a[1..], t)
  {
    if Covered(a[1..], t) {
      var i :| 0 <= i < |a[1..]| && a[1..][i].start <= t < a[1..][i].end;
      assert a[i + 1] == a[1..][i];
    }
    if i :| 0 < i < |a| && a[i].start <= t < a[i].end {
      assert a[1..][i - 1] == a[i];
    }
  }

  /** The length of a set of times does not depend on how it is cut into disjoint intervals. */
  lemma {:induction false} LengthDetermined(a: seq<Interval>, b: seq<Interval>)
    requires Disjoint(a) && Disjoint(b)
    requires forall t :: Covered(a, t) <==> Covered(b, t)
    ensures Length(a) == Length(b)
    decreases |a| + |b|
  {
    if a == [] {
      NothingCovered(a, b);
    } else if b == [] {
      NothingCovered(b, a);
    } else {
      SameFirst(a, b);
      if a[0].end == b[0].end {
        DropSame(a, b);
        LengthDetermined(a[1..], b[1..]);
      } else if a[0].end < b[0].end {
        TrimFirst(a, b);
        LengthDetermined(a[1..], [Interval(a[0].end, b[0].end)] + b[1..]);
      } else {
        TrimFirst(b, a);
        LengthDetermined([Interval(b[0].end, a[0].end)] + a[1..], b[1..]);
      }
    }
  }

  lemma NothingCovered(a: seq<Interval>, b: seq<Interval>)
    requires Disjoint(b) && a == [] && forall t :: Covered(a, t) <==> Covered(b, t)
    ensures b == []
  {
    if b != [] {
      assert Covered(b, b[0].start);
    }
  }

  lemma SameFirst(a: seq<Interval>, b: seq<Interval>)
    requires a != [] && b != [] && Disjoint(a) && Disjoint(b)
    requires forall t :: Covered(a, t) <==> Covered(b, t)
    ensures a[0].start == b[0].start
  {
    assert Covered(a, a[0].start) && Covered(b, b[0].start);
    assert Covered(b, a[0].start) && Covered(a, b[0].start);
  }

  lemma DropSame(a: seq<Interval>, b: seq<Interval>)
    requires a != [] && b != [] && Disjoint(a) && Disjoint(b) && a[0] == b[0]
    requires forall t :: Covered(a, t) <==> Covered(b, t)
    ensures forall t :: Covered(a[1..], t) <==> Covered(b[1..], t)
  {
    forall t
      ensures Covered(a[1..], t) <==> Covered(b[1..], t)
    {
      CoveredHead(a, t);
      CoveredHead(b, t);
      assert Covered(a, t) <==> Covered(b, t);
    }
  }

  lemma TrimFirst(a: seq<Interval>, b: seq<Interval>)
    requires a != [] && b != [] && Disjoint(a) && Disjoint(b)
    requires a[0].start == b[0].start && a[0].end < b[0].end
    requires forall t :: Covered(a, t) <==> Covered(b, t)
    ensures var c := [Interval(a[0].end, b[0].end)] + b[1..];
            && Disjoint(c) && Length(c) == Length(b) - (a[0].end - a[0].start)
            && forall t :: Covered(a[1..], t) <==> Covered(c, t)
  {
    var c := [Interval(a[0].end, b[0].end)] + b[1..];
    assert c[1..] == b[1..];
    forall t
      ensures Covered(a[1..], t) <==> Covered(c, t)
    {
      CoveredHead(a, t);
      CoveredHead(b, t);
      CoveredHead(c, t);
      assert Covered(a, t) <==> Covered(b, t);
    }
  }

  // ----- Sweeping over start-sorted intervals

  /** The running block of a sweep, and what is left behind it. */
  datatype Sweep = Sweep(blocks: seq<Interval>, gaps: seq<Interval>, open: bool, cs: real, ce: real, cursor: real,
                         busy: real)

  function Start(lo: real): Sweep {
    Sweep([], [], false, lo, lo, lo, 0.0)
  }

  /** Closes the running block. */
  function Shut(s: Sweep): Sweep {
    if s.open then
      s.(busy := s.busy + (s.ce - s.cs), gaps := s.gaps + [Interval(s.cursor, s.cs)], cursor := s.ce,
         blocks := if s.cs < s.ce then s.blocks + [Interval(s.cs, s.ce)] else s.blocks)
    else s
  }

  /** One interval of a sweep over [lo, hi): skipped outside, clipped, then joined or started anew. */
  function Step(s: Sweep, x: Interval, lo: real, hi: real): Sweep {
    if x.end <= lo || x.start >= hi then s
    else
      var a, b := Max(x.start, lo), Min(x.end, hi);
      if !s.open then s.(open := true, cs := a, ce := b)
      else if a <= s.ce then s.(ce := Max(s.ce, b))
      else Shut(s).(cs := a, ce := b)
  }

  function Run(iv: seq<Interval>, lo: real, hi: real): Sweep {
    if iv == [] then Start(lo) else Step(Run(iv[..|iv| - 1], lo, hi), iv[|iv| - 1], lo, hi)
  }

  function NonEmpty(gaps: seq<Interval>): seq<Interval> {
    if gaps == [] then []
    else if gaps[0].end > gaps[0].start then [gaps[0]] + NonEmpty(gaps[1..])
    else NonEmpty(gaps[1..])
  }

  /** All gaps of the window, empty ones among them. */
  function AllGaps(s: Sweep, hi: real): seq<Interval> {
    var z := Shut(s);
    if hi - z.cursor > 0.0 then z.gaps + [Interval(z.cursor, hi)] else z.gaps
  }

  function Gaps(iv: seq<Interval>, lo: real, hi: real): seq<Interval> {
    NonEmpty(AllGaps(Run(iv, lo, hi), hi))
  }

  function Busy(iv: seq<Interval>, lo: real, hi: real): real {
    Shut(Run(iv, lo, hi)).busy
  }

  method GapsOf(iv: seq<Interval>, lo: real, hi: real) returns (gaps: seq<Interval>, busy: real)
    ensures gaps == Gaps(iv, lo, hi) && busy == Busy(iv, lo, hi)
  {
    var out: seq<Interval>, open, cs, ce, cursor := [], false, lo, lo, lo;
    busy := 0.0;
    for i := 0 to |iv|
      invariant var s := Run(iv[..i], lo, hi);
                out == s.gaps && open == s.open && cs == s.cs && ce == s.ce && cursor == s.cursor && busy == s.busy
    {
      assert iv[..i + 1][..i] == iv[..i];
      var a, b := iv[i].start, iv[i].end;
      if b <= lo || a >= hi {
        continue;
      }
      a, b := Max(a, lo), Min(b, hi);
      if !open {
        open, cs, ce := true, a, b;
      } else if a <= ce {
        ce := Max(ce, b);
      } else {
        busy := busy + (ce - cs);
        out := out + [Interval(cursor, cs)];
        cursor := ce;
        cs, ce := a, b;
      }
    }
    assert iv[..|iv|] == iv;
    if open {
      busy := busy + (ce - cs);
      out := out + [Interval(cursor, cs)];
      cursor := ce;
    }
    if hi - cursor > 0.0 {
      out := out + [Interval(cursor, hi)];
    }
    gaps := NonEmpty(out);
  }

  // ----- What a sweep keeps

  /** In order and not overlapping, empty ones allowed, all within [lo, hi]. */
  ghost predicate Ordered(iv: seq<Interval>, lo: real, hi: real) {
    && (forall i :: 0 <= i < |iv| ==> lo <= iv[i].start <= iv[i].end <= hi)
    && (forall i, j :: 0 <= i < j < |iv| ==> iv[i].end <= iv[j].start)
  }

  ghost predicate Within(s: Sweep, lo: real, hi: real) {
    && lo <= s.cursor <= hi
    && Ordered(s.gaps, lo, s.cursor) && Ordered(s.blocks, lo, s.cursor) && Disjoint(s.blocks)
    && (s.open ==> s.cursor <= s.cs <= s.ce <= hi)
    && (!s.open ==> s.cursor == lo && s.gaps == [] && s.blocks == [])
    && s.busy == Length(s.blocks) && s.busy + Length(s.gaps) == s.cursor - lo
  }

  /** Which times of the window the swept intervals cover, and which are in a gap. */
  ghost predicate Sorted(s: Sweep, iv: seq<Interval>, lo: real, hi: real) {
    forall t :: lo <= t < hi ==>
      && (Covered(iv, t) <==> Covered(s.blocks, t) || (s.open && s.cs <= t < s.ce))
      && (t < s.cursor ==> (Covered(s.gaps, t) <==> !Covered(iv, t)))
      && (s.cursor <= t ==> !Covered(s.blocks, t))
  }

  lemma ShutCovers(s: Sweep, iv: seq<Interval>, lo: real, hi: real)
    requires Within(s, lo, hi) && Sorted(s, iv, lo, hi) && s.open
    ensures Sorted(Shut(s).(open := false), iv, lo, hi)
  {
    hide Covered;
    var z, gap, block := Shut(s).(open := false), Interval(s.cursor, s.cs), Interval(s.cs, s.ce);
    OrderedInside(s.gaps, lo, s.cursor);
    forall t | lo <= t < hi
      ensures (Covered(iv, t) <==> Covered(z.blocks, t)) && (t < z.cursor ==> (Covered(z.gaps, t) <==> !Covered(iv, t)))
      ensures z.cursor <= t ==> !Covered(z.blocks, t)
    {
      CoveredAppend(s.gaps, gap, t);
      CoveredAppend(s.blocks, block, t);
    }
  }

  lemma ShutKeeps(s: Sweep, iv: seq<Interval>, lo: real, hi: real)
    requires Within(s, lo, hi) && Sorted(s, iv, lo, hi)
    ensures var z := Shut(s).(open := false);
            && lo <= z.cursor <= hi
            && Ordered(z.gaps, lo, z.cursor) && Ordered(z.blocks, lo, z.cursor) && Disjoint(z.blocks)
            && z.busy == Length(z.blocks) && z.busy + Length(z.gaps) == z.cursor - lo
            && Sorted(z, iv, lo, hi)
  {
    hide Covered, Length, Sorted;
    if s.open {
      LengthAppend(s.gaps, Interval(s.cursor, s.cs));
      LengthAppend(s.blocks, Interval(s.cs, s.ce));
      ShutCovers(s, iv, lo, hi);
    } else {
      assert Shut(s).(open := false) == s;
    }
  }

  lemma StepKeeps(s: Sweep, iv: seq<Interval>, x: Interval, lo: real, hi: real)
    requires lo <= hi && x.start <= x.end
    requires Within(s, lo, hi) && Sorted(s, iv, lo, hi) && (s.open ==> s.cs <= Max(x.start, lo))
    ensures var n := Step(s, x, lo, hi);
            Within(n, lo, hi) && Sorted(n, iv + [x], lo, hi) && (n.open ==> n.cs <= Max(x.start, lo))
  {
    var n := Step(s, x, lo, hi);
    var a, b := Max(x.start, lo), Min(x.end, hi);
    if !(x.end <= lo || x.start >= hi) && s.open && a > s.ce {
      ShutKeeps(s, iv, lo, hi);
    }
    forall t | lo <= t < hi
      ensures Covered(iv + [x], t) <==> Covered(n.blocks, t) || (n.open && n.cs <= t < n.ce)
      ensures t < n.cursor ==> (Covered(n.gaps, t) <==> !Covered(iv + [x], t))
      ensures n.cursor <= t ==> !Covered(n.blocks, t)
    {
      CoveredAppend(iv, x, t);
    }
  }

  lemma {:induction false} RunKeeps(iv: seq<Interval>, lo: real, hi: real)
    requires lo <= hi && StartSorted(iv)
    ensures Within(Run(iv, lo, hi), lo, hi) && Sorted(Run(iv, lo, hi), iv, lo, hi)
    ensures iv != [] && Run(iv, lo, hi).open ==> Run(iv, lo, hi).cs <= Max(iv[|iv| - 1].start, lo)
  {
    if iv != [] {
      var p, x := iv[..|iv| - 1], iv[|iv| - 1];
      RunKeeps(p, lo, hi);
      StepKeeps(Run(p, lo, hi), p, x, lo, hi);
      assert p + [x] == iv;
    }
  }

  lemma {:induction false} NonEmptyCovers(gaps: seq<Interval>, t: real)
    ensures Covered(NonEmpty(gaps), t) <==> Covered(gaps, t)
  {
    if gaps != [] {
      NonEmptyCovers(gaps[1..], t);
      CoveredHead(gaps, t);
      var rest, r := NonEmpty(gaps[1..]), NonEmpty(gaps);
      if gaps[0].end > gaps[0].start {
        assert r[1..] == rest;
        CoveredHead(r, t);
      }
    }
  }

  lemma {:induction false} NonEmptyLength(gaps: seq<Interval>, lo: real, hi: real)
    requires Ordered(gaps, lo, hi)
    ensures Length(NonEmpty(gaps)) == Length(gaps)
  {
    if gaps != [] {
      NonEmptyLength(gaps[1..], lo, hi);
      if gaps[0].end > gaps[0].start {
        assert NonEmpty(gaps)[1..] == NonEmpty(gaps[1..]);
      }
    }
  }

  lemma {:induction false} NonEmptyKeeps(gaps: seq<Interval>, lo: real, hi: real)
    requires Ordered(gaps, lo, hi)
    ensures var r := NonEmpty(gaps);
            && Disjoint(r) && Ordered(r, lo, hi) && Length(r) == Length(gaps)
            && (gaps != [] && r != [] ==> gaps[0].start <= r[0].start)
            && forall t :: Covered(r, t) <==> Covered(gaps, t)
  {
    hide Covered, Length;
    NonEmptyLength(gaps, lo, hi);
    forall t
      ensures Covered(NonEmpty(gaps), t) <==> Covered(gaps, t)
    {
      NonEmptyCovers(gaps, t);
    }
    if gaps != [] {
      NonEmptyKeeps(gaps[1..], lo, hi);
      var rest, r := NonEmpty(gaps[1..]), NonEmpty(gaps);
      if gaps[0].end > gaps[0].start {
        assert r[1..] == rest;
        if rest != [] {
          assert gaps[1].start <= rest[0].start;
        }
      }
    }
  }

  // ----- What the gaps and the busy time mean

  /** The blocks cut the covered part of [lo, hi) into disjoint intervals. */
  ghost predicate BlocksWithin(blocks: seq<Interval>, iv: seq<Interval>, lo: real, hi: real) {
    && Disjoint(blocks)
    && (forall t :: Covered(blocks, t) ==> lo <= t < hi)
    && (forall t :: lo <= t < hi ==> (Covered(blocks, t) <==> Covered(iv, t)))
  }

  lemma OrderedInside(iv: seq<Interval>, lo: real, hi: real)
    requires Ordered(iv, lo, hi)
    ensures forall t :: Covered(iv, t) ==> lo <= t < hi
  {
  }

  /** The gaps are non-empty, in order and disjoint; they hold a time of the window exactly when no
      interval does; and busy time plus the gaps is the window. */
  lemma GapsAreComplement(iv: seq<Interval>, lo: real, hi: real)
    requires lo <= hi && StartSorted(iv)
    ensures Disjoint(Gaps(iv, lo, hi)) && Ordered(Gaps(iv, lo, hi), lo, hi)
    ensures forall t :: lo <= t < hi ==> (Covered(Gaps(iv, lo, hi), t) <==> !Covered(iv, t))
    ensures Busy(iv, lo, hi) + Length(Gaps(iv, lo, hi)) == hi - lo
  {
    hide Covered, Length, NonEmpty, Run;
    var s := Run(iv, lo, hi);
    RunKeeps(iv, lo, hi);
    ShutKeeps(s, iv, lo, hi);
    var z := Shut(s);
    var last := Interval(z.cursor, hi);
    LengthAppend(z.gaps, last);
    var all := AllGaps(s, hi);
    assert Sorted(z.(open := false), iv, lo, hi);
    forall t | lo <= t < hi
      ensures Covered(all, t) <==> !Covered(iv, t)
    {
      CoveredAppend(z.gaps, last, t);
      if z.cursor <= t {
        OrderedInside(z.gaps, lo, z.cursor);
      }
    }
    NonEmptyKeeps(all, lo, hi);
  }

  /** Busy time is the length of the covered part of the window, however that is cut into blocks. */
  lemma BusyIsCoveredLength(iv: seq<Interval>, lo: real, hi: real, blocks: seq<Interval>)
    requires lo <= hi && StartSorted(iv) && BlocksWithin(blocks, iv, lo, hi)
    ensures Busy(iv, lo, hi) == Length(blocks)
  {
    var s := Run(iv, lo, hi);
    RunKeeps(iv, lo, hi);
    ShutKeeps(s, iv, lo, hi);
    var z := Shut(s).(open := false);
    OrderedInside(z.blocks, lo, z.cursor);
    assert Sorted(z, iv, lo, hi);
    forall t
      ensures Covered(z.blocks, t) <==> Covered(blocks, t)
    {
      if lo <= t < hi {
        assert Covered(blocks, t) <==> Covered(iv, t);
      }
    }
    LengthDetermined(z.blocks, blocks);
  }

  // ----- The look-back slice

  /** How many leading starts are below x, or at most x. */
  function BisectLeft(iv: seq<Interval>, x: real): (n: nat)
    ensures n <= |iv|
  {
    if iv == [] || iv[0].start >= x then 0 else 1 + BisectLeft(iv[1..], x)
  }

  function BisectRight(iv: seq<Interval>, x: real): (n: nat)
    ensures n <= |iv|
  {
    if iv == [] || iv[0].start > x then 0 else 1 + BisectRight(iv[1..], x)
  }

  lemma {:induction false} BisectLeftSplits(iv: seq<Interval>, x: real)
    requires StartSorted(iv)
    ensures forall i :: 0 <= i < |iv| ==> (i < BisectLeft(iv, x) <==> iv[i].start < x)
  {
    if iv != [] && iv[0].start < x {
      BisectLeftSplits(iv[1..], x);
      assert forall i :: 0 < i < |iv| ==> iv[i] == iv[1..][i - 1];
    }
  }

  lemma {:induction false} BisectRightSplits(iv: seq<Interval>, x: real)
    requires StartSorted(iv)
    ensures forall i :: 0 <= i < |iv| ==> (i < BisectRight(iv, x) <==> iv[i].start <= x)
  {
    if iv != [] && iv[0].start <= x {
      BisectRightSplits(iv[1..], x);
      assert forall i :: 0 < i < |iv| ==> iv[i] == iv[1..][i - 1];
    }
  }

  function Slice(iv: seq<Interval>, lo: real, hi: real, back: real): seq<Interval> {
    var i0, i1 := BisectLeft(iv, lo - back), BisectRight(iv, hi);
    if i0 <= i1 then iv[i0..i1] else []
  }

  ghost predicate Skipped(x: Interval, lo: real, hi: real) {
    x.end <= lo || x.start >= hi
  }

  lemma {:induction false} RunSkipsTail(a: seq<Interval>, b: seq<Interval>, lo: real, hi: real)
    requires forall i :: 0 <= i < |b| ==> Skipped(b[i], lo, hi)
    ensures Run(a + b, lo, hi) == Run(a, lo, hi)
    decreases |b|
  {
    if b == [] {
      assert a + b == a;
    } else {
      assert (a + b)[..|a + b| - 1] == a + b[..|b| - 1];
      RunSkipsTail(a, b[..|b| - 1], lo, hi);
    }
  }

  lemma {:induction false} RunSkipsHead(a: seq<Interval>, b: seq<Interval>, lo: real, hi: real)
    requires forall i :: 0 <= i < |a| ==> Skipped(a[i], lo, hi)
    ensures Run(a + b, lo, hi) == Run(b, lo, hi)
    decreases |b|
  {
    if b == [] {
      RunSkipsTail([], a, lo, hi);
      assert a + b == [] + a;
    } else {
      assert (a + b)[..|a + b| - 1] == a + b[..|b| - 1];
      RunSkipsHead(a, b[..|b| - 1], lo, hi);
    }
  }

  /** The slice that looks back a fixed time gives the same gaps and busy time as the whole list,
      when every interval cut off in front had ended by the start of the window; in particular when
      no interval is longer than the look-back. */
  lemma SliceIsEnough(iv: seq<Interval>, lo: real, hi: real, back: real)
    requires StartSorted(iv) && lo <= hi && back >= 0.0
    requires forall i :: 0 <= i < |iv| && iv[i].start < lo - back ==> iv[i].end <= lo
    ensures Gaps(Slice(iv, lo, hi, back), lo, hi) == Gaps(iv, lo, hi)
    ensures Busy(Slice(iv, lo, hi, back), lo, hi) == Busy(iv, lo, hi)
  {
    hide Run;
    BisectLeftSplits(iv, lo - back);
    BisectRightSplits(iv, hi);
    var i0, i1 := BisectLeft(iv, lo - back), BisectRight(iv, hi);
    assert i1 < |iv| ==> (i1 < i0 <==> iv[i1].start < lo - back);
    assert iv == iv[..i0] + (iv[i0..i1] + iv[i1..]);
    RunSkipsHead(iv[..i0], iv[i0..i1] + iv[i1..], lo, hi);
    RunSkipsTail(iv[i0..i1], iv[i1..], lo, hi);
  }

  lemma ShortEventsNeedNoMore(iv: seq<Interval>, lo: real, hi: real, back: real)
    requires StartSorted(iv) && lo <= hi && back >= 0.0
    requires forall i :: 0 <= i < |iv| ==> iv[i].end - iv[i].start <= back
    ensures Gaps(Slice(iv, lo, hi, back), lo, hi) == Gaps(iv, lo, hi)
    ensures Busy(Slice(iv, lo, hi, back), lo, hi) == Busy(iv, lo, hi)
  {
    SliceIsEnough(iv, lo, hi, back);
  }

  // ----- Exactly when the slice is enough

  /** What is cut off in front and still reaches into the window is covered there by what is kept. */
  ghost predicate NothingLost(iv: seq<Interval>, lo: real, hi: real, back: real) {
    forall i, t :: 0 <= i < |iv| && iv[i].start < lo - back && lo <= t < Min(iv[i].end, hi) ==>
                     Covered(Slice(iv, lo, hi, back), t)
  }

  lemma SomeBlocks(iv: seq<Interval>, lo: real, hi: real) returns (blocks: seq<Interval>)
    requires lo <= hi && StartSorted(iv)
    ensures BlocksWithin(blocks, iv, lo, hi) && Length(blocks) == Busy(iv, lo, hi)
  {
    var s := Run(iv, lo, hi);
    RunKeeps(iv, lo, hi);
    ShutKeeps(s, iv, lo, hi);
    var z := Shut(s).(open := false);
    OrderedInside(z.blocks, lo, z.cursor);
    assert Sorted(z, iv, lo, hi);
    blocks := z.blocks;
  }

  lemma {:induction false} LengthOfBoth(a: seq<Interval>, b: seq<Interval>)
    ensures Length(a + b) == Length(a) + Length(b)
  {
    if a == [] {
      assert a + b == b;
    } else {
      assert (a + b)[1..] == a[1..] + b;
      LengthOfBoth(a[1..], b);
    }
  }

  lemma CoveredBoth(a: seq<Interval>, b: seq<Interval>, t: real)
    ensures Covered(a + b, t) <==> Covered(a, t) || Covered(b, t)
  {
    var c := a + b;
    assert forall i :: 0 <= i < |a| ==> c[i] == a[i];
    assert forall i :: 0 <= i < |b| ==> c[|a| + i] == b[i];
  }

  lemma BlocksJoin(a: seq<Interval>, b: seq<Interval>, iv: seq<Interval>, lo: real, mid: real, hi: real)
    requires lo <= mid <= hi && BlocksWithin(a, iv, lo, mid) && BlocksWithin(b, iv, mid, hi)
    ensures BlocksWithin(a + b, iv, lo, hi)
  {
    forall i | 0 <= i < |a|
      ensures a[i].end <= mid
    {
      if a[i].end > mid {
        var t := Max(a[i].start, mid);
        assert Covered(a, t);
      }
    }
    forall i | 0 <= i < |b|
      ensures mid <= b[i].start
    {
      assert Covered(b, b[i].start);
    }
    forall t
      ensures Covered(a + b, t) <==> Covered(a, t) || Covered(b, t)
    {
      CoveredBoth(a, b, t);
    }
  }

  /** Cutting a window in two cuts its busy time in two. */
  lemma BusySplits(iv: seq<Interval>, lo: real, mid: real, hi: real)
    requires lo <= mid <= hi && StartSorted(iv)
    ensures Busy(iv, lo, hi) == Busy(iv, lo, mid) + Busy(iv, mid, hi)
  {
    hide Busy, Length, BlocksWithin;
    var a := SomeBlocks(iv, lo, mid);
    var b := SomeBlocks(iv, mid, hi);
    LengthOfBoth(a, b);
    BlocksJoin(a, b, iv, lo, mid, hi);
    BusyIsCoveredLength(iv, lo, hi, a + b);
  }

  lemma {:induction false} LengthNotNegative(blocks: seq<Interval>)
    requires Disjoint(blocks)
    ensures Length(blocks) >= 0.0
  {
    if blocks != [] {
      LengthNotNegative(blocks[1..]);
    }
  }

  lemma BusyNotNegative(iv: seq<Interval>, lo: real, hi: real)
    requires lo <= hi && StartSorted(iv)
    ensures Busy(iv, lo, hi) >= 0.0
  {
    var blocks := SomeBlocks(iv, lo, hi);
    LengthNotNegative(blocks);
  }

  lemma BusyWhenCovered(iv: seq<Interval>, lo: real, hi: real)
    requires lo <= hi && StartSorted(iv) && forall t :: lo <= t < hi ==> Covered(iv, t)
    ensures Busy(iv, lo, hi) == hi - lo
  {
    var block := Interval(lo, hi);
    if lo < hi {
      forall t
        ensures Covered([block], t) <==> lo <= t < hi
      {
        CoveredHead([block], t);
      }
      BusyIsCoveredLength(iv, lo, hi, [block]);
      assert Length([block]) == hi - lo + Length([block][1..]);
    } else {
      BusyIsCoveredLength(iv, lo, hi, []);
    }
  }

  lemma BusyWhenFree(iv: seq<Interval>, lo: real, hi: real)
    requires lo <= hi && StartSorted(iv) && forall t :: lo <= t < hi ==> !Covered(iv, t)
    ensures Busy(iv, lo, hi) == 0.0
  {
    BusyIsCoveredLength(iv, lo, hi, []);
  }

  /** A window is busy at least as long as any disjoint intervals inside it that are covered. */
  lemma {:induction false} BusyAtLeast(blocks: seq<Interval>, iv: seq<Interval>, lo: real, hi: real)
    requires lo <= hi && StartSorted(iv) && Disjoint(blocks)
    requires forall i :: 0 <= i < |blocks| ==> lo <= blocks[i].start && blocks[i].end <= hi
    requires forall t :: Covered(blocks, t) ==> Covered(iv, t)
    ensures Length(blocks) <= Busy(iv, lo, hi)
  {
    hide Busy;
    if blocks == [] {
      BusyNotNegative(iv, lo, hi);
    } else {
      var x := blocks[0];
      forall t
        ensures Covered(blocks, t) <==> x.start <= t < x.end || Covered(blocks[1..], t)
      {
        CoveredHead(blocks, t);
      }
      BusySplits(iv, lo, x.start, hi);
      BusySplits(iv, x.start, x.end, hi);
      BusyNotNegative(iv, lo, x.start);
      BusyWhenCovered(iv, x.start, x.end);
      BusyAtLeast(blocks[1..], iv, x.end, hi);
    }
  }

  /** Covering more makes a window no less busy. */
  lemma BusyGrows(a: seq<Interval>, b: seq<Interval>, lo: real, hi: real)
    requires lo <= hi && StartSorted(a) && StartSorted(b)
    requires forall t :: lo <= t < hi && Covered(a, t) ==> Covered(b, t)
    ensures Busy(a, lo, hi) <= Busy(b, lo, hi)
  {
    var blocks := SomeBlocks(a, lo, hi);
    forall i | 0 <= i < |blocks|
      ensures lo <= blocks[i].start && blocks[i].end <= hi
    {
      assert Covered(blocks, blocks[i].start);
      if blocks[i].end > hi {
        var t := Max(blocks[i].start, hi);
        assert Covered(blocks, t);
      }
    }
    BusyAtLeast(blocks, b, lo, hi);
  }

  /** A time that only the larger list covers leaves a stretch that only the larger list covers. */
  lemma StretchLost(a: seq<Interval>, b: seq<Interval>, lo: real, hi: real, t: real) returns (end: real)
    requires StartSorted(a) && StartSorted(b) && lo <= t < hi && Covered(b, t) && !Covered(a, t)
    ensures t < end <= hi
    ensures forall u :: t <= u < end ==> Covered(b, u) && !Covered(a, u)
  {
    hide Gaps, Busy, Length;
    GapsAreComplement(a, lo, hi);
    var gaps := Gaps(a, lo, hi);
    var g :| 0 <= g < |gaps| && gaps[g].start <= t < gaps[g].end;
    var i :| 0 <= i < |b| && b[i].start <= t < b[i].end;
    end := Min(gaps[g].end, b[i].end);
    forall u | t <= u < end
      ensures Covered(b, u) && !Covered(a, u)
    {
      assert Covered(gaps, u);
    }
  }

  lemma BusyGrowsStrictly(a: seq<Interval>, b: seq<Interval>, lo: real, hi: real, t: real)
    requires lo <= t < hi && StartSorted(a) && StartSorted(b) && Covered(b, t) && !Covered(a, t)
    requires forall u :: lo <= u < hi && Covered(a, u) ==> Covered(b, u)
    ensures Busy(a, lo, hi) < Busy(b, lo, hi)
  {
    hide Busy, Covered;
    var end := StretchLost(a, b, lo, hi, t);
    BusySplits(a, lo, t, hi);
    BusySplits(a, t, end, hi);
    BusySplits(b, lo, t, hi);
    BusySplits(b, t, end, hi);
    BusyGrows(a, b, lo, t);
    BusyGrows(a, b, end, hi);
    BusyWhenFree(a, t, end);
    BusyWhenCovered(b, t, end);
  }

  /** What a slice keeps, and what it can lose: only intervals that start before the look-back. */
  lemma SliceCovers(iv: seq<Interval>, lo: real, hi: real, back: real)
    requires StartSorted(iv) && back >= 0.0
    ensures StartSorted(Slice(iv, lo, hi, back))
    ensures forall t :: Covered(Slice(iv, lo, hi, back), t) ==> Covered(iv, t)
    ensures forall i, t :: 0 <= i < |iv| && iv[i].start >= lo - back && iv[i].start <= t < iv[i].end && t < hi ==>
                             Covered(Slice(iv, lo, hi, back), t)
  {
    BisectLeftSplits(iv, lo - back);
    BisectRightSplits(iv, hi);
    var i0, i1, near := BisectLeft(iv, lo - back), BisectRight(iv, hi), Slice(iv, lo, hi, back);
    if i0 <= i1 {
      assert forall i :: 0 <= i < |near| ==> near[i] == iv[i0 + i];
      forall i, t | 0 <= i < |iv| && iv[i].start >= lo - back && iv[i].start <= t < iv[i].end && t < hi
        ensures Covered(near, t)
      {
        assert near[i - i0] == iv[i];
      }
    }
  }

  lemma LostIsUncovered(iv: seq<Interval>, lo: real, hi: real, back: real)
    requires StartSorted(iv) && lo <= hi && back >= 0.0
    ensures NothingLost(iv, lo, hi, back)
       <==> forall t :: lo <= t < hi && Covered(iv, t) ==> Covered(Slice(iv, lo, hi, back), t)
  {
    hide Slice;
    SliceCovers(iv, lo, hi, back);
    var near := Slice(iv, lo, hi, back);
    if NothingLost(iv, lo, hi, back) {
      forall t | lo <= t < hi && Covered(iv, t)
        ensures Covered(near, t)
      {
        var i :| 0 <= i < |iv| && iv[i].start <= t < iv[i].end;
      }
    } else {
      var i, t :| 0 <= i < |iv| && iv[i].start < lo - back && lo <= t < Min(iv[i].end, hi) && !Covered(near, t);
      assert Covered(iv, t);
    }
  }

  /** The slice gives the busy time of the whole list, and its gaps hold the same times, exactly when nothing
      is lost; otherwise it is less busy. */
  lemma SliceIsExact(iv: seq<Interval>, lo: real, hi: real, back: real)
    requires StartSorted(iv) && lo <= hi && back >= 0.0
    ensures var near := Slice(iv, lo, hi, back);
            && Busy(near, lo, hi) <= Busy(iv, lo, hi)
            && (NothingLost(iv, lo, hi, back) <==> Busy(near, lo, hi) == Busy(iv, lo, hi))
            && (NothingLost(iv, lo, hi, back) <==>
                  forall t :: lo <= t < hi ==> (Covered(Gaps(near, lo, hi), t) <==> Covered(Gaps(iv, lo, hi), t)))
  {
    hide Busy, Gaps, Slice, Covered, NothingLost, Length;
    var near := Slice(iv, lo, hi, back);
    SliceCovers(iv, lo, hi, back);
    LostIsUncovered(iv, lo, hi, back);
    BusyGrows(near, iv, lo, hi);
    GapsAreComplement(near, lo, hi);
    GapsAreComplement(iv, lo, hi);
    if NothingLost(iv, lo, hi, back) {
      BusyGrows(iv, near, lo, hi);
    } else {
      var t :| lo <= t < hi && Covered(iv, t) && !Covered(near, t);
      BusyGrowsStrictly(near, iv, lo, hi, t);
    }
  }

  /** One event longer than the look-back, alone in reaching into the window, is lost. */
  lemma LongEventIsLost(lo: real, hi: real, back: real, x: Interval)
    requires lo < hi && back >= 0.0 && x.start < lo - back && x.end > lo
    ensures Busy(Slice([x], lo, hi, back), lo, hi) == 0.0 < Busy([x], lo, hi)
  {
    assert Slice([x], lo, hi, back) == [];
    assert [x][..0] == [];
  }

  // ----- The union of events

  predicate Earlier(x: Interval, y: Interval) {
    x.start < y.start || (x.start == y.start && x.end <= y.end)
  }

  function InOrder(events: seq<Interval>): seq<Interval> {
    Sorting.Sorted(events, Earlier)
  }

  /** None ends before it starts. */
  ghost predicate Forward(events: seq<Interval>) {
    forall i :: 0 <= i < |events| ==> events[i].start <= events[i].end
  }

  lemma InOrderKeeps(events: seq<Interval>)
    requires Forward(events)
    ensures StartSorted(InOrder(events))
    ensures forall t :: Covered(InOrder(events), t) <==> Covered(events, t)
  {
    Sorting.SortedKeeps(events, Earlier);
    var iv := InOrder(events);
    SameMembers(events, iv);
    assert forall i :: 0 <= i < |iv| ==> iv[i] in events;
    forall i, j | 0 <= i < j < |iv|
      ensures iv[i].start <= iv[j].start
    {
      assert Earlier(iv[i], iv[j]);
    }
    forall t
      ensures Covered(iv, t) <==> Covered(events, t)
    {
      CoveredByMember(iv, t);
      CoveredByMember(events, t);
    }
  }

  lemma SameMembers(a: seq<Interval>, b: seq<Interval>)
    requires multiset(a) == multiset(b)
    ensures forall x :: x in a <==> x in b
  {
    assert forall x :: x in a <==> x in multiset(a);
    assert forall x :: x in b <==> x in multiset(b);
  }

  lemma CoveredByMember(iv: seq<Interval>, t: real)
    ensures Covered(iv, t) <==> exists x :: x in iv && x.start <= t < x.end
  {
    if x :| x in iv && x.start <= t < x.end {
      var i :| 0 <= i < |iv| && iv[i] == x;
    }
  }

  /** The total length of the union of events given in any order: sorted first, then the running block is
      closed whenever the next event starts after its end. */
  method Union(events: seq<Interval>) returns (out: real)
    requires Forward(events)
    ensures forall lo, hi :: lo <= hi && Covers(InOrder(events), lo, hi) ==> out == Busy(InOrder(events), lo, hi)
    ensures forall blocks :: Blocks(blocks, events) ==> out == Length(blocks)
  {
    hide InOrder, Busy, Covered, Blocks, Disjoint;
    var iv := InOrder(events);
    InOrderKeeps(events);
    UnionStarts();
    out := 0.0;
    var open, cs, ce := false, 0.0, 0.0;
    ghost var blocks: seq<Interval> := [];
    for i := 0 to |iv|
      invariant UnionKeeps(iv[..i], blocks, open, cs, ce) && out == Length(blocks)
      invariant open && i < |iv| ==> cs <= iv[i].start
    {
      var a, b := iv[i].start, iv[i].end;
      assert iv[..i + 1] == iv[..i] + [iv[i]];
      UnionStep(iv[..i], iv[i], blocks, open, cs, ce);
      if !open {
        open, cs, ce := true, a, b;
      } else if a <= ce {
        ce := Max(ce, b);
      } else {
        out := out + (ce - cs);
        LengthAppend(blocks, Interval(cs, ce));
        blocks := if cs < ce then blocks + [Interval(cs, ce)] else blocks;
        cs, ce := a, b;
      }
    }
    assert iv[..|iv|] == iv;
    if open {
      out := out + (ce - cs);
      LengthAppend(blocks, Interval(cs, ce));
      UnionShut(iv, blocks, open, cs, ce);
      blocks := if cs < ce then blocks + [Interval(cs, ce)] else blocks;
    }
    UnionMeans(iv, blocks);
    SameBlocks(events);
  }

  lemma UnionStarts()
    ensures UnionKeeps([], [], false, 0.0, 0.0)
  {
  }

  lemma SameBlocks(events: seq<Interval>)
    requires Forward(events)
    ensures forall blocks :: Blocks(blocks, InOrder(events)) <==> Blocks(blocks, events)
  {
    InOrderKeeps(events);
  }

  ghost predicate Blocks(blocks: seq<Interval>, iv: seq<Interval>) {
    Disjoint(blocks) && forall t :: Covered(blocks, t) <==> Covered(iv, t)
  }

  ghost predicate Covers(iv: seq<Interval>, lo: real, hi: real) {
    forall i :: 0 <= i < |iv| ==> lo <= iv[i].start && iv[i].end <= hi
  }

  ghost predicate UnionKeeps(iv: seq<Interval>, blocks: seq<Interval>, open: bool, cs: real, ce: real) {
    && Disjoint(blocks)
    && (open ==> cs <= ce && forall i :: 0 <= i < |blocks| ==> blocks[i].end <= cs)
    && (!open ==> iv == [] && blocks == [])
    && forall t :: Covered(iv, t) <==> Covered(blocks, t) || (open && cs <= t < ce)
  }

  lemma UnionShut(iv: seq<Interval>, blocks: seq<Interval>, open: bool, cs: real, ce: real)
    requires UnionKeeps(iv, blocks, open, cs, ce) && open
    ensures Blocks(if cs < ce then blocks + [Interval(cs, ce)] else blocks, iv)
  {
    var block := Interval(cs, ce);
    forall t
      ensures Covered(iv, t) <==> Covered(if cs < ce then blocks + [block] else blocks, t)
    {
      CoveredAppend(blocks, block, t);
    }
  }

  lemma UnionStep(iv: seq<Interval>, x: Interval, blocks: seq<Interval>, open: bool, cs: real, ce: real)
    requires UnionKeeps(iv, blocks, open, cs, ce) && x.start <= x.end && (open ==> cs <= x.start)
    ensures if !open then UnionKeeps(iv + [x], blocks, true, x.start, x.end)
            else if x.start <= ce then UnionKeeps(iv + [x], blocks, true, cs, Max(ce, x.end))
            else UnionKeeps(iv + [x], if cs < ce then blocks + [Interval(cs, ce)] else blocks, true, x.start, x.end)
  {
    forall t
      ensures Covered(iv + [x], t) <==> Covered(iv, t) || x.start <= t < x.end
    {
      CoveredAppend(iv, x, t);
    }
    if open && x.start > ce {
      UnionShut(iv, blocks, open, cs, ce);
    }
  }

  lemma UnionMeans(iv: seq<Interval>, blocks: seq<Interval>)
    requires StartSorted(iv) && Blocks(blocks, iv)
    ensures forall lo, hi :: lo <= hi && Covers(iv, lo, hi) ==> Length(blocks) == Busy(iv, lo, hi)
    ensures forall other :: Blocks(other, iv) ==> Length(blocks) == Length(other)
  {
    forall lo, hi | lo <= hi && Covers(iv, lo, hi)
      ensures Length(blocks) == Busy(iv, lo, hi)
    {
      assert forall t :: Covered(iv, t) ==> lo <= t < hi;
      BusyIsCoveredLength(iv, lo, hi, blocks);
    }
    forall other | Blocks(other, iv)
      ensures Length(blocks) == Length(other)
    {
      LengthDetermined(blocks, other);
    }
  }
}
