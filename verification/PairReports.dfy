/** Comparing two whole runs, pooling what they show, and flagging the prompts that two arms disagree on more
    than runs of one arm do among themselves. */
module PairReports {
  import opened Options
  import opened Percentiles
  import opened Divergence

  datatype Prompt = Prompt(id: string, text: string, positions: seq<Position>)

  datatype Report = Report(rows: seq<Row>, vals: seq<real>, topVals: seq<real>, least: Option<nat>, diverged: nat)

  datatype Result = Compared(report: Report) | NotThere(id: string) | OtherText(id: string)

  /** The last prompt of a run with some id. */
  function Lookup(run: seq<Prompt>, id: string): (p: Option<Prompt>)
    ensures p.Some? ==> exists i :: 0 <= i < |run| && run[i] == p.value && run[i].id == id
                                 && forall j :: i < j < |run| ==> run[j].id != id
    ensures p.None? ==> forall q :: q in run ==> q.id != id
  {
    if run == [] then None
    else if run[|run| - 1].id == id then Some(run[|run| - 1])
    else Lookup(run[..|run| - 1], id)
  }

  ghost predicate Comparable(p: Prompt, run: seq<Prompt>) {
    Lookup(run, p.id).Some? && Lookup(run, p.id).value.text == p.text
  }

  function Pooled(rows: seq<Row>): seq<real> {
    if rows == [] then [] else Pooled(rows[..|rows| - 1]) + rows[|rows| - 1].chosen
  }

  function PooledTops(rows: seq<Row>): multiset<real> {
    if rows == [] then multiset{} else PooledTops(rows[..|rows| - 1]) + rows[|rows| - 1].tops
  }

  function Diverged(rows: seq<Row>): nat {
    if rows == [] then 0 else Diverged(rows[..|rows| - 1]) + if rows[|rows| - 1].first.Some? then 1 else 0
  }

  ghost predicate IsLeast(least: Option<nat>, rows: seq<Row>) {
    && (least.Some? ==> exists r :: r in rows && r.first.Some? && r.first.value.at == least.value)
    && forall r :: r in rows && r.first.Some? ==> least.Some? && least.value <= r.first.value.at
  }

  ghost predicate IsReport(r: Report, a: seq<Prompt>, b: seq<Prompt>) {
    && |r.rows| == |a| && (forall i :: 0 <= i < |a| ==> Comparable(a[i], b))
    && (forall i :: 0 <= i < |a| ==> IsRow(r.rows[i], a[i].positions, Lookup(b, a[i].id).value.positions))
    && r.vals == Pooled(r.rows) && multiset(r.topVals) == PooledTops(r.rows) && r.diverged == Diverged(r.rows)
    && IsLeast(r.least, r.rows)
  }

  function Sooner(least: Option<nat>, row: Row): Option<nat> {
    if row.first.Some? && (least.None? || row.first.value.at < least.value) then Some(row.first.value.at) else least
  }

  lemma PoolOneMore(rows: seq<Row>, row: Row)
    ensures Pooled(rows + [row]) == Pooled(rows) + row.chosen && PooledTops(rows + [row]) == PooledTops(rows) + row.tops
    ensures Diverged(rows + [row]) == Diverged(rows) + if row.first.Some? then 1 else 0
  {
    assert (rows + [row])[..|rows|] == rows;
  }

  lemma OneMoreRow(rows: seq<Row>, row: Row, least: Option<nat>)
    requires IsLeast(least, rows)
    ensures IsLeast(Sooner(least, row), rows + [row])
    ensures Pooled(rows + [row]) == Pooled(rows) + row.chosen && PooledTops(rows + [row]) == PooledTops(rows) + row.tops
    ensures Diverged(rows + [row]) == Diverged(rows) + if row.first.Some? then 1 else 0
  {
    PoolOneMore(rows, row);
    assert forall r :: r in rows + [row] <==> r in rows || r == row;
  }

  /** Every prompt of the first run against the one with its id in the second. */
  method ReportPair(a: seq<Prompt>, b: seq<Prompt>) returns (result: Result)
    ensures result.Compared? <==> forall p :: p in a ==> Comparable(p, b)
    ensures result.Compared? ==> IsReport(result.report, a, b)
    ensures result.NotThere? ==> exists p :: p in a && p.id == result.id && Lookup(b, p.id).None?
    ensures result.OtherText? ==> exists p :: p in a && p.id == result.id && Lookup(b, p.id).Some? && !Comparable(p, b)
  {
    hide IsRow, IsLeast, Pooled, PooledTops, Diverged;
    NoRows();
    var rows: seq<Row> := [];
    var vals: seq<real>, topVals: seq<real> := [], [];
    var least: Option<nat> := None;
    var diverged := 0;
    for i := 0 to |a|
      invariant |rows| == i && (forall j :: 0 <= j < i ==> Comparable(a[j], b))
      invariant forall j :: 0 <= j < i ==> IsRow(rows[j], a[j].positions, Lookup(b, a[j].id).value.positions)
      invariant vals == Pooled(rows) && multiset(topVals) == PooledTops(rows) && diverged == Diverged(rows)
      invariant IsLeast(least, rows)
    {
      var other := Lookup(b, a[i].id);
      if other.None? {
        assert !Comparable(a[i], b);
        return NotThere(a[i].id);
      }
      if other.value.text != a[i].text {
        assert !Comparable(a[i], b);
        return OtherText(a[i].id);
      }
      var row, deltas := ComparePrompt(a[i].positions, other.value.positions);
      OneMoreRow(rows, row, least);
      vals, topVals := vals + row.chosen, topVals + deltas;
      if row.first.Some? {
        diverged := diverged + 1;
        if least.None? || row.first.value.at < least.value {
          least := Some(row.first.value.at);
        }
      }
      rows := rows + [row];
    }
    return Compared(Report(rows, vals, topVals, least, diverged));
  }

  lemma NoRows()
    ensures IsLeast(None, []) && Pooled([]) == [] && PooledTops([]) == multiset{} && Diverged([]) == 0
  {
  }

  // ----- Comparing the other way round

  /** What a report says of its rows all together, whatever their order. */
  datatype Tally = Tally(vals: multiset<real>, tops: multiset<real>, diverged: nat, places: set<nat>)

  function Add(t: Tally, row: Row): Tally {
    Tally(t.vals + multiset(row.chosen), t.tops + row.tops, t.diverged + if row.first.Some? then 1 else 0,
          t.places + if row.first.Some? then {row.first.value.at} else {})
  }

  function TallyOf(ids: seq<string>, f: map<string, Row>): Tally
    requires forall id :: id in ids ==> id in f
  {
    if ids == [] then Tally(multiset{}, multiset{}, 0, {}) else Add(TallyOf(ids[..|ids| - 1], f), f[ids[|ids| - 1]])
  }

  lemma TallyLast(p: seq<string>, x: string, f: map<string, Row>)
    requires x in f && forall id :: id in p ==> id in f
    ensures TallyOf(p + [x], f) == Add(TallyOf(p, f), f[x])
  {
    assert (p + [x])[..|p|] == p;
  }

  lemma AddTwice(t: Tally, q: Row, r: Row)
    ensures Add(Add(t, q), r) == Add(Add(t, r), q)
  {
  }

  lemma {:induction false} TallySplit(a: seq<string>, x: string, b: seq<string>, f: map<string, Row>)
    requires x in f && (forall id :: id in a ==> id in f) && forall id :: id in b ==> id in f
    ensures TallyOf(a + [x] + b, f) == Add(TallyOf(a + b, f), f[x])
  {
    hide Add, TallyOf;
    TallyLast(a, x, f);
    if b == [] {
      assert a + [x] + b == a + [x] && a + b == a;
    } else {
      var c, y := b[..|b| - 1], b[|b| - 1];
      LastMoves(a, x, b);
      TallySplit(a, x, c, f);
      TallyLast(a + [x] + c, y, f);
      TallyLast(a + c, y, f);
      AddTwice(TallyOf(a + c, f), f[x], f[y]);
    }
  }

  lemma LastMoves(a: seq<string>, x: string, b: seq<string>)
    requires b != []
    ensures var c, y := b[..|b| - 1], b[|b| - 1];
            b == c + [y] && a + [x] + b == (a + [x] + c) + [y] && a + b == (a + c) + [y]
  {
  }

  lemma {:induction false} TallyOrderFree(s: seq<string>, t: seq<string>, f: map<string, Row>)
    requires multiset(s) == multiset(t) && (forall id :: id in s ==> id in f) && forall id :: id in t ==> id in f
    ensures TallyOf(s, f) == TallyOf(t, f)
    decreases |s|
  {
    hide TallyOf, Add;
    assert |multiset(s)| == |s| == |multiset(t)| == |t|;
    if s == [] {
      assert s == t;
    } else {
      var p, x := s[..|s| - 1], s[|s| - 1];
      assert s == p + [x] && x in multiset(s);
      var j :| 0 <= j < |t| && t[j] == x;
      var u, v := t[..j], t[j + 1..];
      assert t == u + [x] + v;
      TallySplit(u, x, v, f);
      TallyLast(p, x, f);
      SameRest(p, u, v, x);
      TallyOrderFree(p, u + v, f);
    }
  }

  lemma SameRest(p: seq<string>, u: seq<string>, v: seq<string>, x: string)
    requires multiset(p + [x]) == multiset(u + [x] + v)
    ensures multiset(p) == multiset(u + v)
  {
    assert multiset(p) == multiset(p + [x]) - multiset{x};
    assert multiset(u + v) == multiset(u + [x] + v) - multiset{x};
  }

  function Ids(run: seq<Prompt>): seq<string> {
    seq(|run|, i requires 0 <= i < |run| => run[i].id)
  }

  /** The places where rows part. */
  ghost predicate Places(rows: seq<Row>, places: set<nat>) {
    forall at :: at in places <==> exists r :: r in rows && r.first.Some? && r.first.value.at == at
  }

  lemma {:induction false} TallyOfRows(ids: seq<string>, f: map<string, Row>, rows: seq<Row>)
    requires |rows| == |ids| && forall i :: 0 <= i < |ids| ==> ids[i] in f && rows[i] == f[ids[i]]
    ensures var t := TallyOf(ids, f);
            && t.vals == multiset(Pooled(rows)) && t.tops == PooledTops(rows)
            && t.diverged == Diverged(rows) && Places(rows, t.places)
  {
    hide TallyOf, Pooled, PooledTops, Diverged, Places;
    if ids == [] {
      TallyOfNone(f);
      assert rows == [];
    } else {
      var n := |ids| - 1;
      TallyOfRows(ids[..n], f, rows[..n]);
      assert rows == rows[..n] + [rows[n]] && ids == ids[..n] + [ids[n]];
      TallyLast(ids[..n], ids[n], f);
      PoolOneMore(rows[..n], rows[n]);
      OneMorePlace(TallyOf(ids[..n], f), rows[..n], rows[n]);
    }
  }

  lemma TallyOfNone(f: map<string, Row>)
    ensures TallyOf([], f) == Tally(multiset{}, multiset{}, 0, {})
    ensures Pooled([]) == [] && PooledTops([]) == multiset{} && Diverged([]) == 0 && Places([], {})
  {
  }

  lemma OneMorePlace(t: Tally, rows: seq<Row>, row: Row)
    requires Places(rows, t.places)
    ensures Places(rows + [row], Add(t, row).places)
  {
    assert forall r :: r in rows + [row] <==> r in rows || r == row;
  }

  lemma LeastOnce(s: Option<nat>, t: Option<nat>, a: seq<Row>, b: seq<Row>, places: set<nat>)
    requires IsLeast(s, a) && IsLeast(t, b) && Places(a, places) && Places(b, places)
    ensures s == t
  {
    if s.Some? {
      assert s.value in places;
    }
    if t.Some? {
      assert t.value in places;
    }
  }

  ghost predicate DistinctIds(run: seq<Prompt>) {
    forall i, j :: 0 <= i < j < |run| ==> run[i].id != run[j].id
  }

  lemma LookupOwn(run: seq<Prompt>, i: nat)
    requires DistinctIds(run) && i < |run|
    ensures Lookup(run, run[i].id) == Some(run[i])
  {
    var p := Lookup(run, run[i].id);
    assert run[i] in run;
    assert p.Some?;
    var j :| 0 <= j < |run| && run[j] == p.value;
  }

  ghost function RowsById(run: seq<Prompt>, rows: seq<Row>): map<string, Row>
    requires |rows| == |run|
  {
    if run == [] then map[]
    else RowsById(run[..|run| - 1], rows[..|run| - 1])[run[|run| - 1].id := rows[|run| - 1]]
  }

  lemma {:induction false} RowsByIdMeaning(run: seq<Prompt>, rows: seq<Row>)
    requires |rows| == |run| && DistinctIds(run)
    ensures forall i :: 0 <= i < |run| ==> run[i].id in RowsById(run, rows) && RowsById(run, rows)[run[i].id] == rows[i]
  {
    if run != [] {
      RowsByIdMeaning(run[..|run| - 1], rows[..|run| - 1]);
    }
  }

  /** Row by row the two reports say the same of a prompt. */
  lemma SameRow(r: Report, q: Report, a: seq<Prompt>, b: seq<Prompt>, i: nat, j: nat)
    requires IsReport(r, a, b) && IsReport(q, b, a) && DistinctIds(a) && DistinctIds(b)
    requires i < |a| && j < |b| && a[i].id == b[j].id
    ensures r.rows[i] == q.rows[j]
  {
    hide IsRow, Pooled, PooledTops, Diverged, IsLeast;
    LookupOwn(a, i);
    LookupOwn(b, j);
    RowSymmetric(r.rows[i], q.rows[j], a[i].positions, b[j].positions);
  }

  lemma RowsAgree(r: Report, q: Report, a: seq<Prompt>, b: seq<Prompt>, f: map<string, Row>)
    requires IsReport(r, a, b) && IsReport(q, b, a) && DistinctIds(a) && DistinctIds(b)
    requires multiset(Ids(a)) == multiset(Ids(b))
    requires f == RowsById(a, r.rows)
    ensures forall i :: 0 <= i < |a| ==> a[i].id in f && f[a[i].id] == r.rows[i]
    ensures forall j :: 0 <= j < |b| ==> b[j].id in f && f[b[j].id] == q.rows[j]
  {
    hide IsRow, Pooled, PooledTops, Diverged, IsLeast, RowsById, Lookup;
    RowsByIdMeaning(a, r.rows);
    forall j | 0 <= j < |b|
      ensures b[j].id in f && f[b[j].id] == q.rows[j]
    {
      assert Ids(b)[j] in multiset(Ids(a));
      var i :| 0 <= i < |a| && Ids(a)[i] == b[j].id;
      SameRow(r, q, a, b, i, j);
    }
  }

  /** The whole report is symmetric in the two runs, however each orders its prompts. */
  lemma ReportSymmetric(r: Report, q: Report, a: seq<Prompt>, b: seq<Prompt>)
    requires IsReport(r, a, b) && IsReport(q, b, a) && DistinctIds(a) && DistinctIds(b)
    requires multiset(Ids(a)) == multiset(Ids(b))
    ensures multiset(r.vals) == multiset(q.vals) && DistOf(r.vals) == DistOf(q.vals)
    ensures multiset(r.topVals) == multiset(q.topVals) && DistOf(r.topVals) == DistOf(q.topVals)
    ensures r.diverged == q.diverged && r.least == q.least
  {
    hide IsRow, Pooled, PooledTops, Diverged, IsLeast, RowsById, Lookup, TallyOf, DistOf, Comparable, Places;
    var f := RowsById(a, r.rows);
    RowsAgree(r, q, a, b, f);
    assert forall id :: id in Ids(a) ==> id in f;
    assert forall id :: id in Ids(b) ==> id in f;
    TallyOfRows(Ids(a), f, r.rows);
    TallyOfRows(Ids(b), f, q.rows);
    TallyOrderFree(Ids(a), Ids(b), f);
    LeastOnce(r.least, q.least, r.rows, q.rows, TallyOf(Ids(a), f).places);
    DistOrderFree(r.vals, q.vals);
    DistOrderFree(r.topVals, q.topVals);
  }

  // ----- Outliers

  /** A prompt stands out by size, when the floor is known and not zero, or by parting earlier than any two
      runs of one arm did. */
  ghost predicate StandsOut(row: Row, p95: Option<real>, k: real, earliest: Option<nat>) {
    || (p95.Some? && p95.value != 0.0 && DistOf(row.chosen).max.Some? && DistOf(row.chosen).max.value > k * p95.value)
    || (row.first.Some? && (earliest.None? || row.first.value.at < earliest.value))
  }

  function FloorValues(within: seq<Report>): seq<real> {
    if within == [] then [] else FloorValues(within[..|within| - 1]) + within[|within| - 1].vals
  }

  ghost predicate IsEarliest(e: Option<nat>, within: seq<Report>) {
    && (e.Some? ==> exists r :: r in within && r.least == e)
    && forall r :: r in within && r.least.Some? ==> e.Some? && e.value <= r.least.value
  }

  /** What runs of one arm show among themselves, all arms pooled. */
  method Floor(within: seq<Report>) returns (floor: Dist, earliest: Option<nat>)
    ensures floor == DistOf(FloorValues(within)) && IsEarliest(earliest, within)
  {
    hide DistOf, FloorValues, IsEarliest;
    NoReports();
    var vals: seq<real> := [];
    earliest := None;
    for i := 0 to |within|
      invariant vals == FloorValues(within[..i]) && IsEarliest(earliest, within[..i])
    {
      assert within[..i + 1] == within[..i] + [within[i]];
      OneMoreReport(within[..i], within[i], earliest);
      vals := vals + within[i].vals;
      if within[i].least.Some? && (earliest.None? || within[i].least.value < earliest.value) {
        earliest := within[i].least;
      }
    }
    assert within[..|within|] == within;
    floor := DistOf(vals);
  }

  function Earlier(e: Option<nat>, r: Report): Option<nat> {
    if r.least.Some? && (e.None? || r.least.value < e.value) then r.least else e
  }

  lemma OneMoreReport(within: seq<Report>, r: Report, e: Option<nat>)
    requires IsEarliest(e, within)
    ensures IsEarliest(Earlier(e, r), within + [r]) && FloorValues(within + [r]) == FloorValues(within) + r.vals
  {
    assert (within + [r])[..|within|] == within;
    assert forall q :: q in within + [r] <==> q in within || q == r;
  }

  lemma NoReports()
    ensures IsEarliest(None, []) && FloorValues([]) == []
  {
  }

  /** The rows that stand out. */
  method Outliers(within: seq<Report>, between: Report, k: real) returns (out: seq<nat>, floor: Dist,
                  earliest: Option<nat>)
    ensures floor == DistOf(FloorValues(within)) && IsEarliest(earliest, within)
    ensures forall i: nat :: i in out <==> i < |between.rows| && StandsOut(between.rows[i], floor.p95, k, earliest)
  {
    hide DistOf, FloorValues, IsEarliest;
    floor, earliest := Floor(within);
    out := [];
    for i := 0 to |between.rows|
      invariant forall j: nat :: j in out <==> j < i && StandsOut(between.rows[j], floor.p95, k, earliest)
    {
      var row := between.rows[i];
      var max := DistOf(row.chosen).max;
      var large := floor.p95.Some? && floor.p95.value != 0.0 && max.Some? && max.value > k * floor.p95.value;
      var early := row.first.Some? && (earliest.None? || row.first.value.at < earliest.value);
      assert StandsOut(row, floor.p95, k, earliest) <==> large || early;
      if large || early {
        out := out + [i];
      }
    }
  }

  ghost predicate NotNegative(vals: seq<real>) {
    forall v :: v in vals ==> v >= 0.0
  }

  lemma {:induction false} PooledNotNegative(rows: seq<Row>)
    requires forall r :: r in rows ==> NotNegative(r.chosen)
    ensures NotNegative(Pooled(rows))
  {
    if rows != [] {
      PooledNotNegative(rows[..|rows| - 1]);
      assert rows[|rows| - 1] in rows;
    }
  }

  lemma RowNotNegative(r: Row, a: seq<Position>, b: seq<Position>)
    requires IsRow(r, a, b)
    ensures NotNegative(r.chosen)
  {
    hide IsParting, IsTop, DistOf, SetChanges;
  }

  lemma ReportNotNegative(r: Report, a: seq<Prompt>, b: seq<Prompt>)
    requires IsReport(r, a, b)
    ensures NotNegative(r.vals)
  {
    hide IsRow, NotNegative, Pooled, PooledTops, Diverged, IsLeast;
    forall i | 0 <= i < |r.rows|
      ensures NotNegative(r.rows[i].chosen)
    {
      RowNotNegative(r.rows[i], a[i].positions, Lookup(b, a[i].id).value.positions);
    }
    PooledNotNegative(r.rows);
  }

  lemma {:induction false} FloorNotNegative(within: seq<Report>)
    requires forall r :: r in within ==> NotNegative(r.vals)
    ensures NotNegative(FloorValues(within))
  {
    if within != [] {
      FloorNotNegative(within[..|within| - 1]);
      assert within[|within| - 1] in within;
    }
  }

  /** A larger factor never adds an outlier. */
  lemma OutliersShrink(within: seq<Report>, row: Row, j: real, k: real, earliest: Option<nat>)
    requires forall r :: r in within ==> exists a, b :: IsReport(r, a, b)
    requires j <= k && StandsOut(row, DistOf(FloorValues(within)).p95, k, earliest)
    ensures StandsOut(row, DistOf(FloorValues(within)).p95, j, earliest)
  {
    hide IsReport, DistOf;
    forall r | r in within
      ensures NotNegative(r.vals)
    {
      var a, b :| IsReport(r, a, b);
      ReportNotNegative(r, a, b);
    }
    FloorNotNegative(within);
    DistNotNegative(FloorValues(within));
    var p95 := DistOf(FloorValues(within)).p95;
    if p95.Some? {
      Product(k - j, p95.value);
      assert k * p95.value - j * p95.value == (k - j) * p95.value;
    }
  }
}
