/** The bounded Levenshtein distance of the copy-fidelity probe.

    The reference notion is the usual one: the length of a shortest sequence of single-character
    edits (insert, delete or substitute one character anywhere) that turns one string into the
    other.  Distance is the dynamic-programming recurrence; it is proved to be that length.
    Levenshtein is the two-row loop with its length shortcut and its early row abort. */
module EditDistance {

  // ----- The reference notion: shortest edit scripts

  ghost predicate Inserts(x: string, y: string, k: nat, c: char) {
    k <= |x| && y == x[..k] + [c] + x[k..]
  }

  ghost predicate Substitutes(x: string, y: string, k: nat, c: char) {
    k < |x| && y == x[k := c]
  }

  /** y is x with one character inserted, deleted or substituted. */
  ghost predicate OneEdit(x: string, y: string) {
    || (exists k: nat, c :: Inserts(x, y, k, c))
    || (exists k: nat, c :: Inserts(y, x, k, c))
    || (exists k: nat, c :: Substitutes(x, y, k, c))
  }

  /** A script is the list of strings passed through: from the first to the last, one edit a step. */
  ghost predicate Script(p: seq<string>, a: string, b: string) {
    && |p| > 0 && p[0] == a && p[|p| - 1] == b
    && forall i :: 0 <= i < |p| - 1 ==> OneEdit(p[i], p[i + 1])
  }

  /** d is the number of edits of a shortest script from a to b. */
  ghost predicate IsEditDistance(d: int, a: string, b: string) {
    && (exists p :: Script(p, a, b) && |p| == d + 1)
    && (forall p :: Script(p, a, b) ==> d + 1 <= |p|)
  }

  // ----- The recurrence the table is filled by

  function Min(x: int, y: int): int { if x < y then x else y }

  function Cost(x: char, y: char): int { if x == y then 0 else 1 }

  function Init(s: string): string
    requires s != ""
  {
    s[..|s| - 1]
  }

  function Last(s: string): char
    requires s != ""
  {
    s[|s| - 1]
  }

  function Distance(a: string, b: string): nat
    decreases |a| + |b|
  {
    if a == "" then |b|
    else if b == "" then |a|
    else Min(Min(Distance(Init(a), b) + 1, Distance(a, Init(b)) + 1),
             Distance(Init(a), Init(b)) + Cost(Last(a), Last(b)))
  }

  lemma {:induction false} DistanceSelf(a: string)
    ensures Distance(a, a) == 0
  {
    if a != "" {
      DistanceSelf(Init(a));
    }
  }

  lemma {:induction false} DistanceSymmetric(a: string, b: string)
    ensures Distance(a, b) == Distance(b, a)
    decreases |a| + |b|
  {
    if a != "" && b != "" {
      DistanceSymmetric(Init(a), b);
      DistanceSymmetric(a, Init(b));
      DistanceSymmetric(Init(a), Init(b));
    }
  }

  /** The length shortcut is safe: the distance is at least the difference of the lengths. */
  lemma {:induction false} DistanceAtLeastLengthDifference(a: string, b: string)
    ensures |a| - |b| <= Distance(a, b) && |b| - |a| <= Distance(a, b)
    decreases |a| + |b|
  {
    if a != "" && b != "" {
      DistanceAtLeastLengthDifference(Init(a), b);
      DistanceAtLeastLengthDifference(a, Init(b));
      DistanceAtLeastLengthDifference(Init(a), Init(b));
    }
  }

  lemma {:induction false} DistanceZero(a: string, b: string)
    ensures Distance(a, b) == 0 <==> a == b
    decreases |a| + |b|
  {
    if a == b {
      DistanceSelf(a);
    } else if a != "" && b != "" && Last(a) == Last(b) {
      assert a == Init(a) + [Last(a)] && b == Init(b) + [Last(b)];
      DistanceZero(Init(a), Init(b));
    }
  }

  // ----- The recurrence is achieved by a script

  lemma OneEditExtends(x: string, y: string, c: char)
    requires OneEdit(x, y)
    ensures OneEdit(x + [c], y + [c])
  {
    if k: nat, e :| Inserts(x, y, k, e) {
      assert Inserts(x + [c], y + [c], k, e) by {
        assert (x + [c])[..k] == x[..k] && (x + [c])[k..] == x[k..] + [c];
      }
    } else if k: nat, e :| Inserts(y, x, k, e) {
      assert Inserts(y + [c], x + [c], k, e) by {
        assert (y + [c])[..k] == y[..k] && (y + [c])[k..] == y[k..] + [c];
      }
    } else {
      var k: nat, e :| Substitutes(x, y, k, e);
      assert Substitutes(x + [c], y + [c], k, e);
    }
  }

  lemma AppendIsOneEdit(s: string, c: char)
    ensures OneEdit(s, s + [c]) && OneEdit(s + [c], s)
  {
    assert Inserts(s, s + [c], |s|, c) by {
      assert s[..|s|] == s && s[|s|..] == "";
    }
  }

  lemma {:induction false} ScriptExtends(p: seq<string>, a: string, b: string, c: char)
    requires Script(p, a, b)
    ensures Script(seq(|p|, i requires 0 <= i < |p| => p[i] + [c]), a + [c], b + [c])
  {
    forall i | 0 <= i < |p| - 1
      ensures OneEdit(p[i] + [c], p[i + 1] + [c])
    {
      OneEditExtends(p[i], p[i + 1], c);
    }
  }

  lemma ScriptThenAppend(q: seq<string>, a: string, b: string)
    requires b != "" && Script(q, a, Init(b))
    ensures Script(q + [b], a, b)
  {
    AppendIsOneEdit(Init(b), Last(b));
    assert b == Init(b) + [Last(b)];
  }

  lemma ScriptAfterDelete(q: seq<string>, a: string, b: string)
    requires a != "" && Script(q, Init(a), b)
    ensures Script([a] + q, a, b)
  {
    AppendIsOneEdit(Init(a), Last(a));
    assert a == Init(a) + [Last(a)];
    var p := [a] + q;
    forall i | 0 <= i < |p| - 1
      ensures OneEdit(p[i], p[i + 1])
    {
      if i > 0 {
        assert p[i] == q[i - 1] && p[i + 1] == q[i];
      }
    }
  }

  lemma ScriptThenReplace(q: seq<string>, a: string, b: string) returns (p: seq<string>)
    requires a != "" && b != "" && Script(q, Init(a), Init(b))
    ensures Script(p, a, b) && |p| == |q| + Cost(Last(a), Last(b))
  {
    ScriptExtends(q, Init(a), Init(b), Last(a));
    assert a == Init(a) + [Last(a)] && b == Init(b) + [Last(b)];
    p := seq(|q|, i requires 0 <= i < |q| => q[i] + [Last(a)]);
    if Last(a) != Last(b) {
      var m := Init(b) + [Last(a)];
      assert Substitutes(m, b, |m| - 1, Last(b));
      p := p + [b];
    }
  }

  lemma {:induction false} ShortestScript(a: string, b: string) returns (p: seq<string>)
    ensures Script(p, a, b) && |p| == Distance(a, b) + 1
    decreases |a| + |b|
  {
    if a == "" && b == "" {
      p := [a];
    } else if a == "" || (b != "" && Distance(a, b) == Distance(a, Init(b)) + 1) {
      p := ShortestScript(a, Init(b));
      ScriptThenAppend(p, a, b);
      p := p + [b];
    } else if b == "" || Distance(a, b) == Distance(Init(a), b) + 1 {
      p := ShortestScript(Init(a), b);
      ScriptAfterDelete(p, a, b);
      p := [a] + p;
    } else {
      p := ShortestScript(Init(a), Init(b));
      p := ScriptThenReplace(p, a, b);
    }
  }

  // ----- No script is shorter

  /** Appending one character moves the distance by at most one. */
  lemma {:induction false} AppendMovesByOne(a: string, u: string, c: char)
    ensures Distance(a, u + [c]) <= Distance(a, u) + 1
    ensures Distance(a, u) <= Distance(a, u + [c]) + 1
    decreases |a|
  {
    assert Init(u + [c]) == u;
    if a == "" {
    } else {
      AppendMovesByOne(Init(a), u, c);
      if u == "" {
        EmptyTarget(Init(a));
      }
    }
  }

  lemma EmptyTarget(a: string)
    ensures Distance(a, "") == |a|
  {
  }

  lemma {:induction false} ReplaceLastMovesByOne(a: string, u: string, c: char, e: char)
    ensures Distance(a, u + [c]) <= Distance(a, u + [e]) + 1
    decreases |a|
  {
    assert Init(u + [c]) == u && Init(u + [e]) == u;
    if a != "" {
      ReplaceLastMovesByOne(Init(a), u, c, e);
    }
  }

  lemma {:induction false} InsertMovesByOne(a: string, u: string, c: char, v: string)
    ensures Distance(a, u + [c] + v) <= Distance(a, u + v) + 1
    ensures Distance(a, u + v) <= Distance(a, u + [c] + v) + 1
    decreases |a| + |v|
  {
    var x, y := u + v, u + [c] + v;
    if v == "" {
      assert x == u && y == u + [c];
      AppendMovesByOne(a, u, c);
    } else if a != "" {
      assert Init(x) == u + Init(v) && Init(y) == u + [c] + Init(v) && Last(x) == Last(y) == Last(v);
      InsertMovesByOne(Init(a), u, c, v);
      InsertMovesByOne(a, u, c, Init(v));
      InsertMovesByOne(Init(a), u, c, Init(v));
    }
  }

  lemma {:induction false} SubstituteMovesByOne(a: string, u: string, c: char, e: char, v: string)
    ensures Distance(a, u + [c] + v) <= Distance(a, u + [e] + v) + 1
    decreases |a| + |v|
  {
    var x, y := u + [c] + v, u + [e] + v;
    if v == "" {
      assert x == u + [c] && y == u + [e];
      ReplaceLastMovesByOne(a, u, c, e);
    } else if a != "" {
      assert Init(x) == u + [c] + Init(v) && Init(y) == u + [e] + Init(v) && Last(x) == Last(y) == Last(v);
      SubstituteMovesByOne(Init(a), u, c, e, v);
      SubstituteMovesByOne(a, u, c, e, Init(v));
      SubstituteMovesByOne(Init(a), u, c, e, Init(v));
    }
  }

  lemma EditMovesByOne(a: string, x: string, y: string)
    requires OneEdit(x, y)
    ensures Distance(a, y) <= Distance(a, x) + 1
  {
    if k: nat, c :| Inserts(x, y, k, c) {
      assert x == x[..k] + x[k..];
      InsertMovesByOne(a, x[..k], c, x[k..]);
    } else if k: nat, c :| Inserts(y, x, k, c) {
      assert y == y[..k] + y[k..];
      InsertMovesByOne(a, y[..k], c, y[k..]);
    } else {
      var k: nat, c :| Substitutes(x, y, k, c);
      assert x == x[..k] + [x[k]] + x[k + 1..];
      assert y == x[..k] + [c] + x[k + 1..];
      SubstituteMovesByOne(a, x[..k], c, x[k], x[k + 1..]);
    }
  }

  lemma {:induction false} NoShorterScript(p: seq<string>, a: string, b: string)
    requires Script(p, a, b)
    ensures Distance(a, b) <= |p| - 1
  {
    if |p| == 1 {
      DistanceSelf(a);
    } else {
      var q := p[..|p| - 1];
      NoShorterScript(q, a, p[|p| - 2]);
      EditMovesByOne(a, p[|p| - 2], b);
    }
  }

  /** Going through a third string takes no fewer edits. */
  lemma DistanceTriangle(a: string, b: string, c: string)
    ensures Distance(a, c) <= Distance(a, b) + Distance(b, c)
  {
    var p := ShortestScript(a, b);
    var q := ShortestScript(b, c);
    var s := p + q[1..];
    assert forall i :: 0 <= i < |p| ==> s[i] == p[i];
    assert forall i :: 1 <= i < |q| ==> s[|p| - 1 + i] == q[i];
    forall i | 0 <= i < |s| - 1
      ensures OneEdit(s[i], s[i + 1])
    {
      if i >= |p| - 1 {
        assert s[i] == q[i - |p| + 1] && s[i + 1] == q[i - |p| + 2];
      }
    }
    NoShorterScript(s, a, c);
  }

  /** The recurrence computes the length of a shortest edit script, for all pairs of strings. */
  lemma DistanceIsEditDistance(a: string, b: string)
    ensures IsEditDistance(Distance(a, b), a, b)
  {
    var p := ShortestScript(a, b);
    forall q | Script(q, a, b)
      ensures Distance(a, b) + 1 <= |q|
    {
      NoShorterScript(q, a, b);
    }
  }

  lemma EditDistanceUnique(a: string, b: string, d: int)
    requires IsEditDistance(d, a, b)
    ensures d == Distance(a, b)
  {
    DistanceIsEditDistance(a, b);
    var p :| Script(p, a, b) && |p| == d + 1;
    var q :| Script(q, a, b) && |q| == Distance(a, b) + 1;
  }

  // ----- The table, by row and column

  /** Entry (i, j) of the table: the distance between the first i and the first j characters. */
  function Cell(a: string, b: string, i: nat, j: nat): nat
    requires i <= |a| && j <= |b|
  {
    if i == 0 then j
    else if j == 0 then i
    else Min(Min(Cell(a, b, i - 1, j) + 1, Cell(a, b, i, j - 1) + 1),
             Cell(a, b, i - 1, j - 1) + Cost(a[i - 1], b[j - 1]))
  }

  lemma PrefixParts(a: string, i: nat)
    requires 1 <= i <= |a|
    ensures a[..i] != "" && Init(a[..i]) == a[..i - 1] && Last(a[..i]) == a[i - 1]
  {
  }

  lemma {:induction false} CellIsDistance(a: string, b: string, i: nat, j: nat)
    requires i <= |a| && j <= |b|
    ensures Cell(a, b, i, j) == Distance(a[..i], b[..j])
  {
    hide Cell, Distance, Min, Init, Last, Cost;
    if i == 0 || j == 0 {
      CellEdge(a, b, i, j);
    } else {
      CellStep(a, b, i, j);
      PrefixParts(a, i);
      PrefixParts(b, j);
      DistanceStep(a[..i], b[..j]);
      CellIsDistance(a, b, i - 1, j);
      CellIsDistance(a, b, i, j - 1);
      CellIsDistance(a, b, i - 1, j - 1);
    }
  }

  lemma CellEdge(a: string, b: string, i: nat, j: nat)
    requires i <= |a| && j <= |b| && (i == 0 || j == 0)
    ensures Cell(a, b, i, j) == Distance(a[..i], b[..j])
  {
  }

  lemma DistanceStep(a: string, b: string)
    requires a != "" && b != ""
    ensures Distance(a, b)
         == Min(Min(Distance(Init(a), b) + 1, Distance(a, Init(b)) + 1),
                Distance(Init(a), Init(b)) + Cost(Last(a), Last(b)))
  {
    hide Min, Cost, Init, Last;
  }

  /** Once a whole row is at or above the cutoff, every later row is. */
  lemma {:induction false} RowAbortIsSafe(a: string, b: string, i: nat, k: nat, j: nat, cutoff: int)
    requires i <= k <= |a| && j <= |b|
    requires forall l :: 0 <= l <= |b| ==> Cell(a, b, i, l) >= cutoff
    ensures Cell(a, b, k, j) >= cutoff
    decreases k + j
  {
    if k > i {
      RowAbortIsSafe(a, b, i, k - 1, j, cutoff);
      if j > 0 {
        RowAbortIsSafe(a, b, i, k, j - 1, cutoff);
        RowAbortIsSafe(a, b, i, k - 1, j - 1, cutoff);
      }
    }
  }

  // ----- The two-row loop

  /** The row below one of the table, and its least cell. */
  method NextRow(a: string, b: string, i: nat, prev: seq<int>) returns (cur: seq<int>, rowMin: int)
    requires 1 <= i <= |a| && |prev| == |b| + 1 && forall j :: 0 <= j <= |b| ==> prev[j] == Cell(a, b, i - 1, j)
    ensures |cur| == |b| + 1 && forall j :: 0 <= j <= |b| ==> cur[j] == Cell(a, b, i, j) && rowMin <= cur[j]
    ensures exists j :: 0 <= j <= |b| && rowMin == cur[j]
  {
    hide Cell;
    FirstColumn(a, b, i);
    cur := [i] + seq(|b|, _ => 0);
    rowMin := i;
    for j := 1 to |b| + 1
      invariant |cur| == |b| + 1
      invariant forall k :: 0 <= k < j ==> cur[k] == Cell(a, b, i, k) && rowMin <= cur[k]
      invariant exists k :: 0 <= k < j && rowMin == cur[k]
    {
      ghost var least: nat :| least < j && rowMin == cur[least];
      var cost := if a[i - 1] == b[j - 1] then 0 else 1;
      var v := Min(Min(prev[j] + 1, cur[j - 1] + 1), prev[j - 1] + cost);
      CellStep(a, b, i, j);
      cur := cur[j := v];
      rowMin := Min(rowMin, v);
      assert rowMin == cur[if v < cur[least] then j else least];
    }
  }

  lemma CellStep(a: string, b: string, i: nat, j: nat)
    requires 1 <= i <= |a| && 1 <= j <= |b|
    ensures Cell(a, b, i, j)
         == Min(Min(Cell(a, b, i - 1, j) + 1, Cell(a, b, i, j - 1) + 1),
                Cell(a, b, i - 1, j - 1) + Cost(a[i - 1], b[j - 1]))
  {
    hide Min, Cost;
  }

  lemma FirstColumn(a: string, b: string, i: nat)
    requires i <= |a|
    ensures Cell(a, b, i, 0) == i
  {
  }

  lemma FirstRow(a: string, b: string)
    ensures forall j :: 0 <= j <= |b| ==> Cell(a, b, 0, j) == j
  {
  }

  /** The first i letters of a are at or above the cutoff from every beginning of b. */
  ghost predicate RowFar(a: string, b: string, i: nat, cutoff: int)
    requires i <= |a|
  {
    forall j :: 0 <= j <= |b| ==> Distance(a[..i], b[..j]) >= cutoff
  }

  /** The lengths, or some row of the table, put the distance at or above the cutoff. */
  ghost predicate CutOff(a: string, b: string, cutoff: int) {
    |a| - |b| >= cutoff || |b| - |a| >= cutoff || exists i: nat :: 1 <= i <= |a| && RowFar(a, b, i, cutoff)
  }

  lemma RowFarExactly(a: string, b: string, i: nat, cur: seq<int>, rowMin: int, cutoff: int)
    requires i <= |a| && |cur| == |b| + 1
    requires forall j :: 0 <= j <= |b| ==> cur[j] == Cell(a, b, i, j) && rowMin <= cur[j]
    requires exists j :: 0 <= j <= |b| && rowMin == cur[j]
    ensures rowMin >= cutoff <==> RowFar(a, b, i, cutoff)
  {
    hide Cell, Distance;
    forall j: nat | j <= |b|
      ensures cur[j] == Distance(a[..i], b[..j])
    {
      CellIsDistance(a, b, i, j);
    }
  }

  /** For every cutoff whatever: the result is the true distance, or it is the cutoff and the true
      distance is no smaller.  A distance below the cutoff is therefore never hidden, and a result
      below the cutoff is always exact.  Which of the two it is, of different strings, depends on the lengths and
      the rows alone. */
  method Levenshtein(a: string, b: string, cutoff: int) returns (r: int)
    ensures r == Distance(a, b) || r == cutoff <= Distance(a, b)
    ensures Min(r, cutoff) == Min(Distance(a, b), cutoff)
    ensures a == b ==> r == 0
    ensures a != b ==> r == if CutOff(a, b, cutoff) then cutoff else Distance(a, b)
  {
    hide Distance, Cell, RowFar;
    var d := CornerCell(a, b);
    if a == b {
      return 0;
    }
    if (if |a| < |b| then |b| - |a| else |a| - |b|) >= cutoff {
      return cutoff;
    }
    FirstRow(a, b);
    var prev := seq(|b| + 1, j => j);
    for i := 1 to |a| + 1
      invariant |prev| == |b| + 1
      invariant forall j :: 0 <= j <= |b| ==> prev[j] == Cell(a, b, i - 1, j)
      invariant forall k: nat :: 1 <= k < i ==> !RowFar(a, b, k, cutoff)
    {
      var cur, rowMin := NextRow(a, b, i, prev);
      RowFarExactly(a, b, i, cur, rowMin, cutoff);
      if rowMin >= cutoff {
        RowAbortIsSafe(a, b, i, |a|, |b|, cutoff);
        return cutoff;
      }
      prev := cur;
    }
    r := prev[|prev| - 1];
  }

  lemma CornerCell(a: string, b: string) returns (d: nat)
    ensures d == Distance(a, b) == Cell(a, b, |a|, |b|)
    ensures d == 0 <==> a == b
    ensures |a| - |b| <= d && |b| - |a| <= d
  {
    d := Distance(a, b);
    CellIsDistance(a, b, |a|, |b|);
    assert a[..|a|] == a && b[..|b|] == b;
    DistanceZero(a, b);
    DistanceAtLeastLengthDifference(a, b);
  }

  /** A result below the cutoff is the length of a shortest edit script. */
  lemma BelowCutoffIsExact(a: string, b: string, cutoff: int, r: int)
    requires r == Distance(a, b) || r == cutoff <= Distance(a, b)
    ensures r < cutoff ==> IsEditDistance(r, a, b)
    ensures forall d :: IsEditDistance(d, a, b) && d < cutoff ==> r == d
  {
    DistanceIsEditDistance(a, b);
    forall d | IsEditDistance(d, a, b)
      ensures d == Distance(a, b)
    {
      EditDistanceUnique(a, b, d);
    }
  }
}
