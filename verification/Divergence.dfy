/** Comparing two runs of one prompt position by position, and flagging prompts whose divergence between two
    arms exceeds what runs of one arm show among themselves. */
module Divergence {
  import opened Options
  import opened Percentiles

  /** A generated position: the token's bytes, when there are any, its text, the log-probability of the
      chosen token, and those of the most likely ones. */
  datatype Position = Position(bytes: seq<int>, token: Option<string>, lp: real, top: map<string, real>)

  datatype Key = Bytes(b: seq<int>) | Token(t: Option<string>)

  /** Token identity: the bytes when there are any, else the text. */
  function PosKey(p: Position): Key {
    if p.bytes != [] then Bytes(p.bytes) else Token(p.token)
  }

  /** Two positions hold the same token when both have bytes and these are equal, or neither has any and their
      texts are; the text of a position with bytes is never looked at. */
  lemma SameToken(p: Position, q: Position)
    ensures PosKey(p) == PosKey(q)
       <==> if p.bytes == [] && q.bytes == [] then p.token == q.token else p.bytes == q.bytes
  {
  }

  function Abs(x: real): real { if x < 0.0 then -x else x }

  function Min(a: nat, b: nat): nat { if a <= b then a else b }

  datatype Kind = TokenDiffers | LengthDiffers

  ghost predicate SameKeys(a: seq<Position>, b: seq<Position>, n: nat)
    requires n <= |a| && n <= |b|
  {
    forall i :: 0 <= i < n ==> PosKey(a[i]) == PosKey(b[i])
  }

  /** The first position where the two part: another token, or the end of one of them. */
  ghost predicate PartAt(a: seq<Position>, b: seq<Position>, at: nat, kind: Kind) {
    && at <= |a| && at <= |b| && SameKeys(a, b, at)
    && match kind
       case TokenDiffers => at < |a| && at < |b| && PosKey(a[at]) != PosKey(b[at])
       case LengthDiffers => |a| != |b| && (at == |a| || at == |b|)
  }

  ghost predicate NeverPart(a: seq<Position>, b: seq<Position>) {
    |a| == |b| && SameKeys(a, b, |a|)
  }

  /** How far apart the log-probabilities of the chosen tokens are, position by position. */
  function Deltas(a: seq<Position>, b: seq<Position>, n: nat): (r: seq<real>)
    requires n <= |a| && n <= |b|
    ensures |r| == n
    ensures forall i :: 0 <= i < n ==> r[i] >= 0.0 && (a[i].lp + r[i] == b[i].lp || b[i].lp + r[i] == a[i].lp)
  {
    seq(n, i requires 0 <= i < n => Abs(a[i].lp - b[i].lp))
  }

  /** How many of the first n positions list different most-likely tokens. */
  function SetChanges(a: seq<Position>, b: seq<Position>, n: nat): nat
    requires n <= |a| && n <= |b|
  {
    if n == 0 then 0 else SetChanges(a, b, n - 1) + if a[n - 1].top.Keys != b[n - 1].top.Keys then 1 else 0
  }

  /** A token that both list at a position before n, with the difference between its log-probabilities. */
  ghost predicate TopDelta(a: seq<Position>, b: seq<Position>, n: nat, v: real)
    requires n <= |a| && n <= |b|
  {
    exists i, t :: 0 <= i < n && t in a[i].top && t in b[i].top && v == Abs(a[i].top[t] - b[i].top[t])
  }

  /** The tokens that both positions list with a difference of v. */
  function SharedWith(p: Position, q: Position, v: real): set<string> {
    set t | t in p.top && t in q.top && Abs(p.top[t] - q.top[t]) == v
  }

  /** How often the difference v is seen among the first n positions. */
  function TopCount(a: seq<Position>, b: seq<Position>, n: nat, v: real): nat
    requires n <= |a| && n <= |b|
  {
    if n == 0 then 0 else TopCount(a, b, n - 1, v) + |SharedWith(a[n - 1], b[n - 1], v)|
  }

  /** All differences for tokens that both list, each as often as it is seen. */
  ghost predicate IsTops(tops: multiset<real>, a: seq<Position>, b: seq<Position>, n: nat)
    requires n <= |a| && n <= |b|
  {
    forall v :: tops[v] == TopCount(a, b, n, v)
  }

  datatype Parting = Parting(at: nat, kind: Kind)

  ghost predicate IsParting(p: Option<Parting>, a: seq<Position>, b: seq<Position>) {
    if p.Some? then PartAt(a, b, p.value.at, p.value.kind) else NeverPart(a, b)
  }

  ghost predicate IsTop(top: Option<real>, a: seq<Position>, b: seq<Position>, n: nat)
    requires n <= |a| && n <= |b|
  {
    if top.Some? then TopDelta(a, b, n, top.value) && (forall v :: TopDelta(a, b, n, v) ==> v <= top.value)
    else forall v :: !TopDelta(a, b, n, v)
  }

  datatype Row = Row(first: Option<Parting>, compared: nat, chosen: seq<real>, tops: multiset<real>,
                     top: Option<real>, setChanges: nat, unaligned: Dist)

  /** What comparing two runs of a prompt reports. */
  ghost predicate IsRow(r: Row, a: seq<Position>, b: seq<Position>) {
    && IsParting(r.first, a, b)
    && r.compared == (if r.first.Some? then r.first.value.at else |a|) && r.compared <= |a| && r.compared <= |b|
    && r.chosen == Deltas(a, b, r.compared) && r.setChanges == SetChanges(a, b, r.compared)
    && IsTops(r.tops, a, b, r.compared) && IsTop(r.top, a, b, r.compared)
    && r.unaligned == DistOf(Deltas(a, b, Min(|a|, |b|)))
  }

  method FindParting(a: seq<Position>, b: seq<Position>) returns (first: Option<Parting>)
    ensures IsParting(first, a, b)
  {
    var n := Min(|a|, |b|);
    for i := 0 to n
      invariant SameKeys(a, b, i)
    {
      if PosKey(a[i]) != PosKey(b[i]) {
        return Some(Parting(i, TokenDiffers));
      }
    }
    if |a| != |b| {
      return Some(Parting(n, LengthDiffers));
    }
    return None;
  }

  /** The differences for the tokens that both positions list. */
  method SharedDeltas(p: Position, q: Position) returns (out: seq<real>)
    ensures forall v :: v in out <==> exists t :: t in p.top && t in q.top && v == Abs(p.top[t] - q.top[t])
    ensures forall v :: multiset(out)[v] == |SharedWith(p, q, v)|
  {
    hide SharedWith;
    out := [];
    var shared := p.top.Keys * q.top.Keys;
    NoneTaken(p, q);
    while shared != {}
      invariant shared <= p.top.Keys * q.top.Keys
      invariant CountedBut(out, p, q, shared)
      decreases shared
    {
      var t :| t in shared;
      OneTaken(out, p, q, shared, t);
      shared := shared - {t};
      out := out + [Abs(p.top[t] - q.top[t])];
    }
    AllTaken(out, p, q);
  }

  /** The differences for all shared tokens but some. */
  ghost predicate CountedBut(out: seq<real>, p: Position, q: Position, rest: set<string>) {
    forall v :: multiset(out)[v] == |SharedWith(p, q, v) - rest|
  }

  lemma NoneTaken(p: Position, q: Position)
    ensures CountedBut([], p, q, p.top.Keys * q.top.Keys)
  {
    assert forall v :: SharedWith(p, q, v) - p.top.Keys * q.top.Keys == {};
  }

  lemma OneTaken(out: seq<real>, p: Position, q: Position, rest: set<string>, t: string)
    requires CountedBut(out, p, q, rest) && t in rest && t in p.top && t in q.top
    ensures CountedBut(out + [Abs(p.top[t] - q.top[t])], p, q, rest - {t})
  {
    var d := Abs(p.top[t] - q.top[t]);
    forall v
      ensures multiset(out + [d])[v] == |SharedWith(p, q, v) - (rest - {t})|
    {
      OneLess(SharedWith(p, q, v), rest, t);
    }
  }

  lemma OneLess(s: set<string>, shared: set<string>, t: string)
    requires t in shared
    ensures |s - (shared - {t})| == |s - shared| + if t in s then 1 else 0
  {
    assert s - (shared - {t}) == if t in s then (s - shared) + {t} else s - shared;
  }

  lemma AllTaken(out: seq<real>, p: Position, q: Position)
    requires CountedBut(out, p, q, {})
    ensures forall v :: multiset(out)[v] == |SharedWith(p, q, v)|
    ensures forall v :: v in out <==> exists t :: t in p.top && t in q.top && v == Abs(p.top[t] - q.top[t])
  {
    forall v
      ensures multiset(out)[v] == |SharedWith(p, q, v)|
      ensures v in out <==> exists t :: t in p.top && t in q.top && v == Abs(p.top[t] - q.top[t])
    {
      var s := SharedWith(p, q, v);
      assert s - {} == s;
      assert v in out <==> v in multiset(out);
      if t :| t in p.top && t in q.top && v == Abs(p.top[t] - q.top[t]) {
        assert t in s;
      }
      if v in out {
        assert s != {};
        var t :| t in s;
      }
    }
  }

  method CompareTops(a: seq<Position>, b: seq<Position>, n: nat) returns (deltas: seq<real>, setChanges: nat)
    requires n <= |a| && n <= |b|
    ensures forall v :: v in deltas <==> TopDelta(a, b, n, v)
    ensures IsTops(multiset(deltas), a, b, n)
    ensures setChanges == SetChanges(a, b, n)
  {
    deltas, setChanges := [], 0;
    for i := 0 to n
      invariant forall v :: v in deltas <==> TopDelta(a, b, i, v)
      invariant forall v :: multiset(deltas)[v] == TopCount(a, b, i, v)
      invariant setChanges == SetChanges(a, b, i)
    {
      if a[i].top.Keys != b[i].top.Keys {
        setChanges := setChanges + 1;
      }
      var more := SharedDeltas(a[i], b[i]);
      forall v
        ensures TopDelta(a, b, i + 1, v) <==> TopDelta(a, b, i, v) || v in more
      {
        OneMorePosition(a, b, i, v);
      }
      deltas := deltas + more;
    }
  }

  lemma OneMorePosition(a: seq<Position>, b: seq<Position>, i: nat, v: real)
    requires i < |a| && i < |b|
    ensures TopDelta(a, b, i + 1, v)
       <==> TopDelta(a, b, i, v) || exists t :: t in a[i].top && t in b[i].top && v == Abs(a[i].top[t] - b[i].top[t])
  {
    if TopDelta(a, b, i + 1, v) {
      var j, t :| 0 <= j < i + 1 && t in a[j].top && t in b[j].top && v == Abs(a[j].top[t] - b[j].top[t]);
      assert j < i ==> TopDelta(a, b, i, v);
    }
    if TopDelta(a, b, i, v) {
      var j, t :| 0 <= j < i && t in a[j].top && t in b[j].top && v == Abs(a[j].top[t] - b[j].top[t]);
      assert 0 <= j < i + 1;
    }
  }

  method Greatest(vals: seq<real>) returns (m: Option<real>)
    ensures if m.Some? then m.value in vals && (forall v :: v in vals ==> v <= m.value) else vals == []
  {
    if vals == [] {
      return None;
    }
    var best := vals[0];
    for i := 1 to |vals|
      invariant best in vals && forall j :: 0 <= j < i ==> vals[j] <= best
    {
      if vals[i] > best {
        best := vals[i];
      }
    }
    return Some(best);
  }

  /** Compares up to where the two runs part. */
  method ComparePrompt(a: seq<Position>, b: seq<Position>) returns (r: Row, deltas: seq<real>)
    ensures IsRow(r, a, b) && multiset(deltas) == r.tops
  {
    var first := FindParting(a, b);
    var limit := if first.Some? then first.value.at else |a|;
    var chosen := Deltas(a, b, limit);
    var setChanges;
    deltas, setChanges := CompareTops(a, b, limit);
    var top := Greatest(deltas);
    if top.None? {
      assert forall v :: v !in deltas;
    }
    r := Row(first, limit, chosen, multiset(deltas), top, setChanges, DistOf(Deltas(a, b, Min(|a|, |b|))));
  }

  // ----- What a row is

  /** There is one place, the same from both sides. */
  lemma PartingSymmetric(p: Option<Parting>, q: Option<Parting>, a: seq<Position>, b: seq<Position>)
    requires IsParting(p, a, b) && IsParting(q, b, a)
    ensures p == q
  {
  }

  /** It is the length of what the two have in common at the beginning. */
  lemma PartingIsCommonPrefix(p: Option<Parting>, a: seq<Position>, b: seq<Position>, n: nat)
    requires IsParting(p, a, b) && n <= |a| && n <= |b|
    ensures SameKeys(a, b, n) <==> n <= if p.Some? then p.value.at else |a|
  {
  }

  lemma DeltasSymmetric(a: seq<Position>, b: seq<Position>, n: nat)
    requires n <= |a| && n <= |b|
    ensures Deltas(a, b, n) == Deltas(b, a, n)
  {
  }

  lemma {:induction false} SetChangesSymmetric(a: seq<Position>, b: seq<Position>, n: nat)
    requires n <= |a| && n <= |b|
    ensures SetChanges(a, b, n) == SetChanges(b, a, n)
  {
    if n > 0 {
      SetChangesSymmetric(a, b, n - 1);
    }
  }

  lemma TopDeltaSymmetric(a: seq<Position>, b: seq<Position>, n: nat, v: real)
    requires n <= |a| && n <= |b| && TopDelta(a, b, n, v)
    ensures TopDelta(b, a, n, v)
  {
    var i, t :| 0 <= i < n && t in a[i].top && t in b[i].top && v == Abs(a[i].top[t] - b[i].top[t]);
    assert v == Abs(b[i].top[t] - a[i].top[t]);
  }

  lemma PartingInside(p: Option<Parting>, a: seq<Position>, b: seq<Position>)
    requires IsParting(p, a, b)
    ensures p.Some? ==> p.value.at <= |a| && p.value.at <= |b|
    ensures p.None? ==> |a| == |b|
  {
  }

  /** Comparing is symmetric in the two runs, and there is one result. */
  lemma RowSymmetric(r: Row, q: Row, a: seq<Position>, b: seq<Position>)
    requires IsRow(r, a, b) && IsRow(q, b, a)
    ensures r == q
  {
    hide IsParting, IsTop, IsTops, Deltas, SetChanges, DistOf;
    PartingSymmetric(r.first, q.first, a, b);
    PartingInside(r.first, a, b);
    DeltasSymmetric(a, b, r.compared);
    SetChangesSymmetric(a, b, r.compared);
    DeltasSymmetric(a, b, Min(|a|, |b|));
    TopSymmetric(r.top, q.top, a, b, r.compared);
    TopsSymmetric(r.tops, q.tops, a, b, r.compared);
  }

  lemma {:induction false} TopCountSymmetric(a: seq<Position>, b: seq<Position>, n: nat, v: real)
    requires n <= |a| && n <= |b|
    ensures TopCount(a, b, n, v) == TopCount(b, a, n, v)
  {
    if n > 0 {
      TopCountSymmetric(a, b, n - 1, v);
      assert SharedWith(a[n - 1], b[n - 1], v) == SharedWith(b[n - 1], a[n - 1], v);
    }
  }

  lemma TopsSymmetric(s: multiset<real>, t: multiset<real>, a: seq<Position>, b: seq<Position>, n: nat)
    requires n <= |a| && n <= |b| && IsTops(s, a, b, n) && IsTops(t, b, a, n)
    ensures s == t
  {
    forall v
      ensures s[v] == t[v]
    {
      TopCountSymmetric(a, b, n, v);
    }
  }

  lemma TopSymmetric(s: Option<real>, t: Option<real>, a: seq<Position>, b: seq<Position>, n: nat)
    requires n <= |a| && n <= |b| && IsTop(s, a, b, n) && IsTop(t, b, a, n)
    ensures s == t
  {
    if s.Some? {
      TopDeltaSymmetric(a, b, n, s.value);
    }
    if t.Some? {
      TopDeltaSymmetric(b, a, n, t.value);
    }
  }
}
