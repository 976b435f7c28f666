/** How the copy-fidelity probe labels a path found in a tool call.

    The fuzzy matcher is not modelled: its answer is a parameter, any path of the corpus or none. */
module PathClassifier {
  import opened Options
  import opened EditDistance

  datatype Label =
    | Exact(nearest: string)
    | ExactDirectory(nearest: string)
    | Decoy(nearest: string)
    | Splice(nearest: string)
    | Slip(nearest: string, distance: int)
    | Other(closest: Option<string>)

  // ----- Paths as components

  function Split(s: string): (parts: seq<string>)
    ensures |parts| > 0
  {
    if s == "" then [""]
    else
      var rest := Split(s[1..]);
      if s[0] == '/' then [""] + rest else [[s[0]] + rest[0]] + rest[1..]
  }

  function Join(parts: seq<string>): string
    requires |parts| > 0
  {
    if |parts| == 1 then parts[0] else parts[0] + "/" + Join(parts[1..])
  }

  function Slashes(s: string): nat {
    if s == "" then 0 else (if s[0] == '/' then 1 else 0) + Slashes(s[1..])
  }

  /** d is a directory above p. */
  ghost predicate Above(d: string, p: string) {
    d + "/" <= p
  }

  lemma SlashesCons(c: char, s: string)
    ensures Slashes([c] + s) == (if c == '/' then 1 else 0) + Slashes(s)
  {
    assert ([c] + s)[1..] == s;
  }

  lemma JoinCons(x: string, xs: seq<string>)
    requires |xs| > 0
    ensures Join([x] + xs) == x + "/" + Join(xs)
  {
    assert ([x] + xs)[1..] == xs;
  }

  lemma CharInFront(c: char, x: string, y: string)
    ensures ([c] + x) + "/" + y == [c] + (x + "/" + y)
  {
  }

  lemma JoinGrown(c: char, x: string, xs: seq<string>)
    ensures Join([[c] + x] + xs) == [c] + Join([x] + xs)
  {
    hide Join;
    if xs == [] {
      assert [x] + xs == [x] && [[c] + x] + xs == [[c] + x];
      JoinOne(x);
      JoinOne([c] + x);
    } else {
      JoinCons(x, xs);
      JoinCons([c] + x, xs);
      CharInFront(c, x, Join(xs));
    }
  }

  lemma JoinOne(x: string)
    ensures Join([x]) == x
  {
  }

  lemma AboveCons(c: char, d: string, p: string)
    requires Above(d, p)
    ensures Above([c] + d, [c] + p)
  {
    assert ([c] + d) + "/" == [c] + (d + "/");
  }

  lemma {:induction false} JoinPrefixIsAbove(p: string, i: nat)
    requires 0 < i < |Split(p)|
    ensures Above(Join(Split(p)[..i]), p) && Slashes(Join(Split(p)[..i])) == i - 1
  {
    hide Slashes, Join, Above;
    var rest := Split(p[1..]);
    assert p == [p[0]] + p[1..];
    if p[0] == '/' {
      if i > 1 {
        JoinPrefixIsAbove(p[1..], i - 1);
        assert Split(p)[..i] == [""] + rest[..i - 1];
        JoinCons("", rest[..i - 1]);
        assert "" + "/" + Join(rest[..i - 1]) == ['/'] + Join(rest[..i - 1]);
        AboveCons('/', Join(rest[..i - 1]), p[1..]);
        SlashesCons('/', Join(rest[..i - 1]));
      } else {
        assert Split(p)[..i] == [""];
        JoinOne("");
        RootIsAbove(p);
      }
    } else {
      JoinPrefixIsAbove(p[1..], i);
      var x, xs := rest[0], rest[1..i];
      assert rest[..i] == [x] + xs && Split(p)[..i] == [[p[0]] + x] + xs;
      JoinGrown(p[0], x, xs);
      AboveCons(p[0], Join(rest[..i]), p[1..]);
      SlashesCons(p[0], Join(rest[..i]));
    }
  }

  lemma RootIsAbove(p: string)
    requires p != "" && p[0] == '/'
    ensures Above("", p) && Slashes("") == 0
  {
  }

  lemma {:induction false} AboveIsJoinPrefix(d: string, p: string)
    requires Above(d, p)
    ensures Slashes(d) + 1 < |Split(p)| && d == Join(Split(p)[..Slashes(d) + 1])
  {
    var parts, rest := Split(p), Split(p[1..]);
    if d == "" {
      assert p[0] == '/';
    } else {
      assert p[0] == d[0] && Above(d[1..], p[1..]);
      AboveIsJoinPrefix(d[1..], p[1..]);
      var i := Slashes(d[1..]) + 1;
      if d[0] == '/' {
        assert parts[..i + 1][1..] == rest[..i];
      } else {
        assert parts[..i][1..] == rest[..i][1..];
      }
      assert d == [d[0]] + d[1..];
    }
  }

  /** The directories collected from one path: all those above it except the empty one, "/" being
      above nothing but itself. */
  lemma DirectoriesOfPath(d: string, p: string)
    ensures (exists i :: 2 <= i < |Split(p)| && d == Join(Split(p)[..i])) <==> Above(d, p) && '/' in d
  {
    SlashesCount(d);
    if i :| 2 <= i < |Split(p)| && d == Join(Split(p)[..i]) {
      JoinPrefixIsAbove(p, i);
    }
    if Above(d, p) && '/' in d {
      AboveIsJoinPrefix(d, p);
      assert 2 <= Slashes(d) + 1 < |Split(p)|;
    }
  }

  lemma DirectoriesGrow(d: string, paths: seq<string>, p: string)
    ensures IsDirectory(d, paths + [p]) <==> IsDirectory(d, paths) || (Above(d, p) && '/' in d)
  {
    if IsDirectory(d, paths) {
      var q :| q in paths && Above(d, q);
      assert q in paths + [p];
    }
    assert p in paths + [p];
  }

  lemma {:induction false} SlashesCount(s: string)
    ensures Slashes(s) > 0 <==> '/' in s
  {
    if s != "" {
      SlashesCount(s[1..]);
    }
  }

  function StripSlashes(s: string): (r: string)
    ensures r <= s && (r == "" || r[|r| - 1] != '/')
    ensures forall i :: |r| <= i < |s| ==> s[i] == '/'
  {
    if s != "" && s[|s| - 1] == '/' then StripSlashes(s[..|s| - 1]) else s
  }

  // ----- The corpus

  class Corpus {
    var realPaths: seq<string>
    var decoys: seq<string>
    var realSet: set<string>
    var decoySet: set<string>
    var allPaths: seq<string>
    var dirSet: set<string>

    ghost predicate Valid()
      reads this
    {
      && realSet == (set p | p in realPaths)
      && decoySet == (set p | p in decoys)
      && allPaths == realPaths + decoys
      && forall d :: d in dirSet <==> IsDirectory(d, realPaths)
    }

    constructor (realPaths: seq<string>, decoys: seq<string>)
      ensures Valid() && this.realPaths == realPaths && this.decoys == decoys
    {
      this.realPaths, this.decoys := realPaths, decoys;
      realSet, decoySet := set p | p in realPaths, set p | p in decoys;
      allPaths := realPaths + decoys;
      dirSet := {};
      new;
      for n := 0 to |realPaths|
        invariant this.realPaths == realPaths && this.decoys == decoys && allPaths == realPaths + decoys
        invariant realSet == (set p | p in realPaths) && decoySet == (set p | p in decoys)
        invariant forall d :: d in dirSet <==> IsDirectory(d, realPaths[..n])
      {
        var parts := Split(realPaths[n]);
        ghost var before := dirSet;
        assert forall d :: d in before <==> IsDirectory(d, realPaths[..n]);
        var i := 2;
        while i < |parts|
          invariant 2 <= i
          invariant this.realPaths == realPaths && this.decoys == decoys && allPaths == realPaths + decoys
          invariant realSet == (set p | p in realPaths) && decoySet == (set p | p in decoys)
          invariant forall d :: d in dirSet <==>
                      d in before || exists k :: 2 <= k < i && k < |parts| && d == Join(parts[..k])
        {
          dirSet := dirSet + {Join(parts[..i])};
          i := i + 1;
        }
        assert realPaths[..n + 1] == realPaths[..n] + [realPaths[n]];
        forall d
          ensures d in dirSet <==> IsDirectory(d, realPaths[..n + 1])
        {
          assert d in dirSet
             <==> IsDirectory(d, realPaths[..n]) || exists k :: 2 <= k < |parts| && d == Join(parts[..k]);
          DirectoriesOfPath(d, realPaths[n]);
          DirectoriesGrow(d, realPaths[..n], realPaths[n]);
        }
      }
      assert realPaths[..|realPaths|] == realPaths;
    }

    /** The label, decided in the order the probe decides it. */
    method Classify(candidate: string, close: Option<string>) returns (verdict: Label)
      requires Valid()
      requires close.Some? ==> close.value in realPaths + decoys
      ensures Labelled(candidate, realPaths, decoys, close, verdict)
    {
      if candidate in realSet {
        return Exact(candidate);
      }
      if StripSlashes(candidate) in dirSet {
        return ExactDirectory(StripSlashes(candidate));
      }
      if candidate in decoySet {
        return Decoy(candidate);
      }
      var longest: Option<string> := None;
      for i := 0 to |allPaths|
        invariant longest.Some? ==> longest.value in allPaths && longest.value < candidate
        invariant forall k :: 0 <= k < i && allPaths[k] < candidate ==>
          longest.Some? && |allPaths[k]| <= |longest.value|
      {
        var p := allPaths[i];
        if p <= candidate && |candidate| > |p| {
          if longest.None? || |p| > |longest.value| {
            longest := Some(p);
          }
        }
      }
      if longest.Some? {
        return Splice(longest.value);
      }
      if close.Some? {
        DistanceZero(candidate, close.value);
        var d := Levenshtein(candidate, close.value, 6);
        if 1 <= d <= 3 {
          return Slip(close.value, d);
        }
      }
      return Other(close);
    }
  }

  ghost predicate IsDirectory(d: string, paths: seq<string>) {
    exists p :: p in paths && Above(d, p) && '/' in d
  }

  ghost predicate Extends(candidate: string, paths: seq<string>) {
    exists p :: p in paths && p < candidate
  }

  /** What each label claims about the candidate, without the order of the tests or the loop. */
  ghost predicate Labelled(candidate: string, realPaths: seq<string>, decoys: seq<string>, close: Option<string>,
                           verdict: Label) {
    var dir := StripSlashes(candidate);
    var all := realPaths + decoys;
    var known := candidate in realPaths || IsDirectory(dir, realPaths);
    match verdict
    case Exact(n) => n == candidate && candidate in realPaths
    case ExactDirectory(n) => n == dir && IsDirectory(dir, realPaths) && candidate !in realPaths
    case Decoy(n) => n == candidate && candidate in decoys && !known
    case Splice(n) =>
      && !known && candidate !in decoys
      && n in all && n < candidate
      && forall p :: p in all && p < candidate ==> |p| <= |n|
    case Slip(n, d) =>
      && !known && candidate !in decoys && !Extends(candidate, all)
      && close == Some(n) && d == Distance(candidate, n) && d <= 3
    case Other(c) =>
      && !known && candidate !in decoys && !Extends(candidate, all)
      && c == close && (close.Some? ==> Distance(candidate, close.value) > 3)
  }

  /** One label fits each candidate, so what Classify returns is fixed by Labelled; in particular the
      longest known prefix is one path however the corpus is ordered. */
  lemma LabelUnique(candidate: string, realPaths: seq<string>, decoys: seq<string>, close: Option<string>, l: Label,
                    m: Label)
    requires Labelled(candidate, realPaths, decoys, close, l) && Labelled(candidate, realPaths, decoys, close, m)
    ensures l == m
  {
    if l.Splice? && m.Splice? {
      assert l.nearest == candidate[..|l.nearest|] && m.nearest == candidate[..|m.nearest|];
    }
  }

  /** SLIP always means that one, two or three edits, and no fewer, separate the candidate from a path
      of the corpus, whatever the matcher answered. */
  lemma SlipMeansOneToThreeEdits(candidate: string, realPaths: seq<string>, decoys: seq<string>, close: Option<string>,
                                 l: Label)
    requires close.Some? ==> close.value in realPaths + decoys
    requires Labelled(candidate, realPaths, decoys, close, l) && l.Slip?
    ensures 1 <= l.distance <= 3 && l.nearest in realPaths + decoys && IsEditDistance(l.distance, candidate, l.nearest)
  {
    DistanceIsEditDistance(candidate, l.nearest);
    DistanceZero(candidate, l.nearest);
  }

  /** The documented meaning names a real path; the code searches the decoys too, so a slip may lie
      near no real path at all: "/p/x" slips from the decoy "/p/y" when "/p/abcde" is the real path. */
  lemma SlipMayBeNearADecoyOnly(dir: string, x: char, y: char, tail: string)
    requires x != y && x != '/' && |tail| >= 5 && tail[0] != x
    ensures Labelled(dir + [x], [dir + tail], [dir + [y]], Some(dir + [y]), Slip(dir + [y], 1))
    ensures forall p :: p in [dir + tail] ==> Distance(dir + [x], p) > 3
  {
    var c, r := dir + [x], dir + tail;
    OneApart(dir, x, y);
    assert !(c + "/" <= r) by {
      assert r[|dir|] != (c + "/")[|dir|];
    }
    FarPathSlips(c, r, dir + [y]);
  }

  lemma FarPathSlips(c: string, r: string, y: string)
    requires |c| == |y| && |r| > |c| + 3 && c != "" && c[|c| - 1] != '/'
    requires !Above(c, r) && Distance(c, y) == 1
    ensures Labelled(c, [r], [y], Some(y), Slip(y, 1))
    ensures forall p :: p in [r] ==> Distance(c, p) > 3
  {
    DistanceAtLeastLengthDifference(c, r);
    DistanceZero(c, y);
    assert [r] + [y] == [r, y];
    assert StripSlashes(c) == c;
  }

  lemma OneApart(s: string, x: char, y: char)
    requires x != y
    ensures Distance(s + [x], s + [y]) == 1
  {
    DistanceSelf(s + [x]);
    ReplaceLastMovesByOne(s + [x], s, y, x);
    DistanceZero(s + [x], s + [y]);
    assert (s + [x])[|s|] != (s + [y])[|s|];
  }

  // ----- When a slip is near a real path

  /** Every slip names a real path. */
  ghost predicate SlipsNameReal(realPaths: seq<string>, decoys: seq<string>) {
    forall c, n, d :: n in realPaths + decoys && Labelled(c, realPaths, decoys, Some(n), Slip(n, d)) ==> n in realPaths
  }

  /** Every slip is within three edits of a real path. */
  ghost predicate SlipsNearReal(realPaths: seq<string>, decoys: seq<string>) {
    forall c, n, d :: n in realPaths + decoys && Labelled(c, realPaths, decoys, Some(n), Slip(n, d)) ==>
                        NearSome(c, realPaths)
  }

  ghost predicate NearSome(c: string, paths: seq<string>) {
    exists r :: r in paths && Distance(c, r) <= 3
  }

  /** No path begins with x, and none is empty. */
  ghost predicate BeginsNone(x: char, paths: seq<string>) {
    forall p :: p in paths ==> p != "" && p[0] != x
  }

  lemma {:induction false} FirstStays(s: string)
    requires s != "" && s[0] != '/'
    ensures StripSlashes(s) != "" && StripSlashes(s)[0] == s[0]
  {
    if s[|s| - 1] == '/' {
      FirstStays(s[..|s| - 1]);
    }
  }

  /** A candidate that begins like no path, close to one, is a slip from it. */
  lemma FreshSlip(c: string, n: string, realPaths: seq<string>, decoys: seq<string>)
    requires c != "" && c[0] != '/' && BeginsNone(c[0], realPaths + decoys) && Distance(c, n) <= 3
    ensures Labelled(c, realPaths, decoys, Some(n), Slip(n, Distance(c, n)))
  {
    FirstStays(c);
    var all := realPaths + decoys;
    forall p | p in all
      ensures p != c && !(p < c) && !Above(StripSlashes(c), p)
    {
      assert p[0] != c[0] && (StripSlashes(c) + "/")[0] == c[0];
    }
    assert forall p :: p in realPaths || p in decoys ==> p in all;
  }

  lemma PutInFront(x: char, s: string)
    ensures Distance([x] + s, s) <= 1
  {
    hide Distance;
    InsertMovesByOne(s, "", x, s);
    assert "" + [x] + s == [x] + s && "" + s == s;
    DistanceSelf(s);
    DistanceSymmetric(s, [x] + s);
  }

  /** Every slip names a real path exactly when every decoy is one. */
  lemma SlipsNameRealExactly(x: char, realPaths: seq<string>, decoys: seq<string>)
    requires x != '/' && BeginsNone(x, realPaths + decoys)
    ensures SlipsNameReal(realPaths, decoys) <==> forall p :: p in decoys ==> p in realPaths
  {
    hide Labelled, Distance;
    if SlipsNameReal(realPaths, decoys) {
      forall p | p in decoys
        ensures p in realPaths
      {
        PutInFront(x, p);
        FreshSlip([x] + p, p, realPaths, decoys);
        assert p in realPaths + decoys;
      }
    }
  }

  /** A slip of d edits from a decoy is within three edits of each real path that is no more than 3 - d from it. */
  lemma NearTheDecoyIsNear(c: string, n: string, r: string)
    requires Distance(c, n) + Distance(n, r) <= 3
    ensures Distance(c, r) <= 3
  {
    DistanceTriangle(c, n, r);
  }

  // ----- Letters that no real path has

  /** The two have no letter in common. */
  ghost predicate Strange(a: string, b: string) {
    forall c :: c in a ==> c !in b
  }

  lemma StrangeParts(front: string, r: string)
    requires Strange(front, r)
    ensures r != "" ==> Strange(front, Init(r))
    ensures front != "" ==> Strange(Init(front), r)
    ensures front != "" && r != "" ==> Strange(Init(front), Init(r)) && Last(front) != Last(r)
  {
    assert front != "" ==> Last(front) in front;
    assert r != "" ==> Last(r) in r;
  }

  /** Strange letters in front cost an edit each. */
  lemma {:induction false} StrangeCosts(front: string, n: string, r: string)
    requires Strange(front, r)
    ensures Distance(front + n, r) >= |front|
    decreases |front| + |n| + |r|
  {
    hide Strange;
    var a := front + n;
    StrangeParts(front, r);
    if a != "" && r != "" {
      if n == "" {
        assert a == front && Init(front) + n == Init(front);
        StrangeCosts(Init(front), n, r);
        StrangeCosts(front, n, Init(r));
        StrangeCosts(Init(front), n, Init(r));
      } else {
        assert Init(a) == front + Init(n);
        StrangeCosts(front, Init(n), r);
        StrangeCosts(front, n, Init(r));
        StrangeCosts(front, Init(n), Init(r));
      }
    }
  }

  lemma {:induction false} StrangeAlone(front: string, r: string)
    requires Strange(front, r)
    ensures Distance(front, r) >= |r|
    decreases |front| + |r|
  {
    hide Strange;
    StrangeParts(front, r);
    if front != "" && r != "" {
      StrangeAlone(Init(front), r);
      StrangeAlone(front, Init(r));
      StrangeAlone(Init(front), Init(r));
    }
  }

  /** r is n with at most k letters in front. */
  ghost predicate Tails(n: string, r: string, k: nat) {
    |n| <= |r| <= |n| + k && r[|r| - |n|..] == n
  }

  /** With strange letters in front, as many edits reach only what ends in the rest. */
  lemma {:induction false} NearBehindStrange(front: string, n: string, r: string)
    requires Strange(front, r) && Distance(front + n, r) <= |front|
    ensures Tails(n, r, |front|)
    decreases |n|
  {
    hide Strange, Distance;
    if n == "" {
      assert front + n == front;
      StrangeAlone(front, r);
    } else if r == "" {
      EmptyTarget(front + n);
    } else {
      var a := front + n;
      assert Init(a) == front + Init(n) && Last(a) == Last(n);
      DistanceStep(a, r);
      StrangeParts(front, r);
      StrangeCosts(front, Init(n), r);
      StrangeCosts(front, n, Init(r));
      StrangeCosts(front, Init(n), Init(r));
      NearBehindStrange(front, Init(n), Init(r));
      assert r == Init(r) + [Last(r)] && n == Init(n) + [Last(n)];
    }
  }

  lemma ThreeInFront(x: char, n: string)
    ensures Distance([x, x, x] + n, n) <= 3
  {
    var a, b, c := [x] + n, [x, x] + n, [x, x, x] + n;
    assert b == [x] + a && c == [x] + b;
    PutInFront(x, n);
    PutInFront(x, a);
    PutInFront(x, b);
    DistanceTriangle(c, b, a);
    DistanceTriangle(c, a, n);
  }

  /** For every slip to be near a real path, each decoy must be a real path but for at most three letters that
      the real path has in front. */
  lemma SlipsNearRealNeed(x: char, realPaths: seq<string>, decoys: seq<string>)
    requires x != '/' && BeginsNone(x, realPaths + decoys) && forall r :: r in realPaths ==> x !in r
    requires SlipsNearReal(realPaths, decoys)
    ensures forall n :: n in decoys ==> exists r :: r in realPaths && Tails(n, r, 3)
  {
    hide Labelled, Distance, Tails;
    forall n | n in decoys
      ensures exists r :: r in realPaths && Tails(n, r, 3)
    {
      var c := [x, x, x] + n;
      ThreeInFront(x, n);
      FreshSlip(c, n, realPaths, decoys);
      assert n in realPaths + decoys && NearSome(c, realPaths);
      var r :| r in realPaths && Distance(c, r) <= 3;
      NearBehindStrange([x, x, x], n, r);
    }
  }

  /** When no decoy is a real path cut short in front by one to three letters: every slip is within three edits
      of a real path exactly when every decoy is a real path. */
  lemma SlipsNearRealExactly(x: char, realPaths: seq<string>, decoys: seq<string>)
    requires x != '/' && BeginsNone(x, realPaths + decoys) && forall r :: r in realPaths ==> x !in r
    requires forall n, r :: n in decoys && r in realPaths && Tails(n, r, 3) ==> n == r
    ensures SlipsNearReal(realPaths, decoys) <==> forall p :: p in decoys ==> p in realPaths
  {
    hide Distance, Tails;
    if SlipsNearReal(realPaths, decoys) {
      SlipsNearRealNeed(x, realPaths, decoys);
    }
  }
}
