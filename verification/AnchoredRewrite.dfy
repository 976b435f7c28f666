/** Patching a source file by exact-text anchors: each edit replaces the first occurrence of its anchor, one
    edit after the other, after every anchor has been counted once in the file as it was. */
module AnchoredRewrite {
  import opened Options

  datatype Edit = Edit(anchor: string, text: string)

  // ----- Occurrences

  predicate Occurs(s: string, p: string, i: int) {
    0 <= i && i + |p| <= |s| && s[i..i + |p|] == p
  }

  /** The first occurrence from i on. */
  function FindFrom(s: string, p: string, i: nat): (r: Option<nat>)
    ensures r.Some? ==> i <= r.value && Occurs(s, p, r.value) && forall k :: i <= k < r.value ==> !Occurs(s, p, k)
    ensures r.None? ==> forall k :: i <= k ==> !Occurs(s, p, k)
    decreases |s| - i
  {
    if i + |p| > |s| then None
    else if Occurs(s, p, i) then Some(i)
    else FindFrom(s, p, i + 1)
  }

  /** Occurrences counted from the left without overlap; the empty text is counted at every place. */
  function CountFrom(s: string, p: string, i: nat): nat
    requires i <= |s|
    decreases |s| - i
  {
    if p == "" then |s| - i + 1
    else
      var f := FindFrom(s, p, i);
      if f.None? then 0 else 1 + CountFrom(s, p, f.value + |p|)
  }

  function Count(s: string, p: string): nat { CountFrom(s, p, 0) }

  /** The empty text is counted once in the empty text only: everywhere else it has a place on either side of each
      letter. */
  lemma EmptyCounted(s: string)
    ensures Count(s, "") == |s| + 1 && (Count(s, "") == 1 <==> s == "")
  {
  }

  ghost predicate ExactlyOnce(s: string, p: string) {
    exists f :: Occurs(s, p, f) && forall k :: Occurs(s, p, k) ==> k == f
  }

  /** Counted once: there is a first occurrence, and any other begins inside it. */
  lemma CountedOnce(s: string, p: string)
    requires p != ""
    ensures Count(s, p) == 1 <==> exists f: nat :: Occurs(s, p, f) && forall k :: Occurs(s, p, k) ==> f <= k < f + |p|
  {
    var first := FindFrom(s, p, 0);
    if first.Some? {
      var f := first.value;
      var next := FindFrom(s, p, f + |p|);
      if next.None? {
        assert CountFrom(s, p, f + |p|) == 0 && Count(s, p) == 1;
        assert Occurs(s, p, f) && forall k :: Occurs(s, p, k) ==> f <= k < f + |p|;
      } else {
        assert CountFrom(s, p, f + |p|) >= 1 && Count(s, p) >= 2;
        forall g: nat | Occurs(s, p, g)
          ensures exists k :: Occurs(s, p, k) && !(g <= k < g + |p|)
        {
          assert Occurs(s, p, f) && Occurs(s, p, next.value);
        }
      }
    }
  }

  /** No beginning of it is also an end of it. */
  ghost predicate Borderless(p: string) {
    forall d :: 0 < d < |p| ==> p[d..] != p[..|p| - d]
  }

  /** For an anchor none of whose beginnings is also an end, counting finds what is there. */
  lemma CountIsExact(s: string, p: string)
    requires p != "" && Borderless(p)
    ensures Count(s, p) == 1 <==> ExactlyOnce(s, p)
  {
    CountedOnce(s, p);
    if Count(s, p) == 1 {
      var f: nat :| Occurs(s, p, f) && forall k :: Occurs(s, p, k) ==> f <= k < f + |p|;
      forall k | Occurs(s, p, k)
        ensures k == f
      {
        Overlap(s, p, f, k);
      }
    }
  }

  /** Two occurrences that overlap make a border. */
  lemma Overlap(s: string, p: string, f: nat, k: int)
    requires Occurs(s, p, f) && Occurs(s, p, k) && f <= k < f + |p|
    ensures p[k - f..] == p[..|p| - (k - f)]
  {
    var d := k - f;
    assert p[d..] == s[f..f + |p|][d..] == s[k..f + |p|];
    assert p[..|p| - d] == s[k..k + |p|][..|p| - d] == s[k..f + |p|];
  }

  // ----- One edit after the other

  function ReplaceFirst(s: string, e: Edit): string {
    var f := FindFrom(s, e.anchor, 0);
    if f.None? then s else s[..f.value] + e.text + s[f.value + |e.anchor|..]
  }

  function Sequential(s: string, edits: seq<Edit>): string {
    if edits == [] then s else ReplaceFirst(Sequential(s, edits[..|edits| - 1]), edits[|edits| - 1])
  }

  // ----- All edits at once

  datatype Piece = Letter(c: char) | Site(e: Edit)

  function AnchorAt(s: string, edits: seq<Edit>, k: nat): (r: Option<Edit>)
    ensures r.Some? ==> r.value in edits && Occurs(s, r.value.anchor, k)
    ensures r.None? ==> forall e :: e in edits ==> !Occurs(s, e.anchor, k)
  {
    if edits == [] then None
    else if Occurs(s, edits[0].anchor, k) then Some(edits[0])
    else AnchorAt(s, edits[1..], k)
  }

  ghost predicate Anchors(edits: seq<Edit>) {
    forall e :: e in edits ==> e.anchor != ""
  }

  /** The text read from left to right as anchors and what is between them. */
  ghost function Scan(s: string, edits: seq<Edit>, k: nat): seq<Piece>
    requires Anchors(edits)
    decreases |s| - k
  {
    if k >= |s| then []
    else
      var e := AnchorAt(s, edits, k);
      if e.Some? then [Site(e.value)] + Scan(s, edits, k + |e.value.anchor|)
      else [Letter(s[k])] + Scan(s, edits, k + 1)
  }

  /** The text with the edits of a set made. */
  function Render(ps: seq<Piece>, made: set<Edit>): string {
    if ps == [] then ""
    else
      Render(ps[..|ps| - 1], made) + Shown(ps[|ps| - 1], made)
  }

  function Shown(p: Piece, made: set<Edit>): string {
    if p.Letter? then [p.c] else if p.e in made then p.e.text else p.e.anchor
  }

  ghost function Elements(edits: seq<Edit>): set<Edit> { set e | e in edits }

  /** Every anchor replaced where it stands, in one reading from left to right. */
  ghost function Simultaneous(s: string, edits: seq<Edit>): string
    requires Anchors(edits)
  {
    Render(Scan(s, edits, 0), Elements(edits))
  }

  lemma {:induction false} RenderAppend(a: seq<Piece>, b: seq<Piece>, made: set<Edit>)
    ensures Render(a + b, made) == Render(a, made) + Render(b, made)
  {
    hide Shown;
    if b == [] {
      assert a + b == a;
    } else {
      assert (a + b)[..|a + b| - 1] == a + b[..|b| - 1];
      RenderAppend(a, b[..|b| - 1], made);
    }
  }

  lemma RenderOne(p: Piece, made: set<Edit>)
    ensures Render([p], made) == Shown(p, made)
  {
    assert [p][..0] == [];
  }

  lemma RenderFirst(p: Piece, rest: seq<Piece>, made: set<Edit>)
    ensures Render([p] + rest, made) == Shown(p, made) + Render(rest, made)
  {
    hide Shown;
    RenderAppend([p], rest, made);
    RenderOne(p, made);
  }

  lemma RenderNone(made: set<Edit>)
    ensures Render([], made) == ""
  {
  }

  lemma {:induction false} RenderUnmade(s: string, edits: seq<Edit>, k: nat)
    requires Anchors(edits) && k <= |s|
    ensures Render(Scan(s, edits, k), {}) == s[k..]
    decreases |s| - k
  {
    hide Render;
    RenderNone({});
    if k < |s| {
      var e := AnchorAt(s, edits, k);
      var n := if e.Some? then k + |e.value.anchor| else k + 1;
      RenderUnmade(s, edits, n);
      RenderFirst(if e.Some? then Site(e.value) else Letter(s[k]), Scan(s, edits, n), {});
      assert s[k..n] + s[n..] == s[k..];
    }
  }

  // ----- Sites

  ghost predicate NoOverlap(s: string, edits: seq<Edit>) {
    forall a, b, i, j :: a in edits && b in edits && a != b && Occurs(s, a.anchor, i) && Occurs(s, b.anchor, j) ==>
                           i + |a.anchor| <= j || j + |b.anchor| <= i
  }

  ghost predicate AllOnce(s: string, edits: seq<Edit>) {
    forall e :: e in edits ==> ExactlyOnce(s, e.anchor)
  }

  ghost predicate OneSite(ps: seq<Piece>, e: Edit) {
    exists i :: 0 <= i < |ps| && ps[i] == Site(e) && Site(e) !in ps[..i] && Site(e) !in ps[i + 1..]
  }

  /** Where a reading goes on after k. */
  ghost function Next(s: string, edits: seq<Edit>, k: nat): nat
  {
    var at := AnchorAt(s, edits, k);
    if at.Some? then k + |at.value.anchor| else k + 1
  }

  /** An anchor is not skipped, whatever is met on the way. */
  lemma NotSkipped(s: string, edits: seq<Edit>, k: nat, e: Edit, f: nat)
    requires Anchors(edits) && AllOnce(s, edits) && NoOverlap(s, edits) && e in edits && Occurs(s, e.anchor, f)
    ensures k == f ==> AnchorAt(s, edits, k) == Some(e)
    ensures AnchorAt(s, edits, k) == Some(e) ==> k == f
    ensures k < f ==> Next(s, edits, k) <= f
    ensures k < Next(s, edits, k)
  {
    var at := AnchorAt(s, edits, k);
    assert e.anchor != "";
    if at.Some? {
      assert at.value in edits && at.value.anchor != "";
    }
    var g :| Occurs(s, e.anchor, g) && forall i :: Occurs(s, e.anchor, i) ==> i == g;
  }

  lemma SiteFirst(p: Piece, rest: seq<Piece>, e: Edit)
    ensures p != Site(e) && OneSite(rest, e) ==> OneSite([p] + rest, e)
    ensures p == Site(e) && Site(e) !in rest ==> OneSite([p] + rest, e)
  {
    var ps := [p] + rest;
    assert ps[1..] == rest && ps[..0] == [];
    if p != Site(e) && OneSite(rest, e) {
      var i :| 0 <= i < |rest| && rest[i] == Site(e) && Site(e) !in rest[..i] && Site(e) !in rest[i + 1..];
      assert ps[i + 1] == Site(e) && ps[..i + 1] == [p] + rest[..i] && ps[i + 2..] == rest[i + 1..];
    }
  }

  /** From k on, an anchor is met once when it stands there, and not at all when it stands before. */
  lemma {:induction false} ScanMeets(s: string, edits: seq<Edit>, k: nat, e: Edit, f: nat)
    requires Anchors(edits) && AllOnce(s, edits) && NoOverlap(s, edits) && e in edits && Occurs(s, e.anchor, f)
    ensures if f >= k then OneSite(Scan(s, edits, k), e) else Site(e) !in Scan(s, edits, k)
    decreases |s| - k
  {
    hide OneSite, NoOverlap, AllOnce;
    NotSkipped(s, edits, k, e, f);
    if k < |s| {
      var at, n := AnchorAt(s, edits, k), Next(s, edits, k);
      ScanMeets(s, edits, n, e, f);
      SiteFirst(if at.Some? then Site(at.value) else Letter(s[k]), Scan(s, edits, n), e);
    }
  }

  lemma ShownUnaffected(p: Piece, made: set<Edit>, e: Edit)
    requires p != Site(e)
    ensures Shown(p, made + {e}) == Shown(p, made)
  {
  }

  lemma {:induction false} RenderUnaffected(ps: seq<Piece>, made: set<Edit>, e: Edit)
    requires Site(e) !in ps
    ensures Render(ps, made + {e}) == Render(ps, made)
  {
    hide Shown;
    if ps != [] {
      ShownUnaffected(ps[|ps| - 1], made, e);
    }
    if ps != [] {
      RenderUnaffected(ps[..|ps| - 1], made, e);
    }
  }

  /** One more edit changes the text at one place, from the anchor to the replacement. */
  lemma RenderStep(ps: seq<Piece>, made: set<Edit>, e: Edit) returns (i: nat, a: string, b: string)
    requires OneSite(ps, e) && e !in made
    ensures i < |ps| && ps[i] == Site(e) && a == Render(ps[..i], made) && b == Render(ps[i + 1..], made)
    ensures Render(ps, made) == a + e.anchor + b && Render(ps, made + {e}) == a + e.text + b
  {
    i :| 0 <= i < |ps| && ps[i] == Site(e) && Site(e) !in ps[..i] && Site(e) !in ps[i + 1..];
    var front, back := ps[..i], ps[i + 1..];
    assert ps == front + [Site(e)] + back;
    a, b := Render(front, made), Render(back, made);
    RenderUnaffected(front, made, e);
    RenderUnaffected(back, made, e);
    RenderAppend(front, [Site(e)], made);
    RenderAppend(front + [Site(e)], back, made);
    RenderAppend(front, [Site(e)], made + {e});
    RenderAppend(front + [Site(e)], back, made + {e});
    RenderOne(Site(e), made);
    RenderOne(Site(e), made + {e});
  }

  // ----- Any order

  ghost predicate AtMostOnce(s: string, p: string) {
    forall i, j :: Occurs(s, p, i) && Occurs(s, p, j) ==> i == j
  }

  /** Whichever edits have been made, the anchor of another stands at one place only. */
  ghost predicate NeverAmbiguous(s: string, edits: seq<Edit>)
    requires Anchors(edits)
  {
    forall made: set<Edit>, e: Edit :: made <= Elements(edits) && e in edits && e !in made ==>
                                         AtMostOnce(Render(Scan(s, edits, 0), made), e.anchor)
  }

  ghost predicate Anchored(s: string, edits: seq<Edit>) {
    Anchors(edits) && AllOnce(s, edits) && NoOverlap(s, edits)
  }

  ghost predicate DistinctEdits(order: seq<Edit>) {
    forall i, j :: 0 <= i < j < |order| ==> order[i] != order[j]
  }

  lemma EverySite(s: string, edits: seq<Edit>, e: Edit)
    requires Anchored(s, edits) && e in edits
    ensures OneSite(Scan(s, edits, 0), e)
  {
    assert ExactlyOnce(s, e.anchor);
    var f :| Occurs(s, e.anchor, f);
    ScanMeets(s, edits, 0, e, f);
  }

  lemma FoundThere(a: string, e: Edit, b: string)
    requires AtMostOnce(a + e.anchor + b, e.anchor)
    ensures ReplaceFirst(a + e.anchor + b, e) == a + e.text + b
  {
    var s := a + e.anchor + b;
    assert s[|a|..|a| + |e.anchor|] == e.anchor;
    assert Occurs(s, e.anchor, |a|);
    assert s[..|a|] == a && s[|a| + |e.anchor|..] == b;
  }

  lemma {:induction false} SequentialIsRendered(s: string, edits: seq<Edit>, order: seq<Edit>)
    requires Anchored(s, edits) && NeverAmbiguous(s, edits) && DistinctEdits(order)
    requires Elements(order) <= Elements(edits)
    ensures Sequential(s, order) == Render(Scan(s, edits, 0), Elements(order))
  {
    var ps := Scan(s, edits, 0);
    if order == [] {
      RenderUnmade(s, edits, 0);
      assert Elements(order) == {};
    } else {
      var p, e := order[..|order| - 1], order[|order| - 1];
      assert order == p + [e];
      assert Elements(order) == Elements(p) + {e};
      SequentialIsRendered(s, edits, p);
      EverySite(s, edits, e);
      var _, a, b := RenderStep(ps, Elements(p), e);
      FoundThere(a, e, b);
    }
  }

  /** One after the other in any order, the edits make the text that replacing every anchor at once makes. */
  lemma AnyOrder(s: string, edits: seq<Edit>, order: seq<Edit>)
    requires Anchored(s, edits) && NeverAmbiguous(s, edits) && DistinctEdits(order)
    requires Elements(order) == Elements(edits)
    ensures Sequential(s, order) == Simultaneous(s, edits)
  {
    SequentialIsRendered(s, edits, order);
  }

  // ----- A check on the edits and the text beside their sites

  /** Laid d places after the beginning of t, p agrees with t wherever both are. */
  ghost predicate Agrees(p: string, t: string, d: int) {
    forall x :: 0 <= x < |t| && d <= x < d + |p| ==> t[x] == p[x - d]
  }

  ghost predicate AllLetters(ps: seq<Piece>) {
    forall k :: 0 <= k < |ps| ==> ps[k].Letter?
  }

  /** The part of p that sticks out before the piece at i, where p begins d places after it, meets the beginning
      of the file or another letter, x places before the piece, with nothing but letters between. */
  ghost predicate ClashesBefore(ps: seq<Piece>, i: nat, p: string, d: int, x: int)
    requires i < |ps| && -|p| < d
  {
    1 <= x <= -d && if x <= i then AllLetters(ps[i - x..i]) && ps[i - x].c != p[-d - x] else AllLetters(ps[..i])
  }

  /** The same of the part that sticks out behind t. */
  ghost predicate ClashesBehind(ps: seq<Piece>, i: nat, p: string, t: string, d: int, x: int)
    requires i < |ps| && d < |t|
  {
    && 0 <= x < d + |p| - |t|
    && if x < |ps| - i - 1 then AllLetters(ps[i + 1..i + 2 + x]) && ps[i + 1 + x].c != p[|t| - d + x]
       else AllLetters(ps[i + 1..])
  }

  /** However an anchor is laid over the text at another edit's site, it disagrees with that text or with the
      file beside the site. */
  ghost predicate Guarded(ps: seq<Piece>, edits: seq<Edit>) {
    forall i, a, d :: 0 <= i < |ps| && ps[i].Site? && a in edits && a != ps[i].e
                      && -|a.anchor| < d < |ps[i].e.text| && Agrees(a.anchor, ps[i].e.text, d) ==>
                        Clashes(ps, i, a.anchor, ps[i].e.text, d)
  }

  ghost predicate Clashes(ps: seq<Piece>, i: nat, p: string, t: string, d: int)
    requires i < |ps| && -|p| < d < |t|
  {
    exists x :: ClashesBefore(ps, i, p, d, x) || ClashesBehind(ps, i, p, t, d, x)
  }

  lemma {:induction false} RenderLetters(ps: seq<Piece>, made: set<Edit>)
    requires AllLetters(ps)
    ensures |Render(ps, made)| == |ps| && forall k :: 0 <= k < |ps| ==> Render(ps, made)[k] == ps[k].c
  {
    if ps != [] {
      RenderLetters(ps[..|ps| - 1], made);
    }
  }

  lemma NothingBefore(ps: seq<Piece>, i: nat, made: set<Edit>, p: string, d: int, x: int, rest: string)
    requires i < |ps| && -|p| < d && ClashesBefore(ps, i, p, d, x)
    ensures !Occurs(Render(ps[..i], made) + rest, p, |Render(ps[..i], made)| + d)
  {
    hide Render, Occurs;
    var a := Render(ps[..i], made);
    if x <= i {
      var front, run := ps[..i - x], ps[i - x..i];
      assert ps[..i] == front + run;
      RenderAppend(front, run, made);
      RenderLetters(run, made);
      assert a[|a| - x] == run[0].c;
      NotThere(a + rest, p, |a| + d, -d - x);
    } else {
      RenderLetters(ps[..i], made);
      OutOfText(a + rest, p, |a| + d);
    }
  }

  lemma NotThere(s: string, p: string, q: int, k: nat)
    requires k < |p| && 0 <= q + k < |s| && s[q + k] != p[k]
    ensures !Occurs(s, p, q)
  {
    assert 0 <= q && q + |p| <= |s| ==> s[q..q + |p|][k] == s[q + k];
  }

  lemma OutOfText(s: string, p: string, q: int)
    requires q < 0 || q + |p| > |s|
    ensures !Occurs(s, p, q)
  {
  }

  lemma NothingBehind(ps: seq<Piece>, i: nat, made: set<Edit>, p: string, t: string, d: int, x: int, front: string)
    requires i < |ps| && d < |t| && ClashesBehind(ps, i, p, t, d, x)
    ensures !Occurs(front + t + Render(ps[i + 1..], made), p, |front| + d)
  {
    hide Render, Occurs;
    var b := Render(ps[i + 1..], made);
    var s := front + t + b;
    if x < |ps| - i - 1 {
      var run, back := ps[i + 1..i + 2 + x], ps[i + 2 + x..];
      assert ps[i + 1..] == run + back;
      RenderAppend(run, back, made);
      RenderLetters(run, made);
      assert b[x] == run[x].c && s[|front| + |t| + x] == b[x];
      NotThere(s, p, |front| + d, |t| - d + x);
    } else {
      RenderLetters(ps[i + 1..], made);
      OutOfText(s, p, |front| + d);
    }
  }

  /** An anchor is nowhere over the replacement at another edit's site. */
  lemma Avoids(ps: seq<Piece>, i: nat, made: set<Edit>, edits: seq<Edit>, e: Edit, q: int)
    requires Guarded(ps, edits) && e in edits && i < |ps| && ps[i].Site? && ps[i].e != e
    requires Occurs(Render(ps[..i], made) + ps[i].e.text + Render(ps[i + 1..], made), e.anchor, q)
    ensures q + |e.anchor| <= |Render(ps[..i], made)| || |Render(ps[..i], made)| + |ps[i].e.text| <= q
  {
    hide Render;
    var a, t, b, p := Render(ps[..i], made), ps[i].e.text, Render(ps[i + 1..], made), e.anchor;
    var s, d := a + t + b, q - |a|;
    if -|p| < d < |t| {
      forall x | 0 <= x < |t| && d <= x < d + |p|
        ensures t[x] == p[x - d]
      {
        assert s[|a| + x] == t[x] && s[q..q + |p|][x - d] == s[|a| + x];
      }
      assert Agrees(p, t, d) && Clashes(ps, i, p, t, d);
      var x :| ClashesBefore(ps, i, p, d, x) || ClashesBehind(ps, i, p, t, d, x);
      if ClashesBefore(ps, i, p, d, x) {
        assert a + (t + b) == s;
        NothingBefore(ps, i, made, p, d, x, t + b);
      } else {
        NothingBehind(ps, i, made, p, t, d, x, a);
      }
    }
  }

  /** An occurrence beside a replacement was there before it. */
  lemma WasThere(a: string, was: string, t: string, b: string, p: string, q: int)
    requires Occurs(a + t + b, p, q) && (q + |p| <= |a| || |a| + |t| <= q)
    ensures Occurs(a + was + b, p, if q + |p| <= |a| then q else q - |t| + |was|)
  {
  }

  lemma OnceKept(a: string, was: string, t: string, b: string, p: string)
    requires AtMostOnce(a + was + b, p) && p != ""
    requires forall q :: Occurs(a + t + b, p, q) ==> q + |p| <= |a| || |a| + |t| <= q
    ensures AtMostOnce(a + t + b, p)
  {
    forall i, j | Occurs(a + t + b, p, i) && Occurs(a + t + b, p, j)
      ensures i == j
    {
      WasThere(a, was, t, b, p, i);
      WasThere(a, was, t, b, p, j);
    }
  }

  lemma {:induction false} RenderedOnce(s: string, edits: seq<Edit>, made: set<Edit>, e: Edit)
    requires Anchored(s, edits) && Guarded(Scan(s, edits, 0), edits) && made <= Elements(edits) && e in edits
    requires e !in made
    ensures AtMostOnce(Render(Scan(s, edits, 0), made), e.anchor)
    decreases made
  {
    hide Guarded, Render, Scan;
    var ps := Scan(s, edits, 0);
    if made == {} {
      RenderUnmade(s, edits, 0);
      assert ExactlyOnce(s, e.anchor);
    } else {
      var x :| x in made;
      var less := made - {x};
      RenderedOnce(s, edits, less, e);
      EverySite(s, edits, x);
      var i, a, b := RenderStep(ps, less, x);
      assert less + {x} == made;
      forall q | Occurs(a + x.text + b, e.anchor, q)
        ensures q + |e.anchor| <= |a| || |a| + |x.text| <= q
      {
        Avoids(ps, i, less, edits, e, q);
      }
      OnceKept(a, x.anchor, x.text, b, e.anchor);
    }
  }

  /** Edits that are guarded where they stand never make one another ambiguous, whichever of them are made. */
  lemma GuardedIsEnough(s: string, edits: seq<Edit>)
    requires Anchored(s, edits) && Guarded(Scan(s, edits, 0), edits)
    ensures NeverAmbiguous(s, edits)
  {
    hide Anchored, Guarded, AtMostOnce;
    assert Anchors(edits) by { AnchoredHasAnchors(s, edits); }
    forall made: set<Edit>, e: Edit | made <= Elements(edits) && e in edits && e !in made
      ensures AtMostOnce(Render(Scan(s, edits, 0), made), e.anchor)
    {
      RenderedOnce(s, edits, made, e);
    }
  }

  lemma AnchoredHasAnchors(s: string, edits: seq<Edit>)
    requires Anchored(s, edits)
    ensures Anchors(edits)
  {
  }

  lemma ReplaceWhere(s: string, e: Edit, f: nat)
    requires Occurs(s, e.anchor, f) && forall k :: 0 <= k < f ==> !Occurs(s, e.anchor, k)
    ensures ReplaceFirst(s, e) == s[..f] + e.text + s[f + |e.anchor|..]
  {
    assert FindFrom(s, e.anchor, 0) == Some(f);
  }

  lemma OccursChar(s: string, c: char, i: nat)
    requires i < |s|
    ensures Occurs(s, [c], i) <==> s[i] == c
  {
    assert s[i..i + 1] == [s[i]];
  }

  lemma ReplaceFront(c: char, t: string, rest: string)
    ensures ReplaceFirst([c] + rest, Edit([c], t)) == t + rest
  {
    hide Occurs, FindFrom, ReplaceFirst;
    var s := [c] + rest;
    OccursChar(s, c, 0);
    ReplaceWhere(s, Edit([c], t), 0);
    assert s[..0] + t + s[1..] == t + rest;
  }

  lemma ReplaceSecond(b: char, c: char, t: string)
    requires b != c
    ensures ReplaceFirst([b, c], Edit([c], t)) == [b] + t
  {
    hide Occurs, FindFrom, ReplaceFirst;
    OccursChar([b, c], c, 0);
    OccursChar([b, c], c, 1);
    ReplaceWhere([b, c], Edit([c], t), 1);
    assert [b, c][..1] + t + [b, c][2..] == [b] + t;
  }

  lemma OneMoreEdit(s: string, edits: seq<Edit>, e: Edit)
    ensures Sequential(s, edits + [e]) == ReplaceFirst(Sequential(s, edits), e)
  {
    assert (edits + [e])[..|edits|] == edits;
  }

  lemma NoEdit(s: string)
    ensures Sequential(s, []) == s
  {
  }

  lemma TwoEdits(s: string, e: Edit, f: Edit)
    ensures Sequential(s, [e, f]) == ReplaceFirst(ReplaceFirst(s, e), f)
  {
    hide *;
    NoEdit(s);
    OneMoreEdit(s, [], e);
    OneMoreEdit(s, [e], f);
    assert [] + [e] == [e] && [e] + [f] == [e, f];
  }

  lemma CountOfTwo(x: char, y: char)
    requires x != y
    ensures Count([x, y], [x]) == 1 && Count([x, y], [y]) == 1
  {
    hide Occurs, Count;
    var s := [x, y];
    forall c | c in s
      ensures Count(s, [c]) == 1
    {
      CountOfOne(s, c);
    }
  }

  lemma CountOfOne(s: string, c: char)
    requires c in s && |s| == 2 && s[0] != s[1]
    ensures Count(s, [c]) == 1
  {
    OccursChar(s, c, 0);
    OccursChar(s, c, 1);
    var f := if s[0] == c then 0 else 1;
    assert Occurs(s, [c], f) && forall k :: Occurs(s, [c], k) ==> k == f;
    CountIsExact(s, [c]);
  }

  /** Without that the order can matter: a replacement in front that holds the second anchor takes its edit. */
  lemma OrderCanMatter(x: char, y: char, z: char)
    requires x != y && y != z && x != z
    ensures var e, f := Edit([x], [y]), Edit([y], [z]);
            && Count([x, y], e.anchor) == 1 && Count([x, y], f.anchor) == 1
            && Sequential([x, y], [e, f]) == [z, y] && Sequential([x, y], [f, e]) == [y, z]
  {
    hide *;
    var e, f := Edit([x], [y]), Edit([y], [z]);
    CountOfTwo(x, y);
    TwoEdits([x, y], e, f);
    TwoEdits([x, y], f, e);
    ReplaceFront(x, [y], [y]);
    ReplaceFront(y, [z], [y]);
    ReplaceSecond(x, y, [z]);
    ReplaceFront(x, [y], [z]);
    assert [x] + [y] == [x, y] && [y] + [y] == [y, y] && [x] + [z] == [x, z];
  }

  // ----- The file

  datatype Outcome = Already | Refused(missing: seq<Edit>) | Checked | Patched

  /** Every anchor counted once. */
  predicate Matches(s: string, edits: seq<Edit>) {
    forall e :: e in edits ==> Count(s, e.anchor) == 1
  }

  /** The edits whose anchor is not counted once. */
  function Missing(s: string, edits: seq<Edit>): (r: seq<Edit>)
    ensures forall e :: e in r <==> e in edits && Count(s, e.anchor) != 1
  {
    if edits == [] then []
    else
      var last := edits[|edits| - 1];
      Missing(s, edits[..|edits| - 1]) + if Count(s, last.anchor) != 1 then [last] else []
  }

  predicate Holds(s: string, p: string) { FindFrom(s, p, 0).Some? }

  class SourceFile {
    var text: string

    constructor (text: string)
      ensures this.text == text
    {
      this.text := text;
    }

    /** Patches the file, unless it holds the marker, an anchor is missing or ambiguous, or it is only to be
        checked; then it stays as it is. */
    method Apply(marker: string, edits: seq<Edit>, checkOnly: bool) returns (r: Outcome)
      modifies this
      ensures r == Already <==> Holds(old(text), marker)
      ensures r.Refused? <==> !Holds(old(text), marker) && !Matches(old(text), edits)
      ensures r.Refused? ==> r.missing == Missing(old(text), edits)
      ensures r == Checked <==> !Holds(old(text), marker) && Matches(old(text), edits) && checkOnly
      ensures text == if r == Patched then Sequential(old(text), edits) else old(text)
    {
      var src := text;
      if Holds(src, marker) {
        return Already;
      }
      var missing: seq<Edit> := [];
      for i := 0 to |edits|
        invariant missing == Missing(src, edits[..i])
      {
        assert edits[..i + 1][..i] == edits[..i];
        if Count(src, edits[i].anchor) != 1 {
          missing := missing + [edits[i]];
        }
      }
      assert edits[..|edits|] == edits;
      if missing != [] {
        assert missing[0] in edits;
        return Refused(missing);
      }
      if checkOnly {
        return Checked;
      }
      for i := 0 to |edits|
        invariant src == Sequential(text, edits[..i])
      {
        assert edits[..i + 1][..i] == edits[..i];
        src := ReplaceFirst(src, edits[i]);
      }
      text := src;
      return Patched;
    }
  }

  lemma MarkerInside(a: string, t: string, b: string, marker: string)
    requires Holds(t, marker)
    ensures Holds(a + t + b, marker)
  {
    var k := FindFrom(t, marker, 0).value;
    var s := a + t + b;
    assert s[|a| + k..|a| + k + |marker|] == t[k..k + |marker|];
    assert Occurs(s, marker, |a| + k);
  }

  /** When the last anchor is still there at its turn, its replacement is in the text whole, and with it the
      marker. */
  lemma MarkerStays(s: string, edits: seq<Edit>, marker: string)
    requires edits != [] && Holds(edits[|edits| - 1].text, marker)
    requires Holds(Sequential(s, edits[..|edits| - 1]), edits[|edits| - 1].anchor)
    ensures Holds(Sequential(s, edits), marker)
  {
    var p, e := edits[..|edits| - 1], edits[|edits| - 1];
    var before := Sequential(s, p);
    var f := FindFrom(before, e.anchor, 0).value;
    MarkerInside(before[..f], e.text, before[f + |e.anchor|..], marker);
  }

  /** The last anchor is still there when the edits never make one another ambiguous. */
  lemma LastAnchorStays(s: string, edits: seq<Edit>)
    requires Anchored(s, edits) && NeverAmbiguous(s, edits) && DistinctEdits(edits) && edits != []
    ensures Holds(Sequential(s, edits[..|edits| - 1]), edits[|edits| - 1].anchor)
  {
    var p, e := edits[..|edits| - 1], edits[|edits| - 1];
    SequentialIsRendered(s, edits, p);
    EverySite(s, edits, e);
    var _, a, b := RenderStep(Scan(s, edits, 0), Elements(p), e);
    assert Occurs(e.anchor, e.anchor, 0);
    MarkerInside(a, e.anchor, b, e.anchor);
  }

  /** Two runs, whatever the file and the edits: the second finds the file patched exactly when the first left
      the marker in it, and then changes nothing. */
  method ApplyTwice(file: SourceFile, marker: string, edits: seq<Edit>) returns (first: Outcome, second: Outcome)
    modifies file
    ensures first == Patched ==> (second == Already <==> Holds(Sequential(old(file.text), edits), marker))
    ensures second == Already ==>
              file.text == if first == Patched then Sequential(old(file.text), edits) else old(file.text)
    ensures first != Patched ==> second == first && file.text == old(file.text)
  {
    first := file.Apply(marker, edits, false);
    second := file.Apply(marker, edits, false);
  }

  /** For a list whose edits are guarded where they stand and whose last replacement holds the marker: a patched
      file is the one with all anchors replaced at once, and a second run leaves it alone. */
  lemma PatchedForGood(s: string, edits: seq<Edit>, marker: string)
    requires Matches(s, edits) && NoOverlap(s, edits)
    requires forall e :: e in edits ==> e.anchor != "" && Borderless(e.anchor)
    requires Guarded(Scan(s, edits, 0), edits) && DistinctEdits(edits)
    requires edits != [] && Holds(edits[|edits| - 1].text, marker)
    ensures Sequential(s, edits) == Simultaneous(s, edits) && Holds(Sequential(s, edits), marker)
  {
    forall e | e in edits
      ensures ExactlyOnce(s, e.anchor)
    {
      CountIsExact(s, e.anchor);
    }
    GuardedIsEnough(s, edits);
    AnyOrder(s, edits, edits);
    LastAnchorStays(s, edits);
    MarkerStays(s, edits, marker);
  }
}
