/** The detector of degenerate repetition: some run of n consecutive words occurs too often.

    The text is cut at white space, and runs are counted by the string that joins their words with
    single spaces.  What counts as white space is a parameter; a space must. */
module Repetition {

  // ----- Cutting at white space and joining again

  function WordEnd(s: string, isSpace: char -> bool): (e: nat)
    ensures e <= |s| && (forall i :: 0 <= i < e ==> !isSpace(s[i])) && (e < |s| ==> isSpace(s[e]))
  {
    if s == "" || isSpace(s[0]) then 0 else 1 + WordEnd(s[1..], isSpace)
  }

  function Words(s: string, isSpace: char -> bool): (words: seq<string>)
    ensures forall w :: w in words ==> IsWord(w, isSpace)
  {
    if s == "" then []
    else if isSpace(s[0]) then Words(s[1..], isSpace)
    else
      var e := WordEnd(s, isSpace);
      [s[..e]] + Words(s[e..], isSpace)
  }

  predicate IsWord(w: string, isSpace: char -> bool) {
    w != "" && forall i :: 0 <= i < |w| ==> !isSpace(w[i])
  }

  function Join(words: seq<string>): string {
    if words == [] then ""
    else if |words| == 1 then words[0]
    else words[0] + " " + Join(words[1..])
  }

  lemma {:induction false} WordEndStops(w: string, rest: string, isSpace: char -> bool)
    requires IsWord(w, isSpace) && (rest == "" || isSpace(rest[0]))
    ensures WordEnd(w + rest, isSpace) == |w|
  {
    var s := w + rest;
    if |w| == 1 {
      assert s[1..] == rest;
    } else {
      assert s[1..] == w[1..] + rest;
      WordEndStops(w[1..], rest, isSpace);
    }
  }

  /** Cutting what was joined gives the words back. */
  lemma {:induction false} CutAfterJoin(words: seq<string>, isSpace: char -> bool)
    requires isSpace(' ') && forall w :: w in words ==> IsWord(w, isSpace)
    ensures Words(Join(words), isSpace) == words
  {
    if words != [] {
      var w, s := words[0], Join(words);
      assert w in words;
      if |words| == 1 {
        assert s == w + "";
        WordEndStops(w, "", isSpace);
        assert s[|w|..] == "";
      } else {
        var rest := " " + Join(words[1..]);
        assert s == w + rest;
        WordEndStops(w, rest, isSpace);
        assert s[..|w|] == w && s[|w|..] == rest && rest[1..] == Join(words[1..]);
        CutAfterJoin(words[1..], isSpace);
      }
    }
  }

  /** Counting joined strings is faithful: different runs of words never share a joined string. */
  lemma JoinInjective(u: seq<string>, v: seq<string>, isSpace: char -> bool)
    requires isSpace(' ')
    requires forall w :: w in u + v ==> IsWord(w, isSpace)
    requires Join(u) == Join(v)
    ensures u == v
  {
    assert forall w :: w in u || w in v ==> w in u + v;
    CutAfterJoin(u, isSpace);
    CutAfterJoin(v, isSpace);
  }

  // ----- What cutting means

  /** A stretch of a text. */
  datatype Cut = Cut(b: nat, e: nat)

  /** A longest stretch without blanks: on either side stands a blank or nothing. */
  ghost predicate Maximal(s: string, isSpace: char -> bool, c: Cut) {
    && c.b < c.e <= |s| && (forall i :: c.b <= i < c.e ==> !isSpace(s[i]))
    && (c.b == 0 || isSpace(s[c.b - 1])) && (c.e == |s| || isSpace(s[c.e]))
  }

  ghost predicate WordAt(w: string, s: string, isSpace: char -> bool, c: Cut) {
    Maximal(s, isSpace, c) && w == s[c.b..c.e]
  }

  /** The words stand at these cuts: longest stretches in order, and no letter outside them. */
  ghost predicate StandAt(words: seq<string>, cuts: seq<Cut>, s: string, isSpace: char -> bool) {
    && |words| == |cuts|
    && (forall k :: 0 <= k < |cuts| ==> WordAt(words[k], s, isSpace, cuts[k]))
    && (forall j, k :: 0 <= j < k < |cuts| ==> cuts[j].e <= cuts[k].b)
    && (forall i :: 0 <= i < |s| && !isSpace(s[i]) ==> exists k :: 0 <= k < |cuts| && cuts[k].b <= i < cuts[k].e)
  }

  /** The words are exactly the longest stretches without blanks, in order. */
  ghost predicate WordsOf(words: seq<string>, s: string, isSpace: char -> bool) {
    exists cuts :: StandAt(words, cuts, s, isSpace)
  }

  function Moved(cuts: seq<Cut>, n: nat): (r: seq<Cut>)
    ensures |r| == |cuts| && forall k :: 0 <= k < |cuts| ==> r[k] == Cut(cuts[k].b + n, cuts[k].e + n)
  {
    seq(|cuts|, k requires 0 <= k < |cuts| => Cut(cuts[k].b + n, cuts[k].e + n))
  }

  /** A longest stretch of a rest is one of the whole, when the rest is not cut off inside a stretch. */
  lemma WordBehind(w: string, s: string, isSpace: char -> bool, n: nat, c: Cut)
    requires n <= |s| && WordAt(w, s[n..], isSpace, c)
    requires (n > 0 ==> isSpace(s[n - 1])) || (n < |s| ==> isSpace(s[n]))
    ensures WordAt(w, s, isSpace, Cut(c.b + n, c.e + n))
  {
    assert forall i :: c.b + n <= i < c.e + n ==> s[i] == s[n..][i - n];
  }

  /** Words of a rest stand in the whole, behind what was cut off. */
  lemma StandBehind(words: seq<string>, cuts: seq<Cut>, s: string, n: nat, isSpace: char -> bool)
    requires n <= |s| && StandAt(words, cuts, s[n..], isSpace)
    requires (n > 0 ==> isSpace(s[n - 1])) || (n < |s| ==> isSpace(s[n]))
    ensures forall k :: 0 <= k < |cuts| ==> WordAt(words[k], s, isSpace, Moved(cuts, n)[k])
    ensures forall i :: n <= i < |s| && !isSpace(s[i]) ==>
              exists k :: 0 <= k < |cuts| && cuts[k].b <= i - n < cuts[k].e
  {
    hide WordAt;
    forall k | 0 <= k < |cuts|
      ensures WordAt(words[k], s, isSpace, Moved(cuts, n)[k])
    {
      WordBehind(words[k], s, isSpace, n, cuts[k]);
    }
    forall i | n <= i < |s| && !isSpace(s[i])
      ensures exists k :: 0 <= k < |cuts| && cuts[k].b <= i - n < cuts[k].e
    {
      assert !isSpace(s[n..][i - n]);
    }
  }

  lemma WordsBehindBlank(words: seq<string>, cuts: seq<Cut>, s: string, isSpace: char -> bool)
    requires s != "" && isSpace(s[0]) && StandAt(words, cuts, s[1..], isSpace)
    ensures StandAt(words, Moved(cuts, 1), s, isSpace)
  {
    hide WordAt;
    StandBehind(words, cuts, s, 1, isSpace);
    var all := Moved(cuts, 1);
    forall i | 0 <= i < |s| && !isSpace(s[i])
      ensures exists k :: 0 <= k < |all| && all[k].b <= i < all[k].e
    {
      var k :| 0 <= k < |cuts| && cuts[k].b <= i - 1 < cuts[k].e;
      assert all[k].b <= i < all[k].e;
    }
  }

  lemma WordsBehindWord(words: seq<string>, cuts: seq<Cut>, s: string, e: nat, isSpace: char -> bool)
    requires e <= |s| && WordAt(s[..e], s, isSpace, Cut(0, e)) && (e < |s| ==> isSpace(s[e]))
    requires StandAt(words, cuts, s[e..], isSpace)
    ensures StandAt([s[..e]] + words, [Cut(0, e)] + Moved(cuts, e), s, isSpace)
  {
    hide WordAt;
    StandBehind(words, cuts, s, e, isSpace);
    var all := [Cut(0, e)] + Moved(cuts, e);
    forall i | 0 <= i < |s| && !isSpace(s[i])
      ensures exists k :: 0 <= k < |all| && all[k].b <= i < all[k].e
    {
      if i < e {
        assert all[0].b <= i < all[0].e;
      } else {
        var k :| 0 <= k < |cuts| && cuts[k].b <= i - e < cuts[k].e;
        assert all[k + 1].b <= i < all[k + 1].e;
      }
    }
  }

  lemma NoWords(isSpace: char -> bool)
    ensures WordsOf([], "", isSpace)
  {
    assert StandAt([], [], "", isSpace);
  }

  lemma FirstWord(s: string, isSpace: char -> bool)
    requires s != "" && !isSpace(s[0])
    ensures var e := WordEnd(s, isSpace);
            0 < e <= |s| && WordAt(s[..e], s, isSpace, Cut(0, e)) && (e < |s| ==> isSpace(s[e]))
  {
  }

  /** Cutting gives exactly the longest stretches without blanks, in order. */
  lemma {:induction false} WordsAreStretches(s: string, isSpace: char -> bool)
    ensures WordsOf(Words(s, isSpace), s, isSpace)
    decreases |s|
  {
    hide StandAt, WordAt;
    if s == "" {
      NoWords(isSpace);
    } else if isSpace(s[0]) {
      WordsAreStretches(s[1..], isSpace);
      var cuts :| StandAt(Words(s[1..], isSpace), cuts, s[1..], isSpace);
      WordsBehindBlank(Words(s, isSpace), cuts, s, isSpace);
    } else {
      FirstWord(s, isSpace);
      var e := WordEnd(s, isSpace);
      WordsAreStretches(s[e..], isSpace);
      var cuts :| StandAt(Words(s[e..], isSpace), cuts, s[e..], isSpace);
      WordsBehindWord(Words(s[e..], isSpace), cuts, s, e, isSpace);
    }
  }

  /** A text has one list of words only. */
  lemma WordsDetermined(u: seq<string>, v: seq<string>, s: string, isSpace: char -> bool)
    requires WordsOf(u, s, isSpace) && WordsOf(v, s, isSpace)
    ensures u == v
  {
    var c :| StandAt(u, c, s, isSpace);
    var d :| StandAt(v, d, s, isSpace);
    SameCuts(u, v, c, d, s, isSpace, |c|);
    SameCuts(v, u, d, c, s, isSpace, |d|);
    assert c == d;
  }

  lemma OnlyWords(s: string, isSpace: char -> bool)
    ensures WordsOf(Words(s, isSpace), s, isSpace)
    ensures forall words :: WordsOf(words, s, isSpace) ==> words == Words(s, isSpace)
  {
    hide WordsOf, Words;
    WordsAreStretches(s, isSpace);
    forall words | WordsOf(words, s, isSpace)
      ensures words == Words(s, isSpace)
    {
      WordsDetermined(words, Words(s, isSpace), s, isSpace);
    }
  }

  lemma OneStretch(s: string, isSpace: char -> bool, c: Cut, d: Cut, i: nat)
    requires Maximal(s, isSpace, c) && Maximal(s, isSpace, d) && c.b <= i < c.e && d.b <= i < d.e
    ensures c == d
  {
  }

  /** The letter that a cut begins with is in a cut of the other list, which is then the same. */
  lemma FoundIn(v: seq<string>, d: seq<Cut>, s: string, isSpace: char -> bool, c: Cut) returns (m: nat)
    requires StandAt(v, d, s, isSpace) && Maximal(s, isSpace, c)
    ensures m < |d| && d[m] == c
  {
    assert !isSpace(s[c.b]);
    m :| 0 <= m < |d| && d[m].b <= c.b < d[m].e;
    OneStretch(s, isSpace, c, d[m], c.b);
  }

  lemma {:induction false} SameCuts(u: seq<string>, v: seq<string>, c: seq<Cut>, d: seq<Cut>, s: string,
                                    isSpace: char -> bool, k: nat)
    requires StandAt(u, c, s, isSpace) && StandAt(v, d, s, isSpace) && k <= |c|
    ensures k <= |d| && forall j :: 0 <= j < k ==> c[j] == d[j]
  {
    if k > 0 {
      SameCuts(u, v, c, d, s, isSpace, k - 1);
      var m := FoundIn(v, d, s, isSpace, c[k - 1]);
      InOrder(u, c, s, isSpace);
      InOrder(v, d, s, isSpace);
      if m > k - 1 {
        var n := FoundIn(u, c, s, isSpace, d[k - 1]);
      }
    }
  }

  lemma InOrder(words: seq<string>, cuts: seq<Cut>, s: string, isSpace: char -> bool)
    requires StandAt(words, cuts, s, isSpace)
    ensures forall j, k :: 0 <= j < k < |cuts| ==> cuts[j].b < cuts[k].b
  {
  }

  function Concat(words: seq<string>): string {
    if words == [] then "" else words[0] + Concat(words[1..])
  }

  /** A text without its blanks. */
  function Letters(s: string, isSpace: char -> bool): string {
    if s == "" then "" else (if isSpace(s[0]) then "" else [s[0]]) + Letters(s[1..], isSpace)
  }

  lemma {:induction false} LettersOfWord(w: string, rest: string, isSpace: char -> bool)
    requires forall i :: 0 <= i < |w| ==> !isSpace(w[i])
    ensures Letters(w + rest, isSpace) == w + Letters(rest, isSpace)
  {
    if w == "" {
      assert w + rest == rest;
    } else {
      LettersOfWord(w[1..], rest, isSpace);
      assert (w + rest)[1..] == w[1..] + rest && w == [w[0]] + w[1..];
    }
  }

  /** No letter is lost or moved: the words put together are the text without its blanks. */
  lemma {:induction false} NoLetterLost(s: string, isSpace: char -> bool)
    ensures Concat(Words(s, isSpace)) == Letters(s, isSpace)
    decreases |s|
  {
    if s != "" {
      if isSpace(s[0]) {
        NoLetterLost(s[1..], isSpace);
      } else {
        var e := WordEnd(s, isSpace);
        NoLetterLost(s[e..], isSpace);
        assert s == s[..e] + s[e..];
        LettersOfWord(s[..e], s[e..], isSpace);
        assert Words(s, isSpace) == [s[..e]] + Words(s[e..], isSpace);
      }
    }
  }

  // ----- Any blanks will do

  predicate Blank(s: string, isSpace: char -> bool) {
    forall i :: 0 <= i < |s| ==> isSpace(s[i])
  }

  /** Words with blanks behind each: some between two words, any number behind the last. */
  ghost predicate Spacing(words: seq<string>, gaps: seq<string>, isSpace: char -> bool) {
    && |gaps| == |words| && (forall w :: w in words ==> IsWord(w, isSpace))
    && (forall k :: 0 <= k < |gaps| ==> Blank(gaps[k], isSpace))
    && (forall k :: 0 <= k < |gaps| - 1 ==> gaps[k] != "")
  }

  function Spaced(words: seq<string>, gaps: seq<string>): string
    requires |gaps| == |words|
  {
    if words == [] then "" else words[0] + gaps[0] + Spaced(words[1..], gaps[1..])
  }

  lemma {:induction false} SkipBlanks(lead: string, rest: string, isSpace: char -> bool)
    requires Blank(lead, isSpace)
    ensures Words(lead + rest, isSpace) == Words(rest, isSpace)
  {
    if lead == "" {
      assert lead + rest == rest;
    } else {
      assert (lead + rest)[1..] == lead[1..] + rest;
      SkipBlanks(lead[1..], rest, isSpace);
    }
  }

  /** However the words are set apart, and whatever blanks stand in front, cutting gives them back. */
  lemma {:induction false} CutAfterSpacing(lead: string, words: seq<string>, gaps: seq<string>, isSpace: char -> bool)
    requires Blank(lead, isSpace) && Spacing(words, gaps, isSpace)
    ensures Words(lead + Spaced(words, gaps), isSpace) == words
    decreases |words|
  {
    var text := Spaced(words, gaps);
    SkipBlanks(lead, text, isSpace);
    if words != [] {
      var w, rest := words[0], gaps[0] + Spaced(words[1..], gaps[1..]);
      assert w in words;
      assert text == w + rest;
      assert |words| == 1 ==> rest == gaps[0];
      WordEndStops(w, rest, isSpace);
      assert text[..|w|] == w && text[|w|..] == rest;
      CutAfterSpacing(gaps[0], words[1..], gaps[1..], isSpace);
    }
  }

  // ----- Counting runs

  function Run(words: seq<string>, n: nat, i: nat): (run: seq<string>)
    requires i + n <= |words|
    ensures |run| == n
  {
    words[i..i + n]
  }

  /** Where the run of n words that starts at i starts again, below k. */
  ghost function Starts(words: seq<string>, run: seq<string>, k: nat): set<nat> {
    set i: nat | i < k && i + |run| <= |words| && Run(words, |run|, i) == run
  }

  ghost predicate RepeatsRun(words: seq<string>, n: nat, minCount: int) {
    exists i: nat :: i + n <= |words| && |Starts(words, Run(words, n, i), |words| + 1)| >= minCount
  }

  lemma StartsMonotone(words: seq<string>, run: seq<string>, k: nat, l: nat)
    requires k <= l
    ensures |Starts(words, run, k)| <= |Starts(words, run, l)|
  {
    var a, b := Starts(words, run, k), Starts(words, run, l);
    assert b == a + (b - a);
  }

  lemma StartsStep(words: seq<string>, run: seq<string>, k: nat)
    ensures |Starts(words, run, k + 1)|
         == |Starts(words, run, k)| + if k + |run| <= |words| && Run(words, |run|, k) == run then 1 else 0
  {
    hide Run;
    var a, b := Starts(words, run, k), Starts(words, run, k + 1);
    if k + |run| <= |words| && Run(words, |run|, k) == run {
      assert b == a + {k};
    } else {
      assert b == a;
    }
  }

  /** What the dictionary of counts holds after the runs that start below k. */
  ghost predicate Counted(seen: map<string, int>, words: seq<string>, n: nat, k: nat) {
    && (forall g :: g in seen ==> exists i: nat :: i < k && i + n <= |words| && g == Join(Run(words, n, i)))
    && (forall i: nat :: i < k && i + n <= |words| ==>
          var run := Run(words, n, i); Join(run) in seen && seen[Join(run)] == |Starts(words, run, k)|)
  }

  method HasDegenerateRepetition(text: string, n: nat, minCount: int, isSpace: char -> bool) returns (r: bool)
    requires isSpace(' ')
    ensures r <==> RepeatsRun(Words(text, isSpace), n, minCount)
    ensures WordsOf(Words(text, isSpace), text, isSpace)
    ensures forall words :: WordsOf(words, text, isSpace) ==> (r <==> RepeatsRun(words, n, minCount))
  {
    var words := Words(text, isSpace);
    OnlyWords(text, isSpace);
    if |words| < n {
      return false;
    }
    r := CountRuns(words, n, minCount, isSpace);
  }

  /** The counting loop, over words already cut. */
  method CountRuns(words: seq<string>, n: nat, minCount: int, isSpace: char -> bool) returns (r: bool)
    requires AllWords(words, isSpace) && n <= |words|
    ensures r <==> RepeatsRun(words, n, minCount)
  {
    var seen: map<string, int> := map[];
    var i := 0;
    while i < |words| - n + 1
      invariant 0 <= i <= |words| - n + 1
      invariant Scanned(seen, words, n, i, minCount)
    {
      var gram := Join(Run(words, n, i));
      var c := NextCount(seen, gram);
      ScanStep(seen, words, n, i, minCount, isSpace);
      seen := seen[gram := c];
      if c >= minCount {
        return true;
      }
      i := i + 1;
    }
    NoRunLeft(seen, words, n, minCount);
    return false;
  }

  /** No run is found yet, and the counts are right. */
  ghost predicate Scanned(seen: map<string, int>, words: seq<string>, n: nat, k: nat, minCount: int) {
    Counted(seen, words, n, k) && forall g :: g in seen ==> seen[g] < minCount
  }

  lemma ScanStep(seen: map<string, int>, words: seq<string>, n: nat, i: nat, minCount: int, isSpace: char -> bool)
    requires AllWords(words, isSpace) && i + n <= |words| && Scanned(seen, words, n, i, minCount)
    ensures var gram := Join(Run(words, n, i));
            var c := NextCount(seen, gram);
            if c >= minCount then RepeatsRun(words, n, minCount)
            else Scanned(seen[gram := c], words, n, i + 1, minCount)
  {
    NextCountIsRight(seen, words, n, i, isSpace);
    CountStep(seen, words, n, i, isSpace);
    StartsMonotone(words, Run(words, n, i), i + 1, |words| + 1);
  }

  predicate AllWords(words: seq<string>, isSpace: char -> bool) {
    isSpace(' ') && forall w :: w in words ==> IsWord(w, isSpace)
  }

  lemma SameJoinSameRun(words: seq<string>, n: nat, i: nat, k: nat, isSpace: char -> bool)
    requires AllWords(words, isSpace) && i + n <= |words| && k + n <= |words|
    ensures Join(Run(words, n, i)) == Join(Run(words, n, k)) <==> Run(words, n, i) == Run(words, n, k)
  {
    if Join(Run(words, n, i)) == Join(Run(words, n, k)) {
      JoinInjective(Run(words, n, i), Run(words, n, k), isSpace);
    }
  }

  function NextCount(seen: map<string, int>, gram: string): int {
    (if gram in seen then seen[gram] else 0) + 1
  }

  lemma NextCountIsRight(seen: map<string, int>, words: seq<string>, n: nat, i: nat, isSpace: char -> bool)
    requires AllWords(words, isSpace) && i + n <= |words| && Counted(seen, words, n, i)
    ensures NextCount(seen, Join(Run(words, n, i))) == |Starts(words, Run(words, n, i), i + 1)|
  {
    var run := Run(words, n, i);
    StartsStep(words, run, i);
    if Join(run) in seen {
      var k: nat :| k < i && k + n <= |words| && Join(run) == Join(Run(words, n, k));
      SameJoinSameRun(words, n, i, k, isSpace);
    } else {
      assert Starts(words, run, i) == {};
    }
  }

  lemma CountStep(seen: map<string, int>, words: seq<string>, n: nat, i: nat, isSpace: char -> bool)
    requires AllWords(words, isSpace) && i + n <= |words| && Counted(seen, words, n, i)
    ensures var gram := Join(Run(words, n, i)); Counted(seen[gram := NextCount(seen, gram)], words, n, i + 1)
  {
    var gram := Join(Run(words, n, i));
    var after := seen[gram := NextCount(seen, gram)];
    forall k: nat | k < i + 1 && k + n <= |words|
      ensures Join(Run(words, n, k)) in after
      ensures after[Join(Run(words, n, k))] == |Starts(words, Run(words, n, k), i + 1)|
    {
      NextCountIsRight(seen, words, n, i, isSpace);
      SameJoinSameRun(words, n, i, k, isSpace);
      StartsStep(words, Run(words, n, k), i);
    }
  }

  lemma NoRunLeft(seen: map<string, int>, words: seq<string>, n: nat, minCount: int)
    requires n <= |words| && Scanned(seen, words, n, |words| - n + 1, minCount)
    ensures !RepeatsRun(words, n, minCount)
  {
    forall i: nat | i + n <= |words|
      ensures |Starts(words, Run(words, n, i), |words| + 1)| < minCount
    {
      var run := Run(words, n, i);
      assert Starts(words, run, |words| + 1) == Starts(words, run, |words| - n + 1);
      assert seen[Join(run)] < minCount;
    }
  }
}
