/** The edit lists of the patch scripts, by how their anchors and replacements begin and end: each anchor has a
    beginning that no other replacement holds, each replacement one that no other anchor holds. */
module PatchLists {
  import opened Options
  import opened AnchoredRewrite

  /** An edit with a beginning of its anchor and one of its replacement. */
  datatype Headed = Headed(e: Edit, head: string, front: string) {
    ghost predicate Valid() {
      && head != "" && head <= e.anchor && front != "" && front <= e.text
      && !Holds(e.anchor[1..], head) && e.anchor[|e.anchor| - 1] !in head[..|head| - 1]
    }
  }

  function EditsOf(list: seq<Headed>): (r: seq<Edit>)
    ensures |r| == |list| && forall i :: 0 <= i < |r| ==> r[i] == list[i].e
  {
    if list == [] then [] else [list[0].e] + EditsOf(list[1..])
  }

  /** The anchor of a cannot begin inside the replacement of b, and that replacement can begin inside the anchor
      at its last letter only. */
  ghost predicate Apart(a: Headed, b: Headed)
    requires a.Valid() && b.Valid()
  {
    && !Holds(b.e.text, a.head) && b.e.text[|b.e.text| - 1] !in a.head[..|a.head| - 1]
    && !Holds(a.e.anchor, b.front)
    && forall k :: 1 <= k < |b.front| - 1 ==> b.front[k] != a.e.anchor[|a.e.anchor| - 1]
  }

  /** Where a replacement begins with the letter another anchor ends with, the file has in front of the site a
      letter that does not continue the anchor. */
  ghost predicate SitesSeparate(ps: seq<Piece>, edits: seq<Edit>) {
    forall i, a :: 0 <= i < |ps| && ps[i].Site? && a in edits && a != ps[i].e && |a.anchor| > 1 && ps[i].e.text != ""
                   && ps[i].e.text[0] == a.anchor[|a.anchor| - 1] ==>
                     i == 0 || (ps[i - 1].Letter? && ps[i - 1].c != a.anchor[|a.anchor| - 2])
  }

  lemma Differs(t: string, w: string, k: nat) returns (x: nat)
    requires k + |w| <= |t| && !Holds(t, w)
    ensures x < |w| && t[k + x] != w[x]
  {
    assert !Occurs(t, w, k);
    assert t[k..k + |w|] != w;
    x :| 0 <= x < |w| && t[k..k + |w|][x] != w[x];
  }

  lemma DisagreesAt(p: string, t: string, d: int, x: nat)
    requires x < |t| && d <= x < d + |p| && t[x] != p[x - d]
    ensures !Agrees(p, t, d)
  {
  }

  /** Where the beginning of p fits, t has other letters; where it does not, it would hold the last one of t. */
  lemma CannotBeginIn(p: string, t: string, head: string, d: nat)
    requires head != "" && head <= p && d < |t| && !Holds(t, head) && t[|t| - 1] !in head[..|head| - 1]
    ensures !Agrees(p, t, d)
  {
    if d + |head| <= |t| {
      var x := Differs(t, head, d);
      DisagreesAt(p, t, d, d + x);
    } else {
      var k := |t| - 1 - d;
      assert head[..|head| - 1][k] == p[k];
      DisagreesAt(p, t, d, |t| - 1);
    }
  }

  lemma CannotHold(p: string, t: string, front: string, d: int)
    requires front != "" && front <= t && 1 - |p| < d < 0 && !Holds(p, front)
    requires forall k :: 1 <= k < |front| - 1 ==> front[k] != p[|p| - 1]
    ensures !Agrees(p, t, d)
  {
    if -d + |front| <= |p| {
      var x := Differs(p, front, -d);
      DisagreesAt(p, t, d, x);
    } else {
      DisagreesAt(p, t, d, |p| - 1 + d);
    }
  }

  /** Laid over the replacement, the anchor can only agree with its last letter on the first of the text. */
  lemma MeetsInOneLetter(a: Headed, b: Headed, d: int)
    requires a.Valid() && b.Valid() && Apart(a, b)
    requires -|a.e.anchor| < d < |b.e.text| && Agrees(a.e.anchor, b.e.text, d)
    ensures d == 1 - |a.e.anchor|
  {
    hide Agrees, Holds;
    if d >= 0 {
      CannotBeginIn(a.e.anchor, b.e.text, a.head, d);
    } else if d != 1 - |a.e.anchor| {
      CannotHold(a.e.anchor, b.e.text, b.front, d);
    }
  }

  lemma OneLetterClashes(ps: seq<Piece>, i: nat, p: string, t: string)
    requires i < |ps| && |p| > 1 && t != "" && (i == 0 || (ps[i - 1].Letter? && ps[i - 1].c != p[|p| - 2]))
    ensures Clashes(ps, i, p, t, 1 - |p|)
  {
    assert ClashesBefore(ps, i, p, 1 - |p|, 1);
  }

  /** A list whose edits are pairwise apart is guarded in every file that keeps the sites where they meet
      separate. */
  lemma ApartIsGuarded(ps: seq<Piece>, list: seq<Headed>)
    requires forall h :: h in list ==> h.Valid() && |h.e.anchor| > 1
    requires forall a, b :: a in list && b in list && a.e != b.e ==> Apart(a, b)
    requires forall i :: 0 <= i < |ps| && ps[i].Site? ==> ps[i].e in EditsOf(list)
    requires SitesSeparate(ps, EditsOf(list))
    ensures Guarded(ps, EditsOf(list))
  {
    hide Apart, Clashes, Agrees, Headed.Valid, SitesSeparate;
    var edits := EditsOf(list);
    forall i, a, d | 0 <= i < |ps| && ps[i].Site? && a in edits && a != ps[i].e
                     && -|a.anchor| < d < |ps[i].e.text| && Agrees(a.anchor, ps[i].e.text, d)
      ensures Clashes(ps, i, a.anchor, ps[i].e.text, d)
    {
      var j :| 0 <= j < |edits| && edits[j] == a;
      var k :| 0 <= k < |edits| && edits[k] == ps[i].e;
      GuardedSite(ps, edits, i, list[j], list[k], d);
    }
  }

  lemma GuardedSite(ps: seq<Piece>, edits: seq<Edit>, i: nat, a: Headed, b: Headed, d: int)
    requires a.Valid() && b.Valid() && Apart(a, b) && SitesSeparate(ps, edits) && |a.e.anchor| > 1
    requires i < |ps| && ps[i] == Site(b.e) && a.e in edits && a.e != b.e
    requires -|a.e.anchor| < d < |b.e.text| && Agrees(a.e.anchor, b.e.text, d)
    ensures Clashes(ps, i, a.e.anchor, b.e.text, d)
  {
    hide Clashes, Holds, Agrees;
    MeetsInOneLetter(a, b, d);
    FirstMeetsLast(a.e.anchor, b.e.text);
    OneLetterClashes(ps, i, a.e.anchor, b.e.text);
  }

  lemma FirstMeetsLast(p: string, t: string)
    requires p != "" && t != "" && Agrees(p, t, 1 - |p|)
    ensures t[0] == p[|p| - 1]
  {
  }

  /** An anchor that begins as nothing later in it does, with the last letter not in that beginning, has no border. */
  lemma HeadedIsBorderless(h: Headed)
    requires h.Valid()
    ensures Borderless(h.e.anchor)
  {
    var p, m := h.e.anchor, |h.head|;
    forall d | 0 < d < |p|
      ensures p[d..] != p[..|p| - d]
    {
      if d + m <= |p| {
        var x := Differs(p[1..], h.head, d - 1);
        assert p[d..][x] == p[1..][d - 1 + x] && p[..|p| - d][x] == h.head[x];
      } else {
        var k := |p| - 1 - d;
        assert p[d..][k] == p[|p| - 1] && p[..|p| - d][k] == h.head[..m - 1][k];
      }
    }
  }

  // ----- The lists that put a helper in front of what they find first

  ghost predicate EndsIn(s: string, before: char, last: char) {
    |s| > 1 && s[|s| - 2] == before && s[|s| - 1] == last
  }

  ghost predicate NoEnd(w: string) {
    ':' !in w && '\n' !in w && ']' !in w
  }

  /** The letters that anchors and replacements end with; a beginning has none of them. */
  predicate IsEnd(c: char) { c == ':' || c == '\n' || c == ']' }

  /** No replacement holds the beginning of another anchor, no anchor that of another replacement, and no anchor
      its own a second time. */
  ghost predicate BeginningsApart(list: seq<Headed>) {
    && (forall a, b :: a in list && b in list && a.e != b.e ==> !Holds(b.e.text, a.head) && !Holds(a.e.anchor, b.front))
    && (forall a :: a in list && a.e.anchor != "" ==> !Holds(a.e.anchor[1..], a.head))
  }

  ghost predicate BeginsAndEnds(h: Headed) {
    && h.head != "" && h.head <= h.e.anchor && NoEnd(h.head) && |h.e.anchor| > 1 && IsEnd(h.e.anchor[|h.e.anchor| - 1])
    && h.front != "" && h.front <= h.e.text && (NoEnd(h.front) || h.front == "\n\n") && IsEnd(h.e.text[|h.e.text| - 1])
  }

  /** Three edits of which the first puts an empty row and a helper in front, the others replace a call by another. */
  ghost predicate HelperList(list: seq<Headed>) {
    && |list| == 3 && BeginningsApart(list) && DistinctEdits(EditsOf(list))
    && (forall h :: h in list ==> BeginsAndEnds(h))
    && list[0].front == "\n\n" && list[0].e.anchor[|list[0].e.anchor| - 1] != ' '
    && (forall j :: 1 <= j < 3 ==> EndsIn(list[j].e.anchor, ')', '\n') && list[j].front[0] == ' ')
  }

  lemma BeginningsAreEnough(list: seq<Headed>)
    requires BeginningsApart(list) && forall h :: h in list ==> BeginsAndEnds(h)
    ensures forall h :: h in list ==> h.Valid()
    ensures forall a, b :: a in list && b in list && a.e != b.e ==> Apart(a, b)
  {
    hide Holds;
    forall h | h in list
      ensures h.Valid()
    {
      assert forall c :: c in h.head[..|h.head| - 1] ==> c in h.head;
    }
    forall a, b | a in list && b in list && a.e != b.e
      ensures Apart(a, b)
    {
      assert forall c :: c in a.head[..|a.head| - 1] ==> c in a.head;
      assert forall k :: 0 <= k < |b.front| ==> b.front[k] in b.front;
    }
  }

  /** In front of where the edit goes the file has a letter, other than a closing parenthesis, or nothing. */
  ghost predicate NoCallInFront(ps: seq<Piece>, e: Edit) {
    forall i :: 0 < i < |ps| && ps[i] == Site(e) ==> ps[i - 1].Letter? && ps[i - 1].c != ')'
  }

  /** Only where the helper goes does the file matter. */
  lemma FirstSiteOnly(ps: seq<Piece>, edits: seq<Edit>)
    requires |edits| == 3 && edits[0].text != "" && edits[0].text[0] == '\n'
    requires forall j :: 1 <= j < 3 ==>
      EndsIn(edits[j].anchor, ')', '\n') && edits[j].text != "" && edits[j].text[0] == ' '
    requires edits[0].anchor != "" && edits[0].anchor[|edits[0].anchor| - 1] != ' '
    requires NoCallInFront(ps, edits[0])
    requires forall i :: 0 <= i < |ps| && ps[i].Site? ==> ps[i].e in edits
    ensures SitesSeparate(ps, edits)
  {
    assert forall a :: a in edits ==> a == edits[0] || a == edits[1] || a == edits[2];
  }

  lemma {:induction false} SitesAreOfEdits(s: string, edits: seq<Edit>, k: nat)
    requires Anchors(edits)
    ensures forall i :: 0 <= i < |Scan(s, edits, k)| && Scan(s, edits, k)[i].Site? ==> Scan(s, edits, k)[i].e in edits
    decreases |s| - k
  {
    if k < |s| {
      SitesAreOfEdits(s, edits, Next(s, edits, k));
    }
  }

  lemma HelperListParts(list: seq<Headed>)
    requires HelperList(list)
    ensures Anchors(EditsOf(list)) && forall h :: h in list ==> |h.e.anchor| > 1
    ensures list[0].e.text != "" && list[0].e.text[0] == '\n' && list[0].e.anchor[|list[0].e.anchor| - 1] != ' '
    ensures forall j :: 1 <= j < 3 ==>
      EndsIn(list[j].e.anchor, ')', '\n') && list[j].e.text != "" && list[j].e.text[0] == ' '
  {
    hide BeginningsApart, NoEnd, EndsIn;
    forall j | 0 <= j < 3
      ensures |list[j].e.anchor| > 1 && list[j].front != "" && list[j].e.text != ""
      ensures list[j].e.text[0] == list[j].front[0]
    {
      assert list[j] in list && BeginsAndEnds(list[j]);
    }
  }

  lemma HelperFirst(ps: seq<Piece>, list: seq<Headed>)
    requires HelperList(list) && NoCallInFront(ps, list[0].e)
    requires forall i :: 0 <= i < |ps| && ps[i].Site? ==> ps[i].e in EditsOf(list)
    ensures SitesSeparate(ps, EditsOf(list))
  {
    hide BeginningsApart, BeginsAndEnds, SitesSeparate, EndsIn;
    HelperListParts(list);
    FirstSiteOnly(ps, EditsOf(list));
  }

  lemma HelperListGuarded(ps: seq<Piece>, list: seq<Headed>)
    requires HelperList(list) && NoCallInFront(ps, list[0].e)
    requires forall i :: 0 <= i < |ps| && ps[i].Site? ==> ps[i].e in EditsOf(list)
    ensures Guarded(ps, EditsOf(list))
    ensures forall h :: h in list ==> Borderless(h.e.anchor)
  {
    hide Guarded, Borderless, BeginningsApart, BeginsAndEnds, Apart, EndsIn, NoCallInFront, SitesSeparate, Headed.Valid;
    HelperListParts(list);
    BeginningsAreEnough(list);
    HelperFirst(ps, list);
    ApartIsGuarded(ps, list);
    forall h | h in list
      ensures Borderless(h.e.anchor)
    {
      HeadedIsBorderless(h);
    }
  }

  /** Such a list is guarded in every file that has no closing parenthesis right in front of what it finds first;
      then a patched file is the one with all anchors replaced at once, and holds the marker. */
  lemma HelperListPatchesForGood(s: string, list: seq<Headed>, marker: string)
    requires HelperList(list) && Anchors(EditsOf(list)) && Matches(s, EditsOf(list)) && NoOverlap(s, EditsOf(list))
    requires NoCallInFront(Scan(s, EditsOf(list), 0), list[0].e) && Holds(list[2].e.text, marker)
    ensures Guarded(Scan(s, EditsOf(list), 0), EditsOf(list))
    ensures Sequential(s, EditsOf(list)) == Simultaneous(s, EditsOf(list))
    ensures Holds(Sequential(s, EditsOf(list)), marker)
  {
    hide Guarded, Borderless, Matches, NoOverlap, Holds, NoCallInFront, BeginningsApart, BeginsAndEnds, EndsIn;
    var edits := EditsOf(list);
    SitesAreOfEdits(s, edits, 0);
    HelperListGuarded(Scan(s, edits, 0), list);
    forall e | e in edits
      ensures e.anchor != "" && Borderless(e.anchor)
    {
      var j :| 0 <= j < |edits| && edits[j] == e;
      assert list[j] in list;
    }
    PatchedForGood(s, edits, marker);
  }

  // ----- The list of the drafter's patch, and that of the weight loaders

  /** The class, with the helpers put in front of it; the check of the head counts; the method, with another one put
      in front of it. */
  function DrafterList(helpers: Edit, check: Edit, candidates: Edit): seq<Headed> {
    [Headed(helpers, "class D", "\n\n"), Headed(check, "        tp_size ", "        # H"),
     Headed(candidates, "    def c", "    def l")]
  }

  function ShardRow(): string { "        shard_size = " + "param.data.shape[shard_a" }

  /** The alias, with the helper put in front of it; the two loaders. */
  function LoaderList(helper: Edit, row: Edit, sharded: Edit): seq<Headed> {
    [Headed(helper, "Loader", "\n\n"), Headed(row, "    if s", "    if s"), Headed(sharded, ShardRow(), ShardRow())]
  }

  lemma DrafterWords()
    ensures NoEnd("class D") && NoEnd("        tp_size ") && NoEnd("        # H")
    ensures NoEnd("    def c") && NoEnd("    def l")
  {
  }

  lemma LoaderWords()
    ensures NoEnd("Loader") && NoEnd("    if s")
  {
  }

  lemma NoEndInBoth(a: string, b: string)
    requires NoEnd(a) && NoEnd(b)
    ensures NoEnd(a + b)
  {
  }

  lemma ShardRowFront()
    ensures NoEnd("        shard_size = ")
  {
  }

  lemma ShardRowBack()
    ensures NoEnd("param.data.shape[shard_a")
  {
  }

  lemma ShardRowWords()
    ensures ShardRow() != "" && NoEnd(ShardRow()) && ShardRow()[0] == ' '
  {
    hide NoEnd;
    ShardRowFront();
    ShardRowBack();
    NoEndInBoth("        shard_size = ", "param.data.shape[shard_a");
  }

  /** What is left to read off a list: that anchors and replacements begin and end as they do, and that the beginnings
      are apart. */
  ghost predicate Read(list: seq<Headed>, last: char) {
    && |list| == 3 && BeginningsApart(list) && DistinctEdits(EditsOf(list))
    && (forall h :: h in list ==> h.head <= h.e.anchor && h.front <= h.e.text)
    && |list[0].e.anchor| > 1 && list[0].e.anchor[|list[0].e.anchor| - 1] == last
    && list[0].e.text != "" && list[0].e.text[|list[0].e.text| - 1] == last
    && (forall j :: 1 <= j < 3 ==> EndsIn(list[j].e.anchor, ')', '\n') && EndsIn(list[j].e.text, ')', '\n'))
  }

  lemma ReadIsHelperList(list: seq<Headed>, last: char)
    requires |list| == 3 && list[0].front == "\n\n" && Read(list, last) && IsEnd(last)
    requires forall h :: h in list ==> h.head != "" && NoEnd(h.head)
    requires forall j :: 1 <= j < 3 ==> list[j].front != "" && list[j].front[0] == ' ' && NoEnd(list[j].front)
    ensures HelperList(list)
  {
    hide NoEnd, BeginningsApart, DistinctEdits, EditsOf;
    assert forall h :: h in list ==> h == list[0] || h == list[1] || h == list[2];
  }

  lemma DrafterListIsOne(helpers: Edit, check: Edit, candidates: Edit)
    requires Read(DrafterList(helpers, check, candidates), ':')
    ensures HelperList(DrafterList(helpers, check, candidates))
  {
    hide NoEnd, BeginningsApart, EndsIn, Read, HelperList;
    DrafterWords();
    var list := DrafterList(helpers, check, candidates);
    assert forall h :: h in list ==> h == list[0] || h == list[1] || h == list[2];
    ReadIsHelperList(list, ':');
  }

  lemma LoaderListIsOne(helper: Edit, row: Edit, sharded: Edit)
    requires Read(LoaderList(helper, row, sharded), ']')
    ensures HelperList(LoaderList(helper, row, sharded))
  {
    hide NoEnd, BeginningsApart, EndsIn, Read, HelperList, ShardRow;
    LoaderWords();
    ShardRowWords();
    var list := LoaderList(helper, row, sharded);
    assert forall h :: h in list ==> h == list[0] || h == list[1] || h == list[2];
    ReadIsHelperList(list, ']');
  }
}
