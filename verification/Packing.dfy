/** Which tensors are stored once and which are aliases, and how the stored ones are cut into shards. */
module Packing {
  import opened Options
  import opened TensorMemory

  // ----- Owners and aliases

  function Key(t: Tensor): (nat, nat) { (t.DataPtr(), t.Bytes()) }

  /** The first entry with a key. */
  function First(es: seq<Named>, key: (nat, nat)): (i: nat)
    requires exists j :: 0 <= j < |es| && Key(es[j].t) == key
    ensures i < |es| && Key(es[i].t) == key && forall j :: 0 <= j < i ==> Key(es[j].t) != key
  {
    if Key(es[0].t) == key then 0
    else
      assert exists j :: 0 <= j < |es[1..]| && Key(es[1..][j].t) == key by {
        var j :| 0 <= j < |es| && Key(es[j].t) == key;
        assert es[1..][j - 1] == es[j];
      }
      1 + First(es[1..], key)
  }

  ghost predicate Seen(es: seq<Named>, key: (nat, nat)) {
    exists j :: 0 <= j < |es| && Key(es[j].t) == key
  }

  /** A non-empty tensor whose address and size an earlier entry has. */
  ghost predicate AliasOf(before: seq<Named>, x: Named) {
    x.t.Bytes() > 0 && Seen(before, Key(x.t))
  }

  ghost predicate AliasAt(es: seq<Named>, i: nat)
    requires i < |es|
  {
    AliasOf(es[..i], es[i])
  }

  /** The entry that stores the bytes of entry i. */
  ghost function OwnerOf(es: seq<Named>, i: nat): (o: nat)
    requires i < |es|
    ensures o <= i
  {
    if AliasAt(es, i) then First(es[..i], Key(es[i].t)) else i
  }

  /** Aliases point at an earlier entry that stores its own bytes, at the same address and size. */
  lemma OwnerIsStored(es: seq<Named>, i: nat)
    requires i < |es|
    ensures var o := OwnerOf(es, i);
            && !AliasAt(es, o) && Key(es[o].t) == Key(es[i].t) && (AliasAt(es, i) <==> o < i)
  {
    if AliasAt(es, i) {
      var o := First(es[..i], Key(es[i].t));
      assert forall j :: 0 <= j < o ==> es[..o][j] == es[..i][j];
    }
  }

  ghost function Owners(es: seq<Named>): seq<Named> {
    if es == [] then []
    else Owners(es[..|es| - 1]) + if AliasAt(es, |es| - 1) then [] else [es[|es| - 1]]
  }

  lemma {:induction false} OwnersMeaning(es: seq<Named>)
    requires NamesDistinct(es)
    ensures NamesDistinct(Owners(es))
    ensures forall x :: x in Owners(es) <==> exists i :: 0 <= i < |es| && es[i] == x && !AliasAt(es, i)
  {
    hide AliasOf;
    if es != [] {
      var p, n := es[..|es| - 1], |es| - 1;
      OwnersMeaning(p);
      forall i | 0 <= i < n
        ensures AliasAt(p, i) <==> AliasAt(es, i)
      {
        assert p[..i] == es[..i];
      }
      OneMoreOwner(es, p, n);
    }
  }

  lemma OneMoreOwner(es: seq<Named>, p: seq<Named>, n: nat)
    requires NamesDistinct(es) && es != [] && n == |es| - 1 && p == es[..n] && NamesDistinct(Owners(p))
    requires forall x :: x in Owners(p) <==> exists i :: 0 <= i < n && p[i] == x && !AliasAt(p, i)
    requires forall i :: 0 <= i < n ==> (AliasAt(p, i) <==> AliasAt(es, i))
    ensures NamesDistinct(Owners(es))
    ensures forall x :: x in Owners(es) <==> exists i :: 0 <= i < |es| && es[i] == x && !AliasAt(es, i)
  {
    hide AliasOf, AliasAt, Owners, NamesDistinct;
    LastOwner(es, n);
    NamesApart(es, n);
    forall y | y in Owners(p)
      ensures y.name != es[n].name
    {
      var i :| 0 <= i < n && p[i] == y && !AliasAt(p, i);
    }
    OneMoreName(Owners(p), es[n]);
    forall y
      ensures y in Owners(es) <==> exists i :: 0 <= i < |es| && es[i] == y && !AliasAt(es, i)
    {
      if y in Owners(p) {
        var i :| 0 <= i < n && p[i] == y && !AliasAt(p, i);
        assert es[i] == y && !AliasAt(es, i);
      }
      if i :| 0 <= i < |es| && es[i] == y && !AliasAt(es, i) {
        assert i < n ==> p[i] == y && !AliasAt(p, i);
      }
    }
  }

  lemma NamesApart(es: seq<Named>, n: nat)
    requires NamesDistinct(es) && n < |es|
    ensures forall i :: 0 <= i < n ==> es[i].name != es[n].name
  {
  }

  lemma OneMoreName(s: seq<Named>, x: Named)
    requires NamesDistinct(s) && forall y :: y in s ==> y.name != x.name
    ensures NamesDistinct(s + [x])
  {
  }

  lemma LastOwner(es: seq<Named>, n: nat)
    requires es != [] && n == |es| - 1
    ensures Owners(es) == if AliasAt(es, n) then Owners(es[..n]) else Owners(es[..n]) + [es[n]]
  {
  }

  // ----- Shards

  function BytesOf(items: seq<Named>): nat {
    if items == [] then 0 else BytesOf(items[..|items| - 1]) + items[|items| - 1].t.Bytes()
  }

  lemma BytesAppend(a: seq<Named>, x: Named)
    ensures BytesOf(a + [x]) == BytesOf(a) + x.t.Bytes()
  {
    assert (a + [x])[..|a|] == a;
  }

  /** Shards already written, and the items waiting for the next. */
  datatype Pack = Pack(full: seq<seq<Named>>, open: seq<Named>)

  function AddItem(p: Pack, x: Named, budget: int): Pack {
    var o := p.open + [x];
    if BytesOf(o) >= budget then Pack(p.full + [o], []) else Pack(p.full, o)
  }

  function PackAll(items: seq<Named>, budget: int): Pack {
    if items == [] then Pack([], [])
    else AddItem(PackAll(items[..|items| - 1], budget), items[|items| - 1], budget)
  }

  /** With what is left at the end written too. */
  function Groups(p: Pack): seq<seq<Named>> {
    if p.open == [] then p.full else p.full + [p.open]
  }

  function Flat(groups: seq<seq<Named>>): seq<Named> {
    if groups == [] then [] else Flat(groups[..|groups| - 1]) + groups[|groups| - 1]
  }

  lemma FlatNone()
    ensures Flat([]) == []
  {
  }

  lemma FlatAppend(groups: seq<seq<Named>>, g: seq<Named>)
    ensures Flat(groups + [g]) == Flat(groups) + g
  {
    assert (groups + [g])[..|groups|] == groups;
  }

  /** Non-empty, and reaching the budget only with its last item. */
  ghost predicate Filled(g: seq<Named>, budget: int) {
    g != [] && BytesOf(g) >= budget && (|g| > 1 ==> BytesOf(g[..|g| - 1]) < budget)
  }

  lemma AddFlat(q: Pack, x: Named, budget: int)
    ensures Flat(AddItem(q, x, budget).full) + AddItem(q, x, budget).open == (Flat(q.full) + q.open) + [x]
  {
    hide Flat, BytesOf;
    FlatAppend(q.full, q.open + [x]);
  }

  lemma {:induction false} PackFlat(items: seq<Named>, budget: int)
    ensures Flat(PackAll(items, budget).full) + PackAll(items, budget).open == items
  {
    hide Flat, AddItem;
    if items == [] {
      FlatNone();
    } else {
      var p, x := items[..|items| - 1], items[|items| - 1];
      PackFlat(p, budget);
      AddFlat(PackAll(p, budget), x, budget);
      assert items == p + [x];
    }
  }

  lemma {:induction false} PackFilled(items: seq<Named>, budget: int)
    ensures var p := PackAll(items, budget);
            && (forall k :: 0 <= k < |p.full| ==> Filled(p.full[k], budget))
            && (p.open != [] ==> BytesOf(p.open) < budget)
  {
    if items != [] {
      var q, x := PackAll(items[..|items| - 1], budget), items[|items| - 1];
      PackFilled(items[..|items| - 1], budget);
      var o := q.open + [x];
      assert o[..|o| - 1] == q.open;
    }
  }

  /** Never at the budget before the last item. */
  ghost predicate ClosedInTime(g: seq<Named>, budget: int) {
    g != [] && (|g| > 1 ==> BytesOf(g[..|g| - 1]) < budget)
  }

  ghost predicate WellCut(gs: seq<seq<Named>>, budget: int) {
    && (forall k :: 0 <= k < |gs| ==> ClosedInTime(gs[k], budget))
    && (forall k :: 0 <= k < |gs| - 1 ==> BytesOf(gs[k]) >= budget)
  }

  /** The stored items, in order, cut into shards: each shard but the last holds at least the budget,
      and none reaches the budget before its last item. */
  lemma GroupsMeaning(items: seq<Named>, budget: int)
    ensures Flat(Groups(PackAll(items, budget))) == items
    ensures WellCut(Groups(PackAll(items, budget)), budget)
  {
    PackFlat(items, budget);
    PackFilled(items, budget);
    LastGroup(PackAll(items, budget), budget);
  }

  lemma LastGroup(p: Pack, budget: int)
    requires forall k :: 0 <= k < |p.full| ==> Filled(p.full[k], budget)
    requires p.open != [] ==> BytesOf(p.open) < budget
    ensures Flat(Groups(p)) == Flat(p.full) + p.open && WellCut(Groups(p), budget)
  {
    if p.open == [] {
      assert Flat(p.full) + [] == Flat(p.full);
    } else {
      FlatAppend(p.full, p.open);
      BytesMonotone(p.open);
    }
  }

  lemma BytesMonotone(g: seq<Named>)
    requires g != []
    ensures BytesOf(g[..|g| - 1]) <= BytesOf(g)
  {
  }

  /** With a positive budget no shard reaches the budget plus the largest tensor. */
  lemma ShardsBelowBudgetPlusLargest(items: seq<Named>, budget: int, largest: nat, k: nat)
    requires budget > 0 && (forall i :: 0 <= i < |items| ==> items[i].t.Bytes() <= largest)
    requires k < |Groups(PackAll(items, budget))|
    ensures BytesOf(Groups(PackAll(items, budget))[k]) < budget + largest
  {
    hide Flat, PackAll, Groups;
    GroupsMeaning(items, budget);
    var gs := Groups(PackAll(items, budget));
    var g := gs[k];
    var last := g[|g| - 1];
    InFlat(gs, k, last);
    assert last in items;
    if |g| == 1 {
      assert BytesOf(g[..0]) == 0;
    }
  }

  /** With a budget of zero or less every tensor is a shard of its own, so the largest one is a shard
      that does reach the budget plus itself. */
  lemma {:induction false} NoBudgetOneTensorPerShard(items: seq<Named>, budget: int)
    requires budget <= 0
    ensures PackAll(items, budget) == Pack(seq(|items|, i requires 0 <= i < |items| => [items[i]]), [])
  {
    if items != [] {
      var p := items[..|items| - 1];
      NoBudgetOneTensorPerShard(p, budget);
      assert seq(|items|, i requires 0 <= i < |items| => [items[i]])
          == seq(|p|, i requires 0 <= i < |p| => [p[i]]) + [[items[|items| - 1]]];
      assert [] + [items[|items| - 1]] == [items[|items| - 1]];
    }
  }

  /** The bound on the shards holds exactly when the budget is positive or nothing is stored: with no budget the
      largest tensor is a shard that reaches the budget plus itself. */
  lemma BoundExactly(items: seq<Named>, budget: int, largest: nat)
    requires (forall i :: 0 <= i < |items| ==> items[i].t.Bytes() <= largest)
    requires items != [] ==> exists i :: 0 <= i < |items| && items[i].t.Bytes() == largest
    ensures (forall k :: 0 <= k < |Groups(PackAll(items, budget))| ==>
               BytesOf(Groups(PackAll(items, budget))[k]) < budget + largest)
       <==> budget > 0 || items == []
  {
    var gs := Groups(PackAll(items, budget));
    if items == [] {
      assert gs == [];
    } else if budget > 0 {
      forall k | 0 <= k < |gs|
        ensures BytesOf(gs[k]) < budget + largest
      {
        ShardsBelowBudgetPlusLargest(items, budget, largest, k);
      }
    } else {
      NoBudgetOneTensorPerShard(items, budget);
      var i :| 0 <= i < |items| && items[i].t.Bytes() == largest;
      assert gs[i] == [items[i]] && BytesOf([items[i]]) == largest by { BytesOfOne(items[i]); }
    }
  }

  lemma BytesOfOne(x: Named)
    ensures BytesOf([x]) == x.t.Bytes()
  {
    assert BytesOf([x][..0]) == 0;
  }

  lemma {:induction false} InFlat(groups: seq<seq<Named>>, k: nat, x: Named)
    requires k < |groups| && x in groups[k]
    ensures x in Flat(groups)
  {
    if k < |groups| - 1 {
      InFlat(groups[..|groups| - 1], k, x);
    }
  }

  lemma {:induction false} FlatInSome(groups: seq<seq<Named>>, x: Named)
    requires x in Flat(groups)
    ensures exists k :: 0 <= k < |groups| && x in groups[k]
  {
    if x !in groups[|groups| - 1] {
      FlatInSome(groups[..|groups| - 1], x);
      var k :| 0 <= k < |groups| - 1 && x in groups[..|groups| - 1][k];
      assert x in groups[k];
    }
  }

  /** Of distinct names, each is in one shard only. */
  lemma {:induction false} OneShardEach(groups: seq<seq<Named>>, j: nat, k: nat, x: Named, y: Named)
    requires NamesDistinct(Flat(groups)) && j < |groups| && k < |groups| && x in groups[j] && y in groups[k]
    requires x.name == y.name
    ensures j == k && x == y
  {
    var n := |groups| - 1;
    var front, last := Flat(groups[..n]), groups[n];
    var all := Flat(groups);
    assert all == front + last;
    assert forall i :: 0 <= i < |front| ==> all[i] == front[i];
    assert forall i :: 0 <= i < |last| ==> all[|front| + i] == last[i];
    if j < n && k < n {
      OneShardEach(groups[..n], j, k, x, y);
    } else if j < n {
      InFlat(groups[..n], j, x);
      assert false;
    } else if k < n {
      InFlat(groups[..n], k, y);
      assert false;
    }
  }
}
