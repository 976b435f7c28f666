/** The stratified sample of tensor names that a restore re-hashes. */
module Sampling {
  import opened Options
  import Sorting

  // ----- Sorting names

  /** Order by code point, a proper prefix first. */
  predicate Leq(a: string, b: string) {
    a == "" || (b != "" && (a[0] < b[0] || (a[0] == b[0] && Leq(a[1..], b[1..]))))
  }

  lemma {:induction false} LeqTotal(a: string, b: string)
    ensures Leq(a, b) || Leq(b, a)
  {
    if a != "" && b != "" {
      LeqTotal(a[1..], b[1..]);
    }
  }

  lemma {:induction false} LeqAntisymmetric(a: string, b: string)
    requires Leq(a, b) && Leq(b, a)
    ensures a == b
  {
    if a != "" {
      LeqAntisymmetric(a[1..], b[1..]);
      assert a == [a[0]] + a[1..] && b == [b[0]] + b[1..];
    }
  }

  lemma {:induction false} LeqTransitive(a: string, b: string, c: string)
    requires Leq(a, b) && Leq(b, c)
    ensures Leq(a, c)
  {
    if a != "" && a[0] == b[0] && b[0] == c[0] {
      LeqTransitive(a[1..], b[1..], c[1..]);
    }
  }

  /** Either the first is a prefix of the second, or it has the smaller letter at the first place they differ. */
  lemma {:induction false} LeqMeans(a: string, b: string)
    ensures Leq(a, b) <==> a <= b || exists i :: 0 <= i < |a| && i < |b| && a[..i] == b[..i] && a[i] < b[i]
  {
    if a != "" && b != "" {
      assert a == [a[0]] + a[1..] && b == [b[0]] + b[1..];
      LeqMeans(a[1..], b[1..]);
      if a[0] < b[0] {
        assert a[..0] == b[..0] && a[0] < b[0];
      }
      if a[0] == b[0] {
        DifferBehind(a, b);
      }
    }
  }

  lemma DifferBehind(a: string, b: string)
    requires a != "" && b != "" && a[0] == b[0]
    ensures (exists i :: 0 <= i < |a| && i < |b| && a[..i] == b[..i] && a[i] < b[i])
       <==> (exists i :: 0 <= i < |a[1..]| && i < |b[1..]| && a[1..][..i] == b[1..][..i] && a[1..][i] < b[1..][i])
  {
    if i :| 0 <= i < |a| && i < |b| && a[..i] == b[..i] && a[i] < b[i] {
      assert i > 0;
      assert a[1..][..i - 1] == a[..i][1..] && b[1..][..i - 1] == b[..i][1..];
      assert a[1..][i - 1] < b[1..][i - 1];
    }
    if i :| 0 <= i < |a[1..]| && i < |b[1..]| && a[1..][..i] == b[1..][..i] && a[1..][i] < b[1..][i] {
      assert a[..i + 1] == [a[0]] + a[1..][..i] && b[..i + 1] == [b[0]] + b[1..][..i];
      assert a[i + 1] < b[i + 1];
    }
  }

  lemma LeqIsOrder()
    ensures Sorting.TotalOrder(Leq)
  {
    forall x: string, y: string
      ensures Leq(x, y) || Leq(y, x)
      ensures Leq(x, y) && Leq(y, x) ==> x == y
    {
      LeqTotal(x, y);
      if Leq(x, y) && Leq(y, x) {
        LeqAntisymmetric(x, y);
      }
    }
    forall x: string, y: string, z: string | Leq(x, y) && Leq(y, z)
      ensures Leq(x, z)
    {
      LeqTransitive(x, y, z);
    }
  }

  function Sorted(s: seq<string>): (r: seq<string>)
    ensures |r| == |s|
  {
    Sorting.Sorted(s, Leq)
  }

  lemma SortedKeeps(s: seq<string>)
    ensures Sorting.Ascending(Sorted(s), Leq) && multiset(Sorted(s)) == multiset(s)
  {
    LeqIsOrder();
    Sorting.SortedKeeps(s, Leq);
  }

  // ----- Kinds of tensor

  datatype Kind = Expert | Attention | Embedding | Norm | Rest

  predicate Contains(s: string, part: string) {
    part <= s || (s != "" && Contains(s[1..], part))
  }

  lemma {:induction false} ContainsMeans(s: string, part: string)
    ensures Contains(s, part) <==> exists i :: 0 <= i <= |s| && part <= s[i..]
  {
    assert s[0..] == s;
    if s != "" {
      ContainsMeans(s[1..], part);
      if i :| 0 <= i <= |s[1..]| && part <= s[1..][i..] {
        assert s[1..][i..] == s[i + 1..];
      }
      if i :| 0 < i <= |s| && part <= s[i..] {
        assert s[1..][i - 1..] == s[i..];
      }
    }
  }

  /** Decided on the lower-cased name, first match first. */
  function KindOf(low: string): Kind {
    if Contains(low, "expert") || Contains(low, "w13") || Contains(low, "w2_") then Expert
    else if Contains(low, "attn") || Contains(low, "_proj") || Contains(low, "kv_") || Contains(low, "q_") then
      Attention
    else if Contains(low, "embed") || Contains(low, "lm_head") then Embedding
    else if Contains(low, "norm") then Norm
    else Rest
  }

  /** The kind of a name, its letters made small first. */
  function ByRules(lower: string -> string): string -> Kind {
    (name: string) => KindOf(lower(name))
  }

  /** The order in which the kinds are served. */
  const KINDS := [Expert, Attention, Embedding, Norm, Rest]

  lemma KindsAreAll()
    ensures Distinct(KINDS) && forall k: Kind :: k in KINDS
  {
    forall k: Kind
      ensures k in KINDS
    {
      match k
      case Expert => assert KINDS[0] == k;
      case Attention => assert KINDS[1] == k;
      case Embedding => assert KINDS[2] == k;
      case Norm => assert KINDS[3] == k;
      case Rest => assert KINDS[4] == k;
    }
  }

  /** What a name speaks of; the rest is what is left. */
  ghost predicate Speaks(low: string, kind: Kind) {
    match kind
    case Expert => Contains(low, "expert") || Contains(low, "w13") || Contains(low, "w2_")
    case Attention => Contains(low, "attn") || Contains(low, "_proj") || Contains(low, "kv_") || Contains(low, "q_")
    case Embedding => Contains(low, "embed") || Contains(low, "lm_head")
    case Norm => Contains(low, "norm")
    case Rest => true
  }

  /** The kind of a name is the first in the order of serving that it speaks of. */
  lemma KindIsFirst(low: string, at: nat)
    requires at < |KINDS|
    ensures KindOf(low) == KINDS[at] <==> Speaks(low, KINDS[at]) && forall j :: 0 <= j < at ==> !Speaks(low, KINDS[j])
  {
    hide Contains;
    assert KINDS[0] == Expert && KINDS[1] == Attention && KINDS[2] == Embedding && KINDS[3] == Norm && KINDS[4] == Rest;
  }

  ghost predicate Distinct<T>(s: seq<T>) {
    forall i, j :: 0 <= i < j < |s| ==> s[i] != s[j]
  }

  // ----- The pieces of the sample

  /** The names of one kind, in order. */
  function Bucket(sorted: seq<string>, kind: Kind, kindOf: string -> Kind): seq<string> {
    if sorted == [] then []
    else
      var b := Bucket(sorted[..|sorted| - 1], kind, kindOf);
      var x := sorted[|sorted| - 1];
      if kindOf(x) == kind then b + [x] else b
  }

  /** The kinds, among the given ones, that have names. */
  function Live(kinds: seq<Kind>, sorted: seq<string>, kindOf: string -> Kind): seq<Kind> {
    if kinds == [] then []
    else
      var l := Live(kinds[..|kinds| - 1], sorted, kindOf);
      var k := kinds[|kinds| - 1];
      if Bucket(sorted, k, kindOf) != [] then l + [k] else l
  }

  function Min(a: int, b: int): int { if a < b then a else b }

  function Max(a: int, b: int): int { if a < b then b else a }

  /** Every step-th name, at most "take" of them. */
  function Strided(b: seq<string>, step: nat, take: nat): seq<string>
    requires step > 0
    decreases take
  {
    if b == [] || take == 0 then []
    else [b[0]] + Strided(if step <= |b| then b[step..] else [], step, take - 1)
  }

  function Spread(b: seq<string>, per: nat): seq<string>
    requires per > 0 && b != []
  {
    var take := Min(per, |b|);
    Strided(b, Max(1, |b| / take), take)
  }

  /** The strata: from each live kind a spread of at most "per" names. */
  function Strata(live: seq<Kind>, sorted: seq<string>, kindOf: string -> Kind, per: nat): seq<string>
    requires per > 0 && forall k :: k in live ==> Bucket(sorted, k, kindOf) != []
  {
    if live == [] then []
    else
      Strata(live[..|live| - 1], sorted, kindOf, per) + Spread(Bucket(sorted, live[|live| - 1], kindOf), per)
  }

  /** Missing names, in order, until there are enough. */
  function Filled(out: seq<string>, sorted: seq<string>, want: int): seq<string>
    decreases |sorted|
  {
    if sorted == [] || |out| >= want then out
    else if sorted[0] in out then Filled(out, sorted[1..], want)
    else Filled(out + [sorted[0]], sorted[1..], want)
  }

  /** The first n; with a negative n, all but the last -n. */
  function FirstN(out: seq<string>, n: int): seq<string> {
    if n < 0 then (if -n <= |out| then out[..|out| + n] else [])
    else if n <= |out| then out[..n] else out
  }

  lemma LiveHasNames(kinds: seq<Kind>, sorted: seq<string>, kindOf: string -> Kind)
    ensures forall k :: k in Live(kinds, sorted, kindOf) <==> k in kinds && Bucket(sorted, k, kindOf) != []
    ensures Distinct(kinds) ==> Distinct(Live(kinds, sorted, kindOf))
    ensures |Live(kinds, sorted, kindOf)| <= |kinds|
  {
    if kinds != [] {
      var p := kinds[..|kinds| - 1];
      LiveHasNames(p, sorted, kindOf);
      assert kinds == p + [kinds[|kinds| - 1]];
    }
  }

  function Sample(kinds: seq<Kind>, names: seq<string>, n: int, kindOf: string -> Kind): seq<string> {
    var sorted := Sorted(names);
    var live := Live(kinds, sorted, kindOf);
    LiveHasNames(kinds, sorted, kindOf);
    if live == [] then []
    else
      var strata := Strata(live, sorted, kindOf, Max(1, n / |live|));
      FirstN(Filled(strata, sorted, Min(n, |names|)), n)
  }

  // ----- The loops

  method PickSample(kinds: seq<Kind>, names: seq<string>, n: int, kindOf: string -> Kind) returns (out: seq<string>)
    ensures out == Sample(kinds, names, n, kindOf)
  {
    hide Sorted, Bucket, Filled, FirstN, Strided;
    var sorted := Sorted(names);
    var buckets := SortIntoBuckets(sorted, kindOf);
    var live: seq<Kind> := [];
    for i := 0 to |kinds|
      invariant live == Live(kinds[..i], sorted, kindOf)
    {
      assert kinds[..i + 1][..i] == kinds[..i];
      if buckets[kinds[i]] != [] {
        live := live + [kinds[i]];
      }
    }
    assert kinds[..|kinds|] == kinds;
    LiveHasNames(kinds, sorted, kindOf);
    if live == [] {
      return [];
    }
    out := [];
    var per := Max(1, n / |live|);
    for i := 0 to |live|
      invariant out == Strata(live[..i], sorted, kindOf, per)
    {
      assert live[..i + 1][..i] == live[..i];
      var b := buckets[live[i]];
      var take := Min(per, |b|);
      out := out + Strided(b, Max(1, |b| / take), take);
    }
    assert live[..|live|] == live;
    out := Fill(out, sorted, Min(n, |names|));
    out := FirstN(out, n);
  }

  method SortIntoBuckets(sorted: seq<string>, kindOf: string -> Kind) returns (buckets: map<Kind, seq<string>>)
    ensures forall k: Kind :: k in buckets && buckets[k] == Bucket(sorted, k, kindOf)
  {
    buckets := map[Expert := [], Attention := [], Embedding := [], Norm := [], Rest := []];
    forall k: Kind
      ensures k in buckets && buckets[k] == []
    {
      match k case Expert => case Attention => case Embedding => case Norm => case Rest =>
    }
    for i := 0 to |sorted|
      invariant forall k: Kind :: k in buckets && buckets[k] == Bucket(sorted[..i], k, kindOf)
    {
      assert sorted[..i + 1][..i] == sorted[..i];
      var x := sorted[i];
      buckets := buckets[kindOf(x) := buckets[kindOf(x)] + [x]];
    }
    assert sorted[..|sorted|] == sorted;
  }

  method Fill(strata: seq<string>, sorted: seq<string>, want: int) returns (out: seq<string>)
    ensures out == Filled(strata, sorted, want)
  {
    out := strata;
    var i := 0;
    while i < |sorted| && |out| < want
      invariant 0 <= i <= |sorted|
      invariant Filled(strata, sorted, want) == Filled(out, sorted[i..], want)
    {
      if sorted[i] !in out {
        out := out + [sorted[i]];
      }
      i := i + 1;
    }
  }

  // ----- What the sample is

  ghost predicate Subset(a: seq<string>, b: seq<string>) {
    forall x :: x in a ==> x in b
  }

  lemma {:induction false} BucketMeaning(sorted: seq<string>, kind: Kind, kindOf: string -> Kind)
    requires Distinct(sorted)
    ensures Distinct(Bucket(sorted, kind, kindOf))
    ensures forall x :: x in Bucket(sorted, kind, kindOf) <==> x in sorted && kindOf(x) == kind
  {
    if sorted != [] {
      var p, x := sorted[..|sorted| - 1], sorted[|sorted| - 1];
      BucketMeaning(p, kind, kindOf);
      assert sorted == p + [x];
    }
  }

  lemma {:induction false} StridedMeaning(b: seq<string>, step: nat, take: nat)
    requires step > 0 && step * take <= |b| && Distinct(b)
    ensures var r := Strided(b, step, take);
            && |r| == take && Distinct(r) && Subset(r, b) && (take > 0 ==> b[0] in r)
    decreases take
  {
    if take > 0 {
      assert step * take == step + step * (take - 1);
      StridedMeaning(b[step..], step, take - 1);
      var rest := Strided(b[step..], step, take - 1);
      assert b[0] !in b[step..];
    }
  }

  lemma SpreadMeaning(b: seq<string>, per: nat)
    requires per > 0 && b != [] && Distinct(b)
    ensures var r := Spread(b, per);
            && 1 <= |r| <= per && Distinct(r) && Subset(r, b) && b[0] in r
  {
    var take := Min(per, |b|);
    var step := Max(1, |b| / take);
    assert take * (|b| / take) <= |b|;
    StridedMeaning(b, step, take);
  }

  /** The longest stride at which that many names can be taken. */
  lemma Stride(size: nat, take: nat)
    requires 0 < take <= size
    ensures size / take > 0 && (size / take) * take <= size < (size / take + 1) * take
  {
    var step := size / take;
    assert size == take * step + size % take;
    assert take * step == step * take && (step + 1) * take == step * take + take;
  }

  /** The names taken from a bucket stand evenly, each a stride behind the one before. */
  lemma SpreadEvenly(b: seq<string>, per: nat, j: nat)
    requires per > 0 && b != [] && j < Min(per, |b|)
    ensures |Spread(b, per)| == Min(per, |b|)
    ensures InBucket(j, |b| / Min(per, |b|), b) && Spread(b, per)[j] == b[j * (|b| / Min(per, |b|))]
  {
    hide Strided;
    var take := Min(per, |b|);
    Stride(|b|, take);
    StridedAt(b, |b| / take, take, j, j * (|b| / take));
  }

  ghost predicate InBucket(j: nat, step: nat, b: seq<string>) { 0 <= j * step < |b| }

  lemma StepBack(j: nat, step: nat)
    requires j > 0
    ensures (j - 1) * step + step == j * step
  {
  }

  lemma {:induction false} StridedAt(b: seq<string>, step: nat, take: nat, j: nat, at: nat)
    requires step > 0 && step * take <= |b| && j < take && at == j * step
    ensures at < |b| && |Strided(b, step, take)| == take && Strided(b, step, take)[j] == b[at]
    decreases take
  {
    StepBack(take, step);
    if j > 0 {
      StepBack(j, step);
      StridedAt(b[step..], step, take - 1, j - 1, at - step);
    } else if take > 1 {
      StridedAt(b[step..], step, take - 1, 0, 0);
    }
  }

  ghost predicate AllLive(live: seq<Kind>, sorted: seq<string>, kindOf: string -> Kind) {
    Distinct(live) && forall k :: k in live ==> Bucket(sorted, k, kindOf) != []
  }

  lemma OneMore(per: nat, n: nat)
    ensures per * (n + 1) == per * n + per
  {
  }

  lemma {:induction false} StrataSize(live: seq<Kind>, sorted: seq<string>, kindOf: string -> Kind, per: nat)
    requires per > 0 && Distinct(sorted) && AllLive(live, sorted, kindOf)
    ensures |live| <= |Strata(live, sorted, kindOf, per)| <= per * |live|
  {
    if live != [] {
      var n := |live| - 1;
      StrataSize(live[..n], sorted, kindOf, per);
      StratumSize(sorted, live[n], kindOf, per);
      OneMore(per, n);
      var front := Strata(live[..n], sorted, kindOf, per);
      assert |front| <= per * n;
      assert |Strata(live, sorted, kindOf, per)| == |front| + |Spread(Bucket(sorted, live[n], kindOf), per)|;
    }
  }

  lemma StratumSize(sorted: seq<string>, k: Kind, kindOf: string -> Kind, per: nat)
    requires per > 0 && Distinct(sorted) && Bucket(sorted, k, kindOf) != []
    ensures 1 <= |Spread(Bucket(sorted, k, kindOf), per)| <= per
  {
    BucketMeaning(sorted, k, kindOf);
    SpreadMeaning(Bucket(sorted, k, kindOf), per);
  }

  lemma {:induction false} StrataMeaning(live: seq<Kind>, sorted: seq<string>, kindOf: string -> Kind, per: nat)
    requires per > 0 && Distinct(sorted) && AllLive(live, sorted, kindOf)
    ensures var r := Strata(live, sorted, kindOf, per);
            Distinct(r) && Subset(r, sorted) && forall x :: x in r ==> kindOf(x) in live
  {
    if live != [] {
      var p, k := live[..|live| - 1], live[|live| - 1];
      assert live == p + [k];
      StrataMeaning(p, sorted, kindOf, per);
      BucketMeaning(sorted, k, kindOf);
      SpreadMeaning(Bucket(sorted, k, kindOf), per);
      StratumAdds(p, k, Strata(p, sorted, kindOf, per), Spread(Bucket(sorted, k, kindOf), per), kindOf);
    }
  }

  lemma StratumAdds(live: seq<Kind>, k: Kind, front: seq<string>, back: seq<string>, kindOf: string -> Kind)
    requires k !in live && Distinct(front) && Distinct(back)
    requires (forall x :: x in front ==> kindOf(x) in live) && (forall x :: x in back ==> kindOf(x) == k)
    ensures Distinct(front + back) && forall x :: x in front + back ==> kindOf(x) in live + [k]
  {
    forall i, j | 0 <= i < |front| && 0 <= j < |back|
      ensures front[i] != back[j]
    {
      assert front[i] in front && back[j] in back;
    }
  }

  lemma {:induction false} StrataCover(live: seq<Kind>, sorted: seq<string>, kindOf: string -> Kind, per: nat, k: Kind)
    requires per > 0 && Distinct(sorted) && AllLive(live, sorted, kindOf) && k in live
    ensures Bucket(sorted, k, kindOf)[0] in Strata(live, sorted, kindOf, per)
  {
    var p, last := live[..|live| - 1], live[|live| - 1];
    assert live == p + [last];
    if k == last {
      BucketMeaning(sorted, k, kindOf);
      SpreadMeaning(Bucket(sorted, k, kindOf), per);
    } else {
      StrataCover(p, sorted, kindOf, per, k);
    }
  }

  /** Filling adds exactly what is missing, up to the wanted number. */
  lemma {:induction false} FilledMeaning(out: seq<string>, sorted: seq<string>, want: int)
    requires Distinct(out) && Distinct(sorted)
    ensures var r := Filled(out, sorted, want);
            && Distinct(r) && out <= r && Subset(r, out + sorted)
            && (|r| == Max(|out|, want) || (|r| < want && Subset(sorted, r)))
    decreases |sorted|
  {
    if sorted != [] && |out| < want {
      var more := if sorted[0] in out then out else out + [sorted[0]];
      FilledMeaning(more, sorted[1..], want);
      assert sorted == [sorted[0]] + sorted[1..] && sorted[0] in more;
      var r := Filled(out, sorted, want);
      assert forall x :: x in more ==> x in r;
    }
  }

  lemma {:induction false} DistinctSize<T(!new)>(a: seq<T>)
    requires Distinct(a)
    ensures |set x | x in a| == |a|
  {
    if a != [] {
      DistinctSize(a[1..]);
      assert (set x | x in a) == {a[0]} + set x | x in a[1..];
    }
  }

  lemma SubsetSize(a: seq<string>, b: seq<string>)
    requires Distinct(a) && Distinct(b) && Subset(a, b)
    ensures |a| <= |b|
  {
    DistinctSize(a);
    DistinctSize(b);
    SetSize(set x | x in a, set x | x in b);
  }

  lemma SetSize<T>(a: set<T>, b: set<T>)
    requires a <= b
    ensures |a| <= |b|
  {
    assert b == a + (b - a);
  }

  lemma SortedNames(names: seq<string>)
    requires Distinct(names)
    ensures Distinct(Sorted(names)) && forall x :: x in Sorted(names) <==> x in names
  {
    SortedKeeps(names);
    forall x
      ensures x in Sorted(names) <==> x in names
    {
      assert x in Sorted(names) <==> x in multiset(Sorted(names));
      assert x in names <==> x in multiset(names);
    }
    OncePerName(names);
    DistinctFromCounts(Sorted(names));
  }

  lemma {:induction false} OncePerName(s: seq<string>)
    requires Distinct(s)
    ensures forall x :: multiset(s)[x] <= 1
  {
    if s != [] {
      OncePerName(s[1..]);
      assert s == [s[0]] + s[1..];
    }
  }

  lemma CountedTwice(s: seq<string>, i: nat, j: nat)
    requires i < j < |s| && s[i] == s[j]
    ensures multiset(s)[s[i]] >= 2
  {
    assert s == s[..i] + [s[i]] + s[i + 1..j] + [s[j]] + s[j + 1..];
  }

  lemma DistinctFromCounts(s: seq<string>)
    requires forall x :: multiset(s)[x] <= 1
    ensures Distinct(s)
  {
    forall i, j | 0 <= i < j < |s|
      ensures s[i] != s[j]
    {
      if s[i] == s[j] {
        CountedTwice(s, i, j);
      }
    }
  }

  ghost predicate IsSample(out: seq<string>, names: seq<string>, n: nat) {
    |out| == Min(n, |names|) && Distinct(out) && Subset(out, names)
  }

  /** The kinds that occur. */
  ghost function KindsAmong(names: seq<string>, kindOf: string -> Kind): set<Kind> {
    set x | x in names :: kindOf(x)
  }

  lemma LiveOccur(kinds: seq<Kind>, sorted: seq<string>, names: seq<string>, kindOf: string -> Kind)
    requires Distinct(sorted) && Distinct(kinds) && Subset(sorted, names)
    ensures |Live(kinds, sorted, kindOf)| <= |KindsAmong(names, kindOf)|
  {
    hide Live, Bucket;
    var live := Live(kinds, sorted, kindOf);
    LiveHasNames(kinds, sorted, kindOf);
    forall k | k in live
      ensures k in KindsAmong(names, kindOf)
    {
      BucketMeaning(sorted, k, kindOf);
      assert Bucket(sorted, k, kindOf)[0] in names;
    }
    DistinctSize(live);
    var occurring := set k | k in live;
    SetSize(occurring, KindsAmong(names, kindOf));
  }

  /** For distinct names and n at least zero: exactly min(n, number of names) distinct ones, and with n
      no smaller than the number of kinds that occur, one at least of every kind that occurs. */
  lemma SampleMeaning(kinds: seq<Kind>, names: seq<string>, n: nat, kindOf: string -> Kind)
    requires Distinct(names) && Distinct(kinds) && forall k: Kind :: k in kinds
    ensures IsSample(Sample(kinds, names, n, kindOf), names, n)
    ensures n >= |KindsAmong(names, kindOf)| ==>
              forall x :: x in names ==> exists y :: y in Sample(kinds, names, n, kindOf) && kindOf(y) == kindOf(x)
  {
    var sorted := Sorted(names);
    var live := Live(kinds, sorted, kindOf);
    SortedNames(names);
    LiveHasNames(kinds, sorted, kindOf);
    LiveOccur(kinds, sorted, names, kindOf);
    forall x | x in names
      ensures kindOf(x) in live
    {
      BucketMeaning(sorted, kindOf(x), kindOf);
    }
    assert names != [] ==> kindOf(names[0]) in live;
    if live != [] {
      PerFits(n, |live|);
      SampleOfLive(names, sorted, live, Max(1, n / |live|), n, kindOf);
    }
  }

  lemma SampleOfLive(names: seq<string>, sorted: seq<string>, live: seq<Kind>, per: nat, n: nat, kindOf: string -> Kind)
    requires Distinct(names) && Distinct(sorted) && Subset(sorted, names) && |sorted| == |names|
    requires live != [] && AllLive(live, sorted, kindOf) && forall x :: x in names ==> kindOf(x) in live
    requires per > 0 && (n >= |live| ==> per * |live| <= n) && (n < |live| ==> per == 1)
    ensures var out := FirstN(Filled(Strata(live, sorted, kindOf, per), sorted, Min(n, |names|)), n);
            && IsSample(out, names, n)
            && (n >= |live| ==> forall x :: x in names ==> exists y :: y in out && kindOf(y) == kindOf(x))
  {
    hide Strata, Filled;
    var strata := Strata(live, sorted, kindOf, per);
    StrataMeaning(live, sorted, kindOf, per);
    StrataSize(live, sorted, kindOf, per);
    SubsetSize(strata, sorted);
    FillToSize(strata, sorted, Min(n, |names|));
    var filled := Filled(strata, sorted, Min(n, |names|));
    if n >= |live| {
      assert filled[..|filled|] == filled;
      CoverAll(names, sorted, live, per, filled, kindOf);
    }
  }

  lemma CoverAll(names: seq<string>, sorted: seq<string>, live: seq<Kind>, per: nat, out: seq<string>,
                 kindOf: string -> Kind)
    requires per > 0 && Distinct(sorted) && AllLive(live, sorted, kindOf)
    requires Subset(Strata(live, sorted, kindOf, per), out)
    requires forall x :: x in names ==> kindOf(x) in live
    ensures forall x :: x in names ==> exists y :: y in out && kindOf(y) == kindOf(x)
  {
    forall x | x in names
      ensures exists y :: y in out && kindOf(y) == kindOf(x)
    {
      StrataCover(live, sorted, kindOf, per, kindOf(x));
      BucketMeaning(sorted, kindOf(x), kindOf);
      var y := Bucket(sorted, kindOf(x), kindOf)[0];
      assert y in out && kindOf(y) == kindOf(x);
    }
  }

  lemma FillToSize(strata: seq<string>, sorted: seq<string>, want: nat)
    requires Distinct(strata) && Distinct(sorted) && Subset(strata, sorted) && want <= |sorted|
    ensures var r := Filled(strata, sorted, want);
            |r| == Max(|strata|, want) && Distinct(r) && Subset(r, sorted) && Subset(strata, r)
  {
    FilledMeaning(strata, sorted, want);
    var r := Filled(strata, sorted, want);
    if |r| < want {
      SubsetSize(sorted, r);
    }
  }

  /** Too few for every kind: the kinds that come first in the order of serving give their least name each. */
  lemma FewOfEach(kinds: seq<Kind>, names: seq<string>, n: nat, kindOf: string -> Kind, i: nat)
    requires Distinct(names) && Distinct(kinds)
    requires var live := Live(kinds, Sorted(names), kindOf); n <= |live| && i < n
    ensures var live := Live(kinds, Sorted(names), kindOf);
            && i < |Sample(kinds, names, n, kindOf)|
            && Bucket(Sorted(names), live[i], kindOf) != []
            && Sample(kinds, names, n, kindOf)[i] == Bucket(Sorted(names), live[i], kindOf)[0]
  {
    hide Strata, Filled, Live, Bucket, Sorted, FirstN, Max;
    var sorted := Sorted(names);
    var live := Live(kinds, sorted, kindOf);
    SortedNames(names);
    LiveHasNames(kinds, sorted, kindOf);
    PerIsOne(n, |live|);
    OneOfEach(live, sorted, kindOf);
    var strata := Strata(live, sorted, kindOf, 1);
    StrataMeaning(live, sorted, kindOf, 1);
    FilledMeaning(strata, sorted, Min(n, |names|));
    PrefixKept(strata, Filled(strata, sorted, Min(n, |names|)), n, i);
  }

  /** A negative n takes one of each kind but for the last -n of them. */
  lemma NegativeDraw(kinds: seq<Kind>, names: seq<string>, n: int, kindOf: string -> Kind)
    requires Distinct(names) && Distinct(kinds) && n < 0
    ensures var live := Live(kinds, Sorted(names), kindOf);
            && |Sample(kinds, names, n, kindOf)| == Max(0, |live| + n)
            && forall i :: 0 <= i < |live| + n ==>
                 && Bucket(Sorted(names), live[i], kindOf) != []
                 && Sample(kinds, names, n, kindOf)[i] == Bucket(Sorted(names), live[i], kindOf)[0]
  {
    hide Strata, Live, Bucket, Sorted;
    var sorted := Sorted(names);
    var live := Live(kinds, sorted, kindOf);
    LiveHasNames(kinds, sorted, kindOf);
    if live != [] {
      NegativeShare(n, |live|);
      OneOfEach(live, sorted, kindOf);
      NothingFilled(Strata(live, sorted, kindOf, 1), sorted, Min(n, |names|));
    }
  }

  lemma NegativeShare(n: int, kinds: nat)
    requires n < 0 < kinds
    ensures Max(1, n / kinds) == 1
  {
  }

  lemma NothingFilled(out: seq<string>, sorted: seq<string>, want: int)
    requires want <= |out|
    ensures Filled(out, sorted, want) == out
  {
  }

  lemma PerIsOne(n: nat, kinds: nat)
    requires 0 < n <= kinds
    ensures Max(1, n / kinds) == 1
  {
  }

  lemma PrefixKept(a: seq<string>, b: seq<string>, n: nat, i: nat)
    requires a <= b && i < n <= |a|
    ensures i < |FirstN(b, n)| && FirstN(b, n)[i] == a[i]
  {
  }

  lemma {:induction false} OneOfEach(live: seq<Kind>, sorted: seq<string>, kindOf: string -> Kind)
    requires forall k :: k in live ==> Bucket(sorted, k, kindOf) != []
    ensures var r := Strata(live, sorted, kindOf, 1);
            |r| == |live| && forall i :: 0 <= i < |live| ==> r[i] == Bucket(sorted, live[i], kindOf)[0]
  {
    hide Bucket;
    if live != [] {
      OneOfEach(live[..|live| - 1], sorted, kindOf);
    }
  }

  lemma FirstNWithin(out: seq<string>, n: int)
    ensures Subset(FirstN(out, n), out)
  {
  }

  /** Whatever n is, only given names are drawn. */
  lemma SampleWithin(kinds: seq<Kind>, names: seq<string>, n: int, kindOf: string -> Kind)
    requires Distinct(names) && Distinct(kinds)
    ensures Subset(Sample(kinds, names, n, kindOf), names)
  {
    hide Strata, Filled, Sorted, Live, FirstN;
    var sorted := Sorted(names);
    var live := Live(kinds, sorted, kindOf);
    SortedNames(names);
    LiveHasNames(kinds, sorted, kindOf);
    if live != [] {
      var per := Max(1, n / |live|);
      StrataMeaning(live, sorted, kindOf, per);
      FilledMeaning(Strata(live, sorted, kindOf, per), sorted, Min(n, |names|));
      var out := Filled(Strata(live, sorted, kindOf, per), sorted, Min(n, |names|));
      FirstNWithin(out, n);
    }
  }

  lemma PerFits(n: nat, kinds: nat)
    requires kinds > 0
    ensures n >= kinds ==> Max(1, n / kinds) * kinds <= n
    ensures n < kinds ==> Max(1, n / kinds) == 1
  {
    assert (n / kinds) * kinds <= n;
  }

  /** The sample does not depend on the order in which the names come. */
  lemma SampleOrderFree(kinds: seq<Kind>, names: seq<string>, others: seq<string>, n: int, kindOf: string -> Kind)
    requires multiset(names) == multiset(others)
    ensures Sample(kinds, names, n, kindOf) == Sample(kinds, others, n, kindOf)
  {
    LeqIsOrder();
    Sorting.SortedOrderFree(names, others, Leq);
    assert |multiset(names)| == |names| && |multiset(others)| == |others|;
  }
}
