/** Restoring a dumped model into the tensors of one that has just been built: the gates, the shards, the
    aliases, and the hashes of a sample. */
module Restoring {
  import opened Options
  import opened Identity
  import opened TensorMemory
  import opened Sidecar
  import Sampling

  /** The tensors of the model that is being restored. */
  type Tensors = map<string, Tensor>

  ghost predicate AllLaid(ts: Tensors, size: nat) {
    forall n :: n in ts && !ts[n].onMeta ==> Laid(ts[n], size)
  }

  // ----- What a name should hold

  function Source(m: Model, n: string): string
    requires n in m.tensors
  {
    if m.tensors[n].aliasOf.Some? then m.tensors[n].aliasOf.value else n
  }

  predicate Held(m: Model, files: map<string, File>, n: string) {
    && n in m.tensors && m.tensors[n].aliasOf.None? && m.tensors[n].shard.Some? && m.tensors[n].shard.value in m.shards
    && var s := m.tensors[n].shard.value;
       s in files && files[s].Whole? && n in files[s].tensors
  }

  /** The bytes the directory holds for a name; none when its shard does not hold it. */
  function Goal(m: Model, files: map<string, File>, n: string): seq<byte>
    requires n in m.tensors
  {
    var o := Source(m, n);
    if Held(m, files, o) then files[m.tensors[o].shard.value].tensors[o] else []
  }

  /** Two names are apart in memory, or share all of it and then should hold the same. */
  ghost predicate Coherent(m: Model, files: map<string, File>, ts: Tensors) {
    forall a, b :: a in m.tensors && b in m.tensors && a in ts && b in ts && !ts[a].onMeta && !ts[b].onMeta ==>
                     Apart(ts[a], ts[b]) || (ts[a].addrs == ts[b].addrs && Goal(m, files, a) == Goal(m, files, b))
  }

  ghost predicate HoldsGoal(m: Model, files: map<string, File>, ts: Tensors, mem: seq<byte>, n: string) {
    n in m.tensors && n in ts && !ts[n].onMeta && Canon(mem, ts[n]) == Goal(m, files, n)
  }

  /** A part of the names that overlaps no other name, and within itself only where names share all of their memory
      and should hold the same; with a name it has the one that name points at. */
  ghost predicate Separate(m: Model, files: map<string, File>, ts: Tensors, part: set<string>) {
    && (forall a :: a in part && a in m.tensors && m.tensors[a].aliasOf.Some?
                    && m.tensors[a].aliasOf.value in m.tensors ==>
                      m.tensors[a].aliasOf.value in part)
    && (forall a, b :: a in part && a in m.tensors && b in m.tensors && a in ts && b in ts
                       && !ts[a].onMeta && !ts[b].onMeta ==>
                         || Apart(ts[a], ts[b])
                         || (b in part && ts[a].addrs == ts[b].addrs && Goal(m, files, a) == Goal(m, files, b)))
  }

  lemma CoherentIsSeparate(m: Model, files: map<string, File>, ts: Tensors)
    requires Coherent(m, files, ts)
    ensures Separate(m, files, ts, m.tensors.Keys)
  {
  }

  /** The names done so far hold what they should, in every separate part: what overlaps elsewhere does not matter. */
  ghost predicate Good(m: Model, files: map<string, File>, ts: Tensors, mem: seq<byte>, done: set<string>) {
    forall part: set<string>, n :: Separate(m, files, ts, part) && n in part && n in done ==>
      HoldsGoal(m, files, ts, mem, n)
  }

  /** No byte outside the tensors has changed. */
  ghost predicate OnlyTensors(ts: Tensors, before: seq<byte>, after: seq<byte>) {
    |before| == |after| && forall a :: 0 <= a < |before| && (forall n :: n in ts ==> a !in ts[n].addrs) ==>
      after[a] == before[a]
  }

  ghost predicate OnlyAt(t: Tensor, before: seq<byte>, after: seq<byte>) {
    |before| == |after| && forall a :: 0 <= a < |before| && a !in t.addrs ==> after[a] == before[a]
  }

  lemma OnlyTensorsMore(ts: Tensors, n: string, a: seq<byte>, b: seq<byte>, c: seq<byte>)
    requires n in ts && OnlyTensors(ts, a, b) && OnlyAt(ts[n], b, c)
    ensures OnlyTensors(ts, a, c)
  {
  }

  /** Writing what a name should hold spoils no other name. */
  lemma GoodGrows(m: Model, files: map<string, File>, ts: Tensors, before: seq<byte>, after: seq<byte>,
                  done: set<string>, n: string)
    requires Good(m, files, ts, before, done) && AllLaid(ts, |before|)
    requires n in m.tensors && n in ts && !ts[n].onMeta && OnlyAt(ts[n], before, after)
    requires forall part :: Separate(m, files, ts, part) && n in part ==> Canon(after, ts[n]) == Goal(m, files, n)
    ensures Good(m, files, ts, after, done + {n})
  {
    hide Separate, Goal;
    forall part: set<string>, x | Separate(m, files, ts, part) && x in part && x in done + {n}
      ensures HoldsGoal(m, files, ts, after, x)
    {
      if x != n {
        assert HoldsGoal(m, files, ts, before, x);
        CanonAfter(before, after, ts[n], ts[x]);
        ApartOrSame(m, files, ts, part, x, n);
      }
    }
  }

  lemma ApartOrSame(m: Model, files: map<string, File>, ts: Tensors, part: set<string>, a: string, b: string)
    requires Separate(m, files, ts, part) && a in part && a in m.tensors && b in m.tensors
    requires a in ts && b in ts && !ts[a].onMeta && !ts[b].onMeta
    ensures Apart(ts[b], ts[a]) || (b in part && ts[a].addrs == ts[b].addrs && Goal(m, files, a) == Goal(m, files, b))
  {
    hide Goal;
  }

  // ----- Shards

  datatype Result =
    | Restored
    | NoManifest | WrongRank | Stale | NoSuchModel | OtherModel | OtherNames
    | Unreadable(shard: string) | ShapeChanged(name: string) | Absent(name: string) | SizeChanged(name: string)
    | StillOnMeta(name: string) | LostAlias(name: string)
    | HashMismatch(names: seq<string>)

  /** Nothing stands against restoring a stored tensor. */
  ghost predicate Fits(m: Model, files: map<string, File>, ts: Tensors, n: string) {
    && Held(m, files, n) && n in ts && !ts[n].onMeta
    && ts[n].shape == m.tensors[n].shape && ts[n].dtype == m.tensors[n].dtype
    && m.tensors[n].nbytes == ts[n].Bytes() == |files[m.tensors[n].shard.value].tensors[n]|
  }

  /** One tensor from its shard, unless its record or its bytes do not fit. */
  method RestoreOne(mem: array<byte>, m: Model, ts: Tensors, n: string, sd: map<string, seq<byte>>) returns (r: Result)
    requires AllLaid(ts, mem.Length) && n in m.tensors && n in ts
    modifies mem
    ensures r == Restored
       <==> n in sd && !ts[n].onMeta && ts[n].shape == m.tensors[n].shape && ts[n].dtype == m.tensors[n].dtype
                               && m.tensors[n].nbytes == ts[n].Bytes() == |sd[n]|
    ensures r == Restored ==> Canon(mem[..], ts[n]) == sd[n]
    ensures r != Restored ==> mem[..] == old(mem[..])
    ensures r == ShapeChanged(n) <==> ts[n].shape != m.tensors[n].shape || ts[n].dtype != m.tensors[n].dtype
    ensures r == Absent(n) <==> n !in sd && ts[n].shape == m.tensors[n].shape && ts[n].dtype == m.tensors[n].dtype
    ensures !Gate(r) && !r.HashMismatch?
    ensures OnlyAt(ts[n], old(mem[..]), mem[..])
  {
    var dst, meta := ts[n], m.tensors[n];
    if dst.shape != meta.shape || dst.dtype != meta.dtype {
      return ShapeChanged(n);
    }
    if n !in sd {
      return Absent(n);
    }
    if |sd[n]| != meta.nbytes {
      return SizeChanged(n);
    }
    if dst.onMeta {
      return StillOnMeta(n);
    }
    if |sd[n]| != dst.Bytes() {
      return SizeChanged(n);
    }
    WriteBack(mem, dst, sd[n]);
    return Restored;
  }

  /** The names, in the order of the manifest, whose bytes are in a shard. */
  function InShard(m: Model, order: seq<string>, shard: string): seq<string>
    requires forall n :: n in order ==> n in m.tensors
  {
    if order == [] then []
    else
      var n := order[|order| - 1];
      InShard(m, order[..|order| - 1], shard)
      + if m.tensors[n].aliasOf.None? && m.tensors[n].shard == Some(shard) then [n] else []
  }

  lemma {:induction false} InShardMeaning(m: Model, order: seq<string>, shard: string)
    requires forall n :: n in order ==> n in m.tensors
    ensures forall n :: n in InShard(m, order, shard) <==>
              n in order && m.tensors[n].aliasOf.None? && m.tensors[n].shard == Some(shard)
  {
    if order != [] {
      InShardMeaning(m, order[..|order| - 1], shard);
    }
  }

  ghost function Elements(names: seq<string>): set<string> { set n | n in names }

  lemma ElementsMore(done: set<string>, names: seq<string>, i: nat)
    requires i < |names|
    ensures done + Elements(names[..i + 1]) == done + Elements(names[..i]) + {names[i]}
  {
    assert names[..i + 1] == names[..i] + [names[i]];
  }

  ghost predicate AllFit(m: Model, files: map<string, File>, ts: Tensors, names: seq<string>) {
    forall n :: n in names ==> Fits(m, files, ts, n)
  }

  predicate Due(m: Model, ts: Tensors, n: string, shard: string) {
    n in ts && n in m.tensors && m.tensors[n].aliasOf.None? && m.tensors[n].shard == Some(shard)
  }

  /** The next tensor of a shard; the ones done before keep what they hold. */
  method RestoreNext(mem: array<byte>, m: Model, files: map<string, File>, ts: Tensors, n: string, shard: string,
                     ghost done: set<string>)
    returns (r: Result)
    requires AllLaid(ts, mem.Length) && Good(m, files, ts, mem[..], done) && shard in m.shards
    requires Due(m, ts, n, shard) && shard in files && files[shard].Whole?
    modifies mem
    ensures r == Restored <==> Fits(m, files, ts, n)
    ensures r == Restored ==> Good(m, files, ts, mem[..], done + {n})
    ensures !Gate(r) && !r.HashMismatch? && OnlyAt(ts[n], old(mem[..]), mem[..])
  {
    ghost var before := mem[..];
    r := RestoreOne(mem, m, ts, n, files[shard].tensors);
    if r == Restored {
      GoodGrows(m, files, ts, before, mem[..], done, n);
    }
  }

  method RestoreNames(mem: array<byte>, m: Model, files: map<string, File>, ts: Tensors, names: seq<string>,
                      shard: string, ghost done: set<string>)
    returns (r: Result)
    requires AllLaid(ts, mem.Length) && Good(m, files, ts, mem[..], done) && shard in m.shards
    requires shard in files && files[shard].Whole? && forall n :: n in names ==> Due(m, ts, n, shard)
    modifies mem
    ensures r == Restored <==> AllFit(m, files, ts, names)
    ensures r == Restored ==> Good(m, files, ts, mem[..], done + Elements(names))
    ensures !Gate(r) && !r.HashMismatch? && OnlyTensors(ts, old(mem[..]), mem[..])
  {
    hide Good, OnlyTensors, OnlyAt, Elements, Fits, Due, Held;
    Untouched(ts, mem[..]);
    NoElements(done);
    for i := 0 to |names|
      invariant forall j :: 0 <= j < i ==> Fits(m, files, ts, names[j])
      invariant Good(m, files, ts, mem[..], done + Elements(names[..i]))
      invariant OnlyTensors(ts, old(mem[..]), mem[..])
    {
      ghost var before := mem[..];
      DueIsKnown(m, ts, names[i], shard);
      r := RestoreNext(mem, m, files, ts, names[i], shard, done + Elements(names[..i]));
      OnlyTensorsMore(ts, names[i], old(mem[..]), before, mem[..]);
      if r != Restored {
        return;
      }
      ElementsMore(done, names, i);
    }
    assert names[..|names|] == names;
    return Restored;
  }

  lemma DueIsKnown(m: Model, ts: Tensors, n: string, shard: string)
    requires Due(m, ts, n, shard)
    ensures n in ts
  {
  }


  /** Every tensor of one shard. */
  method RestoreShard(mem: array<byte>, m: Model, files: map<string, File>, ts: Tensors, names: seq<string>,
                      shard: string, ghost done: set<string>)
    returns (r: Result)
    requires AllLaid(ts, mem.Length) && Good(m, files, ts, mem[..], done) && shard in m.shards
    requires forall n :: n in names ==> Due(m, ts, n, shard)
    modifies mem
    ensures r == Restored <==> shard in files && files[shard].Whole? && AllFit(m, files, ts, names)
    ensures r == Restored ==> Good(m, files, ts, mem[..], done + Elements(names))
    ensures !Gate(r) && !r.HashMismatch?
    ensures OnlyTensors(ts, old(mem[..]), mem[..])
  {
    if shard !in files || files[shard].Partial? {
      return Unreadable(shard);
    }
    r := RestoreNames(mem, m, files, ts, names, shard, done);
  }

  lemma Untouched(ts: Tensors, mem: seq<byte>)
    ensures OnlyTensors(ts, mem, mem)
  {
  }

  lemma NoElements(done: set<string>)
    ensures done + Elements([]) == done
  {
  }

  predicate Gate(r: Result) {
    r == NoManifest || r == WrongRank || r == Stale || r == NoSuchModel || r == OtherModel || r == OtherNames
  }

  // ----- All shards

  ghost predicate Ordered(m: Model, order: seq<string>) {
    Sampling.Distinct(order) && forall n :: n in order <==> n in m.tensors
  }

  /** The stored names whose bytes are in one of some shards. */
  ghost function StoredIn(m: Model, shards: seq<string>): set<string> {
    set n | n in m.tensors && m.tensors[n].aliasOf.None? && m.tensors[n].shard.Some?
            && m.tensors[n].shard.value in shards
  }

  lemma StoredInMore(m: Model, order: seq<string>, shards: seq<string>, i: nat)
    requires Ordered(m, order) && i < |shards|
    ensures StoredIn(m, shards[..i + 1]) == StoredIn(m, shards[..i]) + Elements(InShard(m, order, shards[i]))
  {
    InShardMeaning(m, order, shards[i]);
    assert shards[..i + 1] == shards[..i] + [shards[i]];
  }

  ghost predicate ShardFits(m: Model, files: map<string, File>, ts: Tensors, order: seq<string>, shard: string)
    requires forall n :: n in order ==> n in m.tensors
  {
    shard in files && files[shard].Whole? && AllFit(m, files, ts, InShard(m, order, shard))
  }

  /** Every shard that the manifest lists, in turn. */
  method RestoreShards(mem: array<byte>, m: Model, files: map<string, File>, ts: Tensors,
                       order: seq<string>) returns (r: Result)
    requires AllLaid(ts, mem.Length) && Ordered(m, order) && ts.Keys == m.tensors.Keys
    modifies mem
    ensures r == Restored <==> forall k :: 0 <= k < |m.shards| ==> ShardFits(m, files, ts, order, m.shards[k])
    ensures r == Restored ==> Good(m, files, ts, mem[..], StoredIn(m, m.shards))
    ensures !Gate(r) && !r.HashMismatch? && OnlyTensors(ts, old(mem[..]), mem[..])
  {
    hide Good, OnlyTensors, Elements, AllFit, StoredIn, InShard;
    Untouched(ts, mem[..]);
    NoneStored(m, files, ts, mem[..]);
    for k := 0 to |m.shards|
      invariant forall j :: 0 <= j < k ==> ShardFits(m, files, ts, order, m.shards[j])
      invariant Good(m, files, ts, mem[..], StoredIn(m, m.shards[..k]))
      invariant OnlyTensors(ts, old(mem[..]), mem[..])
    {
      InShardMeaning(m, order, m.shards[k]);
      StoredInMore(m, order, m.shards, k);
      ghost var before := mem[..];
      r := RestoreShard(mem, m, files, ts, InShard(m, order, m.shards[k]), m.shards[k], StoredIn(m, m.shards[..k]));
      OnlyTensorsTwice(ts, old(mem[..]), before, mem[..]);
      if r != Restored {
        assert !ShardFits(m, files, ts, order, m.shards[k]);
        return;
      }
    }
    assert m.shards[..|m.shards|] == m.shards;
    return Restored;
  }

  lemma NoneStored(m: Model, files: map<string, File>, ts: Tensors, mem: seq<byte>)
    ensures Good(m, files, ts, mem, StoredIn(m, []))
  {
  }

  lemma OnlyTensorsTwice(ts: Tensors, a: seq<byte>, b: seq<byte>, c: seq<byte>)
    requires OnlyTensors(ts, a, b) && OnlyTensors(ts, b, c)
    ensures OnlyTensors(ts, a, c)
  {
  }

  // ----- Aliases

  /** An alias that points at a stored tensor of a listed shard. */
  ghost predicate Pointed(m: Model, n: string) {
    n in m.tensors && m.tensors[n].aliasOf.Some? && m.tensors[n].aliasOf.value in StoredIn(m, m.shards)
  }

  /** It can take over the bytes of the tensor it points at. */
  ghost predicate AliasFits(m: Model, ts: Tensors, n: string) {
    && Pointed(m, n) && n in ts && !ts[n].onMeta
    && var o := m.tensors[n].aliasOf.value;
       o in ts && !ts[o].onMeta && ts[o].Bytes() == ts[n].Bytes() > 0
  }

  /** Nothing is to be copied to an alias, or it can be copied: the tensor it points at is one of the model, and at
      another address then readable and as large. */
  ghost predicate AliasPasses(m: Model, ts: Tensors, n: string)
    requires n in m.tensors && n in ts && m.tensors[n].aliasOf.Some?
  {
    var o := m.tensors[n].aliasOf.value;
    && o in ts
    && (ts[n].DataPtr() == ts[o].DataPtr() || ts[n].Bytes() == 0 || (!ts[o].onMeta && ts[o].Bytes() == ts[n].Bytes()))
  }

  lemma FitPasses(m: Model, ts: Tensors, n: string)
    requires n in m.tensors && n in ts && m.tensors[n].aliasOf.Some?
    ensures AliasFits(m, ts, n) ==> AliasPasses(m, ts, n)
  {
  }

  lemma SourceHolds(m: Model, files: map<string, File>, ts: Tensors, mem: seq<byte>, done: set<string>, n: string,
                    part: set<string>)
    requires Good(m, files, ts, mem, done) && StoredIn(m, m.shards) <= done && Pointed(m, n)
    requires Separate(m, files, ts, part) && n in part
    ensures var o := m.tensors[n].aliasOf.value;
            o in part && o in ts && Canon(mem, ts[o]) == Goal(m, files, o) == Goal(m, files, n)
  {
    var o := m.tensors[n].aliasOf.value;
    assert o in part;
    assert HoldsGoal(m, files, ts, mem, o);
  }

  /** Two names that start at one address and are not empty share all of their memory. */
  lemma TiedHolds(m: Model, files: map<string, File>, ts: Tensors, mem: seq<byte>, done: set<string>, n: string)
    requires Good(m, files, ts, mem, done) && StoredIn(m, m.shards) <= done && AliasFits(m, ts, n)
    requires ts[n].DataPtr() == ts[m.tensors[n].aliasOf.value].DataPtr()
    ensures Good(m, files, ts, mem, done + {n})
  {
    var o := m.tensors[n].aliasOf.value;
    forall part: set<string>, x | Separate(m, files, ts, part) && x in part && x in done + {n}
      ensures HoldsGoal(m, files, ts, mem, x)
    {
      if x == n {
        SourceHolds(m, files, ts, mem, done, n, part);
        ApartOrSame(m, files, ts, part, n, o);
        assert ts[n].addrs[0] == ts[o].addrs[0];
        assert ts[n].addrs == ts[o].addrs;
      }
    }
  }

  lemma CopyHolds(m: Model, files: map<string, File>, ts: Tensors, before: seq<byte>, after: seq<byte>,
                  done: set<string>, n: string)
    requires Good(m, files, ts, before, done) && StoredIn(m, m.shards) <= done && AllLaid(ts, |before|)
    requires AliasFits(m, ts, n) && OnlyAt(ts[n], before, after)
    requires Canon(after, ts[n]) == Canon(before, ts[m.tensors[n].aliasOf.value])
    ensures Good(m, files, ts, after, done + {n})
  {
    hide Good, Separate, OnlyAt;
    forall part | Separate(m, files, ts, part) && n in part
      ensures Canon(after, ts[n]) == Goal(m, files, n)
    {
      SourceHolds(m, files, ts, before, done, n, part);
    }
    GoodGrows(m, files, ts, before, after, done, n);
  }

  /** One alias: nothing to do when the model has tied it again, else a copy of the tensor it points at. */
  method RestoreAlias(mem: array<byte>, m: Model, files: map<string, File>, ts: Tensors, n: string,
                      ghost done: set<string>) returns (r: Result)
    requires AllLaid(ts, mem.Length) && n in m.tensors && n in ts && m.tensors[n].aliasOf.Some?
    requires StoredIn(m, m.shards) <= done
    modifies mem
    ensures r == Restored <==> AliasPasses(m, ts, n)
    ensures r == LostAlias(n) <==> m.tensors[n].aliasOf.value !in ts
    ensures r == Restored && Good(m, files, ts, old(mem[..]), done) && Pointed(m, n) ==>
              Good(m, files, ts, mem[..], if AliasFits(m, ts, n) then done + {n} else done)
    ensures !Gate(r) && !r.HashMismatch? && OnlyAt(ts[n], old(mem[..]), mem[..])
  {
    hide Good, Coherent, StoredIn;
    var o := m.tensors[n].aliasOf.value;
    if o !in ts {
      return LostAlias(n);
    }
    var a, c := ts[n], ts[o];
    if a.DataPtr() != c.DataPtr() && a.Bytes() > 0 {
      if c.onMeta {
        return StillOnMeta(o);
      }
      if c.Bytes() != a.Bytes() {
        return SizeChanged(n);
      }
      if !a.onMeta {
        ghost var before := mem[..];
        WriteBack(mem, a, Canon(mem[..], c));
        if AliasFits(m, ts, n) && Good(m, files, ts, before, done) {
          CopyHolds(m, files, ts, before, mem[..], done, n);
        }
      }
    } else if AliasFits(m, ts, n) && Good(m, files, ts, mem[..], done) {
      TiedHolds(m, files, ts, mem[..], done, n);
    }
    return Restored;
  }

  ghost function Taken(m: Model, ts: Tensors, names: seq<string>): set<string> {
    set n | n in names && AliasFits(m, ts, n)
  }

  ghost predicate AllPointed(m: Model) {
    forall n :: n in m.tensors && m.tensors[n].aliasOf.Some? ==> Pointed(m, n)
  }

  lemma TakenMore(m: Model, ts: Tensors, names: seq<string>, i: nat)
    requires i < |names|
    ensures Taken(m, ts, names[..i + 1])
         == Taken(m, ts, names[..i]) + if AliasFits(m, ts, names[i]) then {names[i]} else {}
  {
    assert names[..i + 1] == names[..i] + [names[i]];
  }

  /** No alias stands against a restore. */
  ghost predicate AllPass(m: Model, ts: Tensors)
    requires ts.Keys == m.tensors.Keys
  {
    forall n :: n in m.tensors && m.tensors[n].aliasOf.Some? ==> AliasPasses(m, ts, n)
  }

  /** Every alias, in the order of the manifest. */
  method RestoreAliases(mem: array<byte>, m: Model, files: map<string, File>, ts: Tensors,
                        order: seq<string>) returns (r: Result)
    requires AllLaid(ts, mem.Length) && Ordered(m, order) && ts.Keys == m.tensors.Keys
    requires Good(m, files, ts, mem[..], StoredIn(m, m.shards))
    modifies mem
    ensures r == Restored <==> AllPass(m, ts)
    ensures r == Restored && AllPointed(m) ==> Good(m, files, ts, mem[..], StoredIn(m, m.shards) + Taken(m, ts, order))
    ensures !Gate(r) && !r.HashMismatch? && OnlyTensors(ts, old(mem[..]), mem[..])
  {
    hide Good, OnlyTensors, OnlyAt, StoredIn, Taken, AliasFits, AliasPasses, Pointed;
    ghost var stored := StoredIn(m, m.shards);
    Untouched(ts, mem[..]);
    NoneTaken(m, ts, stored);
    for i := 0 to |order|
      invariant AllPointed(m) ==> Good(m, files, ts, mem[..], stored + Taken(m, ts, order[..i]))
      invariant OnlyTensors(ts, old(mem[..]), mem[..])
      invariant forall j :: 0 <= j < i && m.tensors[order[j]].aliasOf.Some? ==> AliasPasses(m, ts, order[j])
    {
      var n := order[i];
      TakenMore(m, ts, order, i);
      assert stored + Taken(m, ts, order[..i + 1])
          == if AliasFits(m, ts, n) then stored + Taken(m, ts, order[..i]) + {n} else stored + Taken(m, ts, order[..i]);
      if m.tensors[n].aliasOf.Some? {
        ghost var before := mem[..];
        ghost var done := stored + Taken(m, ts, order[..i]);
        r := RestoreAlias(mem, m, files, ts, n, done);
        OnlyTensorsMore(ts, n, old(mem[..]), before, mem[..]);
        if r != Restored {
          return;
        }
        assert AllPointed(m) ==> Pointed(m, n);
      } else {
        NoAlias(m, ts, n);
      }
    }
    assert order[..|order|] == order;
    return Restored;
  }

  lemma NoAlias(m: Model, ts: Tensors, n: string)
    requires n in m.tensors && m.tensors[n].aliasOf.None?
    ensures !AliasFits(m, ts, n)
  {
  }

  lemma NoneTaken(m: Model, ts: Tensors, stored: set<string>)
    ensures stored + Taken(m, ts, []) == stored
  {
  }

  // ----- Hashes

  datatype Check = Skip | All | Draw(n: int)

  /** The names that have a hash, in the order of the manifest. */
  function Hashed(m: Model, order: seq<string>): seq<string>
    requires forall n :: n in order ==> n in m.tensors
  {
    if order == [] then []
    else
      var n := order[|order| - 1];
      Hashed(m, order[..|order| - 1]) + if m.tensors[n].sha.Some? then [n] else []
  }

  lemma {:induction false} HashedMeaning(m: Model, order: seq<string>)
    requires Sampling.Distinct(order) && forall n :: n in order ==> n in m.tensors
    ensures Sampling.Distinct(Hashed(m, order))
    ensures forall n :: n in Hashed(m, order) <==> n in order && m.tensors[n].sha.Some?
  {
    if order != [] {
      var p, x := order[..|order| - 1], order[|order| - 1];
      LastIsNew(p, x, order);
      HashedMeaning(m, p);
      if m.tensors[x].sha.Some? {
        OneMoreDistinct(Hashed(m, p), x);
      } else {
        assert Hashed(m, p) + [] == Hashed(m, p);
      }
    }
  }

  lemma LastIsNew(p: seq<string>, x: string, order: seq<string>)
    requires Sampling.Distinct(order) && order != [] && p == order[..|order| - 1] && x == order[|order| - 1]
    ensures Sampling.Distinct(p) && x !in p && forall n :: n in order <==> n in p || n == x
  {
    assert order == p + [x];
  }

  lemma OneMoreDistinct(s: seq<string>, x: string)
    requires Sampling.Distinct(s) && x !in s
    ensures Sampling.Distinct(s + [x])
  {
  }

  function Drawn(m: Model, order: seq<string>, check: Check, lower: string -> string): seq<string>
    requires forall n :: n in order ==> n in m.tensors
  {
    match check
    case Skip => []
    case All => Sampling.Sorted(Hashed(m, order))
    case Draw(n) => Sampling.Sample(Sampling.KINDS, Hashed(m, order), n, Sampling.ByRules(lower))
  }

  /** The names that the manifest has a hash for. */
  ghost function HashedNames(m: Model): set<string> {
    set n | n in m.tensors && m.tensors[n].sha.Some?
  }

  /** The kinds of those names. */
  ghost function HashedKinds(m: Model, lower: string -> string): set<Sampling.Kind> {
    set n | n in HashedNames(m) :: Sampling.KindOf(lower(n))
  }

  lemma HashedIsAll(m: Model, order: seq<string>)
    requires Ordered(m, order)
    ensures var hashed := Hashed(m, order);
            && Sampling.Distinct(hashed) && |hashed| == |HashedNames(m)|
            && forall n :: n in hashed <==> n in HashedNames(m)
  {
    HashedMeaning(m, order);
    Sampling.DistinctSize(Hashed(m, order));
    assert (set n | n in Hashed(m, order)) == HashedNames(m);
  }

  /** Every hashed name is drawn: all are asked for, or a number that is large enough. */
  ghost predicate Thorough(m: Model, check: Check) {
    check.All? || (check.Draw? && check.n >= |HashedNames(m)|)
  }

  /** Only hashed names are drawn, and all of them when the check is thorough. */
  lemma DrawnMeaning(m: Model, order: seq<string>, check: Check, lower: string -> string)
    requires Ordered(m, order)
    ensures forall n :: n in Drawn(m, order, check, lower) ==> n in HashedNames(m)
    ensures Thorough(m, check) ==> forall n :: n in HashedNames(m) ==> n in Drawn(m, order, check, lower)
  {
    hide Drawn, HashedNames;
    HashedIsAll(m, order);
    Sampling.KindsAreAll();
    match check
    case Skip => DrawnSkip(m, order, lower);
    case All =>
      DrawnAll(m, order, lower);
      Sampling.SortedNames(Hashed(m, order));
    case Draw(n) =>
      DrawnSample(m, order, n, lower);
      Sampling.SampleWithin(Sampling.KINDS, Hashed(m, order), n, Sampling.ByRules(lower));
      if n >= |HashedNames(m)| {
        DrawnExactly(m, order, n, lower);
        AllOfThem(Drawn(m, order, check, lower), HashedNames(m));
      }
  }

  lemma DrawnSkip(m: Model, order: seq<string>, lower: string -> string)
    requires forall n :: n in order ==> n in m.tensors
    ensures Drawn(m, order, Skip, lower) == []
  {
  }

  lemma DrawnAll(m: Model, order: seq<string>, lower: string -> string)
    requires forall n :: n in order ==> n in m.tensors
    ensures Drawn(m, order, All, lower) == Sampling.Sorted(Hashed(m, order))
  {
  }

  lemma DrawnSample(m: Model, order: seq<string>, n: int, lower: string -> string)
    requires forall k :: k in order ==> k in m.tensors
    ensures Drawn(m, order, Draw(n), lower)
         == Sampling.Sample(Sampling.KINDS, Hashed(m, order), n, Sampling.ByRules(lower))
  {
  }

  /** As many distinct names of a set as it has are all of it. */
  lemma AllOfThem(drawn: seq<string>, names: set<string>)
    requires Sampling.Distinct(drawn) && |drawn| == |names| && forall n :: n in drawn ==> n in names
    ensures forall n :: n in names ==> n in drawn
  {
    Sampling.DistinctSize(drawn);
    var s := set n | n in drawn;
    assert names == s + (names - s);
  }

  /** A draw of n takes exactly the smaller of n and the number of hashed names, all distinct; and once n reaches
      the number of kinds, of every kind that occurs one at least. */
  lemma DrawnExactly(m: Model, order: seq<string>, n: nat, lower: string -> string)
    requires Ordered(m, order)
    ensures var drawn := Drawn(m, order, Draw(n), lower);
            && Sampling.Distinct(drawn) && |drawn| == Sampling.Min(n, |HashedNames(m)|)
            && (forall x :: x in drawn ==> x in HashedNames(m))
            && (n >= |HashedKinds(m, lower)| ==>
                  forall x :: x in HashedNames(m) ==>
                    exists y :: y in drawn && Sampling.KindOf(lower(y)) == Sampling.KindOf(lower(x)))
  {
    hide Drawn, HashedNames, HashedKinds, Hashed;
    hide Sampling.Sample, Sampling.KindOf, Sampling.ByRules, Sampling.KindsAmong, Sampling.Distinct;
    var hashed, kindOf := Hashed(m, order), Sampling.ByRules(lower);
    HashedIsAll(m, order);
    Sampling.KindsAreAll();
    DrawnSample(m, order, n, lower);
    Sampling.SampleMeaning(Sampling.KINDS, hashed, n, kindOf);
    SameKinds(m, hashed, lower);
    if n >= |HashedKinds(m, lower)| {
      KindsCarry(Drawn(m, order, Draw(n), lower), HashedNames(m), hashed, lower);
    }
  }

  lemma KindsCarry(drawn: seq<string>, names: set<string>, hashed: seq<string>, lower: string -> string)
    requires forall n :: n in hashed <==> n in names
    requires var kindOf := Sampling.ByRules(lower);
             forall x :: x in hashed ==> exists y :: y in drawn && kindOf(y) == kindOf(x)
    ensures forall x :: x in names ==> exists y :: y in drawn && Sampling.KindOf(lower(y)) == Sampling.KindOf(lower(x))
  {
    hide Sampling.KindOf;
    var kindOf := Sampling.ByRules(lower);
    forall x | x in names
      ensures exists y :: y in drawn && Sampling.KindOf(lower(y)) == Sampling.KindOf(lower(x))
    {
      var y :| y in drawn && kindOf(y) == kindOf(x);
      assert kindOf(y) == Sampling.KindOf(lower(y)) && kindOf(x) == Sampling.KindOf(lower(x));
    }
  }

  lemma SameKinds(m: Model, hashed: seq<string>, lower: string -> string)
    requires forall n :: n in hashed <==> n in HashedNames(m)
    ensures Sampling.KindsAmong(hashed, Sampling.ByRules(lower)) == HashedKinds(m, lower)
  {
    hide HashedNames, Sampling.KindOf;
    var kindOf := Sampling.ByRules(lower);
    forall n | n in hashed
      ensures kindOf(n) in HashedKinds(m, lower)
    {
      assert kindOf(n) == Sampling.KindOf(lower(n));
    }
    forall n | n in HashedNames(m)
      ensures Sampling.KindOf(lower(n)) in Sampling.KindsAmong(hashed, kindOf)
    {
      assert kindOf(n) == Sampling.KindOf(lower(n));
    }
  }

  predicate HashRight(m: Model, ts: Tensors, mem: seq<byte>, n: string, hash: Hash)
    requires n in m.tensors && m.tensors[n].sha.Some? && n in ts
  {
    hash(Canon(mem, ts[n])) == m.tensors[n].sha.value
  }

  /** Hashes a sample of what is now in memory; the names whose hash is not the recorded one. */
  method Verify(mem: array<byte>, m: Model, ts: Tensors, order: seq<string>, check: Check,
                lower: string -> string, hash: Hash)
    returns (bad: seq<string>)
    requires Ordered(m, order) && ts.Keys == m.tensors.Keys
    ensures forall n :: n in Drawn(m, order, check, lower) ==> n in m.tensors && m.tensors[n].sha.Some?
    ensures forall n :: n in bad <==> n in Drawn(m, order, check, lower) && !HashRight(m, ts, mem[..], n, hash)
    ensures Thorough(m, check) ==>
              forall n :: n in bad <==> n in HashedNames(m) && !HashRight(m, ts, mem[..], n, hash)
  {
    hide HashRight;
    DrawnMeaning(m, order, check, lower);
    var sample: seq<string> := [];
    match check {
      case Skip =>
      case All => sample := Sampling.Sorted(Hashed(m, order));
      case Draw(n) => sample := Sampling.PickSample(Sampling.KINDS, Hashed(m, order), n, Sampling.ByRules(lower));
    }
    assert sample == Drawn(m, order, check, lower);
    bad := Mismatches(mem, m, ts, sample, hash);
  }

  method Mismatches(mem: array<byte>, m: Model, ts: Tensors, sample: seq<string>, hash: Hash) returns (bad: seq<string>)
    requires forall n :: n in sample ==> n in m.tensors && m.tensors[n].sha.Some? && n in ts
    ensures forall n :: n in bad <==> n in sample && !HashRight(m, ts, mem[..], n, hash)
  {
    hide HashRight;
    bad := [];
    for i := 0 to |sample|
      invariant forall n :: n in bad <==> n in sample[..i] && !HashRight(m, ts, mem[..], n, hash)
    {
      assert sample[..i + 1] == sample[..i] + [sample[i]];
      if !HashRight(m, ts, mem[..], sample[i], hash) {
        bad := bad + [sample[i]];
      }
    }
    assert sample[..|sample|] == sample;
  }

  // ----- The gates

  /** What the manifest saved of the model's own identity, scrubbed, under the keys it has now. */
  function SavedIdentity(saved: map<string, string>, mine: map<string, string>, scrub: string -> string): Entries {
    map k | k in mine && k in saved :: Leaf(scrub(saved[k]))
  }

  function AsEntries(mine: map<string, string>): Entries {
    map k | k in mine :: Leaf(mine[k])
  }

  /** The first gate that stops a restore before anything is written, in the order they stand. */
  ghost function Refusal(d: Disk, rank: int, identity: Entries, tag: string, mine: map<string, string>,
                         scrub: string -> string, names: set<string>): Option<Result>
  {
    if d.manifest.None? then Some(NoManifest)
    else
      var man := d.manifest.value;
      if man.rank != rank then Some(WrongRank)
      else if !Agree(Dict(man.identity), Dict(identity)) then Some(Stale)
      else if tag !in man.models then Some(NoSuchModel)
      else
        var m := man.models[tag];
        if !Agree(Dict(SavedIdentity(m.identity, mine, scrub)), Dict(AsEntries(mine))) then Some(OtherModel)
        else if m.tensors.Keys != names then Some(OtherNames)
        else None
  }

  method Gates(d: Disk, rank: int, identity: Entries, tag: string, mine: map<string, string>, scrub: string -> string,
               names: set<string>)
    returns (r: Result)
    ensures Gate(r) || r == Restored
    ensures Refusal(d, rank, identity, tag, mine, scrub, names) == if r == Restored then None else Some(r)
  {
    if d.manifest.None? {
      return NoManifest;
    }
    var man := d.manifest.value;
    if man.rank != rank {
      return WrongRank;
    }
    var problems := Diff(Dict(man.identity), Dict(identity), []);
    if problems != [] {
      return Stale;
    }
    if tag !in man.models {
      return NoSuchModel;
    }
    problems := Diff(Dict(SavedIdentity(man.models[tag].identity, mine, scrub)), Dict(AsEntries(mine)), []);
    if problems != [] {
      return OtherModel;
    }
    if man.models[tag].tensors.Keys != names {
      return OtherNames;
    }
    return Restored;
  }

  // ----- The whole restore

  ghost predicate AllShardsFit(m: Model, files: map<string, File>, ts: Tensors, order: seq<string>)
    requires Ordered(m, order)
  {
    forall k :: 0 <= k < |m.shards| ==> ShardFits(m, files, ts, order, m.shards[k])
  }

  /** Nothing stands against restoring every tensor. */
  ghost predicate Ready(m: Model, files: map<string, File>, ts: Tensors, order: seq<string>)
    requires Ordered(m, order)
  {
    && AllShardsFit(m, files, ts, order)
    && (forall n :: n in m.tensors && m.tensors[n].aliasOf.Some? ==> AliasFits(m, ts, n))
  }

  /** The recorded hashes are those of the bytes in the shards. */
  ghost predicate HashesMatch(m: Model, files: map<string, File>, hash: Hash) {
    forall n :: n in m.tensors && m.tensors[n].sha.Some? ==>
                  && m.tensors[n].aliasOf.None? && n in StoredIn(m, m.shards)
                  && m.tensors[n].sha.value == hash(Goal(m, files, n))
  }

  ghost function Reached(m: Model, ts: Tensors, order: seq<string>): set<string> {
    StoredIn(m, m.shards) + Taken(m, ts, order)
  }

  /** The hash of every drawn name is that of its bytes. */
  ghost predicate NoneBad(drawn: seq<string>, m: Model, ts: Tensors, mem: seq<byte>, hash: Hash) {
    forall n :: n in drawn ==> n in HashedNames(m) && n in ts && HashRight(m, ts, mem, n, hash)
  }

  /** Some names are bad: exactly the drawn ones whose hash is not that of their bytes. */
  ghost predicate AllBad(bad: seq<string>, drawn: seq<string>, m: Model, ts: Tensors, mem: seq<byte>, hash: Hash) {
    && bad != []
    && forall n :: n in bad <==> n in drawn && n in HashedNames(m) && n in ts && !HashRight(m, ts, mem, n, hash)
  }

  /** The hash of every hashed name is that of its bytes. */
  ghost predicate NoneWrong(m: Model, ts: Tensors, mem: seq<byte>, hash: Hash) {
    forall n :: n in HashedNames(m) ==> n in ts && HashRight(m, ts, mem, n, hash)
  }

  /** Restores a model's tensors from the directory, or says why not. */
  method Restore(d: Disk, mem: array<byte>, ts: Tensors, order: seq<string>, rank: int, identity: Entries, tag: string,
                 mine: map<string, string>, scrub: string -> string, check: Check, lower: string -> string, hash: Hash)
    returns (r: Result)
    requires AllLaid(ts, mem.Length)
    requires d.manifest.Some? && tag in d.manifest.value.models ==> Ordered(d.manifest.value.models[tag], order)
    modifies mem
    ensures var refusal := Refusal(d, rank, identity, tag, mine, scrub, ts.Keys);
            && (refusal.Some? <==> Gate(r))
            && (refusal.Some? ==> r == refusal.value && mem[..] == old(mem[..]))
    ensures OnlyTensors(ts, old(mem[..]), mem[..])
    ensures !Gate(r) ==>
              var m := d.manifest.value.models[tag];
              && (r == Restored || r.HashMismatch? <==> AllShardsFit(m, d.files, ts, order) && AllPass(m, ts))
              && (r == Restored && AllPointed(m) ==> Good(m, d.files, ts, mem[..], Reached(m, ts, order)))
              && (r == Restored ==> NoneBad(Drawn(m, order, check, lower), m, ts, mem[..], hash))
              && (r == Restored && Thorough(m, check) ==> NoneWrong(m, ts, mem[..], hash))
              && (r.HashMismatch? ==> AllBad(r.names, Drawn(m, order, check, lower), m, ts, mem[..], hash))
              && (Ready(m, d.files, ts, order) && Coherent(m, d.files, ts) && HashesMatch(m, d.files, hash) ==>
                    r == Restored)
  {
    hide Good, OnlyTensors, StoredIn, Taken, AliasFits, AliasPasses, AllPass, Coherent, AllPointed;
    hide ShardFits, Drawn, HashRight, HashesMatch;
    Untouched(ts, mem[..]);
    r := Gates(d, rank, identity, tag, mine, scrub, ts.Keys);
    if Gate(r) {
      return;
    }
    var m := d.manifest.value.models[tag];
    ReadyPasses(m, d.files, ts, order);
    r := RestoreShards(mem, m, d.files, ts, order);
    if r != Restored {
      return;
    }
    ghost var before := mem[..];
    r := RestoreAliases(mem, m, d.files, ts, order);
    OnlyTensorsTwice(ts, old(mem[..]), before, mem[..]);
    if r != Restored {
      return;
    }
    var bad := Verify(mem, m, ts, order, check, lower, hash);
    if bad != [] {
      if Ready(m, d.files, ts, order) && Coherent(m, d.files, ts) && HashesMatch(m, d.files, hash) {
        FitsArePointed(m, ts);
        GoodHashes(m, d.files, ts, mem[..], Reached(m, ts, order), bad[0], hash);
        assert false;
      }
      return HashMismatch(bad);
    }
    return Restored;
  }

  lemma ReadyPasses(m: Model, files: map<string, File>, ts: Tensors, order: seq<string>)
    requires Ordered(m, order) && ts.Keys == m.tensors.Keys
    ensures Ready(m, files, ts, order) ==> AllPass(m, ts)
  {
    hide AliasFits, AliasPasses, AllShardsFit;
    if Ready(m, files, ts, order) {
      forall n | n in m.tensors && m.tensors[n].aliasOf.Some?
        ensures AliasPasses(m, ts, n)
      {
        FitPasses(m, ts, n);
      }
    }
  }

  lemma FitsArePointed(m: Model, ts: Tensors)
    requires forall n :: n in m.tensors && m.tensors[n].aliasOf.Some? ==> AliasFits(m, ts, n)
    ensures AllPointed(m)
  {
  }

  lemma GoodHashes(m: Model, files: map<string, File>, ts: Tensors, mem: seq<byte>, done: set<string>, n: string,
                   hash: Hash)
    requires Good(m, files, ts, mem, done) && Coherent(m, files, ts) && HashesMatch(m, files, hash)
    requires StoredIn(m, m.shards) <= done
    requires n in m.tensors && m.tensors[n].sha.Some? && n in ts
    ensures HashRight(m, ts, mem, n, hash)
  {
    CoherentIsSeparate(m, files, ts);
    assert HoldsGoal(m, files, ts, mem, n);
  }
}
