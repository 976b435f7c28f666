/** A dump and then a restore: into a model with the same names, shapes and types every name gets back the
    bytes that were dumped. */
module RoundTrip {
  import opened Options
  import opened Identity
  import opened TensorMemory
  import opened Packing
  import opened ShardNames
  import opened Sidecar
  import opened Intactness
  import opened Dumping
  import opened Restoring
  import Sampling

  /** A dump of the entries es out of the memory mem left the model m and these files. */
  ghost predicate DumpedAs(m: Model, files: map<string, File>, es: seq<Named>, mem: seq<byte>, tag: string, budget: int,
                           hash: Hash) {
    NamesDistinct(es) && AllReal(es, |mem|) && Describes(m, files, es, mem, tag, budget, hash)
  }

  ghost predicate AllReal(es: seq<Named>, size: nat) {
    forall i :: 0 <= i < |es| ==> !es[i].t.onMeta && Laid(es[i].t, size)
  }

  ghost predicate SameTensor(x: Named, ts: Tensors, size: nat) {
    && x.name in ts && !ts[x.name].onMeta && Laid(ts[x.name], size)
    && ts[x.name].shape == x.t.shape && ts[x.name].dtype == x.t.dtype
  }

  /** The restoring model has the names, shapes and types of the dumped one. */
  ghost predicate SameModel(es: seq<Named>, ts: Tensors, size: nat) {
    && (forall n :: n in ts ==> IsName(es, n))
    && (forall i :: 0 <= i < |es| ==> SameTensor(es[i], ts, size))
  }

  /** Its tensors are apart, but for names that share all of their memory and were stored once. */
  ghost predicate TiedAlike(es: seq<Named>, ts: Tensors)
    requires forall i :: 0 <= i < |es| ==> es[i].name in ts
  {
    forall i, j :: 0 <= i < |es| && 0 <= j < |es| ==>
      Apart(ts[es[i].name], ts[es[j].name])
      || (ts[es[i].name].addrs == ts[es[j].name].addrs && OwnerOf(es, i) == OwnerOf(es, j))
  }

  // ----- What the directory holds for each name

  lemma OwnerGoal(m: Model, files: map<string, File>, es: seq<Named>, mem: seq<byte>, tag: string, budget: int,
                  hash: Hash, i: nat)
    requires DumpedAs(m, files, es, mem, tag, budget, hash) && i < |es| && !AliasAt(es, i)
    ensures var n := es[i].name;
            && n in m.tensors && m.tensors[n].sha == Some(hash(Canon(mem, es[i].t)))
            && m.tensors[n].nbytes == es[i].t.Bytes()
            && Held(m, files, n) && Goal(m, files, n) == Canon(mem, es[i].t) && n in StoredIn(m, m.shards)
  {
    var x, gs := es[i], Groups(PackAll(Owners(es), budget));
    GroupsMeaning(Owners(es), budget);
    OwnersMeaning(es);
    assert RecordedAt(m.tensors, es, i, mem, hash);
    FlatInSome(gs, x);
    var k :| 0 <= k < |gs| && x in gs[k];
    NamesApartFrom(tag, |gs|);
    GroupDistinct(gs, k);
    ContentsMeaning(mem, gs[k]);
    assert StoredAt(files, m.tensors, tag, gs[k], k, mem);
    assert Shelved(m.tensors, x, Some(ShardName(tag, k)));
  }

  /** For an alias it is what its owner's tensor held. */
  lemma AliasGoal(m: Model, files: map<string, File>, es: seq<Named>, mem: seq<byte>, tag: string, budget: int,
                  hash: Hash, i: nat)
    requires DumpedAs(m, files, es, mem, tag, budget, hash) && i < |es| && AliasAt(es, i)
    ensures var n, o := es[i].name, OwnerOf(es, i);
            && o < i && n in m.tensors && m.tensors[n].sha.None? && m.tensors[n].aliasOf == Some(es[o].name)
            && Pointed(m, n)
            && Goal(m, files, n) == Canon(mem, es[o].t) && es[o].t.Bytes() == es[i].t.Bytes() > 0
  {
    OwnerIsStored(es, i);
    var o := OwnerOf(es, i);
    assert es[..i][o] == es[o];
    assert RecordedAt(m.tensors, es, i, mem, hash);
    assert RecordedAt(m.tensors, es, o, mem, hash);
    OwnerGoal(m, files, es, mem, tag, budget, hash, o);
  }

  lemma NameGoal(m: Model, files: map<string, File>, es: seq<Named>, mem: seq<byte>, tag: string, budget: int,
                 hash: Hash, i: nat)
    requires DumpedAs(m, files, es, mem, tag, budget, hash) && i < |es|
    ensures es[i].name in m.tensors && Goal(m, files, es[i].name) == Canon(mem, es[OwnerOf(es, i)].t)
  {
    if AliasAt(es, i) {
      AliasGoal(m, files, es, mem, tag, budget, hash, i);
    } else {
      OwnerGoal(m, files, es, mem, tag, budget, hash, i);
    }
  }

  // ----- Nothing stands against the restore

  lemma StoredFits(m: Model, files: map<string, File>, es: seq<Named>, mem: seq<byte>, tag: string, budget: int,
                   hash: Hash, ts: Tensors, size: nat, i: nat)
    requires DumpedAs(m, files, es, mem, tag, budget, hash) && SameModel(es, ts, size) && i < |es| && !AliasAt(es, i)
    ensures Fits(m, files, ts, es[i].name)
  {
    OwnerGoal(m, files, es, mem, tag, budget, hash, i);
    assert RecordedAt(m.tensors, es, i, mem, hash);
    assert SameTensor(es[i], ts, size);
    SameShapeSameBytes(es[i].t, ts[es[i].name], |mem|, size);
  }

  lemma AliasesFit(m: Model, files: map<string, File>, es: seq<Named>, mem: seq<byte>, tag: string, budget: int,
                   hash: Hash, ts: Tensors, size: nat, i: nat)
    requires DumpedAs(m, files, es, mem, tag, budget, hash) && SameModel(es, ts, size) && i < |es| && AliasAt(es, i)
    ensures AliasFits(m, ts, es[i].name)
  {
    AliasGoal(m, files, es, mem, tag, budget, hash, i);
    var o := OwnerOf(es, i);
    assert SameTensor(es[i], ts, size) && SameTensor(es[o], ts, size);
    SameShapeSameBytes(es[i].t, ts[es[i].name], |mem|, size);
    SameShapeSameBytes(es[o].t, ts[es[o].name], |mem|, size);
  }

  lemma EveryShardFits(m: Model, files: map<string, File>, es: seq<Named>, mem: seq<byte>, tag: string, budget: int,
                       hash: Hash, ts: Tensors, size: nat, order: seq<string>, shard: string)
    requires DumpedAs(m, files, es, mem, tag, budget, hash) && SameModel(es, ts, size) && Ordered(m, order)
    requires shard in m.shards
    ensures ShardFits(m, files, ts, order, shard)
  {
    DescribedIsIntact(m, files, es, mem, tag, budget, hash);
    assert Listed(files, tag, shard);
    InShardMeaning(m, order, shard);
    forall n | n in InShard(m, order, shard)
      ensures Fits(m, files, ts, n)
    {
      var i :| 0 <= i < |es| && es[i].name == n;
      if AliasAt(es, i) {
        AliasGoal(m, files, es, mem, tag, budget, hash, i);
      } else {
        StoredFits(m, files, es, mem, tag, budget, hash, ts, size, i);
      }
    }
  }

  /** What one name needs for the whole to be ready. */
  ghost predicate NameReady(m: Model, files: map<string, File>, ts: Tensors, n: string, hash: Hash) {
    && n in m.tensors && n in ts
    && (if m.tensors[n].aliasOf.Some? then AliasFits(m, ts, n) && m.tensors[n].sha.None?
        else n in StoredIn(m, m.shards) && m.tensors[n].sha == Some(hash(Goal(m, files, n))))
  }

  lemma EveryNameReady(m: Model, files: map<string, File>, es: seq<Named>, mem: seq<byte>, tag: string, budget: int,
                       hash: Hash, ts: Tensors, size: nat, i: nat)
    requires DumpedAs(m, files, es, mem, tag, budget, hash) && SameModel(es, ts, size) && i < |es|
    ensures NameReady(m, files, ts, es[i].name, hash)
  {
    hide Describes, StoredIn, AliasFits, AliasAt;
    assert SameTensor(es[i], ts, size);
    if AliasAt(es, i) {
      AliasGoal(m, files, es, mem, tag, budget, hash, i);
      AliasesFit(m, files, es, mem, tag, budget, hash, ts, size, i);
    } else {
      OwnerGoal(m, files, es, mem, tag, budget, hash, i);
    }
  }

  lemma NamesRecorded(m: Model, files: map<string, File>, es: seq<Named>, mem: seq<byte>, tag: string, budget: int,
                      hash: Hash, ts: Tensors, size: nat)
    requires DumpedAs(m, files, es, mem, tag, budget, hash) && SameModel(es, ts, size)
    ensures m.tensors.Keys == ts.Keys && forall n :: n in m.tensors ==> NameReady(m, files, ts, n, hash)
  {
    assert forall n :: n in m.tensors || n in ts ==> IsName(es, n);
    hide DumpedAs, SameModel, NameReady;
    forall n | IsName(es, n)
      ensures NameReady(m, files, ts, n, hash) && n in m.tensors && n in ts
    {
      var i :| 0 <= i < |es| && es[i].name == n;
      EveryNameReady(m, files, es, mem, tag, budget, hash, ts, size, i);
      ReadyIsKnown(m, files, ts, n, hash);
    }
  }

  lemma ReadyIsKnown(m: Model, files: map<string, File>, ts: Tensors, n: string, hash: Hash)
    requires NameReady(m, files, ts, n, hash)
    ensures n in m.tensors && n in ts
  {
  }

  lemma NamesReady(m: Model, files: map<string, File>, ts: Tensors, order: seq<string>, hash: Hash)
    requires Ordered(m, order) && forall n :: n in m.tensors ==> NameReady(m, files, ts, n, hash)
    ensures AllPointed(m) && HashesMatch(m, files, hash)
    ensures forall n :: n in m.tensors ==> n in Reached(m, ts, order)
    ensures forall n :: n in m.tensors && m.tensors[n].aliasOf.Some? ==> AliasFits(m, ts, n)
  {
    hide StoredIn;
    forall n | n in m.tensors
      ensures m.tensors[n].aliasOf.Some? ==> AliasFits(m, ts, n)
    {
      assert NameReady(m, files, ts, n, hash);
    }
  }

  lemma NothingInTheWay(m: Model, files: map<string, File>, es: seq<Named>, mem: seq<byte>, tag: string, budget: int,
                        hash: Hash, ts: Tensors, size: nat, order: seq<string>)
    requires DumpedAs(m, files, es, mem, tag, budget, hash) && SameModel(es, ts, size) && Ordered(m, order)
    ensures Ready(m, files, ts, order) && AllPointed(m) && HashesMatch(m, files, hash) && m.tensors.Keys == ts.Keys
    ensures forall n :: n in m.tensors ==> n in Reached(m, ts, order)
  {
    hide DumpedAs, SameModel, NameReady, AllPointed, HashesMatch, Reached, ShardFits, AliasFits;
    NamesRecorded(m, files, es, mem, tag, budget, hash, ts, size);
    NamesReady(m, files, ts, order, hash);
    forall shard | shard in m.shards
      ensures ShardFits(m, files, ts, order, shard)
    {
      EveryShardFits(m, files, es, mem, tag, budget, hash, ts, size, order, shard);
    }
  }

  lemma PairCoherent(m: Model, files: map<string, File>, es: seq<Named>, mem: seq<byte>, tag: string, budget: int,
                     hash: Hash, ts: Tensors, a: string, b: string)
    requires DumpedAs(m, files, es, mem, tag, budget, hash) && IsName(es, a) && IsName(es, b)
    requires (forall i :: 0 <= i < |es| ==> es[i].name in ts) && TiedAlike(es, ts)
    ensures a in m.tensors && b in m.tensors && a in ts && b in ts
    ensures Apart(ts[a], ts[b]) || (ts[a].addrs == ts[b].addrs && Goal(m, files, a) == Goal(m, files, b))
  {
    hide DumpedAs, Goal, OwnerOf, Apart;
    var i :| 0 <= i < |es| && es[i].name == a;
    var j :| 0 <= j < |es| && es[j].name == b;
    NameGoal(m, files, es, mem, tag, budget, hash, i);
    NameGoal(m, files, es, mem, tag, budget, hash, j);
  }

  lemma AlikeIsCoherent(m: Model, files: map<string, File>, es: seq<Named>, mem: seq<byte>, tag: string, budget: int,
                        hash: Hash, ts: Tensors)
    requires DumpedAs(m, files, es, mem, tag, budget, hash)
    requires (forall i :: 0 <= i < |es| ==> es[i].name in ts) && TiedAlike(es, ts)
    ensures Coherent(m, files, ts)
  {
    assert forall n :: n in m.tensors ==> IsName(es, n);
    hide DumpedAs, TiedAlike, Goal, Apart, IsName;
    forall a, b | a in m.tensors && b in m.tensors
      ensures a in ts && b in ts
      ensures (Apart(ts[a], ts[b]) || (ts[a].addrs == ts[b].addrs && Goal(m, files, a) == Goal(m, files, b)))
    {
      PairCoherent(m, files, es, mem, tag, budget, hash, ts, a, b);
    }
  }

  // ----- Ties

  /** An alias and its owner start at one address and have one size, but that is all that is compared: they
      hold the same canonical bytes whatever is in memory exactly when their layouts agree too. */
  lemma SameBytesIffSameLayout(t: Tensor, u: Tensor, size: nat)
    requires Laid(t, size) && Laid(u, size) && Key(t) == Key(u)
    ensures (forall mem: seq<byte> :: |mem| == size ==> Canon(mem, t) == Canon(mem, u)) <==> t.addrs == u.addrs
  {
    if t.addrs != u.addrs {
      var k :| 0 <= k < |t.addrs| && t.addrs[k] != u.addrs[k];
      var mem: seq<byte> := seq(size, a => if a == t.addrs[k] then 1 else 0);
      assert Canon(mem, t)[k] != Canon(mem, u)[k];
    } else {
      forall mem: seq<byte> | |mem| == size
        ensures Canon(mem, t) == Canon(mem, u)
      {
      }
    }
  }

  ghost predicate TiesExact(es: seq<Named>) {
    forall i :: 0 <= i < |es| ==> es[i].t.addrs == es[OwnerOf(es, i)].t.addrs
  }

  // ----- The model's own identity

  /** A model is recognized as the one that was dumped exactly when scrubbing its saved identity changes
      nothing under any key it has now. */
  lemma OwnIdentityAccepted(mine: map<string, string>, scrub: string -> string)
    ensures Agree(Dict(SavedIdentity(mine, mine, scrub)), Dict(AsEntries(mine)))
       <==> forall k :: k in mine ==> scrub(mine[k]) == mine[k]
  {
    var saved, now := SavedIdentity(mine, mine, scrub), AsEntries(mine);
    if Agree(Dict(saved), Dict(now)) {
      forall k | k in mine
        ensures scrub(mine[k]) == mine[k]
      {
        assert AgreeAt(saved, now, k);
      }
    }
    if forall k :: k in mine ==> scrub(mine[k]) == mine[k] {
      forall k | k in saved || k in now
        ensures AgreeAt(saved, now, k)
      {
      }
    }
  }

  // ----- Both boots

  /** A model that is dumped under a tag: its entries and its own identity. */
  datatype Part = Part(tag: string, es: seq<Named>, mine: map<string, string>)

  /** The directory describes the model as it was, for this rank and this identity. */
  ghost predicate OnDisk(d: Disk, p: Part, was: seq<byte>, budget: int, hash: Hash, rank: int, identity: Entries) {
    && d.manifest.Some? && d.manifest.value.rank == rank && d.manifest.value.identity == identity
    && p.tag in d.manifest.value.models && d.manifest.value.models[p.tag].identity == p.mine
    && Describes(d.manifest.value.models[p.tag], d.files, p.es, was, p.tag, budget, hash)
  }

  /** A model to restore into: the same names, shapes and types, tied no more than the dumped one, and recognized. */
  ghost predicate Fitting(p: Part, ts: Tensors, order: seq<string>, size: nat, scrub: string -> string) {
    && SameModel(p.es, ts, size) && Sampling.Distinct(order) && (forall n :: n in order <==> IsName(p.es, n))
    && (forall i :: 0 <= i < |p.es| ==> p.es[i].name in ts) && TiedAlike(p.es, ts)
    && (forall k :: k in p.mine ==> scrub(p.mine[k]) == p.mine[k])
  }

  /** Every name holds what its stored copy held. */
  ghost predicate BytesBack(p: Part, ts: Tensors, was: seq<byte>, now: seq<byte>) {
    forall i :: 0 <= i < |p.es| ==>
      p.es[i].name in ts && Canon(now, ts[p.es[i].name]) == Canon(was, p.es[OwnerOf(p.es, i)].t)
  }

  /** When ties share a layout too, that is what the name itself held. */
  lemma OwnBytesBack(p: Part, ts: Tensors, was: seq<byte>, now: seq<byte>)
    requires BytesBack(p, ts, was, now) && TiesExact(p.es)
    ensures forall i :: 0 <= i < |p.es| ==> p.es[i].name in ts && Canon(now, ts[p.es[i].name]) == Canon(was, p.es[i].t)
  {
    forall i | 0 <= i < |p.es|
      ensures Canon(was, p.es[OwnerOf(p.es, i)].t) == Canon(was, p.es[i].t)
    {
      assert p.es[i].t.addrs == p.es[OwnerOf(p.es, i)].t.addrs;
    }
  }

  /** Restoring a model that is described on disk. */
  method RestoreDumped(d: Disk, p: Part, ghost was: seq<byte>, ts: Tensors, other: array<byte>, order: seq<string>,
                       ghost budget: int, hash: Hash, scrub: string -> string, rank: int, identity: Entries,
                       check: Check, lower: string -> string)
    returns (r: Result)
    requires OnDisk(d, p, was, budget, hash, rank, identity) && NamesDistinct(p.es) && AllReal(p.es, |was|)
    requires Fitting(p, ts, order, other.Length, scrub)
    modifies other
    ensures r == Restored && BytesBack(p, ts, was, other[..]) && OnlyTensors(ts, old(other[..]), other[..])
  {
    hide DumpedAs, SameModel, TiedAlike, Describes, Ready, Coherent, HashesMatch, Good, OnlyTensors, Reached,
         AllPointed, IsName, NoneBad, NoneWrong, AllBad, Thorough, AllPass, AllShardsFit, Drawn;
    ghost var m, files := d.manifest.value.models[p.tag], d.files;
    Dumpable(m, files, p.es, was, p.tag, budget, hash);
    NothingInTheWay(m, files, p.es, was, p.tag, budget, hash, ts, other.Length, order);
    AlikeIsCoherent(m, files, p.es, was, p.tag, budget, hash, ts);
    SameModelLaid(p.es, ts, other.Length);
    AgreeWithItself(Dict(identity));
    OwnIdentityAccepted(p.mine, scrub);
    r := Restore(d, other, ts, order, rank, identity, p.tag, p.mine, scrub, check, lower, hash);
    forall i | 0 <= i < |p.es|
      ensures Canon(other[..], ts[p.es[i].name]) == Canon(was, p.es[OwnerOf(p.es, i)].t)
    {
      NameGoal(m, files, p.es, was, p.tag, budget, hash, i);
      GoodHolds(m, files, ts, other[..], Reached(m, ts, order), p.es[i].name);
    }
  }

  /** A boot that dumps into an empty directory, and one like it that restores from there. */
  method DumpThenRestore(p: Part, mem: array<byte>, ts: Tensors, other: array<byte>, order: seq<string>, budget: int,
                         hash: Hash, scrub: string -> string, rank: int, identity: Entries, check: Check,
                         lower: string -> string)
    returns (r: Result)
    requires mem != other && NamesDistinct(p.es) && AllReal(p.es, mem.Length)
    requires Fitting(p, ts, order, other.Length, scrub)
    modifies other
    ensures r == Restored && BytesBack(p, ts, mem[..], other[..])
    ensures TiesExact(p.es) ==>
              forall i :: 0 <= i < |p.es| ==> Canon(other[..], ts[p.es[i].name]) == Canon(mem[..], p.es[i].t)
    ensures OnlyTensors(ts, old(other[..]), other[..])
  {
    hide Fitting, Describes, BytesBack, OnlyTensors;
    var dir := new RankDir();
    ghost var d0, h0 := dir.disk, dir.history;
    var outcome, m := DumpModel(dir, p.tag, p.es, mem[..], budget, hash, p.mine, rank, identity);
    assert dir.disk.manifest == Some(Manifest(rank, identity, map[][p.tag := m]));
    r := RestoreDumped(dir.disk, p, mem[..], ts, other, order, budget, hash, scrub, rank, identity, check, lower);
    if TiesExact(p.es) {
      OwnBytesBack(p, ts, mem[..], other[..]);
    }
  }

  // ----- Two models in one directory

  /** What describes a model still does when only shards of another tag have been written. */
  lemma DescribedStill(m: Model, before: Disk, after: Disk, es: seq<Named>, mem: seq<byte>, t: string, tag: string,
                       budget: int, hash: Hash)
    requires t != tag && Describes(m, before.files, es, mem, t, budget, hash) && Touched(before, after, tag)
    ensures Describes(m, after.files, es, mem, t, budget, hash)
  {
    hide Recorded;
    var gs := Groups(PackAll(Owners(es), budget));
    forall k | 0 <= k < |gs|
      ensures StoredAt(after.files, m.tensors, t, gs[k], k, mem)
    {
      assert StoredAt(before.files, m.tensors, t, gs[k], k, mem);
      var s := ShardName(t, k);
      if ShardOf(s, tag) {
        var j :| s == ShardName(tag, j);
        ShardNameInjective(t, k, tag, j);
      }
      assert SameFile(before.files, after.files, s);
    }
  }

  /** Memory in which only tensors apart from those of the part have changed holds the part's bytes still. */
  lemma BytesStay(p: Part, ts: Tensors, others: Tensors, was: seq<byte>, before: seq<byte>, after: seq<byte>)
    requires BytesBack(p, ts, was, before) && OnlyTensors(others, before, after)
    requires forall i :: 0 <= i < |p.es| ==> p.es[i].name in ts && Laid(ts[p.es[i].name], |before|)
    requires forall n, k :: n in ts && k in others ==> Apart(ts[n], others[k])
    ensures BytesBack(p, ts, was, after)
  {
    forall i | 0 <= i < |p.es|
      ensures Canon(after, ts[p.es[i].name]) == Canon(before, ts[p.es[i].name])
    {
      var t := ts[p.es[i].name];
      forall j | 0 <= j < |t.addrs|
        ensures after[t.addrs[j]] == before[t.addrs[j]]
      {
        forall n | n in others
          ensures t.addrs[j] !in others[n].addrs
        {
          assert Apart(t, others[n]);
        }
      }
    }
  }

  lemma FittingLaid(p: Part, ts: Tensors, order: seq<string>, size: nat, scrub: string -> string)
    requires Fitting(p, ts, order, size, scrub)
    ensures forall i :: 0 <= i < |p.es| ==> p.es[i].name in ts && Laid(ts[p.es[i].name], size)
  {
    hide TiedAlike;
    assert forall i :: 0 <= i < |p.es| ==> SameTensor(p.es[i], ts, size);
  }

  /** A boot that dumps the main model and a drafter with a tag of its own into one directory, and one like it that
      restores both from there, into tensors that are apart: both succeed and both hold their bytes in the end. */
  method DumpBothThenRestoreBoth(main: Part, draft: Part, mem: array<byte>, mainTs: Tensors, draftTs: Tensors,
                                 other: array<byte>, mainOrder: seq<string>, draftOrder: seq<string>, budget: int,
                                 hash: Hash, scrub: string -> string, rank: int, identity: Entries, check: Check,
                                 lower: string -> string)
    returns (r: Result, q: Result)
    requires mem != other && main.tag != draft.tag
    requires NamesDistinct(main.es) && AllReal(main.es, mem.Length)
    requires Fitting(main, mainTs, mainOrder, other.Length, scrub)
    requires NamesDistinct(draft.es) && AllReal(draft.es, mem.Length)
    requires Fitting(draft, draftTs, draftOrder, other.Length, scrub)
    requires forall n, k :: n in mainTs && k in draftTs ==> Apart(mainTs[n], draftTs[k])
    modifies other
    ensures r == Restored && q == Restored
    ensures BytesBack(main, mainTs, mem[..], other[..]) && BytesBack(draft, draftTs, mem[..], other[..])
  {
    hide Fitting, Describes, BytesBack, OnlyTensors, Touched, Agree;
    FittingLaid(main, mainTs, mainOrder, other.Length, scrub);
    AgreeWithItself(Dict(identity));
    var dir := new RankDir();
    var outcome;
    ghost var m, n;
    outcome, m := DumpModel(dir, main.tag, main.es, mem[..], budget, hash, main.mine, rank, identity);
    ghost var d1 := dir.disk;
    assert d1.manifest == Some(Manifest(rank, identity, map[][main.tag := m]));
    outcome, n := DumpModel(dir, draft.tag, draft.es, mem[..], budget, hash, draft.mine, rank, identity);
    var d := dir.disk;
    DescribedStill(m, d1, d.(manifest := d1.manifest), main.es, mem[..], main.tag, draft.tag, budget, hash);
    assert d.manifest == Some(Manifest(rank, identity, map[][main.tag := m][draft.tag := n]));
    r := RestoreDumped(d, main, mem[..], mainTs, other, mainOrder, budget, hash, scrub, rank, identity, check, lower);
    ghost var between := other[..];
    q := RestoreDumped(d, draft, mem[..], draftTs, other, draftOrder, budget, hash, scrub, rank, identity, check,
                       lower);
    BytesStay(main, mainTs, draftTs, mem[..], between, other[..]);
  }

  lemma SameModelLaid(es: seq<Named>, ts: Tensors, size: nat)
    requires SameModel(es, ts, size)
    ensures AllLaid(ts, size)
  {
    forall n | n in ts && !ts[n].onMeta
      ensures Laid(ts[n], size)
    {
      assert IsName(es, n);
      var i :| 0 <= i < |es| && es[i].name == n;
      assert SameTensor(es[i], ts, size);
    }
  }

  lemma Dumpable(m: Model, files: map<string, File>, es: seq<Named>, mem: seq<byte>, tag: string, budget: int,
                 hash: Hash)
    requires NamesDistinct(es) && AllReal(es, |mem|) && Describes(m, files, es, mem, tag, budget, hash)
    ensures DumpedAs(m, files, es, mem, tag, budget, hash) && forall n :: n in m.tensors <==> IsName(es, n)
  {
    hide Stored, MetaRight;
    forall n | IsName(es, n)
      ensures n in m.tensors
    {
      var i :| 0 <= i < |es| && es[i].name == n;
      assert RecordedAt(m.tensors, es, i, mem, hash);
    }
  }

  lemma GoodHolds(m: Model, files: map<string, File>, ts: Tensors, mem: seq<byte>, done: set<string>, n: string)
    requires Good(m, files, ts, mem, done) && Coherent(m, files, ts) && n in done && n in m.tensors
    ensures n in m.tensors && n in ts && Canon(mem, ts[n]) == Goal(m, files, n)
  {
    CoherentIsSeparate(m, files, ts);
    assert HoldsGoal(m, files, ts, mem, n);
  }
}
