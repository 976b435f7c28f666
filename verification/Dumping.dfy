/** Dumping the tensors of a model: an entry at a time into a buffer, a shard whenever the buffer reaches
    the budget, and last the manifest. */
module Dumping {
  import opened Options
  import opened Identity
  import opened TensorMemory
  import opened Packing
  import opened ShardNames
  import opened Sidecar
  import opened Intactness

  datatype Outcome = Dumped | OnMeta(name: string) | DifferentBuild

  class Dump {
    const dir: RankDir
    const tag: string
    var tensors: map<string, Meta>
    var shards: seq<string>
    var byPtr: map<Key2, string>
    var buf: map<string, seq<byte>>
    var bufBytes: nat
    var total: nat

    constructor (dir: RankDir, tag: string)
      ensures this.dir == dir && this.tag == tag && Now() == Empty()
    {
      this.dir, this.tag := dir, tag;
      tensors, shards, byPtr, buf, bufBytes, total := map[], [], map[], map[], 0, 0;
    }

    ghost function Now(): State
      reads this
    {
      State(tensors, shards, byPtr, buf, bufBytes, total)
    }

    /** Writes the buffer as the next shard and notes it in the records of its tensors. */
    method Flush()
      modifies this, dir
      ensures Now() == Flushed(old(Now()), tag)
      ensures dir.disk == old(dir.disk).(files := FilesFlushed(old(dir.disk.files), old(Now()), tag))
      ensures Advanced(old(dir.disk), old(dir.history), dir.disk, dir.history, tag)
      ensures forall n0: nat :: n0 <= |old(dir.history)| && TornEach(n0, old(dir.history), tag, |old(shards)|) ==>
                          TornEach(n0, dir.history, tag, |shards|)
    {
      if buf == map[] {
        return;
      }
      var name := ShardName(tag, |shards|);
      ghost var d, n := dir.disk, |shards|;
      dir.SaveFile(name, buf);
      TouchMore(d, d, tag, n, Partial);
      TouchMore(d, d.(files := d.files[name := Partial]), tag, n, Whole(buf));
      assert d.files[name := Partial][name := Whole(buf)] == d.files[name := Whole(buf)];
      forall n0: nat | n0 <= |old(dir.history)| && TornEach(n0, old(dir.history), tag, n)
        ensures TornEach(n0, dir.history, tag, n + 1)
      {
        TornMore(n0, old(dir.history), dir.history, tag, n);
      }
      tensors := Reshelved(tensors, buf, name);
      shards := shards + [name];
      buf, bufBytes := map[], 0;
    }

    /** Records one entry; its bytes go into the buffer unless an earlier entry holds them. */
    method Put(x: Named, mem: seq<byte>, hash: Hash) returns (stored: bool)
      modifies this
      ensures stored == Stores(old(Now()), x) && Now() == Sidecar.Put(old(Now()), x, mem, hash)
    {
      var t := x.t;
      var meta := BlankMeta(t);
      if t.Bytes() > 0 && Key(t) in byPtr {
        tensors := tensors[x.name := meta.(aliasOf := Some(byPtr[Key(t)]))];
        return false;
      }
      var cpu := Canon(mem, t);
      tensors := tensors[x.name := meta.(sha := Some(hash(cpu)))];
      byPtr := byPtr[Key(t) := x.name];
      buf := buf[x.name := cpu];
      bufBytes := bufBytes + t.Bytes();
      total := total + t.Bytes();
      return true;
    }

    /** One entry, and a shard once the buffer has reached the budget. */
    method Step(x: Named, mem: seq<byte>, budget: int, hash: Hash)
      modifies this, dir
      ensures Now() == Stepped(old(Now()), x, mem, tag, budget, hash)
      ensures dir.disk
           == old(dir.disk).(files := FilesStepped(old(dir.disk.files), old(Now()), x, mem, tag, budget, hash))
      ensures Advanced(old(dir.disk), old(dir.history), dir.disk, dir.history, tag)
      ensures forall n0: nat :: n0 <= |old(dir.history)| && TornEach(n0, old(dir.history), tag, |old(shards)|) ==>
                          TornEach(n0, dir.history, tag, |shards|)
    {
      var stored := Put(x, mem, hash);
      if stored && bufBytes >= budget {
        Flush();
      }
    }
  
    /** Every entry in turn; stops at one that is still on the meta device. */
    method AddAll(es: seq<Named>, mem: seq<byte>, budget: int, hash: Hash) returns (stop: Option<string>)
      requires NamesDistinct(es) && Now() == Empty()
      modifies this, dir
      ensures stop.None? <==> forall i :: 0 <= i < |es| ==> !es[i].t.onMeta
      ensures stop.Some? ==> exists i :: 0 <= i < |es| && es[i].t.onMeta && es[i].name == stop.value
      ensures stop.None? ==> Progress(Now(), dir.disk.files, es, PackAll(Owners(es), budget), mem, tag, hash)
      ensures Advanced(old(dir.disk), old(dir.history), dir.disk, dir.history, tag)
      ensures TornEach(|old(dir.history)|, dir.history, tag, |shards|)
    {
      hide Progress, PackAll, Owners, Stepped, FilesStepped, Advanced, Empty;
      ghost var d, h := dir.disk, dir.history;
      NotYet(d, h, tag);
      NoShardsYet(Now());
      EmptyProgress(dir.disk.files, budget, mem, tag, hash);
      assert es[..0] == [];
      for i := 0 to |es|
        invariant forall j :: 0 <= j < i ==> !es[j].t.onMeta
        invariant Progress(Now(), dir.disk.files, es[..i], PackAll(Owners(es[..i]), budget), mem, tag, hash)
        invariant Advanced(d, h, dir.disk, dir.history, tag)
        invariant TornEach(|h|, dir.history, tag, |shards|)
      {
        if es[i].t.onMeta {
          return Some(es[i].name);
        }
        assert es[..i + 1] == es[..i] + [es[i]];
        StepProgress(Now(), dir.disk.files, es[..i], es[i], mem, tag, budget, hash);
        ghost var d1, h1 := dir.disk, dir.history;
        NoneForgotten(d, h, d1, h1, tag);
        Step(es[i], mem, budget, hash);
        AdvancedTwice(d, h, d1, h1, dir.disk, dir.history, tag);
      }
      assert es[..|es|] == es;
      return None;
    }
  }

  lemma NoShardsYet(s: State)
    requires s == Empty()
    ensures s.shards == []
  {
  }

  lemma NoneForgotten(d0: Disk, h0: seq<Disk>, d1: Disk, h1: seq<Disk>, tag: string)
    requires Advanced(d0, h0, d1, h1, tag)
    ensures |h0| <= |h1|
  {
  }

  // ----- A whole dump

  /** The directory holds another build: its manifest has an identity, and not this one. */
  ghost predicate Mixed(d: Disk, identity: Entries) {
    d.manifest.Some? && d.manifest.value.identity != map[] && !Agree(Dict(d.manifest.value.identity), Dict(identity))
  }

  function ModelsOf(d: Disk): map<string, Model> {
    if d.manifest.Some? then d.manifest.value.models else map[]
  }

  /** The last step put the manifest in place, with this model and all others as they were; the steps
      before it only wrote shards. */
  ghost predicate Published(d0: Disk, h0: seq<Disk>, d1: Disk, h1: seq<Disk>, tag: string, m: Model, rank: int,
                            identity: Entries) {
    && h1 != [] && h1[|h1| - 1] == d1
    && Advanced(d0, h0, d1.(manifest := d0.manifest), h1[..|h1| - 1], tag)
    && d1.manifest == Some(Manifest(rank, identity, ModelsOf(d0)[tag := m]))
  }

  /** Dumps one model: its shards, then the manifest. */
  method DumpModel(dir: RankDir, tag: string, es: seq<Named>, mem: seq<byte>, budget: int, hash: Hash,
                   model: map<string, string>, rank: int, identity: Entries)
    returns (outcome: Outcome, ghost written: Model)
    requires NamesDistinct(es)
    modifies dir
    ensures outcome.OnMeta? <==> exists i :: 0 <= i < |es| && es[i].t.onMeta
    ensures outcome.DifferentBuild? <==> !outcome.OnMeta? && Mixed(old(dir.disk), identity)
    ensures outcome != Dumped ==> Advanced(old(dir.disk), old(dir.history), dir.disk, dir.history, tag)
    ensures outcome == DifferentBuild ==>
              && Describes(written, dir.disk.files, es, mem, tag, budget, hash)
              && TornEach(|old(dir.history)|, dir.history, tag, |written.shards|)
    ensures outcome == Dumped ==>
              && written.identity == model && Describes(written, dir.disk.files, es, mem, tag, budget, hash)
              && Published(old(dir.disk), old(dir.history), dir.disk, dir.history, tag, written, rank, identity)
  {
    hide Progress, PackAll, Owners, Describes;
    ghost var d0, h0 := dir.disk, dir.history;
    var dump := new Dump(dir, tag);
    var stop := dump.AddAll(es, mem, budget, hash);
    written := Model(model, 0, [], map[]);
    if stop.Some? {
      return OnMeta(stop.value), written;
    }
    ghost var d1, h1 := dir.disk, dir.history;
    FlushDescribes(dump.Now(), dir.disk.files, es, mem, tag, budget, hash, model);
    dump.Flush();
    AdvancedTwice(d0, h0, d1, h1, dir.disk, dir.history, tag);
    written := Model(model, dump.total, dump.shards, dump.tensors);
    if dir.disk.manifest.Some? && dir.disk.manifest.value.identity != map[] {
      var problems := Diff(Dict(dir.disk.manifest.value.identity), Dict(identity), []);
      if problems != [] {
        return DifferentBuild, written;
      }
    }
    var m := Model(model, dump.total, dump.shards, dump.tensors);
    ghost var d2, h2 := dir.disk, dir.history;
    dir.ReplaceManifest(Manifest(rank, identity, ModelsOf(dir.disk)[tag := m]));
    assert dir.history[..|dir.history| - 1] == h2;
    assert dir.disk.(manifest := d0.manifest) == d2;
    return Dumped, written;
  }

  ghost predicate AllIntact(history: seq<Disk>, hash: Hash) {
    forall i :: 0 <= i < |history| ==> Intact(history[i], hash)
  }

  /** However far a dump got, and however it ended, every state the directory went through is intact,
      provided the tag was new to it. */
  lemma EveryPrefixIntact(d0: Disk, h0: seq<Disk>, d1: Disk, h1: seq<Disk>, tag: string, hash: Hash)
    requires AllIntact(h0, hash) && Intact(d0, hash) && tag !in ModelsOf(d0)
    requires Advanced(d0, h0, d1, h1, tag)
    ensures AllIntact(h1, hash) && Intact(d1, hash)
  {
    FreshTagKeepsIntact(d0, d1, tag, hash);
    forall i | 0 <= i < |h1|
      ensures Intact(h1[i], hash)
    {
      if i < |h0| {
        assert h1[i] == h0[i];
      } else {
        FreshTagKeepsIntact(d0, h1[i], tag, hash);
      }
    }
  }

  lemma PublishedIntact(d0: Disk, h0: seq<Disk>, d1: Disk, h1: seq<Disk>, tag: string, m: Model, rank: int,
                        identity: Entries, es: seq<Named>, mem: seq<byte>, budget: int, hash: Hash)
    requires AllIntact(h0, hash) && Intact(d0, hash) && tag !in ModelsOf(d0) && NamesDistinct(es)
    requires Published(d0, h0, d1, h1, tag, m, rank, identity) && Describes(m, d1.files, es, mem, tag, budget, hash)
    ensures AllIntact(h1, hash) && Intact(d1, hash)
  {
    hide Describes;
    var before := d1.(manifest := d0.manifest);
    EveryPrefixIntact(d0, h0, before, h1[..|h1| - 1], tag, hash);
    DescribedIsIntact(m, d1.files, es, mem, tag, budget, hash);
    forall i | 0 <= i < |h1|
      ensures Intact(h1[i], hash)
    {
      if i < |h1| - 1 {
        assert h1[i] == h1[..|h1| - 1][i];
      }
    }
  }

  /** A boot that dumps: the main model and then a drafter with a tag of its own, into an empty directory. */
  method DumpBoth(mainTag: string, main: seq<Named>, draftTag: string, draft: seq<Named>, mem: seq<byte>, budget: int,
                  hash: Hash,
                  mainModel: map<string, string>, draftModel: map<string, string>, rank: int, identity: Entries)
    returns (dir: RankDir, outcome: Outcome)
    requires NamesDistinct(main) && NamesDistinct(draft) && mainTag != draftTag
    ensures fresh(dir) && AllIntact(dir.history, hash) && Intact(dir.disk, hash)
    ensures outcome != DifferentBuild
    ensures outcome == Dumped ==> dir.disk.manifest.Some? && ModelsOf(dir.disk).Keys == {mainTag, draftTag}
  {
    dir := new RankDir();
    ghost var m, n;
    ghost var d0, h0 := dir.disk, dir.history;
    outcome, m := DumpModel(dir, mainTag, main, mem, budget, hash, mainModel, rank, identity);
    if outcome != Dumped {
      EveryPrefixIntact(d0, h0, dir.disk, dir.history, mainTag, hash);
      return;
    }
    PublishedIntact(d0, h0, dir.disk, dir.history, mainTag, m, rank, identity, main, mem, budget, hash);
    ghost var d1, h1 := dir.disk, dir.history;
    AgreeWithItself(Dict(identity));
    outcome, n := DumpModel(dir, draftTag, draft, mem, budget, hash, draftModel, rank, identity);
    if outcome != Dumped {
      EveryPrefixIntact(d1, h1, dir.disk, dir.history, draftTag, hash);
      return;
    }
    PublishedIntact(d1, h1, dir.disk, dir.history, draftTag, n, rank, identity, draft, mem, budget, hash);
  }

  // ----- A refused dump

  /** A dump that is refused as another build, under a tag whose model lists a shard it has written, has left the
      directory torn on the way, and its shards in place of those the manifest describes. */
  lemma RefusedDumpTears(d0: Disk, h0: seq<Disk>, d1: Disk, h1: seq<Disk>, tag: string, n: nat, k: nat, hash: Hash)
    requires Advanced(d0, h0, d1, h1, tag) && TornEach(|h0|, h1, tag, n)
    requires tag in ModelsOf(d0) && k < n && ShardName(tag, k) in ModelsOf(d0)[tag].shards
    ensures exists i :: |h0| <= i < |h1| && !Intact(h1[i], hash)
  {
    assert TornOnce(|h0|, h1, ShardName(tag, k));
    var i :| |h0| <= i < |h1| && Tears(h1[i], ShardName(tag, k));
    assert Touched(d0, h1[i], tag);
    assert !Listed(h1[i].files, tag, ShardName(tag, k));
    assert !ModelIntact(ModelsOf(d0)[tag], h1[i].files, tag, hash);
  }

  lemma StoresSomething(es: seq<Named>, budget: int)
    requires Owners(es) != []
    ensures Groups(PackAll(Owners(es), budget)) != []
  {
    GroupsMeaning(Owners(es), budget);
  }

  /** Two builds under one tag: the second dump is refused, its shards are in place of those of the first all the
      same, and the directory was torn on the way. */
  method DumpTwoBuilds(tag: string, one: seq<Named>, two: seq<Named>, mem: seq<byte>, budget: int, hash: Hash,
                       model: map<string, string>, rank: int, first: Entries, second: Entries)
    returns (dir: RankDir, ghost refused: Model)
    requires NamesDistinct(one) && NamesDistinct(two) && Owners(one) != [] && Owners(two) != []
    requires forall x :: x in one || x in two ==> !x.t.onMeta
    requires first != map[] && !Agree(Dict(first), Dict(second))
    ensures fresh(dir) && dir.disk.manifest.Some? && dir.disk.manifest.value.identity == first
    ensures Describes(refused, dir.disk.files, two, mem, tag, budget, hash)
    ensures exists i :: 0 <= i < |dir.history| && !Intact(dir.history[i], hash)
  {
    hide Describes, Agree, PackAll, Owners, Intact;
    dir := new RankDir();
    var outcome;
    ghost var kept;
    outcome, kept := DumpModel(dir, tag, one, mem, budget, hash, model, rank, first);
    ghost var d1, h1 := dir.disk, dir.history;
    outcome, refused := DumpModel(dir, tag, two, mem, budget, hash, model, rank, second);
    FirstShardListed(kept, d1.files, one, mem, tag, budget, hash);
    FirstShardListed(refused, dir.disk.files, two, mem, tag, budget, hash);
    RefusedDumpTears(d1, h1, dir.disk, dir.history, tag, |refused.shards|, 0, hash);
  }

  lemma FirstShardListed(m: Model, files: map<string, File>, es: seq<Named>, mem: seq<byte>, tag: string, budget: int,
                         hash: Hash)
    requires Describes(m, files, es, mem, tag, budget, hash) && Owners(es) != []
    ensures m.shards != [] && ShardName(tag, 0) in m.shards
  {
    StoresSomething(es, budget);
    assert m.shards[0] == ShardName(tag, 0);
  }
}
