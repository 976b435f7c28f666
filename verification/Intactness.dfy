/** When a rank's directory can be trusted: the manifest names only shards that are wholly written, each
    stored tensor is in exactly one of them, and each alias points at a stored tensor. */
module Intactness {
  import opened Options
  import opened Identity
  import opened TensorMemory
  import opened Packing
  import opened ShardNames
  import opened Sidecar

  ghost predicate Listed(files: map<string, File>, tag: string, s: string) {
    s in files && files[s].Whole? && ShardOf(s, tag)
  }

  /** A record: an alias of a stored tensor, or bytes with the recorded size and hash in one listed shard. */
  ghost predicate Sound(m: Model, files: map<string, File>, n: string, hash: Hash)
    requires n in m.tensors && forall s :: s in m.shards ==> s in files && files[s].Whole?
  {
    var meta := m.tensors[n];
    if meta.aliasOf.Some? then
      var o := meta.aliasOf.value;
      meta.sha.None? && o in m.tensors && m.tensors[o].aliasOf.None? && m.tensors[o].nbytes == meta.nbytes
    else
      && meta.shard.Some? && meta.shard.value in m.shards && meta.sha.Some?
      && (forall s :: s in m.shards ==> (n in files[s].tensors <==> s == meta.shard.value))
      && var bytes := files[meta.shard.value].tensors[n];
         |bytes| == meta.nbytes && meta.sha.value == hash(bytes)
  }

  ghost predicate ModelIntact(m: Model, files: map<string, File>, tag: string, hash: Hash) {
    && (forall s :: s in m.shards ==> Listed(files, tag, s))
    && (forall i, j :: 0 <= i < j < |m.shards| ==> m.shards[i] != m.shards[j])
    && (forall n :: n in m.tensors ==> Sound(m, files, n, hash))
  }

  ghost predicate Intact(d: Disk, hash: Hash) {
    d.manifest.Some? ==> forall t :: t in d.manifest.value.models ==>
      ModelIntact(d.manifest.value.models[t], d.files, t, hash)
  }

  // ----- What a dump describes is intact

  lemma NamesApartFrom(tag: string, n: nat)
    ensures forall i, j :: 0 <= i < j < n ==> Names(tag, n)[i] != Names(tag, n)[j]
    ensures forall s :: s in Names(tag, n) <==> exists k :: 0 <= k < n && s == ShardName(tag, k)
  {
    forall i, j | 0 <= i < j < n
      ensures ShardName(tag, i) != ShardName(tag, j)
    {
      if ShardName(tag, i) == ShardName(tag, j) {
        ShardNameInjective(tag, i, tag, j);
      }
    }
    forall k | 0 <= k < n
      ensures ShardName(tag, k) in Names(tag, n)
    {
      assert Names(tag, n)[k] == ShardName(tag, k);
    }
  }

  lemma StoredSound(m: Model, files: map<string, File>, es: seq<Named>, mem: seq<byte>, tag: string,
                    gs: seq<seq<Named>>, i: nat, hash: Hash)
    requires NamesDistinct(Flat(gs)) && Flat(gs) == Owners(es) && m.shards == Names(tag, |gs|)
    requires Recorded(m.tensors, es, mem, hash) && Stored(files, m.tensors, tag, gs, mem)
    requires i < |es| && !AliasAt(es, i) && es[i] in Owners(es)
    requires forall s :: s in m.shards ==> s in files && files[s].Whole?
    ensures es[i].name in m.tensors && Sound(m, files, es[i].name, hash)
  {
    var x := es[i];
    assert RecordedAt(m.tensors, es, i, mem, hash);
    FlatInSome(gs, x);
    var k :| 0 <= k < |gs| && x in gs[k];
    NamesApartFrom(tag, |gs|);
    GroupDistinct(gs, k);
    ContentsMeaning(mem, gs[k]);
    assert StoredAt(files, m.tensors, tag, gs[k], k, mem);
    assert Shelved(m.tensors, x, Some(ShardName(tag, k)));
    forall s | s in m.shards
      ensures x.name in files[s].tensors <==> s == ShardName(tag, k)
    {
      var j :| 0 <= j < |gs| && s == ShardName(tag, j);
      InOneGroup(m, files, mem, tag, gs, j, k, x);
    }
  }

  lemma {:induction false} GroupDistinct(gs: seq<seq<Named>>, k: nat)
    requires NamesDistinct(Flat(gs)) && k < |gs|
    ensures NamesDistinct(gs[k])
  {
    var n := |gs| - 1;
    var front, last, all := Flat(gs[..n]), gs[n], Flat(gs);
    assert all == front + last;
    assert forall i :: 0 <= i < |front| ==> all[i] == front[i];
    assert forall i :: 0 <= i < |last| ==> all[|front| + i] == last[i];
    if k < n {
      GroupDistinct(gs[..n], k);
    }
  }

  lemma InOneGroup(m: Model, files: map<string, File>, mem: seq<byte>, tag: string, gs: seq<seq<Named>>, j: nat, k: nat,
                   x: Named)
    requires NamesDistinct(Flat(gs)) && Stored(files, m.tensors, tag, gs, mem)
    requires j < |gs| && k < |gs| && x in gs[k]
    ensures ShardName(tag, j) in files && files[ShardName(tag, j)].Whole?
    ensures x.name in files[ShardName(tag, j)].tensors <==> ShardName(tag, j) == ShardName(tag, k)
  {
    GroupDistinct(gs, j);
    ContentsMeaning(mem, gs[j]);
    assert StoredAt(files, m.tensors, tag, gs[j], j, mem);
    if x.name in files[ShardName(tag, j)].tensors {
      var y :| y in gs[j] && y.name == x.name;
      OneShardEach(gs, j, k, y, x);
    }
    if ShardName(tag, j) == ShardName(tag, k) {
      ShardNameInjective(tag, j, tag, k);
    }
  }

  lemma AliasSound(m: Model, files: map<string, File>, es: seq<Named>, mem: seq<byte>, i: nat, hash: Hash)
    requires Recorded(m.tensors, es, mem, hash) && i < |es| && AliasAt(es, i)
    requires forall s :: s in m.shards ==> s in files && files[s].Whole?
    ensures es[i].name in m.tensors && Sound(m, files, es[i].name, hash)
  {
    assert RecordedAt(m.tensors, es, i, mem, hash);
    OwnerIsStored(es, i);
    var o := OwnerOf(es, i);
    assert es[..i][o] == es[o];
    assert RecordedAt(m.tensors, es, o, mem, hash);
  }

  /** What a finished dump leaves behind is intact. */
  lemma DescribedIsIntact(m: Model, files: map<string, File>, es: seq<Named>, mem: seq<byte>, tag: string, budget: int,
                          hash: Hash)
    requires NamesDistinct(es) && Describes(m, files, es, mem, tag, budget, hash)
    ensures ModelIntact(m, files, tag, hash)
  {
    var gs := Groups(PackAll(Owners(es), budget));
    GroupsMeaning(Owners(es), budget);
    OwnersMeaning(es);
    NamesApartFrom(tag, |gs|);
    forall s | s in m.shards
      ensures Listed(files, tag, s)
    {
      var k :| 0 <= k < |gs| && s == ShardName(tag, k);
      assert StoredAt(files, m.tensors, tag, gs[k], k, mem);
    }
    forall n | n in m.tensors
      ensures Sound(m, files, n, hash)
    {
      var i :| 0 <= i < |es| && es[i].name == n;
      if AliasAt(es, i) {
        AliasSound(m, files, es, mem, i, hash);
      } else {
        StoredSound(m, files, es, mem, tag, gs, i, hash);
      }
    }
  }

  // ----- What stays intact while another tag is written

  lemma OtherTagKept(m: Model, before: Disk, after: Disk, t: string, tag: string, hash: Hash)
    requires t != tag && ModelIntact(m, before.files, t, hash) && Touched(before, after, tag)
    ensures ModelIntact(m, after.files, t, hash)
  {
    forall s | s in m.shards
      ensures Listed(after.files, t, s) && s in before.files && after.files[s] == before.files[s]
    {
      assert Listed(before.files, t, s);
      if ShardOf(s, tag) {
        var j, k :| s == ShardName(t, j) && s == ShardName(tag, k);
        ShardNameInjective(t, j, tag, k);
      }
      assert SameFile(before.files, after.files, s);
    }
    forall n | n in m.tensors
      ensures Sound(m, after.files, n, hash)
    {
      assert Sound(m, before.files, n, hash);
    }
  }

  /** While shards of a tag that the manifest does not know are written, the directory stays intact. */
  lemma FreshTagKeepsIntact(before: Disk, after: Disk, tag: string, hash: Hash)
    requires Intact(before, hash) && Touched(before, after, tag)
    requires before.manifest.Some? ==> tag !in before.manifest.value.models
    ensures Intact(after, hash)
  {
    if before.manifest.Some? {
      forall t | t in before.manifest.value.models
        ensures ModelIntact(before.manifest.value.models[t], after.files, t, hash)
      {
        OtherTagKept(before.manifest.value.models[t], before, after, t, tag, hash);
      }
    }
  }

  /** Starting to write a file leaves the directory intact exactly when no model lists that file: a model
      dumped again under its own tag is torn from its first shard on. */
  lemma WritingKeepsIntactExactly(d: Disk, f: string, hash: Hash)
    requires Intact(d, hash)
    ensures Intact(d.(files := d.files[f := Partial]), hash)
       <==> (d.manifest.Some? ==> forall t :: t in d.manifest.value.models ==> f !in d.manifest.value.models[t].shards)
  {
    var e := d.(files := d.files[f := Partial]);
    if d.manifest.Some? {
      var models := d.manifest.value.models;
      forall t | t in models
        ensures ModelIntact(models[t], e.files, t, hash) <==> f !in models[t].shards
      {
        assert ModelIntact(models[t], d.files, t, hash);
        if f in models[t].shards {
          assert !Listed(e.files, t, f);
        } else {
          forall s | s in models[t].shards
            ensures Listed(e.files, t, s)
          {
            assert Listed(d.files, t, s);
          }
          forall n | n in models[t].tensors
            ensures Sound(models[t], e.files, n, hash)
          {
            assert Sound(models[t], d.files, n, hash);
          }
        }
      }
    }
  }
}
