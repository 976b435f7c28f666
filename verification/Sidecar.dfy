/** Dumping a model into a rank's directory: shards first, then the manifest in one atomic step.

    The directory keeps every state it has been in, so what holds of all prefixes of a dump can be said. */
module Sidecar {
  import opened Options
  import opened Identity
  import opened TensorMemory
  import opened Packing
  import opened ShardNames

  datatype Meta = Meta(shape: seq<nat>, dtype: DType, nbytes: nat, contiguous: bool,
                       aliasOf: Option<string>, sha: Option<int>, shard: Option<string>)

  /** A file is partial while it is being written. */
  datatype File = Partial | Whole(tensors: map<string, seq<byte>>)

  datatype Model = Model(identity: map<string, string>, bytes: nat, shards: seq<string>, tensors: map<string, Meta>)

  datatype Manifest = Manifest(rank: int, identity: Entries, models: map<string, Model>)

  datatype Disk = Disk(files: map<string, File>, manifest: Option<Manifest>)

  type Hash = seq<byte> -> int

  type Key2 = (nat, nat)

  // ----- The directory

  class RankDir {
    var disk: Disk
    ghost var history: seq<Disk>

    constructor ()
      ensures disk == Disk(map[], None) && history == [disk]
    {
      disk := Disk(map[], None);
      history := [Disk(map[], None)];
    }

    /** A file appears empty or torn before it is whole. */
    method SaveFile(name: string, tensors: map<string, seq<byte>>)
      modifies this
      ensures disk == old(disk).(files := old(disk).files[name := Whole(tensors)])
      ensures history == old(history) + [old(disk).(files := old(disk).files[name := Partial]), disk]
    {
      disk := disk.(files := disk.files[name := Partial]);
      history := history + [disk];
      disk := disk.(files := disk.files[name := Whole(tensors)]);
      history := history + [disk];
    }

    /** The manifest is written beside and moved over. */
    method ReplaceManifest(m: Manifest)
      modifies this
      ensures disk == old(disk).(manifest := Some(m)) && history == old(history) + [disk]
    {
      disk := disk.(manifest := Some(m));
      history := history + [disk];
    }
  }

  // ----- What a dump should leave behind

  function Contents(mem: seq<byte>, group: seq<Named>): map<string, seq<byte>>
  {
    if group == [] then map[]
    else
      var x := group[|group| - 1];
      Contents(mem, group[..|group| - 1])[x.name := Canon(mem, x.t)]
  }

  lemma {:induction false} ContentsMeaning(mem: seq<byte>, group: seq<Named>)
    requires NamesDistinct(group)
    ensures forall n :: n in Contents(mem, group) <==> exists x :: x in group && x.name == n
    ensures forall x :: x in group ==> x.name in Contents(mem, group) && Contents(mem, group)[x.name] == Canon(mem, x.t)
  {
    hide Canon;
    if group != [] {
      var p, x := group[..|group| - 1], group[|group| - 1];
      assert group == p + [x];
      ContentsMeaning(mem, p);
      assert forall y :: y in p ==> y.name != x.name;
    }
  }

  /** The record of an entry that comes after "before": an alias points at the first entry with its
      address and size; anything else carries the hash of its canonical bytes. */
  ghost predicate MetaRight(m: Meta, before: seq<Named>, x: Named, mem: seq<byte>, hash: Hash) {
    && m.shape == x.t.shape && m.dtype == x.t.dtype && m.nbytes == x.t.Bytes() && m.contiguous == x.t.Contiguous()
    && if AliasOf(before, x) then
         m.aliasOf == Some(before[First(before, Key(x.t))].name) && m.sha.None? && m.shard.None?
       else m.aliasOf.None? && m.sha == Some(hash(Canon(mem, x.t)))
  }

  ghost predicate RecordedAt(tensors: map<string, Meta>, es: seq<Named>, i: int, mem: seq<byte>, hash: Hash)
    requires 0 <= i < |es|
  {
    es[i].name in tensors && MetaRight(tensors[es[i].name], es[..i], es[i], mem, hash)
  }

  ghost predicate IsName(es: seq<Named>, n: string) {
    exists i :: 0 <= i < |es| && es[i].name == n
  }

  /** Every entry recorded, and nothing else. */
  ghost predicate Recorded(tensors: map<string, Meta>, es: seq<Named>, mem: seq<byte>, hash: Hash) {
    && (forall n :: n in tensors ==> IsName(es, n))
    && (forall i :: 0 <= i < |es| ==> RecordedAt(tensors, es, i, mem, hash))
  }

  /** A stored entry's record names its shard. */
  ghost predicate Shelved(tensors: map<string, Meta>, x: Named, shard: Option<string>) {
    x.name in tensors && tensors[x.name].shard == shard
  }

  /** The groups are on disk under their numbers, and their tensors say so. */
  ghost predicate StoredAt(files: map<string, File>, tensors: map<string, Meta>, tag: string, group: seq<Named>, k: nat,
                           mem: seq<byte>) {
    && ShardName(tag, k) in files && files[ShardName(tag, k)] == Whole(Contents(mem, group))
    && forall x :: x in group ==> Shelved(tensors, x, Some(ShardName(tag, k)))
  }

  ghost predicate Stored(files: map<string, File>, tensors: map<string, Meta>, tag: string, groups: seq<seq<Named>>,
                         mem: seq<byte>) {
    forall k :: 0 <= k < |groups| ==> StoredAt(files, tensors, tag, groups[k], k, mem)
  }

  ghost predicate Describes(m: Model, files: map<string, File>, es: seq<Named>, mem: seq<byte>, tag: string,
                            budget: int, hash: Hash)
  {
    var gs := Groups(PackAll(Owners(es), budget));
    && m.shards == Names(tag, |gs|) && m.bytes == BytesOf(Owners(es))
    && Recorded(m.tensors, es, mem, hash) && Stored(files, m.tensors, tag, gs, mem)
  }

  // ----- What a dump changes on the way

  ghost predicate ShardOf(f: string, tag: string) {
    exists k :: f == ShardName(tag, k)
  }

  /** Only shards of this tag differ, and the manifest does not. */
  ghost predicate Touched(before: Disk, after: Disk, tag: string) {
    && after.manifest == before.manifest
    && forall f :: !ShardOf(f, tag) ==> SameFile(before.files, after.files, f)
  }

  ghost predicate SameFile(a: map<string, File>, b: map<string, File>, f: string) {
    if f in a then f in b && b[f] == a[f] else f !in b
  }

  lemma TouchMore(a: Disk, b: Disk, tag: string, k: nat, file: File)
    requires Touched(a, b, tag)
    ensures Touched(a, b.(files := b.files[ShardName(tag, k) := file]), tag)
  {
    var c := b.(files := b.files[ShardName(tag, k) := file]);
    forall f | !ShardOf(f, tag)
      ensures SameFile(a.files, c.files, f)
    {
      assert SameFile(a.files, b.files, f);
      assert f != ShardName(tag, k);
    }
  }

  lemma TouchTwice(a: Disk, b: Disk, c: Disk, tag: string)
    requires Touched(a, b, tag) && Touched(b, c, tag)
    ensures Touched(a, c, tag)
  {
    forall f | !ShardOf(f, tag)
      ensures SameFile(a.files, c.files, f)
    {
      assert SameFile(a.files, b.files, f) && SameFile(b.files, c.files, f);
    }
  }

  /** The directory has been through states that differ only in shards of this tag. */
  ghost predicate Advanced(d0: Disk, h0: seq<Disk>, d1: Disk, h1: seq<Disk>, tag: string) {
    && h0 <= h1 && Touched(d0, d1, tag)
    && forall i :: |h0| <= i < |h1| ==> Touched(d0, h1[i], tag)
  }

  lemma NotYet(d: Disk, h: seq<Disk>, tag: string)
    ensures Advanced(d, h, d, h, tag) && TornEach(|h|, h, tag, 0)
  {
  }

  lemma AdvancedTwice(d0: Disk, h0: seq<Disk>, d1: Disk, h1: seq<Disk>, d2: Disk, h2: seq<Disk>, tag: string)
    requires Advanced(d0, h0, d1, h1, tag) && Advanced(d1, h1, d2, h2, tag)
    ensures Advanced(d0, h0, d2, h2, tag)
  {
    TouchTwice(d0, d1, d2, tag);
    forall i | |h0| <= i < |h2|
      ensures Touched(d0, h2[i], tag)
    {
      if i < |h1| {
        assert h2[i] == h1[i];
      } else {
        TouchTwice(d0, d1, h2[i], tag);
      }
    }
  }

  ghost predicate Tears(d: Disk, f: string) {
    f in d.files && d.files[f].Partial?
  }

  ghost predicate TornOnce(n0: nat, history: seq<Disk>, f: string) {
    exists i :: n0 <= i < |history| && Tears(history[i], f)
  }

  /** Since its first n0 states the directory has been in one with each of the first n shards of the tag torn. */
  ghost predicate TornEach(n0: nat, history: seq<Disk>, tag: string, n: nat) {
    forall k :: 0 <= k < n ==> TornOnce(n0, history, ShardName(tag, k))
  }

  lemma TornMore(n0: nat, h: seq<Disk>, more: seq<Disk>, tag: string, n: nat)
    requires TornEach(n0, h, tag, n) && n0 <= |h| < |more| && h <= more && Tears(more[|h|], ShardName(tag, n))
    ensures TornEach(n0, more, tag, n + 1)
  {
    forall k | 0 <= k < n
      ensures TornOnce(n0, more, ShardName(tag, k))
    {
      assert TornOnce(n0, h, ShardName(tag, k));
      var i :| n0 <= i < |h| && Tears(h[i], ShardName(tag, k));
      assert more[i] == h[i];
    }
  }

  // ----- One dump, entry by entry

  datatype State = State(
    tensors: map<string, Meta>,
    shards: seq<string>,
    byPtr: map<Key2, string>,
    buf: map<string, seq<byte>>,
    bufBytes: nat,
    total: nat)

  function Reshelved(tensors: map<string, Meta>, buf: map<string, seq<byte>>, shard: string): map<string, Meta> {
    map n | n in tensors :: if n in buf then tensors[n].(shard := Some(shard)) else tensors[n]
  }

  /** The buffer written as the next shard, unless it is empty. */
  function Flushed(s: State, tag: string): State {
    if s.buf == map[] then s
    else
      var name := ShardName(tag, |s.shards|);
      s.(tensors := Reshelved(s.tensors, s.buf, name), shards := s.shards + [name], buf := map[], bufBytes := 0)
  }

  function FilesFlushed(files: map<string, File>, s: State, tag: string): map<string, File> {
    if s.buf == map[] then files else files[ShardName(tag, |s.shards|) := Whole(s.buf)]
  }

  function BlankMeta(t: Tensor): Meta {
    Meta(t.shape, t.dtype, t.Bytes(), t.Contiguous(), None, None, None)
  }

  function PutAlias(s: State, x: Named): State
    requires Key(x.t) in s.byPtr
  {
    s.(tensors := s.tensors[x.name := BlankMeta(x.t).(aliasOf := Some(s.byPtr[Key(x.t)]))])
  }

  function PutOwner(s: State, x: Named, bytes: seq<byte>, sha: int): State {
    State(s.tensors[x.name := BlankMeta(x.t).(sha := Some(sha))], s.shards, s.byPtr[Key(x.t) := x.name],
          s.buf[x.name := bytes], s.bufBytes + x.t.Bytes(), s.total + x.t.Bytes())
  }

  predicate Stores(s: State, x: Named) {
    !(x.t.Bytes() > 0 && Key(x.t) in s.byPtr)
  }

  function Put(s: State, x: Named, mem: seq<byte>, hash: Hash): State {
    if Stores(s, x) then PutOwner(s, x, Canon(mem, x.t), hash(Canon(mem, x.t))) else PutAlias(s, x)
  }

  /** One entry: recorded, and a shard written once the buffer has reached the budget. */
  function Stepped(s: State, x: Named, mem: seq<byte>, tag: string, budget: int, hash: Hash): State {
    var n := Put(s, x, mem, hash);
    if Stores(s, x) && n.bufBytes >= budget then Flushed(n, tag) else n
  }

  function FilesStepped(files: map<string, File>, s: State, x: Named, mem: seq<byte>, tag: string, budget: int,
                        hash: Hash): map<string, File> {
    var n := Put(s, x, mem, hash);
    if Stores(s, x) && n.bufBytes >= budget then FilesFlushed(files, n, tag) else files
  }

  ghost predicate PtrRight(byPtr: map<Key2, string>, es: seq<Named>, key: Key2) {
    if Seen(es, key) then key in byPtr && (key.1 > 0 ==> byPtr[key] == es[First(es, key)].name) else key !in byPtr
  }

  ghost predicate PtrsRight(byPtr: map<Key2, string>, es: seq<Named>) {
    forall key: Key2 :: PtrRight(byPtr, es, key)
  }

  /** The counters, with the stored entries packed as p. */
  ghost predicate Counted(s: State, owners: seq<Named>, p: Pack, tag: string) {
    && Flat(p.full) + p.open == owners
    && s.shards == Names(tag, |p.full|) && s.total == BytesOf(owners) && s.bufBytes == BytesOf(p.open)
  }

  /** The records and the bytes. */
  ghost predicate Kept(s: State, files: map<string, File>, es: seq<Named>, p: Pack, mem: seq<byte>, tag: string,
                       hash: Hash) {
    && s.buf == Contents(mem, p.open)
    && Recorded(s.tensors, es, mem, hash) && Stored(files, s.tensors, tag, p.full, mem)
    && forall x :: x in p.open ==> Shelved(s.tensors, x, None)
  }

  // ----- Pointers

  lemma OwnersGrow(es: seq<Named>, x: Named)
    ensures Owners(es + [x]) == if AliasOf(es, x) then Owners(es) else Owners(es) + [x]
  {
    assert (es + [x])[..|es|] == es;
  }

  lemma SeenGrows(es: seq<Named>, x: Named, key: Key2)
    ensures Seen(es + [x], key) <==> Seen(es, key) || key == Key(x.t)
    ensures Seen(es, key) ==> First(es + [x], key) == First(es, key)
    ensures !Seen(es, key) && key == Key(x.t) ==> Seen(es + [x], key) && First(es + [x], key) == |es|
  {
    var all := es + [x];
    assert all[|es|] == x && forall i :: 0 <= i < |es| ==> all[i] == es[i];
    if Seen(es, key) {
      FirstIs(all, key, First(es, key));
    }
  }

  lemma FirstIs(es: seq<Named>, key: Key2, f: nat)
    requires f < |es| && Key(es[f].t) == key && forall j :: 0 <= j < f ==> Key(es[j].t) != key
    ensures First(es, key) == f
  {
    var g := First(es, key);
    assert !(g < f) && !(f < g);
  }

  lemma PtrsGrow(byPtr: map<Key2, string>, es: seq<Named>, x: Named)
    requires PtrsRight(byPtr, es)
    ensures PtrsRight(if AliasOf(es, x) then byPtr else byPtr[Key(x.t) := x.name], es + [x])
  {
    var all, after := es + [x], if AliasOf(es, x) then byPtr else byPtr[Key(x.t) := x.name];
    forall key: Key2
      ensures PtrRight(after, all, key)
    {
      assert PtrRight(byPtr, es, key);
      SeenGrows(es, x, key);
      if Seen(es, key) {
        assert all[First(es, key)] == es[First(es, key)];
      }
    }
  }

  // ----- Records

  lemma NamesApart(es: seq<Named>, x: Named)
    requires NamesDistinct(es + [x])
    ensures NamesDistinct(es)
    ensures forall i :: 0 <= i < |es| ==> es[i].name != x.name
    ensures forall y :: y in Owners(es) ==> y.name != x.name
  {
    var all := es + [x];
    assert all[|es|] == x && forall i :: 0 <= i < |es| ==> all[i] == es[i];
    OwnersMeaning(es);
  }

  lemma RecordedGrows(tensors: map<string, Meta>, es: seq<Named>, x: Named, m: Meta, mem: seq<byte>, hash: Hash)
    requires NamesDistinct(es + [x]) && Recorded(tensors, es, mem, hash) && MetaRight(m, es, x, mem, hash)
    ensures Recorded(tensors[x.name := m], es + [x], mem, hash)
  {
    var all, after := es + [x], tensors[x.name := m];
    NamesApart(es, x);
    forall i | 0 <= i < |all|
      ensures RecordedAt(after, all, i, mem, hash)
    {
      if i < |es| {
        assert RecordedAt(tensors, es, i, mem, hash);
        assert all[i] == es[i] && all[..i] == es[..i];
      } else {
        assert all[i] == x && all[..i] == es;
      }
    }
    forall n | n in after
      ensures IsName(all, n)
    {
      if n == x.name {
        assert all[|es|].name == n;
      } else {
        var i :| 0 <= i < |es| && es[i].name == n;
        assert all[i].name == n;
      }
    }
  }

  lemma StoredGrows(files: map<string, File>, tensors: map<string, Meta>, tag: string, groups: seq<seq<Named>>,
                    mem: seq<byte>, n: string, m: Meta)
    requires Stored(files, tensors, tag, groups, mem)
    requires forall x :: x in Flat(groups) ==> x.name != n
    ensures Stored(files, tensors[n := m], tag, groups, mem)
  {
    forall k | 0 <= k < |groups|
      ensures StoredAt(files, tensors[n := m], tag, groups[k], k, mem)
    {
      assert StoredAt(files, tensors, tag, groups[k], k, mem);
      forall x | x in groups[k]
        ensures Shelved(tensors[n := m], x, Some(ShardName(tag, k)))
      {
        InFlat(groups, k, x);
        assert Shelved(tensors, x, Some(ShardName(tag, k)));
      }
    }
  }

  lemma {:induction false} FlatMembers(p: Pack, owners: seq<Named>)
    requires Flat(p.full) + p.open == owners
    ensures forall x :: x in Flat(p.full) || x in p.open ==> x in owners
  {
    var a, b := Flat(p.full), p.open;
    assert forall i :: 0 <= i < |a| ==> owners[i] == a[i];
    assert forall i :: 0 <= i < |b| ==> owners[|a| + i] == b[i];
  }

  lemma OpenDistinct(p: Pack, owners: seq<Named>)
    requires NamesDistinct(owners) && Flat(p.full) + p.open == owners
    ensures NamesDistinct(p.open)
    ensures forall x, y :: x in Flat(p.full) && y in p.open ==> x.name != y.name
  {
    var a, b := Flat(p.full), p.open;
    assert forall i :: 0 <= i < |a| ==> owners[i] == a[i];
    assert forall i :: 0 <= i < |b| ==> owners[|a| + i] == b[i];
  }

  // ----- One entry, one flush

  lemma AliasMeta(byPtr: map<Key2, string>, es: seq<Named>, x: Named, mem: seq<byte>, hash: Hash)
    requires PtrsRight(byPtr, es) && AliasOf(es, x)
    ensures Key(x.t) in byPtr && MetaRight(BlankMeta(x.t).(aliasOf := Some(byPtr[Key(x.t)])), es, x, mem, hash)
  {
    assert PtrRight(byPtr, es, Key(x.t));
  }

  /** One more record changes nothing of what is stored or waiting. */
  lemma PutKept(tensors: map<string, Meta>, files: map<string, File>, es: seq<Named>, x: Named, p: Pack, mem: seq<byte>,
                tag: string, hash: Hash, m: Meta)
    requires NamesDistinct(es + [x]) && Flat(p.full) + p.open == Owners(es)
    requires Recorded(tensors, es, mem, hash) && Stored(files, tensors, tag, p.full, mem)
    requires forall y :: y in p.open ==> Shelved(tensors, y, None)
    requires MetaRight(m, es, x, mem, hash)
    ensures Recorded(tensors[x.name := m], es + [x], mem, hash) && Stored(files, tensors[x.name := m], tag, p.full, mem)
    ensures forall y :: y in p.open ==> Shelved(tensors[x.name := m], y, None)
  {
    NamesApart(es, x);
    FlatMembers(p, Owners(es));
    RecordedGrows(tensors, es, x, m, mem, hash);
    StoredGrows(files, tensors, tag, p.full, mem, x.name, m);
    forall y | y in p.open
      ensures Shelved(tensors[x.name := m], y, None)
    {
      assert Shelved(tensors, y, None);
    }
  }

  lemma AliasKept(s: State, files: map<string, File>, es: seq<Named>, x: Named, p: Pack, mem: seq<byte>, tag: string,
                  hash: Hash)
    requires NamesDistinct(es + [x]) && Flat(p.full) + p.open == Owners(es) && PtrsRight(s.byPtr, es)
    requires Kept(s, files, es, p, mem, tag, hash) && AliasOf(es, x) && Key(x.t) in s.byPtr
    ensures Kept(PutAlias(s, x), files, es + [x], p, mem, tag, hash)
  {
    AliasMeta(s.byPtr, es, x, mem, hash);
    PutKept(s.tensors, files, es, x, p, mem, tag, hash, BlankMeta(x.t).(aliasOf := Some(s.byPtr[Key(x.t)])));
  }

  lemma OwnerCounted(s: State, owners: seq<Named>, x: Named, p: Pack, tag: string, bytes: seq<byte>, sha: int)
    requires Counted(s, owners, p, tag)
    ensures Counted(PutOwner(s, x, bytes, sha), owners + [x], Pack(p.full, p.open + [x]), tag)
  {
    BytesAppend(owners, x);
    BytesAppend(p.open, x);
  }

  lemma ContentsGrow(mem: seq<byte>, group: seq<Named>, x: Named)
    ensures Contents(mem, group + [x]) == Contents(mem, group)[x.name := Canon(mem, x.t)]
  {
    assert (group + [x])[..|group|] == group;
  }

  lemma OwnerShelved(tensors: map<string, Meta>, open: seq<Named>, x: Named, m: Meta)
    requires m.shard.None? && forall y :: y in open ==> Shelved(tensors[x.name := m], y, None)
    ensures forall y :: y in open + [x] ==> Shelved(tensors[x.name := m], y, None)
  {
  }

  lemma OwnerKept(s: State, files: map<string, File>, es: seq<Named>, x: Named, p: Pack, mem: seq<byte>, tag: string,
                  hash: Hash)
    requires NamesDistinct(es + [x]) && Flat(p.full) + p.open == Owners(es)
    requires Kept(s, files, es, p, mem, tag, hash) && !AliasOf(es, x)
    ensures Kept(PutOwner(s, x, Canon(mem, x.t), hash(Canon(mem, x.t))), files, es + [x], Pack(p.full, p.open + [x]),
                 mem, tag, hash)
  {
    var m := BlankMeta(x.t).(sha := Some(hash(Canon(mem, x.t))));
    PutKept(s.tensors, files, es, x, p, mem, tag, hash, m);
    ContentsGrow(mem, p.open, x);
    OwnerShelved(s.tensors, p.open, x, m);
  }

  lemma FlushCounted(s: State, owners: seq<Named>, p: Pack, tag: string)
    requires Counted(s, owners, p, tag) && s.buf != map[]
    ensures Counted(Flushed(s, tag), owners, Pack(p.full + [p.open], []), tag)
  {
    FlatAppend(p.full, p.open);
    assert Flat(p.full + [p.open]) + [] == owners;
    assert Names(tag, |p.full|) + [ShardName(tag, |p.full|)] == Names(tag, |p.full| + 1);
  }

  /** Aliases are not in the buffer, so writing it shelves no alias. */
  lemma FlushRecorded(tensors: map<string, Meta>, es: seq<Named>, open: seq<Named>, mem: seq<byte>, hash: Hash,
                      buf: map<string, seq<byte>>, shard: string)
    requires NamesDistinct(es) && Recorded(tensors, es, mem, hash)
    requires forall n :: n in buf ==> exists x :: x in open && x.name == n
    requires forall x :: x in open ==> x in Owners(es)
    ensures Recorded(Reshelved(tensors, buf, shard), es, mem, hash)
  {
    OwnersMeaning(es);
    forall i | 0 <= i < |es|
      ensures RecordedAt(Reshelved(tensors, buf, shard), es, i, mem, hash)
    {
      assert RecordedAt(tensors, es, i, mem, hash);
      if es[i].name in buf {
        var x :| x in open && x.name == es[i].name;
        var j :| 0 <= j < |es| && es[j] == x && !AliasAt(es, j);
        assert j == i;
      }
    }
  }

  lemma FlushStored(files: map<string, File>, tensors: map<string, Meta>, tag: string, p: Pack, mem: seq<byte>,
                    buf: map<string, seq<byte>>)
    requires NamesDistinct(Flat(p.full) + p.open) && Stored(files, tensors, tag, p.full, mem)
    requires buf == Contents(mem, p.open) && forall x :: x in p.open ==> Shelved(tensors, x, None)
    ensures var shard := ShardName(tag, |p.full|);
            Stored(files[shard := Whole(buf)], Reshelved(tensors, buf, shard), tag, p.full + [p.open], mem)
  {
    var shard := ShardName(tag, |p.full|);
    var gs := p.full + [p.open];
    OpenDistinct(p, Flat(p.full) + p.open);
    ContentsMeaning(mem, p.open);
    forall k | 0 <= k < |gs|
      ensures StoredAt(files[shard := Whole(buf)], Reshelved(tensors, buf, shard), tag, gs[k], k, mem)
    {
      if k < |p.full| {
        StoredApart(files, tensors, tag, p, k, mem, buf);
      } else {
        forall x | x in p.open
          ensures Shelved(Reshelved(tensors, buf, shard), x, Some(shard))
        {
          assert Shelved(tensors, x, None);
        }
      }
    }
  }

  lemma StoredApart(files: map<string, File>, tensors: map<string, Meta>, tag: string, p: Pack, k: nat, mem: seq<byte>,
                    buf: map<string, seq<byte>>)
    requires k < |p.full| && Stored(files, tensors, tag, p.full, mem)
    requires forall x, y :: x in Flat(p.full) && y in p.open ==> x.name != y.name
    requires forall n :: n in buf ==> exists x :: x in p.open && x.name == n
    ensures var shard := ShardName(tag, |p.full|);
            StoredAt(files[shard := Whole(buf)], Reshelved(tensors, buf, shard), tag, p.full[k], k, mem)
  {
    var shard := ShardName(tag, |p.full|);
    if ShardName(tag, k) == shard {
      ShardNameInjective(tag, k, tag, |p.full|);
    }
    assert StoredAt(files, tensors, tag, p.full[k], k, mem);
    forall x | x in p.full[k]
      ensures Shelved(Reshelved(tensors, buf, shard), x, Some(ShardName(tag, k)))
    {
      InFlat(p.full, k, x);
      assert Shelved(tensors, x, Some(ShardName(tag, k)));
    }
  }

  lemma FlushKept(s: State, files: map<string, File>, es: seq<Named>, p: Pack, mem: seq<byte>, tag: string, hash: Hash)
    requires NamesDistinct(es) && Counted(s, Owners(es), p, tag) && Kept(s, files, es, p, mem, tag, hash)
    requires s.buf != map[]
    ensures Kept(Flushed(s, tag), FilesFlushed(files, s, tag), es, Pack(p.full + [p.open], []), mem, tag, hash)
  {
    OwnersMeaning(es);
    OpenDistinct(p, Owners(es));
    FlatMembers(p, Owners(es));
    ContentsMeaning(mem, p.open);
    FlushRecorded(s.tensors, es, p.open, mem, hash, s.buf, ShardName(tag, |s.shards|));
    FlushStored(files, s.tensors, tag, p, mem, s.buf);
  }

  /** What holds after the entries es, with the stored ones packed as p. */
  ghost predicate Progress(s: State, files: map<string, File>, es: seq<Named>, p: Pack, mem: seq<byte>, tag: string,
                           hash: Hash) {
    Counted(s, Owners(es), p, tag) && PtrsRight(s.byPtr, es) && Kept(s, files, es, p, mem, tag, hash)
  }

  lemma BufferNotEmpty(s: State, files: map<string, File>, es: seq<Named>, p: Pack, mem: seq<byte>, tag: string,
                       hash: Hash)
    requires NamesDistinct(es) && Progress(s, files, es, p, mem, tag, hash)
    ensures s.buf != map[] <==> p.open != []
  {
    if p.open != [] {
      OwnersMeaning(es);
      OpenDistinct(p, Owners(es));
      ContentsMeaning(mem, p.open);
      assert p.open[0].name in s.buf;
    }
  }

  lemma PackStep(es: seq<Named>, x: Named, budget: int)
    ensures var p := PackAll(Owners(es), budget);
            PackAll(Owners(es + [x]), budget) == if AliasOf(es, x) then p else AddItem(p, x, budget)
  {
    OwnersGrow(es, x);
    var o := Owners(es);
    assert (o + [x])[..|o|] == o;
  }

  lemma StoresOwners(s: State, files: map<string, File>, es: seq<Named>, x: Named, p: Pack, mem: seq<byte>, tag: string,
                     hash: Hash)
    requires Progress(s, files, es, p, mem, tag, hash)
    ensures Stores(s, x) <==> !AliasOf(es, x)
  {
    assert PtrRight(s.byPtr, es, Key(x.t));
  }

  lemma AliasProgress(s: State, files: map<string, File>, es: seq<Named>, x: Named, p: Pack, mem: seq<byte>,
                      tag: string, hash: Hash)
    requires NamesDistinct(es + [x]) && Progress(s, files, es, p, mem, tag, hash) && !Stores(s, x)
    ensures Progress(PutAlias(s, x), files, es + [x], p, mem, tag, hash)
  {
    hide Kept;
    StoresOwners(s, files, es, x, p, mem, tag, hash);
    OwnersGrow(es, x);
    PtrsGrow(s.byPtr, es, x);
    AliasKept(s, files, es, x, p, mem, tag, hash);
    AliasCounted(s, Owners(es), x, p, tag);
  }

  lemma AliasCounted(s: State, owners: seq<Named>, x: Named, p: Pack, tag: string)
    requires Counted(s, owners, p, tag) && Key(x.t) in s.byPtr
    ensures Counted(PutAlias(s, x), owners, p, tag)
  {
  }

  lemma OwnerProgress(s: State, files: map<string, File>, es: seq<Named>, x: Named, p: Pack, mem: seq<byte>,
                      tag: string, hash: Hash)
    requires NamesDistinct(es + [x]) && Progress(s, files, es, p, mem, tag, hash) && Stores(s, x)
    ensures Progress(PutOwner(s, x, Canon(mem, x.t), hash(Canon(mem, x.t))), files, es + [x],
                     Pack(p.full, p.open + [x]), mem, tag, hash)
  {
    hide Kept;
    StoresOwners(s, files, es, x, p, mem, tag, hash);
    OwnersGrow(es, x);
    PtrsGrow(s.byPtr, es, x);
    OwnerCounted(s, Owners(es), x, p, tag, Canon(mem, x.t), hash(Canon(mem, x.t)));
    OwnerKept(s, files, es, x, p, mem, tag, hash);
  }

  lemma FlushProgress(s: State, files: map<string, File>, es: seq<Named>, p: Pack, mem: seq<byte>, tag: string,
                      hash: Hash)
    requires NamesDistinct(es) && Progress(s, files, es, p, mem, tag, hash) && s.buf != map[]
    ensures Progress(Flushed(s, tag), FilesFlushed(files, s, tag), es, Pack(p.full + [p.open], []), mem, tag, hash)
  {
    hide Kept, Counted;
    BufferNotEmpty(s, files, es, p, mem, tag, hash);
    FlushCounted(s, Owners(es), p, tag);
    FlushKept(s, files, es, p, mem, tag, hash);
  }

  lemma BufferedBytes(s: State, files: map<string, File>, es: seq<Named>, p: Pack, mem: seq<byte>, tag: string,
                      hash: Hash)
    requires Progress(s, files, es, p, mem, tag, hash)
    ensures s.bufBytes == BytesOf(p.open)
  {
  }

  lemma StepProgress(s: State, files: map<string, File>, es: seq<Named>, x: Named, mem: seq<byte>, tag: string,
                     budget: int, hash: Hash)
    requires NamesDistinct(es + [x]) && Progress(s, files, es, PackAll(Owners(es), budget), mem, tag, hash)
    ensures Progress(Stepped(s, x, mem, tag, budget, hash), FilesStepped(files, s, x, mem, tag, budget, hash), es + [x],
                     PackAll(Owners(es + [x]), budget), mem, tag, hash)
  {
    hide Progress, PackAll, Owners, PutOwner, PutAlias, Stores;
    var p := PackAll(Owners(es), budget);
    PackStep(es, x, budget);
    StoresOwners(s, files, es, x, p, mem, tag, hash);
    if Stores(s, x) {
      var n, q := Put(s, x, mem, hash), Pack(p.full, p.open + [x]);
      OwnerProgress(s, files, es, x, p, mem, tag, hash);
      BufferNotEmpty(n, files, es + [x], q, mem, tag, hash);
      BufferedBytes(n, files, es + [x], q, mem, tag, hash);
      if n.bufBytes >= budget {
        FlushProgress(n, files, es + [x], q, mem, tag, hash);
      }
    } else {
      AliasProgress(s, files, es, x, p, mem, tag, hash);
    }
  }

  function Empty(): State { State(map[], [], map[], map[], 0, 0) }

  lemma EmptyProgress(files: map<string, File>, budget: int, mem: seq<byte>, tag: string, hash: Hash)
    ensures Progress(Empty(), files, [], PackAll(Owners([]), budget), mem, tag, hash)
  {
  }

  /** With the buffer written too, the records describe the model. */
  lemma FlushDescribes(s: State, files: map<string, File>, es: seq<Named>, mem: seq<byte>, tag: string, budget: int,
                       hash: Hash, identity: map<string, string>)
    requires NamesDistinct(es) && Progress(s, files, es, PackAll(Owners(es), budget), mem, tag, hash)
    ensures var n := Flushed(s, tag);
            Describes(Model(identity, n.total, n.shards, n.tensors), FilesFlushed(files, s, tag), es, mem, tag,
                      budget, hash)
  {
    var p := PackAll(Owners(es), budget);
    BufferNotEmpty(s, files, es, p, mem, tag, hash);
    if s.buf != map[] {
      FlushProgress(s, files, es, p, mem, tag, hash);
    }
  }
}
