/** The cheap check before the engine starts.  It refuses early what a restore would refuse for its files; it can also
    refuse what a restore would accept, when a shard of another model is missing or the rank is spelled otherwise. */
module Preflight {
  import opened Options
  import opened Identity
  import opened TensorMemory
  import opened ShardNames
  import opened Sidecar
  import opened Intactness
  import opened Restoring
  import opened RoundTrip

  datatype Verdict = Fine | Lacking | OutOfDate

  /** A number as it is written out. */
  function Decimal(n: int): string {
    if n < 0 then "-" + Padded(-n, 1) else Padded(n, 1)
  }

  /** A number is read off its spelling. */
  lemma DecimalInjective(m: int, n: int)
    requires Decimal(m) == Decimal(n)
    ensures m == n
  {
    NumberOfPadded(if m < 0 then -m else m, 1);
    NumberOfPadded(if n < 0 then -n else n, 1);
    SignShows(m);
    SignShows(n);
    assert m < 0 && n < 0 ==> Decimal(m)[1..] == Padded(-m, 1) && Decimal(n)[1..] == Padded(-n, 1);
  }

  lemma SignShows(n: int)
    ensures n < 0 <==> Decimal(n)[0] == '-'
  {
  }

  /** The directory of a rank; the check takes the rank as it is spelled in the environment, the engine as a number. */
  function DirOf(base: string, rank: string): string { base + "-r" + rank }

  ghost predicate Present(d: Disk, size: string -> nat, s: string) {
    s in d.files && size(s) > 0
  }

  ghost predicate AllPresent(d: Disk, size: string -> nat) {
    d.manifest.Some? &&
    forall t, s :: t in d.manifest.value.models && s in d.manifest.value.models[t].shards ==> Present(d, size, s)
  }

  ghost predicate Current(d: Disk, rank: string, files: Entries) {
    && d.manifest.Some? && Decimal(d.manifest.value.rank) == rank
    && Agree(Dict(d.manifest.value.identity - {"engine"}), Dict(files))
  }

  function DiskAt(disks: map<string, Disk>, dir: string): Disk {
    if dir in disks then disks[dir] else Disk(map[], None)
  }

  /** Without a request to load, nothing is checked; without a base or a rank, nothing passes. */
  method Check(load: bool, base: string, rank: string, disks: map<string, Disk>, files: Entries, size: string -> nat)
    returns (v: Verdict)
    ensures var d := DiskAt(disks, DirOf(base, rank));
            && (v == OutOfDate <==>
                  load && (base == "" || rank == "" || (d.manifest.Some? && !Current(d, rank, files))))
            && (v == Lacking <==>
                  load && base != "" && rank != ""
                  && (d.manifest.None? || (Current(d, rank, files) && !AllPresent(d, size))))
  {
    if !load {
      return Fine;
    }
    if base == "" || rank == "" {
      return OutOfDate;
    }
    var d := DiskAt(disks, DirOf(base, rank));
    if d.manifest.None? {
      return Lacking;
    }
    var man := d.manifest.value;
    if Decimal(man.rank) != rank {
      return OutOfDate;
    }
    var problems := Diff(Dict(man.identity - {"engine"}), Dict(files), []);
    if problems != [] {
      return OutOfDate;
    }
    v := CheckShards(d, man, size);
  }

  /** Every shard of every model: there, and not empty. */
  method CheckShards(d: Disk, man: Manifest, size: string -> nat) returns (v: Verdict)
    requires d.manifest == Some(man)
    ensures v == if AllPresent(d, size) then Fine else Lacking
  {
    var tags := man.models.Keys;
    while tags != {}
      invariant tags <= man.models.Keys
      invariant forall t, s :: t in man.models && t !in tags && s in man.models[t].shards ==> Present(d, size, s)
      decreases tags
    {
      var t :| t in tags;
      var shards := man.models[t].shards;
      for i := 0 to |shards|
        invariant forall j :: 0 <= j < i ==> Present(d, size, shards[j])
      {
        if shards[i] !in d.files || size(shards[i]) == 0 {
          assert t in man.models && shards[i] in man.models[t].shards && !Present(d, size, shards[i]);
          return Lacking;
        }
      }
      tags := tags - {t};
    }
    return Fine;
  }

  /** With the rank spelled as its number, both look into one directory; a restore under the same files gets past rank
      and identity there exactly when the check does not call the sidecar out of date and the engine part agrees. */
  lemma GatesInOrder(d: Disk, rank: int, files: Entries, engine: Entries, tag: string, mine: map<string, string>,
                     scrub: string -> string, names: set<string>)
    requires d.manifest.Some? && "engine" !in files
    ensures var refusal := Refusal(d, rank, EngineIdentity(files, engine).entries, tag, mine, scrub, names);
            (refusal.None? || refusal.value !in {NoManifest, WrongRank, Stale})
            <==> && Current(d, Decimal(rank), files) && "engine" in d.manifest.value.identity
                 && Agree(d.manifest.value.identity["engine"], Dict(engine))
  {
    GatesAgree(d.manifest.value.identity, files, engine);
    if Decimal(d.manifest.value.rank) == Decimal(rank) {
      DecimalInjective(d.manifest.value.rank, rank);
    }
  }

  /** A rank that is not spelled as a number is written out passes in no directory. */
  lemma OtherSpellingNeverPasses(d: Disk, rank: string, files: Entries)
    requires forall n: int :: rank != Decimal(n)
    ensures !Current(d, rank, files)
  {
  }

  /** A leading zero is such a spelling. */
  lemma LeadingZeroIsNoDecimal(rest: string, n: int)
    requires rest != "" && n >= 0
    ensures Decimal(n) != "0" + rest
  {
    NoLeadingZero(n);
  }

  lemma {:induction false} NoLeadingZero(n: nat)
    ensures |Padded(n, 1)| > 1 ==> Padded(n, 1)[0] != '0'
  {
    if n >= 10 {
      assert Padded(n, 1) == Padded(n / 10, 0) + [Digit(n % 10)];
      NoZeroInFront(n / 10);
    } else {
      assert Padded(n, 1) == Padded(0, 0) + [Digit(n)];
    }
  }

  lemma {:induction false} NoZeroInFront(n: nat)
    requires n > 0
    ensures Padded(n, 0) != "" && Padded(n, 0)[0] != '0'
  {
    if n >= 10 {
      NoZeroInFront(n / 10);
    } else {
      assert Padded(n, 0) == Padded(0, 0) + [Digit(n)];
    }
  }

  /** In a directory whose models are intact every shard is there. */
  lemma IntactIsPresent(d: Disk, size: string -> nat, hash: Hash)
    requires d.manifest.Some? && Intact(d, hash) && forall s :: s in d.files && d.files[s].Whole? ==> size(s) > 0
    ensures AllPresent(d, size)
  {
    var models := d.manifest.value.models;
    forall t, s | t in models && s in models[t].shards
      ensures Present(d, size, s)
    {
      assert ModelIntact(models[t], d.files, t, hash);
      assert Listed(d.files, t, s);
    }
  }

  /** Whatever becomes of the shards of one model, the other is on disk as before and can be restored; the check
      refuses both as soon as one listed shard is gone. */
  lemma OneModelIsEnough(d: Disk, e: Disk, p: Part, was: seq<byte>, budget: int, hash: Hash, rank: int,
                         identity: Entries, tag: string, size: string -> nat)
    requires OnDisk(d, p, was, budget, hash, rank, identity) && tag != p.tag && Touched(d, e, tag)
    ensures OnDisk(e, p, was, budget, hash, rank, identity)
    ensures tag in d.manifest.value.models
            && (exists s :: s in d.manifest.value.models[tag].shards && s !in e.files) ==>
              !AllPresent(e, size)
  {
    DescribedStill(d.manifest.value.models[p.tag], d, e, p.es, was, p.tag, tag, budget, hash);
    if tag in d.manifest.value.models && exists s :: s in d.manifest.value.models[tag].shards && s !in e.files {
      var s :| s in d.manifest.value.models[tag].shards && s !in e.files;
      assert !Present(e, size, s);
    }
  }
}
