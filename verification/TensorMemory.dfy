/** Tensors in device memory: which byte of memory holds each byte of a tensor's canonical form, reading
    that form out, and writing one back in place whatever the layout. */
module TensorMemory {
  import opened Options

  type byte = bv8

  datatype DType = DType(name: string, size: nat)

  /** A tensor object.  addrs gives, for each byte of the row-major form, where it lives; strides and
      storage offset are only another way to write it down. */
  datatype Tensor = Tensor(id: nat, shape: seq<nat>, dtype: DType, addrs: seq<nat>, onMeta: bool) {
    function Bytes(): nat { |addrs| }

    /** The address of the first element; empty tensors have none. */
    function DataPtr(): nat { if addrs == [] then 0 else addrs[0] }

    predicate Contiguous() { forall k :: 0 <= k < |addrs| ==> addrs[k] == DataPtr() + k }
  }

  function Count(shape: seq<nat>): nat {
    if shape == [] then 1 else shape[0] * Count(shape[1..])
  }

  /** One place per byte, all of them in a memory of the given size. */
  ghost predicate Laid(t: Tensor, size: nat) {
    && |t.addrs| == Count(t.shape) * t.dtype.size
    && (forall k :: 0 <= k < |t.addrs| ==> t.addrs[k] < size)
    && (forall j, k :: 0 <= j < k < |t.addrs| ==> t.addrs[j] != t.addrs[k])
  }

  lemma SameShapeSameBytes(t: Tensor, u: Tensor, size: nat, other: nat)
    requires Laid(t, size) && Laid(u, other) && t.shape == u.shape && t.dtype == u.dtype
    ensures t.Bytes() == u.Bytes()
  {
  }

  /** The canonical bytes of a tensor, row-major whatever its strides; a byte outside memory, which a
      laid-out tensor does not have, reads as zero. */
  function Canon(mem: seq<byte>, t: Tensor): (bytes: seq<byte>)
    ensures |bytes| == t.Bytes()
  {
    seq(|t.addrs|, k requires 0 <= k < |t.addrs| => if t.addrs[k] < |mem| then mem[t.addrs[k]] else 0)
  }

  ghost predicate Apart(t: Tensor, u: Tensor) {
    forall j, k :: 0 <= j < |t.addrs| && 0 <= k < |u.addrs| ==> t.addrs[j] != u.addrs[k]
  }

  /** Byte after byte from the first address on. */
  method CopyStraight(mem: array<byte>, t: Tensor, src: seq<byte>)
    requires Laid(t, mem.Length) && |src| == t.Bytes() > 0 && t.Contiguous()
    modifies mem
    ensures forall j :: 0 <= j < |src| ==> mem[t.addrs[j]] == src[j]
    ensures forall a :: 0 <= a < mem.Length && a !in t.addrs ==> mem[a] == old(mem[a])
  {
    var p := t.DataPtr();
    for k := 0 to |src|
      invariant forall j :: 0 <= j < k ==> mem[t.addrs[j]] == src[j]
      invariant forall a :: 0 <= a < mem.Length && a !in t.addrs ==> mem[a] == old(mem[a])
    {
      assert p + k == t.addrs[k];
      mem[p + k] := src[k];
    }
  }

  /** Each byte to where the layout puts it. */
  method CopyStrided(mem: array<byte>, t: Tensor, src: seq<byte>)
    requires Laid(t, mem.Length) && |src| == t.Bytes()
    modifies mem
    ensures forall j :: 0 <= j < |src| ==> mem[t.addrs[j]] == src[j]
    ensures forall a :: 0 <= a < mem.Length && a !in t.addrs ==> mem[a] == old(mem[a])
  {
    for k := 0 to |src|
      invariant forall j :: 0 <= j < k ==> mem[t.addrs[j]] == src[j]
      invariant forall a :: 0 <= a < mem.Length && a !in t.addrs ==> mem[a] == old(mem[a])
    {
      mem[t.addrs[k]] := src[k];
    }
  }

  /** Copies canonical bytes into a tensor, straight when it is contiguous. */
  method WriteBack(mem: array<byte>, t: Tensor, src: seq<byte>)
    requires Laid(t, mem.Length) && |src| == t.Bytes()
    modifies mem
    ensures Canon(mem[..], t) == src
    ensures forall a :: 0 <= a < mem.Length && a !in t.addrs ==> mem[a] == old(mem[a])
  {
    if t.Bytes() == 0 {
      return;
    }
    if t.Contiguous() {
      CopyStraight(mem, t, src);
    } else {
      CopyStrided(mem, t, src);
    }
  }

  /** Writing elsewhere leaves a tensor as it was; writing to the same places changes it alike. */
  lemma CanonAfter(before: seq<byte>, after: seq<byte>, t: Tensor, u: Tensor)
    requires |before| == |after| && Laid(t, |before|) && Laid(u, |before|)
    requires forall a :: 0 <= a < |before| && a !in t.addrs ==> after[a] == before[a]
    ensures Apart(t, u) ==> Canon(after, u) == Canon(before, u)
    ensures u.addrs == t.addrs ==> Canon(after, u) == Canon(after, t)
  {
    if Apart(t, u) {
      forall k | 0 <= k < |u.addrs|
        ensures after[u.addrs[k]] == before[u.addrs[k]]
      {
        assert u.addrs[k] !in t.addrs;
      }
    }
  }

  // ----- The tensors of a model

  datatype Named = Named(name: string, t: Tensor)

  ghost predicate NamesDistinct(entries: seq<Named>) {
    forall i, j :: 0 <= i < j < |entries| ==> entries[i].name != entries[j].name
  }

  /** The entries stand at these places of the list, in its order, each where its name is first met. */
  ghost predicate FirstMet(entries: seq<Named>, places: seq<nat>, listed: seq<Named>) {
    && |places| == |entries|
    && (forall k :: 0 <= k < |places| ==> places[k] < |listed| && entries[k] == listed[places[k]])
    && (forall j, k :: 0 <= j < k < |places| ==> places[j] < places[k])
    && (forall k, i :: 0 <= k < |places| && 0 <= i < places[k] ==> listed[i].name != entries[k].name)
  }

  lemma FirstMetMore(entries: seq<Named>, places: seq<nat>, listed: seq<Named>, i: nat)
    requires FirstMet(entries, places, listed) && i < |listed| && forall k :: 0 <= k < |places| ==> places[k] < i
    requires forall x :: x in listed[..i] ==> x.name != listed[i].name
    ensures FirstMet(entries + [listed[i]], places + [i], listed)
  {
    assert forall j :: 0 <= j < i ==> listed[j] in listed[..i];
  }

  lemma NoneMet(listed: seq<Named>)
    ensures FirstMet([], [], listed)
  {
  }

  /** Every parameter and buffer once per name, in order; refused when a name means two tensors. */
  method Entries(listed: seq<Named>) returns (out: Option<seq<Named>>)
    ensures out.None?
       <==> exists i, j :: 0 <= i < j < |listed| && listed[i].name == listed[j].name && listed[i].t.id != listed[j].t.id
    ensures out.Some? ==>
              && NamesDistinct(out.value)
              && (exists places :: FirstMet(out.value, places, listed))
              && (forall x :: x in out.value ==> x in listed)
              && (forall x :: x in listed ==> exists y :: y in out.value && y.name == x.name && y.t.id == x.t.id)
  {
    hide FirstMet;
    var entries: seq<Named> := [];
    var seen: map<string, Tensor> := map[];
    ghost var places: seq<nat> := [];
    NoneMet(listed);
    for i := 0 to |listed|
      invariant FirstMet(entries, places, listed) && forall k :: 0 <= k < |places| ==> places[k] < i
      invariant NamesDistinct(entries) && (forall x :: x in entries ==> x in listed[..i])
      invariant forall x :: x in entries ==> x.name in seen && seen[x.name] == x.t
      invariant forall n :: n in seen ==> Named(n, seen[n]) in entries
      invariant forall x :: x in listed[..i] ==> x.name in seen && seen[x.name].id == x.t.id
    {
      var x := listed[i];
      assert listed[..i + 1] == listed[..i] + [x];
      if x.name in seen {
        if seen[x.name].id != x.t.id {
          assert Named(x.name, seen[x.name]) in listed[..i];
          return None;
        }
        continue;
      }
      FirstMetMore(entries, places, listed, i);
      seen := seen[x.name := x.t];
      entries, places := entries + [x], places + [i];
    }
    assert listed[..|listed|] == listed;
    forall i, j | 0 <= i < j < |listed| && listed[i].name == listed[j].name
      ensures listed[i].t.id == listed[j].t.id
    {
      assert listed[i] in listed && listed[j] in listed;
    }
    forall x | x in listed
      ensures exists y :: y in entries && y.name == x.name && y.t.id == x.t.id
    {
      assert Named(x.name, seen[x.name]) in entries;
    }
    return Some(entries);
  }
}
