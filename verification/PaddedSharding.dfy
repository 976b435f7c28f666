/** Loading a checkpoint tensor that is too short for the padded tensor-parallel shape: each rank takes
    its shard of the tensor extended by zeros.

    A tensor is its shape and its value at each index; only indices within the shape matter. */
module PaddedSharding {
  import opened Options

  datatype Tensor = Tensor(shape: seq<nat>, at: seq<nat> -> real) {
    function Rank(): nat { |shape| }
  }

  ghost predicate InShape(index: seq<nat>, shape: seq<nat>) {
    |index| == |shape| && forall i :: 0 <= i < |shape| ==> index[i] < shape[i]
  }

  /** Same shape and same values. */
  ghost predicate Same(t: Tensor, u: Tensor) {
    t.shape == u.shape && forall index :: InShape(index, t.shape) ==> t.at(index) == u.at(index)
  }

  // ----- The two tensor operations the loader uses

  /** Zero padding: the amounts come in pairs, before and after, last dimension first. */
  function Before(pads: seq<nat>, rank: nat, i: nat): nat
    requires |pads| == 2 * rank && i < rank
  {
    pads[2 * (rank - 1 - i)]
  }

  function After(pads: seq<nat>, rank: nat, i: nat): nat
    requires |pads| == 2 * rank && i < rank
  {
    pads[2 * (rank - 1 - i) + 1]
  }

  predicate InsidePad(t: Tensor, pads: seq<nat>, index: seq<nat>)
    requires |pads| == 2 * t.Rank()
  {
    |index| == t.Rank() && forall i :: 0 <= i < t.Rank() ==>
      Before(pads, t.Rank(), i) <= index[i] < Before(pads, t.Rank(), i) + t.shape[i]
  }

  function Unpad(t: Tensor, pads: seq<nat>, index: seq<nat>): seq<nat>
    requires |pads| == 2 * t.Rank() && InsidePad(t, pads, index)
  {
    seq(|index|, i requires 0 <= i < |index| => index[i] - Before(pads, t.Rank(), i))
  }

  function Pad(t: Tensor, pads: seq<nat>): Tensor
    requires |pads| == 2 * t.Rank()
  {
    Tensor(
      seq(t.Rank(), i requires 0 <= i < t.Rank() => Before(pads, t.Rank(), i) + t.shape[i] + After(pads, t.Rank(), i)),
      index => if InsidePad(t, pads, index) then t.at(Unpad(t, pads, index)) else 0.0)
  }

  /** An element of the tensor stands in the padded one behind the padding in front. */
  lemma PadKeeps(t: Tensor, pads: seq<nat>, index: seq<nat>)
    requires |pads| == 2 * t.Rank() && |index| == t.Rank() && forall i :: 0 <= i < t.Rank() ==> index[i] < t.shape[i]
    ensures var moved := seq(t.Rank(), i requires 0 <= i < t.Rank() => index[i] + Before(pads, t.Rank(), i));
            Pad(t, pads).at(moved) == t.at(index)
  {
    var moved := seq(t.Rank(), i requires 0 <= i < t.Rank() => index[i] + Before(pads, t.Rank(), i));
    assert Unpad(t, pads, moved) == index;
  }

  function Shifted(index: seq<nat>, dim: nat, delta: nat): seq<nat> {
    if dim < |index| then index[dim := index[dim] + delta] else index
  }

  function Narrow(t: Tensor, dim: nat, start: nat, length: nat): Tensor
    requires dim < t.Rank() && start + length <= t.shape[dim]
  {
    Tensor(t.shape[dim := length], index => t.at(Shifted(index, dim, start)))
  }

  // ----- The loader's helper

  function PadsFor(rank: nat, dim: nat, extra: nat): (pads: seq<nat>)
    requires dim < rank
    ensures |pads| == 2 * rank
  {
    seq(2 * rank, _ => 0)[2 * (rank - 1 - dim) + 1 := extra]
  }

  /** Refused when the whole shard would be padding. */
  function PadThenNarrow(t: Tensor, dim: nat, start: nat, length: nat): Option<Tensor>
    requires t.Rank() > 0 ==> dim < t.Rank()
  {
    if t.Rank() == 0 then Some(t)
    else
      var need, cur := start + length, t.shape[dim];
      if cur < need then
        var extra := need - cur;
        if extra >= length then None
        else
          var padded := Pad(t, PadsFor(t.Rank(), dim, extra));
          PaddedShape(t, dim, extra);
          Some(Narrow(padded, dim, start, length))
      else
        Some(Narrow(t, dim, start, length))
  }

  lemma PaddedShape(t: Tensor, dim: nat, extra: nat)
    requires dim < t.Rank()
    ensures Pad(t, PadsFor(t.Rank(), dim, extra)).shape == t.shape[dim := t.shape[dim] + extra]
  {
    var pads, rank := PadsFor(t.Rank(), dim, extra), t.Rank();
    forall i | 0 <= i < rank
      ensures Before(pads, rank, i) == 0 && After(pads, rank, i) == if i == dim then extra else 0
    {
    }
  }

  /** The tensor followed by zeros along one dimension. */
  function Extended(t: Tensor, dim: nat, size: nat): Tensor
    requires dim < t.Rank()
  {
    Tensor(t.shape[dim := size], index => if dim < |index| && index[dim] < t.shape[dim] then t.at(index) else 0.0)
  }

  lemma PadIsExtension(t: Tensor, dim: nat, extra: nat)
    requires dim < t.Rank()
    ensures Same(Pad(t, PadsFor(t.Rank(), dim, extra)), Extended(t, dim, t.shape[dim] + extra))
  {
    var pads, rank := PadsFor(t.Rank(), dim, extra), t.Rank();
    PaddedShape(t, dim, extra);
    var p, e := Pad(t, pads), Extended(t, dim, t.shape[dim] + extra);
    forall index | InShape(index, p.shape)
      ensures p.at(index) == e.at(index)
    {
      assert forall i :: 0 <= i < rank ==> Before(pads, rank, i) == 0;
      assert forall i :: 0 <= i < rank && i != dim ==> p.shape[i] == t.shape[i];
      if InsidePad(t, pads, index) {
        assert Unpad(t, pads, index) == index;
      }
    }
  }

  /** When a shard is refused, and what an accepted one holds. */
  lemma ShardMeaning(t: Tensor, dim: nat, start: nat, length: nat)
    requires dim < t.Rank()
    ensures PadThenNarrow(t, dim, start, length).None? <==> t.shape[dim] <= start && t.shape[dim] < start + length
    ensures var r := PadThenNarrow(t, dim, start, length);
            r.Some? ==>
              && r.value.shape == t.shape[dim := length]
              && forall index :: InShape(index, r.value.shape) ==>
                   r.value.at(index)
                        == if start + index[dim] < t.shape[dim] then t.at(Shifted(index, dim, start)) else 0.0
  {
    var cur, need := t.shape[dim], start + length;
    var r := PadThenNarrow(t, dim, start, length);
    if cur < need && r.Some? {
      var extra := need - cur;
      var p := Pad(t, PadsFor(t.Rank(), dim, extra));
      PaddedShape(t, dim, extra);
      PadIsExtension(t, dim, extra);
      forall index | InShape(index, r.value.shape)
        ensures r.value.at(index) == if start + index[dim] < cur then t.at(Shifted(index, dim, start)) else 0.0
      {
        assert InShape(Shifted(index, dim, start), p.shape);
      }
    }
  }

  // ----- All ranks together

  ghost predicate AllAccepted(t: Tensor, dim: nat, tp: nat, length: nat)
    requires dim < t.Rank()
  {
    forall r :: 0 <= r < tp ==> PadThenNarrow(t, dim, r * length, length).Some?
  }

  function Shard(t: Tensor, dim: nat, r: nat, length: nat): Tensor
    requires dim < t.Rank() && PadThenNarrow(t, dim, r * length, length).Some?
  {
    PadThenNarrow(t, dim, r * length, length).value
  }

  /** If the top rank gets a shard, every rank does. */
  lemma TopRankDecides(t: Tensor, dim: nat, tp: nat, length: nat)
    requires dim < t.Rank() && tp > 0
    ensures AllAccepted(t, dim, tp, length) <==> PadThenNarrow(t, dim, (tp - 1) * length, length).Some?
  {
    hide PadThenNarrow;
    forall r | 0 <= r < tp && PadThenNarrow(t, dim, (tp - 1) * length, length).Some?
      ensures PadThenNarrow(t, dim, r * length, length).Some?
    {
      Accepted(t, dim, r * length, length);
      Accepted(t, dim, (tp - 1) * length, length);
      RankBelow(r, tp, length);
    }
  }

  lemma Accepted(t: Tensor, dim: nat, start: nat, length: nat)
    requires dim < t.Rank()
    ensures PadThenNarrow(t, dim, start, length).None? <==> t.shape[dim] <= start && t.shape[dim] < start + length
  {
    hide Pad, Narrow;
  }

  lemma RankBelow(r: nat, tp: nat, length: nat)
    requires r < tp
    ensures r * length <= (tp - 1) * length && r * length + length == (r + 1) * length <= tp * length
    ensures r < tp - 1 ==> r * length + length <= (tp - 1) * length
  {
    if r < tp - 1 {
      assert (r + 1) * length <= (tp - 1) * length;
    }
  }

  lemma PositiveLength(x: nat, tp: nat, length: nat)
    requires x < tp * length
    ensures length > 0
  {
  }

  lemma DivMod(x: nat, length: nat, tp: nat)
    requires length > 0 && x < tp * length
    ensures 0 <= x / length < tp && (x / length) * length + x % length == x && x % length < length
  {
  }

  /** Laid end to end, the shards are the checkpoint tensor followed by zeros: every element of the
      extension is in the shard of the rank that owns it, at its place there. */
  lemma ShardsConcatenate(t: Tensor, dim: nat, tp: nat, length: nat, index: seq<nat>)
    requires dim < t.Rank() && AllAccepted(t, dim, tp, length)
    requires InShape(index, t.shape[dim := tp * length])
    ensures length > 0 && index[dim] / length < tp
    ensures var s := Shard(t, dim, index[dim] / length, length);
            && InShape(index[dim := index[dim] % length], s.shape)
            && s.at(index[dim := index[dim] % length]) == Extended(t, dim, tp * length).at(index)
  {
    assert index[dim] < tp * length;
    PositiveLength(index[dim], tp, length);
    DivMod(index[dim], length, tp);
    var r := index[dim] / length;
    ShardMeaning(t, dim, r * length, length);
    var local := index[dim := index[dim] % length];
    var s := Shard(t, dim, r, length);
    assert InShape(local, s.shape) by {
      assert forall i :: 0 <= i < t.Rank() && i != dim ==> t.shape[dim := tp * length][i] == t.shape[i];
    }
    assert Shifted(local, dim, r * length) == index;
  }

  // ----- Row-parallel products

  /** One output of a row-parallel layer on the unsplit weight: the first n inputs. */
  function Product(w: Tensor, x: nat -> real, o: nat, n: nat): real {
    if n == 0 then 0.0 else Product(w, x, o, n - 1) + x(n - 1) * w.at([o, n - 1])
  }

  /** One rank's share: its own inputs start at base. */
  function Partial(shard: Tensor, x: nat -> real, o: nat, base: nat, n: nat): real {
    if n == 0 then 0.0 else Partial(shard, x, o, base, n - 1) + x(base + n - 1) * shard.at([o, n - 1])
  }

  /** The sum over the first r ranks. */
  function Summed(w: Tensor, x: nat -> real, o: nat, length: nat, tp: nat, r: nat): real
    requires w.Rank() == 2 && AllAccepted(w, 1, tp, length) && r <= tp
  {
    if r == 0 then 0.0
    else Summed(w, x, o, length, tp, r - 1) + Partial(Shard(w, 1, r - 1, length), x, o, (r - 1) * length, length)
  }

  lemma ShardElement(w: Tensor, length: nat, tp: nat, r: nat, o: nat, n: nat)
    requires w.Rank() == 2 && AllAccepted(w, 1, tp, length) && r < tp && n < length && o < w.shape[0]
    ensures Shard(w, 1, r, length).at([o, n]) == Extended(w, 1, tp * length).at([o, r * length + n])
  {
    ShardMeaning(w, 1, r * length, length);
    assert InShape([o, n], Shard(w, 1, r, length).shape);
    assert Shifted([o, n], 1, r * length) == [o, r * length + n];
  }

  lemma {:induction false} PartialIsProduct(w: Tensor, x: nat -> real, o: nat, length: nat, tp: nat, r: nat, base: nat,
                                            n: nat)
    requires w.Rank() == 2 && AllAccepted(w, 1, tp, length) && r < tp && n <= length && o < w.shape[0]
    requires base == r * length
    ensures Product(Extended(w, 1, tp * length), x, o, base) + Partial(Shard(w, 1, r, length), x, o, base, n)
         == Product(Extended(w, 1, tp * length), x, o, base + n)
  {
    if n > 0 {
      PartialIsProduct(w, x, o, length, tp, r, base, n - 1);
      ShardElement(w, length, tp, r, o, n - 1);
    }
  }

  lemma {:induction false} SummedIsProduct(w: Tensor, x: nat -> real, o: nat, length: nat, tp: nat, r: nat)
    requires w.Rank() == 2 && AllAccepted(w, 1, tp, length) && r <= tp && o < w.shape[0]
    ensures Summed(w, x, o, length, tp, r) == Product(Extended(w, 1, tp * length), x, o, r * length)
  {
    if r > 0 {
      SummedIsProduct(w, x, o, length, tp, r - 1);
      PartialIsProduct(w, x, o, length, tp, r - 1, (r - 1) * length, length);
      assert (r - 1) * length + length == r * length;
    }
  }

  lemma {:induction false} ZerosAddNothing(w: Tensor, x: nat -> real, o: nat, size: nat, n: nat)
    requires w.Rank() == 2
    ensures Product(Extended(w, 1, size), x, o, n) == Product(w, x, o, if n <= w.shape[1] then n else w.shape[1])
  {
    if n > 0 {
      ZerosAddNothing(w, x, o, size, n - 1);
    }
  }

  /** Padding preserves meaning: summed over the ranks, the row-parallel product of the padded shards
      is the unpadded product, whatever the padded inputs hold. */
  lemma RowParallelPreserved(w: Tensor, x: nat -> real, o: nat, length: nat, tp: nat)
    requires w.Rank() == 2 && o < w.shape[0] && w.shape[1] <= tp * length && AllAccepted(w, 1, tp, length)
    ensures Summed(w, x, o, length, tp, tp) == Product(w, x, o, w.shape[1])
  {
    SummedIsProduct(w, x, o, length, tp, tp);
    ZerosAddNothing(w, x, o, tp * length, tp * length);
  }
}
