/** Padding head counts to the tensor-parallel size, and the three places that refuse a bad pad: the
    configuration tool, the drafter gate inside the engine, and the weight loader.

    Counts are any integers, as the JSON may hold; division rounds towards minus infinity. */
module HeadPadding {
  import opened Options
  import opened PaddedSharding

  /** Division that rounds towards minus infinity. */
  function FloorDiv(a: int, b: int): (d: int)
    requires b != 0
    ensures b > 0 ==> b * d <= a < b * d + b
    ensures b < 0 ==> b * d >= a > b * d + b
  {
    if b > 0 then a / b else (-a) / (-b)
  }

  function FloorMod(a: int, b: int): int
    requires b != 0
  {
    a - b * FloorDiv(a, b)
  }

  function CeilTo(n: int, m: int): int
    requires m > 0
  {
    ((n + m - 1) / m) * m
  }

  /** The least multiple of m at or above n. */
  lemma CeilToLeast(n: int, m: int, k: int)
    requires m > 0
    ensures CeilTo(n, m) % m == 0 && n <= CeilTo(n, m) < n + m
    ensures k % m == 0 && n <= k ==> CeilTo(n, m) <= k
  {
    var q := (n + m - 1) / m;
    assert q * m <= n + m - 1 < q * m + m;
    MultipleMod(q, m);
    if k % m == 0 && n <= k {
      var j := k / m;
      assert j * m == k;
      MulStep(j, q, m);
      if q <= j {
        MulMono(q, j, m);
      }
    }
  }

  lemma DivUnique(m: int, q: int, r: int)
    requires m > 0 && 0 <= r < m
    ensures (m * q + r) / m == q
  {
    var d := (m * q + r) / m;
    var e := (m * q + r) % m;
    assert m * d + e == m * q + r;
    MulStep(d, q, m);
    MulStep(q, d, m);
  }

  lemma MultipleMod(q: int, m: int)
    requires m > 0
    ensures (q * m) % m == 0 && (q * m) / m == q
  {
    DivUnique(m, q, 0);
    assert m * q + 0 == q * m;
  }

  lemma PositiveFactor(a: int, b: int)
    requires a > 0 && a * b > 0
    ensures b > 0
  {
  }

  lemma MulStep(a: int, b: int, m: int)
    requires m >= 0
    ensures a < b ==> a * m + m <= b * m
  {
    if a < b {
      MulMono(a + 1, b, m);
    }
  }

  lemma MulMono(a: int, b: int, m: int)
    requires a <= b && m >= 0
    ensures a * m <= b * m
  {
  }

  // ----- The three refusals

  /** The configuration tool: the last rank must own a real head. */
  predicate ToolRefuses(stock: int, padded: int, tp: int)
    requires tp > 0
  {
    stock - (tp - 1) * (padded / tp) <= 0
  }

  /** The drafter gate, for one kind of head. */
  predicate GateRefuses(stock: int, configured: int, tp: int)
    requires tp > 0
  {
    stock - (tp - 1) * (configured / tp) <= 0
  }

  /** The rows that a number of heads takes, and where a rank's shard of them starts. */
  function RowsOf(heads: nat, headDim: nat): nat { heads * headDim }

  function StartOf(rank: nat, rows: nat): nat { rank * rows }

  /** The loader's helper refuses a rank's shard of the stored heads exactly when it begins past the last of them. */
  lemma LoaderRefusesExactly(w: Tensor, dim: nat, stock: nat, per: nat, rank: nat, headDim: nat)
    requires headDim > 0 && per > 0 && dim < w.Rank() && w.shape[dim] == RowsOf(stock, headDim)
    ensures PadThenNarrow(w, dim, StartOf(rank, RowsOf(per, headDim)), RowsOf(per, headDim)).None?
       <==> stock <= rank * per
  {
    hide Pad, Narrow, PadsFor;
    StartIsRows(rank, per, headDim);
    MulMono(1, per, headDim);
    if stock <= rank * per {
      MulMono(stock, rank * per, headDim);
    } else {
      MulMono(rank * per + 1, stock, headDim);
    }
  }

  lemma StartIsRows(rank: nat, per: nat, headDim: nat)
    ensures StartOf(rank, RowsOf(per, headDim)) == (rank * per) * headDim
  {
  }

  /** Padding to the next multiple is accepted exactly when quotient and remainder reach tp - 1. */
  lemma CeilToAcceptedExactly(stock: int, tp: int)
    requires tp > 0
    ensures ToolRefuses(stock, CeilTo(stock, tp), tp) <==> (stock - 1) / tp + (stock - 1) % tp < tp - 1
  {
    var a, b := (stock - 1) / tp, (stock - 1) % tp;
    assert stock - 1 == tp * a + b;
    assert stock + tp - 1 == tp * (a + 1) + b;
    DivUnique(tp, a + 1, b);
    MultipleMod(a + 1, tp);
    assert (tp - 1) * (a + 1) == tp * a + tp - a - 1;
  }

  /** It is never refused above (tp - 1)^2, and that bound is tight. */
  lemma CeilToBound(stock: int, tp: int)
    requires tp > 0 && stock > (tp - 1) * (tp - 1)
    ensures !ToolRefuses(stock, CeilTo(stock, tp), tp)
  {
    CeilToAcceptedExactly(stock, tp);
    var a, b := (stock - 1) / tp, (stock - 1) % tp;
    assert stock - 1 == tp * a + b;
    if a + b <= tp - 2 {
      SmallQuotient(tp, a, b);
    }
  }

  lemma SmallQuotient(tp: int, a: int, b: int)
    requires tp > 0 && 0 <= b && a + b <= tp - 2
    ensures tp * a + b + 1 <= (tp - 1) * (tp - 1)
  {
    MulMono(a, tp - 2, tp - 1);
    assert tp * a + b + 1 <= a * (tp - 1) + tp - 1;
    assert (tp - 2) * (tp - 1) + (tp - 1) == (tp - 1) * (tp - 1);
  }

  lemma CeilToBoundTight(tp: int)
    requires tp >= 2
    ensures ToolRefuses((tp - 1) * (tp - 1), CeilTo((tp - 1) * (tp - 1), tp), tp)
  {
    var stock := (tp - 1) * (tp - 1);
    assert stock - 1 == tp * (tp - 2) + 0;
    DivUnique(tp, tp - 2, 0);
    CeilToAcceptedExactly(stock, tp);
    MultipleMod(tp - 2, tp);
  }

  // ----- The target's configuration

  /** Padded to the next multiple, with a real head on the last rank. */
  predicate Fits(n: int, tp: int)
    requires tp >= 2
  {
    !ToolRefuses(n, CeilTo(n, tp), tp)
  }

  /** What the linear-attention heads are read from: the nested entry unless it is missing or zero, else
      the flat one. */
  function LinearHeads(nested: Option<int>, flat: Option<int>): Option<int> {
    if nested.Some? && nested.value != 0 then nested else flat
  }

  /** The text part of the target's configuration; a missing number of experts reads as zero. */
  class TargetConfig {
    var heads: int
    var kvHeads: Option<int>
    var nested: Option<int>
    var flat: Option<int>
    const experts: int

    constructor (heads: int, kvHeads: Option<int>, nested: Option<int>, flat: Option<int>, experts: int)
      ensures this.heads == heads && this.kvHeads == kvHeads && this.nested == nested && this.flat == flat
      ensures this.experts == experts
    {
      this.heads, this.kvHeads, this.nested, this.flat, this.experts := heads, kvHeads, nested, flat, experts;
    }

    /** Pads every head count.  A refusal may leave the counts before it padded in memory; the caller exits
        without writing them. */
    method PadTarget(tp: int) returns (refused: Option<Refusal>)
      requires tp >= 2
      modifies this
      ensures refused.None? <==>
                && Fits(old(heads), tp)
                && (old(kvHeads).Some? ==> Fits(old(kvHeads).value, tp))
                && (LinearHeads(old(nested), old(flat)).Some? ==> Fits(LinearHeads(old(nested), old(flat)).value, tp))
                && (experts == 0 || FloorMod(experts, tp) == 0)
      ensures refused == Some(LastKvRankEmpty) <==>
                Fits(old(heads), tp) && old(kvHeads).Some? && !Fits(old(kvHeads).value, tp)
      ensures refused == Some(ExpertsDoNotDivide) <==>
                && Fits(old(heads), tp) && (old(kvHeads).Some? ==> Fits(old(kvHeads).value, tp))
                && (LinearHeads(old(nested), old(flat)).Some? ==> Fits(LinearHeads(old(nested), old(flat)).value, tp))
                && experts != 0 && FloorMod(experts, tp) != 0
      ensures refused.Some? ==> refused.value in {LastRankEmpty, LastKvRankEmpty, ExpertsDoNotDivide}
      ensures refused.None? ==>
                && heads == CeilTo(old(heads), tp)
                && kvHeads == Some(if old(kvHeads).Some? then CeilTo(old(kvHeads).value, tp) else heads)
                && nested == (if old(nested).Some? && old(nested).value != 0 then Some(CeilTo(old(nested).value, tp))
                              else old(nested))
                && (LinearHeads(old(nested), old(flat)).Some? ==>
                      flat == Some(CeilTo(LinearHeads(old(nested), old(flat)).value, tp)))
    {
      var h := heads;
      var want := CeilTo(h, tp);
      if ToolRefuses(h, want, tp) {
        return Some(LastRankEmpty);
      }
      heads := want;
      if kvHeads.None? || kvHeads.value == h {
        kvHeads := Some(want);
      } else {
        var kvWant := CeilTo(kvHeads.value, tp);
        if ToolRefuses(kvHeads.value, kvWant, tp) {
          return Some(LastKvRankEmpty);
        }
        kvHeads := Some(kvWant);
      }
      if nested.Some? && nested.value != 0 {
        var linear := CeilTo(nested.value, tp);
        if ToolRefuses(nested.value, linear, tp) {
          return Some(LastRankEmpty);
        }
        nested := Some(linear);
        flat := Some(linear);
      } else if flat.Some? {
        var linear := CeilTo(flat.value, tp);
        if ToolRefuses(flat.value, linear, tp) {
          return Some(LastRankEmpty);
        }
        flat := Some(linear);
      }
      if experts != 0 && FloorMod(experts, tp) != 0 {
        return Some(ExpertsDoNotDivide);
      }
      return None;
    }
  }

  /** Padding what is padded changes nothing and is not refused. */
  lemma PaddedAgain(n: int, tp: int)
    requires tp >= 2 && Fits(n, tp)
    ensures CeilTo(CeilTo(n, tp), tp) == CeilTo(n, tp) && Fits(CeilTo(n, tp), tp)
  {
    var c := CeilTo(n, tp);
    PaddedKvPositive(n, tp);
    CeilToLeast(n, tp, c);
    CeilToLeast(c, tp, c);
    var per := c / tp;
    assert per * tp == c;
    assert (tp - 1) * per == c - per;
    PositiveFactor(tp, per);
  }

  // ----- The drafter's configuration

  datatype Refusal = NoKvHeads | NotAMultiple | LastKvRankEmpty | LastQueryRankEmpty | RatioBroken | LastRankEmpty
    | ExpertsDoNotDivide

  class DraftConfig {
    var heads: int
    var kvHeads: Option<int>

    constructor (heads: int, kvHeads: Option<int>)
      ensures this.heads == heads && this.kvHeads == kvHeads
    {
      this.heads, this.kvHeads := heads, kvHeads;
    }

    /** Pads key-value heads first and query heads by the same ratio; refusals leave the counts alone. */
    method PadDraft(tp: int) returns (refused: Option<Refusal>)
      requires tp >= 2
      modifies this
      ensures var q := old(heads);
              var kv := if old(kvHeads).Some? then old(kvHeads).value else q;
              && refused == DraftRefusal(q, kv, tp)
              && if refused.Some? then heads == old(heads) && kvHeads == old(kvHeads)
                 else heads == CeilTo(kv, tp) * FloorDiv(q, kv) && kvHeads == Some(CeilTo(kv, tp))
    {
      var q := heads;
      var kv := if kvHeads.Some? then kvHeads.value else q;
      if kv == 0 {
        return Some(NoKvHeads);
      }
      var ratio, rem := FloorDiv(q, kv), FloorMod(q, kv);
      if rem != 0 {
        return Some(NotAMultiple);
      }
      var wantKv := CeilTo(kv, tp);
      var wantQ := wantKv * ratio;
      if FloorMod(wantQ, tp) != 0 {
        wantKv := CeilTo(wantKv + 1, tp);
        wantQ := wantKv * ratio;
      }
      FallbackUnreachable(kv, tp, ratio);
      if ToolRefuses(kv, wantKv, tp) {
        return Some(LastKvRankEmpty);
      }
      if ToolRefuses(q, wantQ, tp) {
        return Some(LastQueryRankEmpty);
      }
      PaddedKvPositive(kv, tp);
      RatioKept(wantKv, ratio);
      if FloorMod(wantQ, wantKv) != 0 {
        return Some(RatioBroken);
      }
      heads, kvHeads := wantQ, Some(wantKv);
      return None;
    }
  }

  /** When the drafter's pad is refused. */
  function DraftRefusal(q: int, kv: int, tp: int): Option<Refusal>
    requires tp >= 2
  {
    if kv == 0 then Some(NoKvHeads)
    else if FloorMod(q, kv) != 0 then Some(NotAMultiple)
    else if ToolRefuses(kv, CeilTo(kv, tp), tp) then Some(LastKvRankEmpty)
    else if ToolRefuses(q, CeilTo(kv, tp) * FloorDiv(q, kv), tp) then Some(LastQueryRankEmpty)
    else None
  }

  /** The second try at a larger multiple is dead code. */
  lemma FallbackUnreachable(kv: int, tp: int, ratio: int)
    requires tp >= 2
    ensures FloorMod(CeilTo(kv, tp) * ratio, tp) == 0
  {
    var c := (kv + tp - 1) / tp;
    assert CeilTo(kv, tp) * ratio == (c * ratio) * tp;
    MultipleMod(c * ratio, tp);
  }

  /** A pad that passes the last-rank check has real heads to pad. */
  lemma PaddedKvPositive(kv: int, tp: int)
    requires tp >= 2 && !ToolRefuses(kv, CeilTo(kv, tp), tp)
    ensures kv > 0 && CeilTo(kv, tp) > 0
  {
    if kv <= 0 {
      NonPositiveRefused(kv, tp);
    } else {
      CeilToLeast(kv, tp, 0);
    }
  }

  lemma NonPositiveRefused(stock: int, tp: int)
    requires tp >= 2 && stock <= 0
    ensures ToolRefuses(stock, CeilTo(stock, tp), tp)
  {
    var c := (stock + tp - 1) / tp;
    CeilToLeast(stock, tp, 0);
    MultipleMod(c, tp);
    if c >= 1 {
      MulMono(1, c, tp);
    }
    assert (tp - 1) * c == c * tp - c;
  }

  lemma RatioKept(kv: int, ratio: int)
    requires kv > 0
    ensures FloorMod(kv * ratio, kv) == 0
  {
    MultipleMod(ratio, kv);
  }

  // ----- The gate inside the engine

  datatype Verdict = Matches | Padded | Indivisible | Malformed | Truncated | RatioChanged | TopRankEmpty

  function Gate(heads: int, kvHeads: int, tp: int, stockQ: int, stockKv: int): Verdict
    requires tp > 0
  {
    if heads % tp != 0 || kvHeads % tp != 0 then Indivisible
    else if kvHeads <= 0 || heads % kvHeads != 0 then Malformed
    else if heads == stockQ && kvHeads == stockKv then Matches
    else if heads < stockQ || kvHeads < stockKv then Truncated
    else if heads * stockKv != kvHeads * stockQ then RatioChanged
    else if GateRefuses(stockQ, heads, tp) || GateRefuses(stockKv, kvHeads, tp) then TopRankEmpty
    else Padded
  }

  predicate GateAccepts(heads: int, kvHeads: int, tp: int, stockQ: int, stockKv: int)
    requires tp > 0
  {
    Gate(heads, kvHeads, tp, stockQ, stockKv).Matches? || Gate(heads, kvHeads, tp, stockQ, stockKv).Padded?
  }

  /** Whole shares for every rank: no rank holds part of a head, and query heads come in groups. */
  ghost predicate WholeShares(heads: int, kvHeads: int, tp: int)
    requires tp > 0
  {
    heads % tp == 0 && kvHeads % tp == 0 && kvHeads > 0 && heads % kvHeads == 0
  }

  /** Larger counts of the same ratio as the checkpoint's. */
  ghost predicate Enlarged(heads: int, kvHeads: int, stockQ: int, stockKv: int) {
    && heads >= stockQ && kvHeads >= stockKv && heads * stockKv == kvHeads * stockQ
    && !(heads == stockQ && kvHeads == stockKv)
  }

  /** With "per" heads on a rank, the first head of every rank is one that the checkpoint has. */
  ghost predicate EveryRankReal(stock: int, per: int, tp: int) {
    forall rank: nat :: rank < tp ==> stock > rank * per
  }

  lemma TopRankIsWorst(stock: int, per: int, tp: int)
    requires tp > 0 && per >= 0
    ensures EveryRankReal(stock, per, tp) <==> stock > (tp - 1) * per
  {
    if stock > (tp - 1) * per {
      forall rank: nat | rank < tp
        ensures stock > rank * per
      {
        MulMono(rank, tp - 1, per);
      }
    }
  }

  /** The gate accepts the checkpoint's own counts, and enlarged ones that leave every rank a real head of each
      kind; in both cases the shares must be whole.  It accepts nothing else. */
  lemma GateAcceptsExactly(heads: int, kvHeads: int, tp: int, q: int, kv: int)
    requires tp > 0 && q > 0 && kv > 0
    ensures GateAccepts(heads, kvHeads, tp, q, kv)
       <==> && WholeShares(heads, kvHeads, tp)
            && ((heads == q && kvHeads == kv)
                || (&& Enlarged(heads, kvHeads, q, kv)
                    && EveryRankReal(q, heads / tp, tp) && EveryRankReal(kv, kvHeads / tp, tp)))
  {
    hide EveryRankReal, GateRefuses;
    if heads >= q && kvHeads >= kv {
      GateRefusesExactly(q, heads, tp);
      GateRefusesExactly(kv, kvHeads, tp);
    }
  }

  lemma GateRefusesExactly(stock: int, configured: int, tp: int)
    requires tp > 0 && 0 < stock <= configured
    ensures GateRefuses(stock, configured, tp) <==> !EveryRankReal(stock, configured / tp, tp)
  {
    hide EveryRankReal;
    TopRankIsWorst(stock, configured / tp, tp);
  }

  /** What each verdict says of the counts is so: the first of the checks in this order that fails. */
  lemma VerdictMeans(heads: int, kvHeads: int, tp: int, q: int, kv: int)
    requires tp >= 2
    ensures var verdict := Gate(heads, kvHeads, tp, q, kv);
            && (verdict.Indivisible? <==> heads % tp != 0 || kvHeads % tp != 0)
            && (verdict.Malformed? <==>
                  heads % tp == 0 && kvHeads % tp == 0 && (kvHeads > 0 ==> heads % kvHeads != 0))
            && (verdict.Matches? <==> WholeShares(heads, kvHeads, tp) && heads == q && kvHeads == kv)
            && (verdict.Truncated? <==> WholeShares(heads, kvHeads, tp) && (heads < q || kvHeads < kv))
            && (verdict.RatioChanged? <==>
                  && WholeShares(heads, kvHeads, tp) && heads >= q && kvHeads >= kv
                  && heads * kv != kvHeads * q)
  {
  }

  /** All three refuse the same pads.  For enlarged counts in whole shares the gate finds the top rank empty exactly
      when the configuration tool refuses either kind of head, and when the loader's helper, asked for the last
      rank's shard of a tensor with all the stored heads of a kind, refuses that. */
  lemma RefusalsAgree(wq: Tensor, wk: Tensor, dim: nat, headDim: nat, heads: nat, kvHeads: nat, tp: nat, q: nat,
                      kv: nat)
    requires tp >= 2 && q > 0 && kv > 0 && headDim > 0
    requires WholeShares(heads, kvHeads, tp) && Enlarged(heads, kvHeads, q, kv)
    requires dim < wq.Rank() && wq.shape[dim] == RowsOf(q, headDim)
    requires dim < wk.Rank() && wk.shape[dim] == RowsOf(kv, headDim)
    ensures var rows, kvRows := RowsOf(heads / tp, headDim), RowsOf(kvHeads / tp, headDim);
            var refused := Gate(heads, kvHeads, tp, q, kv).TopRankEmpty?;
            && (refused <==> ToolRefuses(q, heads, tp))
            && (refused <==> ToolRefuses(kv, kvHeads, tp))
            && (refused <==> PadThenNarrow(wq, dim, StartOf(tp - 1, rows), rows).None?)
            && (refused <==> PadThenNarrow(wk, dim, StartOf(tp - 1, kvRows), kvRows).None?)
  {
    hide *;
    WholeIsPositive(heads, kvHeads, tp, q, kv);
    LoaderRefusesLast(wq, dim, q, heads, tp, headDim);
    LoaderRefusesLast(wk, dim, kv, kvHeads, tp, headDim);
    EmptyTogether(heads, kvHeads, tp, q, kv);
    GateFindsEmpty(heads, kvHeads, tp, q, kv);
  }

  lemma WholeIsPositive(heads: nat, kvHeads: nat, tp: nat, q: nat, kv: nat)
    requires tp >= 2 && q > 0 && kv > 0 && WholeShares(heads, kvHeads, tp) && Enlarged(heads, kvHeads, q, kv)
    ensures heads > 0 && kvHeads > 0 && heads % tp == 0 && kvHeads % tp == 0
  {
  }

  lemma GateFindsEmpty(heads: int, kvHeads: int, tp: int, q: int, kv: int)
    requires tp >= 2 && WholeShares(heads, kvHeads, tp) && Enlarged(heads, kvHeads, q, kv)
    ensures Gate(heads, kvHeads, tp, q, kv).TopRankEmpty?
       <==> ToolRefuses(q, heads, tp) || ToolRefuses(kv, kvHeads, tp)
  {
  }

  /** The loader's helper refuses the last rank's shard when the tool refuses the pad. */
  lemma LoaderRefusesLast(w: Tensor, dim: nat, stock: nat, padded: nat, tp: nat, headDim: nat)
    requires tp > 0 && headDim > 0 && padded > 0 && padded % tp == 0
    requires dim < w.Rank() && w.shape[dim] == RowsOf(stock, headDim)
    ensures var rows := RowsOf(padded / tp, headDim);
            ToolRefuses(stock, padded, tp) <==> PadThenNarrow(w, dim, StartOf(tp - 1, rows), rows).None?
  {
    hide PadThenNarrow, RowsOf, StartOf;
    assert tp * (padded / tp) == padded;
    PositiveFactor(tp, padded / tp);
    LoaderRefusesExactly(w, dim, stock, padded / tp, tp - 1, headDim);
  }

  /** With the ratio kept, the last rank lacks query heads exactly when it lacks key-value heads. */
  lemma EmptyTogether(heads: int, kvHeads: int, tp: int, q: int, kv: int)
    requires tp >= 2 && q > 0 && kv > 0 && WholeShares(heads, kvHeads, tp) && Enlarged(heads, kvHeads, q, kv)
    ensures ToolRefuses(q, heads, tp) <==> ToolRefuses(kv, kvHeads, tp)
  {
    var ratio, per := heads / kvHeads, kvHeads / tp;
    assert heads == kvHeads * ratio && kvHeads == per * tp;
    assert kvHeads * (kv * ratio) == heads * kv;
    CancelFactor(kvHeads, kv * ratio, q);
    PositiveFactor(kv, ratio);
    assert heads == (ratio * per) * tp;
    MultipleMod(ratio * per, tp);
    var share := kv - (tp - 1) * per;
    assert q - (tp - 1) * (heads / tp) == share * ratio;
    if share > 0 {
      MulMono(1, share, ratio);
    } else {
      MulMono(share, 0, ratio);
    }
  }

  /** Every pad the tool makes is accepted by the gate, and its key-value count is the least any
      accepted configuration of that checkpoint can have. */
  lemma PaddedDraftAccepted(q: int, kv: int, tp: int)
    requires tp >= 2 && DraftRefusal(q, kv, tp).None?
    ensures GateAccepts(CeilTo(kv, tp) * FloorDiv(q, kv), CeilTo(kv, tp), tp, q, kv)
    ensures forall h, k :: GateAccepts(h, k, tp, q, kv) ==> CeilTo(kv, tp) <= k
  {
    hide CeilTo;
    PaddedKvPositive(kv, tp);
    CeilToLeast(kv, tp, 0);
    var ratio, k0 := q / kv, CeilTo(kv, tp);
    assert q == kv * ratio;
    RatioPositive(q, kv, tp, ratio);
    FallbackUnreachable(kv, tp, ratio);
    RatioKept(k0, ratio);
    MulMono(kv, k0, ratio);
    assert (k0 * ratio) * kv == k0 * (kv * ratio);
    forall h, k | GateAccepts(h, k, tp, q, kv)
      ensures k0 <= k
    {
      CeilToLeast(kv, tp, k);
    }
  }

  lemma RatioPositive(q: int, kv: int, tp: int, ratio: int)
    requires tp >= 2 && q == kv * ratio && !ToolRefuses(kv, CeilTo(kv, tp), tp)
    requires !ToolRefuses(q, CeilTo(kv, tp) * ratio, tp)
    ensures ratio > 0
  {
    var c := (kv + tp - 1) / tp;
    MultipleMod(c, tp);
    MultipleMod(c * ratio, tp);
    assert CeilTo(kv, tp) * ratio == (c * ratio) * tp;
    var share := kv - (tp - 1) * c;
    assert q - (tp - 1) * (c * ratio) == share * ratio;
    if ratio <= 0 {
      MulMono(ratio, 0, share);
    }
  }

  // ----- Grouping query heads

  lemma AcceptedShape(heads: int, kvHeads: int, tp: int, q: int, kv: int)
    requires tp > 0 && kv > 0 && GateAccepts(heads, kvHeads, tp, q, kv)
    ensures var ratio, kvLocal := heads / kvHeads, kvHeads / tp;
            && q == kv * ratio && kvHeads == kvLocal * tp && heads == kvHeads * ratio && heads / tp == ratio * kvLocal
            && kvLocal > 0 && q / kv == ratio
  {
    var ratio, kvLocal := heads / kvHeads, kvHeads / tp;
    assert heads == kvHeads * ratio && kvHeads == kvLocal * tp;
    assert heads == (ratio * kvLocal) * tp;
    MultipleMod(ratio * kvLocal, tp);
    assert kvHeads * (kv * ratio) == heads * kv;
    CancelFactor(kvHeads, kv * ratio, q);
    PositiveFactor(tp, kvLocal);
    MultipleMod(ratio, kv);
    assert q == ratio * kv;
  }

  /** On every rank, each query head keeps the key-value head it had: the head's number across ranks,
      divided by the ratio, is the key-value head's number across ranks. */
  lemma GroupingKept(heads: int, kvHeads: int, tp: int, q: int, kv: int, r: nat, i: nat)
    requires tp > 0 && kv > 0 && GateAccepts(heads, kvHeads, tp, q, kv) && r < tp && i < heads / tp
    ensures var ratio, kvLocal := heads / kvHeads, kvHeads / tp;
            && ratio > 0 && q / kv == ratio
            && (r * (heads / tp) + i) / ratio == r * kvLocal + i / ratio
            && i / ratio < kvLocal
  {
    var ratio, kvLocal := heads / kvHeads, kvHeads / tp;
    AcceptedShape(heads, kvHeads, tp, q, kv);
    assert kvLocal * ratio == heads / tp;
    PositiveFactor(kvLocal, ratio);
    LocalGrouping(ratio, kvLocal, r, i);
  }

  lemma LocalGrouping(ratio: int, kvLocal: int, r: nat, i: nat)
    requires ratio > 0 && kvLocal > 0 && i < ratio * kvLocal
    ensures (r * (ratio * kvLocal) + i) / ratio == r * kvLocal + i / ratio && i / ratio < kvLocal
  {
    var a, b := i / ratio, i % ratio;
    assert r * (ratio * kvLocal) + i == ratio * (r * kvLocal + a) + b;
    DivUnique(ratio, r * kvLocal + a, b);
    if a >= kvLocal {
      MulMono(kvLocal, a, ratio);
    }
  }

  lemma CancelFactor(m: int, a: int, b: int)
    requires m > 0 && m * a == m * b
    ensures a == b
  {
  }
}
