/** The drafter's check after loading: the rows and columns of every fabricated head are read back and
    must be zero. */
module PadCheck {
  import opened Options
  import opened HeadPadding
  import opened PaddedSharding

  // ----- Which heads of a rank are real

  /** How many of a rank's local heads the checkpoint has. */
  function RealHeads(stock: nat, rank: nat, local: nat): nat {
    var left := if stock > rank * local then stock - rank * local else 0;
    if left < local then left else local
  }

  function RealOverRanks(stock: nat, local: nat, ranks: nat): nat {
    if ranks == 0 then 0 else RealOverRanks(stock, local, ranks - 1) + RealHeads(stock, ranks - 1, local)
  }

  lemma {:induction false} RealPrefix(stock: nat, local: nat, ranks: nat)
    ensures RealOverRanks(stock, local, ranks) == if stock <= ranks * local then stock else ranks * local
  {
    if ranks > 0 {
      RealPrefix(stock, local, ranks - 1);
      assert ranks * local == (ranks - 1) * local + local;
    }
  }

  /** Over all ranks the real heads are the checkpoint's, no more and no fewer. */
  lemma RealHeadsSum(stock: nat, local: nat, tp: nat)
    requires stock <= tp * local
    ensures RealOverRanks(stock, local, tp) == stock
  {
    RealPrefix(stock, local, tp);
  }

  /** A local head is beyond the real ones exactly when its number across ranks is not in the
      checkpoint: what the check reads over all ranks is what the pad fabricated. */
  lemma FabricatedExactly(stock: nat, local: nat, rank: nat, h: nat)
    requires h < local
    ensures RealHeads(stock, rank, local) <= h <==> stock <= rank * local + h
  {
  }

  // ----- What is read

  datatype Attention = Attention(qkv: Tensor, o: Option<Tensor>)

  datatype Part = Q | K | V | O

  datatype Finding = Finding(layer: nat, part: Part, nonZero: nat)

  datatype Geometry = Geometry(qLocal: nat, kvLocal: nat, headDim: nat, qReal: nat, kvReal: nat)

  predicate Shaped(a: Attention, g: Geometry) {
    && a.qkv.Rank() == 2 && a.qkv.shape[0] == (g.qLocal + 2 * g.kvLocal) * g.headDim
    && (a.o.Some? ==> a.o.value.Rank() == 2 && a.o.value.shape[1] == g.qLocal * g.headDim)
  }

  function NonZeroInRow(w: Tensor, row: nat, cols: nat): nat {
    if cols == 0 then 0 else NonZeroInRow(w, row, cols - 1) + if w.at([row, cols - 1]) == 0.0 then 0 else 1
  }

  /** Non-zero elements of rows lo to hi. */
  function NonZeroRows(w: Tensor, lo: nat, hi: nat, cols: nat): nat {
    if hi <= lo then 0 else NonZeroRows(w, lo, hi - 1, cols) + NonZeroInRow(w, hi - 1, cols)
  }

  function NonZeroInColumn(w: Tensor, col: nat, rows: nat): nat {
    if rows == 0 then 0 else NonZeroInColumn(w, col, rows - 1) + if w.at([rows - 1, col]) == 0.0 then 0 else 1
  }

  function NonZeroColumns(w: Tensor, lo: nat, hi: nat, rows: nat): nat {
    if hi <= lo then 0 else NonZeroColumns(w, lo, hi - 1, rows) + NonZeroInColumn(w, hi - 1, rows)
  }

  ghost predicate ZeroRows(w: Tensor, lo: nat, hi: nat, cols: nat) {
    forall i: nat, j: nat {:trigger w.at([i, j])} :: lo <= i < hi && j < cols ==> w.at([i, j]) == 0.0
  }

  ghost predicate ZeroColumns(w: Tensor, lo: nat, hi: nat, rows: nat) {
    forall i: nat, j: nat {:trigger w.at([i, j])} :: i < rows && lo <= j < hi ==> w.at([i, j]) == 0.0
  }

  lemma {:induction false} RowCount(w: Tensor, row: nat, cols: nat)
    ensures NonZeroInRow(w, row, cols) == 0 <==> forall j: nat :: j < cols ==> w.at([row, j]) == 0.0
  {
    if cols > 0 {
      RowCount(w, row, cols - 1);
    }
  }

  lemma {:induction false} RowsCount(w: Tensor, lo: nat, hi: nat, cols: nat)
    ensures NonZeroRows(w, lo, hi, cols) == 0 <==> ZeroRows(w, lo, hi, cols)
  {
    if lo < hi {
      RowsCount(w, lo, hi - 1, cols);
      RowCount(w, hi - 1, cols);
    }
  }

  lemma {:induction false} ColumnCount(w: Tensor, col: nat, rows: nat)
    ensures NonZeroInColumn(w, col, rows) == 0 <==> forall i: nat :: i < rows ==> w.at([i, col]) == 0.0
  {
    if rows > 0 {
      ColumnCount(w, col, rows - 1);
    }
  }

  lemma {:induction false} ColumnsCount(w: Tensor, lo: nat, hi: nat, rows: nat)
    ensures NonZeroColumns(w, lo, hi, rows) == 0 <==> ZeroColumns(w, lo, hi, rows)
  {
    if lo < hi {
      ColumnsCount(w, lo, hi - 1, rows);
      ColumnCount(w, hi - 1, rows);
    }
  }

  /** The places of the elements in a rectangle that are not zero. */
  ghost function NonZeroPlaces(w: Tensor, rows: nat, toRow: nat, cols: nat, toCol: nat): set<(nat, nat)> {
    set i: nat, j: nat | rows <= i < toRow && cols <= j < toCol && w.at([i, j]) != 0.0 :: (i, j)
  }

  lemma PlacesByRow(w: Tensor, lo: nat, mid: nat, hi: nat, cols: nat, toCol: nat)
    requires lo <= mid <= hi
    ensures |NonZeroPlaces(w, lo, hi, cols, toCol)|
         == |NonZeroPlaces(w, lo, mid, cols, toCol)| + |NonZeroPlaces(w, mid, hi, cols, toCol)|
  {
    var a, b := NonZeroPlaces(w, lo, mid, cols, toCol), NonZeroPlaces(w, mid, hi, cols, toCol);
    assert a !! b && NonZeroPlaces(w, lo, hi, cols, toCol) == a + b;
  }

  lemma PlacesByColumn(w: Tensor, rows: nat, toRow: nat, lo: nat, mid: nat, hi: nat)
    requires lo <= mid <= hi
    ensures |NonZeroPlaces(w, rows, toRow, lo, hi)|
         == |NonZeroPlaces(w, rows, toRow, lo, mid)| + |NonZeroPlaces(w, rows, toRow, mid, hi)|
  {
    var a, b := NonZeroPlaces(w, rows, toRow, lo, mid), NonZeroPlaces(w, rows, toRow, mid, hi);
    assert a !! b && NonZeroPlaces(w, rows, toRow, lo, hi) == a + b;
  }

  lemma OnePlace(w: Tensor, i: nat, j: nat)
    ensures |NonZeroPlaces(w, i, i + 1, j, j + 1)| == if w.at([i, j]) == 0.0 then 0 else 1
  {
    assert NonZeroPlaces(w, i, i + 1, j, j + 1) == if w.at([i, j]) == 0.0 then {} else {(i, j)};
  }

  lemma NoPlaces(w: Tensor, lo: nat, hi: nat, from: nat, to: nat)
    requires hi <= lo || to <= from
    ensures NonZeroPlaces(w, lo, hi, from, to) == {}
  {
  }

  lemma {:induction false} RowPlaces(w: Tensor, row: nat, cols: nat)
    ensures NonZeroInRow(w, row, cols) == |NonZeroPlaces(w, row, row + 1, 0, cols)|
  {
    hide NonZeroPlaces;
    if cols == 0 {
      NoPlaces(w, row, row + 1, 0, 0);
    } else {
      RowPlaces(w, row, cols - 1);
      PlacesByColumn(w, row, row + 1, 0, cols - 1, cols);
      OnePlace(w, row, cols - 1);
    }
  }

  lemma {:induction false} ColumnPlaces(w: Tensor, col: nat, rows: nat)
    ensures NonZeroInColumn(w, col, rows) == |NonZeroPlaces(w, 0, rows, col, col + 1)|
  {
    hide NonZeroPlaces;
    if rows == 0 {
      NoPlaces(w, 0, 0, col, col + 1);
    } else {
      ColumnPlaces(w, col, rows - 1);
      PlacesByRow(w, 0, rows - 1, rows, col, col + 1);
      OnePlace(w, rows - 1, col);
    }
  }

  /** What is counted is how many elements of the rows are not zero. */
  lemma {:induction false} RowsCounted(w: Tensor, lo: nat, hi: nat, cols: nat)
    ensures NonZeroRows(w, lo, hi, cols) == |NonZeroPlaces(w, lo, hi, 0, cols)|
  {
    hide NonZeroPlaces, NonZeroInRow;
    if hi <= lo {
      NoPlaces(w, lo, hi, 0, cols);
    } else {
      RowsCounted(w, lo, hi - 1, cols);
      RowPlaces(w, hi - 1, cols);
      PlacesByRow(w, lo, hi - 1, hi, 0, cols);
    }
  }

  /** And of the columns. */
  lemma {:induction false} ColumnsCounted(w: Tensor, lo: nat, hi: nat, rows: nat)
    ensures NonZeroColumns(w, lo, hi, rows) == |NonZeroPlaces(w, 0, rows, lo, hi)|
  {
    hide NonZeroPlaces, NonZeroInColumn;
    if hi <= lo {
      NoPlaces(w, 0, rows, lo, hi);
    } else {
      ColumnsCounted(w, lo, hi - 1, rows);
      ColumnPlaces(w, hi - 1, rows);
      PlacesByColumn(w, 0, rows, lo, hi - 1, hi);
    }
  }

  /** Where a block of the fused weight starts, and how many of its heads are real and present. */
  function Base(g: Geometry, part: Part): nat {
    match part case Q => 0 case K => g.qLocal * g.headDim case _ => (g.qLocal + g.kvLocal) * g.headDim
  }

  function Real(g: Geometry, part: Part): nat { if part.Q? || part.O? then g.qReal else g.kvReal }

  function Local(g: Geometry, part: Part): nat { if part.Q? || part.O? then g.qLocal else g.kvLocal }

  /** The padded rows of one block, and the padded columns of the output projection, are zero. */
  ghost predicate PartZero(a: Attention, g: Geometry, part: Part)
    requires Shaped(a, g)
  {
    if part.O? then
      a.o.Some? ==> ZeroColumns(a.o.value, g.qReal * g.headDim, g.qLocal * g.headDim, a.o.value.shape[0])
    else
      ZeroRows(a.qkv, Base(g, part) + Real(g, part) * g.headDim, Base(g, part) + Local(g, part) * g.headDim,
               a.qkv.shape[1])
  }

  ghost predicate LayerZero(a: Attention, g: Geometry)
    requires Shaped(a, g)
  {
    PartZero(a, g, Q) && PartZero(a, g, K) && PartZero(a, g, V) && PartZero(a, g, O)
  }

  /** How many elements of one block a rank reads, and how many of them are not zero. */
  function ReadIn(a: Attention, g: Geometry, part: Part): nat
    requires Shaped(a, g)
  {
    if Real(g, part) >= Local(g, part) || (part.O? && a.o.None?) then 0
    else (Local(g, part) - Real(g, part)) * g.headDim * Width(a, part)
  }

  function Width(a: Attention, part: Part): nat
    requires a.qkv.Rank() == 2 && (a.o.Some? ==> a.o.value.Rank() == 2)
  {
    if part.O? then if a.o.Some? then a.o.value.shape[0] else 0 else a.qkv.shape[1]
  }

  function NonZeroIn(a: Attention, g: Geometry, part: Part): nat
    requires Shaped(a, g)
  {
    if part.O? then
      if a.o.Some? then NonZeroColumns(a.o.value, g.qReal * g.headDim, g.qLocal * g.headDim, a.o.value.shape[0]) else 0
    else
      NonZeroRows(a.qkv, Base(g, part) + Real(g, part) * g.headDim, Base(g, part) + Local(g, part) * g.headDim,
                  a.qkv.shape[1])
  }

  lemma NonZeroMeans(a: Attention, g: Geometry, part: Part)
    requires Shaped(a, g)
    ensures NonZeroIn(a, g, part) == 0 <==> PartZero(a, g, part)
  {
    hide NonZeroRows, NonZeroColumns, ZeroRows, ZeroColumns, Base, Real, Local;
    if part.O? {
      if a.o.Some? {
        ColumnsCount(a.o.value, g.qReal * g.headDim, g.qLocal * g.headDim, a.o.value.shape[0]);
      }
    } else {
      RowsCount(a.qkv, Base(g, part) + Real(g, part) * g.headDim, Base(g, part) + Local(g, part) * g.headDim,
                a.qkv.shape[1]);
    }
  }

  function FoundIn(a: Attention, g: Geometry, part: Part, l: nat): seq<Finding>
    requires Shaped(a, g)
  {
    if NonZeroIn(a, g, part) != 0 then [Finding(l, part, NonZeroIn(a, g, part))] else []
  }

  function ReadInLayer(a: Attention, g: Geometry): nat
    requires Shaped(a, g)
  {
    ReadIn(a, g, Q) + ReadIn(a, g, K) + ReadIn(a, g, V) + ReadIn(a, g, O)
  }

  function FoundInLayer(a: Attention, g: Geometry, l: nat): seq<Finding>
    requires Shaped(a, g)
  {
    FoundIn(a, g, Q, l) + FoundIn(a, g, K, l) + FoundIn(a, g, V, l) + FoundIn(a, g, O, l)
  }

  predicate AllShaped(layers: seq<Option<Attention>>, g: Geometry) {
    forall l :: 0 <= l < |layers| && layers[l].Some? ==> Shaped(layers[l].value, g)
  }

  function ReadInAll(layers: seq<Option<Attention>>, g: Geometry): nat
    requires AllShaped(layers, g)
  {
    if layers == [] then 0
    else
      var last := layers[|layers| - 1];
      ReadInAll(layers[..|layers| - 1], g) + if last.Some? then ReadInLayer(last.value, g) else 0
  }

  function FoundInAll(layers: seq<Option<Attention>>, g: Geometry): seq<Finding>
    requires AllShaped(layers, g)
  {
    if layers == [] then []
    else
      var last, n := layers[|layers| - 1], |layers| - 1;
      FoundInAll(layers[..n], g) + if last.Some? then FoundInLayer(last.value, g, n) else []
  }

  lemma NothingInLayer(a: Attention, g: Geometry, l: nat)
    requires Shaped(a, g)
    ensures FoundInLayer(a, g, l) == [] <==> LayerZero(a, g)
  {
    hide NonZeroIn, PartZero;
    NonZeroMeans(a, g, Q);
    NonZeroMeans(a, g, K);
    NonZeroMeans(a, g, V);
    NonZeroMeans(a, g, O);
  }

  /** Nothing is found exactly when every layer's fabricated heads are zero. */
  lemma {:induction false} NothingFoundMeans(layers: seq<Option<Attention>>, g: Geometry)
    requires AllShaped(layers, g)
    ensures FoundInAll(layers, g) == []
       <==> forall l :: 0 <= l < |layers| && layers[l].Some? ==> LayerZero(layers[l].value, g)
  {
    hide FoundInLayer, LayerZero;
    if layers != [] {
      var n := |layers| - 1;
      NothingFoundMeans(layers[..n], g);
      if layers[n].Some? {
        NothingInLayer(layers[n].value, g, n);
      }
      assert forall l :: 0 <= l < n ==> layers[..n][l] == layers[l];
    }
  }

  /** Reads one block; nothing to read when all its heads are real. */
  method CheckBlock(a: Attention, g: Geometry, part: Part) returns (checked: nat, nonZero: nat)
    requires Shaped(a, g) && !part.O?
    ensures checked == ReadIn(a, g, part) && nonZero == NonZeroIn(a, g, part)
  {
    hide Base, Real, Local;
    var base, real_, total := Base(g, part), Real(g, part), Local(g, part);
    if real_ >= total {
      EmptyRange(real_, total, g.headDim);
      return 0, 0;
    }
    var lo, hi := base + real_ * g.headDim, base + total * g.headDim;
    HeadSpan(real_, total, g.headDim);
    checked := (hi - lo) * a.qkv.shape[1];
    nonZero := NonZeroRows(a.qkv, lo, hi, a.qkv.shape[1]);
  }

  lemma EmptyRange(from: nat, to: nat, headDim: nat)
    requires from >= to
    ensures from * headDim >= to * headDim
  {
  }

  lemma HeadSpan(from: nat, to: nat, headDim: nat)
    requires from <= to
    ensures to * headDim - from * headDim == (to - from) * headDim >= 0
  {
  }

  /** The output projection is split by input, so there the padded heads are columns. */
  method CheckOutput(a: Attention, g: Geometry) returns (checked: nat, nonZero: nat)
    requires Shaped(a, g)
    ensures checked == ReadIn(a, g, O) && nonZero == NonZeroIn(a, g, O)
  {
    checked, nonZero := 0, 0;
    if a.o.Some? {
      var o := a.o.value;
      if g.qReal < g.qLocal {
        HeadSpan(g.qReal, g.qLocal, g.headDim);
        checked := (g.qLocal * g.headDim - g.qReal * g.headDim) * o.shape[0];
        nonZero := NonZeroColumns(o, g.qReal * g.headDim, g.qLocal * g.headDim, o.shape[0]);
      } else {
        EmptyRange(g.qReal, g.qLocal, g.headDim);
      }
    }
  }

  method CheckPart(a: Attention, g: Geometry, part: Part, l: nat) returns (checked: nat, found: seq<Finding>)
    requires Shaped(a, g)
    ensures checked == ReadIn(a, g, part) && found == FoundIn(a, g, part, l)
  {
    var nz: nat;
    if part.O? {
      checked, nz := CheckOutput(a, g);
    } else {
      checked, nz := CheckBlock(a, g, part);
    }
    found := if nz != 0 then [Finding(l, part, nz)] else [];
  }

  method VerifyLayer(a: Attention, g: Geometry, l: nat) returns (checked: nat, found: seq<Finding>)
    requires Shaped(a, g)
    ensures checked == ReadInLayer(a, g) && found == FoundInLayer(a, g, l)
  {
    hide ReadIn, FoundIn;
    var nq, fq := CheckPart(a, g, Q, l);
    var nk, fk := CheckPart(a, g, K, l);
    var nv, fv := CheckPart(a, g, V, l);
    var no, fo := CheckPart(a, g, O, l);
    checked, found := nq + nk + nv + no, fq + fk + fv + fo;
  }

  /** Every layer's padded heads: how many elements were read, and each block that is not all zero with the number
      of its elements that are not. */
  method VerifyPad(layers: seq<Option<Attention>>, g: Geometry) returns (checked: nat, bad: seq<Finding>)
    requires AllShaped(layers, g)
    ensures checked == ReadInAll(layers, g) && bad == FoundInAll(layers, g)
    ensures bad == [] <==> forall l :: 0 <= l < |layers| && layers[l].Some? ==> LayerZero(layers[l].value, g)
  {
    hide ReadInLayer, FoundInLayer, LayerZero, Shaped;
    checked, bad := 0, [];
    for l := 0 to |layers|
      invariant AllShaped(layers[..l], g) && checked == ReadInAll(layers[..l], g) && bad == FoundInAll(layers[..l], g)
    {
      assert layers[..l + 1][..l] == layers[..l];
      if layers[l].Some? {
        var n, found := VerifyLayer(layers[l].value, g, l);
        checked, bad := checked + n, bad + found;
      }
    }
    assert layers[..|layers|] == layers;
    NothingFoundMeans(layers, g);
  }

  // ----- The check of a whole drafter

  datatype Checkpoint = Checkpoint(q: nat, kv: nat, headDim: nat)

  datatype Outcome = NeverChecked | NothingPadded | Zero(checked: nat) | Rejected(bad: seq<Finding>)
    | Downgraded(bad: seq<Finding>)

  /** What a rank holds of a drafter configured with some head counts. */
  function GeometryOf(stock: Checkpoint, heads: nat, kvHeads: nat, tp: nat, rank: nat): Geometry
    requires tp > 0
  {
    var qLocal, kvLocal := heads / tp, kvHeads / tp;
    Geometry(qLocal, kvLocal, stock.headDim, RealHeads(stock.q, rank, qLocal), RealHeads(stock.kv, rank, kvLocal))
  }

  /** Refuses a drafter whose head check never ran, reads nothing when nothing was padded, and otherwise
      passes exactly the ranks whose fabricated heads are all zero. */
  method VerifyDraft(stock: Option<Checkpoint>, heads: nat, kvHeads: nat, tp: nat, rank: nat,
                     layers: seq<Option<Attention>>, warn: bool)
    returns (r: Outcome)
    requires tp > 0
    requires stock.Some? ==> AllShaped(layers, GeometryOf(stock.value, heads, kvHeads, tp, rank))
    ensures r == NeverChecked <==> stock.None?
    ensures r == NothingPadded <==> stock.Some? && heads == stock.value.q && kvHeads == stock.value.kv
    ensures stock.Some? && r != NothingPadded ==>
              (r.Zero? <==> forall l :: 0 <= l < |layers| && layers[l].Some? ==>
                 LayerZero(layers[l].value, GeometryOf(stock.value, heads, kvHeads, tp, rank)))
    ensures stock.Some? && r != NothingPadded ==>
              var g := GeometryOf(stock.value, heads, kvHeads, tp, rank);
              && (r.Zero? ==> r.checked == ReadInAll(layers, g))
              && (!r.Zero? ==> r == if warn then Downgraded(FoundInAll(layers, g)) else Rejected(FoundInAll(layers, g)))
  {
    if stock.None? {
      return NeverChecked;
    }
    if heads == stock.value.q && kvHeads == stock.value.kv {
      return NothingPadded;
    }
    var checked, bad := VerifyPad(layers, GeometryOf(stock.value, heads, kvHeads, tp, rank));
    r := if bad == [] then Zero(checked) else if warn then Downgraded(bad) else Rejected(bad);
  }

  // ----- All ranks together

  /** The number of a head among all heads of the fused weight: a rank's query heads stand first, then its keys,
      then its values. */
  ghost function InFused(g: Geometry, part: Part, h: nat): nat
    requires !part.O?
  {
    match part case Q => h case K => g.qLocal + h case V => g.qLocal + g.kvLocal + h
  }

  /** The rows of one local head in the fused weight, or its columns in the output projection, are zero. */
  ghost predicate HeadZero(a: Attention, g: Geometry, part: Part, h: nat)
    requires Shaped(a, g)
  {
    if part.O? then
      a.o.Some? ==> ZeroColumns(a.o.value, h * g.headDim, (h + 1) * g.headDim, a.o.value.shape[0])
    else
      ZeroRows(a.qkv, InFused(g, part, h) * g.headDim, (InFused(g, part, h) + 1) * g.headDim, a.qkv.shape[1])
  }

  lemma RowsOfHead(g: Geometry, part: Part, h: nat)
    requires !part.O?
    ensures InFused(g, part, h) * g.headDim == Base(g, part) + h * g.headDim
    ensures (InFused(g, part, h) + 1) * g.headDim == Base(g, part) + (h + 1) * g.headDim
  {
    match part
    case Q =>
    case K => assert (g.qLocal + h) * g.headDim == g.qLocal * g.headDim + h * g.headDim;
    case V =>
      assert (g.qLocal + g.kvLocal + h) * g.headDim == (g.qLocal + g.kvLocal) * g.headDim + h * g.headDim;
  }

  lemma HeadOf(i: nat, headDim: nat, from: nat, to: nat) returns (h: nat)
    requires from * headDim <= i < to * headDim
    ensures from <= h < to && h * headDim <= i < (h + 1) * headDim
  {
    h := from;
    while (h + 1) * headDim <= i
      invariant from <= h && h * headDim <= i
      decreases i - h * headDim
    {
      h := h + 1;
    }
    if h >= to {
      MulMono(to, h, headDim);
    }
  }

  lemma HeadWithin(h: nat, headDim: nat, from: nat, to: nat)
    requires from <= h < to
    ensures from * headDim <= h * headDim && (h + 1) * headDim <= to * headDim
  {
    MulMono(from, h, headDim);
    MulMono(h + 1, to, headDim);
  }

  /** A block is zero where it was padded exactly when each of its heads beyond the real ones is. */
  lemma PartZeroByHeads(a: Attention, g: Geometry, part: Part)
    requires Shaped(a, g)
    ensures PartZero(a, g, part) <==> forall h :: Real(g, part) <= h < Local(g, part) ==> HeadZero(a, g, part, h)
  {
    if PartZero(a, g, part) {
      forall h | Real(g, part) <= h < Local(g, part)
        ensures HeadZero(a, g, part, h)
      {
        HeadWithin(h, g.headDim, Real(g, part), Local(g, part));
        if !part.O? {
          RowsOfHead(g, part, h);
        }
      }
    }
    if forall h :: Real(g, part) <= h < Local(g, part) ==> HeadZero(a, g, part, h) {
      HeadsMakePart(a, g, part);
    }
  }

  lemma HeadsMakePart(a: Attention, g: Geometry, part: Part)
    requires Shaped(a, g) && forall h :: Real(g, part) <= h < Local(g, part) ==> HeadZero(a, g, part, h)
    ensures PartZero(a, g, part)
  {
    hide HeadZero, Base;
    if part.O? {
      if a.o.Some? {
        forall i: nat, j: nat | i < a.o.value.shape[0] && g.qReal * g.headDim <= j < g.qLocal * g.headDim
          ensures a.o.value.at([i, j]) == 0.0
        {
          var h := HeadOf(j, g.headDim, g.qReal, g.qLocal);
          ColumnOfHead(a, g, h, i, j);
        }
      }
    } else {
      var base := Base(g, part);
      forall i: nat, j: nat |
        base + Real(g, part) * g.headDim <= i < base + Local(g, part) * g.headDim && j < a.qkv.shape[1]
        ensures a.qkv.at([i, j]) == 0.0
      {
        var h := HeadOf(i - base, g.headDim, Real(g, part), Local(g, part));
        RowOfHead(a, g, part, h, i, j);
      }
    }
  }

  lemma ColumnOfHead(a: Attention, g: Geometry, h: nat, i: nat, j: nat)
    requires Shaped(a, g) && a.o.Some? && HeadZero(a, g, O, h)
    requires i < a.o.value.shape[0] && h * g.headDim <= j < (h + 1) * g.headDim
    ensures a.o.value.at([i, j]) == 0.0
  {
  }

  lemma RowOfHead(a: Attention, g: Geometry, part: Part, h: nat, i: nat, j: nat)
    requires Shaped(a, g) && !part.O? && HeadZero(a, g, part, h)
    requires h * g.headDim <= i - Base(g, part) < (h + 1) * g.headDim && j < a.qkv.shape[1]
    ensures a.qkv.at([i, j]) == 0.0
  {
    hide Base, InFused;
    RowsOfHead(g, part, h);
  }

  function StockOf(stock: Checkpoint, part: Part): nat { if part.Q? || part.O? then stock.q else stock.kv }

  /** Every head of a rank's block whose number across ranks the checkpoint does not have is zero. */
  ghost predicate BeyondStockZero(a: Attention, g: Geometry, stock: Checkpoint, rank: nat, part: Part)
    requires Shaped(a, g)
  {
    forall h: nat {:trigger HeadZero(a, g, part, h)} ::
      h < Local(g, part) && StockOf(stock, part) <= rank * Local(g, part) + h ==> HeadZero(a, g, part, h)
  }

  lemma PartZeroByNumber(a: Attention, stock: Checkpoint, heads: nat, kvHeads: nat, tp: nat, rank: nat, part: Part)
    requires tp > 0 && Shaped(a, GeometryOf(stock, heads, kvHeads, tp, rank))
    ensures var g := GeometryOf(stock, heads, kvHeads, tp, rank);
            PartZero(a, g, part) <==> BeyondStockZero(a, g, stock, rank, part)
  {
    hide PartZero, HeadZero, Shaped, RealHeads;
    var g := GeometryOf(stock, heads, kvHeads, tp, rank);
    PartZeroByHeads(a, g, part);
    forall h: nat {:trigger HeadZero(a, g, part, h)} | h < Local(g, part)
      ensures Real(g, part) <= h <==> StockOf(stock, part) <= rank * Local(g, part) + h
    {
      FabricatedExactly(StockOf(stock, part), Local(g, part), rank, h);
    }
  }

  ghost predicate RanksShaped(ranks: seq<Attention>, stock: Checkpoint, heads: nat, kvHeads: nat, tp: nat)
    requires tp > 0
  {
    forall r :: 0 <= r < |ranks| ==> Shaped(ranks[r], GeometryOf(stock, heads, kvHeads, tp, r))
  }

  /** All ranks pass exactly when every head, over all ranks, that is numbered at or above what the checkpoint has is
      zero, in each block and in the output projection. */
  lemma AllRanksPassExactly(ranks: seq<Attention>, stock: Checkpoint, heads: nat, kvHeads: nat)
    requires |ranks| > 0 && RanksShaped(ranks, stock, heads, kvHeads, |ranks|)
    ensures (forall r :: 0 <= r < |ranks| ==> LayerZero(ranks[r], GeometryOf(stock, heads, kvHeads, |ranks|, r)))
       <==> (forall r, part: Part :: 0 <= r < |ranks| ==>
               BeyondStockZero(ranks[r], GeometryOf(stock, heads, kvHeads, |ranks|, r), stock, r, part))
  {
    hide PartZero, BeyondStockZero, Shaped, GeometryOf;
    forall r, part: Part | 0 <= r < |ranks|
      ensures PartZero(ranks[r], GeometryOf(stock, heads, kvHeads, |ranks|, r), part)
         <==> BeyondStockZero(ranks[r], GeometryOf(stock, heads, kvHeads, |ranks|, r), stock, r, part)
    {
      PartZeroByNumber(ranks[r], stock, heads, kvHeads, |ranks|, r, part);
    }
    forall r | 0 <= r < |ranks|
      ensures LayerZero(ranks[r], GeometryOf(stock, heads, kvHeads, |ranks|, r))
         <==> forall part: Part ::
                BeyondStockZero(ranks[r], GeometryOf(stock, heads, kvHeads, |ranks|, r), stock, r, part)
    {
      EveryPart(ranks[r], GeometryOf(stock, heads, kvHeads, |ranks|, r));
    }
  }

  lemma EveryPart(a: Attention, g: Geometry)
    requires Shaped(a, g)
    ensures LayerZero(a, g) <==> forall part: Part :: PartZero(a, g, part)
  {
    hide PartZero;
    if LayerZero(a, g) {
      forall part: Part
        ensures PartZero(a, g, part)
      {
        match part
        case Q =>
        case K =>
        case V =>
        case O =>
      }
    }
  }

  // ----- How much is read

  /** What all ranks read of one block. */
  ghost function ReadOverRanks(ranks: seq<Attention>, stock: Checkpoint, heads: nat, kvHeads: nat, tp: nat,
                               part: Part): nat
    requires tp > 0 && RanksShaped(ranks, stock, heads, kvHeads, tp)
  {
    if ranks == [] then 0
    else
      var r := |ranks| - 1;
      ReadOverRanks(ranks[..r], stock, heads, kvHeads, tp, part)
      + ReadIn(ranks[r], GeometryOf(stock, heads, kvHeads, tp, r), part)
  }

  /** Every rank has the block, as wide as the others' are. */
  ghost predicate Wide(ranks: seq<Attention>, part: Part, width: nat) {
    forall r :: 0 <= r < |ranks| ==>
      ranks[r].qkv.Rank() == 2 && (ranks[r].o.Some? ==> ranks[r].o.value.Rank() == 2) && (part.O? ==> ranks[r].o.Some?)
      && Width(ranks[r], part) == width
  }

  function LocalOf(heads: nat, kvHeads: nat, tp: nat, part: Part): nat
    requires tp > 0
  {
    if part.Q? || part.O? then heads / tp else kvHeads / tp
  }

  lemma {:induction false} ReadSoFar(ranks: seq<Attention>, stock: Checkpoint, heads: nat, kvHeads: nat, tp: nat,
                                     part: Part, width: nat)
    requires tp > 0 && RanksShaped(ranks, stock, heads, kvHeads, tp) && Wide(ranks, part, width)
    ensures var local := LocalOf(heads, kvHeads, tp, part);
            var real_ := RealOverRanks(StockOf(stock, part), local, |ranks|);
            && real_ <= |ranks| * local
            && ReadOverRanks(ranks, stock, heads, kvHeads, tp, part)
            == (|ranks| * local - real_) * (stock.headDim * width)
  {
    hide Shaped, Width, ReadIn, RealHeads, GeometryOf, Real, Local, LocalOf, StockOf;
    var local, s := LocalOf(heads, kvHeads, tp, part), StockOf(stock, part);
    if ranks != [] {
      var r := |ranks| - 1;
      ReadSoFar(ranks[..r], stock, heads, kvHeads, tp, part, width);
      RealAtMostLocal(s, r, local);
      GeometryParts(stock, heads, kvHeads, tp, r, part);
      ReadOfRank(ranks[r], GeometryOf(stock, heads, kvHeads, tp, r), part, width);
      SumUp(r, local, RealOverRanks(s, local, r), RealHeads(s, r, local), stock.headDim * width);
    }
  }

  lemma GeometryParts(stock: Checkpoint, heads: nat, kvHeads: nat, tp: nat, rank: nat, part: Part)
    requires tp > 0
    ensures var g := GeometryOf(stock, heads, kvHeads, tp, rank);
            && Local(g, part) == LocalOf(heads, kvHeads, tp, part) && g.headDim == stock.headDim
            && Real(g, part) == RealHeads(StockOf(stock, part), rank, LocalOf(heads, kvHeads, tp, part))
  {
  }

  lemma RealAtMostLocal(stock: nat, rank: nat, local: nat)
    ensures RealHeads(stock, rank, local) <= local
  {
  }

  lemma ReadOfRank(a: Attention, g: Geometry, part: Part, width: nat)
    requires Shaped(a, g) && Width(a, part) == width && (part.O? ==> a.o.Some?) && Real(g, part) <= Local(g, part)
    ensures ReadIn(a, g, part) == (Local(g, part) - Real(g, part)) * (g.headDim * width)
  {
    hide Width;
    var n := Local(g, part) - Real(g, part);
    assert n * g.headDim * width == n * (g.headDim * width);
  }

  lemma SumUp(r: nat, local: nat, before: nat, here: nat, unit: nat)
    requires before <= r * local && here <= local
    ensures before + here <= (r + 1) * local
    ensures (r * local - before) * unit + (local - here) * unit == ((r + 1) * local - (before + here)) * unit
  {
    var x, y := r * local - before, local - here;
    assert x * unit + y * unit == (x + y) * unit;
    assert (r + 1) * local == r * local + local;
  }

  /** Over all ranks each block is read over just the heads the pad has added. */
  lemma ReadIsFabricated(ranks: seq<Attention>, stock: Checkpoint, heads: nat, kvHeads: nat, part: Part, width: nat)
    requires 0 < |ranks| && RanksShaped(ranks, stock, heads, kvHeads, |ranks|) && Wide(ranks, part, width)
    requires StockOf(stock, part) <= |ranks| * LocalOf(heads, kvHeads, |ranks|, part)
    ensures ReadOverRanks(ranks, stock, heads, kvHeads, |ranks|, part)
         == (|ranks| * LocalOf(heads, kvHeads, |ranks|, part) - StockOf(stock, part)) * (stock.headDim * width)
  {
    hide RanksShaped, Wide, ReadOverRanks, LocalOf, StockOf;
    ReadSoFar(ranks, stock, heads, kvHeads, |ranks|, part, width);
    RealHeadsSum(StockOf(stock, part), LocalOf(heads, kvHeads, |ranks|, part), |ranks|);
  }

  // ----- What the loader put there passes

  /** The rank's local block of rows is its shard of the checkpoint's projection. */
  ghost predicate RowsLoaded(qkv: Tensor, base: nat, w: Tensor, rank: nat, rows: nat)
    requires qkv.Rank() == 2 && w.Rank() == 2
  {
    PadThenNarrow(w, 0, rank * rows, rows).Some? && qkv.shape[1] == w.shape[1] &&
    forall i: nat, j: nat {:trigger qkv.at([i, j])} :: base <= i < base + rows && j < w.shape[1] ==>
      qkv.at([i, j]) == Shard(w, 0, rank, rows).at([i - base, j])
  }

  ghost predicate ColumnsLoaded(o: Tensor, w: Tensor, rank: nat, cols: nat)
    requires o.Rank() == 2 && w.Rank() == 2
  {
    PadThenNarrow(w, 1, rank * cols, cols).Some? && o.shape[0] == w.shape[0] &&
    forall i: nat, j: nat {:trigger o.at([i, j])} :: i < w.shape[0] && j < cols ==>
      o.at([i, j]) == Shard(w, 1, rank, cols).at([i, j])
  }

  lemma FabricatedRowIsZero(w: Tensor, stock: nat, local: nat, headDim: nat, rank: nat, i: nat, j: nat)
    requires w.Rank() == 2 && w.shape[0] == stock * headDim && j < w.shape[1]
    requires RealHeads(stock, rank, local) * headDim <= i < local * headDim
    requires PadThenNarrow(w, 0, rank * (local * headDim), local * headDim).Some?
    ensures Shard(w, 0, rank, local * headDim).at([i, j]) == 0.0
  {
    var rows := local * headDim;
    ShardMeaning(w, 0, rank * rows, rows);
    assert InShape([i, j], Shard(w, 0, rank, rows).shape);
    PastTheStock(stock, local, headDim, rank, i);
  }

  lemma FabricatedColumnIsZero(w: Tensor, stock: nat, local: nat, headDim: nat, rank: nat, i: nat, j: nat)
    requires w.Rank() == 2 && w.shape[1] == stock * headDim && i < w.shape[0]
    requires RealHeads(stock, rank, local) * headDim <= j < local * headDim
    requires PadThenNarrow(w, 1, rank * (local * headDim), local * headDim).Some?
    ensures Shard(w, 1, rank, local * headDim).at([i, j]) == 0.0
  {
    var cols := local * headDim;
    ShardMeaning(w, 1, rank * cols, cols);
    assert InShape([i, j], Shard(w, 1, rank, cols).shape);
    PastTheStock(stock, local, headDim, rank, j);
  }

  lemma PastTheStock(stock: nat, local: nat, headDim: nat, rank: nat, i: nat)
    requires RealHeads(stock, rank, local) * headDim <= i < local * headDim
    ensures rank * (local * headDim) + i >= stock * headDim
  {
    assert rank * (local * headDim) == (rank * local) * headDim;
    if stock <= rank * local {
      MulMono(stock, rank * local, headDim);
    } else if stock - rank * local < local {
      assert stock * headDim == (rank * local) * headDim + (stock - rank * local) * headDim;
    }
  }

  /** End to end: a layer filled by the padding loader from checkpoint projections passes the check. */
  lemma LoadedLayerPasses(a: Attention, g: Geometry, wq: Tensor, wk: Tensor, wv: Tensor, wo: Tensor, stockQ: nat,
                          stockKv: nat, rank: nat)
    requires Shaped(a, g) && g.qReal == RealHeads(stockQ, rank, g.qLocal)
    requires g.kvReal == RealHeads(stockKv, rank, g.kvLocal)
    requires wq.Rank() == 2 && wq.shape[0] == stockQ * g.headDim
    requires wk.Rank() == 2 && wk.shape[0] == stockKv * g.headDim
    requires wv.Rank() == 2 && wv.shape[0] == stockKv * g.headDim
    requires wo.Rank() == 2 && wo.shape[1] == stockQ * g.headDim
    requires RowsLoaded(a.qkv, 0, wq, rank, g.qLocal * g.headDim)
    requires RowsLoaded(a.qkv, g.qLocal * g.headDim, wk, rank, g.kvLocal * g.headDim)
    requires RowsLoaded(a.qkv, (g.qLocal + g.kvLocal) * g.headDim, wv, rank, g.kvLocal * g.headDim)
    requires a.o.Some? ==> ColumnsLoaded(a.o.value, wo, rank, g.qLocal * g.headDim)
    ensures LayerZero(a, g)
  {
    LoadedBlockIsZero(a.qkv, Base(g, Q), wq, stockQ, g.qLocal, g.headDim, rank);
    LoadedBlockIsZero(a.qkv, Base(g, K), wk, stockKv, g.kvLocal, g.headDim, rank);
    LoadedBlockIsZero(a.qkv, Base(g, V), wv, stockKv, g.kvLocal, g.headDim, rank);
    if a.o.Some? {
      forall i: nat, j: nat | i < a.o.value.shape[0] && g.qReal * g.headDim <= j < g.qLocal * g.headDim
        ensures a.o.value.at([i, j]) == 0.0
      {
        FabricatedColumnIsZero(wo, stockQ, g.qLocal, g.headDim, rank, i, j);
      }
    }
  }

  lemma LoadedBlockIsZero(qkv: Tensor, base: nat, w: Tensor, stock: nat, local: nat, headDim: nat, rank: nat)
    requires qkv.Rank() == 2 && w.Rank() == 2 && w.shape[0] == stock * headDim
    requires RowsLoaded(qkv, base, w, rank, local * headDim)
    ensures ZeroRows(qkv, base + RealHeads(stock, rank, local) * headDim, base + local * headDim, qkv.shape[1])
  {
    forall i: nat, j: nat |
      base + RealHeads(stock, rank, local) * headDim <= i < base + local * headDim && j < qkv.shape[1]
      ensures qkv.at([i, j]) == 0.0
    {
      FabricatedRowIsZero(w, stock, local, headDim, rank, i - base, j);
      assert qkv.at([i, j]) == Shard(w, 0, rank, local * headDim).at([i - base, j]);
    }
  }
}
