/** The Eltwise layer: merges N >= 2 equally shaped blobs into one by an
    element-wise product, (weighted) sum or maximum, folding the operands in
    order 0, 1, ..., N-1 one channel at a time. */
module Eltwise {
  import opened Wrappers
  import opened Bytes
  import opened ParamIO
  import opened Reduce
  import opened Tensors

  /** The `op_type` codes. The header that defines them is not part of this
      model; only their being distinct matters. */
  const OperationProd: int := 0
  const OperationSum: int := 1
  const OperationMax: int := 2

  /** The layer's parameters: `op_type`, `num_coeff` and the coefficient
      buffer `coeffs`. */
  datatype Params = Params(opType: int, numCoeff: int, coeffs: seq<int>)

  /** The reduction `forward` performs, or `None` when `op_type` names none of
      the three operations. */
  function ReductionOf(p: Params): (r: Option<Reduction>)
    ensures r == Some(Prod) <==> p.opType == OperationProd
    ensures r == Some(Max) <==> p.opType == OperationMax
    ensures r == Some(Sum) <==> p.opType == OperationSum && p.numCoeff == 0
    ensures r == Some(WeightedSum(p.coeffs)) <==> p.opType == OperationSum && p.numCoeff != 0
    ensures r.None? <==> p.opType !in {OperationProd, OperationSum, OperationMax}
  {
    if p.opType == OperationProd then Some(Prod)
    else if p.opType == OperationSum then
      (if p.numCoeff == 0 then Some(Sum) else Some(WeightedSum(p.coeffs)))
    else if p.opType == OperationMax then Some(Max)
    else None
  }

  // ---------------------------------------------------------------------
  // Parameter loaders

  /** `load_param(FILE*)`: scans `op_type num_coeff` and then, when
      `num_coeff > 0`, creates the coefficient buffer and scans that many
      floats. A layer whose `num_coeff` is not positive keeps the buffer it
      had (`prior.coeffs`). */
  function LoadParamText(toks: seq<Token>, prior: Params, allocFails: bool): (r: Loaded<Params>)
    ensures !(ScansNum(toks, 0) && ScansNum(toks, 1)) ==> r == Err(ParseFailed)
    ensures ScansNum(toks, 0) && ScansNum(toks, 1) ==>
      var op, n := toks[0].value, toks[1].value;
      && (n <= 0 ==> r == Ok(Params(op, n, prior.coeffs), 2))
      && (n > 0 && allocFails ==> r == Err(AllocFailed))
      && (n > 0 && !allocFails ==>
            && (r.Ok? <==> forall j :: 2 <= j < 2 + n ==> ScansNum(toks, j))
            && (r.Err? ==> r.code == ParseFailed)
            && (r.Ok? ==> && r.next == 2 + n
                          && r.params.opType == op && r.params.numCoeff == n
                          && |r.params.coeffs| == n
                          && forall i :: 0 <= i < n ==> ScansNum(toks, 2 + i) && r.params.coeffs[i] == toks[2 + i].value))
  {
    if !(ScansNum(toks, 0) && ScansNum(toks, 1)) then Err(ParseFailed)
    else
      var op, n := toks[0].value, toks[1].value;
      if n <= 0 then Ok(Params(op, n, prior.coeffs), 2)
      else if allocFails then Err(AllocFailed)
      else match ScanNums(toks, 2, n)
        case None => Err(ParseFailed)
        case Some(cs) => Ok(Params(op, n, cs), 2 + n)
  }

  /** `load_param_bin(FILE*)`: reads `op_type`, `num_coeff` and, when
      `num_coeff > 0`, that many coefficients, without checking how many
      bytes `fread` delivered: a short stream leaves the destinations
      indeterminate (`junk`) and is never reported. */
  function LoadParamBin(s: seq<byte>, pos: nat, prior: Params, allocFails: bool, junk: int -> int): (r: Loaded<Params>)
    requires pos <= |s|
    ensures r.Err? <==> allocFails && ReadWord(s, pos + 4, junk) > 0
    ensures r.Err? ==> r.code == AllocFailed
    ensures r.Ok? ==>
      && r.params.opType == ReadWord(s, pos, junk)
      && r.params.numCoeff == ReadWord(s, pos + 4, junk)
      && pos <= r.next <= |s|
      && (r.params.numCoeff <= 0 ==> r.params.coeffs == prior.coeffs)
      && (r.params.numCoeff > 0 ==>
            && |r.params.coeffs| == r.params.numCoeff
            && forall i :: 0 <= i < r.params.numCoeff ==> r.params.coeffs[i] == ReadWord(s, pos + 8 + 4 * i, junk))
  {
    var op := ReadWord(s, pos, junk);
    var n := ReadWord(s, pos + 4, junk);
    if n > 0 then
      if allocFails then Err(AllocFailed)
      else
        var cs := seq(n, i requires 0 <= i < n => ReadWord(s, pos + 8 + 4 * i, junk));
        Ok(Params(op, n, cs), if pos + 8 + 4 * n <= |s| then pos + 8 + 4 * n else |s|)
    else Ok(Params(op, n, prior.coeffs), if pos + 8 <= |s| then pos + 8 else |s|)
  }

  /** The memory-cursor precondition: the cursor must point at a header, and
      at `num_coeff` coefficients after it when `num_coeff` is positive. */
  predicate RecordFits(mem: seq<byte>, pos: int) {
    && 0 <= pos && pos + 8 <= |mem|
    && var n := Int32At(mem, pos + 4); n <= 0 || pos + 8 + 4 * n <= |mem|
  }

  /** `load_param(const unsigned char*&)`: reads the two header words, views
      the next `num_coeff` words as the coefficients and advances the cursor
      past them. It always succeeds. */
  function LoadParamMem(mem: seq<byte>, pos: int): (r: Loaded<Params>)
    requires RecordFits(mem, pos)
    ensures r.Ok?
    ensures r.params.opType == Int32At(mem, pos)
    ensures r.params.numCoeff == Int32At(mem, pos + 4)
    ensures r.next == pos + 8 + 4 * r.params.numCoeff
    ensures |r.params.coeffs| == if r.params.numCoeff > 0 then r.params.numCoeff else 0
    ensures forall i :: 0 <= i < |r.params.coeffs| ==> r.params.coeffs[i] == Int32At(mem, pos + 8 + 4 * i)
  {
    var op := Int32At(mem, pos);
    var n := Int32At(mem, pos + 4);
    var view := if n > 0 then Words(mem, pos + 8, n) else [];
    Ok(Params(op, n, view), pos + 8 + 4 * n)
  }

  // ---------------------------------------------------------------------
  // Writing parameters, and reading them back

  /** Parameters a model converter writes: 32-bit header words and exactly
      `num_coeff` 32-bit coefficients. */
  predicate Encodable(p: Params) {
    && IsInt32(p.opType) && IsInt32(p.numCoeff)
    && 0 <= p.numCoeff && |p.coeffs| == p.numCoeff
    && forall i :: 0 <= i < |p.coeffs| ==> IsInt32(p.coeffs[i])
  }

  /** The words of the binary record: header, then coefficients. */
  function RecordWords(p: Params): (ws: seq<int>)
    requires Encodable(p)
    ensures forall j :: 0 <= j < |ws| ==> IsInt32(ws[j])
  {
    [p.opType, p.numCoeff] + p.coeffs
  }

  /** The binary record shared by the stream and memory-cursor forms. */
  function Encode(p: Params): (bs: seq<byte>)
    requires Encodable(p)
  {
    WordBytes(RecordWords(p))
  }

  /** The text record. */
  function EncodeText(p: Params): seq<Token> {
    [Num(p.opType), Num(p.numCoeff)] + NumTokens(p.coeffs)
  }

  /** The parameters a successful load yields from a record of `p`: exactly
      `p`, except that a layer without coefficients keeps its old buffer. */
  function Reloaded(p: Params, prior: Params): Params {
    if p.numCoeff > 0 then p else p.(coeffs := prior.coeffs)
  }

  /** Reloaded parameters make `forward` compute the same reduction. */
  lemma ReloadedSameReduction(p: Params, prior: Params)
    requires 0 <= p.numCoeff
    ensures ReductionOf(Reloaded(p, prior)) == ReductionOf(p)
  {
  }

  /** Reading the binary record of `p` through a memory cursor yields `p`
      and leaves the cursor just past the record, wherever it sits. */
  lemma MemRoundTrip(pre: seq<byte>, rec: seq<byte>, post: seq<byte>, p: Params)
    requires Encodable(p) && rec == Encode(p)
    ensures RecordFits(pre + rec + post, |pre|)
    ensures LoadParamMem(pre + rec + post, |pre|) == Ok(p, |pre| + |rec|)
  {
    var ws := RecordWords(p);
    var s := pre + rec + post;
    WordsOfWordBytes(pre, rec, post, ws);
    assert Int32At(s, |pre|) == ws[0] == p.opType;
    assert Int32At(s, |pre| + 4) == ws[1] == p.numCoeff;
    var r := LoadParamMem(s, |pre|);
    assert r.params.coeffs == p.coeffs by {
      forall i | 0 <= i < p.numCoeff
        ensures r.params.coeffs[i] == p.coeffs[i]
      {
        assert Int32At(s, |pre| + 4 * (2 + i)) == ws[2 + i];
      }
    }
  }

  /** Reading the binary record of `p` from a stream yields `p` (keeping the
      old coefficients when there are none) and stops just past the record;
      the stream form is never short here, so `junk` plays no part. */
  lemma BinRoundTrip(rec: seq<byte>, post: seq<byte>, p: Params, prior: Params, junk: int -> int)
    requires Encodable(p) && rec == Encode(p)
    ensures LoadParamBin(rec + post, 0, prior, false, junk) == Ok(Reloaded(p, prior), |rec|)
  {
    var s := rec + post;
    MemRoundTrip([], rec, post, p);
    assert [] + rec + post == s;
    BinFromMem(s, p, prior, junk, |rec|);
  }

  /** A stream whose cursor reading is `p` has `p` as its stream reading. */
  lemma BinFromMem(s: seq<byte>, p: Params, prior: Params, junk: int -> int, end: int)
    requires RecordFits(s, 0) && LoadParamMem(s, 0) == Ok(p, end) && p.numCoeff >= 0
    ensures LoadParamBin(s, 0, prior, false, junk) == Ok(Reloaded(p, prior), end)
  {
    BinMatchesMem(s, 0, prior, junk);
  }

  /** On a complete record with a non-negative count the stream and cursor
      loaders read the same parameters and stop at the same byte; they differ
      only in what a layer without coefficients keeps as its buffer. */
  lemma BinMatchesMem(s: seq<byte>, pos: nat, prior: Params, junk: int -> int)
    requires RecordFits(s, pos) && Int32At(s, pos + 4) >= 0
    ensures var m := LoadParamMem(s, pos);
      LoadParamBin(s, pos, prior, false, junk) == Ok(Reloaded(m.params, prior), m.next)
  {
    var m := LoadParamMem(s, pos);
    var b := LoadParamBin(s, pos, prior, false, junk);
    var n := Int32At(s, pos + 4);
    if n > 0 {
      assert b.params.coeffs == m.params.coeffs by {
        forall i | 0 <= i < n ensures b.params.coeffs[i] == m.params.coeffs[i] {
          assert ReadWord(s, pos + 8 + 4 * i, junk) == Int32At(s, pos + 8 + 4 * i);
        }
      }
    }
  }

  /** Scanning the text record of `p` yields `p` (keeping the old
      coefficients when there are none) and consumes exactly its tokens. */
  lemma TextRoundTrip(p: Params, post: seq<Token>, prior: Params)
    requires 0 <= p.numCoeff == |p.coeffs|
    ensures LoadParamText(EncodeText(p) + post, prior, false) == Ok(Reloaded(p, prior), 2 + p.numCoeff)
  {
    var toks := EncodeText(p) + post;
    assert ScansNum(toks, 0) && ScansNum(toks, 1);
    var r := LoadParamText(toks, prior, false);
    if p.numCoeff > 0 {
      assert forall j :: 0 <= j < |p.coeffs| ==> toks[2 + j] == Num(p.coeffs[j]);
      ScanNumTokens(toks, 2, p.coeffs);
    }
  }

  // ---------------------------------------------------------------------
  // Forward pass

  /** The caller's contract on the operand list: at least two blobs, all of
      operand 0's shape. */
  predicate Conformant(bottoms: seq<Tensor>) {
    && 2 <= |bottoms|
    && forall b :: 0 <= b < |bottoms| ==> Valid(bottoms[b]) && SameShape(bottoms[b], bottoms[0])
  }

  /** The elements at channel `q`, position `i` of operands `0 .. n-1`. */
  function Column(bottoms: seq<Tensor>, n: nat, q: nat, i: nat): (col: seq<int>)
    requires Conformant(bottoms) && n <= |bottoms|
    requires q < bottoms[0].c && i < bottoms[0].w * bottoms[0].h
    ensures |col| == n
    ensures forall b :: 0 <= b < n ==> col[b] == bottoms[b].data[q][i]
  {
    seq(n, b requires 0 <= b < n => bottoms[b].data[q][i])
  }

  /** `planes` holds, channel by channel, the fold of operands `0 .. n-1`. */
  predicate Folded(planes: seq<seq<int>>, bottoms: seq<Tensor>, red: Reduction, n: nat)
    requires Conformant(bottoms) && 2 <= n <= |bottoms| && Fits(red, n)
  {
    var size := bottoms[0].w * bottoms[0].h;
    && |planes| == bottoms[0].c
    && forall q :: 0 <= q < |planes| ==>
         && |planes[q]| == size
         && forall i :: 0 <= i < size ==> planes[q][i] == Fold(red, Column(bottoms, n, q, i))
  }

  /** Folding one more operand into a column is one update step. */
  lemma ColumnStep(bottoms: seq<Tensor>, red: Reduction, b: nat, q: nat, i: nat)
    requires Conformant(bottoms) && 2 <= b < |bottoms| && Fits(red, b + 1)
    requires q < bottoms[0].c && i < bottoms[0].w * bottoms[0].h
    ensures Fold(red, Column(bottoms, b + 1, q, i))
         == Step(red, Fold(red, Column(bottoms, b, q, i)), bottoms[b].data[q][i], b)
  {
    assert Column(bottoms, b + 1, q, i)[..b] == Column(bottoms, b, q, i);
  }

  /** The fold of a column is the closed form of its reduction. */
  lemma ClosedForm(red: Reduction, col: seq<int>)
    requires 2 <= |col| && Fits(red, |col|)
    ensures red == Prod ==> Fold(red, col) == Product(col)
    ensures red == Sum ==> Fold(red, col) == Total(col)
    ensures red.WeightedSum? ==> Fold(red, col) == Weighted(col, red.coeffs)
    ensures red == Max ==> IsMaximum(Fold(red, col), col)
  {
    match red
    case Prod => FoldIsProduct(col);
    case Sum => FoldIsTotal(col);
    case WeightedSum(cs) => FoldIsWeighted(col, cs);
    case Max => FoldIsMaximum(col);
  }

  /** Planes holding the fold of every column hold its closed form. */
  lemma AllClosed(planes: seq<seq<int>>, bottoms: seq<Tensor>, red: Reduction)
    requires Conformant(bottoms) && Fits(red, |bottoms|) && |planes| == bottoms[0].c
    requires forall q :: 0 <= q < |planes| ==> |planes[q]| == bottoms[0].w * bottoms[0].h
    requires forall q, i :: 0 <= q < |planes| && 0 <= i < bottoms[0].w * bottoms[0].h ==>
      planes[q][i] == Fold(red, Column(bottoms, |bottoms|, q, i))
    ensures forall q, i :: 0 <= q < |planes| && 0 <= i < bottoms[0].w * bottoms[0].h ==>
      var col := Column(bottoms, |bottoms|, q, i);
      && (red == Prod ==> planes[q][i] == Product(col))
      && (red == Sum ==> planes[q][i] == Total(col))
      && (red.WeightedSum? ==> planes[q][i] == Weighted(col, red.coeffs))
      && (red == Max ==> IsMaximum(planes[q][i], col))
  {
    forall q, i | 0 <= q < |planes| && 0 <= i < bottoms[0].w * bottoms[0].h {
      ClosedForm(red, Column(bottoms, |bottoms|, q, i));
    }
  }

  /** The seed loop body for one channel: element `i` of the output plane
      combines element `i` of operands 0 and 1. */
  method SeedPlane(red: Reduction, x0: seq<int>, x1: seq<int>) returns (plane: seq<int>)
    requires |x0| == |x1| && Fits(red, 2)
    ensures |plane| == |x0|
    ensures forall i :: 0 <= i < |x0| ==> plane[i] == Seed(red, x0[i], x1[i])
  {
    plane := [];
    for i := 0 to |x0|
      invariant |plane| == i
      invariant forall k :: 0 <= k < i ==> plane[k] == Seed(red, x0[k], x1[k])
    {
      plane := plane + [Seed(red, x0[i], x1[i])];
    }
  }

  /** The update loop body for one channel: element `i` of the plane folds in
      element `i` of operand `b`. */
  method StepPlane(red: Reduction, acc: seq<int>, x: seq<int>, b: nat) returns (plane: seq<int>)
    requires |acc| == |x| && Fits(red, b + 1)
    ensures |plane| == |acc|
    ensures forall i :: 0 <= i < |acc| ==> plane[i] == Step(red, acc[i], x[i], b)
  {
    plane := [];
    for i := 0 to |acc|
      invariant |plane| == i
      invariant forall k :: 0 <= k < i ==> plane[k] == Step(red, acc[k], x[k], b)
    {
      plane := plane + [Step(red, acc[i], x[i], b)];
    }
  }

  /** The seed loop of `forward` over all channels: plane `q` element `i`
      combines column `q`, `i` of operands 0 and 1. */
  method SeedChannels(red: Reduction, bottoms: seq<Tensor>) returns (planes: seq<seq<int>>)
    requires Conformant(bottoms) && Fits(red, 2)
    ensures Folded(planes, bottoms, red, 2)
  {
    var w, h, c := bottoms[0].w, bottoms[0].h, bottoms[0].c;
    planes := [];
    for q := 0 to c
      invariant |planes| == q
      invariant forall q' :: 0 <= q' < q ==>
        && |planes[q']| == w * h
        && forall i :: 0 <= i < w * h ==> planes[q'][i] == Fold(red, Column(bottoms, 2, q', i))
    {
      var plane := SeedPlane(red, bottoms[0].data[q], bottoms[1].data[q]);
      planes := planes + [plane];
    }
  }

  /** One update loop of `forward` over all channels: folds operand `b` into
      planes holding the fold of operands `0 .. b-1`. */
  method StepChannels(red: Reduction, bottoms: seq<Tensor>, planes: seq<seq<int>>, b: nat) returns (next: seq<seq<int>>)
    requires Conformant(bottoms) && 2 <= b < |bottoms| && Fits(red, b + 1)
    requires Folded(planes, bottoms, red, b)
    ensures Folded(next, bottoms, red, b + 1)
  {
    var w, h, c := bottoms[0].w, bottoms[0].h, bottoms[0].c;
    next := [];
    for q := 0 to c
      invariant |next| == q
      invariant forall q' :: 0 <= q' < q ==>
        && |next[q']| == w * h
        && forall i :: 0 <= i < w * h ==> next[q'][i] == Fold(red, Column(bottoms, b + 1, q', i))
    {
      var plane := StepChannel(red, bottoms, planes[q], b, q);
      next := next + [plane];
    }
  }

  /** The update loop for channel `q`: from the fold of operands `0 .. b-1`
      to the fold of operands `0 .. b`. */
  method StepChannel(red: Reduction, bottoms: seq<Tensor>, acc: seq<int>, b: nat, q: nat) returns (plane: seq<int>)
    requires Conformant(bottoms) && 2 <= b < |bottoms| && Fits(red, b + 1) && q < bottoms[0].c
    requires |acc| == bottoms[0].w * bottoms[0].h
    requires forall i :: 0 <= i < |acc| ==> acc[i] == Fold(red, Column(bottoms, b, q, i))
    ensures |plane| == |acc|
    ensures forall i :: 0 <= i < |acc| ==> plane[i] == Fold(red, Column(bottoms, b + 1, q, i))
  {
    plane := StepPlane(red, acc, bottoms[b].data[q], b);
    forall i | 0 <= i < |acc|
      ensures plane[i] == Fold(red, Column(bottoms, b + 1, q, i))
    {
      ColumnStep(bottoms, red, b, q, i);
    }
  }

  /** The channel loops of `forward` for reduction `red`: the seed loop over
      operands 0 and 1, then one update loop per later operand. Plane `q`
      element `i` ends as the fold of column `q`, `i` of all operands. */
  method FoldPlanes(red: Reduction, bottoms: seq<Tensor>) returns (planes: seq<seq<int>>)
    requires Conformant(bottoms) && Fits(red, |bottoms|)
    ensures |planes| == bottoms[0].c
    ensures forall q :: 0 <= q < |planes| ==> |planes[q]| == bottoms[0].w * bottoms[0].h
    ensures forall q, i :: 0 <= q < |planes| && 0 <= i < bottoms[0].w * bottoms[0].h ==>
      planes[q][i] == Fold(red, Column(bottoms, |bottoms|, q, i))
  {
    planes := SeedChannels(red, bottoms);
    for b := 2 to |bottoms|
      invariant Folded(planes, bottoms, red, b)
    {
      planes := StepChannels(red, bottoms, planes, b);
    }
  }

  /** `Eltwise::forward`. The output takes operand 0's shape; a failed
      allocation returns -100 before anything is computed; an `op_type` that
      names no operation returns 0 with the output never written; otherwise
      every output element is the in-order fold of the elements at the same
      channel and position of all operands, and of nothing else. */
  method Forward(p: Params, bottoms: seq<Tensor>, allocFails: bool) returns (code: int, top: Blob)
    requires Conformant(bottoms)
    requires p.opType == OperationSum && p.numCoeff != 0 ==> |bottoms| <= |p.coeffs|
    ensures var fails := CreateFails(allocFails, bottoms[0].w * bottoms[0].h * bottoms[0].c);
      && code == (if fails then AllocFailed else 0)
      && (fails ==> top == Empty)
      && (!fails && ReductionOf(p).None? ==> top == Blank(bottoms[0].w, bottoms[0].h, bottoms[0].c))
    ensures !CreateFails(allocFails, bottoms[0].w * bottoms[0].h * bottoms[0].c) && ReductionOf(p).Some? ==>
      && top.Filled? && Valid(top.t) && SameShape(top.t, bottoms[0])
      && forall q, i :: 0 <= q < top.t.c && 0 <= i < top.t.w * top.t.h ==>
           top.t.data[q][i] == Fold(ReductionOf(p).value, Column(bottoms, |bottoms|, q, i))
    ensures !CreateFails(allocFails, bottoms[0].w * bottoms[0].h * bottoms[0].c) && ReductionOf(p).Some? ==>
      forall q, i :: 0 <= q < top.t.c && 0 <= i < top.t.w * top.t.h ==>
        var col := Column(bottoms, |bottoms|, q, i);
        && (ReductionOf(p) == Some(Prod) ==> top.t.data[q][i] == Product(col))
        && (ReductionOf(p) == Some(Sum) ==> top.t.data[q][i] == Total(col))
        && (ReductionOf(p) == Some(WeightedSum(p.coeffs)) ==> top.t.data[q][i] == Weighted(col, p.coeffs))
        && (ReductionOf(p) == Some(Max) ==> IsMaximum(top.t.data[q][i], col))
  {
    var w, h, c := bottoms[0].w, bottoms[0].h, bottoms[0].c;
    if CreateFails(allocFails, w * h * c) {
      return AllocFailed, Empty;
    }
    var op := ReductionOf(p);
    if op.None? {
      return 0, Blank(w, h, c);
    }
    var red := op.value;
    assert Fits(red, |bottoms|);
    var planes := FoldPlanes(red, bottoms);
    AllClosed(planes, bottoms, red);
    return 0, Filled(Tensor(w, h, c, planes));
  }
}
