/** The ArgMax layer: emits the indices of the `topk` largest elements of its
    input, largest first, optionally preceded by their values. */
module ArgMax {
  import opened Wrappers
  import opened Bytes
  import opened ParamIO
  import opened TopK
  import opened Tensors

  /** The layer's parameters: `out_max_val` and `topk`. */
  datatype Params = Params(outMaxVal: int, topk: int)

  // ---------------------------------------------------------------------
  // Parameter loaders

  /** `load_param(FILE*)`: scans `out_max_val topk`; anything but two
      successful conversions is a parse failure. */
  function LoadParamText(toks: seq<Token>): (r: Loaded<Params>)
    ensures r.Ok? <==> ScansNum(toks, 0) && ScansNum(toks, 1)
    ensures r.Err? ==> r.code == ParseFailed
    ensures r.Ok? ==> r.params == Params(toks[0].value, toks[1].value) && r.next == 2
  {
    if ScansNum(toks, 0) && ScansNum(toks, 1) then Ok(Params(toks[0].value, toks[1].value), 2)
    else Err(ParseFailed)
  }

  /** `load_param_bin(FILE*)`: reads two words and always succeeds; a short
      stream leaves each field it could not fill indeterminate (`junk` at
      that field's offset). */
  function LoadParamBin(s: seq<byte>, pos: nat, junk: int -> int): (r: Loaded<Params>)
    requires pos <= |s|
    ensures r.Ok? && pos <= r.next <= |s|
    ensures r.params == Params(ReadWord(s, pos, junk), ReadWord(s, pos + 4, junk))
  {
    Ok(Params(ReadWord(s, pos, junk), ReadWord(s, pos + 4, junk)),
       if pos + 8 <= |s| then pos + 8 else |s|)
  }

  /** The two fields of an empty stream are indeterminate independently: with
      the indeterminate value at offset `k` taken to be `k`, they differ. */
  lemma ShortReadsIndependent()
    ensures LoadParamBin([], 0, k => k) == Ok(Params(0, 4), 0)
  {
  }

  /** `load_param(const unsigned char*&)`: reads two words and advances the
      cursor by exactly 8 bytes; it always succeeds. */
  function LoadParamMem(mem: seq<byte>, pos: int): (r: Loaded<Params>)
    requires 0 <= pos && pos + 8 <= |mem|
    ensures r.Ok? && r.next == pos + 8
    ensures r.params == Params(Int32At(mem, pos), Int32At(mem, pos + 4))
  {
    Ok(Params(Int32At(mem, pos), Int32At(mem, pos + 4)), pos + 8)
  }

  predicate Encodable(p: Params) {
    IsInt32(p.outMaxVal) && IsInt32(p.topk)
  }

  /** The binary record shared by the stream and memory-cursor forms. */
  function Encode(p: Params): (bs: seq<byte>)
    requires Encodable(p)
  {
    WordBytes([p.outMaxVal, p.topk])
  }

  /** The text record. */
  function EncodeText(p: Params): seq<Token> {
    [Num(p.outMaxVal), Num(p.topk)]
  }

  /** Reading the binary record of `p` through a memory cursor yields `p`
      and moves the cursor past the record, wherever it sits. */
  lemma MemRoundTrip(pre: seq<byte>, rec: seq<byte>, post: seq<byte>, p: Params)
    requires Encodable(p) && rec == Encode(p)
    ensures |pre| + 8 <= |pre + rec + post|
    ensures LoadParamMem(pre + rec + post, |pre|) == Ok(p, |pre| + |rec|)
  {
    WordsOfWordBytes(pre, rec, post, [p.outMaxVal, p.topk]);
    var s := pre + rec + post;
    assert Int32At(s, |pre|) == p.outMaxVal;
    assert Int32At(s, |pre| + 4) == p.topk;
  }

  /** On a complete record the stream and cursor loaders agree. */
  lemma BinMatchesMem(s: seq<byte>, pos: nat, junk: int -> int)
    requires pos + 8 <= |s|
    ensures LoadParamBin(s, pos, junk) == LoadParamMem(s, pos)
  {
  }

  /** Reading the binary record of `p` from a stream yields `p`. */
  lemma BinRoundTrip(rec: seq<byte>, post: seq<byte>, p: Params, junk: int -> int)
    requires Encodable(p) && rec == Encode(p)
    ensures LoadParamBin(rec + post, 0, junk) == Ok(p, 8)
  {
    MemRoundTrip([], rec, post, p);
    assert [] + rec + post == rec + post;
  }

  /** Scanning the text record of `p` yields `p`. */
  lemma TextRoundTrip(p: Params, post: seq<Token>)
    ensures LoadParamText(EncodeText(p) + post) == Ok(p, 2)
  {
  }

  // ---------------------------------------------------------------------
  // Forward pass

  /** The output has one row of indices, preceded by a row of values when
      `out_max_val` is set. */
  function Rows(p: Params): (n: nat)
    ensures 1 <= n <= 2
    ensures n == 2 <==> p.outMaxVal != 0
  {
    if p.outMaxVal != 0 then 2 else 1
  }

  /** The row of indices of an output laid out for `p`. */
  function IndexRow(p: Params, out: seq<int>): (idx: seq<int>)
    requires 0 <= p.topk && |out| == p.topk * Rows(p)
    ensures |idx| == p.topk
  {
    if p.outMaxVal != 0 then out[p.topk..] else out
  }

  /** The (value, index) pairs named by a row of indices. */
  function Selected(xs: seq<int>, idx: seq<int>): (sel: seq<Entry>)
    requires forall i :: 0 <= i < |idx| ==> 0 <= idx[i] < |xs|
    ensures |sel| == |idx|
  {
    seq(|idx|, i requires 0 <= i < |idx| => Entry(xs[idx[i]], idx[i]))
  }

  /** Each selected pair is an input element with its own index. */
  lemma SelectedPairs(xs: seq<int>, sel: seq<Entry>)
    requires forall t :: 0 <= t < |sel| ==> sel[t] in Pairs(xs)
    ensures forall t :: 0 <= t < |sel| ==> 0 <= sel[t].index < |xs| && sel[t].value == xs[sel[t].index]
  {
    var vec := Pairs(xs);
    forall t | 0 <= t < |sel|
      ensures 0 <= sel[t].index < |xs| && sel[t].value == xs[sel[t].index]
    {
      var j :| 0 <= j < |vec| && vec[j] == sel[t];
    }
  }

  /** The output loops: with `out_max_val`, slot `i` gets the value of the
      i-th pair and slot `topk + i` its index; otherwise slot `i` gets the
      index. */
  method Emit(p: Params, sel: seq<Entry>) returns (out: seq<int>)
    requires 0 <= p.topk == |sel|
    ensures |out| == p.topk * Rows(p)
    ensures forall i :: 0 <= i < p.topk ==> IndexRow(p, out)[i] == sel[i].index
    ensures p.outMaxVal != 0 ==> forall i :: 0 <= i < p.topk ==> out[i] == sel[i].value
  {
    var k := p.topk;
    var vals: seq<int> := [];
    var idx: seq<int> := [];
    for i := 0 to k
      invariant |vals| == i && |idx| == i
      invariant forall j :: 0 <= j < i ==> vals[j] == sel[j].value && idx[j] == sel[j].index
    {
      vals := vals + [sel[i].value];
      idx := idx + [sel[i].index];
    }
    out := if p.outMaxVal != 0 then vals + idx else idx;
    assert IndexRow(p, out) == idx;
  }

  /** What the emitted row of indices says about the input, given that the
      pairs it was copied from are the selection `partial_sort` made. */
  lemma EmittedIndices(input: seq<int>, sel: seq<Entry>, idx: seq<int>)
    requires IsTopK(Pairs(input), sel)
    requires |idx| == |sel| && forall i :: 0 <= i < |sel| ==> idx[i] == sel[i].index
    ensures forall i :: 0 <= i < |idx| ==> 0 <= idx[i] < |input| && sel[i].value == input[idx[i]]
    ensures forall i, j :: 0 <= i < j < |idx| ==> idx[i] != idx[j]
    ensures Selected(input, idx) == sel
  {
    SelectedPairs(input, sel);
    forall i, j | 0 <= i < j < |idx|
      ensures idx[i] != idx[j]
    {
      assert Greater(sel[i], sel[j]);
    }
  }

  /** `ArgMax::forward` on the `size` elements of its input. The output is
      `topk` wide and one or two rows high; a failed allocation, and so any
      `topk == 0`, returns -100 before anything is computed. Otherwise the index row lists distinct
      in-range indices whose pairs are the `topk` largest (value, index)
      pairs, largest first, and with `out_max_val` slot `i` holds the value at
      the index in slot `topk + i`. `ArgMax::forward` leaves `0 <= topk <= size`
      to its caller. */
  method Forward(p: Params, input: seq<int>, allocFails: bool) returns (code: int, top: Blob)
    requires !allocFails ==> 0 <= p.topk <= |input|
    ensures code == if CreateFails(allocFails, p.topk * Rows(p)) then AllocFailed else 0
    ensures CreateFails(allocFails, p.topk * Rows(p)) ==> top == Empty
    ensures !CreateFails(allocFails, p.topk * Rows(p)) ==>
      && top.Filled? && Valid(top.t)
      && top.t.w == p.topk && top.t.h == Rows(p) && top.t.c == 1
    ensures !CreateFails(allocFails, p.topk * Rows(p)) ==>
      var out := top.t.data[0];
      var idx := IndexRow(p, out);
      && (forall i :: 0 <= i < p.topk ==> 0 <= idx[i] < |input|)
      && (forall i, j :: 0 <= i < j < p.topk ==> idx[i] != idx[j])
      && IsTopK(Pairs(input), Selected(input, idx))
      && (p.outMaxVal != 0 ==> forall i :: 0 <= i < p.topk ==> out[i] == input[idx[i]])
  {
    if CreateFails(allocFails, p.topk * Rows(p)) {
      return AllocFailed, Empty;
    }
    var sel := PartialSort(Pairs(input), p.topk);
    var out := Emit(p, sel);
    EmittedIndices(input, sel, IndexRow(p, out));
    return 0, Filled(Tensor(p.topk, Rows(p), 1, [out]));
  }
}
