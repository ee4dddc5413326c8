/** The three sources a layer reads its parameters from:
    - a text stream scanned with `fscanf`, modelled as a sequence of tokens;
    - a binary stream read with `fread`, modelled as bytes plus a position;
    - a memory cursor, modelled as bytes plus the cursor's offset. */
module ParamIO {
  import opened Wrappers
  import opened Bytes

  /** A whitespace-separated text token: one that `%d`/`%f` scans as a
      number, or one it cannot scan. */
  datatype Token = Num(value: int) | Junk

  /** Whether the conversion at token `k` succeeds; past the end it fails. */
  predicate ScansNum(toks: seq<Token>, k: int) {
    0 <= k < |toks| && toks[k].Num?
  }

  /** `n` successive numeric scans starting at token `k`: stops at the first
      scan that fails. */
  function ScanNums(toks: seq<Token>, k: nat, n: nat): (r: Option<seq<int>>)
    decreases n
    ensures r.Some? <==> forall j :: k <= j < k + n ==> ScansNum(toks, j)
    ensures r.Some? ==> |r.value| == n && forall j :: k <= j < k + n ==> ScansNum(toks, j) && r.value[j - k] == toks[j].value
  {
    if n == 0 then Some([])
    else if !ScansNum(toks, k) then None
    else match ScanNums(toks, k + 1, n - 1)
      case None => None
      case Some(rest) => Some([toks[k].value] + rest)
  }

  /** Scanning the text form of `vs` at position `k` yields `vs`. */
  lemma ScanNumTokens(toks: seq<Token>, k: nat, vs: seq<int>)
    requires k + |vs| <= |toks| && forall j :: 0 <= j < |vs| ==> toks[k + j] == Num(vs[j])
    ensures ScanNums(toks, k, |vs|) == Some(vs)
  {
    forall j | k <= j < k + |vs|
      ensures ScansNum(toks, j) && toks[j].value == vs[j - k]
    {
      assert toks[k + (j - k)] == Num(vs[j - k]);
    }
    var r := ScanNums(toks, k, |vs|);
    assert r.Some? && |r.value| == |vs|;
    forall i | 0 <= i < |vs|
      ensures r.value[i] == vs[i]
    {
      assert r.value[(k + i) - k] == toks[k + i].value;
    }
    assert r.value == vs;
  }

  /** The text form of `vs`, one token per value. */
  function NumTokens(vs: seq<int>): (toks: seq<Token>)
    ensures |toks| == |vs|
    ensures forall i :: 0 <= i < |vs| ==> toks[i] == Num(vs[i])
  {
    seq(|vs|, i requires 0 <= i < |vs| => Num(vs[i]))
  }

  /** One `fread` of a 4-byte item at position `k`. When fewer than four bytes
      are left the destination is indeterminate: `junk(k)`, an arbitrary value
      chosen separately for every offset, so distinct short reads need not
      agree. A complete read yields the word whose stored bytes are exactly
      the four bytes at `k`. */
  function ReadWord(s: seq<byte>, k: int, junk: int -> int): (v: int)
    ensures 0 <= k && k + 4 <= |s| ==> IsInt32(v) && Int32Bytes(v) == s[k .. k + 4]
    ensures !(0 <= k && k + 4 <= |s|) ==> v == junk(k)
  {
    if 0 <= k && k + 4 <= |s| then WrittenRead(s, k); Int32At(s, k) else junk(k)
  }

  /** The `n` words stored back to back from offset `k`. */
  function Words(s: seq<byte>, k: int, n: nat): (ws: seq<int>)
    requires 0 <= k && k + 4 * n <= |s|
    ensures |ws| == n
    ensures forall i :: 0 <= i < n ==> ws[i] == Int32At(s, k + 4 * i)
  {
    seq(n, i requires 0 <= i < n => Int32At(s, k + 4 * i))
  }

  /** The byte layout of a sequence of words, back to back. */
  function WordBytes(ws: seq<int>): (bs: seq<byte>)
    requires forall i :: 0 <= i < |ws| ==> IsInt32(ws[i])
    ensures |bs| == 4 * |ws|
  {
    if ws == [] then [] else Int32Bytes(ws[0]) + WordBytes(ws[1..])
  }

  /** Word `i` of `WordBytes(ws)` occupies bytes `4i .. 4i+4`. */
  lemma {:induction false} WordBytesWindow(ws: seq<int>, i: nat)
    requires forall j :: 0 <= j < |ws| ==> IsInt32(ws[j])
    requires i < |ws|
    ensures WordBytes(ws)[4 * i .. 4 * i + 4] == Int32Bytes(ws[i])
  {
    if i > 0 {
      WordBytesWindow(ws[1..], i - 1);
      assert WordBytes(ws) == Int32Bytes(ws[0]) + WordBytes(ws[1..]);
      assert WordBytes(ws)[4 * i .. 4 * i + 4] == WordBytes(ws[1..])[4 * (i - 1) .. 4 * (i - 1) + 4];
    }
  }

  /** Words laid out by `WordBytes` anywhere inside a larger buffer read back
      unchanged. */
  lemma WordsOfWordBytes(pre: seq<byte>, mid: seq<byte>, post: seq<byte>, ws: seq<int>)
    requires forall j :: 0 <= j < |ws| ==> IsInt32(ws[j])
    requires mid == WordBytes(ws)
    ensures Words(pre + mid + post, |pre|, |ws|) == ws
  {
    forall i | 0 <= i < |ws|
      ensures Int32At(pre + mid + post, |pre| + 4 * i) == ws[i]
    {
      WordInside(pre, mid, post, ws, i);
    }
    var rs := Words(pre + mid + post, |pre|, |ws|);
    assert forall i :: 0 <= i < |ws| ==> rs[i] == ws[i];
  }

  lemma WordInside(pre: seq<byte>, mid: seq<byte>, post: seq<byte>, ws: seq<int>, i: nat)
    requires forall j :: 0 <= j < |ws| ==> IsInt32(ws[j])
    requires mid == WordBytes(ws) && i < |ws|
    ensures Int32At(pre + mid + post, |pre| + 4 * i) == ws[i]
  {
    WordBytesWindow(ws, i);
    ReadInside(pre, mid, post, 4 * i, ws[i]);
  }

  /** A word stored at offset `j` of a middle part is read at offset
      `|pre| + j` of the whole buffer. */
  lemma ReadInside(pre: seq<byte>, mid: seq<byte>, post: seq<byte>, j: nat, v: int)
    requires IsInt32(v)
    requires j + 4 <= |mid| && mid[j .. j + 4] == Int32Bytes(v)
    ensures Int32At(pre + mid + post, |pre| + j) == v
  {
    assert (pre + mid + post)[|pre| + j .. |pre| + j + 4] == mid[j .. j + 4];
    ReadsBack(pre + mid + post, |pre| + j, v);
  }
}
