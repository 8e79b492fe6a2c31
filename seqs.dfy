/** Sequence helpers used by more than one stage: the in-order concatenation of
    delivered blocks and the ascending list of indices whose element passes a test. */
module Seqs {

  /** The concatenation of `blocks` in order, defined from the last block. */
  function Concat<T>(blocks: seq<seq<T>>): seq<T>
  {
    if blocks == [] then [] else Concat(blocks[..|blocks| - 1]) + blocks[|blocks| - 1]
  }

  lemma ConcatSnoc<T>(blocks: seq<seq<T>>, b: seq<T>)
    ensures Concat(blocks + [b]) == Concat(blocks) + b
  {
    assert (blocks + [b])[..|blocks|] == blocks;
  }

  /** Concatenation distributes over appending sequences of blocks. */
  lemma {:induction false} ConcatAppend<T>(xs: seq<seq<T>>, ys: seq<seq<T>>)
    ensures Concat(xs + ys) == Concat(xs) + Concat(ys)
  {
    if ys == [] {
      assert xs + ys == xs;
    } else {
      var init := ys[..|ys| - 1];
      var last := ys[|ys| - 1];
      assert ys == init + [last];
      assert xs + ys == (xs + init) + [last];
      ConcatAppend(xs, init);
      ConcatSnoc(xs + init, last);
      ConcatSnoc(init, last);
    }
  }

  /** Delivering more blocks only ever extends the concatenation. */
  lemma ConcatPrefix<T>(blocks: seq<seq<T>>, i: nat, j: nat)
    requires i <= j <= |blocks|
    ensures Concat(blocks[..i]) <= Concat(blocks[..j])
  {
    assert blocks[..j] == blocks[..i] + blocks[i..j];
    ConcatAppend(blocks[..i], blocks[i..j]);
  }

  /** Total length of the blocks. */
  function TotalLength<T>(blocks: seq<seq<T>>): nat
  {
    if blocks == [] then 0 else TotalLength(blocks[..|blocks| - 1]) + |blocks[|blocks| - 1]|
  }

  /** The concatenation is empty exactly when every block is empty. */
  lemma {:induction false} ConcatLength<T>(blocks: seq<seq<T>>)
    ensures |Concat(blocks)| == TotalLength(blocks)
    ensures Concat(blocks) == [] <==> forall k :: 0 <= k < |blocks| ==> blocks[k] == []
  {
    if blocks != [] {
      var init := blocks[..|blocks| - 1];
      ConcatLength(init);
      assert forall k :: 0 <= k < |init| ==> init[k] == blocks[k];
    }
  }

  /** The indices `k` of `s`, ascending, for which `p(s[k])` holds. */
  function IndicesWhere<T>(s: seq<T>, p: T -> bool): (r: seq<nat>)
    ensures forall a, b :: 0 <= a < b < |r| ==> r[a] < r[b]
    ensures forall j :: 0 <= j < |r| ==> r[j] < |s| && p(s[r[j]])
    ensures forall k :: 0 <= k < |s| && p(s[k]) ==> k in r
  {
    if s == [] then []
    else
      var init := s[..|s| - 1];
      var rest := IndicesWhere(init, p);
      assert forall j :: 0 <= j < |rest| ==> s[rest[j]] == init[rest[j]];
      if p(s[|s| - 1]) then rest + [|s| - 1] else rest
  }

  /** Adding one element extends the index list by that element's index when it passes. */
  lemma IndicesWhereSnoc<T>(s: seq<T>, x: T, p: T -> bool)
    ensures IndicesWhere(s + [x], p) == IndicesWhere(s, p) + (if p(x) then [|s|] else [])
  {
    assert (s + [x])[..|s|] == s;
  }

  /** Removing an element before the last one commutes with appending the last. */
  lemma RemoveBeforeLast<T>(init: seq<T>, last: T, j: nat)
    requires j < |init|
    ensures (init + [last])[..j] + (init + [last])[j + 1..] == (init[..j] + init[j + 1..]) + [last]
  {
    assert (init + [last])[..j] == init[..j];
    assert (init + [last])[j + 1..] == init[j + 1..] + [last];
  }
}
