/**
 * The folded form of a value seen from the other side: joining its
 * fragments back into one buffer, and appending a fragment to the folded
 * form by hand.
 */
module Unfolding {

  import opened Bytes

  /**
   * `value_unfold`: walk the fragments in order and append each one to a
   * growing buffer, until the index runs past the last one.
   */
  method ValueUnfold(rawLines: seq<Fragment>) returns (oneline: seq<byte>)
    ensures oneline == Concat(rawLines)
    ensures |oneline| == TotalLength(rawLines)
  {
    oneline := [];
    var i := 0;
    while i < |rawLines|
      invariant 0 <= i <= |rawLines|
      invariant oneline == Concat(rawLines[..i])
    {
      assert rawLines[..i + 1] == rawLines[..i] + [rawLines[i]];
      ConcatSnoc(rawLines[..i], rawLines[i]);
      oneline := oneline + rawLines[i];
      i := i + 1;
    }
    assert rawLines[..i] == rawLines;
    ConcatLength(rawLines);
  }

  /**
   * `value_add_to_arrays`: append one fragment, given as a buffer and the
   * number of its bytes that belong to the value, to the folded form.
   */
  function AddToArrays(strvalue: seq<byte>, len: nat, rawLines: seq<Fragment>): (r: seq<Fragment>)
    requires len <= |strvalue|
    ensures |r| == |rawLines| + 1 && r[..|rawLines|] == rawLines
    ensures r[|rawLines|] == strvalue[..len] && |r[|rawLines|]| == len
  {
    rawLines + [strvalue[..len]]
  }

  /** Unfolding after an append gives the old value followed by the new fragment's bytes. */
  lemma UnfoldAfterAdd(strvalue: seq<byte>, len: nat, rawLines: seq<Fragment>)
    requires len <= |strvalue|
    ensures Concat(AddToArrays(strvalue, len, rawLines)) == Concat(rawLines) + strvalue[..len]
  {
    ConcatSnoc(rawLines, strvalue[..len]);
  }
}
