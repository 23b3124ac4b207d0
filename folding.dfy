/**
 * The folding engine of the INI value object: a greedy line breaker that
 * turns the unfolded value into width-bounded physical-line fragments,
 * breaking at spaces and tabs.
 *
 * The specification is `FoldFrom`: from a loop state (where the next line
 * starts, where its scan resumes, the fragments saved so far) it gives the
 * fragments the loop will end with.  `Scan` is the inner `for` loop, and
 * `Dress` is what `save_portion` stores for a portion: its bytes, after a
 * synthetic space on a continuation line that does not already start with
 * a blank.  `Fold` starts `FoldFrom` in the initial state, and the method
 * `ValueFold` is proved to compute it.
 */
module Folding {

  import opened Bytes

  /** The length of " = ", which the first physical line also carries. */
  const FoldingOverhead: nat := 3

  /**
   * The fold loops forever on a non-empty value whose first byte is blank,
   * so every entry point of the fold demands this of its value.
   */
  predicate Foldable(v: seq<byte>) {
    |v| == 0 || !IsBlank(v[0])
  }

  /** A boundary of 0 is treated as 1: at least one character per line. */
  function EffectiveBoundary(foldBound: nat): (fb: nat)
    ensures fb >= 1
    ensures foldBound > 0 ==> fb == foldBound
    ensures foldBound == 0 ==> fb == 1
  {
    if foldBound == 0 then 1 else foldBound
  }

  /**
   * The width available to the text of physical line number `idx`: the
   * first line shares the boundary with the key and " = ", every later line
   * has the whole boundary.
   */
  function LineBudget(keyLen: nat, fb: nat, idx: nat): nat {
    if idx > 0 then fb
    else if fb > keyLen + FoldingOverhead then fb - keyLen - FoldingOverhead
    else 0
  }

  /** The first-line budget for a stored key length and boundary. */
  function FirstBudget(keyLen: nat, boundary: nat): nat {
    LineBudget(keyLen, EffectiveBoundary(boundary), 0)
  }

  /**
   * How one scan of the value ends.  `Break(next, fold)`: a stop was found at
   * `next` beyond the line's limit (or at position 0), `fold` being the last
   * stop within the limit seen so far.  `Exhausted`: the end of the value
   * was reached within the limit.
   */
  datatype Stop = Break(next: nat, fold: nat) | Exhausted

  /**
   * The scan from position `i`, with `best` the absolute limit of the
   * current line and `fold` the folding place found so far.  Stops are the
   * blanks, the end of the value and, when the limit is 0, position 0.
   */
  function Scan(v: seq<byte>, i: nat, best: nat, fold: nat): Stop
    requires i <= |v|
    decreases |v| - i
  {
    if i < |v| && !IsBlank(v[i]) && !(best == 0 && i == 0) then Scan(v, i + 1, best, fold)
    else if i > best || i == 0 then Break(i, fold)
    else if i == |v| then Exhausted
    else Scan(v, i + 1, best, i)
  }

  /**
   * Where a scan ends.  A break lies at a stop past the limit (or at
   * position 0 when the limit is 0), and its folding place is either the one
   * the scan started with or a blank within the limit before the break.  A
   * scan that runs off the end has a non-empty rest within the limit.
   */
  lemma {:induction false} ScanFacts(v: seq<byte>, i: nat, best: nat, fold: nat)
    requires i <= |v|
    ensures Scan(v, i, best, fold).Break? ==>
      var r := Scan(v, i, best, fold);
      && i <= r.next <= |v|
      && (r.next > best || r.next == 0)
      && (r.fold == fold || (i <= r.fold < r.next && r.fold <= best && IsBlank(v[r.fold])))
      && (r.next == |v| || IsBlank(v[r.next]) || (r.next == 0 && best == 0))
    ensures Scan(v, i, best, fold).Exhausted? ==> 0 < |v| <= best
    decreases |v| - i
  {
    if i < |v| && !IsBlank(v[i]) && !(best == 0 && i == 0) {
      ScanFacts(v, i + 1, best, fold);
    } else if i > best || i == 0 {
    } else if i == |v| {
    } else {
      ScanFacts(v, i + 1, best, i);
    }
  }

  /**
   * The folding place a break reports is the last blank the scan passed:
   * every blank between the start of the scan and the break lies at or
   * before it.
   */
  lemma {:induction false} ScanLastBlank(v: seq<byte>, i: nat, best: nat, fold: nat)
    requires i <= |v|
    ensures Scan(v, i, best, fold).Break? ==>
      var r := Scan(v, i, best, fold);
      forall p :: i <= p < r.next && p < |v| && IsBlank(v[p]) ==> p <= r.fold && (r.fold == fold || i <= r.fold)
    decreases |v| - i
  {
    if i < |v| && !IsBlank(v[i]) && !(best == 0 && i == 0) {
      ScanLastBlank(v, i + 1, best, fold);
    } else if i > best || i == 0 {
    } else if i == |v| {
    } else {
      ScanLastBlank(v, i + 1, best, i);
      ScanFacts(v, i + 1, best, i);
    }
  }

  /**
   * A saved portion: a continuation line that is not empty and does not
   * start with a blank gets one synthetic leading space.
   */
  function Dress(part: seq<byte>, isFirst: bool): Fragment
  {
    if |part| > 0 && !IsBlank(part[0]) && !isFirst then [SPACE] + part else part
  }

  /**
   * The first portion is stored as it is; every later one starts with a
   * blank (its own or the synthetic space), unless it is empty.
   */
  lemma DressShape(part: seq<byte>, isFirst: bool)
    ensures isFirst ==> Dress(part, isFirst) == part
    ensures !isFirst ==> |Dress(part, isFirst)| == 0 || IsBlank(Dress(part, isFirst)[0])
    ensures Dress(part, isFirst) == part
            || (Dress(part, isFirst) == [SPACE] + part && |part| > 0 && !IsBlank(part[0]) && !isFirst)
  {
  }

  /** Where a line that breaks at (`next`, `fold`) is cut. */
  function CutPlace(start: nat, next: nat, fold: nat): nat {
    if fold == start && next != 0 then next else fold
  }

  /**
   * `save_portion`: append one portion to the fragment list, dressed as a
   * continuation line unless the list is still empty.
   */
  function SavePortion(lines: seq<Fragment>, part: seq<byte>): (r: seq<Fragment>)
  {
    lines + [Dress(part, |lines| == 0)]
  }

  /**
   * The fragment list the fold ends with from the loop state (`start`,
   * `resume`, `lines`): the current line starts at `start`, the scan resumes
   * at `resume`, and `lines` holds the fragments emitted so far, so that
   * `|lines|` is the number of the current physical line.
   */
  function FoldFrom(v: seq<byte>, keyLen: nat, fb: nat, start: nat, resume: nat, lines: seq<Fragment>): seq<Fragment>
    requires fb >= 1 && start <= resume <= |v| && Foldable(v)
    decreases |v| - start, if |lines| == 0 then 1 else 0
  {
    ScanFacts(v, resume, start + LineBudget(keyLen, fb, |lines|), start);
    match Scan(v, resume, start + LineBudget(keyLen, fb, |lines|), start)
    case Exhausted => SavePortion(lines, v[start..|v|])
    case Break(next, fold) =>
      var cut := CutPlace(start, next, fold);
      var saved := SavePortion(lines, v[start..cut]);
      if next == |v| then SavePortion(saved, v[cut..|v|])
      else FoldFrom(v, keyLen, fb, cut, next, saved)
  }

  /** The fragments `value_fold` produces for a whole value. */
  function Fold(v: seq<byte>, keyLen: nat, boundary: nat): seq<Fragment>
    requires Foldable(v)
  {
    FoldFrom(v, keyLen, EffectiveBoundary(boundary), 0, 0, [])
  }

  /**
   * Where a round whose scan breaks the line cuts it: between the start of
   * the line and the break, and strictly after the start on every line but
   * the first, so that the fold moves forward.
   */
  lemma CutFacts(v: seq<byte>, keyLen: nat, fb: nat, start: nat, resume: nat, lines: seq<Fragment>,
                 next: nat, fold: nat)
    requires fb >= 1 && start <= resume <= |v| && Foldable(v)
    requires Scan(v, resume, start + LineBudget(keyLen, fb, |lines|), start) == Break(next, fold)
    ensures start <= CutPlace(start, next, fold) <= next <= |v|
    ensures next < |v| && |lines| > 0 ==> CutPlace(start, next, fold) > start
  {
    ScanFacts(v, resume, start + LineBudget(keyLen, fb, |lines|), start);
  }

  /**
   * The cut is the end of the value, or a blank, or (only on an empty first
   * line) the start of the line itself.
   */
  lemma CutIsBlank(v: seq<byte>, keyLen: nat, fb: nat, start: nat, resume: nat, lines: seq<Fragment>,
                   next: nat, fold: nat)
    requires fb >= 1 && start <= resume <= |v| && Foldable(v)
    requires Scan(v, resume, start + LineBudget(keyLen, fb, |lines|), start) == Break(next, fold)
    ensures CutPlace(start, next, fold) < |v| ==>
              IsBlank(v[CutPlace(start, next, fold)]) || (CutPlace(start, next, fold) == start && next == 0)
  {
    ScanFacts(v, resume, start + LineBudget(keyLen, fb, |lines|), start);
  }

  /** A first line with room for at least one byte is never cut before its first byte. */
  lemma FirstCut(v: seq<byte>, keyLen: nat, fb: nat, next: nat, fold: nat)
    requires fb >= 1 && 0 < |v| && Foldable(v) && LineBudget(keyLen, fb, 0) > 0
    requires Scan(v, 0, LineBudget(keyLen, fb, 0), 0) == Break(next, fold)
    ensures CutPlace(0, next, fold) > 0
  {
    ScanFacts(v, 0, LineBudget(keyLen, fb, 0), 0);
  }

  /** A first line with no room at all is cut before its first byte. */
  lemma ZeroBudgetCut(v: seq<byte>, keyLen: nat, fb: nat)
    requires fb >= 1 && Foldable(v) && LineBudget(keyLen, fb, 0) == 0
    ensures Scan(v, 0, LineBudget(keyLen, fb, 0), 0) == Break(0, 0)
  {
  }

  /**
   * Why the fold requires `Foldable`: when the value starts with a blank,
   * every round breaks at position 0 and cuts an empty portion, so the
   * next round starts from the same place again, whatever its budget.
   */
  lemma LeadingBlankStalls(v: seq<byte>, best: nat)
    requires |v| > 0 && IsBlank(v[0])
    ensures Scan(v, 0, best, 0) == Break(0, 0) && CutPlace(0, 0, 0) == 0
  {
  }

  /**
   * A round whose scan breaks the line before the end of the value: the
   * portion before the cut is saved, and the next line starts at the cut.
   */
  lemma FoldFromBreak(v: seq<byte>, keyLen: nat, fb: nat, start: nat, resume: nat, lines: seq<Fragment>,
                      next: nat, fold: nat)
    requires fb >= 1 && start <= resume <= |v| && Foldable(v)
    requires Scan(v, resume, start + LineBudget(keyLen, fb, |lines|), start) == Break(next, fold)
    requires start <= CutPlace(start, next, fold) <= next < |v|
    ensures FoldFrom(v, keyLen, fb, start, resume, lines)
            == FoldFrom(v, keyLen, fb, CutPlace(start, next, fold), next,
                        SavePortion(lines, v[start..CutPlace(start, next, fold)]))
  {
  }

  /**
   * A round whose scan breaks at the end of the value: the portion before
   * the cut and the rest are saved, and the fold is over.
   */
  lemma FoldFromBreakAtEnd(v: seq<byte>, keyLen: nat, fb: nat, start: nat, resume: nat, lines: seq<Fragment>,
                           fold: nat)
    requires fb >= 1 && start <= resume <= |v| && Foldable(v)
    requires Scan(v, resume, start + LineBudget(keyLen, fb, |lines|), start) == Break(|v|, fold)
    requires start <= CutPlace(start, |v|, fold) <= |v|
    ensures FoldFrom(v, keyLen, fb, start, resume, lines)
            == SavePortion(SavePortion(lines, v[start..CutPlace(start, |v|, fold)]),
                           v[CutPlace(start, |v|, fold)..|v|])
  {
  }

  /** A round whose scan runs off the end within the limit saves the rest. */
  lemma FoldFromExhausted(v: seq<byte>, keyLen: nat, fb: nat, start: nat, resume: nat, lines: seq<Fragment>)
    requires fb >= 1 && start <= resume <= |v| && Foldable(v)
    requires Scan(v, resume, start + LineBudget(keyLen, fb, |lines|), start) == Exhausted
    ensures FoldFrom(v, keyLen, fb, start, resume, lines) == SavePortion(lines, v[start..|v|])
  {
  }

  /**
   * One pass of the inner scan: from `resumePlace`, look for the place to
   * break the line that starts at `startPlace` and may reach `bestPlace`.
   * `broke` says the scan stopped at a stop beyond the limit (or at
   * position 0) rather than running off the end of the value; `done` says
   * the end of the value was reached.
   */
  method FindFoldPlace(unfolded: seq<byte>, startPlace: nat, resumePlace: nat, bestPlace: nat)
    returns (broke: bool, nextPlace: nat, foldPlace: nat, done: bool)
    requires startPlace <= resumePlace <= |unfolded|
    ensures broke ==> Scan(unfolded, resumePlace, bestPlace, startPlace) == Break(nextPlace, foldPlace)
    ensures !broke ==> Scan(unfolded, resumePlace, bestPlace, startPlace) == Exhausted
    ensures done <==> nextPlace == |unfolded|
    ensures !broke ==> done
  {
    var len := |unfolded|;
    ghost var scan := Scan(unfolded, resumePlace, bestPlace, startPlace);
    foldPlace, nextPlace := startPlace, startPlace;
    broke, done := false, false;
    var i := resumePlace;
    while i <= len
      invariant resumePlace <= i <= len + 1
      invariant startPlace <= foldPlace && nextPlace <= len
      invariant !done ==> i <= len && scan == Scan(unfolded, i, bestPlace, foldPlace)
      invariant done ==> i == len + 1 && scan == Exhausted && nextPlace == len
      decreases len + 1 - i
    {
      if i == len {
        nextPlace := i;
        done := true;
      } else if IsBlank(unfolded[i]) || (bestPlace == 0 && i == 0) {
        nextPlace := i;
      } else {
        i := i + 1;
        continue;
      }
      if nextPlace > bestPlace || nextPlace == 0 {
        broke := true;
        return;
      }
      foldPlace := nextPlace;
      i := i + 1;
    }
  }

  /**
   * One round of the outer loop of `value_fold`: compute the limit of the
   * current line, scan for the place to break it, save the portion before
   * the break and, when the scan reached the end of the value, the rest.
   * `|lines|` plays the part of the line counter `idx`.
   */
  method FoldRound(unfolded: seq<byte>, keyLen: nat, bound: nat, lines0: seq<Fragment>, start0: nat, resume0: nat)
    returns (lines: seq<Fragment>, startPlace: nat, resumePlace: nat, done: bool)
    requires bound >= 1 && start0 <= resume0 <= |unfolded| && Foldable(unfolded)
    ensures startPlace <= resumePlace <= |unfolded|
    ensures done ==> lines == FoldFrom(unfolded, keyLen, bound, start0, resume0, lines0)
    ensures !done ==> FoldFrom(unfolded, keyLen, bound, start0, resume0, lines0)
                      == FoldFrom(unfolded, keyLen, bound, startPlace, resumePlace, lines)
    ensures !done ==> |lines| == |lines0| + 1 && start0 <= startPlace && (startPlace > start0 || |lines0| == 0)
  {
    lines, startPlace, resumePlace := lines0, start0, resume0;
    var bestPlace: nat, foldLen: nat;
    if |lines| == 0 {
      if bound > keyLen + FoldingOverhead {
        bestPlace := bound - keyLen - FoldingOverhead;
      } else {
        bestPlace := 0;
      }
    } else {
      bestPlace := bound;
    }
    bestPlace := bestPlace + startPlace;
    assert bestPlace == startPlace + LineBudget(keyLen, bound, |lines|);

    var broke, nextPlace, foldPlace;
    broke, nextPlace, foldPlace, done := FindFoldPlace(unfolded, startPlace, resumePlace, bestPlace);

    if broke {
      CutFacts(unfolded, keyLen, bound, startPlace, resumePlace, lines, nextPlace, foldPlace);
      if done {
        FoldFromBreakAtEnd(unfolded, keyLen, bound, startPlace, resumePlace, lines, foldPlace);
      } else {
        FoldFromBreak(unfolded, keyLen, bound, startPlace, resumePlace, lines, nextPlace, foldPlace);
      }
      if foldPlace == startPlace && nextPlace != 0 {
        foldLen := nextPlace - startPlace;
      } else {
        foldLen := foldPlace - startPlace;
      }
      lines := SavePortion(lines, unfolded[startPlace..startPlace + foldLen]);
      startPlace := startPlace + foldLen;
      resumePlace := nextPlace;
    } else {
      FoldFromExhausted(unfolded, keyLen, bound, startPlace, resumePlace, lines);
    }

    if done {
      lines := SavePortion(lines, unfolded[startPlace..nextPlace]);
    }
  }

  /**
   * The fold itself: clear the fragment list, then emit one fragment per
   * physical line, one round at a time, until the scan reaches the end of
   * the value.
   */
  method ValueFold(unfolded: seq<byte>, keyLen: nat, foldBound: nat) returns (lines: seq<Fragment>)
    requires Foldable(unfolded)
    ensures lines == Fold(unfolded, keyLen, foldBound)
  {
    lines := [];
    var bound: nat := foldBound;
    if bound == 0 {
      bound := bound + 1;
    }
    var resumePlace: nat, startPlace: nat := 0, 0;
    var done := false;
    ghost var folded := Fold(unfolded, keyLen, foldBound);
    while !done
      invariant bound == EffectiveBoundary(foldBound)
      invariant startPlace <= resumePlace <= |unfolded|
      invariant !done ==> folded == FoldFrom(unfolded, keyLen, bound, startPlace, resumePlace, lines)
      invariant done ==> lines == folded
      decreases if done then 0 else 1, |unfolded| - startPlace, if |lines| == 0 then 1 else 0
    {
      lines, startPlace, resumePlace, done := FoldRound(unfolded, keyLen, bound, lines, startPlace, resumePlace);
    }
  }
}
