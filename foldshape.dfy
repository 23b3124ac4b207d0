/**
 * The shape of the folded lines: every continuation line starts with a
 * blank, and every fragment fits the room its line leaves or is a single
 * word that no break could shorten.
 */
module FoldShape {

  import opened Bytes
  import opened Folding

  /** No blank after the first byte: nothing a later break could split. */
  predicate Word(f: seq<byte>) {
    forall p :: 0 < p < |f| ==> !IsBlank(f[p])
  }

  /** A fragment fits `w` bytes, or is one unbreakable word. */
  predicate Fits(f: seq<byte>, w: nat) {
    |f| <= w || Word(f)
  }

  /**
   * The room for line `j`: its budget, plus the synthetic space when the
   * first line stayed empty and the value starts on line 1.
   */
  function Width(keyLen: nat, fb: nat, j: nat, firstEmpty: bool): nat {
    LineBudget(keyLen, fb, j) + (if j == 1 && firstEmpty then 1 else 0)
  }

  /** What the fold promises about its fragments. */
  predicate WellFolded(keyLen: nat, fb: nat, r: seq<Fragment>) {
    (forall j :: 0 <= j < |r| ==> Fits(r[j], Width(keyLen, fb, j, |r[0]| == 0)))
    && (forall j :: 0 < j < |r| ==> |r[j]| == 0 || IsBlank(r[j][0]))
  }

  /**
   * What holds of the loop state between two rounds: the bytes between the
   * line start and the resume place hold no blank, and the line starts at a
   * blank unless it is the value's first byte on line 0 or on line 1 after
   * an empty line 0.
   */
  predicate Reach(v: seq<byte>, start: nat, resume: nat, lines: seq<Fragment>) {
    start <= resume <= |v|
    && (forall p :: start < p < resume ==> !IsBlank(v[p]))
    && (|lines| == 0 ==> start == 0 && resume == 0)
    && (|lines| > 0 && start < |v| && !IsBlank(v[start]) ==> start == 0 && |lines| == 1 && |lines[0]| == 0)
  }

  /** A word stays a word when it gets the synthetic space. */
  lemma WordDress(part: seq<byte>, isFirst: bool)
    requires Word(part)
    ensures Word(Dress(part, isFirst))
  {
    var d := Dress(part, isFirst);
    if d != part {
      forall p | 0 < p < |d|
        ensures !IsBlank(d[p])
      {
        assert d[p] == part[p - 1];
      }
    }
  }

  /** Appending a fragment that fits its line, and starts with a blank on a continuation line, keeps the shape. */
  lemma SaveKeeps(keyLen: nat, fb: nat, lines: seq<Fragment>, d: Fragment)
    requires WellFolded(keyLen, fb, lines)
    requires Fits(d, Width(keyLen, fb, |lines|, if |lines| == 0 then |d| == 0 else |lines[0]| == 0))
    requires |lines| > 0 ==> |d| == 0 || IsBlank(d[0])
    ensures WellFolded(keyLen, fb, lines + [d])
  {
    var r := lines + [d];
    forall j | 0 <= j < |r|
      ensures Fits(r[j], Width(keyLen, fb, j, |r[0]| == 0))
    {
      if j < |lines| {
        assert r[j] == lines[j] && r[0] == lines[0];
      }
    }
  }

  /** Saving a portion that fits its line's budget keeps the shape. */
  lemma SavePortionKeeps(v: seq<byte>, keyLen: nat, fb: nat, start: nat, resume: nat, lines: seq<Fragment>, hi: nat)
    requires Reach(v, start, resume, lines)
    requires start <= hi <= |v|
    requires WellFolded(keyLen, fb, lines)
    requires Fits(v[start..hi], LineBudget(keyLen, fb, |lines|))
    ensures WellFolded(keyLen, fb, SavePortion(lines, v[start..hi]))
  {
    var part := v[start..hi];
    var d := Dress(part, |lines| == 0);
    DressShape(part, |lines| == 0);
    if Word(part) {
      WordDress(part, |lines| == 0);
    } else if d != part {
      assert part[0] == v[start];
    }
    SaveKeeps(keyLen, fb, lines, d);
  }

  /** Saving a word as a continuation line keeps the shape. */
  lemma SaveWordKeeps(keyLen: nat, fb: nat, lines: seq<Fragment>, part: seq<byte>)
    requires |lines| > 0
    requires WellFolded(keyLen, fb, lines)
    requires Word(part)
    ensures WellFolded(keyLen, fb, SavePortion(lines, part))
  {
    DressShape(part, false);
    WordDress(part, false);
    SaveKeeps(keyLen, fb, lines, Dress(part, false));
  }

  /** A round whose scan reaches the end within the limit saves a portion within budget. */
  lemma ExhaustedFits(v: seq<byte>, keyLen: nat, fb: nat, start: nat, resume: nat, lines: seq<Fragment>)
    requires fb >= 1 && start <= resume <= |v| && Foldable(v)
    requires Scan(v, resume, start + LineBudget(keyLen, fb, |lines|), start) == Exhausted
    ensures Fits(v[start..|v|], LineBudget(keyLen, fb, |lines|))
  {
    ScanFacts(v, resume, start + LineBudget(keyLen, fb, |lines|), start);
  }

  /** A broken line is cut within budget at a blank, or after one whole word. */
  lemma CutFits(v: seq<byte>, keyLen: nat, fb: nat, start: nat, resume: nat, lines: seq<Fragment>,
                next: nat, fold: nat)
    requires fb >= 1 && Foldable(v) && Reach(v, start, resume, lines)
    requires Scan(v, resume, start + LineBudget(keyLen, fb, |lines|), start) == Break(next, fold)
    ensures start <= CutPlace(start, next, fold) <= |v|
    ensures Fits(v[start..CutPlace(start, next, fold)], LineBudget(keyLen, fb, |lines|))
  {
    var best := start + LineBudget(keyLen, fb, |lines|);
    ScanFacts(v, resume, best, start);
    ScanLastBlank(v, resume, best, start);
    var cut := CutPlace(start, next, fold);
    if fold == start && next != 0 {
      var part := v[start..cut];
      forall p | 0 < p < |part|
        ensures !IsBlank(part[p])
      {
        assert part[p] == v[start + p];
      }
    }
  }

  /** What is left after the last cut of a scan that broke at the end is one word. */
  lemma TailWord(v: seq<byte>, keyLen: nat, fb: nat, start: nat, resume: nat, lines: seq<Fragment>, fold: nat)
    requires fb >= 1 && Foldable(v) && Reach(v, start, resume, lines)
    requires Scan(v, resume, start + LineBudget(keyLen, fb, |lines|), start) == Break(|v|, fold)
    ensures start <= CutPlace(start, |v|, fold) <= |v|
    ensures Word(v[CutPlace(start, |v|, fold)..|v|])
  {
    var best := start + LineBudget(keyLen, fb, |lines|);
    ScanFacts(v, resume, best, start);
    ScanLastBlank(v, resume, best, start);
    var cut := CutPlace(start, |v|, fold);
    var tail := v[cut..|v|];
    forall p | 0 < p < |tail|
      ensures !IsBlank(tail[p])
    {
      assert tail[p] == v[cut + p];
    }
  }

  /** A round that breaks before the end leads to a state that again satisfies `Reach`. */
  lemma NextReach(v: seq<byte>, keyLen: nat, fb: nat, start: nat, resume: nat, lines: seq<Fragment>,
                  next: nat, fold: nat)
    requires fb >= 1 && Foldable(v) && Reach(v, start, resume, lines)
    requires Scan(v, resume, start + LineBudget(keyLen, fb, |lines|), start) == Break(next, fold)
    requires start <= CutPlace(start, next, fold) <= next < |v|
    ensures Reach(v, CutPlace(start, next, fold), next, SavePortion(lines, v[start..CutPlace(start, next, fold)]))
  {
    var best := start + LineBudget(keyLen, fb, |lines|);
    ScanFacts(v, resume, best, start);
    ScanLastBlank(v, resume, best, start);
    CutFacts(v, keyLen, fb, start, resume, lines, next, fold);
    CutIsBlank(v, keyLen, fb, start, resume, lines, next, fold);
    var cut := CutPlace(start, next, fold);
    var saved := SavePortion(lines, v[start..cut]);
    if !IsBlank(v[cut]) {
      assert cut == 0 && |lines| == 0;
      assert saved[0] == Dress(v[0..0], true);
    }
  }

  /** From any state that satisfies `Reach`, the fold keeps the shape. */
  lemma {:induction false} FoldFromShape(v: seq<byte>, keyLen: nat, fb: nat, start: nat, resume: nat,
                                         lines: seq<Fragment>)
    requires fb >= 1 && Foldable(v) && Reach(v, start, resume, lines)
    requires WellFolded(keyLen, fb, lines)
    ensures WellFolded(keyLen, fb, FoldFrom(v, keyLen, fb, start, resume, lines))
    decreases |v| - start, if |lines| == 0 then 1 else 0
  {
    var best := start + LineBudget(keyLen, fb, |lines|);
    match Scan(v, resume, best, start) {
      case Exhausted =>
        FoldFromExhausted(v, keyLen, fb, start, resume, lines);
        ExhaustedFits(v, keyLen, fb, start, resume, lines);
        SavePortionKeeps(v, keyLen, fb, start, resume, lines, |v|);
      case Break(next, fold) =>
        CutFacts(v, keyLen, fb, start, resume, lines, next, fold);
        var cut := CutPlace(start, next, fold);
        CutFits(v, keyLen, fb, start, resume, lines, next, fold);
        SavePortionKeeps(v, keyLen, fb, start, resume, lines, cut);
        var saved := SavePortion(lines, v[start..cut]);
        if next == |v| {
          FoldFromBreakAtEnd(v, keyLen, fb, start, resume, lines, fold);
          TailWord(v, keyLen, fb, start, resume, lines, fold);
          SaveWordKeeps(keyLen, fb, saved, v[cut..|v|]);
        } else {
          FoldFromBreak(v, keyLen, fb, start, resume, lines, next, fold);
          NextReach(v, keyLen, fb, start, resume, lines, next, fold);
          FoldFromShape(v, keyLen, fb, cut, next, saved);
        }
    }
  }

  /**
   * Every continuation line starts with a blank, and every fragment fits
   * the room its line leaves (the first line after the key and " = ") or is
   * a single word.
   */
  lemma FoldWellFolded(v: seq<byte>, keyLen: nat, boundary: nat)
    requires Foldable(v)
    ensures WellFolded(keyLen, EffectiveBoundary(boundary), Fold(v, keyLen, boundary))
  {
    FoldFromShape(v, keyLen, EffectiveBoundary(boundary), 0, 0, []);
  }
}
