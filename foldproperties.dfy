/**
 * What the fold guarantees about the fragments it produces: together they
 * give back the value, every continuation line starts with a blank, and
 * every fragment fits its line or is a single word.
 */
module FoldProperties {

  import opened Bytes
  import opened Folding

  /**
   * The byte the fold adds in front of the rest of the value from a loop
   * state: a synthetic space, when the rest goes onto a continuation line
   * (or onto the line after an empty first one) and does not start with a
   * blank.
   */
  function Lead(v: seq<byte>, keyLen: nat, fb: nat, start: nat, lines: seq<Fragment>): seq<byte> {
    if start < |v| && !IsBlank(v[start]) && (|lines| > 0 || LineBudget(keyLen, fb, 0) == 0) then [SPACE] else []
  }

  /** A non-empty portion is stored as the lead of its state followed by its bytes. */
  lemma DressIsLead(v: seq<byte>, keyLen: nat, fb: nat, start: nat, hi: nat, lines: seq<Fragment>)
    requires start < hi <= |v|
    requires |lines| == 0 ==> LineBudget(keyLen, fb, 0) > 0
    ensures Dress(v[start..hi], |lines| == 0) == Lead(v, keyLen, fb, start, lines) + v[start..hi]
  {
  }

  /** A cut before the end of the value: the portion and what the next line adds in front. */
  lemma CutLead(v: seq<byte>, keyLen: nat, fb: nat, start: nat, cut: nat, lines: seq<Fragment>)
    requires start <= cut < |v|
    requires IsBlank(v[cut]) || cut == start
    requires |lines| == 0 ==> start == 0 && (cut > start <==> LineBudget(keyLen, fb, 0) > 0)
    ensures Dress(v[start..cut], |lines| == 0) + Lead(v, keyLen, fb, cut, SavePortion(lines, v[start..cut]))
            == Lead(v, keyLen, fb, start, lines) + v[start..cut]
  {
    if cut > start {
      DressIsLead(v, keyLen, fb, start, cut, lines);
    } else {
      assert v[start..cut] == [];
    }
  }

  /** A cut at the end of a scan that reached the end: the last two fragments spell the rest. */
  lemma EndLead(v: seq<byte>, keyLen: nat, fb: nat, start: nat, cut: nat, lines: seq<Fragment>)
    requires start <= cut <= |v|
    requires cut < |v| ==> IsBlank(v[cut]) || cut == start
    requires |lines| == 0 ==> start == 0 && (cut > start ==> LineBudget(keyLen, fb, 0) > 0)
    requires |lines| == 0 && cut == start && start < |v| ==> LineBudget(keyLen, fb, 0) == 0
    ensures Dress(v[start..cut], |lines| == 0) + Dress(v[cut..|v|], false)
            == Lead(v, keyLen, fb, start, lines) + v[start..]
  {
    var part := v[start..cut];
    var rest := v[cut..|v|];
    var lead := Lead(v, keyLen, fb, start, lines);
    assert v[start..] == part + rest;
    if cut > start {
      DressIsLead(v, keyLen, fb, start, cut, lines);
      assert Dress(rest, false) == rest by {
        if |rest| > 0 {
          assert rest[0] == v[cut];
        }
      }
      AppendAssoc(lead, part, rest);
    } else {
      assert |part| == 0 && rest == v[start..];
      assert Dress(rest, false) == lead + rest by {
        if |rest| > 0 {
          assert rest[0] == v[start];
        }
      }
    }
  }

  /** The round trip for a round whose scan reaches the end within the limit. */
  lemma ConcatExhausted(v: seq<byte>, keyLen: nat, fb: nat, start: nat, resume: nat, lines: seq<Fragment>)
    requires fb >= 1 && start <= resume <= |v| && Foldable(v)
    requires |lines| == 0 ==> start == 0 && resume == 0
    requires Scan(v, resume, start + LineBudget(keyLen, fb, |lines|), start) == Exhausted
    ensures Concat(FoldFrom(v, keyLen, fb, start, resume, lines))
            == Concat(lines) + (Lead(v, keyLen, fb, start, lines) + v[start..])
  {
    ScanFacts(v, resume, start + LineBudget(keyLen, fb, |lines|), start);
    FoldFromExhausted(v, keyLen, fb, start, resume, lines);
    var d := Dress(v[start..|v|], |lines| == 0);
    ConcatSnoc(lines, d);
    assert v[start..|v|] == v[start..];
    if start < |v| {
      DressIsLead(v, keyLen, fb, start, |v|, lines);
    } else {
      assert d == [] && Lead(v, keyLen, fb, start, lines) + v[start..] == [];
    }
  }

  /** The facts about a cut that the round trip needs. */
  lemma CutForLead(v: seq<byte>, keyLen: nat, fb: nat, start: nat, resume: nat, lines: seq<Fragment>,
                   next: nat, fold: nat)
    requires fb >= 1 && start <= resume <= |v| && Foldable(v)
    requires |lines| == 0 ==> start == 0 && resume == 0
    requires Scan(v, resume, start + LineBudget(keyLen, fb, |lines|), start) == Break(next, fold)
    ensures start <= CutPlace(start, next, fold) <= next <= |v|
    ensures CutPlace(start, next, fold) < |v| ==>
              IsBlank(v[CutPlace(start, next, fold)]) || CutPlace(start, next, fold) == start
    ensures |lines| == 0 && 0 < |v| ==> (CutPlace(start, next, fold) > start <==> LineBudget(keyLen, fb, 0) > 0)
  {
    CutFacts(v, keyLen, fb, start, resume, lines, next, fold);
    CutIsBlank(v, keyLen, fb, start, resume, lines, next, fold);
    if |lines| == 0 && 0 < |v| {
      if LineBudget(keyLen, fb, 0) == 0 {
        ZeroBudgetCut(v, keyLen, fb);
      } else {
        FirstCut(v, keyLen, fb, next, fold);
      }
    }
  }

  /** The round trip for a round whose scan breaks at the end of the value. */
  lemma ConcatBreakAtEnd(v: seq<byte>, keyLen: nat, fb: nat, start: nat, resume: nat, lines: seq<Fragment>,
                         fold: nat)
    requires fb >= 1 && start <= resume <= |v| && Foldable(v)
    requires |lines| == 0 ==> start == 0 && resume == 0
    requires Scan(v, resume, start + LineBudget(keyLen, fb, |lines|), start) == Break(|v|, fold)
    ensures Concat(FoldFrom(v, keyLen, fb, start, resume, lines))
            == Concat(lines) + (Lead(v, keyLen, fb, start, lines) + v[start..])
  {
    CutForLead(v, keyLen, fb, start, resume, lines, |v|, fold);
    var cut := CutPlace(start, |v|, fold);
    var d1 := Dress(v[start..cut], |lines| == 0);
    var d2 := Dress(v[cut..|v|], false);
    FoldFromBreakAtEnd(v, keyLen, fb, start, resume, lines, fold);
    ConcatSnoc(lines, d1);
    ConcatSnoc(lines + [d1], d2);
    EndLead(v, keyLen, fb, start, cut, lines);
    AppendAssoc(Concat(lines), d1, d2);
  }

  /** Regrouping the bytes of a broken round: the portion and the next lead stand for the lead and the portion. */
  lemma Regroup(c: seq<byte>, d: seq<byte>, lead': seq<byte>, rest: seq<byte>, lead: seq<byte>, part: seq<byte>)
    requires d + lead' == lead + part
    ensures (c + d) + (lead' + rest) == c + (lead + (part + rest))
  {
    calc {
      (c + d) + (lead' + rest);
      { AppendAssoc(c, d, lead' + rest); AppendAssoc(d, lead', rest); }
      c + ((d + lead') + rest);
      { AppendAssoc(lead, part, rest); }
      c + (lead + (part + rest));
    }
  }

  /**
   * The round trip for a round whose scan breaks the line before the end,
   * given the round trip from the state it leads to.
   */
  lemma ConcatBreak(v: seq<byte>, keyLen: nat, fb: nat, start: nat, resume: nat, lines: seq<Fragment>,
                    next: nat, fold: nat)
    requires fb >= 1 && start <= resume <= |v| && Foldable(v)
    requires |lines| == 0 ==> start == 0 && resume == 0
    requires Scan(v, resume, start + LineBudget(keyLen, fb, |lines|), start) == Break(next, fold)
    requires start <= CutPlace(start, next, fold) <= next < |v|
    requires Concat(FoldFrom(v, keyLen, fb, CutPlace(start, next, fold), next,
                             SavePortion(lines, v[start..CutPlace(start, next, fold)])))
             == Concat(SavePortion(lines, v[start..CutPlace(start, next, fold)]))
                + (Lead(v, keyLen, fb, CutPlace(start, next, fold),
                        SavePortion(lines, v[start..CutPlace(start, next, fold)]))
                   + v[CutPlace(start, next, fold)..])
    ensures Concat(FoldFrom(v, keyLen, fb, start, resume, lines))
            == Concat(lines) + (Lead(v, keyLen, fb, start, lines) + v[start..])
  {
    CutForLead(v, keyLen, fb, start, resume, lines, next, fold);
    var cut := CutPlace(start, next, fold);
    var d := Dress(v[start..cut], |lines| == 0);
    FoldFromBreak(v, keyLen, fb, start, resume, lines, next, fold);
    ConcatSnoc(lines, d);
    CutLead(v, keyLen, fb, start, cut, lines);
    assert v[start..] == v[start..cut] + v[cut..];
    Regroup(Concat(lines), d, Lead(v, keyLen, fb, cut, lines + [d]), v[cut..],
            Lead(v, keyLen, fb, start, lines), v[start..cut]);
  }

  /** From any loop state, the fragments still to come spell the rest of the value. */
  lemma {:induction false} FoldFromConcat(v: seq<byte>, keyLen: nat, fb: nat, start: nat, resume: nat,
                                          lines: seq<Fragment>)
    requires fb >= 1 && start <= resume <= |v| && Foldable(v)
    requires |lines| == 0 ==> start == 0 && resume == 0
    ensures Concat(FoldFrom(v, keyLen, fb, start, resume, lines))
            == Concat(lines) + (Lead(v, keyLen, fb, start, lines) + v[start..])
    decreases |v| - start, if |lines| == 0 then 1 else 0
  {
    var best := start + LineBudget(keyLen, fb, |lines|);
    match Scan(v, resume, best, start) {
      case Exhausted =>
        ConcatExhausted(v, keyLen, fb, start, resume, lines);
      case Break(next, fold) =>
        if next == |v| {
          ConcatBreakAtEnd(v, keyLen, fb, start, resume, lines, fold);
        } else {
          CutFacts(v, keyLen, fb, start, resume, lines, next, fold);
          var cut := CutPlace(start, next, fold);
          FoldFromConcat(v, keyLen, fb, cut, next, SavePortion(lines, v[start..cut]));
          ConcatBreak(v, keyLen, fb, start, resume, lines, next, fold);
        }
    }
  }

  /**
   * Joining the fragments gives back the value. The one exception is a key
   * so long that the first line has no room: then the first fragment is
   * empty and the value starts on a continuation line, after a space.
   */
  lemma FoldRoundTrip(v: seq<byte>, keyLen: nat, boundary: nat)
    requires Foldable(v)
    ensures Concat(Fold(v, keyLen, boundary))
            == if |v| > 0 && FirstBudget(keyLen, boundary) == 0 then [SPACE] + v else v
  {
    FoldFromConcat(v, keyLen, EffectiveBoundary(boundary), 0, 0, []);
    assert v[0..] == v;
  }

  /** An empty value folds to two empty fragments: the loop saves once on breaking and once more at the end. */
  lemma FoldEmptyValue(keyLen: nat, boundary: nat)
    ensures Fold([], keyLen, boundary) == [[], []]
  {
  }

  /** Folding treats a zero boundary as a boundary of one byte. */
  lemma FoldZeroBoundary(v: seq<byte>, keyLen: nat)
    requires Foldable(v)
    ensures Fold(v, keyLen, 0) == Fold(v, keyLen, 1)
  {
  }

  /** A scan over a value that fits its limit runs to the end. */
  lemma {:induction false} ScanToEnd(v: seq<byte>, i: nat, best: nat, fold: nat)
    requires 0 < |v| <= best && i <= |v| && Foldable(v)
    ensures Scan(v, i, best, fold) == Exhausted
    decreases |v| - i
  {
    if i < |v| {
      if IsBlank(v[i]) {
        ScanToEnd(v, i + 1, best, i);
      } else {
        ScanToEnd(v, i + 1, best, fold);
      }
    }
  }

  /** A value that fits the first line is kept in one fragment, as it is. */
  lemma FoldShortValue(v: seq<byte>, keyLen: nat, boundary: nat)
    requires Foldable(v) && 0 < |v| <= FirstBudget(keyLen, boundary)
    ensures Fold(v, keyLen, boundary) == [v]
  {
    var fb := EffectiveBoundary(boundary);
    ScanToEnd(v, 0, LineBudget(keyLen, fb, 0), 0);
    FoldFromExhausted(v, keyLen, fb, 0, 0, []);
    assert v[0..|v|] == v;
  }

  /** A scan over a value with no blank stops at the end, past a limit it exceeds. */
  lemma {:induction false} ScanOneWord(v: seq<byte>, i: nat, best: nat)
    requires 0 < best < |v| && 0 < i <= |v|
    requires forall p :: 0 <= p < |v| ==> !IsBlank(v[p])
    ensures Scan(v, i, best, 0) == Break(|v|, 0)
    decreases |v| - i
  {
    if i < |v| {
      ScanOneWord(v, i + 1, best);
    }
  }

  /**
   * A single word longer than the first line's room is kept whole on the
   * first line; the loop then saves an empty last fragment after it.
   */
  lemma FoldLongWord(v: seq<byte>, keyLen: nat, boundary: nat)
    requires 0 < FirstBudget(keyLen, boundary) < |v|
    requires forall p :: 0 <= p < |v| ==> !IsBlank(v[p])
    ensures Fold(v, keyLen, boundary) == [v, []]
  {
    var fb := EffectiveBoundary(boundary);
    ScanOneWord(v, 1, LineBudget(keyLen, fb, 0));
    FoldFromBreakAtEnd(v, keyLen, fb, 0, 0, [], 0);
    assert v[0..|v|] == v;
  }

  /** "aaaa bbbb cccc" after a three-byte key, boundary 10: four bytes of room on line 0. */
  lemma FoldExampleTwoLines()
    ensures Fold([97, 97, 97, 97, 32, 98, 98, 98, 98, 32, 99, 99, 99, 99], 3, 10)
            == [[97, 97, 97, 97], [32, 98, 98, 98, 98, 32, 99, 99, 99, 99]]
  {
    var v: seq<byte> := [97, 97, 97, 97, 32, 98, 98, 98, 98, 32, 99, 99, 99, 99];
    assert Scan(v, 9, 4, 4) == Break(9, 4);
    assert Scan(v, 5, 4, 4) == Break(9, 4);
    assert Scan(v, 4, 4, 0) == Break(9, 4);
    assert Scan(v, 0, 4, 0) == Break(9, 4);
    FoldFromBreak(v, 3, 10, 0, 0, [], 9, 4);
    assert v[0..4] == [97, 97, 97, 97];
    assert Scan(v, 10, 14, 9) == Exhausted;
    assert Scan(v, 9, 14, 4) == Exhausted;
    FoldFromExhausted(v, 3, 10, 4, 9, [[97, 97, 97, 97]]);
    assert v[4..|v|] == [32, 98, 98, 98, 98, 32, 99, 99, 99, 99];
  }

  /** "ab" after an eight-byte key, boundary 10: no room on line 0, so line 1 gets " ab". */
  lemma FoldExampleNoRoom()
    ensures Fold([97, 98], 8, 10) == [[], [32, 97, 98]]
  {
    var v: seq<byte> := [97, 98];
    assert Scan(v, 0, 0, 0) == Break(0, 0);
    FoldFromBreak(v, 8, 10, 0, 0, [], 0, 0);
    assert v[0..0] == [] && SavePortion([], v[0..0]) == [[]];
    assert Scan(v, 0, 10, 0) == Exhausted;
    FoldFromExhausted(v, 8, 10, 0, 0, [[]]);
    assert v[0..|v|] == v;
    assert Fold(v, 8, 10) == FoldFrom(v, 8, 10, 0, 0, []);
    assert FoldFrom(v, 8, 10, 0, 0, [[]]) == [[], Dress(v, false)];
    assert Dress(v, false) == [32, 97, 98];
  }

  /**
   * The last round, when its scan breaks at the end of the value. When the
   * scan found no blank after the line start within the room, the rest of
   * the value is saved whole, and it overruns the room unless the value is
   * empty; one empty fragment follows it. Otherwise the line is cut at the
   * last blank that fitted, and the last fragment is the rest of the value
   * from that blank on.
   */
  lemma FoldFromLastRound(v: seq<byte>, keyLen: nat, fb: nat, start: nat, resume: nat, lines: seq<Fragment>,
                          fold: nat)
    requires fb >= 1 && start <= resume <= |v| && Foldable(v)
    requires Scan(v, resume, start + LineBudget(keyLen, fb, |lines|), start) == Break(|v|, fold)
    ensures fold == start ==>
              FoldFrom(v, keyLen, fb, start, resume, lines) == lines + [Dress(v[start..], |lines| == 0), []]
    ensures fold == start && |v| > 0 ==> |v| - start > LineBudget(keyLen, fb, |lines|)
    ensures fold != start ==>
              start < fold < |v| && IsBlank(v[fold]) && fold - start <= LineBudget(keyLen, fb, |lines|)
              && FoldFrom(v, keyLen, fb, start, resume, lines) == lines + [Dress(v[start..fold], |lines| == 0), v[fold..]]
  {
    ScanFacts(v, resume, start + LineBudget(keyLen, fb, |lines|), start);
    var cut := CutPlace(start, |v|, fold);
    FoldFromBreakAtEnd(v, keyLen, fb, start, resume, lines, fold);
    assert v[cut..|v|] == v[cut..];
    if fold == start {
      assert v[start..cut] == v[start..];
      assert v[cut..] == [];
    } else {
      assert v[cut..][0] == v[fold];
    }
  }

  /**
   * "ab cdefgh" with no key, boundary 4: the last word overruns line 1 and
   * an empty fragment follows it.
   */
  lemma FoldExampleTrailingEmpty()
    ensures Fold([97, 98, 32, 99, 100, 101, 102, 103, 104], 0, 4)
            == [[97, 98], [32, 99, 100, 101, 102, 103, 104], []]
  {
    var v: seq<byte> := [97, 98, 32, 99, 100, 101, 102, 103, 104];
    assert Scan(v, 2, 1, 0) == Break(2, 0);
    assert Scan(v, 0, 1, 0) == Break(2, 0);
    FoldFromBreak(v, 0, 4, 0, 0, [], 2, 0);
    assert v[0..2] == [97, 98];
    assert SavePortion([], v[0..2]) == [[97, 98]];
    assert Scan(v, 9, 6, 2) == Break(9, 2);
    assert Scan(v, 3, 6, 2) == Break(9, 2);
    assert Scan(v, 2, 6, 2) == Break(9, 2);
    FoldFromLastRound(v, 0, 4, 2, 2, [[97, 98]], 2);
    assert v[2..] == [32, 99, 100, 101, 102, 103, 104];
    assert Dress(v[2..], false) == v[2..];
  }

  /**
   * "a b cdefghij" with no key, boundary 4: a blank fits on line 1, so the
   * last word gets a line of its own and no empty fragment follows.
   */
  lemma FoldExampleLastWord()
    ensures Fold([97, 32, 98, 32, 99, 100, 101, 102, 103, 104, 105, 106], 0, 4)
            == [[97], [32, 98], [32, 99, 100, 101, 102, 103, 104, 105, 106]]
  {
    var v: seq<byte> := [97, 32, 98, 32, 99, 100, 101, 102, 103, 104, 105, 106];
    assert Scan(v, 3, 1, 1) == Break(3, 1);
    assert Scan(v, 1, 1, 0) == Break(3, 1);
    assert Scan(v, 0, 1, 0) == Break(3, 1);
    FoldFromBreak(v, 0, 4, 0, 0, [], 3, 1);
    assert v[0..1] == [97];
    assert SavePortion([], v[0..1]) == [[97]];
    assert Scan(v, 12, 5, 3) == Break(12, 3);
    assert Scan(v, 4, 5, 3) == Break(12, 3);
    assert Scan(v, 3, 5, 1) == Break(12, 3);
    FoldFromLastRound(v, 0, 4, 1, 3, [[97]], 3);
    assert v[1..3] == [32, 98];
    assert Dress(v[1..3], false) == [32, 98];
    assert v[3..] == [32, 99, 100, 101, 102, 103, 104, 105, 106];
  }
}
