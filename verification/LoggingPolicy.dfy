/**
 Masking an identifier wherever it occurs in a text.

 Letter case is ignored. Which characters then count as the same is left open:
 `fold` maps every character to the one it is compared as, and all that is
 asked of it is that nothing else counts as a dot.
 */
module LoggingPolicy {
  import opened Texts

  const IDENTIFIER_TAIL_LENGTH: nat := 4
  const MASK_PREFIX: string := "..."

  function IdentifierTail(identifier: string): string {
    if |identifier| <= IDENTIFIER_TAIL_LENGTH then identifier
    else identifier[|identifier| - IDENTIFIER_TAIL_LENGTH..]
  }

  /** What a mask still shows of an identifier. */
  function ShownTail(identifier: string): (tail: string)
    ensures |tail| <= IDENTIFIER_TAIL_LENGTH
    ensures |tail| < |identifier| || tail == ""
    ensures tail == identifier[|identifier| - |tail|..]
  {
    if |identifier| <= IDENTIFIER_TAIL_LENGTH then "" else IdentifierTail(identifier)
  }

  function Mask(identifier: string): string {
    MASK_PREFIX + ShownTail(identifier)
  }

  predicate Same(fold: char -> char, a: string, b: string) {
    |a| == |b| && forall j :: 0 <= j < |a| ==> fold(a[j]) == fold(b[j])
  }

  /** `id` occurs in `text` at `i`. */
  predicate OccursAt(fold: char -> char, text: string, id: string, i: int) {
    0 <= i <= |text| - |id| && Same(fold, text[i..i + |id|], id)
  }

  /** Replaces each occurrence found going left to right. */
  function Substitute(fold: char -> char, text: string, id: string, mask: string): string
    requires id != ""
  {
    if |text| < |id| then text
    else if OccursAt(fold, text, id, 0) then mask + Substitute(fold, text[|id|..], id, mask)
    else [text[0]] + Substitute(fold, text[1..], id, mask)
  }

  function Redact(fold: char -> char, text: string, identifier: string): string {
    if identifier == "" then text else Substitute(fold, text, identifier, Mask(identifier))
  }

  // ---------------------------------------------------- windows of a text

  lemma WindowLeft(a: string, b: string, i: nat, n: nat)
    requires i + n <= |a|
    ensures (a + b)[i..i + n] == a[i..i + n]
  {
  }

  lemma WindowAcross(a: string, b: string, i: nat, n: nat)
    requires i <= |a| <= i + n <= |a| + |b|
    ensures (a + b)[i..i + n] == a[i..] + b[..i + n - |a|]
  {
  }

  lemma WindowRight(a: string, b: string, i: nat, n: nat)
    requires i + n <= |b|
    ensures (a + b)[|a| + i..|a| + i + n] == b[i..i + n]
  {
  }

  lemma OccursLeft(fold: char -> char, a: string, b: string, id: string, i: nat)
    requires i + |id| <= |a|
    ensures OccursAt(fold, a + b, id, i) <==> OccursAt(fold, a, id, i)
  {
    WindowLeft(a, b, i, |id|);
  }

  lemma OccursRight(fold: char -> char, a: string, b: string, id: string, i: nat)
    ensures OccursAt(fold, a + b, id, |a| + i) <==> OccursAt(fold, b, id, i)
  {
    if i + |id| <= |b| {
      WindowRight(a, b, i, |id|);
    }
  }

  // --------------------------------------------- the rest of the text stays

  /** gaps[0] pieces[0] gaps[1] pieces[1] ... */
  function Interleave(gaps: seq<string>, pieces: seq<string>): string
    requires |gaps| == |pieces| + 1
  {
    if pieces == [] then gaps[0] else gaps[0] + (pieces[0] + Interleave(gaps[1..], pieces[1..]))
  }

  predicate Clean(fold: char -> char, text: string, id: string) {
    forall i :: 0 <= i <= |text| - |id| ==> !OccursAt(fold, text, id, i)
  }

  /** Nothing is found in `gap + piece` before `piece`. */
  predicate FoundFirst(fold: char -> char, gap: string, piece: string, id: string) {
    OccursAt(fold, piece, id, 0) && |piece| == |id|
    && forall i :: 0 <= i < |gap| ==> !OccursAt(fold, gap + piece, id, i)
  }

  /** The text cut at the occurrences found going left to right. */
  predicate IsCut(fold: char -> char, text: string, id: string, gaps: seq<string>, pieces: seq<string>) {
    && |gaps| == |pieces| + 1
    && text == Interleave(gaps, pieces)
    && (forall i :: 0 <= i < |pieces| ==> FoundFirst(fold, gaps[i], pieces[i], id))
    && Clean(fold, gaps[|pieces|], id)
  }

  function Masks(n: nat, mask: string): (masks: seq<string>)
    ensures |masks| == n
  {
    seq(n, _ => mask)
  }

  lemma FoundSooner(fold: char -> char, c: char, gap: string, piece: string, id: string)
    requires id != "" && FoundFirst(fold, [c] + gap, piece, id)
    ensures FoundFirst(fold, gap, piece, id) && !OccursAt(fold, [c] + gap + piece, id, 0)
  {
    assert [c] + gap + piece == [c] + (gap + piece);
    forall i | 0 <= i < |gap| ensures !OccursAt(fold, gap + piece, id, i) {
      OccursRight(fold, [c], gap + piece, id, i);
      assert !OccursAt(fold, [c] + gap + piece, id, 1 + i);
    }
  }

  lemma SubstituteHit(fold: char -> char, piece: string, after: string, id: string, mask: string)
    requires id != "" && Same(fold, piece, id)
    ensures Substitute(fold, piece + after, id, mask) == mask + Substitute(fold, after, id, mask)
  {
    PieceOccurs(fold, piece, after, id);
    assert (piece + after)[|id|..] == after;
  }

  lemma SubstituteMiss(fold: char -> char, c: char, rest: string, id: string, mask: string)
    requires id != "" && |rest| + 1 >= |id| && !OccursAt(fold, [c] + rest, id, 0)
    ensures Substitute(fold, [c] + rest, id, mask) == [c] + Substitute(fold, rest, id, mask)
  {
    assert ([c] + rest)[1..] == rest;
  }

  lemma PieceOccurs(fold: char -> char, piece: string, after: string, id: string)
    requires Same(fold, piece, id)
    ensures OccursAt(fold, piece + after, id, 0)
  {
    assert (piece + after)[..|id|] == piece;
  }

  /** Up to and with the first occurrence, a redacted text is the gap and a mask. */
  lemma {:induction false} SubstituteGap(fold: char -> char, gap: string, piece: string, after: string, id: string, mask: string)
    requires id != "" && FoundFirst(fold, gap, piece, id)
    ensures Substitute(fold, gap + (piece + after), id, mask) == gap + (mask + Substitute(fold, after, id, mask))
  {
    var done := mask + Substitute(fold, after, id, mask);
    assert piece[..|id|] == piece;
    if gap == "" {
      SubstituteHit(fold, piece, after, id, mask);
      assert "" + (piece + after) == piece + after;
      assert "" + done == done;
    } else {
      var c, rest, tail := gap[0], gap[1..], piece + after;
      assert gap == [c] + rest;
      FoundSooner(fold, c, rest, piece, id);
      SubstituteGap(fold, rest, piece, after, id, mask);
      OccursLeft(fold, gap + piece, after, id, 0);
      Associative(gap, piece, after);
      Associative([c], rest, tail);
      SubstituteMiss(fold, c, rest + tail, id, mask);
      Associative([c], rest, done);
    }
  }

  lemma {:induction false} SubstituteClean(fold: char -> char, text: string, id: string, mask: string)
    requires id != "" && Clean(fold, text, id)
    ensures Substitute(fold, text, id, mask) == text
  {
    if |text| >= |id| {
      assert text == [text[0]] + text[1..];
      forall i | 0 <= i <= |text[1..]| - |id| ensures !OccursAt(fold, text[1..], id, i) {
        OccursRight(fold, [text[0]], text[1..], id, i);
        assert !OccursAt(fold, text, id, 1 + i);
      }
      SubstituteClean(fold, text[1..], id, mask);
    }
  }

  /** Whatever the cut, the redacted text is the same gaps with a mask in place
      of each piece: so there is only one cut, and between the occurrences the
      text is untouched. */
  lemma {:induction false} RedactKeepsTheGaps(fold: char -> char, text: string, id: string, gaps: seq<string>, pieces: seq<string>)
    requires id != "" && IsCut(fold, text, id, gaps, pieces)
    ensures Redact(fold, text, id) == Interleave(gaps, Masks(|pieces|, Mask(id)))
    decreases |pieces|
  {
    if pieces == [] {
      SubstituteClean(fold, text, id, Mask(id));
    } else {
      CutRest(fold, text, id, gaps, pieces);
      MasksRest(gaps, Mask(id), |pieces|);
      hide Interleave, Masks, IsCut, FoundFirst, Mask, Substitute;
      var after := Interleave(gaps[1..], pieces[1..]);
      RedactKeepsTheGaps(fold, after, id, gaps[1..], pieces[1..]);
      SubstituteGap(fold, gaps[0], pieces[0], after, id, Mask(id));
    }
  }

  lemma CutRest(fold: char -> char, text: string, id: string, gaps: seq<string>, pieces: seq<string>)
    requires IsCut(fold, text, id, gaps, pieces) && pieces != []
    ensures |gaps| == |pieces| + 1 && FoundFirst(fold, gaps[0], pieces[0], id)
    ensures text == gaps[0] + (pieces[0] + Interleave(gaps[1..], pieces[1..]))
    ensures IsCut(fold, Interleave(gaps[1..], pieces[1..]), id, gaps[1..], pieces[1..])
  {
    hide FoundFirst, Clean;
  }

  lemma MasksRest(gaps: seq<string>, mask: string, n: nat)
    requires |gaps| == n + 1 && n > 0
    ensures Interleave(gaps, Masks(n, mask)) == gaps[0] + (mask + Interleave(gaps[1..], Masks(n - 1, mask)))
  {
    assert Masks(n, mask)[1..] == Masks(n - 1, mask);
  }

  /** The first occurrence, if there is one, ends a first gap and piece. */
  lemma CutFirst(fold: char -> char, text: string, id: string)
    returns (gap: string, piece: string, after: string)
    requires id != "" && !Clean(fold, text, id)
    ensures text == gap + (piece + after) && FoundFirst(fold, gap, piece, id)
  {
    var first := 0;
    while !OccursAt(fold, text, id, first)
      invariant 0 <= first <= |text| - |id|
      invariant forall i :: 0 <= i < first ==> !OccursAt(fold, text, id, i)
      decreases |text| - first
    {
      first := first + 1;
    }
    gap, piece, after := text[..first], text[first..first + |id|], text[first + |id|..];
    assert piece[..|id|] == piece;
    assert text == (gap + piece) + after;
    forall i | 0 <= i < |gap| ensures !OccursAt(fold, gap + piece, id, i) {
      OccursLeft(fold, gap + piece, after, id, i);
    }
  }

  /** Every text has its cut. */
  lemma {:induction false} CutExists(fold: char -> char, text: string, id: string)
    returns (gaps: seq<string>, pieces: seq<string>)
    requires id != ""
    ensures IsCut(fold, text, id, gaps, pieces)
    decreases |text|
  {
    if Clean(fold, text, id) {
      gaps, pieces := [text], [];
    } else {
      var gap, piece, after := CutFirst(fold, text, id);
      var moreGaps, morePieces := CutExists(fold, after, id);
      gaps, pieces := [gap] + moreGaps, [piece] + morePieces;
      assert gaps[1..] == moreGaps && pieces[1..] == morePieces;
      assert gaps[|pieces|] == moreGaps[|morePieces|];
    }
  }

  // ------------------------------------------------- nothing is left to see

  /** Only a dot is compared as one. */
  ghost predicate DotStandsAlone(fold: char -> char) {
    forall c :: fold(c) == fold('.') ==> c == '.'
  }

  /** The dots of an address or a dotted name: none at an end, no two in a row. */
  predicate DotsSeparate(id: string) {
    && id != "" && id[0] != '.' && id[|id| - 1] != '.'
    && forall i :: 0 <= i < |id| - 1 ==> !(id[i] == '.' && id[i + 1] == '.')
  }

  /** Two occurrences overlap within the part a mask still shows. */
  predicate OverlapInTail(fold: char -> char, text: string, id: string, i: int, j: int) {
    OccursAt(fold, text, id, i) && OccursAt(fold, text, id, j) && i < j < i + |id| <= j + |ShownTail(id)|
  }

  ghost predicate NoOverlapInTail(fold: char -> char, text: string, id: string) {
    forall i, j :: !OverlapInTail(fold, text, id, i, j)
  }

  /** An occurrence cannot reach into the three dots of a mask. */
  lemma NoDotsInside(fold: char -> char, text: string, id: string, at: nat, i: int)
    requires DotStandsAlone(fold) && DotsSeparate(id)
    requires at + 3 <= |text| && text[at] == text[at + 1] == text[at + 2] == '.'
    requires i < at + 3 && at < i + |id|
    ensures !OccursAt(fold, text, id, i)
  {
    if 0 <= i <= |text| - |id| {
      var window := text[i..i + |id|];
      if i > at {
        assert window[0] == '.';
      } else {
        assert window[at - i] == '.';
        if at - i + 1 < |id| {
          assert window[at - i + 1] == '.';
        }
      }
    }
  }

  lemma SuffixHasNoOverlap(fold: char -> char, start: string, text: string, id: string)
    requires NoOverlapInTail(fold, start + text, id)
    ensures NoOverlapInTail(fold, text, id)
  {
    forall i, j ensures !OverlapInTail(fold, text, id, i, j) {
      if 0 <= i && 0 <= j {
        OccursRight(fold, start, text, id, i);
        OccursRight(fold, start, text, id, j);
        assert !OverlapInTail(fold, start + text, id, |start| + i, |start| + j);
      }
    }
  }

  predicate DotsAt(text: string, at: nat) {
    at + 3 <= |text| && text[at] == text[at + 1] == text[at + 2] == '.'
  }

  lemma MaskHasDots(gap: string, id: string, rest: string)
    ensures DotsAt(gap + (Mask(id) + rest), |gap|)
  {
    assert Mask(id)[0] == Mask(id)[1] == Mask(id)[2] == '.';
    var out := gap + (Mask(id) + rest);
    assert out[|gap|] == Mask(id)[0] && out[|gap| + 1] == Mask(id)[1] && out[|gap| + 2] == Mask(id)[2];
  }

  /** Each start of `out` is the same start of `text`, or reaches into the three
      dots of a mask. */
  ghost predicate StartsAlike(out: string, text: string) {
    forall n: nat | n <= |out| :: StartAlike(out, text, n)
  }

  ghost predicate StartAlike(out: string, text: string, n: nat)
    requires n <= |out|
  {
    (n <= |text| && out[..n] == text[..n]) || exists at: nat :: at < n && DotsAt(out, at)
  }

  lemma RedactedStartsAlike(fold: char -> char, text: string, id: string)
    requires id != ""
    ensures StartsAlike(Redact(fold, text, id), text)
  {
    var out := Redact(fold, text, id);
    if Clean(fold, text, id) {
      SubstituteClean(fold, text, id, Mask(id));
    } else {
      var gap, piece, after := CutFirst(fold, text, id);
      var masked := Mask(id) + Redact(fold, after, id);
      SubstituteGap(fold, gap, piece, after, id, Mask(id));
      MaskHasDots(gap, id, Redact(fold, after, id));
      forall n: nat | n <= |out| ensures StartAlike(out, text, n) {
        if n <= |gap| {
          WindowLeft(gap, masked, 0, n);
          WindowLeft(gap, piece + after, 0, n);
        }
      }
    }
  }

  lemma SameWindows(fold: char -> char, a: string, b: string, id: string)
    requires Same(fold, a, b)
    ensures Same(fold, a, id) <==> Same(fold, b, id)
  {
    if |a| == |id| {
      forall j | 0 <= j < |id| ensures (fold(a[j]) == fold(id[j])) <==> (fold(b[j]) == fold(id[j])) {
      }
    }
  }

  /** Two texts that go on alike after parts compared as the same. */
  lemma OccursAlike(fold: char -> char, mask: string, rest: string, piece: string, after: string, id: string, k: nat)
    requires 1 <= k <= |mask| && k < |id| == |piece|
    requires Same(fold, mask[|mask| - k..], piece[|piece| - k..])
    requires var m := |id| - k; m <= |rest| && m <= |after| && rest[..m] == after[..m]
    ensures OccursAt(fold, mask + rest, id, |mask| - k) <==> OccursAt(fold, piece + after, id, |piece| - k)
  {
    var m := |id| - k;
    WindowAcross(mask, rest, |mask| - k, |id|);
    WindowAcross(piece, after, |piece| - k, |id|);
    var shown, had := mask[|mask| - k..], piece[|piece| - k..];
    SameWindows(fold, shown + rest[..m], had + rest[..m], id);
  }

  /** An occurrence that began in the part a mask shows would have been one in
      the text, overlapping the one masked. */
  lemma OccurrenceFromTail(fold: char -> char, mask: string, rest: string, piece: string, after: string, id: string, k: nat)
    requires DotStandsAlone(fold) && DotsSeparate(id) && StartsAlike(rest, after)
    requires 1 <= k <= |mask| && k < |id| == |piece|
    requires Same(fold, mask[|mask| - k..], piece[|piece| - k..])
    ensures OccursAt(fold, mask + rest, id, |mask| - k) ==> OccursAt(fold, piece + after, id, |piece| - k)
  {
    var m := |id| - k;
    if m <= |rest| {
      assert StartAlike(rest, after, m);
      if m <= |after| && rest[..m] == after[..m] {
        OccursAlike(fold, mask, rest, piece, after, id, k);
      } else {
        var at: nat :| at < m && DotsAt(rest, at);
        DotsAfter(mask, rest, at);
        NoDotsInside(fold, mask + rest, id, |mask| + at, |mask| - k);
      }
    }
  }

  lemma ShownTailIsSame(fold: char -> char, piece: string, id: string, k: nat)
    requires Same(fold, piece, id) && 1 <= k <= |ShownTail(id)|
    ensures Mask(id)[|Mask(id)| - k..] == id[|id| - k..]
    ensures Same(fold, Mask(id)[|Mask(id)| - k..], piece[|piece| - k..])
  {
  }

  lemma DotsAfter(start: string, text: string, at: nat)
    requires DotsAt(text, at)
    ensures DotsAt(start + text, |start| + at)
  {
    var whole := start + text;
    assert whole[|start| + at] == text[at] && whole[|start| + at + 1] == text[at + 1] && whole[|start| + at + 2] == text[at + 2];
  }

  lemma NoneStartsInDots(fold: char -> char, mask: string, rest: string, id: string, i: nat)
    requires DotStandsAlone(fold) && DotsSeparate(id) && mask == Mask(id) && i < 3
    ensures !OccursAt(fold, mask + rest, id, i)
  {
    MaskHasDots("", id, rest);
    hide Mask, DotStandsAlone;
    assert "" + (mask + rest) == mask + rest;
    NoDotsInside(fold, mask + rest, id, 0, i);
  }

  lemma NoneStartsInTail(fold: char -> char, mask: string, rest: string, piece: string, after: string, id: string, i: nat)
    requires DotStandsAlone(fold) && DotsSeparate(id) && mask == Mask(id) && 3 <= i < |mask|
    requires Same(fold, piece, id) && NoOverlapInTail(fold, piece + after, id)
    requires StartsAlike(rest, after)
    ensures !OccursAt(fold, mask + rest, id, i)
  {
    MaskLength(id);
    hide Mask, DotsSeparate, DotStandsAlone, StartsAlike;
    var k := |mask| - i;
    ShownTailIsSame(fold, piece, id, k);
    OccurrenceFromTail(fold, mask, rest, piece, after, id, k);
    PieceOccurs(fold, piece, after, id);
    assert !OverlapInTail(fold, piece + after, id, 0, |id| - k);
  }

  lemma MaskLength(id: string)
    ensures |Mask(id)| == 3 + |ShownTail(id)|
    ensures forall q :: 0 <= q < 3 ==> Mask(id)[q] == '.'
  {
  }

  /** No occurrence starts in a mask. */
  lemma NoneStartsInMask(fold: char -> char, mask: string, rest: string, piece: string, after: string, id: string, i: nat)
    requires DotStandsAlone(fold) && DotsSeparate(id) && mask == Mask(id) && i < |mask|
    requires Same(fold, piece, id) && NoOverlapInTail(fold, piece + after, id)
    requires StartsAlike(rest, after)
    ensures !OccursAt(fold, mask + rest, id, i)
  {
    if i < 3 {
      NoneStartsInDots(fold, mask, rest, id, i);
    } else {
      NoneStartsInTail(fold, mask, rest, piece, after, id, i);
    }
  }

  /** The masked text from a mask on, once the rest after it is clean. */
  lemma MaskedPartIsClean(fold: char -> char, mask: string, rest: string, piece: string, after: string, id: string, i: nat)
    requires DotStandsAlone(fold) && DotsSeparate(id) && mask == Mask(id)
    requires Same(fold, piece, id) && NoOverlapInTail(fold, piece + after, id)
    requires Clean(fold, rest, id) && StartsAlike(rest, after)
    ensures !OccursAt(fold, mask + rest, id, i)
  {
    if i < |mask| {
      NoneStartsInMask(fold, mask, rest, piece, after, id, i);
    } else {
      OccursRight(fold, mask, rest, id, i - |mask|);
    }
  }

  /** Where no two occurrences overlap within what a mask shows, nothing of the
      identifier is left to find: not between masks, and not across one. */
  lemma {:induction false} RedactLeavesNothing(fold: char -> char, text: string, id: string)
    requires DotStandsAlone(fold) && DotsSeparate(id) && NoOverlapInTail(fold, text, id)
    ensures Clean(fold, Redact(fold, text, id), id)
    decreases |text|
  {
    if Clean(fold, text, id) {
      SubstituteClean(fold, text, id, Mask(id));
    } else {
      var gap, piece, after := CutFirst(fold, text, id);
      SubstituteGap(fold, gap, piece, after, id, Mask(id));
      SuffixHasNoOverlap(fold, gap, piece + after, id);
      SuffixHasNoOverlap(fold, piece, after, id);
      RedactLeavesNothing(fold, after, id);
      RedactedStartsAlike(fold, after, id);
      assert piece[..|id|] == piece;
      GapAndMaskedPart(fold, gap, piece, Redact(fold, after, id), id, after);
    }
  }

  lemma GapAndMaskedPart(fold: char -> char, gap: string, piece: string, rest: string, id: string, after: string)
    requires DotStandsAlone(fold) && DotsSeparate(id) && FoundFirst(fold, gap, piece, id)
    requires Same(fold, piece, id) && NoOverlapInTail(fold, piece + after, id)
    requires Clean(fold, rest, id) && StartsAlike(rest, after)
    ensures Clean(fold, gap + (Mask(id) + rest), id)
  {
    hide Mask, NoOverlapInTail, StartsAlike, DotStandsAlone;
    var masked := Mask(id) + rest;
    var out := gap + masked;
    forall i | 0 <= i <= |out| - |id| ensures !OccursAt(fold, out, id, i) {
      if i + |id| <= |gap| {
        OccursLeft(fold, gap, masked, id, i);
        OccursLeft(fold, gap, piece, id, i);
        assert !OccursAt(fold, gap + piece, id, i);
      } else if i < |gap| {
        MaskHasDots(gap, id, rest);
        NoDotsInside(fold, out, id, |gap|, i);
      } else {
        MaskedPartIsClean(fold, Mask(id), rest, piece, after, id, i - |gap|);
        OccursRight(fold, gap, masked, id, i - |gap|);
      }
    }
  }

  /** Under the same conditions redacting once more changes nothing. */
  lemma RedactTwice(fold: char -> char, text: string, id: string)
    requires DotStandsAlone(fold) && DotsSeparate(id) && NoOverlapInTail(fold, text, id)
    ensures Redact(fold, Redact(fold, text, id), id) == Redact(fold, text, id)
  {
    RedactLeavesNothing(fold, text, id);
    SubstituteClean(fold, Redact(fold, text, id), id, Mask(id));
  }

  // ------------------------------------------------ what a mask and a match are

  /** Of an identifier of at most four characters a mask shows nothing, and of a
      longer one its last four characters, behind three dots. */
  lemma MaskShows(id: string)
    ensures |id| <= 4 ==> Mask(id) == "..."
    ensures |id| > 4 ==> Mask(id) == "..." + id[|id| - 4..] && |Mask(id)| == 7
  {
  }

  /** The empty identifier stands for none. */
  lemma NothingToMask(fold: char -> char, text: string)
    ensures Redact(fold, text, "") == text
  {
  }

  /** Letters that are compared as the same make no difference to what is found. */
  lemma FoundWhateverTheCase(fold: char -> char, text: string, other: string, id: string, i: int)
    requires |text| == |other| && forall j :: 0 <= j < |text| ==> fold(text[j]) == fold(other[j])
    ensures OccursAt(fold, text, id, i) <==> OccursAt(fold, other, id, i)
  {
    if 0 <= i <= |text| - |id| {
      var here, there := text[i..i + |id|], other[i..i + |id|];
      forall j | 0 <= j < |id| ensures fold(here[j]) == fold(there[j]) {
        assert here[j] == text[i + j] && there[j] == other[i + j];
      }
      SameWindows(fold, here, there, id);
    }
  }

  /** An identifier is masked however its letters are written, and what is no
      longer than it, and differs in a letter, is left alone. */
  lemma WrittenAnyWayIsMasked(fold: char -> char, written: string, id: string)
    requires id != "" && |written| == |id|
    ensures (forall j :: 0 <= j < |id| ==> fold(written[j]) == fold(id[j])) ==> Redact(fold, written, id) == Mask(id)
    ensures (exists j :: 0 <= j < |id| && fold(written[j]) != fold(id[j])) ==> Redact(fold, written, id) == written
  {
    assert written[0..0 + |id|] == written;
    if forall j :: 0 <= j < |id| ==> fold(written[j]) == fold(id[j]) {
      SubstituteHit(fold, written, "", id, Mask(id));
      assert written + "" == written && Mask(id) + "" == Mask(id);
      assert Substitute(fold, "", id, Mask(id)) == "";
    } else {
      assert !OccursAt(fold, written, id, 0);
      SubstituteClean(fold, written, id, Mask(id));
    }
  }

  // ------------------------------------------- which identifiers are safe

  function Least(a: nat, b: nat): nat {
    if a < b then a else b
  }

  /** The last `k` characters of the mask start the identifier. */
  predicate MaskEndStartsIt(fold: char -> char, id: string, k: nat) {
    1 <= k <= Least(|Mask(id)|, |id|) && Same(fold, Mask(id)[|Mask(id)| - k..], id[..k])
  }

  /** From its `j`-th character on the identifier reads as the mask does, as far as
      both go. */
  predicate ItsEndStartsMask(fold: char -> char, id: string, j: nat) {
    1 <= j < |id| && var n := Least(|Mask(id)|, |id| - j); Same(fold, id[j..j + n], Mask(id)[..n])
  }

  /** The mask does not hold the identifier, nor a start of it at its end, nor an
      end of it at its start. */
  ghost predicate Safe(fold: char -> char, id: string) {
    forall k: nat :: !MaskEndStartsIt(fold, id, k) && !OccursAt(fold, Mask(id), id, k) && !ItsEndStartsMask(fold, id, k)
  }

  // Safe identifiers: an occurrence in a redacted text would touch a mask.

  lemma WindowHalves(fold: char -> char, a: string, b: string, id: string, i: nat)
    requires OccursAt(fold, a + b, id, i) && i <= |a| <= i + |id|
    ensures var j := |a| - i;
            |id| - j <= |b| && Same(fold, a[i..], id[..j]) && Same(fold, b[..|id| - j], id[j..])
  {
    var j := |a| - i;
    WindowAcross(a, b, i, |id|);
    var left, right := a[i..], b[..|id| - j];
    assert Same(fold, left + right, id);
    forall q | 0 <= q < j ensures fold(left[q]) == fold(id[q]) {
      assert (left + right)[q] == left[q];
    }
    forall q | 0 <= q < |id| - j ensures fold(right[q]) == fold(id[j..][q]) {
      assert (left + right)[j + q] == right[q] && id[j..][q] == id[j + q];
    }
  }

  lemma OccursLetter(fold: char -> char, text: string, id: string, i: nat, q: nat)
    requires OccursAt(fold, text, id, i) && q < |id|
    ensures fold(text[i + q]) == fold(id[q])
  {
    assert text[i..i + |id|][q] == text[i + q];
  }

  lemma JoinedLetter(gap: string, mask: string, rest: string, q: nat)
    requires q < |mask|
    ensures (gap + (mask + rest))[|gap| + q] == mask[q]
  {
  }

  lemma ReachedLetter(fold: char -> char, gap: string, rest: string, id: string, i: nat, q: nat)
    requires OccursAt(fold, gap + (Mask(id) + rest), id, i) && i <= |gap| && |gap| - i + q < |id| && q < |Mask(id)|
    ensures fold(id[|gap| - i + q]) == fold(Mask(id)[q])
  {
    hide Mask, OccursAt;
    OccursLetter(fold, gap + (Mask(id) + rest), id, i, |gap| - i + q);
    JoinedLetter(gap, Mask(id), rest, q);
  }

  lemma ReachesMask(fold: char -> char, gap: string, rest: string, id: string, i: nat)
    requires i < |gap| < i + |id|
    ensures OccursAt(fold, gap + (Mask(id) + rest), id, i) ==> ItsEndStartsMask(fold, id, |gap| - i)
  {
    hide Mask, OccursAt;
    if OccursAt(fold, gap + (Mask(id) + rest), id, i) {
      var j := |gap| - i;
      var n := Least(|Mask(id)|, |id| - j);
      forall q | 0 <= q < n ensures fold(id[j..j + n][q]) == fold(Mask(id)[..n][q]) {
        ReachedLetter(fold, gap, rest, id, i, q);
      }
    }
  }

  lemma LeavesMask(fold: char -> char, rest: string, id: string, i: nat)
    requires i < |Mask(id)| < i + |id|
    ensures OccursAt(fold, Mask(id) + rest, id, i) ==> MaskEndStartsIt(fold, id, |Mask(id)| - i)
  {
    if OccursAt(fold, Mask(id) + rest, id, i) {
      WindowHalves(fold, Mask(id), rest, id, i);
    }
  }

  lemma {:induction false} SafeLeavesNothing(fold: char -> char, text: string, id: string)
    requires id != "" && Safe(fold, id)
    ensures Clean(fold, Redact(fold, text, id), id)
    decreases |text|
  {
    if Clean(fold, text, id) {
      SubstituteClean(fold, text, id, Mask(id));
    } else {
      var gap, piece, after := CutFirst(fold, text, id);
      SubstituteGap(fold, gap, piece, after, id, Mask(id));
      SafeLeavesNothing(fold, after, id);
      var rest := Redact(fold, after, id);
      forall i | 0 <= i <= |gap + (Mask(id) + rest)| - |id| ensures !OccursAt(fold, gap + (Mask(id) + rest), id, i) {
        SafeAt(fold, gap, piece, rest, id, i);
      }
    }
  }

  lemma SafeAt(fold: char -> char, gap: string, piece: string, rest: string, id: string, i: nat)
    requires id != "" && Safe(fold, id) && FoundFirst(fold, gap, piece, id) && Clean(fold, rest, id)
    ensures !OccursAt(fold, gap + (Mask(id) + rest), id, i)
  {
    hide Mask, MaskEndStartsIt, ItsEndStartsMask;
    var masked := Mask(id) + rest;
    if i + |id| <= |gap| {
      OccursLeft(fold, gap, masked, id, i);
      OccursLeft(fold, gap, piece, id, i);
      assert !OccursAt(fold, gap + piece, id, i);
    } else if i < |gap| {
      ReachesMask(fold, gap, rest, id, i);
    } else {
      var at := i - |gap|;
      OccursRight(fold, gap, masked, id, at);
      if at + |id| <= |Mask(id)| {
        OccursLeft(fold, Mask(id), rest, id, at);
      } else if at < |Mask(id)| {
        LeavesMask(fold, rest, id, at);
      } else {
        OccursRight(fold, Mask(id), rest, id, at - |Mask(id)|);
      }
    }
  }

  // Unsafe ones: each way has a text in which the identifier shows again.

  lemma ShortIsKept(fold: char -> char, text: string, id: string)
    requires |text| < |id|
    ensures Substitute(fold, text, id, Mask(id)) == text
  {
  }

  lemma RedactItself(fold: char -> char, more: string, id: string)
    requires id != "" && |more| < |id|
    ensures Redact(fold, id + more, id) == Mask(id) + more
  {
    SubstituteHit(fold, id, more, id, Mask(id));
    ShortIsKept(fold, more, id);
  }

  lemma InsideShowsAgain(fold: char -> char, id: string, i: nat)
    requires id != "" && OccursAt(fold, Mask(id), id, i)
    ensures !Clean(fold, Redact(fold, id, id), id)
  {
    RedactItself(fold, "", id);
    assert id + "" == id && Mask(id) + "" == Mask(id);
  }

  lemma HalvesOccur(fold: char -> char, a: string, b: string, id: string, j: nat)
    requires j <= |a| && j <= |id| && |id| - j <= |b|
    requires Same(fold, a[|a| - j..], id[..j]) && Same(fold, b[..|id| - j], id[j..])
    ensures OccursAt(fold, a + b, id, |a| - j)
  {
    WindowAcross(a, b, |a| - j, |id|);
    var left, right := a[|a| - j..], b[..|id| - j];
    forall q | 0 <= q < |id| ensures fold((left + right)[q]) == fold(id[q]) {
      if q < j {
        assert fold(left[q]) == fold(id[..j][q]);
      } else {
        assert fold(right[q - j]) == fold(id[j..][q - j]);
      }
    }
  }

  lemma MaskEndShowsAgain(fold: char -> char, id: string, k: nat)
    requires MaskEndStartsIt(fold, id, k)
    ensures !Clean(fold, Redact(fold, id + id[k..], id), id)
  {
    hide Mask, Redact;
    RedactItself(fold, id[k..], id);
    assert id[k..][..|id| - k] == id[k..];
    HalvesOccur(fold, Mask(id), id[k..], id, k);
  }

  /** The text in which an identifier whose end starts the mask shows again. */
  function Betraying(id: string, j: nat): string
    requires j <= |id|
  {
    id[..j] + (id + id[j + Least(|Mask(id)|, |id| - j)..])
  }

  lemma BetrayingRedacted(fold: char -> char, id: string, j: nat)
    requires id != "" && 1 <= j <= |id|
    requires forall i :: 0 <= i < j ==> !OccursAt(fold, id[..j] + id, id, i)
    ensures var n := Least(|Mask(id)|, |id| - j);
            Redact(fold, Betraying(id, j), id) == id[..j] + (Mask(id) + id[j + n..])
  {
    hide Mask, Substitute;
    var more := id[j + Least(|Mask(id)|, |id| - j)..];
    assert id[0..|id|] == id;
    SubstituteGap(fold, id[..j], id, more, id, Mask(id));
    ShortIsKept(fold, more, id);
  }

  lemma ItsEndOccurs(fold: char -> char, id: string, j: nat, n: nat)
    requires ItsEndStartsMask(fold, id, j) && n == Least(|Mask(id)|, |id| - j)
    ensures OccursAt(fold, id[..j] + (Mask(id) + id[j + n..]), id, 0)
  {
    hide Mask, OccursAt;
    EndMatches(fold, Mask(id), id, j, n);
    StartOccurs(fold, id[..j], Mask(id) + id[j + n..], id, j);
  }

  lemma ItsEndShowsAgain(fold: char -> char, id: string, j: nat)
    requires ItsEndStartsMask(fold, id, j)
    requires forall i :: 0 <= i < j ==> !OccursAt(fold, id[..j] + id, id, i)
    ensures !Clean(fold, Redact(fold, Betraying(id, j), id), id)
  {
    BetrayingRedacted(fold, id, j);
    ItsEndOccurs(fold, id, j, Least(|Mask(id)|, |id| - j));
    hide Mask, Redact, Betraying, Same;
    var out := Redact(fold, Betraying(id, j), id);
    assert OccursAt(fold, out, id, 0);
  }

  lemma EndMatches(fold: char -> char, mask: string, id: string, j: nat, n: nat)
    requires j <= |id| && n == Least(|mask|, |id| - j) && Same(fold, id[j..j + n], mask[..n])
    ensures var b := mask + id[j + n..];
            |id| - j <= |b| && Same(fold, b[..|id| - j], id[j..])
  {
    var b := mask + id[j + n..];
    forall q | 0 <= q < |id| - j ensures fold(b[..|id| - j][q]) == fold(id[j..][q]) {
      if q < n {
        assert fold(id[j..j + n][q]) == fold(mask[..n][q]);
      } else {
        assert b[q] == id[j + n..][q - n];
      }
    }
  }

  lemma StartOccurs(fold: char -> char, gap: string, b: string, id: string, j: nat)
    requires j <= |id| && gap == id[..j] && |id| - j <= |b| && Same(fold, b[..|id| - j], id[j..])
    ensures OccursAt(fold, gap + b, id, 0)
  {
    assert gap[|gap| - j..] == gap;
    HalvesOccur(fold, gap, b, id, j);
  }

  /** If the identifier is found earlier in that text, it repeats itself so that
      it ends from `j` on the way it starts. */
  lemma {:induction false} EarlierRepeats(fold: char -> char, id: string, i: nat, j: nat, q: nat)
    requires i < j < |id| && OccursAt(fold, id[..j] + id, id, i) && j + q < |id|
    ensures fold(id[j + q]) == fold(id[q])
    decreases q
  {
    var text, p := id[..j] + id, j - i;
    RepeatsAt(fold, id, i, j, j + q);
    RepeatsAt(fold, id, i, j, q);
    RepeatsAt(fold, id, i, j, i + q);
    if q >= p {
      EarlierRepeats(fold, id, i, j, q - p);
    }
  }

  lemma RepeatsAt(fold: char -> char, id: string, i: nat, j: nat, q: nat)
    requires i < j < |id| && OccursAt(fold, id[..j] + id, id, i) && q < |id|
    ensures q < j - i ==> fold(id[i + q]) == fold(id[q])
    ensures q >= j - i ==> fold(id[q - (j - i)]) == fold(id[q])
  {
    var text := id[..j] + id;
    var window := text[i..i + |id|];
    assert window[q] == text[i + q];
    assert fold(window[q]) == fold(id[q]);
  }

  lemma ItsEndAt(fold: char -> char, id: string, j: nat, q: nat)
    requires ItsEndStartsMask(fold, id, j) && q < |id| - j && q < |Mask(id)|
    ensures fold(id[j + q]) == fold(Mask(id)[q])
  {
    var n := Least(|Mask(id)|, |id| - j);
    assert id[j..j + n][q] == id[j + q] && Mask(id)[..n][q] == Mask(id)[q];
  }

  /** The mask of an identifier of more than four characters, letter by letter. */
  lemma MaskAt(id: string, q: nat)
    requires |id| > IDENTIFIER_TAIL_LENGTH && q < 7
    ensures |Mask(id)| == 7
    ensures q < 3 ==> Mask(id)[q] == '.'
    ensures 3 <= q ==> Mask(id)[q] == id[|id| - 7 + q]
  {
  }

  /** The identifier ends from `j` on the way it starts. */
  predicate Repeats(fold: char -> char, id: string, j: nat) {
    j <= |id| && Same(fold, id[j..], id[..|id| - j])
  }

  lemma ShortEndStartsIt(fold: char -> char, id: string, j: nat)
    requires Repeats(fold, id, j) && |id| > IDENTIFIER_TAIL_LENGTH && 1 <= |id| - j <= IDENTIFIER_TAIL_LENGTH
    ensures MaskEndStartsIt(fold, id, |id| - j)
  {
    assert Mask(id)[|Mask(id)| - (|id| - j)..] == id[j..];
  }

  lemma LongEndStartsIt(fold: char -> char, id: string, j: nat)
    requires Repeats(fold, id, j) && ItsEndStartsMask(fold, id, j) && |id| - j >= 7 == |Mask(id)|
    ensures MaskEndStartsIt(fold, id, 7)
  {
    var m := Mask(id);
    assert m[|m| - 7..] == m;
    forall q | 0 <= q < 7 ensures fold(m[q]) == fold(id[..7][q]) {
      ItsEndAt(fold, id, j, q);
      assert fold(id[j..][q]) == fold(id[..|id| - j][q]);
    }
  }

  lemma RepeatedFirst(fold: char -> char, id: string, j: nat)
    requires Repeats(fold, id, j) && ItsEndStartsMask(fold, id, j)
    ensures fold(id[0]) == fold('.')
  {
    ItsEndAt(fold, id, j, 0);
    assert fold(id[j..][0]) == fold(id[..|id| - j][0]);
  }

  /** Where five or six characters are left, the mask shows four of them after its
      three dots, so each of them is the one two or one before it, down to a dot. */
  lemma AllDots(fold: char -> char, id: string, j: nat)
    requires ItsEndStartsMask(fold, id, j) && 5 <= |id| - j <= 6
    ensures fold(id[|id| - 1]) == fold('.')
  {
    hide Mask, ItsEndStartsMask, Same;
    MaskAt(id, 1);
    MaskAt(id, 2);
    MaskAt(id, 3);
    MaskAt(id, 4);
    ItsEndAt(fold, id, j, 1);
    ItsEndAt(fold, id, j, 2);
    ItsEndAt(fold, id, j, 3);
    ItsEndAt(fold, id, j, 4);
    if |id| - j == 6 {
      MaskAt(id, 5);
      ItsEndAt(fold, id, j, 5);
    }
  }

  lemma DotStartsIt(fold: char -> char, id: string)
    requires id != "" && fold(id[0]) == fold('.')
    requires fold(Mask(id)[|Mask(id)| - 1]) == fold('.')
    ensures MaskEndStartsIt(fold, id, 1)
  {
  }

  /** And then its own start is one the mask ends with. */
  lemma RepeatingStartsWithMaskEnd(fold: char -> char, id: string, j: nat)
    requires ItsEndStartsMask(fold, id, j) && Repeats(fold, id, j)
    ensures exists k: nat :: MaskEndStartsIt(fold, id, k)
  {
    RepeatedFirst(fold, id, j);
    if |id| <= IDENTIFIER_TAIL_LENGTH {
      DotStartsIt(fold, id);
    } else {
      MaskAt(id, 6);
      if |id| - j <= IDENTIFIER_TAIL_LENGTH {
        ShortEndStartsIt(fold, id, j);
      } else if |id| - j >= 7 {
        LongEndStartsIt(fold, id, j);
      } else {
        AllDots(fold, id, j);
        DotStartsIt(fold, id);
      }
    }
  }

  lemma EarlierIsRepeating(fold: char -> char, id: string, i: nat, j: nat)
    requires i < j < |id| && OccursAt(fold, id[..j] + id, id, i)
    ensures Repeats(fold, id, j)
  {
    forall q | 0 <= q < |id| - j ensures fold(id[j..][q]) == fold(id[..|id| - j][q]) {
      EarlierRepeats(fold, id, i, j, q);
    }
  }

  lemma UnsafeShowsAgain(fold: char -> char, id: string)
    requires id != "" && !Safe(fold, id)
    ensures exists text :: !Clean(fold, Redact(fold, text, id), id)
  {
    var k: nat :| MaskEndStartsIt(fold, id, k) || OccursAt(fold, Mask(id), id, k) || ItsEndStartsMask(fold, id, k);
    if MaskEndStartsIt(fold, id, k) {
      MaskEndShowsAgain(fold, id, k);
    } else if OccursAt(fold, Mask(id), id, k) {
      InsideShowsAgain(fold, id, k);
    } else {
      UnsafeEndShowsAgain(fold, id, k);
    }
  }

  lemma UnsafeEndShowsAgain(fold: char -> char, id: string, j: nat)
    requires ItsEndStartsMask(fold, id, j)
    ensures exists text :: !Clean(fold, Redact(fold, text, id), id)
  {
    hide Redact, Mask;
    if i: nat :| i < j && OccursAt(fold, id[..j] + id, id, i) {
      EarlierIsRepeating(fold, id, i, j);
      RepeatingStartsWithMaskEnd(fold, id, j);
      var k: nat :| MaskEndStartsIt(fold, id, k);
      MaskEndShowsAgain(fold, id, k);
    } else {
      ItsEndShowsAgain(fold, id, j);
    }
  }

  /** Exactly which identifiers are masked out of every text, whatever letters
      count as the same: those of which the mask holds no start and no end. */
  lemma SafeExactly(fold: char -> char, id: string)
    requires id != ""
    ensures (forall text :: Clean(fold, Redact(fold, text, id), id)) <==> Safe(fold, id)
  {
    if Safe(fold, id) {
      forall text ensures Clean(fold, Redact(fold, text, id), id) {
        SafeLeavesNothing(fold, text, id);
      }
    } else {
      UnsafeShowsAgain(fold, id);
    }
  }

  // -------------------------------------------------- what that comes to

  /** The identifier starts the way the last `k` characters a mask shows read. */
  predicate StartsLikeItsTail(fold: char -> char, id: string, k: nat) {
    1 <= k <= |ShownTail(id)| && Same(fold, id[..k], id[|id| - k..])
  }

  lemma MaskEndFirst(fold: char -> char, id: string, k: nat)
    ensures MaskEndStartsIt(fold, id, k) ==> fold(Mask(id)[|Mask(id)| - k]) == fold(id[0])
  {
    if MaskEndStartsIt(fold, id, k) {
      assert fold(Mask(id)[|Mask(id)| - k..][0]) == fold(id[..k][0]);
    }
  }

  lemma OccurrenceFirst(fold: char -> char, text: string, id: string, i: nat)
    ensures id != "" && OccursAt(fold, text, id, i) ==> fold(text[i]) == fold(id[0])
  {
    if id != "" && OccursAt(fold, text, id, i) {
      assert fold(text[i..i + |id|][0]) == fold(id[0]);
    }
  }

  lemma ItsEndFirst(fold: char -> char, id: string, j: nat)
    ensures ItsEndStartsMask(fold, id, j) ==> fold(id[j]) == fold('.')
    ensures ItsEndStartsMask(fold, id, j) && j + 1 < |id| ==> fold(id[j + 1]) == fold('.')
  {
    if ItsEndStartsMask(fold, id, j) {
      var n := Least(|Mask(id)|, |id| - j);
      assert fold(id[j..j + n][0]) == fold(Mask(id)[..n][0]);
      if j + 1 < |id| {
        assert fold(id[j..j + n][1]) == fold(Mask(id)[..n][1]);
      }
    }
  }

  lemma MaskEndApart(fold: char -> char, id: string, k: nat)
    requires DotStandsAlone(fold) && DotsSeparate(id)
    ensures MaskEndStartsIt(fold, id, k) <==> StartsLikeItsTail(fold, id, k)
  {
    MaskEndFirst(fold, id, k);
    MaskLength(id);
    if 1 <= k <= |ShownTail(id)| {
      assert Mask(id)[|Mask(id)| - k..] == id[|id| - k..];
    } else {
      hide Mask;
      assert 1 <= k <= |Mask(id)| ==> Mask(id)[|Mask(id)| - k] == '.';
    }
  }

  lemma NotInMask(fold: char -> char, id: string, i: nat)
    requires DotStandsAlone(fold) && DotsSeparate(id)
    ensures !OccursAt(fold, Mask(id), id, i)
  {
    OccurrenceFirst(fold, Mask(id), id, i);
    MaskLength(id);
    hide Mask;
  }

  lemma ItsEndApart(fold: char -> char, id: string, j: nat)
    requires DotStandsAlone(fold) && DotsSeparate(id)
    ensures !ItsEndStartsMask(fold, id, j)
  {
    ItsEndFirst(fold, id, j);
    hide Mask, Same;
  }

  /** For addresses and dotted names, whose dots stand apart, only the shown tail
      matters. */
  lemma DotsApartSafeExactly(fold: char -> char, id: string)
    requires DotStandsAlone(fold) && DotsSeparate(id)
    ensures Safe(fold, id) <==> forall k: nat :: !StartsLikeItsTail(fold, id, k)
  {
    forall k: nat
      ensures MaskEndStartsIt(fold, id, k) <==> StartsLikeItsTail(fold, id, k)
      ensures !OccursAt(fold, Mask(id), id, k) && !ItsEndStartsMask(fold, id, k)
    {
      MaskEndApart(fold, id, k);
      NotInMask(fold, id, k);
      ItsEndApart(fold, id, k);
    }
    hide Mask, MaskEndStartsIt, ItsEndStartsMask, StartsLikeItsTail;
    assert forall k: nat :: StartsLikeItsTail(fold, id, k) ==> MaskEndStartsIt(fold, id, k);
  }

  /** A name written with its final dot, like "meter.lan.", is never safe. */
  lemma FinalDotIsUnsafe(fold: char -> char, id: string)
    requires id != "" && id[|id| - 1] == '.'
    ensures exists text :: !Clean(fold, Redact(fold, text, id), id)
  {
    if |id| == 1 {
      assert Mask(id)[0..1] == id;
      assert OccursAt(fold, Mask(id), id, 0);
    } else {
      assert ItsEndStartsMask(fold, id, |id| - 1);
    }
    UnsafeShowsAgain(fold, id);
  }

  /** Nor is one of at most five characters that starts with a dot. */
  lemma ShortLeadingDotIsUnsafe(fold: char -> char, id: string)
    requires 1 <= |id| <= IDENTIFIER_TAIL_LENGTH + 1 && id[0] == '.'
    ensures exists text :: !Clean(fold, Redact(fold, text, id), id)
  {
    if |id| <= IDENTIFIER_TAIL_LENGTH {
      assert MaskEndStartsIt(fold, id, 1);
    } else {
      assert Mask(id)[2..] == id[..5];
      assert MaskEndStartsIt(fold, id, 5);
    }
    UnsafeShowsAgain(fold, id);
  }
}
