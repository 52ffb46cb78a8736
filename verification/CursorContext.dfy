/** Trimming the text around the caret to whole words and whole surrogate pairs. */
module CursorContext {
  import opened Utf16
  import opened FieldText

  const WORD_SLACK: nat := 40

  predicate IsSpace(u: unit) { u in {0x09, 0x0A, 0x0D, 0x20, 0xA0, 0x2028, 0x2029, 0x3000} }

  /** Tab, the two line ends, the space and the one that does not break, the line and paragraph separators, and the
      ideographic space; nothing else ends a word. */
  lemma SpacesExactly(u: unit)
    ensures IsSpace(u) <==>
      || u == 0x09 || u == 0x0A || u == 0x0D || u == 0x20 || u == 0xA0 || u == 0x2028 || u == 0x2029 || u == 0x3000
  {
  }

  function Max(a: int, b: int): int { if a > b then a else b }

  predicate NoSpace(n: text, from: int, to: int) {
    forall i {:trigger n[i]} :: 0 <= i < |n| && from <= i < to ==> !IsSpace(n[i])
  }

  /** `w` starts a whole word near `cut`: right after a space, the first one in the window unless the cut was
      after one already; or the cut itself, when the window holds none. */
  predicate WordStart(n: text, cut: nat, w: nat)
    requires cut <= w <= |n|
  {
    if cut > 0 && IsSpace(n[cut - 1]) then w == cut
    else if w > cut then w <= cut + WORD_SLACK && IsSpace(n[w - 1]) && NoSpace(n, cut, w - 1)
    else NoSpace(n, cut, cut + WORD_SLACK)
  }

  /** `w` ends a whole word near `cut`: right before a space, the last one in the window unless the cut was
      before one already; or the cut itself, when the window holds none. */
  predicate WordEnd(n: text, cut: nat, w: nat)
    requires w <= cut <= |n|
  {
    if cut < |n| && IsSpace(n[cut]) then w == cut
    else if w < cut then cut <= w + WORD_SLACK && IsSpace(n[w]) && NoSpace(n, w + 1, cut)
    else NoSpace(n, cut - WORD_SLACK, cut)
  }

  /** Past the low half of a pair the cut split. */
  function PastLow(n: text, w: nat): nat { if w < |n| && IsLow(n[w]) then w + 1 else w }

  function BeforeHigh(n: text, w: nat): nat requires w <= |n| { if w > 0 && IsHigh(n[w - 1]) then w - 1 else w }

  predicate CutBefore(n: text, cap: nat, start: nat) {
    var cut := Max(0, |n| - cap);
    exists w | cut <= w <= |n| :: WordStart(n, cut, w) && start == PastLow(n, w)
  }

  predicate CutAfter(n: text, cap: nat, end: nat) {
    var cut := Min(|n|, cap);
    exists w | 0 <= w <= cut :: WordEnd(n, cut, w) && end == BeforeHigh(n, w)
  }

  /** The text kept left of the caret: all of it when the raw read was within the cap; otherwise the last `cap`
      units, less at most one partial word within the slack and one split surrogate. It is well-formed when the
      raw read is a suffix of well-formed text. */
  method ClipBefore(raw: text, cap: nat) returns (r: text)
    ensures |r| <= |Normalized(raw)| && r == Normalized(raw)[|Normalized(raw)| - |r|..]
    ensures |raw| <= cap ==> r == Normalized(raw)
    ensures |raw| > cap ==> CutBefore(Normalized(raw), cap, |Normalized(raw)| - |r|)
    ensures |raw| > cap ==> Min(|Normalized(raw)|, cap) - WORD_SLACK - 1 <= |r| <= cap
    ensures |raw| > cap && TailFormed(raw) ==> WellFormed(r)
  {
    hide Normalized;
    var capped := |raw| > cap;
    var n := NormalizeNewlines(raw);
    if !capped { return n; }
    ghost var cut: nat := Max(0, |n| - cap);
    var start: nat := Max(0, |n| - cap);
    if start == 0 || !IsSpace(n[start - 1]) {
      var offset := 0;
      while start + offset < |n| && offset < WORD_SLACK && !IsSpace(n[start + offset])
        invariant 0 <= offset <= WORD_SLACK && start + offset <= |n|
        invariant NoSpace(n, start, start + offset)
      {
        offset := offset + 1;
      }
      if start + offset < |n| && offset < WORD_SLACK { start := start + offset + 1; }
    }
    ghost var w: nat := start;
    assert WordStart(n, cut, w);
    if start < |n| && IsLow(n[start]) { start := start + 1; }
    r := n[start..];
    BeforeFormed(raw, w);
  }

  lemma TailStaysFormed(n: text, w: nat)
    requires w <= |n| && TailFormed(n)
    ensures WellFormed(n[PastLow(n, w)..])
  {
    var p := PastLow(n, w);
    var s := n[p..];
    assert forall i :: 0 <= i < |s| ==> s[i] == n[p + i];
  }

  lemma BeforeFormed(raw: text, w: nat)
    requires w <= |Normalized(raw)|
    ensures TailFormed(raw) ==> WellFormed(Normalized(raw)[PastLow(Normalized(raw), w)..])
  {
    hide Normalized, PastLow;
    if TailFormed(raw) {
      NormalizedKeepsPairs(raw);
      TailStaysFormed(Normalized(raw), w);
    }
  }

  /** The text kept right of the caret, or of a selection: as `ClipBefore`, from the other end. */
  method ClipAfter(raw: text, cap: nat) returns (r: text)
    ensures |r| <= |Normalized(raw)| && r == Normalized(raw)[..|r|]
    ensures |raw| <= cap ==> r == Normalized(raw)
    ensures |raw| > cap ==> CutAfter(Normalized(raw), cap, |r|)
    ensures |raw| > cap ==> Min(|Normalized(raw)|, cap) - WORD_SLACK - 1 <= |r| <= cap
    ensures |raw| > cap && HeadFormed(raw) ==> WellFormed(r)
  {
    hide Normalized;
    var capped := |raw| > cap;
    var n := NormalizeNewlines(raw);
    if !capped { return n; }
    ghost var cut: nat := Min(|n|, cap);
    var end: nat := Min(|n|, cap);
    if end == |n| || !IsSpace(n[end]) {
      var offset := 0;
      while offset < end && offset < WORD_SLACK && !IsSpace(n[end - 1 - offset])
        invariant 0 <= offset <= WORD_SLACK && offset <= end
        invariant NoSpace(n, end - offset, end)
      {
        offset := offset + 1;
      }
      if offset < end && offset < WORD_SLACK { end := end - (offset + 1); }
    }
    ghost var w: nat := end;
    assert WordEnd(n, cut, w);
    if end > 0 && IsHigh(n[end - 1]) { end := end - 1; }
    r := n[..end];
    AfterFormed(raw, w);
  }

  lemma AfterFormed(raw: text, w: nat)
    requires w <= |Normalized(raw)|
    ensures HeadFormed(raw) ==> WellFormed(Normalized(raw)[..BeforeHigh(Normalized(raw), w)])
  {
    if HeadFormed(raw) {
      NormalizedKeepsPairs(raw);
      var n := Normalized(raw);
      var s := n[..BeforeHigh(n, w)];
      assert forall i :: 0 <= i < |s| ==> s[i] == n[i];
      assert s != [] ==> s[|s| - 1] == n[|s| - 1];
    }
  }
}
