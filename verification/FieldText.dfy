/** Finding the pasted text again in a field's UTF-16 text. */
module FieldText {
  import opened Utf16
  import opened Wrappers

  datatype Refusal = NotFound | TooLong
  datatype Result<+T> = Ok(value: T) | Err(error: Refusal)

  const CR: unit := 0x0D
  const LF: unit := 0x0A
  const ANCHOR_UNITS: nat := 32

  datatype Anchors = Anchors(before: text, after: text)
  datatype Found = Found(before: text, region: text, after: text)

  // ---------------------------------------------------------------- newlines

  /** How many units the first line feed or other unit of the output stands for. */
  function Width(s: text): nat requires s != [] { if s[0] == CR && |s| > 1 && s[1] == LF then 2 else 1 }

  /** Each `\r\n`, and each other `\r`, read as one `\n`. */
  function Normalized(s: text): (r: text)
    ensures |r| <= |s|
  {
    if s == [] then [] else [if s[0] == CR then LF else s[0]] + Normalized(s[Width(s)..])
  }

  lemma Appended(a: text, c: unit, b: text)
    ensures a + ([c] + b) == (a + [c]) + b
  {
  }

  lemma NormalizedAt(s: text, i: nat)
    requires i < |s|
    ensures s[i] != CR ==> Normalized(s[i..]) == [s[i]] + Normalized(s[i + 1..])
    ensures s[i] == CR && i + 1 < |s| && s[i + 1] == LF ==> Normalized(s[i..]) == [LF] + Normalized(s[i + 2..])
    ensures s[i] == CR && (i + 1 == |s| || s[i + 1] != LF) ==> Normalized(s[i..]) == [LF] + Normalized(s[i + 1..])
  {
    assert s[i..][1..] == s[i + 1..];
    if i + 1 < |s| { assert s[i..][2..] == s[i + 2..]; }
  }

  method NormalizeNewlines(s: text) returns (out: text)
    ensures out == Normalized(s)
  {
    out := [];
    assert s[0..] == s;
    var index := 0;
    while index < |s|
      invariant 0 <= index <= |s|
      invariant out + Normalized(s[index..]) == Normalized(s)
    {
      NormalizedAt(s, index);
      hide Normalized;
      ghost var before, c := out, if s[index] == CR then LF else s[index];
      if s[index] == CR {
        out := out + [LF];
        if index + 1 < |s| && s[index + 1] == LF {
          index := index + 1;
        }
      } else {
        out := out + [s[index]];
      }
      index := index + 1;
      Appended(before, c, Normalized(s[index..]));
    }
  }

  lemma {:induction false} NormalizedHasNoCr(s: text)
    ensures CR !in Normalized(s)
  {
    if s != [] { NormalizedHasNoCr(s[Width(s)..]); }
  }

  /** Text is left alone exactly when it holds no carriage return, so normalizing twice changes nothing. */
  lemma {:induction false} NormalizedFixes(s: text)
    ensures Normalized(s) == s <==> CR !in s
  {
    NormalizedHasNoCr(s);
    if s != [] && CR !in s {
      assert CR !in s[1..];
      NormalizedFixes(s[1..]);
    }
  }

  lemma NormalizedTwice(s: text)
    ensures Normalized(Normalized(s)) == Normalized(s)
  {
    NormalizedHasNoCr(s);
    NormalizedFixes(Normalized(s));
  }

  /** Normalizing piecewise is normalizing the whole, except across a cut between `\r` and `\n`. */
  lemma {:induction false} NormalizedConcat(a: text, b: text)
    requires a != [] && b != [] && a[|a| - 1] == CR ==> b[0] != LF
    ensures Normalized(a + b) == Normalized(a) + Normalized(b)
  {
    if a == [] {
      assert a + b == b;
    } else {
      var k := Width(a);
      assert Width(a + b) == k;
      assert (a + b)[k..] == a[k..] + b;
      NormalizedConcat(a[k..], b);
    }
  }

  /** What stands behind the first line end or other unit. */
  lemma TailPaired(s: text)
    requires Paired(s) && s != []
    ensures
      var tail, c := s[Width(s)..], if s[0] == CR then LF else s[0];
      && Paired(tail) && (tail != [] ==> (EndsHigh([c]) <==> StartsLow(tail)))
      && (EndsHigh(s) <==> if tail == [] then EndsHigh([c]) else EndsHigh(tail))
  {
    var k := Width(s);
    var tail := s[k..];
    assert forall i :: 0 <= i < |tail| ==> tail[i] == s[k + i];
    if tail != [] { assert IsHigh(s[k - 1]) <==> IsLow(tail[0]); }
  }

  /** Surrogates keep their neighbours: pairs stay pairs, and only a lone first or last unit stays alone. */
  lemma {:induction false} NormalizedKeepsPairs(s: text)
    requires Paired(s)
    ensures Paired(Normalized(s))
    ensures StartsLow(Normalized(s)) <==> StartsLow(s)
    ensures EndsHigh(Normalized(s)) <==> EndsHigh(s)
    decreases |s|
  {
    if s != [] {
      var tail, c := s[Width(s)..], if s[0] == CR then LF else s[0];
      TailPaired(s);
      NormalizedKeepsPairs(tail);
      assert Normalized(s) == [c] + Normalized(tail);
      assert tail == [] ==> Normalized(tail) == [];
      assert tail != [] ==> Normalized(tail) != [];
      hide Normalized, Paired;
      PairOne(c);
      PairedConcat([c], Normalized(tail));
    }
  }

  lemma PairOne(c: unit)
    ensures Paired([c])
  {
  }

  // ---------------------------------------------------------------- searching

  predicate OccursAt(h: text, n: text, i: int) { 0 <= i <= |h| - |n| && h[i..i + |n|] == n }

  /** `i` is the first place at or after `from` where `n` occurs. */
  predicate FirstFrom(h: text, n: text, from: nat, i: int) {
    from <= i && OccursAt(h, n, i) && forall j :: from <= j < i ==> !OccursAt(h, n, j)
  }

  ghost predicate Once(h: text, n: text, i: int) { OccursAt(h, n, i) && forall j :: OccursAt(h, n, j) ==> j == i }

  method FindFrom(h: text, n: text, from: nat) returns (r: Option<nat>)
    ensures r.Some? ==> n != [] && FirstFrom(h, n, from, r.value)
    ensures r.None? ==> n == [] || forall j :: OccursAt(h, n, j) ==> j < from
  {
    if n == [] || from > |h| { return None; }
    var at := from;
    while at + |n| <= |h|
      invariant from <= at
      invariant forall j :: from <= j < at ==> !OccursAt(h, n, j)
    {
      if h[at..at + |n|] == n { return Some(at); }
      at := at + 1;
    }
    r := None;
  }

  /** Overlapping matches count as several. */
  method FindOnce(h: text, n: text) returns (r: Option<nat>)
    ensures r.Some? ==> n != [] && Once(h, n, r.value)
    ensures r.None? ==> n == [] || forall i :: !Once(h, n, i)
  {
    var first := FindFrom(h, n, 0);
    if first.None? { return None; }
    var second := FindFrom(h, n, first.value + 1);
    if second.Some? {
      assert second.value != first.value;
      return None;
    }
    assert forall j :: OccursAt(h, n, j) ==> j >= 0;
    r := first;
  }

  // ---------------------------------------------------------------- the first read

  predicate IsLineTerminator(u: unit) { u == 0x0D || u == 0x0A || u == 0x2029 }

  /** An anchor of nothing but line terminators counts as none. */
  function VisibleAnchor(a: text): text {
    if forall i :: 0 <= i < |a| ==> IsLineTerminator(a[i]) then [] else a
  }

  function Min(a: int, b: int): int { if a < b then a else b }
  function Before(field: text, at: nat): text requires at <= |field| { field[at - Min(at, ANCHOR_UNITS)..at] }
  function After(field: text, end: nat): text requires end <= |field| { field[end..Min(end + ANCHOR_UNITS, |field|)] }

  function Around(field: text, at: nat, end: nat): Found
    requires at <= end <= |field|
  {
    Found(VisibleAnchor(Before(field, at)), field[at..end], VisibleAnchor(After(field, end)))
  }

  /** The span found is the one occurrence with up to 32 units of context on each side. */
  ghost predicate Located(field: text, delivered: text, s: Found) {
    exists at: nat :: Once(field, delivered, at) && s == Around(field, at, at + |delivered|)
  }

  /** An anchor is the text beside the place, unless that is nothing but line ends. */
  ghost predicate Anchored(anchor: text, beside: text) {
    if forall u :: u in beside ==> u == 0x0A || u == 0x0D || u == 0x2029 then anchor == [] else anchor == beside
  }

  lemma AroundExactly(field: text, at: nat, end: nat)
    requires at <= end <= |field|
    ensures
      var s := Around(field, at, end);
      && s.region == field[at..end]
      && Anchored(s.before, if at < 32 then field[..at] else field[at - 32..at])
      && Anchored(s.after, if end + 32 > |field| then field[end..] else field[end..end + 32])
  {
    var s, before, after := Around(field, at, end), Before(field, at), After(field, end);
    assert before == if at < 32 then field[..at] else field[at - 32..at];
    assert after == if end + 32 > |field| then field[end..] else field[end..end + 32];
    VisibleExactly(before);
    VisibleExactly(after);
  }

  lemma VisibleExactly(beside: text)
    ensures Anchored(VisibleAnchor(beside), beside)
  {
    assert (forall i :: 0 <= i < |beside| ==> IsLineTerminator(beside[i]))
      <==> forall u :: u in beside ==> IsLineTerminator(u);
  }

  method LocateDelivered(raw: text, delivered: text) returns (r: Result<Found>)
    ensures r.Ok? <==> delivered != [] && exists i :: Once(Normalized(raw), delivered, i)
    ensures r.Ok? ==> Located(Normalized(raw), delivered, r.value)
    ensures r.Err? ==> r.error == NotFound
  {
    var field := NormalizeNewlines(raw);
    var found := FindOnce(field, delivered);
    if found.None? { return Err(NotFound); }
    var at := found.value;
    var end := at + |delivered|;
    r := Ok(Around(field, at, end));
  }

  // ---------------------------------------------------------------- later reads

  function RegionCap(delivered: nat, a: Anchors): nat {
    if a.before == [] || a.after == [] then delivered + ANCHOR_UNITS else 2 * delivered + 200
  }

  /** Where the region starts: the start of the field, or past the one occurrence of the anchor before it. */
  ghost predicate StartsAt(field: text, before: text, start: int) {
    if before == [] then start == 0 else Once(field, before, start - |before|)
  }

  ghost predicate EndsAt(field: text, after: text, start: nat, end: int) {
    if after == [] then end == |field| else FirstFrom(field, after, start, end)
  }

  ghost predicate Region(field: text, before: text, after: text, start: int, end: int) {
    0 <= start <= end <= |field| && StartsAt(field, before, start) && EndsAt(field, after, start, end)
  }

  /** The anchors fix the region. */
  lemma OneRegion(field: text, b: text, a: text, start: int, end: int)
    requires Region(field, b, a, start, end)
    ensures forall s, e :: Region(field, b, a, s, e) ==> s == start && e == end
  {
  }

  /** What a later read answers: the region, unless no anchors fix one or it is over the cap. */
  ghost function LocatedRegion(field: text, b: text, a: text, cap: nat): (r: Result<Found>)
    ensures r == Err(NotFound) <==> forall s, e :: !Region(field, b, a, s, e)
    ensures forall s, e :: Region(field, b, a, s, e) ==>
      r == if e - s <= cap then Ok(Found(b, field[s..e], a)) else Err(TooLong)
  {
    if s, e :| Region(field, b, a, s, e) then
      OneRegion(field, b, a, s, e);
      if e - s <= cap then Ok(Found(b, field[s..e], a)) else Err(TooLong)
    else Err(NotFound)
  }

  method LocateRegion(raw: text, anchors: Anchors, delivered: nat) returns (r: Result<Found>)
    ensures r == LocatedRegion(Normalized(raw), Normalized(anchors.before), Normalized(anchors.after),
      if anchors.before != [] && anchors.after != [] then 2 * delivered + 200 else delivered + 32)
  {
    var field := NormalizeNewlines(raw);
    var before := NormalizeNewlines(anchors.before);
    var after := NormalizeNewlines(anchors.after);
    var start := 0;
    if before != [] {
      var found := FindOnce(field, before);
      if found.None? {
        assert forall s :: !StartsAt(field, before, s);
        return Err(NotFound);
      }
      start := found.value + |before|;
    }
    var end := |field|;
    if after != [] {
      var found := FindFrom(field, after, start);
      if found.None? {
        assert forall s, e :: Region(field, before, after, s, e) ==> s == start;
        return Err(NotFound);
      }
      end := found.value;
    }
    assert Region(field, before, after, start, end);
    OneRegion(field, before, after, start, end);
    if end - start > RegionCap(delivered, anchors) { return Err(TooLong); }
    r := Ok(Found(before, field[start..end], after));
  }

  predicate Splits(field: text, p: text, b: text, region: text, a: text, q: text) {
    field == p + b + region + a + q && (b == [] ==> p == []) && (a == [] ==> q == [])
  }

  /** A located region splits the field, and the anchor after it occurs first at its end. */
  lemma RegionSplits(field: text, b: text, a: text, start: int, end: int)
    requires Region(field, b, a, start, end)
    ensures Splits(field, field[..start - |b|], b, field[start..end], a, field[end + |a|..])
    ensures a != [] ==> forall j :: start <= j < end ==> !OccursAt(field, a, j)
  {
    assert field == field[..start - |b|] + b + field[start..end] + a + field[end + |a|..];
  }

  // ---------------------------------------------------------------- finding an edit again

  /** The anchors a paste at `p + delivered + q` leaves, when neither collapses. */
  predicate Uncollapsed(p: text, q: text, s: Found) {
    s.before == Before(p, |p|) && s.after == After(q, 0)
  }

  /** In `p + edited + q` the anchor before still occurs once, the one after does not occur earlier past the
      start, and the edit fits the cap. */
  ghost predicate StillFixed(p: text, edited: text, q: text, s: Found, cap: nat) {
    var field := p + edited + q;
    && (p == [] || Once(field, s.before, |p| - |s.before|))
    && (q == [] || FirstFrom(field, s.after, |p|, |p| + |edited|))
    && |edited| <= cap
  }

  /** After an edit confined to the pasted region, a later read gives back the edited text exactly then. */
  lemma EditFoundExactly(p: text, edited: text, q: text, s: Found, cap: nat)
    requires Uncollapsed(p, q, s)
    ensures LocatedRegion(p + edited + q, s.before, s.after, cap) == Ok(Found(s.before, edited, s.after))
      <==> StillFixed(p, edited, q, s, cap)
  {
    var field := p + edited + q;
    var start, end := |p|, |p| + |edited|;
    AnchorsOccur(p, edited, q, s);
    hide OccursAt, Before, After;
    assert Region(field, s.before, s.after, start, end) <==> StillFixed(p, edited, q, s, |edited|);
    assert forall b, e :: Region(field, s.before, s.after, b, e) ==> b == start;
  }

  lemma AnchorsOccur(p: text, edited: text, q: text, s: Found)
    requires Uncollapsed(p, q, s)
    ensures var field := p + edited + q;
      OccursAt(field, s.before, |p| - |s.before|) && OccursAt(field, s.after, |p| + |edited|)
      && field[|p|..|p| + |edited|] == edited
  {
    var field := p + edited + q;
    assert field[..|p|] == p && field[|p| + |edited|..] == q;
    assert field[|p| - |s.before|..|p|] == field[..|p|][|p| - |s.before|..];
    assert field[|p| + |edited|..][..|s.after|] == field[|p| + |edited|..|p| + |edited| + |s.after|];
  }

  /** Text that an anchor keeps: empty, or with a unit that is no line terminator. */
  predicate Visible(a: text) { a == [] || exists i :: 0 <= i < |a| && !IsLineTerminator(a[i]) }

  lemma NormalSlice(s: text, i: nat, j: nat)
    requires CR !in s && i <= j <= |s|
    ensures Normalized(s[i..j]) == s[i..j]
  {
    NormalizedFixes(s[i..j]);
  }

  lemma SidesOf(p: text, d: text, q: text)
    ensures Before(p + d + q, |p|) == Before(p, |p|)
    ensures After(p + d + q, |p| + |d|) == After(q, 0)
  {
    var field, e := p + d + q, |p| + |d|;
    assert field[..|p|] == p && field[e..] == q;
    assert Before(field, |p|) == field[..|p|][|p| - Min(|p|, ANCHOR_UNITS)..];
    assert After(field, e) == field[e..][..Min(ANCHOR_UNITS, |q|)];
  }

  /** What the first read of `p + delivered + q` keeps, when the text beside the paste is visible. */
  lemma AnchorsKept(field: text, p: text, delivered: text, q: text, s: Found)
    requires field == p + delivered + q && Once(field, delivered, |p|)
    requires Located(field, delivered, s)
    requires Visible(Before(p, |p|)) && Visible(After(q, 0))
    ensures Uncollapsed(p, q, s)
  {
    hide Before, After, OccursAt;
    var at := |p|;
    SidesOf(p, delivered, q);
    assert s == Around(field, at, at + |delivered|);
  }

  lemma AnchorsNormal(p: text, q: text)
    requires CR !in p && CR !in q
    ensures Normalized(Before(p, |p|)) == Before(p, |p|) && Normalized(After(q, 0)) == After(q, 0)
  {
    NormalSlice(p, |p| - Min(|p|, ANCHOR_UNITS), |p|);
    NormalSlice(q, 0, Min(ANCHOR_UNITS, |q|));
  }

  /** From the first read to a later one: the paste was found at `p + delivered + q`, the text beside it is
      visible, and the field now reads `p + edited + q`. */
  lemma EditRecoveredExactly(raw: text, p: text, q: text, delivered: text, s: Found, later: text, edited: text)
    requires Normalized(raw) == p + delivered + q && Once(Normalized(raw), delivered, |p|)
    requires Located(Normalized(raw), delivered, s)
    requires Visible(Before(p, |p|)) && Visible(After(q, 0))
    requires Normalized(later) == p + edited + q
    ensures
      var cap := RegionCap(|delivered|, Anchors(s.before, s.after));
      var read := LocatedRegion(Normalized(later), Normalized(s.before), Normalized(s.after), cap);
      read == Ok(Found(s.before, edited, s.after)) <==> StillFixed(p, edited, q, s, cap)
  {
    hide Located, Visible, Once, StillFixed, LocatedRegion, Normalized;
    NormalizedHasNoCr(raw);
    assert CR !in p && CR !in q;
    AnchorsNormal(p, q);
    AnchorsKept(Normalized(raw), p, delivered, q, s);
    EditFoundExactly(p, edited, q, s, RegionCap(|delivered|, Anchors(s.before, s.after)));
  }
}
