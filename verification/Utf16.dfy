/** Text as the source's strings and buffers hold it: UTF-16 code units, which may be ill-formed. */
module Utf16 {
  type unit = x: int | 0 <= x < 0x1_0000
  type text = seq<unit>

  predicate IsHigh(u: unit) { 0xD800 <= u <= 0xDBFF }
  predicate IsLow(u: unit) { 0xDC00 <= u <= 0xDFFF }

  /** Inside the text, high surrogates are followed by low ones and low ones follow high ones. */
  predicate Paired(s: text) {
    forall i {:trigger s[i]} :: 0 <= i < |s| - 1 ==> (IsHigh(s[i]) <==> IsLow(s[i + 1]))
  }

  predicate StartsLow(s: text) { s != [] && IsLow(s[0]) }
  predicate EndsHigh(s: text) { s != [] && IsHigh(s[|s| - 1]) }

  predicate WellFormed(s: text) { Paired(s) && !StartsLow(s) && !EndsHigh(s) }

  /** A suffix of well-formed text: its first unit may be the low half of a cut pair. */
  predicate TailFormed(s: text) { Paired(s) && !EndsHigh(s) }

  /** A prefix of well-formed text: its last unit may be the high half of a cut pair. */
  predicate HeadFormed(s: text) { Paired(s) && !StartsLow(s) }

  lemma SlicesOfWellFormed(s: text, k: nat)
    requires WellFormed(s) && k <= |s|
    ensures TailFormed(s[k..]) && HeadFormed(s[..k])
  {
    assert forall i :: 0 <= i < |s| - k ==> s[k..][i] == s[k + i];
  }

  lemma PairedConcat(a: text, b: text)
    requires Paired(a) && Paired(b) && (a != [] && b != [] ==> (EndsHigh(a) <==> StartsLow(b)))
    ensures Paired(a + b)
  {
    var s := a + b;
    forall i {:trigger s[i]} | 0 <= i < |s| - 1 ensures IsHigh(s[i]) <==> IsLow(s[i + 1]) {
      if i + 1 < |a| { assert s[i] == a[i]; } else if i >= |a| { assert s[i] == b[i - |a|]; }
    }
  }

  lemma WellFormedConcat(a: text, b: text)
    requires WellFormed(a) && WellFormed(b)
    ensures WellFormed(a + b)
  {
    PairedConcat(a, b);
  }
}
