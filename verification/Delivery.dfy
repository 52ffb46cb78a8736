/** Transcript delivery through a borrowed clipboard. The host keeps one pending borrow, change tokens and
    generations; what it promises is a much simpler picture: a transcript shown for a while over the content
    that is rightfully the user's. The host is proved to keep to that picture in every run. */
module Delivery {
  import opened Wrappers

  /** What the clipboard can hold. Only text can be read back. */
  datatype Content = Empty | Text(text: string) | Picture(id: nat)

  /** A transcript on the clipboard, with `snapshot` owed back. */
  datatype Borrow = Borrow(generation: nat, token: nat, transcript: string, snapshot: Option<string>)

  /** A delivery between its clipboard write and its paste. */
  datatype InProgress = Nothing | Keeping | Borrowing(text: string, token: nat, snapshot: Option<string>)

  /** The clipboard with its change counter, and the host's own state. */
  datatype Host = Host(content: Content, token: nat, slot: Option<Borrow>, next: nat, delivery: InProgress)

  function Start(c: Content): Host { Host(c, 0, None, 1, Nothing) }

  function Capture(c: Content): Option<string> { if c.Text? then Some(c.text) else None }

  /** What handing a snapshot back puts there: its text, or nothing. */
  function Restored(snapshot: Option<string>): Content { if snapshot.Some? then Text(snapshot.value) else Empty }

  function Write(s: Host, c: Content): Host { s.(content := c, token := s.token + 1) }

  predicate ChangedHands(s: Host, b: Borrow) { b.token != s.token }

  datatype Event =
    | Begin(text: string, canPaste: bool, keep: bool, writes: bool)
    | Pasted(ok: bool)
    | Wake(generation: nat, writes: bool)
    | Copy(content: Content)

  /** From the start of `write_text` to its first await, or to its return. */
  function BeginDelivery(s: Host, text: string, canPaste: bool, keep: bool, writes: bool): Host {
    if !writes then s
    else if !canPaste then Write(s, Text(text)).(slot := None)
    else if keep then Write(s, Text(text)).(slot := None, delivery := Keeping)
    else
      var inheriting := s.slot.Some? && !ChangedHands(s, s.slot.value);
      var snapshot := if inheriting then s.slot.value.snapshot else Capture(s.content);
      var t := Write(s, Text(text));
      t.(slot := None, delivery := Borrowing(text, t.token, snapshot))
  }

  /** From the paste keystroke to the return. */
  function FinishDelivery(s: Host, ok: bool): Host {
    match s.delivery
    case Nothing => s
    case Keeping => s.(delivery := Nothing)
    case Borrowing(text, token, snapshot) =>
      if !ok then s.(delivery := Nothing)
      else s.(delivery := Nothing, next := s.next + 1, slot := Some(Borrow(s.next, token, text, snapshot)))
  }

  /** A restore waking up for its generation. `writes` is whether the clipboard write it may make works. */
  function WakeRestore(s: Host, generation: nat, writes: bool): Host {
    if s.slot.None? || s.slot.value.generation != generation then s
    else
      var pending, t := s.slot.value, s.(slot := None);
      if ChangedHands(t, pending) || !writes then t else Write(t, Restored(pending.snapshot))
  }

  function Next(s: Host, e: Event): Host {
    match e
    case Begin(text, canPaste, keep, writes) =>
      if s.delivery.Nothing? then BeginDelivery(s, text, canPaste, keep, writes) else s
    case Pasted(ok) => FinishDelivery(s, ok)
    case Wake(g, writes) => WakeRestore(s, g, writes)
    case Copy(c) => Write(s, c)
  }

  function Run(s: Host, events: seq<Event>): Host {
    if events == [] then s else Next(Run(s, events[..|events| - 1]), events[|events| - 1])
  }

  // ---------------------------------------------------------------- the promise

  /** The user's rightful content, and the transcript shown over it, if one is. `borrows` counts the
      deliveries that ended with a borrow, so it names the newest one. */
  datatype Showing = Showing(rightful: Content, shown: Option<string>, borrows: nat, delivering: bool, borrowing: bool)

  function Visible(p: Showing): Content { if p.shown.Some? then Text(p.shown.value) else p.rightful }

  /** What each event means. A copy is the user's word: it ends whatever was shown. A delivery that cannot
      paste, means to keep its text, or fails to paste leaves its transcript as the rightful content. A
      borrow shows its transcript over what is rightful (content the platform cannot read as text counts as
      nothing from then on). Only the newest borrow's wake-up ends the showing, and never during a delivery. */
  function Promised(p: Showing, e: Event): Showing {
    match e
    case Copy(c) => p.(rightful := c, shown := None)
    case Begin(text, canPaste, keep, writes) =>
      if p.delivering || !writes then p
      else if !canPaste || keep then
        p.(rightful := Text(text), shown := None, delivering := canPaste, borrowing := false)
      else p.(rightful := if p.shown.Some? then p.rightful else Restored(Capture(p.rightful)),
              shown := Some(text), delivering := true, borrowing := true)
    case Pasted(ok) =>
      if !p.delivering then p
      else if !p.borrowing then p.(delivering := false)
      else if ok then p.(delivering := false, borrowing := false, borrows := p.borrows + 1)
      else Keep(p).(delivering := false, borrowing := false)
    case Wake(g, writes) =>
      if p.delivering || p.shown.None? || g != p.borrows then p
      else if writes then p.(shown := None)
      else Keep(p)
  }

  /** What is shown becomes rightful. */
  function Keep(p: Showing): Showing { p.(rightful := Visible(p), shown := None) }

  function PromisedRun(c: Content, events: seq<Event>): Showing {
    if events == [] then Showing(c, None, 0, false, false)
    else Promised(PromisedRun(c, events[..|events| - 1]), events[|events| - 1])
  }

  /** The coupling: the clipboard is what the promise shows, a borrow whose token still matches is the one
      being shown and holds the rightful content, and its generation is the newest. */
  ghost predicate Keeps(s: Host, p: Showing) {
    && s.content == Visible(p)
    && s.next == p.borrows + 1
    && p.delivering == !s.delivery.Nothing? && p.borrowing == s.delivery.Borrowing?
    && (p.shown.Some? ==> s.slot.Some? || s.delivery.Borrowing?)
    && (s.slot.Some? ==>
          && s.delivery.Nothing?
          && s.slot.value.generation == p.borrows && s.slot.value.token <= s.token
          && (p.shown.Some? <==> s.slot.value.token == s.token)
          && (p.shown.Some? ==> s.slot.value.transcript == p.shown.value)
          && (p.shown.Some? ==> Restored(s.slot.value.snapshot) == p.rightful))
    && (s.delivery.Borrowing? ==>
          && s.delivery.token <= s.token
          && (p.shown.Some? <==> s.delivery.token == s.token)
          && (p.shown.Some? ==> s.delivery.text == p.shown.value && Restored(s.delivery.snapshot) == p.rightful))
  }

  lemma NextKeeps(s: Host, p: Showing, e: Event)
    requires Keeps(s, p)
    ensures Keeps(Next(s, e), Promised(p, e))
  {
  }

  lemma {:induction false} RunKeeps(c: Content, events: seq<Event>)
    ensures Keeps(Run(Start(c), events), PromisedRun(c, events))
  {
    if events != [] {
      RunKeeps(c, events[..|events| - 1]);
      NextKeeps(Run(Start(c), events[..|events| - 1]), PromisedRun(c, events[..|events| - 1]), events[|events| - 1]);
    }
  }

  /** In every run of deliveries, wake-ups and copies the clipboard holds what the promise shows; with no
      delivery in progress and no borrow pending, that is the rightful content. */
  lemma ClipboardAsPromised(c: Content, events: seq<Event>)
    ensures var s, p := Run(Start(c), events), PromisedRun(c, events);
            && s.content == Visible(p)
            && (s.delivery.Nothing? && s.slot.None? ==> s.content == p.rightful)
  {
    RunKeeps(c, events);
  }

  /** A wake-up that writes the clipboard belongs to the newest borrow, finds that borrow's transcript still
      there, and puts back exactly the rightful content. So nothing newer is ever overwritten. */
  lemma RestoreWritesOwed(c: Content, events: seq<Event>, g: nat, writes: bool)
    ensures var s, p := Run(Start(c), events), PromisedRun(c, events);
            var t := Next(s, Wake(g, writes));
            t.token != s.token ==>
              && g == s.next - 1 && s.delivery.Nothing?
              && s.slot.Some? && s.content == Text(s.slot.value.transcript)
              && t.content == p.rightful && t.slot.None?
  {
    RunKeeps(c, events);
  }

  /** The newest borrow's wake-up always ends it: afterwards nothing is pending and the clipboard is the
      user's, or the transcript is where a failed write leaves it. */
  lemma WakeEndsBorrow(c: Content, events: seq<Event>, writes: bool)
    requires Run(Start(c), events).delivery.Nothing?
    ensures var s, p := Run(Start(c), events), PromisedRun(c, events);
            var t := Next(s, Wake(p.borrows, writes));
            t.slot.None? && t.content == if writes then p.rightful else Visible(p)
  {
    RunKeeps(c, events);
  }

  /** Deliveries in quick succession hand back what the first one displaced: whatever borrows follow each
      other with no copy in between, and whichever older wake-ups fire, the last one's wake-up restores it. */
  lemma {:induction false} ChainHandsBackFirst(c: Content, before: seq<Event>, chain: seq<Event>)
    requires forall e :: e in chain ==>
               (e.Begin? && e.canPaste && !e.keep && e.writes) || (e.Pasted? && e.ok)
               || (e.Wake? && e.generation < PromisedRun(c, before).borrows)
    requires PromisedRun(c, before).shown.Some?
    ensures PromisedRun(c, before + chain).rightful == PromisedRun(c, before).rightful
    ensures PromisedRun(c, before + chain).shown.Some?
    ensures PromisedRun(c, before + chain).borrows >= PromisedRun(c, before).borrows
  {
    if chain == [] {
      assert before + chain == before;
    } else {
      ChainHandsBackFirst(c, before, chain[..|chain| - 1]);
      assert (before + chain)[..|before + chain| - 1] == before + chain[..|chain| - 1];
      assert chain[|chain| - 1] in chain;
    }
  }

  /** One borrow from any state at rest: text the user had comes back as it was, and whatever the platform cannot
      read as text is cleared; in between the clipboard holds the transcript. */
  lemma BorrowHandsBack(s: Host, text: string)
    requires s.slot.None? && s.delivery.Nothing?
    ensures
      var begun := Next(s, Begin(text, true, false, true));
      var pasted := Next(begun, Pasted(true));
      var woken := Next(pasted, Wake(s.next, true));
      && begun.content == pasted.content == Text(text)
      && woken.content == (if s.content.Text? then s.content else Empty)
      && woken.slot.None? && woken.delivery.Nothing?
  {
  }

  /** A copy while the transcript is borrowed stays. */
  lemma CopyStays(s: Host, text: string, c: Content)
    requires s.slot.None? && s.delivery.Nothing?
    ensures
      var pasted := Next(Next(s, Begin(text, true, false, true)), Pasted(true));
      Next(Next(pasted, Copy(c)), Wake(s.next, true)).content == c
  {
  }

  // ---------------------------------------------------------------- the host as it runs

  class ClipboardHost {
    var content: Content
    var token: nat
    var slot: Option<Borrow>
    var next: nat
    var delivery: InProgress

    function View(): Host
      reads this
    {
      Host(content, token, slot, next, delivery)
    }

    constructor (c: Content)
      ensures View() == Start(c)
    {
      content, token, slot, next, delivery := c, 0, None, 1, Nothing;
    }

    /** The clipboard changes hands: the user copies, or the host writes. */
    method SetClipboard(c: Content)
      modifies this`content, this`token
      ensures View() == Write(old(View()), c)
    {
      content := c;
      token := token + 1;
    }

    method WriteText(text: string, canPaste: bool, keepOnClipboard: bool, writes: bool) returns (ok: bool)
      requires delivery.Nothing?
      modifies this
      ensures ok == writes && View() == BeginDelivery(old(View()), text, canPaste, keepOnClipboard, writes)
    {
      ok := writes;
      if !canPaste {
        if !writes { return; }
        SetClipboard(Text(text));
        slot := None;
        return;
      }
      if keepOnClipboard {
        if !writes { return; }
        SetClipboard(Text(text));
        slot := None;
        delivery := Keeping;
        return;
      }
      var inheriting := slot.Some? && slot.value.token == token;
      var captured := if !inheriting then Some(Capture(content)) else None;
      if !writes { return; }
      SetClipboard(Text(text));
      var displaced := slot;
      slot := None;
      var snapshot := if displaced.Some? && inheriting then displaced.value.snapshot
                      else if captured.Some? then captured.value else Capture(content);
      delivery := Borrowing(text, token, snapshot);
    }

    method AfterSettle(pasted: bool)
      modifies this
      ensures View() == FinishDelivery(old(View()), pasted)
    {
      if delivery.Borrowing? && pasted {
        var generation := next;
        next := next + 1;
        slot := Some(Borrow(generation, delivery.token, delivery.text, delivery.snapshot));
      }
      delivery := Nothing;
    }

    method RestoreWakes(generation: nat, writes: bool)
      modifies this
      ensures View() == WakeRestore(old(View()), generation, writes)
    {
      var taken := slot;
      slot := None;
      if taken.None? { return; }
      if taken.value.generation != generation {
        slot := taken;
        return;
      }
      if taken.value.token != token { return; }
      if writes { SetClipboard(Restored(taken.value.snapshot)); }
    }
  }
}
