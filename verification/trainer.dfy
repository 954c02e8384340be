/**
 The typing session of `Trainer`: an immutable session record and one pure
 transition per UI event. Each event is applied atomically; React's effect
 scheduling is folded into the transition that triggers it. Clock readings
 (`new Date()`) are the abstract timestamp `now`, random word choices are the
 `draws` of the text generator, and the word bank is the parameter `bank`.
 */
module Trainer {
  import opened Wrappers
  import opened Text
  import opened Generator
  import opened ErrorMask
  import opened Normalise
  import opened Render

  /** The trainer's state. `inputEnabled` stands for the `contentEditable`
      flag of the hidden typing region; `active` for `isActive`. */
  datatype Session = Session(
    wordCount: nat,
    target: string,
    typed: string,
    errors: nat,
    mask: seq<bool>,
    start: Option<int>,
    end: Option<int>,
    active: bool,
    inputEnabled: bool)

  /** The word count a page starts with. */
  const InitialWordCount: nat := 10

  /** The word counts the controls offer. */
  predicate IsPreset(count: nat) {
    count == 10 || count == 25 || count == 50
  }

  /** The error count is the number of positions the mask flags. */
  predicate ErrorsMatchMask(s: Session) {
    s.errors == CountTrue(s.mask)
  }

  /** The state on mount: a fresh text of ten words, a clear mask as long as
      that text, nothing typed, no timestamps, inactive, input accepted. */
  function Mount(bank: seq<string>, draws: seq<nat>): (s: Session)
    requires ValidDraws(bank, draws) && |draws| == InitialWordCount
    ensures s.wordCount == InitialWordCount && s.target == GenerateText(bank, draws)
    ensures s.typed == "" && s.errors == 0 && s.start == None && s.end == None
    ensures |s.mask| == |s.target| && ErrorsMatchMask(s)
    ensures !s.active && s.inputEnabled
  {
    var text := GenerateText(bank, draws);
    CountTrueNoFlags(AllClear(|text|));
    Session(InitialWordCount, text, "", 0, AllClear(|text|), None, None, false, true)
  }

  /** `handleInput(value)`: the typed text becomes `value`, every mismatching
      position not yet flagged is flagged and counted once, and once the value
      is at least as long as the target the session ends and input stops. */
  function HandleInput(s: Session, value: string, now: int): (r: Session)
    ensures r.typed == value
    ensures r.(typed := s.typed, errors := s.errors, mask := s.mask, end := s.end, inputEnabled := s.inputEnabled) == s
    ensures forall i: nat :: FlagOf(r.mask, i) == (FlagOf(s.mask, i) || (i < |value| && Mismatch(value, s.target, i)))
    ensures |s.mask| <= |r.mask| <= Max(|s.mask|, |value|)
    ensures r.errors - s.errors == CountTrue(r.mask) - CountTrue(s.mask)
    ensures r.errors >= s.errors
    ensures |value| >= |s.target| ==> r.end == Some(now) && !r.inputEnabled
    ensures |value| < |s.target| ==> r.end == s.end && r.inputEnabled == s.inputEnabled
  {
    var (mask, added) := Reconcile(value, s.target, s.mask);
    var r := s.(typed := value, errors := s.errors + added, mask := mask);
    if |value| >= |s.target| then r.(end := Some(now), inputEnabled := false) else r
  }

  /** The start/end effect: the clock starts when exactly one character is
      typed and it has not started yet; typing the target exactly ends the
      session and stops input. Nothing else changes. */
  function StartEndEffect(s: Session, now: int): (r: Session)
    ensures s.start.Some? ==> r.start == s.start
    ensures r.start != s.start ==> s.start.None? && |s.typed| == 1 && r.start == Some(now)
    ensures |s.typed| == 1 && s.start.None? ==> r.start == Some(now)
    ensures s.typed == s.target ==> r.end == Some(now) && !r.inputEnabled
    ensures s.typed != s.target ==> r.end == s.end && r.inputEnabled == s.inputEnabled
    ensures r.(start := s.start, end := s.end, inputEnabled := s.inputEnabled) == s
  {
    var r := if |s.typed| == 1 && s.start.None? then s.(start := Some(now)) else s;
    if s.typed == s.target then r.(end := Some(now), inputEnabled := false) else r
  }

  /** An edit of the typing region delivering its raw buffer `raw`: ignored
      while input is disabled, otherwise the normalised buffer goes through
      `handleInput` and then the start/end effect.

      The typed text becomes the normalised buffer, unmodified. Mask entries
      only flip from clear to set, exactly at typed positions that mismatch
      the target (a position past its end always mismatches), and the error
      count grows by exactly the number of flips. A buffer at least as long
      as the target, or equal to it, ends the session and disables input.
      The clock starts only when exactly one character is typed and it has
      not started yet; a running clock is never reset by typing. */
  function Type(s: Session, raw: string, now: int): (r: Session)
    ensures !s.inputEnabled ==> r == s
    ensures s.inputEnabled ==> r.typed == StripNewlines(raw)
    ensures r.target == s.target && r.wordCount == s.wordCount && r.active == s.active
    ensures forall i: nat :: FlagOf(r.mask, i) ==
              (FlagOf(s.mask, i) || (s.inputEnabled && i < |r.typed| && Mismatch(r.typed, s.target, i)))
    ensures |s.mask| <= |r.mask| <= Max(|s.mask|, |r.typed|)
    ensures r.errors - s.errors == CountTrue(r.mask) - CountTrue(s.mask)
    ensures r.errors >= s.errors
    ensures s.inputEnabled && (|r.typed| >= |s.target| || r.typed == s.target) ==> r.end == Some(now) && !r.inputEnabled
    ensures s.inputEnabled && |r.typed| < |s.target| ==> r.end == s.end && r.inputEnabled
    ensures s.start.Some? ==> r.start == s.start
    ensures r.start != s.start ==> s.start == None && |r.typed| == 1 && r.start == Some(now)
    ensures s.inputEnabled && s.start == None && |r.typed| == 1 ==> r.start == Some(now)
  {
    if !s.inputEnabled then s else StartEndEffect(HandleInput(s, StripNewlines(raw), now), now)
  }

  /** `handleRestart`: a new text of `wordCount` words and a cleared session.
      The new mask has the length of the PREVIOUS text. */
  function Restart(bank: seq<string>, s: Session, draws: seq<nat>): (r: Session)
    requires ValidDraws(bank, draws) && |draws| == s.wordCount
    ensures r.wordCount == s.wordCount && r.target == GenerateText(bank, draws)
    ensures r.typed == "" && r.errors == 0 && r.start == None && r.end == None
    ensures |r.mask| == |s.target| && forall i: nat :: !FlagOf(r.mask, i)
    ensures !r.active && r.inputEnabled
  {
    Session(s.wordCount, GenerateText(bank, draws), "", 0, AllClear(|s.target|), None, None, false, true)
  }

  /** The effect that regenerates the text when the text length or the word
      count changes: like a restart, but `isActive` is left as it is. */
  function Regenerate(bank: seq<string>, s: Session, draws: seq<nat>): (r: Session)
    requires ValidDraws(bank, draws) && |draws| == s.wordCount
    ensures r.wordCount == s.wordCount && r.target == GenerateText(bank, draws)
    ensures r.typed == "" && r.errors == 0 && r.start == None && r.end == None
    ensures |r.mask| == |s.target| && forall i: nat :: !FlagOf(r.mask, i)
    ensures r.active == s.active && r.inputEnabled
  {
    Session(s.wordCount, GenerateText(bank, draws), "", 0, AllClear(|s.target|), None, None, s.active, true)
  }

  /** Choosing a preset word count: set the count, then restart. */
  function ChangeWordCount(bank: seq<string>, s: Session, count: nat, draws: seq<nat>): (r: Session)
    requires IsPreset(count) && ValidDraws(bank, draws) && |draws| == count
    ensures r.wordCount == count && r.target == GenerateText(bank, draws)
    ensures r.typed == "" && r.errors == 0 && r.start == None && r.end == None
    ensures |r.mask| == |s.target| && forall i: nat :: !FlagOf(r.mask, i)
    ensures !r.active && r.inputEnabled
  {
    Restart(bank, s.(wordCount := count), draws)
  }

  /** `handleActivateTyping`: a click on the text activates the trainer and
      re-enables input. */
  function Activate(s: Session): (r: Session)
    ensures r.active && r.inputEnabled
    ensures r.(active := s.active, inputEnabled := s.inputEnabled) == s
  {
    s.(active := true, inputEnabled := true)
  }

  /** `handleClickOutside`: the session is abandoned; the start time is
      cleared, the end time set and the trainer deactivated. */
  function ClickOutside(s: Session, now: int): (r: Session)
    ensures r.start == None && r.end == Some(now) && !r.active
    ensures r.(start := s.start, end := s.end, active := s.active) == s
  {
    s.(start := None, end := Some(now), active := false)
  }

  /** `calculateWPM` with the arithmetic supplied as `rate`, which receives the
      start and end readings and the number of words of the target. Without
      both timestamps the result is 0. */
  function Wpm(s: Session, rate: (int, int, nat) -> int): (w: int)
    ensures s.start == None || s.end == None ==> w == 0
  {
    if s.start == None || s.end == None then 0
    else rate(s.start.value, s.end.value, |Split(s.target)|)
  }

  /** The events that drive a session. */
  datatype Event =
    | Input(raw: string, now: int)
    | RestartClicked(draws: seq<nat>)
    | WordCountChosen(count: nat, draws: seq<nat>)
    | TextRegenerated(draws: seq<nat>)
    | TextClicked
    | ClickedOutside(now: int)

  /** An event the page can deliver in state `s`: the draws of a new text are
      indices into the bank, one per word. */
  predicate Admissible(bank: seq<string>, s: Session, e: Event) {
    match e
    case RestartClicked(draws) => ValidDraws(bank, draws) && |draws| == s.wordCount
    case WordCountChosen(count, draws) => IsPreset(count) && ValidDraws(bank, draws) && |draws| == count
    case TextRegenerated(draws) => ValidDraws(bank, draws) && |draws| == s.wordCount
    case _ => true
  }

  /** An event that replaces the text and clears the session. */
  predicate Resets(e: Event) {
    e.RestartClicked? || e.WordCountChosen? || e.TextRegenerated?
  }

  /** Dispatch of one event to its handler. A resetting event leaves a fresh
      session with a clear mask; every other event keeps the text and the
      word count and never lowers the error count. Only a preset click
      changes the word count. */
  function Step(bank: seq<string>, s: Session, e: Event): (r: Session)
    requires Admissible(bank, s, e)
    ensures Resets(e) ==> r.typed == "" && r.errors == 0 && r.start == None && r.end == None && r.inputEnabled
    ensures Resets(e) ==> forall i: nat :: !FlagOf(r.mask, i)
    ensures !Resets(e) ==> r.target == s.target && r.wordCount == s.wordCount && r.errors >= s.errors
    ensures e.WordCountChosen? ==> r.wordCount == e.count
    ensures !e.WordCountChosen? ==> r.wordCount == s.wordCount
    ensures e.ClickedOutside? ==> r.end == Some(e.now) && !r.active
    ensures e.TextClicked? ==> r.active && r.inputEnabled
  {
    match e
    case Input(raw, now) => Type(s, raw, now)
    case RestartClicked(draws) => Restart(bank, s, draws)
    case WordCountChosen(count, draws) => ChangeWordCount(bank, s, count, draws)
    case TextRegenerated(draws) => Regenerate(bank, s, draws)
    case TextClicked => Activate(s)
    case ClickedOutside(now) => ClickOutside(s, now)
  }

  /** True when every event of `events` is admissible in the state it meets. */
  predicate Feasible(bank: seq<string>, s: Session, events: seq<Event>)
    decreases |events|
  {
    |events| == 0 || (Admissible(bank, s, events[0]) && Feasible(bank, Step(bank, s, events[0]), events[1..]))
  }

  /** The session after a sequence of events. The word count stays one of
      the presets; without a resetting event the text is kept and the error
      count never falls. */
  function Run(bank: seq<string>, s: Session, events: seq<Event>): (r: Session)
    requires Feasible(bank, s, events)
    ensures IsPreset(s.wordCount) ==> IsPreset(r.wordCount)
    ensures (forall i :: 0 <= i < |events| ==> !Resets(events[i])) ==>
              r.target == s.target && r.wordCount == s.wordCount && r.errors >= s.errors
    decreases |events|
  {
    if |events| == 0 then s else Run(bank, Step(bank, s, events[0]), events[1..])
  }

  // ---------------------------------------------------------------------
  // Properties of typing

  /** Typing the same buffer again adds no error and leaves the mask as it
      is: each position is counted on its first mistake only. */
  lemma TypeTwiceAddsNothing(s: Session, raw: string, t1: int, t2: int)
    ensures Type(Type(s, raw, t1), raw, t2).errors == Type(s, raw, t1).errors
    ensures Type(Type(s, raw, t1), raw, t2).mask == Type(s, raw, t1).mask
  {
    var r1 := Type(s, raw, t1);
    if s.inputEnabled && r1.inputEnabled {
      var v := StripNewlines(raw);
      assert r1.typed == v && r1.target == s.target;
      assert Covers(r1.mask, v, r1.target);
      ScanCovered(v, r1.target, r1.mask, 0);
    }
  }

  /** After typing, no typed character is rendered neutral: a typed position
      is green when it matches the target and red when it does not. */
  lemma TypedCharactersColoured(s: Session, raw: string, now: int, k: nat, j: nat)
    requires s.inputEnabled
    requires k < |Split(s.target)| && j < |Split(s.target)[k]|
    ensures var r := Type(s, raw, now);
      var c := RenderText(r.target, r.typed, r.mask, r.active)[k][j];
      && c.index < |r.target| && c.ch == r.target[c.index]
      && (c.index < |r.typed| ==>
            && (c.colour == Correct <==> r.typed[c.index] == c.ch)
            && (c.colour == Wrong <==> r.typed[c.index] != c.ch))
  {
    var r := Type(s, raw, now);
    RenderedCell(r.target, r.typed, r.mask, r.active, k, j);
  }

  /** One typo on a fresh mask: a buffer as long as the target that differs
      from it at position `p` only flags exactly that position and counts one
      error. */
  lemma OneTypo(s: Session, typed: string, p: nat, now: int)
    requires s.inputEnabled && forall i: nat :: !FlagOf(s.mask, i)
    requires p < |s.target| == |typed| && typed == s.target[p := typed[p]] && typed[p] != s.target[p]
    requires '\n' !in typed
    ensures forall i: nat :: FlagOf(Type(s, typed, now).mask, i) <==> i == p
    ensures Type(s, typed, now).errors == s.errors + 1
  {
    SingleMismatch(typed, s.target, p);
    var r := Type(s, typed, now);
    StripIdentity(typed);
    CountTrueNoFlags(s.mask);
    FlagsOnlyAt(r.mask, p);
  }

  /** A mask whose only flag is at `p` counts one. */
  lemma FlagsOnlyAt(m: seq<bool>, p: nat)
    requires forall i: nat :: FlagOf(m, i) <==> i == p
    ensures CountTrue(m) == 1
  {
    assert FlagOf(m, p);
    assert m == (AllClear(|m|)[p := true]) by {
      forall i | 0 <= i < |m|
        ensures m[i] == AllClear(|m|)[p := true][i]
      {
        assert FlagOf(m, i) == m[i];
      }
    }
    CountTrueNoFlags(AllClear(|m|));
    CountTrueUpdate(AllClear(|m|), p);
  }

  /** The worked example: with "the cat sat" as the target and a clear mask,
      typing "the bat sat" flags position 4 only and counts one error. */
  lemma WorkedExample(s: Session, typed: string, now: int)
    requires s.inputEnabled && s.target == "the cat sat" && s.errors == 0
    requires s.mask == AllClear(11)
    requires typed == "the bat sat"
    ensures Type(s, typed, now).mask == AllClear(4) + [true] + AllClear(6)
    ensures Type(s, typed, now).errors == 1
  {
    ExampleTexts(s.target, typed);
    OneTypo(s, typed, 4, now);
    var m := Type(s, typed, now).mask;
    assert |m| == 11;
    ExampleMask();
    forall i | 0 <= i < 11
      ensures m[i] == AllClear(11)[4 := true][i]
    {
      assert FlagOf(m, i) == m[i];
    }
  }

  lemma ExampleMask()
    ensures AllClear(11)[4 := true] == AllClear(4) + [true] + AllClear(6)
  {
  }

  lemma ExampleTexts(target: string, typed: string)
    requires target == "the cat sat" && typed == "the bat sat"
    ensures |target| == |typed| == 11 && typed == target[4 := typed[4]] && typed[4] != target[4]
    ensures '\n' !in typed
  {
  }

  /** A value that differs from the target at position `p` only mismatches there. */
  lemma SingleMismatch(v: string, t: string, p: nat)
    requires p < |t| == |v| && v == t[p := v[p]] && v[p] != t[p]
    ensures forall i: nat :: i < |v| ==> (Mismatch(v, t, i) <==> i == p)
  {
  }

  // ---------------------------------------------------------------------
  // Properties of the other events

  /** After a restart the error count matches the (clear) mask, the new text
      has exactly `wordCount` words of the bank, WPM reads 0, and the
      start/end effect has nothing to do. */
  lemma RestartIsFresh(bank: seq<string>, s: Session, draws: seq<nat>, now: int, rate: (int, int, nat) -> int)
    requires WordBank(bank) && ValidDraws(bank, draws) && |draws| == s.wordCount >= 1
    ensures var r := Restart(bank, s, draws);
      && ErrorsMatchMask(r)
      && |Split(r.target)| == s.wordCount
      && (forall part :: part in Split(r.target) ==> part in bank)
      && Wpm(r, rate) == 0
      && StartEndEffect(r, now) == r
  {
    var r := Restart(bank, s, draws);
    CountTrueNoFlags(r.mask);
    GeneratedWords(bank, draws);
    GeneratedTextNonEmpty(bank, draws);
  }

  /** After a regeneration the same holds as after a restart, and the active
      flag is kept: errors match the mask, the new text has `wordCount` bank
      words, WPM reads 0 and the start/end effect has nothing to do. */
  lemma RegenerateIsFresh(bank: seq<string>, s: Session, draws: seq<nat>, now: int, rate: (int, int, nat) -> int)
    requires WordBank(bank) && ValidDraws(bank, draws) && |draws| == s.wordCount >= 1
    ensures var r := Regenerate(bank, s, draws);
      && ErrorsMatchMask(r)
      && |Split(r.target)| == s.wordCount
      && (forall part :: part in Split(r.target) ==> part in bank)
      && Wpm(r, rate) == 0
      && StartEndEffect(r, now) == r
  {
    var r := Regenerate(bank, s, draws);
    CountTrueNoFlags(r.mask);
    GeneratedWords(bank, draws);
    GeneratedTextNonEmpty(bank, draws);
  }

  /** The regeneration effect depends on the text's length, so it fires again
      whenever a firing changes that length. The firing that keeps the length
      is the last one: its text has the length it replaced, and its clear mask
      is as long as the text shown. */
  lemma RegenerateSettles(bank: seq<string>, s: Session, draws: seq<nat>)
    requires ValidDraws(bank, draws) && |draws| == s.wordCount
    requires |GenerateText(bank, draws)| == |s.target|
    ensures var r := Regenerate(bank, s, draws);
      && |r.target| == |s.target| && r.wordCount == s.wordCount
      && |r.mask| == |r.target| && forall i: nat :: !FlagOf(r.mask, i)
  {
  }

  /** The regeneration effect also runs on mount, so the session after its
      first firing is the mounted one regenerated: ten fresh bank words, a clear
      mask as long as the text generated at mount, inactive, input accepted,
      and nothing for the start/end effect to do. When that firing changes
      the text's length the effect fires again, as `RegenerateSettles`
      describes. */
  lemma FirstSession(bank: seq<string>, d0: seq<nat>, d1: seq<nat>, now: int)
    requires WordBank(bank) && ValidDraws(bank, d0) && ValidDraws(bank, d1)
    requires |d0| == InitialWordCount && |d1| == InitialWordCount
    ensures var m := Mount(bank, d0);
      var r := Regenerate(bank, m, d1);
      && r.wordCount == InitialWordCount && |Split(r.target)| == InitialWordCount
      && r.target == GenerateText(bank, d1)
      && |r.mask| == |m.target| && ErrorsMatchMask(r)
      && !r.active && r.inputEnabled
      && StartEndEffect(r, now) == r
  {
    var m := Mount(bank, d0);
    RegenerateIsFresh(bank, m, d1, now, (a, b, n) => 0);
  }

  /** Clicking outside abandons the session: it has ended, is inactive, and
      WPM reads 0 whatever the arithmetic. */
  lemma ClickOutsideAbandons(s: Session, now: int, rate: (int, int, nat) -> int)
    ensures var r := ClickOutside(s, now);
      r.end == Some(now) && !r.active && Wpm(r, rate) == 0
  {
  }

  /** Every event keeps the error count equal to the number of flagged
      positions. */
  lemma StepKeepsErrorsMatchMask(bank: seq<string>, s: Session, e: Event)
    requires Admissible(bank, s, e) && ErrorsMatchMask(s)
    ensures ErrorsMatchMask(Step(bank, s, e))
  {
    match e
    case Input(raw, now) =>
    case RestartClicked(draws) => CountTrueNoFlags(Step(bank, s, e).mask);
    case WordCountChosen(count, draws) => CountTrueNoFlags(Step(bank, s, e).mask);
    case TextRegenerated(draws) => CountTrueNoFlags(Step(bank, s, e).mask);
    case TextClicked =>
    case ClickedOutside(now) =>
  }

  /** Starting from a state whose error count matches its mask (a mounted or
      restarted one), the error count matches the mask after any sequence of
      events. */
  lemma {:induction false} RunKeepsErrorsMatchMask(bank: seq<string>, s: Session, events: seq<Event>)
    requires Feasible(bank, s, events) && ErrorsMatchMask(s)
    ensures ErrorsMatchMask(Run(bank, s, events))
    decreases |events|
  {
    if |events| > 0 {
      StepKeepsErrorsMatchMask(bank, s, events[0]);
      RunKeepsErrorsMatchMask(bank, Step(bank, s, events[0]), events[1..]);
    }
  }

  /** Only typing starts the clock, and only by the one-character rule; apart
      from events that reset or abandon the session, a running clock keeps
      its start time. */
  lemma StepStartTime(bank: seq<string>, s: Session, e: Event)
    requires Admissible(bank, s, e)
    ensures var r := Step(bank, s, e);
      && (r.start.Some? && r.start != s.start ==>
            e.Input? && s.start == None && |r.typed| == 1 && r.start == Some(e.now))
      && (s.start.Some? && (e.Input? || e.TextClicked?) ==> r.start == s.start)
  {
  }

  // ---------------------------------------------------------------------
  // Abandoning with one character typed (see README, Findings)

  /** `handleClickOutside` as the page runs it: clearing `startTime` changes a
      dependency of the start/end effect, which then runs again and, with one
      character typed, starts the clock anew. */
  function ClickOutsideAsWritten(s: Session, now: int): (r: Session)
    ensures r.end == Some(now) && !r.active
    ensures s.start.Some? && |s.typed| == 1 ==> r.start == Some(now)
  {
    var c := ClickOutside(s, now);
    if c.start != s.start then StartEndEffect(c, now) else c
  }

  /** With one character typed and the clock running, clicking outside as
      written leaves both timestamps set, so WPM is computed rather than 0. */
  lemma ClickOutsideAsWrittenKeepsWpm(s: Session, now: int)
    requires s.start.Some? && |s.typed| == 1
    ensures Wpm(ClickOutsideAsWritten(s, now), (a, b, n) => 1) == 1
    ensures Wpm(ClickOutside(s, now), (a, b, n) => 1) == 0
  {
  }
}
