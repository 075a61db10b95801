/** The typewriter state machine of the portfolio's hero section: a fixed,
    ordered list of phrases is typed one character at a time, held for a
    pause, deleted one character at a time, and then the next phrase (modulo
    the list length) is typed, forever.

    This module holds the state, the single-step transition and the timer
    delays as pure functions, together with the one-step properties. */
module Typewriter {

  datatype Mode = Typing | Deleting

  /** The three state cells of the component: the displayed text, the index
      of the current phrase and the deleting flag. */
  datatype State = State(text: string, index: nat, mode: Mode)

  /** Timer delays, in milliseconds. */
  const TypeDelay: nat := 100
  const DeleteDelay: nat := 50
  const PauseDelay: nat := 2000

  /** The component's state when it is first rendered: nothing typed yet,
      first phrase, typing. */
  function Initial(): (r: State)
    ensures r.text == [] && r.index == 0 && r.mode == Typing
  {
    State("", 0, Typing)
  }

  /** The invariant the component keeps: the index names a phrase and the
      displayed text is a prefix of that phrase. */
  ghost predicate ValidState(texts: seq<string>, s: State) {
    s.index < |texts| && s.text <= texts[s.index]
  }

  /** The string method `slice(0, end)` for a non-negative `end`: the first
      `end` characters, or the whole string when it is shorter. */
  function Slice(s: string, end: nat): (r: string)
    ensures r <= s
    ensures |r| == if end <= |s| then end else |s|
  {
    if end <= |s| then s[..end] else s
  }

  /** The transition the timer callback performs: type the next character,
      switch to deleting once the phrase is complete, delete a character,
      or, once the text is empty, go back to typing the next phrase. */
  function Step(texts: seq<string>, s: State): (r: State)
    requires s.index < |texts|
    ensures r.index < |texts|
    ensures ValidState(texts, s) ==> ValidState(texts, r)
  {
    var phrase := texts[s.index];
    match s.mode
    case Typing =>
      if |s.text| < |phrase| then State(Slice(phrase, |s.text| + 1), s.index, Typing)
      else State(s.text, s.index, Deleting)
    case Deleting =>
      if |s.text| > 0 then State(Slice(phrase, |s.text| - 1), s.index, Deleting)
      else State(s.text, (s.index + 1) % |texts|, Typing)
  }

  /** The delay the component passes to its timer in state `s`: 50 ms
      while deleting, 100 ms while typing. */
  function Delay(s: State): (ms: nat)
    ensures ms == 50 <==> s.mode == Deleting
    ensures ms == 100 <==> s.mode.Typing?
  {
    if s.mode == Deleting then DeleteDelay else TypeDelay
  }

  /** True when the step from `s` is the pause: the phrase is fully typed. */
  predicate IsPause(texts: seq<string>, s: State): (b: bool)
    requires s.index < |texts|
    ensures b <==> (s.mode == Typing && Step(texts, s).mode == Deleting)
    ensures b ==> Step(texts, s) == State(s.text, s.index, Deleting)
  {
    s.mode == Typing && |s.text| >= |texts[s.index]|
  }

  /** The extra wait the pause step inserts before its effect. */
  function PauseBefore(texts: seq<string>, s: State): (ms: nat)
    requires s.index < |texts|
    ensures ms == 2000 <==> IsPause(texts, s)
    ensures ms == 0 <==> !IsPause(texts, s)
  {
    if IsPause(texts, s) then PauseDelay else 0
  }

  /** Milliseconds from entering `s` until the state that follows it. */
  function Wait(texts: seq<string>, s: State): (ms: nat)
    requires s.index < |texts|
    ensures ms == 2100 <==> IsPause(texts, s)
    ensures ms == 100 <==> (s.mode == Typing && !IsPause(texts, s))
    ensures ms == 50 <==> s.mode == Deleting
  {
    Delay(s) + PauseBefore(texts, s)
  }

  lemma InitialValid(texts: seq<string>)
    requires |texts| > 0
    ensures ValidState(texts, Initial())
    ensures Initial().text == [] && Initial().index == 0 && Initial().mode == Typing
  {
  }

  /** Typing a phrase that is not complete appends exactly its next
      character, after 100 ms; index and mode stay. */
  lemma StepType(texts: seq<string>, s: State)
    requires ValidState(texts, s)
    requires s.mode == Typing && |s.text| < |texts[s.index]|
    ensures Step(texts, s) == State(s.text + [texts[s.index][|s.text|]], s.index, Typing)
    ensures Wait(texts, s) == 100
  {
  }

  /** A fully typed phrase stays on screen and the mode becomes deleting,
      after the 100 ms timer and the 2000 ms pause. */
  lemma StepPause(texts: seq<string>, s: State)
    requires ValidState(texts, s)
    requires s.mode == Typing && |s.text| == |texts[s.index]|
    ensures Step(texts, s) == State(texts[s.index], s.index, Deleting)
    ensures Delay(s) == 100 && PauseBefore(texts, s) == 2000
    ensures Wait(texts, s) == 2100
  {
  }

  /** Deleting removes exactly the last character, after 50 ms; index and
      mode stay. */
  lemma StepDelete(texts: seq<string>, s: State)
    requires ValidState(texts, s)
    requires s.mode == Deleting && |s.text| > 0
    ensures Step(texts, s) == State(s.text[..|s.text| - 1], s.index, Deleting)
    ensures Wait(texts, s) == 50
  {
  }

  /** Once the text is empty in deleting mode, the next phrase is taken,
      wrapping to the first after the last, and typing resumes. */
  lemma StepAdvance(texts: seq<string>, s: State)
    requires s.index < |texts|
    requires s.mode == Deleting && s.text == []
    ensures Step(texts, s) == State([], (s.index + 1) % |texts|, Typing)
    ensures |texts| == 1 ==> Step(texts, s).index == 0
    ensures s.index + 1 < |texts| ==> Step(texts, s).index == s.index + 1
    ensures s.index + 1 == |texts| ==> Step(texts, s).index == 0
    ensures Wait(texts, s) == 50
  {
  }

  /** The phrase index changes exactly on the advance step of a list with
      more than one phrase. */
  lemma StepIndexChanges(texts: seq<string>, s: State)
    requires s.index < |texts|
    ensures Step(texts, s).index != s.index <==>
              (s.mode == Deleting && s.text == [] && |texts| > 1)
  {
  }

  /** The mode flips exactly on the pause and on the advance step. */
  lemma StepModeChanges(texts: seq<string>, s: State)
    requires s.index < |texts|
    ensures Step(texts, s).mode != s.mode <==>
              (IsPause(texts, s) || (s.mode == Deleting && s.text == []))
  {
  }
}
