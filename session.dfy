/**
 * The learning-session state machine of one unit, as pure transitions on a
 * state value: typing a word, replaying every word learned so far
 * (reinforcement), and completion. The class in module WordEngine runs these
 * transitions in place; the properties are proved here.
 */
module Session {
  import opened Types
  import opened Text
  import opened Progress

  datatype Phase = Typing | Reinforcement | Complete

  /** The session's fields. `queue` and `currentReinforcementIndex` keep their
      old values when the session goes back to typing. */
  datatype State = State(
    currentIndex: int,
    phase: Phase,
    inputVal: string,
    queue: seq<Word>,
    currentReinforcementIndex: nat)

  /** The state a session starts in before anything is loaded. */
  const Initial := State(0, Typing, "", [], 0)

  /** The invariant every reachable state keeps. In reinforcement the queue is
      the cumulative prefix of the unit up to the word just learned and the
      replay position is inside it; a completed session sits on the last word. */
  predicate Valid(words: seq<Word>, s: State) {
    && (s.phase == Reinforcement ==>
          && 0 <= s.currentIndex < |words|
          && s.queue == words[..s.currentIndex + 1]
          && s.currentReinforcementIndex < |s.queue|
          && s.inputVal == "")
    && (s.phase == Complete ==> s.currentIndex == |words| - 1)
  }

  /** The answer check: the typed text, trimmed and lower-cased, equals the
      word lower-cased. */
  predicate Matches(inputVal: string, en: string) {
    ToLower(Trim(inputVal)) == ToLower(en)
  }

  /** `handleInput`: keystrokes are kept only while typing. */
  function HandleInput(s: State, val: string): (r: State)
    ensures s.phase == Typing ==> r == s.(inputVal := val)
    ensures s.phase != Typing ==> r == s
  {
    if s.phase != Typing then s else s.(inputVal := val)
  }

  /** What `submitInput` gives its caller: a boolean, or the TypeError raised
      when the current word does not exist. */
  datatype Outcome = Returned(accepted: bool) | Threw

  /** `submitInput`: compare the stored input with the current word and, on a
      match, snapshot the cumulative queue and enter reinforcement. */
  function Submit(words: seq<Word>, s: State): (r: (State, Outcome))
    ensures r.1 == Returned(true) <==>
      s.phase == Typing && 0 <= s.currentIndex < |words| && Matches(s.inputVal, words[s.currentIndex].en)
    ensures r.1 == Threw <==> s.phase == Typing && !(0 <= s.currentIndex < |words|)
    ensures r.1 != Returned(true) ==> r.0 == s
    ensures r.1 == Returned(true) ==>
      && r.0.phase == Reinforcement
      && r.0.currentIndex == s.currentIndex
      && |r.0.queue| == s.currentIndex + 1
      && (forall i | 0 <= i < |r.0.queue| :: r.0.queue[i] == words[i])
      && r.0.currentReinforcementIndex == 0
      && r.0.inputVal == ""
  {
    if s.phase != Typing then (s, Returned(false))
    else if !(0 <= s.currentIndex < |words|) then (s, Threw)
    else if Matches(s.inputVal, words[s.currentIndex].en) then
      (s.(phase := Reinforcement, queue := words[..s.currentIndex + 1], currentReinforcementIndex := 0, inputVal := ""),
       Returned(true))
    else (s, Returned(false))
  }

  /** `advanceReinforcement`: step through the queue; at its end move on to
      the next word or complete the unit. */
  function Advance(words: seq<Word>, s: State): (r: State)
    ensures s.phase != Reinforcement ==> r == s
    ensures s.currentIndex <= r.currentIndex <= s.currentIndex + 1
    ensures s.phase == Reinforcement && s.currentReinforcementIndex < |s.queue| - 1 ==>
      r == s.(currentReinforcementIndex := s.currentReinforcementIndex + 1)
    ensures s.phase == Reinforcement && s.currentReinforcementIndex >= |s.queue| - 1 ==>
      r.currentReinforcementIndex == s.currentReinforcementIndex
      && (if s.currentIndex < |words| - 1
          then r == s.(currentIndex := s.currentIndex + 1, phase := Typing)
          else r == s.(phase := Complete))
  {
    if s.phase != Reinforcement then s
    else if s.currentReinforcementIndex < |s.queue| - 1 then
      s.(currentReinforcementIndex := s.currentReinforcementIndex + 1)
    else if s.currentIndex < |words| - 1 then
      s.(currentIndex := s.currentIndex + 1, phase := Typing)
    else
      s.(phase := Complete)
  }

  /** The state part of `resetProgress`; the typed text is left as it is. */
  function Reset(s: State): (r: State)
    ensures r == Initial.(inputVal := s.inputVal)
  {
    State(0, Typing, s.inputVal, [], 0)
  }

  /** The state after mounting: the initial state with the load decision applied. */
  function Mount(words: seq<Word>, d: Restore): (r: State)
    ensures d == Fresh ==> r == Initial
    ensures d.Resume? ==> r == Initial.(currentIndex := d.savedIndex)
    ensures d == Finished ==> r == Initial.(phase := Complete, currentIndex := |words| - 1)
  {
    match d
    case Fresh => Initial
    case Resume(i) => Initial.(currentIndex := i)
    case Finished => Initial.(phase := Complete, currentIndex := |words| - 1)
  }

  // ---------------------------------------------------------------------
  // Properties of the transitions

  /** The answer check ignores letter case. */
  lemma MatchesIgnoresCase(x: string, y: string, en: string)
    requires ToLower(x) == ToLower(y)
    ensures Matches(x, en) <==> Matches(y, en)
  {
    TrimToLowerCommute(x);
    TrimToLowerCommute(y);
  }

  /** The answer check ignores white space around the typed text. */
  lemma MatchesIgnoresPadding(w1: string, x: string, w2: string, en: string)
    requires AllSpace(w1) && AllSpace(w2)
    ensures Matches(w1 + x + w2, en) <==> Matches(x, en)
  {
    TrimIgnoresPadding(w1, x, w2);
  }

  /** Submitting answers the same whatever the letter case of the typed text. */
  lemma SubmitIgnoresCase(words: seq<Word>, s: State, typed: string)
    requires ToLower(typed) == ToLower(s.inputVal)
    ensures Submit(words, s.(inputVal := typed)).1 == Submit(words, s).1
  {
    if s.phase == Typing && 0 <= s.currentIndex < |words| {
      MatchesIgnoresCase(typed, s.inputVal, words[s.currentIndex].en);
    }
  }

  /** Submitting answers the same with white space around the typed text. */
  lemma SubmitIgnoresPadding(words: seq<Word>, s: State, w1: string, w2: string)
    requires AllSpace(w1) && AllSpace(w2)
    ensures Submit(words, s.(inputVal := w1 + s.inputVal + w2)).1 == Submit(words, s).1
  {
    if s.phase == Typing && 0 <= s.currentIndex < |words| {
      MatchesIgnoresPadding(w1, s.inputVal, w2, words[s.currentIndex].en);
    }
  }

  /** Mounting yields a valid state whatever the stored record says. */
  lemma MountValid(words: seq<Word>, d: Restore)
    ensures Valid(words, Mount(words, d))
  {
  }

  /** Saving a valid state and mounting again restores its word index and
      whether it was complete. */
  lemma SaveThenMount(words: seq<Word>, s: State, stored: Stored, level: string, unit: string)
    requires Valid(words, s)
    ensures var saved := SaveProgress(stored, level, unit, Record(s.currentIndex, s.phase == Complete));
      var m := Mount(words, RestoreDecision(saved, level, unit));
      m.currentIndex == s.currentIndex && (m.phase == Complete <==> s.phase == Complete)
  {
    SaveThenRestore(stored, level, unit, Record(s.currentIndex, s.phase == Complete));
  }

  /** A command issued by the presentation layer. */
  datatype Command = Input(val: string) | SubmitCmd | AdvanceCmd | ResetCmd

  function Apply(words: seq<Word>, s: State, c: Command): State {
    match c
    case Input(val) => HandleInput(s, val)
    case SubmitCmd => Submit(words, s).0
    case AdvanceCmd => Advance(words, s)
    case ResetCmd => Reset(s)
  }

  /** The state after a series of commands, applied in order. */
  function Run(words: seq<Word>, s: State, cs: seq<Command>): State
    decreases |cs|
  {
    if cs == [] then s else Run(words, Apply(words, s, cs[0]), cs[1..])
  }

  /** Every command keeps the invariant. */
  lemma ApplyValid(words: seq<Word>, s: State, c: Command)
    requires Valid(words, s)
    ensures Valid(words, Apply(words, s, c))
  {
    if c == AdvanceCmd && s.phase == Reinforcement {
      assert |s.queue| == s.currentIndex + 1;
    }
  }

  /** The invariant holds after any series of commands. */
  lemma {:induction false} RunValid(words: seq<Word>, s: State, cs: seq<Command>)
    requires Valid(words, s)
    ensures Valid(words, Run(words, s, cs))
    decreases |cs|
  {
    if cs != [] {
      ApplyValid(words, s, cs[0]);
      RunValid(words, Apply(words, s, cs[0]), cs[1..]);
    }
  }

  /** Without a reset the word index never goes back. */
  lemma {:induction false} RunIndexMonotone(words: seq<Word>, s: State, cs: seq<Command>)
    requires ResetCmd !in cs
    ensures Run(words, s, cs).currentIndex >= s.currentIndex
    decreases |cs|
  {
    if cs != [] {
      assert cs[0] != ResetCmd && ResetCmd !in cs[1..];
      RunIndexMonotone(words, Apply(words, s, cs[0]), cs[1..]);
    }
  }

  /** A completed session stays exactly as it is until it is reset. */
  lemma {:induction false} CompleteIsTerminal(words: seq<Word>, s: State, cs: seq<Command>)
    requires s.phase == Complete && ResetCmd !in cs
    ensures Run(words, s, cs) == s
    decreases |cs|
  {
    if cs != [] {
      assert cs[0] != ResetCmd && ResetCmd !in cs[1..];
      CompleteIsTerminal(words, Apply(words, s, cs[0]), cs[1..]);
    }
  }

  /** When the unit is non-empty and the index starts in range (it may not
      after restoring an unchecked saved index), it stays in range. */
  lemma {:induction false} RunIndexInRange(words: seq<Word>, s: State, cs: seq<Command>)
    requires Valid(words, s) && 0 <= s.currentIndex < |words|
    ensures 0 <= Run(words, s, cs).currentIndex < |words|
    decreases |cs|
  {
    if cs != [] {
      ApplyValid(words, s, cs[0]);
      RunIndexInRange(words, Apply(words, s, cs[0]), cs[1..]);
    }
  }

  /** `k` calls of `advanceReinforcement`. */
  function AdvanceTimes(words: seq<Word>, s: State, k: nat): State
    decreases k
  {
    if k == 0 then s else AdvanceTimes(words, Advance(words, s), k - 1)
  }

  /** Before the end of the queue, each advance moves one item further and
      nothing else changes. */
  lemma {:induction false} AdvanceWithinQueue(words: seq<Word>, s: State, j: nat)
    requires s.phase == Reinforcement
    requires s.currentReinforcementIndex + j < |s.queue|
    ensures AdvanceTimes(words, s, j) == s.(currentReinforcementIndex := s.currentReinforcementIndex + j)
    decreases j
  {
    if j > 0 {
      var t := Advance(words, s);
      assert t == s.(currentReinforcementIndex := s.currentReinforcementIndex + 1);
      AdvanceWithinQueue(words, t, j - 1);
    }
  }

  /** Advancing once per remaining queue item always leaves reinforcement:
      to typing the next word when one remains, else to completion. */
  lemma AdvanceThroughQueue(words: seq<Word>, s: State)
    requires Valid(words, s) && s.phase == Reinforcement
    ensures var t := AdvanceTimes(words, s, |s.queue| - s.currentReinforcementIndex);
      && t.phase != Reinforcement
      && (s.currentIndex < |words| - 1 ==> t.phase == Typing && t.currentIndex == s.currentIndex + 1)
      && (s.currentIndex == |words| - 1 ==> t.phase == Complete && t.currentIndex == s.currentIndex)
      && t.queue == s.queue && t.inputVal == ""
  {
    var k := |s.queue| - s.currentReinforcementIndex;
    AdvanceWithinQueue(words, s, k - 1);
    var u := AdvanceTimes(words, s, k - 1);
    assert u.currentReinforcementIndex == |s.queue| - 1;
    AdvanceTimesSplit(words, s, k - 1);
  }

  /** One more advance after `k` advances. */
  lemma {:induction false} AdvanceTimesSplit(words: seq<Word>, s: State, k: nat)
    ensures AdvanceTimes(words, s, k + 1) == Advance(words, AdvanceTimes(words, s, k))
    decreases k
  {
    if k > 0 {
      AdvanceTimesSplit(words, Advance(words, s), k - 1);
    }
  }

  /** A correct answer at word `i` starts a replay of the first `i + 1` words;
      after `i + 1` advances the session types word `i + 1`, or is complete
      when `i` was the last word. */
  lemma CorrectAnswerThenReplay(words: seq<Word>, s: State)
    requires s.phase == Typing && 0 <= s.currentIndex < |words| && Matches(s.inputVal, words[s.currentIndex].en)
    ensures Submit(words, s).1 == Returned(true)
    ensures var t := AdvanceTimes(words, Submit(words, s).0, s.currentIndex + 1);
      && (s.currentIndex < |words| - 1 ==> t.phase == Typing && t.currentIndex == s.currentIndex + 1)
      && (s.currentIndex == |words| - 1 ==> t.phase == Complete && t.currentIndex == s.currentIndex)
  {
    var r := SubmitAccepts(words, s);
    ReplayFromStart(words, r);
  }

  /** The state a correct answer leads to. */
  lemma SubmitAccepts(words: seq<Word>, s: State) returns (r: State)
    requires s.phase == Typing && 0 <= s.currentIndex < |words| && Matches(s.inputVal, words[s.currentIndex].en)
    ensures Submit(words, s) == (r, Returned(true))
    ensures Valid(words, r) && r.phase == Reinforcement && r.currentReinforcementIndex == 0
    ensures r.currentIndex == s.currentIndex
  {
    r := s.(phase := Reinforcement, queue := words[..s.currentIndex + 1], currentReinforcementIndex := 0, inputVal := "");
  }

  /** A replay from its first item ends after one advance per queue item. */
  lemma ReplayFromStart(words: seq<Word>, r: State)
    requires Valid(words, r) && r.phase == Reinforcement && r.currentReinforcementIndex == 0
    ensures var t := AdvanceTimes(words, r, r.currentIndex + 1);
      && (r.currentIndex < |words| - 1 ==> t.phase == Typing && t.currentIndex == r.currentIndex + 1)
      && (r.currentIndex == |words| - 1 ==> t.phase == Complete && t.currentIndex == r.currentIndex)
  {
    AdvanceThroughQueue(words, r);
  }
}
