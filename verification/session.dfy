/**
  The typing session: one timed attempt at reproducing one target text.
  The session is an immutable value; each stimulus the engine receives
  (a reset, a changed input, a one-second tick) is a pure function from the
  old session to the new one.
 */
module TypingSession {
  import opened Config
  import opened Scoring

  /** The three phases a session goes through. */
  datatype Phase = Idle | Active | Finished

  /** The state of one attempt. `active` and `finished` are kept as the two
      independent flags the engine stores; `Phase` reads them as one phase. */
  datatype Session = Session(
    duration: Duration,
    timeLeft: int,
    active: bool,
    finished: bool,
    target: string,
    input: string,
    wpm: int,
    accuracy: int,
    mistakes: nat,
    totalChars: nat)
  {
    function Phase(): Phase
    {
      if finished then Finished else if active then Active else Idle
    }

    /** The invariant every reachable session keeps. */
    predicate Valid()
    {
      && 0 <= timeLeft <= duration.Seconds()
      && !(active && finished)
      && (active ==> timeLeft > 0)
      && 0 <= accuracy <= 100
      && 0 <= wpm
      && totalChars == |input|
      && mistakes == Mistakes(input, target)
      // nothing has been typed and no time has gone by before the start
      && (Phase() == Idle ==> timeLeft == duration.Seconds() && input == [] && wpm == 0 && accuracy == 100)
      // a session ends by running out of time or by completing the target's length
      && (finished ==> timeLeft == 0 || |input| == |target|)
    }

    /** Seconds since the countdown started. */
    function Elapsed(): (e: int)
      ensures Valid() ==> 0 <= e <= duration.Seconds()
      ensures Valid() && Phase() == Idle ==> e == 0
    {
      duration.Seconds() - timeLeft
    }
  }

  /** Starts a new attempt: the target is the `choice`-th text of the pool for
      (`lang`, `mode`), standing in for a uniformly random pick, and every
      counter goes back to its initial value. */
  function Reset(pools: TextPools, lang: Language, mode: Mode, dur: Duration, choice: nat): (s: Session)
    requires choice < |PoolFor(pools, lang, mode)|
    ensures s.Valid() && s.Phase() == Idle
    ensures s.target in PoolFor(pools, lang, mode)
    // the (language, mode) pair picks one of the four tables
    ensures lang == English && mode == Sentence ==> s.target in pools.englishSentences
    ensures lang == English && mode == Paragraph ==> s.target in pools.englishParagraphs
    ensures lang == Bengali && mode == Sentence ==> s.target in pools.bengaliSentences
    ensures lang == Bengali && mode == Paragraph ==> s.target in pools.bengaliParagraphs
    ensures s.duration == dur && s.timeLeft == dur.Seconds()
    ensures s.input == [] && s.wpm == 0 && s.accuracy == 100 && s.mistakes == 0 && s.totalChars == 0
  {
    Session(dur, dur.Seconds(), false, false, PoolFor(pools, lang, mode)[choice], [], 0, 100, 0, 0)
  }

  /** The session the application opens with. */
  function Initial(pools: TextPools, choice: nat): (s: Session)
    requires choice < |PoolFor(pools, DefaultLanguage, DefaultMode)|
    ensures s.Valid() && s.Phase() == Idle
    ensures s.duration == Secs60 && s.timeLeft == 60
    ensures s.target in pools.englishSentences
  {
    Reset(pools, DefaultLanguage, DefaultMode, DefaultDuration, choice)
  }

  /** Starts the countdown of an idle session; anything else is left alone. */
  function Start(s: Session): (r: Session)
    ensures s.Phase() == Idle ==> r.Phase() == Active
    ensures s.Phase() != Idle ==> r == s
    ensures r.(active := s.active) == s
  {
    if !s.active && !s.finished then s.(active := true) else s
  }

  /** Ends the session and stops the countdown. */
  function Finish(s: Session): (r: Session)
    ensures r.Phase() == Finished && !r.active
    ensures r.(active := s.active, finished := s.finished) == s
  {
    s.(active := false, finished := true)
  }

  /** The input field now holds `text`. A finished session ignores it. Otherwise
      the first non-empty input starts the countdown, the scores are recomputed
      from `text`, and the session finishes when `text` is as long as the target. */
  function OnInput(s: Session, text: string): (r: Session)
    // a finished session is frozen
    ensures s.finished ==> r == s
    // the target, the duration and the clock are never touched by typing
    ensures r.target == s.target && r.duration == s.duration && r.timeLeft == s.timeLeft
    ensures !s.finished ==> r.input == text && r.totalChars == |text|
    ensures !s.finished ==> r.mistakes == |MismatchIndices(text, s.target)|
    // finishing happens exactly at the target's length, whatever the mistakes
    ensures !s.finished ==> (r.finished <==> |text| == |s.target|)
    ensures !s.finished && |text| == |s.target| ==> !r.active
    ensures !s.finished && |text| != |s.target| ==> (r.active <==> s.active || |text| > 0)
    // accuracy is held on an empty input and otherwise is the rounded share of correct characters
    ensures !s.finished && |text| == 0 ==> r.accuracy == s.accuracy
    ensures !s.finished && |text| > 0 ==>
      && 0 <= r.accuracy <= 100
      && IsRoundHalfUp(100 * (|text| - r.mistakes), |text|, r.accuracy)
    // the rate is held until a second has gone by and is otherwise (chars / 5) / minutes, rounded
    ensures !s.finished && s.Elapsed() <= 0 ==> r.wpm == s.wpm
    ensures !s.finished && s.Elapsed() > 0 ==> 0 <= r.wpm && IsRoundHalfUp(60 * |text|, 5 * s.Elapsed(), r.wpm)
    ensures s.Valid() ==> r.Valid()
  {
    if s.finished then s
    else
      var started := if !s.active && |text| > 0 then Start(s) else s;
      var scored := Rescore(started, text);
      if |text| == |s.target| then Finish(scored) else scored
  }

  /** The scores recomputed from the whole of `text`; the flags and the clock
      are left as they are. */
  function Rescore(s: Session, text: string): (r: Session)
    ensures r.(input := s.input, mistakes := s.mistakes, totalChars := s.totalChars, accuracy := s.accuracy, wpm := s.wpm) == s
    ensures r.input == text && r.totalChars == |text|
    ensures r.mistakes == |MismatchIndices(text, s.target)|
    ensures |text| == 0 ==> r.accuracy == s.accuracy
    ensures |text| > 0 ==>
      && 0 <= r.accuracy <= 100
      && IsRoundHalfUp(100 * (|text| - r.mistakes), |text|, r.accuracy)
    ensures s.Elapsed() <= 0 ==> r.wpm == s.wpm
    ensures s.Elapsed() > 0 ==> 0 <= r.wpm && IsRoundHalfUp(60 * |text|, 5 * s.Elapsed(), r.wpm)
    ensures r.mistakes == Mistakes(text, s.target)
    ensures 0 <= s.accuracy <= 100 ==> 0 <= r.accuracy <= 100
    ensures 0 <= s.wpm ==> 0 <= r.wpm
  {
    var m := Mistakes(text, s.target);
    MistakesCountsMismatches(text, s.target);
    var acc := if |text| > 0 then AccuracyPercent(|text|, m) else s.accuracy;
    var elapsed := s.Elapsed();
    var rate := if elapsed > 0 then Wpm(|text|, elapsed) else s.wpm;
    s.(input := text, mistakes := m, totalChars := |text|, accuracy := acc, wpm := rate)
  }

  /** One second of the countdown. Only a running session with time left
      changes: it loses one second, and finishes when none is left. */
  function OnTick(s: Session): (r: Session)
    ensures !(s.active && s.timeLeft > 0) ==> r == s
    ensures s.active && s.timeLeft > 0 ==>
      && r.timeLeft == s.timeLeft - 1
      && (r.active <==> r.timeLeft > 0)
      && (r.finished <==> s.finished || r.timeLeft == 0)
    // only the clock and the two flags can change
    ensures r.(timeLeft := s.timeLeft, active := s.active, finished := s.finished) == s
    ensures s.Valid() ==> r.Valid()
  {
    if s.active && s.timeLeft > 0 then
      var ticked := s.(timeLeft := s.timeLeft - 1);
      if ticked.timeLeft == 0 then Finish(ticked) else ticked
    else s
  }
}
