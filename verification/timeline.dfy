/**
  Sessions over time: the countdown as a number of one-second ticks, and a
  session driven by any interleaving of input changes and ticks.
 */
module Timeline {
  import opened Config
  import opened TypingSession
  import Scoring

  /** The two stimuli a session receives between resets. */
  datatype Event = Input(text: string) | Tick

  function Step(s: Session, e: Event): Session
  {
    match e
    case Input(text) => OnInput(s, text)
    case Tick => OnTick(s)
  }

  /** The session after the events of `es`, in order. */
  function Run(s: Session, es: seq<Event>): Session
    decreases |es|
  {
    if |es| == 0 then s else Run(Step(s, es[0]), es[1..])
  }

  /** The session after `n` consecutive ticks. */
  function Ticks(s: Session, n: nat): Session
    decreases n
  {
    if n == 0 then s else Ticks(OnTick(s), n - 1)
  }

  /** Phases in the order a session passes through them. */
  function Rank(p: Phase): nat
  {
    match p
    case Idle => 0
    case Active => 1
    case Finished => 2
  }

  /** While time is left, each tick of a running session takes one second off
      and keeps it running; the tick that takes the last second finishes it.
      Nothing but the clock and the flags changes. */
  lemma {:induction false} Countdown(s: Session, k: nat)
    requires s.Valid() && s.Phase() == Active && k <= s.timeLeft
    ensures Ticks(s, k).Valid()
    ensures Ticks(s, k).timeLeft == s.timeLeft - k
    ensures Ticks(s, k).Phase() == (if k == s.timeLeft then Finished else Active)
    ensures Ticks(s, k).(timeLeft := s.timeLeft, active := s.active, finished := s.finished) == s
    decreases k
  {
    if k > 0 {
      var t := OnTick(s);
      if t.timeLeft == 0 {
        assert k == 1;
        assert Ticks(t, 0) == t;
      } else {
        Countdown(t, k - 1);
      }
    }
  }

  /** A session that is not running ignores any number of ticks. */
  lemma {:induction false} IdleIgnoresTicks(s: Session, n: nat)
    requires !s.active
    ensures Ticks(s, n) == s
    decreases n
  {
    if n > 0 {
      IdleIgnoresTicks(OnTick(s), n - 1);
    }
  }

  /** A reset stops the countdown: whatever the previous session was doing,
      no tick changes the new one until it is typed into. */
  lemma ResetStopsTimer(pools: TextPools, lang: Language, mode: Mode, dur: Duration, choice: nat, n: nat)
    requires choice < |PoolFor(pools, lang, mode)|
    ensures Ticks(Reset(pools, lang, mode, dur, choice), n) == Reset(pools, lang, mode, dur, choice)
  {
    IdleIgnoresTicks(Reset(pools, lang, mode, dur, choice), n);
  }

  /** The first keystroke starts a countdown of the full duration: unless the
      target is completed first, the session has finished with no time left
      once that many ticks have passed. */
  lemma TimesOutAfterDuration(s: Session, text: string)
    requires s.Valid() && s.Phase() == Idle
    requires 0 < |text| && |text| != |s.target|
    ensures Ticks(OnInput(s, text), s.duration.Seconds()).Phase() == Finished
    ensures Ticks(OnInput(s, text), s.duration.Seconds()).timeLeft == 0
  {
    Countdown(OnInput(s, text), s.duration.Seconds());
  }

  /** The number of ticks among the events. */
  function TickCount(es: seq<Event>): nat
    decreases |es|
  {
    if |es| == 0 then 0 else (if es[0].Tick? then 1 else 0) + TickCount(es[1..])
  }

  /** No input among the events is as long as the target, so none completes it. */
  predicate NoInputCompletes(es: seq<Event>, targetLength: nat)
  {
    forall i :: 0 <= i < |es| && es[i].Input? ==> |es[i].text| != targetLength
  }

  /** Typing on during the countdown does not stop it: a running session that
      receives as many ticks as it has seconds left, interleaved with any inputs
      that do not complete the target, ends finished with no time left. */
  lemma {:induction false} TimesOutWhileTyping(s: Session, es: seq<Event>)
    requires s.Valid() && s.Phase() == Active
    requires TickCount(es) == s.timeLeft
    requires NoInputCompletes(es, |s.target|)
    ensures Run(s, es).Phase() == Finished && Run(s, es).timeLeft == 0
    decreases |es|
  {
    var t := Step(s, es[0]);
    var rest := es[1..];
    assert NoInputCompletes(rest, |s.target|) by {
      forall i | 0 <= i < |rest| && rest[i].Input?
        ensures |rest[i].text| != |s.target|
      {
        assert rest[i] == es[i + 1];
      }
    }
    if t.finished {
      FinishedIsAbsorbing(t, rest);
    } else {
      TimesOutWhileTyping(t, rest);
    }
  }

  /** A finished session, whose countdown Finish has stopped, stays exactly as
      it is, whatever happens next. */
  lemma {:induction false} FinishedIsAbsorbing(s: Session, es: seq<Event>)
    requires s.finished && !s.active
    ensures Run(s, es) == s
    decreases |es|
  {
    if |es| > 0 {
      FinishedIsAbsorbing(Step(s, es[0]), es[1..]);
    }
  }

  /** One event keeps the invariant, never moves the phase backwards, never
      adds time, and keeps the target and the duration. */
  lemma StepKeepsInvariant(s: Session, e: Event)
    requires s.Valid()
    ensures Step(s, e).Valid()
    ensures Rank(Step(s, e).Phase()) >= Rank(s.Phase())
    ensures Step(s, e).timeLeft <= s.timeLeft
    ensures Step(s, e).target == s.target && Step(s, e).duration == s.duration
  {
  }

  /** Along any run the invariant holds, the phase only moves forward, the clock
      only goes down, and the target and duration stay those of the reset. */
  lemma {:induction false} RunKeepsInvariant(s: Session, es: seq<Event>)
    requires s.Valid()
    ensures Run(s, es).Valid()
    ensures Rank(Run(s, es).Phase()) >= Rank(s.Phase())
    ensures Run(s, es).timeLeft <= s.timeLeft
    ensures Run(s, es).target == s.target && Run(s, es).duration == s.duration
    decreases |es|
  {
    if |es| > 0 {
      StepKeepsInvariant(s, es[0]);
      RunKeepsInvariant(Step(s, es[0]), es[1..]);
    }
  }

  /** Typing on, without editing what was already typed, never lowers the
      mistake count the session reports. */
  lemma AppendingNeverLowersMistakes(s: Session, typed: string, more: string)
    requires !OnInput(s, typed).finished
    ensures OnInput(OnInput(s, typed), typed + more).mistakes >= OnInput(s, typed).mistakes
  {
    Scoring.MistakesAppend(typed, more, s.target);
  }
}
