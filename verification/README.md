# Typing-test session engine

A Dafny model of the engine behind a browser typing-speed test. The user is
shown a target text in English or Bengali, as a sentence or a paragraph. A
countdown of 15, 30, 60 or 120 seconds runs while they type. On every change
of the input field the engine recounts the mistakes and recomputes the
accuracy and the words-per-minute rate. The test ends when the countdown
reaches zero or when the input is as long as the target.

The model is functional. A `Session` is an immutable value with the same
fields the component keeps in its state. The stimuli are pure functions:

- `Reset` starts a new attempt.
- `OnInput` handles a changed input field.
- `OnTick` handles one second of the countdown.
- `Start` and `Finish` are the two helpers those functions use.

Per-character colouring of the target is `Render.CharStatus`. The arithmetic
is exact and uses integers only. JavaScript's `Math.round(x)` is `floor(x + 1/2)`,
so `Math.round(num / den)` becomes `(2*num + den) / (2*den)` in Dafny's floor
division. It is specified independently by `IsRoundHalfUp`, which says the
result lies within half a unit of `num / den`, with ties going up.

Modules:

- `Config` (config.dfy): languages, modes, durations and the four text pools.
- `Scoring` (scoring.dfy): mistake counting, rounding, accuracy and WPM.
- `Render` (render.dfy): the status of each target position.
- `TypingSession` (session.dfy): the session, its invariant `Valid` and the transitions.
- `Timeline` (timeline.dfy): tick sequences and arbitrary runs of input and tick events.

Some consequences of the code that are easy to miss:

- The countdown only runs while the session is active, and only a non-empty
  input makes it active. So with no input, ticks change nothing and the session
  never times out (`Timeline.IdleIgnoresTicks`). It does not finish after
  `duration` ticks.
- Characters typed past the end of the target are counted as mistakes
  (`Scoring.MistakesBeyondTarget`), because `undefined` never equals a character.
- Deleting all input after the start keeps the session active. "Active"
  therefore means only that the countdown is running. It does not mean that
  the current input is non-empty.
- The code does not reject an empty text pool. It would index past the end.
  The model requires the chooser index to be inside the pool, which the
  static tables always allow.

## Model

| member | source | states |
|---|---|---|
| Config.Duration.Seconds | src/constants.ts:31 | the offered countdowns are exactly 15, 30, 60 and 120 seconds |
| Scoring.Mismatch | src/App.tsx:107 | a position past the end of the target is always a mismatch, and a position that is not a mismatch holds the target's character |
| Scoring.Mistakes | src/App.tsx:102-110 | the mistake count never exceeds the number of characters typed |
| Scoring.MistakesCountsMismatches | src/App.tsx:102-110 | the mistake count is the number of input positions where the target has no character or a different one |
| Scoring.CountMistakes | src/App.tsx:102-110 | the one-pass count over the input equals the mistake count, which is the size of the set of mismatching positions |
| Scoring.MistakesOfPrefix | src/App.tsx:106-110 | a prefix of the input has no more mistakes than the whole input |
| Scoring.MistakesAppend | src/App.tsx:106-110 | appending characters without editing the existing input never lowers the mistake count |
| Scoring.MistakesZeroIff | src/App.tsx:106-110 | there are no mistakes exactly when the input is a prefix of the target |
| Scoring.MistakesBeyondTarget | src/App.tsx:104-110 | each character typed past the end of the target adds exactly one mistake |
| Scoring.RoundHalfUp | src/App.tsx:119 | the integer formula for Math.round is within half a unit of the fraction, with ties going up |
| Scoring.RoundHalfUpUnique | src/App.tsx:119 | only one integer is within half a unit of the fraction in that sense, so rounding is well defined |
| Scoring.RoundHalfUpScale | src/App.tsx:126-128 | rounding a fraction gives the same result when numerator and denominator are scaled by the same factor |
| Scoring.RoundHalfUpMonotone | src/App.tsx:118-119 | rounding preserves the order of fractions with the same denominator |
| Scoring.AccuracyPercent | src/App.tsx:116-120 | the accuracy lies in [0, 100], is the rounded share of correct characters times 100, and is 100 when nothing is wrong |
| Scoring.AccuracyAntitone | src/App.tsx:116-120 | more mistakes in the same number of characters never raise the accuracy |
| Scoring.AccuracyFullIff | src/App.tsx:118-119 | the accuracy is 100 exactly when at most one character in 200 is wrong |
| Scoring.Wpm | src/App.tsx:122-129 | the rate is never negative and is (characters / 5) / (seconds / 60), rounded |
| Scoring.Examples | src/App.tsx:102-129 | "cop" typed against "cat" has 2 mistakes and 33% accuracy; a full match has 0 and 100%; 150 characters in 30 seconds is 60 WPM |
| Render.CharStatus | src/App.tsx:145-149 | a target position is pending exactly when it has not been reached, and incorrect exactly when it was reached and is a mismatch |
| Render.RenderText | src/App.tsx:141-150 | one status per target character |
| Render.CountsUpTo | src/App.tsx:141-150 | over the first k target positions, the incorrect ones are the mistakes typed there and the pending ones are those not reached |
| Render.NonPendingCount | src/App.tsx:141-150 | exactly min(input length, target length) positions are not pending |
| Render.IncorrectCountIsMistakes | src/App.tsx:141-150 | the incorrect positions plus the over-typed characters make up the mistake count; without over-typing the two are equal |
| TypingSession.Reset | src/App.tsx:41-58 | a reset gives a valid idle session with the full countdown, empty input, zero WPM and mistakes, accuracy 100, and a target drawn from the table of the chosen language and mode: English or Bengali sentences in sentence mode, English or Bengali paragraphs in paragraph mode |
| TypingSession.Initial | src/App.tsx:62-64 | the session after the mount effect first runs initTest with the defaults of lines 24-26 (before that effect the target is empty): idle, 60 seconds, an English sentence as target |
| TypingSession.Start | src/App.tsx:81-85 | starting makes an idle session active, leaves any other session unchanged, and changes nothing but the active flag |
| TypingSession.Finish | src/App.tsx:87-91 | finishing sets the finished flag, clears the active flag, and changes nothing else |
| TypingSession.Rescore | src/App.tsx:101-129 | the input, mistakes and character count follow the new input; accuracy is held on empty input and is otherwise the rounded share; WPM is held until time has elapsed |
| TypingSession.Session.Elapsed | src/App.tsx:124 | in a valid session the elapsed time lies between 0 and the duration, and is 0 before the start |
| TypingSession.Session.Valid | src/App.tsx:24-35 | the invariant of every reachable session: time left in [0, duration], not both running and finished, running only with time left, accuracy in [0, 100], WPM not negative, counts matching the input, an idle session untouched, and a finished one out of time or at the target's length |
| TypingSession.OnInput | src/App.tsx:93-135 | a finished session ignores input; the first non-empty input starts the countdown; the session finishes exactly when the input is as long as the target, whatever the mistakes; the scores are as in Rescore; the invariant is kept |
| TypingSession.OnTick | src/App.tsx:66-79 | a tick changes only a running session with time left: it takes one second off, finishes the session at zero, touches nothing but the clock and the flags, and keeps the invariant |
| Timeline.Countdown | src/App.tsx:66-79 | k ticks of a running session take k seconds off; it stays running until the last second, then finishes |
| Timeline.IdleIgnoresTicks | src/App.tsx:67-72 | a session that is not running ignores any number of ticks |
| Timeline.ResetStopsTimer | src/App.tsx:41-60 | after a reset no tick changes the new session, whatever the previous one was doing |
| Timeline.TimesOutAfterDuration | src/App.tsx:66-99 | a first keystroke that does not complete the target, followed by `duration` ticks and nothing else, ends the session with no time left |
| Timeline.TimesOutWhileTyping | src/App.tsx:66-99 | a running session that receives as many ticks as it has seconds left, interleaved with any inputs that do not complete the target, ends finished with no time left |
| Timeline.FinishedIsAbsorbing | src/App.tsx:87-94 | a finished session stays unchanged under any sequence of inputs and ticks |
| Timeline.StepKeepsInvariant | src/App.tsx:66-135 | one input or tick keeps the invariant, never moves the phase backwards, never adds time, and keeps target and duration |
| Timeline.RunKeepsInvariant | src/App.tsx:66-135 | the same holds along any run of inputs and ticks |
| Timeline.AppendingNeverLowersMistakes | src/App.tsx:106-113 | typing on after an input that did not finish the session never lowers the reported mistake count |

## Left out

- Markup, styling and animation (src/App.tsx:168-426), including the result and stat cards. They hold no logic.
- The caret underline on the next position (src/App.tsx:159). It is presentation.
- The interval timer and the effect machinery (src/App.tsx:38, 67-79). Each one-second interval callback, together with the effect re-run it triggers, is one atomic `OnTick`. The model does not cover an input event arriving between a tick and the effect re-run that finishes the session.
- The effect's `timeLeft === 0` branch for a session that is not active. No reachable state has zero time left without having finished, so `OnTick` leaves such a session unchanged.
- The stale-closure double call of `initTest` when a setting changes (src/App.tsx:183, 189, 252, 272 with 62-64). The second call overrides the first, so the pair is modelled as one `Reset` with the new settings. `resetTest` (src/App.tsx:137-139) is the same `Reset`.
- `Math.random` (src/App.tsx:49). It is replaced by a chooser index `choice` that must lie inside the pool.
- The contents of the text tables (src/constants.ts:1-28). They are modelled as four arbitrary sequences of strings.
- Focus handling (src/App.tsx:59, 291) and the Settings and Detailed Stats buttons, which do nothing.
- Floating-point effects of `Math.round` at exact halves. The model rounds the exact rational value half up.
- UTF-16 code units. Strings are sequences of characters indexed consistently on both sides.
