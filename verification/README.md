# Hang Habit landing page: UI state machine

A Dafny model of the interactive part of the Hang Habit marketing site's landing
page (`src/app/page.tsx`). The rest of the site is static markup. The model has
three pieces:

- **Typewriter reveal** (module `Typewriter`). Each poem line has a `started`
  flag and the text shown so far. When the start delay elapses the line starts.
  After that, each character tick appends the next character of the text. The
  line's `onComplete` callback runs when the reveal effect finds the whole text
  shown.
- **FAQ accordion** (module `Faq`). One index `openFAQ` names the open
  question, and -1 means none is open. A click toggles the clicked question.
- **Poem overlay and swipe-to-dismiss** (modules `Gesture` and `Page`). The
  state is the flags `showPoem`, `poemAnimating`, `poemComplete` and
  `isSwiping`, the drag offset `swipeY` and the touch origin `touchStartY`.
  The events are open, close, the deferred 300 ms hide, touch start, move and
  end, the line timers, and unmounting the page. The body's `overflow` style
  follows `showPoem`.

`Page` holds the whole page state as one immutable record with a pure step
function per event. `PageTraces` states properties over sequences of events.

Timers are explicit events, not wall-clock time:

- `LineTimer(i, DelayElapsed)` is line `i`'s start timer firing.
- `LineTimer(i, Tick)` is line `i`'s character timer firing.
- `HideTimerFired` is the deferred hide that a close schedules.

A timer event that has no pending timer behind it does nothing. Examples are a
tick before the start or after the last character, a line timer while the
overlay is hidden (the lines are unmounted and their timers cleared), or a hide
with no close before it.

Points of the code's behaviour the model keeps:

- Opening the poem does not reset the drag state. `handlePoemOpen` only sets
  `showPoem`, `poemAnimating` and `poemComplete`.
- The overlay's phase is the pair (`showPoem`, `poemAnimating`). It is closing
  while `showPoem && !poemAnimating`.
- The hide timer that a close schedules is never cancelled. If the poem is
  reopened before that timer fires, the timer still hides it
  (`PageTraces.ReopenWhileHiding`).
- A touch start does not reset the drag offset, and a touch cancel is not
  handled. After a swipe that never got its touch end, a tap on the card
  releases the old offset (`PageTraces.StaleDragDismissesOnTap`).
- Opening the poem while it still shows hides the tagline but keeps the lines.
  If the last line was already complete, the tagline does not come back
  (`PageTraces.ReopenWhileShownLosesTagline`).
- Nothing guards `onComplete` explicitly. It runs at most once per mounted line
  because a complete line never changes again (`Typewriter.CompletionFiresOnce`).

## Model

| member | source | states |
|---|---|---|
| Typewriter.Step | src/app/page.tsx:21-40 | One timer firing keeps the shown text a prefix of the text that never shrinks. A tick before the start does nothing. A pending tick adds exactly one character. The start timer sets `started` and keeps the text. A complete line never changes. onComplete runs exactly when the line goes from incomplete to complete. |
| Typewriter.Run | src/app/page.tsx:24-40 | Over any sequence of timer firings, a valid line stays valid, its shown text never gets shorter, and a started line stays started. |
| Typewriter.ShownOnlyGrows | src/app/page.tsx:32-35 | Every later shown text extends every earlier one. |
| Typewriter.CursorUntilComplete | src/app/page.tsx:32-47 | The cursor shows exactly when the line has started and is not complete. A valid line is complete exactly when started and its whole text is shown. |
| Typewriter.SilentUntilDelay | src/app/page.tsx:21-31 | Until the start delay elapses, any number of ticks leave the line unstarted and empty, and onComplete never runs. |
| Typewriter.CompletionFiresOnce | src/app/page.tsx:29-40 | Over any run, onComplete runs once if the run takes the line from incomplete to complete, and zero times otherwise. |
| Typewriter.CompleteIsFinal | src/app/page.tsx:29-40 | Once a line is complete, no further timer event changes it or runs onComplete again. |
| Typewriter.TicksRevealText | src/app/page.tsx:32-36 | On a started line, as many ticks as there are characters left reveal the whole text. |
| Typewriter.RevealFromMount | src/app/page.tsx:21-40 | From mount, the start timer followed by one tick per character shows the whole text and runs onComplete exactly once if the line has a callback. |
| Faq.Click | src/app/page.tsx:599-600 | After a click the clicked item is open if and only if it was closed before. When it is not open, all items are closed. No other item is open after the click. A click on a rendered item keeps the index in range. |
| Faq.OpenItems | src/app/page.tsx:594-602 | The items rendered open are exactly those the index names, so at most one is open. |
| Faq.ClickTwice | src/app/page.tsx:599-600 | Clicking the same item twice restores the state if that item was open or all were closed. From any other state it closes everything. |
| Faq.Clicks | src/app/page.tsx:594-602 | After a non-empty sequence of clicks, either the last clicked item is open or all items are closed. |
| Faq.ClicksStayInRange | src/app/page.tsx:176 | Starting from an in-range index such as the initial 0, clicks on rendered items keep the index at -1 or on a rendered item, so at most one item is open. |
| Gesture.Start | src/app/page.tsx:232-235 | A touch start records the touch point, starts swiping and keeps the current offset. |
| Gesture.Move | src/app/page.tsx:237-243 | A move does nothing unless swiping. While swiping, a point below the origin sets the offset to its positive distance, and a point at or above the origin changes nothing. The offset stays non-negative. |
| Gesture.Reset | src/app/page.tsx:224-229 | Dropping the drag leaves offset 0, not swiping, and the origin kept. |
| Gesture.End | src/app/page.tsx:245-252 | Releasing dismisses if and only if the offset is over 100 px. In every case the drag is dropped. |
| Gesture.Moves | src/app/page.tsx:237-243 | A sequence of moves keeps the offset non-negative, keeps the origin and the swiping flag, and does nothing when not swiping. |
| Gesture.MovesKeepLastDownward | src/app/page.tsx:237-243 | While swiping, the offset after a series of moves is the distance of the last point that lay below the origin. Upward points are ignored, not subtracted. |
| Gesture.DragExample | src/app/page.tsx:237-243 | Moves 40 px down, 10 px up and then 90 px down from the origin leave an offset of 90. |
| Page.OnlyLastLineNotifies | src/app/page.tsx:764-816 | Of the eight poem lines, only the last one has the completion callback. |
| Page.Settle | src/app/page.tsx:189-198 | When `showPoem` flips, the scroll-lock effect sets the body overflow to `hidden` if the poem now shows and clears it otherwise, and the lines are remounted fresh. When it does not flip, nothing else changes. |
| Page.Open | src/app/page.tsx:213-218 | Opening shows the overlay, starts its animation and hides the tagline. From the hidden state it mounts fresh lines and locks the body scroll. It leaves the drag, the FAQ and pending hides unchanged. |
| Page.Close | src/app/page.tsx:224-229 | Closing immediately stops the animation, zeroes the offset, stops swiping and schedules one more hide. The overlay, the lines and the scroll lock stay as they were. |
| Page.HideTimer | src/app/page.tsx:228 | A pending hide timer hides the overlay and consumes the timer. If the overlay was shown, it also unlocks the body and unmounts the lines. With no pending timer it does nothing. |
| Page.Release | src/app/page.tsx:245-252 | A touch end with offset over 100 px closes the poem (animation stopped, hide scheduled). Otherwise the animation and pending hides are unchanged. In both cases the offset is 0 and swiping stops. |
| Page.LineTimer | src/app/page.tsx:220-222 | A line timer changes only its own line, and does nothing while the overlay is hidden. The tagline turns on only when the last line becomes complete, and never turns off. |
| Page.Step | src/app/page.tsx:175-252 | Every event preserves the page invariant. After unmounting nothing changes. |
| PageTraces.Run | src/app/page.tsx:175-252 | Any sequence of events preserves the invariant, and an unmounted page ignores all of them. |
| PageTraces.InitInv | src/app/page.tsx:176-198 | The initial page satisfies the invariant. |
| PageTraces.Reachable | src/app/page.tsx:189-198 | In every reachable state: the body is locked exactly while the poem shows on a mounted page; the offset is non-negative and 0 outside a drag; at most one FAQ item is open; every line shows a prefix of its text; the tagline shows only once the last line is fully typed. |
| PageTraces.OverlayEventsNeedOverlay | src/app/page.tsx:694-724 | While the overlay is hidden, close, touch and line-timer events do nothing. |
| PageTraces.CloseDefersHide | src/app/page.tsx:224-229 | After a close the overlay and scroll lock remain, with the animation stopped and the drag dropped. The following hide hides the overlay, unlocks the body and unmounts the lines. |
| PageTraces.ReopenRestartsPoem | src/app/page.tsx:213-218 | Close, hide, then open restarts the poem: every line is fresh, the tagline is hidden and the body is locked. |
| PageTraces.ReopenWhileHiding | src/app/page.tsx:213-229 | Close, open, then the old hide timer firing leaves the overlay hidden and unlocked while it is still flagged as animating. |
| PageTraces.SwipeCommitsPastThreshold | src/app/page.tsx:232-252 | A touch start, move and end closes the poem if and only if the drag was more than 100 px downward. Otherwise it springs back. The drag is dropped either way. |
| PageTraces.StaleDragDismissesOnTap | src/app/page.tsx:232-252 | While a swipe with an offset over 100 px is still in progress, a new touch start and touch end closes the poem, because the touch start keeps the old offset. |
| PageTraces.ReopenWhileShownLosesTagline | src/app/page.tsx:213-222 | Opening the poem while it shows with the last line complete hides the tagline, and no later timer of the last line turns it back on. |
| PageTraces.NothingAfterUnmount | src/app/page.tsx:195-197 | Unmounting clears the body overflow, and no later event changes the page. |
| PageTraces.LineEventsFollowTypewriter | src/app/page.tsx:810-816 | While the overlay shows, a line's timers change that line exactly as the standalone typewriter does, and the tagline turns on exactly when the typewriter runs its callback. |
| PageTraces.TaglineAfterLastLine | src/app/page.tsx:810-824 | Opening the hidden poem, then the last line's start timer and one tick per character, reveals the tagline. |

## Left out

- Rendering, CSS classes and inline styles. They are presentation only, and the model does not know whether the overlay covers the footer button, so opening the poem and clicking a FAQ item are allowed in every state.
- The opacity and scale formulas driven by `swipeY` (page.tsx:698, 721). They use floating point and only affect presentation.
- The particle burst (page.tsx:201-211). It uses `Math.random` and `Date.now`, and nothing else depends on it.
- Timer durations. The start delays, the 25 ms character interval and the 300 ms hide delay are recorded as constants, but time itself is replaced by timer events, and scheduling, ordering and cancellation are modelled only as which events have an effect.
- React re-render and effect scheduling, beyond three rules. A state change re-runs the effects that depend on it. Unmounting a poem line clears its timers (page.tsx:26, 36). A timer that `Home` never clears, such as the hide timer (page.tsx:228), may still fire after the page unmounts, but React ignores a state update on an unmounted component, so the model treats every event after unmounting as doing nothing.
- Typewriter.TicksRevealText: lengths count Dafny characters (Unicode scalar values), whereas `text.length` and `text.slice` (page.tsx:32, 34, 45) count UTF-16 code units. A text with a character outside the Basic Multilingual Plane, such as an emoji, takes one more tick per such character in the source and briefly shows a lone surrogate. The eight poem lines are ASCII, so `Page` is unaffected; `Typewriter.RevealFromMount` carries the same caveat for non-ASCII text.
- Gesture.End: touch coordinates are integers, whereas `clientY` (page.tsx:233, 239) is a fractional number. A fractional offset such as 100.5, which dismisses the poem in the source, cannot be represented.
- Multi-touch. Only the first touch point's `clientY` is used, as in the source, and it is an event parameter.
- The privacy, support and layout pages, which are static content and metadata, and `capture-og.mjs`, a screenshot script that does browser I/O. None of them are part of this model.
