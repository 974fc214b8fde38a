/** The typewriter reveal of one poem line (the TypewriterLine component of the
    landing page). Its two timers are explicit events: DelayElapsed is the start
    timer firing, Tick is the per-character timer firing. */
module Typewriter {

  /** The props of one line: the text, the start delay and the per-character
      interval in milliseconds, and whether an onComplete callback is attached.
      The two durations only schedule timers, which the model turns into events. */
  datatype Line = Line(text: string, delayMs: nat, speedMs: nat, notifies: bool)

  /** The component's React state: the `started` flag and `displayedText`. */
  datatype LineState = LineState(started: bool, shown: string)

  datatype Event = DelayElapsed | Tick

  /** A freshly mounted line: not started, nothing shown. */
  const Fresh := LineState(false, "")

  predicate IsPrefix(p: string, s: string) {
    |p| <= |s| && p == s[..|p|]
  }

  /** The states a line can reach: what is shown is a prefix of the text, and
      nothing is shown before the start delay has elapsed. */
  predicate Valid(text: string, s: LineState) {
    IsPrefix(s.shown, text) && (!s.started ==> s.shown == "")
  }

  /** The effect's completion branch: started and nothing left to type. */
  predicate Complete(text: string, s: LineState) {
    s.started && |s.shown| >= |text|
  }

  /** The cursor is rendered; this is also exactly when a character timer is pending. */
  predicate CursorVisible(text: string, s: LineState) {
    s.started && |s.shown| < |text|
  }

  /** The new state and whether onComplete was invoked by the re-run effect. */
  datatype Outcome = Outcome(state: LineState, fired: bool)

  /** One timer firing. A tick with no pending character timer (before the start,
      or after the whole text is shown) is a no-op. The reveal effect re-runs
      whenever `started` or `displayedText` changed, and calls onComplete when it
      finds the line complete. */
  function Step(line: Line, s: LineState, e: Event): (o: Outcome)
    ensures Valid(line.text, s) ==> Valid(line.text, o.state)
    ensures Valid(line.text, s) ==> |s.shown| <= |o.state.shown|
    ensures s.started ==> o.state.started
    ensures e == Tick && !s.started ==> o.state == s && !o.fired
    ensures e == Tick && CursorVisible(line.text, s) && Valid(line.text, s) ==>
              |o.state.shown| == |s.shown| + 1 && o.state.started
    ensures e == DelayElapsed ==> o.state.started && o.state.shown == s.shown
    ensures Complete(line.text, s) ==> o.state == s && !o.fired
    ensures Valid(line.text, s) ==>
              (o.fired <==> line.notifies && !Complete(line.text, s) && Complete(line.text, o.state))
  {
    var next :=
      match e
      case DelayElapsed => s.(started := true)
      case Tick =>
        if CursorVisible(line.text, s) then s.(shown := line.text[..|s.shown| + 1]) else s;
    Outcome(next, line.notifies && next != s && Complete(line.text, next))
  }

  /** The final state after a sequence of timer events, and how often onComplete ran. */
  datatype Trace = Trace(state: LineState, fires: nat)

  function Run(line: Line, s: LineState, evs: seq<Event>): (t: Trace)
    ensures Valid(line.text, s) ==> Valid(line.text, t.state)
    ensures Valid(line.text, s) ==> |s.shown| <= |t.state.shown|
    ensures s.started ==> t.state.started
    decreases |evs|
  {
    if evs == [] then Trace(s, 0)
    else
      var o := Step(line, s, evs[0]);
      var t := Run(line, o.state, evs[1..]);
      Trace(t.state, t.fires + if o.fired then 1 else 0)
  }

  /** Two prefixes of the same text are ordered by length. */
  lemma PrefixesOfText(a: string, b: string, text: string)
    requires IsPrefix(a, text) && IsPrefix(b, text) && |a| <= |b|
    ensures IsPrefix(a, b)
  {
    assert a == text[..|a|] == text[..|b|][..|a|] == b[..|a|];
  }

  /** What is shown never loses a character: every later text extends the earlier one. */
  lemma ShownOnlyGrows(line: Line, s: LineState, evs: seq<Event>)
    requires Valid(line.text, s)
    ensures IsPrefix(s.shown, Run(line, s, evs).state.shown)
  {
    PrefixesOfText(s.shown, Run(line, s, evs).state.shown, line.text);
  }

  /** The cursor shows exactly while the line has started and is not yet complete,
      and a valid line is complete exactly when its whole text is shown. */
  lemma CursorUntilComplete(text: string, s: LineState)
    requires Valid(text, s)
    ensures CursorVisible(text, s) <==> s.started && !Complete(text, s)
    ensures CursorVisible(text, s) <==> s.started && s.shown != text
    ensures Complete(text, s) <==> s.started && s.shown == text
  {
    if s.started && |s.shown| >= |text| {
      assert s.shown == text[..|text|] == text;
    }
  }

  /** Until the start delay elapses, ticks do nothing and nothing is shown. */
  lemma {:induction false} SilentUntilDelay(line: Line, evs: seq<Event>)
    requires forall k :: 0 <= k < |evs| ==> evs[k] == Tick
    ensures Run(line, Fresh, evs) == Trace(Fresh, 0)
    decreases |evs|
  {
    if evs != [] {
      SilentUntilDelay(line, evs[1..]);
    }
  }

  /** onComplete runs exactly once over any run that takes the line from incomplete
      to complete, and never otherwise. */
  lemma {:induction false} CompletionFiresOnce(line: Line, s: LineState, evs: seq<Event>)
    requires Valid(line.text, s)
    ensures Run(line, s, evs).fires ==
              if line.notifies && !Complete(line.text, s) && Complete(line.text, Run(line, s, evs).state)
              then 1 else 0
    decreases |evs|
  {
    if evs != [] {
      var o := Step(line, s, evs[0]);
      CompletionFiresOnce(line, o.state, evs[1..]);
      if Complete(line.text, o.state) {
        CompleteIsFinal(line, o.state, evs[1..]);
      }
    }
  }

  /** Once complete, a line never changes again and never calls onComplete again. */
  lemma {:induction false} CompleteIsFinal(line: Line, s: LineState, evs: seq<Event>)
    requires Complete(line.text, s)
    ensures Run(line, s, evs) == Trace(s, 0)
    decreases |evs|
  {
    if evs != [] {
      CompleteIsFinal(line, s, evs[1..]);
    }
  }

  function Ticks(n: nat): (evs: seq<Event>)
    ensures |evs| == n
  {
    seq(n, _ => Tick)
  }

  /** Once started, as many ticks as characters remain reveal the whole text. */
  lemma {:induction false} TicksRevealText(line: Line, s: LineState)
    requires Valid(line.text, s) && s.started
    ensures Run(line, s, Ticks(|line.text| - |s.shown|)).state == LineState(true, line.text)
    decreases |line.text| - |s.shown|
  {
    var n := |line.text| - |s.shown|;
    if n == 0 {
      assert s.shown == line.text[..|line.text|] == line.text;
    } else {
      var o := Step(line, s, Tick);
      assert Ticks(n)[1..] == Ticks(n - 1);
      TicksRevealText(line, o.state);
    }
  }

  /** A mounted line, once its delay elapses, reveals its whole text within
      |text| ticks and calls onComplete exactly once if it has one. */
  lemma RevealFromMount(line: Line)
    ensures Run(line, Fresh, [DelayElapsed] + Ticks(|line.text|)) ==
              Trace(LineState(true, line.text), if line.notifies then 1 else 0)
  {
    var evs := [DelayElapsed] + Ticks(|line.text|);
    var started := Step(line, Fresh, DelayElapsed).state;
    assert evs[1..] == Ticks(|line.text|);
    TicksRevealText(line, started);
    CompletionFiresOnce(line, Fresh, evs);
    CursorUntilComplete(line.text, Run(line, Fresh, evs).state);
  }
}
