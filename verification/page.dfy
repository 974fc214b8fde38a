/** The landing page's UI state (the `Home` component) as one immutable record
    with a pure step function per event. Timers are events: a line's start and
    character timers, and the deferred hide that follows a close. */
module Page {
  import Typewriter
  import Faq
  import Gesture

  /** The exit transition: a close hides the overlay this long afterwards. */
  const HideDelayMs := 300

  /** The body's overflow style: locked while the poem shows, unset otherwise. */
  const Locked := "hidden"
  const Unlocked := ""

  /** The poem's eight lines, in stanza order; only the last one reports completion. */
  const Poem: seq<Typewriter.Line> := [
    Typewriter.Line("A five and a four and a baby makes three.", 300, 25, false),
    Typewriter.Line("They climb and they pull and they hang onto me.", 1800, 25, false),
    Typewriter.Line("So I hang every day, decompress head to toe,", 3400, 25, false),
    Typewriter.Line("So I'm ready to play wherever they go.", 4900, 25, false),
    Typewriter.Line("A bar, a branch, a doorframe will do.", 6500, 25, false),
    Typewriter.Line("A playground, a beam, there's always a view.", 7800, 25, false),
    Typewriter.Line("You can hang in the morning, you can hang in the night.", 9300, 25, false),
    Typewriter.Line("You can hang for a minute and you'll feel just right.", 11200, 25, true)
  ]

  /** The index of the line whose completion reveals the tagline. */
  const LastLine := |Poem| - 1

  /** The poem's lines as mounted afresh. Lines are mounted only while the poem
      shows; this value also stands for the discarded state of unmounted lines. */
  const FreshLines: seq<Typewriter.LineState> := Repeat(Typewriter.Fresh, |Poem|)

  function Repeat<T>(x: T, n: nat): (r: seq<T>)
    ensures |r| == n && forall k :: 0 <= k < n ==> r[k] == x
  {
    if n == 0 then [] else Repeat(x, n - 1) + [x]
  }

  datatype PageState = PageState(
    mounted: bool,
    openFaq: int,
    showPoem: bool,
    poemAnimating: bool,
    poemComplete: bool,
    gesture: Gesture.Gesture,
    pendingHides: nat,
    lines: seq<Typewriter.LineState>,
    bodyOverflow: string)

  /** The page after its first render and effects. */
  const Init := PageState(true, Faq.Initial, false, false, false, Gesture.Idle, 0, FreshLines, Unlocked)

  datatype Event =
    | FaqClick(item: int)
    | PoemOpen
    | PoemClose
    | HideTimerFired
    | TouchStart(y: int)
    | TouchMove(y: int)
    | TouchEnd
    | LineTimer(line: int, timer: Typewriter.Event)
    | Unmount

  /** What holds of every page state reachable from Init. */
  predicate Inv(s: PageState) {
    && Faq.InRange(s.openFaq)
    && Gesture.Valid(s.gesture)
    && (!s.gesture.swiping ==> s.gesture.offset == 0)
    && |s.lines| == |Poem|
    && (forall i :: 0 <= i < |s.lines| ==> Typewriter.Valid(Poem[i].text, s.lines[i]))
    && (!s.showPoem ==> s.lines == FreshLines)
    && (s.showPoem && s.poemComplete ==> Typewriter.Complete(Poem[LastLine].text, s.lines[LastLine]))
    && s.bodyOverflow == (if s.mounted && s.showPoem then Locked else Unlocked)
  }

  /** Only the poem's last line carries the completion callback. */
  lemma OnlyLastLineNotifies(i: int)
    requires 0 <= i < |Poem|
    ensures Poem[i].notifies <==> i == LastLine
  {
  }

  /** The render in which `showPoem` flipped: the scroll-lock effect writes the
      body overflow, and the poem's lines are mounted afresh or unmounted (their
      timers cleared, their state dropped). */
  function Settle(prev: PageState, next: PageState): (r: PageState)
    ensures prev.showPoem != next.showPoem ==>
              r == next.(bodyOverflow := if next.showPoem then Locked else Unlocked, lines := FreshLines)
    ensures prev.showPoem == next.showPoem ==> r == next
    ensures r.bodyOverflow == Locked <==>
              (if prev.showPoem == next.showPoem then next.bodyOverflow == Locked else next.showPoem)
  {
    if prev.showPoem == next.showPoem then next
    else next.(bodyOverflow := if next.showPoem then Locked else Unlocked, lines := FreshLines)
  }

  /** The easter-egg button: show the overlay, start its enter animation and
      hide the tagline. The drag state is left as it was. */
  function Open(s: PageState): (r: PageState)
    ensures r.showPoem && r.poemAnimating && !r.poemComplete
    ensures !s.showPoem ==> r.lines == FreshLines && r.bodyOverflow == Locked
    ensures s.showPoem ==> r.lines == s.lines && r.bodyOverflow == s.bodyOverflow
    ensures r.gesture == s.gesture && r.openFaq == s.openFaq
    ensures r.pendingHides == s.pendingHides && r.mounted == s.mounted
  {
    Settle(s, s.(showPoem := true, poemAnimating := true, poemComplete := false))
  }

  /** The close button, a tap outside the card, or a committed swipe: the exit
      animation starts and the drag is dropped at once, while the overlay stays
      shown until the hide timer scheduled here fires. */
  function Close(s: PageState): (r: PageState)
    ensures !r.poemAnimating && r.gesture.offset == 0 && !r.gesture.swiping
    ensures r.pendingHides == s.pendingHides + 1
    ensures r.showPoem == s.showPoem && r.lines == s.lines && r.bodyOverflow == s.bodyOverflow
    ensures r.poemComplete == s.poemComplete && r.openFaq == s.openFaq && r.mounted == s.mounted
  {
    s.(poemAnimating := false, gesture := Gesture.Reset(s.gesture), pendingHides := s.pendingHides + 1)
  }

  /** A hide timer fires: the overlay goes, which unlocks the body and unmounts
      the lines. Without a pending timer there is nothing to fire. */
  function HideTimer(s: PageState): (r: PageState)
    ensures s.pendingHides == 0 ==> r == s
    ensures s.pendingHides > 0 ==> !r.showPoem && r.pendingHides == s.pendingHides - 1
    ensures s.pendingHides > 0 && s.showPoem ==> r.bodyOverflow == Unlocked && r.lines == FreshLines
    ensures r.poemAnimating == s.poemAnimating && r.poemComplete == s.poemComplete
    ensures r.gesture == s.gesture && r.openFaq == s.openFaq && r.mounted == s.mounted
  {
    if s.pendingHides == 0 then s
    else Settle(s, s.(showPoem := false, pendingHides := s.pendingHides - 1))
  }

  /** The touch on the card ends: past the threshold it closes the poem,
      otherwise the card springs back; in both cases swiping stops. */
  function Release(s: PageState): (r: PageState)
    ensures s.gesture.offset > Gesture.DismissThresholdPx ==>
              !r.poemAnimating && r.pendingHides == s.pendingHides + 1
    ensures s.gesture.offset <= Gesture.DismissThresholdPx ==>
              r.poemAnimating == s.poemAnimating && r.pendingHides == s.pendingHides
    ensures r.gesture.offset == 0 && !r.gesture.swiping && r.gesture.startY == s.gesture.startY
    ensures r.showPoem == s.showPoem && r.lines == s.lines && r.bodyOverflow == s.bodyOverflow
    ensures r.poemComplete == s.poemComplete && r.openFaq == s.openFaq && r.mounted == s.mounted
  {
    var release := Gesture.End(s.gesture);
    var s' := s.(gesture := release.gesture);
    if release.dismiss then Close(s') else s'
  }

  /** A timer of line `i` fires. Lines exist only while the poem shows; the
      last line's completion reveals the tagline. */
  function LineTimer(s: PageState, i: int, timer: Typewriter.Event): (r: PageState)
    ensures !s.showPoem || !(0 <= i < |s.lines|) ==> r == s
    ensures |r.lines| == |s.lines|
    ensures forall j :: 0 <= j < |s.lines| && j != i ==> r.lines[j] == s.lines[j]
    ensures r.poemComplete && !s.poemComplete ==>
              i == LastLine && Typewriter.Complete(Poem[i].text, r.lines[i])
    ensures s.poemComplete ==> r.poemComplete
    ensures r.showPoem == s.showPoem && r.poemAnimating == s.poemAnimating
    ensures r.gesture == s.gesture && r.pendingHides == s.pendingHides
    ensures r.bodyOverflow == s.bodyOverflow && r.openFaq == s.openFaq && r.mounted == s.mounted
  {
    if !s.showPoem || !(0 <= i < |s.lines|) || i >= |Poem| then s
    else
      var o := Typewriter.Step(Poem[i], s.lines[i], timer);
      OnlyLastLineNotifies(i);
      s.(lines := s.lines[i := o.state], poemComplete := s.poemComplete || o.fired)
  }

  /** One event. The overlay's handlers exist only while it shows; the page
      itself keeps no behaviour after it unmounts. */
  function Step(s: PageState, e: Event): (r: PageState)
    ensures Inv(s) ==> Inv(r)
    ensures !s.mounted ==> r == s
    ensures r.mounted ==> s.mounted
  {
    if !s.mounted then s
    else
      match e
      case FaqClick(item) =>
        if 0 <= item < Faq.ItemCount then s.(openFaq := Faq.Click(s.openFaq, item)) else s
      case PoemOpen => Open(s)
      case PoemClose => if s.showPoem then Close(s) else s
      case HideTimerFired => HideTimer(s)
      case TouchStart(y) => if s.showPoem then s.(gesture := Gesture.Start(s.gesture, y)) else s
      case TouchMove(y) => if s.showPoem then s.(gesture := Gesture.Move(s.gesture, y)) else s
      case TouchEnd => if s.showPoem then Release(s) else s
      case LineTimer(i, timer) => LineTimer(s, i, timer)
      case Unmount => s.(mounted := false, bodyOverflow := Unlocked)
  }
}
