/** Properties of the landing page over sequences of events. */
module PageTraces {
  import Typewriter
  import Faq
  import Gesture
  import opened Page

  /** The page after a sequence of events, applied in order. */
  function Run(s: PageState, evs: seq<Event>): (r: PageState)
    ensures Inv(s) ==> Inv(r)
    ensures !s.mounted ==> r == s
    decreases |evs|
  {
    if evs == [] then s else Run(Step(s, evs[0]), evs[1..])
  }

  lemma {:induction false} RunAppend(s: PageState, a: seq<Event>, b: seq<Event>)
    ensures Run(s, a + b) == Run(Run(s, a), b)
    decreases |a|
  {
    if a != [] {
      assert (a + b)[0] == a[0] && (a + b)[1..] == a[1..] + b;
      RunAppend(Step(s, a[0]), a[1..], b);
    } else {
      assert a + b == b;
    }
  }

  lemma InitInv()
    ensures Inv(Init)
  {
    forall i | 0 <= i < |Init.lines|
      ensures Typewriter.Valid(Poem[i].text, Init.lines[i])
    {
      assert Init.lines[i] == Typewriter.Fresh;
    }
  }

  /** Every state the page reaches: the body is scroll-locked exactly while the
      poem shows on a mounted page, the drag offset is never negative and is 0
      outside a drag, at most one FAQ item is open, every line shows a prefix
      of its text, and the tagline shows only once the last line is typed. */
  lemma Reachable(evs: seq<Event>)
    ensures var r := Run(Init, evs);
      && (r.bodyOverflow == Locked <==> r.mounted && r.showPoem)
      && r.gesture.offset >= 0
      && (!r.gesture.swiping ==> r.gesture.offset == 0)
      && |Faq.OpenItems(r.openFaq, Faq.ItemCount)| <= 1
      && (forall i :: 0 <= i < |Poem| ==> Typewriter.IsPrefix(r.lines[i].shown, Poem[i].text))
      && (r.showPoem && r.poemComplete ==> r.lines[LastLine].shown == Poem[LastLine].text)
  {
    InitInv();
    var r := Run(Init, evs);
    if r.showPoem && r.poemComplete {
      Typewriter.CursorUntilComplete(Poem[LastLine].text, r.lines[LastLine]);
    }
  }

  /** The close and touch handlers and the line timers belong to the overlay:
      while it is hidden they do nothing. */
  lemma OverlayEventsNeedOverlay(s: PageState, e: Event)
    requires !s.showPoem
    requires e.PoemClose? || e.TouchStart? || e.TouchMove? || e.TouchEnd? || e.LineTimer?
    ensures Step(s, e) == s
  {
  }

  /** A close starts the exit animation and drops the drag at once, but the
      overlay and the scroll lock stay until the hide timer fires, which also
      unmounts the lines. */
  lemma CloseDefersHide(s: PageState)
    requires Inv(s) && s.mounted && s.showPoem
    ensures var c := Step(s, PoemClose);
      && c.showPoem && !c.poemAnimating && c.bodyOverflow == Locked
      && c.gesture.offset == 0 && !c.gesture.swiping
    ensures var h := Run(s, [PoemClose, HideTimerFired]);
      && !h.showPoem && h.bodyOverflow == Unlocked && h.lines == FreshLines
      && h.pendingHides == s.pendingHides
  {
    assert Run(s, [PoemClose, HideTimerFired]) == HideTimer(Close(s));
  }

  /** Closing the poem, letting it hide and opening it again restarts the reveal:
      every line is fresh and the tagline is hidden. */
  lemma ReopenRestartsPoem(s: PageState)
    requires Inv(s) && s.mounted && s.showPoem
    ensures var r := Run(s, [PoemClose, HideTimerFired, PoemOpen]);
      && r.showPoem && r.poemAnimating && !r.poemComplete
      && r.lines == FreshLines && r.bodyOverflow == Locked
  {
    assert Run(s, [PoemClose, HideTimerFired, PoemOpen]) == Open(HideTimer(Close(s)));
  }

  /** The hide timer is never cancelled: reopening the poem before it fires
      does not stop it from hiding the overlay, which is left marked as animating. */
  lemma ReopenWhileHiding(s: PageState)
    requires Inv(s) && s.mounted && s.showPoem
    ensures var r := Run(s, [PoemClose, PoemOpen, HideTimerFired]);
      && !r.showPoem && r.poemAnimating && r.bodyOverflow == Unlocked
  {
    assert Run(s, [PoemClose, PoemOpen, HideTimerFired]) == HideTimer(Open(Close(s)));
  }

  /** A whole swipe on the card: a drag of more than the threshold below the
      touch point closes the poem, any shorter or upward drag springs back;
      either way the card ends undragged and the overlay is still shown. */
  lemma SwipeCommitsPastThreshold(s: PageState, y0: int, y1: int)
    requires Inv(s) && s.mounted && s.showPoem && !s.gesture.swiping
    ensures var r := Run(s, [TouchStart(y0), TouchMove(y1), TouchEnd]);
      && r.showPoem && r.gesture.offset == 0 && !r.gesture.swiping
      && (y1 - y0 > Gesture.DismissThresholdPx ==>
            !r.poemAnimating && r.pendingHides == s.pendingHides + 1)
      && (y1 - y0 <= Gesture.DismissThresholdPx ==>
            r.poemAnimating == s.poemAnimating && r.pendingHides == s.pendingHides)
  {
    var a := s.(gesture := Gesture.Start(s.gesture, y0));
    var b := a.(gesture := Gesture.Move(a.gesture, y1));
    assert Step(s, TouchStart(y0)) == a && Step(a, TouchMove(y1)) == b;
    assert [TouchStart(y0), TouchMove(y1), TouchEnd][1..] == [TouchMove(y1), TouchEnd];
    assert [TouchMove(y1), TouchEnd][1..] == [TouchEnd];
    assert Run(s, [TouchStart(y0), TouchMove(y1), TouchEnd]) == Run(a, [TouchMove(y1), TouchEnd]);
    assert Run(a, [TouchMove(y1), TouchEnd]) == Run(b, [TouchEnd]);
    assert Run(s, [TouchStart(y0), TouchMove(y1), TouchEnd]) == Release(b);
    assert b.gesture.offset == if y1 - y0 > 0 then y1 - y0 else 0;
  }

  /** A swipe that never got its touch end keeps its offset, since a touch
      start does not reset it: a later tap on the card then releases that old
      offset and, past the threshold, closes the poem. */
  lemma StaleDragDismissesOnTap(s: PageState, y: int)
    requires Inv(s) && s.mounted && s.showPoem
    requires s.gesture.swiping && s.gesture.offset > Gesture.DismissThresholdPx
    ensures var r := Run(s, [TouchStart(y), TouchEnd]);
      && !r.poemAnimating && r.pendingHides == s.pendingHides + 1
      && r.gesture.offset == 0 && !r.gesture.swiping
  {
    var a := s.(gesture := Gesture.Start(s.gesture, y));
    assert [TouchStart(y), TouchEnd][1..] == [TouchEnd];
    assert Run(s, [TouchStart(y), TouchEnd]) == Run(a, [TouchEnd]);
    assert Run(a, [TouchEnd]) == Release(a);
  }

  /** Opening the poem while it still shows resets the tagline but not the lines:
      if the last line was already complete, no later timer of it brings the
      tagline back. */
  lemma {:induction false} ReopenWhileShownLosesTagline(s: PageState, evs: seq<Typewriter.Event>)
    requires Inv(s) && s.mounted && s.showPoem
    requires Typewriter.Complete(Poem[LastLine].text, s.lines[LastLine])
    ensures !Run(s, [PoemOpen] + LineEvents(LastLine, evs)).poemComplete
  {
    var shown := Step(s, PoemOpen);
    RunAppend(s, [PoemOpen], LineEvents(LastLine, evs));
    assert Run(s, [PoemOpen]) == shown;
    LineEventsFollowTypewriter(shown, LastLine, evs);
    Typewriter.CompleteIsFinal(Poem[LastLine], shown.lines[LastLine], evs);
  }

  /** After the page unmounts the body is unlocked and no later event changes
      anything: the lines' timers are cleared, and a hide timer that still fires
      sets state on an unmounted component, which React ignores. */
  lemma NothingAfterUnmount(s: PageState, evs: seq<Event>)
    requires Inv(s)
    ensures Step(s, Unmount).bodyOverflow == Unlocked
    ensures Run(Step(s, Unmount), evs) == Step(s, Unmount)
  {
  }

  /** The page events for a series of timer firings of line `i`. */
  function LineEvents(i: int, evs: seq<Typewriter.Event>): (r: seq<Event>)
    ensures |r| == |evs|
    ensures forall k :: 0 <= k < |evs| ==> r[k] == LineTimer(i, evs[k])
    decreases |evs|
  {
    if evs == [] then [] else [LineTimer(i, evs[0])] + LineEvents(i, evs[1..])
  }

  /** While the poem shows, the timers of one line drive exactly that line as
      the typewriter alone would, and the tagline appears when it calls back. */
  lemma {:induction false} LineEventsFollowTypewriter(s: PageState, i: int, evs: seq<Typewriter.Event>)
    requires Inv(s) && s.mounted && s.showPoem && 0 <= i < |Poem|
    ensures var t := Typewriter.Run(Poem[i], s.lines[i], evs);
      Run(s, LineEvents(i, evs)) ==
        s.(lines := s.lines[i := t.state], poemComplete := s.poemComplete || t.fires > 0)
    decreases |evs|
  {
    if evs != [] {
      var o := Typewriter.Step(Poem[i], s.lines[i], evs[0]);
      var s1 := Step(s, LineTimer(i, evs[0]));
      assert s1 == s.(lines := s.lines[i := o.state], poemComplete := s.poemComplete || o.fired);
      assert LineEvents(i, evs)[1..] == LineEvents(i, evs[1..]);
      LineEventsFollowTypewriter(s1, i, evs[1..]);
      assert s1.lines[i := Typewriter.Run(Poem[i], o.state, evs[1..]).state]
          == s.lines[i := Typewriter.Run(Poem[i], o.state, evs[1..]).state];
    }
  }

  /** Opening the poem from the hidden state and letting the last line's delay
      elapse and all of its characters tick in reveals the tagline. */
  lemma TaglineAfterLastLine(s: PageState)
    requires Inv(s) && s.mounted && !s.showPoem
    ensures var line := Poem[LastLine];
      Run(s, [PoemOpen] + LineEvents(LastLine, [Typewriter.DelayElapsed] + Typewriter.Ticks(|line.text|))).poemComplete
  {
    var line := Poem[LastLine];
    var shown := Step(s, PoemOpen);
    RunAppend(s, [PoemOpen], LineEvents(LastLine, [Typewriter.DelayElapsed] + Typewriter.Ticks(|line.text|)));
    assert Run(s, [PoemOpen]) == shown;
    assert shown.lines[LastLine] == Typewriter.Fresh;
    LineEventsFollowTypewriter(shown, LastLine, [Typewriter.DelayElapsed] + Typewriter.Ticks(|line.text|));
    Typewriter.RevealFromMount(line);
  }
}
