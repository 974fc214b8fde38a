/** The FAQ accordion of the landing page: one index `openFAQ` names the open
    item, and -1 means that every item is closed. */
module Faq {

  /** The landing page lists six questions. */
  const ItemCount := 6

  /** No item open. */
  const Closed := -1

  /** On first render the first question is open. */
  const Initial := 0

  /** An item renders open when the index names it. */
  predicate IsOpen(openFaq: int, item: nat) {
    openFaq == item
  }

  /** The index stays -1 or names one of the rendered items. */
  predicate InRange(openFaq: int) {
    Closed <= openFaq < ItemCount
  }

  /** A click on an item closes it when it was open and otherwise opens it,
      which closes whichever item was open before. */
  function Click(openFaq: int, item: nat): (r: int)
    ensures IsOpen(r, item) <==> !IsOpen(openFaq, item)
    ensures !IsOpen(r, item) ==> r == Closed
    ensures forall other: nat :: other != item ==> !IsOpen(r, other)
    ensures InRange(openFaq) && item < ItemCount ==> InRange(r)
  {
    if openFaq == item then Closed else item
  }

  /** The items that render open among the first `n`. */
  function OpenItems(openFaq: int, n: nat): (r: set<nat>)
    ensures forall i: nat :: i in r <==> i < n && IsOpen(openFaq, i)
    ensures |r| <= 1
  {
    var r := set i: nat | i < n && IsOpen(openFaq, i);
    if 0 <= openFaq < n then
      assert r == {openFaq as nat};
      r
    else
      assert r == {};
      r
  }

  /** Clicking the same item twice restores the state exactly when that item was
      open or every item was closed; from any other state it closes everything. */
  lemma ClickTwice(openFaq: int, item: nat)
    ensures Click(Click(openFaq, item), item) == if openFaq == item then item else Closed
    ensures openFaq == Closed ==> Click(Click(openFaq, item), item) == Closed
  {
  }

  /** The state after a sequence of clicks, applied in order. */
  function Clicks(openFaq: int, items: seq<nat>): (r: int)
    ensures items == [] ==> r == openFaq
    ensures items != [] ==> r == Closed || r == items[|items| - 1]
    decreases |items|
  {
    if items == [] then openFaq else Clicks(Click(openFaq, items[0]), items[1..])
  }

  /** Clicks on rendered items keep the index in range from the initial state on,
      so at most one rendered item is ever open. */
  lemma ClicksStayInRange(openFaq: int, items: seq<nat>)
    requires InRange(openFaq)
    requires forall k :: 0 <= k < |items| ==> items[k] < ItemCount
    ensures InRange(Clicks(openFaq, items))
    ensures |OpenItems(Clicks(openFaq, items), ItemCount)| <= 1
  {
  }
}
