/** The behaviour of the landing page's animated sections: the in-view flag an
    intersection observer keeps, the typewriter that types a text out while its
    element is in view, and the FAQ item's open/closed toggle. Timers and observer
    callbacks are modelled as the events they deliver. */
module LandingPage {

  /** `useInView`: the flag follows every intersection report, in both directions. */
  class InView {
    var isInView: bool

    constructor ()
      ensures !isInView
    {
      isInView := false;
    }

    /** The observer callback `([entry]) => setIsInView(entry.isIntersecting)`. */
    method Report(isIntersecting: bool)
      modifies this
      ensures isInView == isIntersecting
    {
      isInView := isIntersecting;
    }
  }

  /** The timers the typewriter's effect may have pending: none, the start delay
      (`setTimeout`) or the typing interval (`setInterval`). */
  datatype Timer = NoTimer | DelayPending | Interval

  function Min(a: int, b: int): int {
    if a <= b then a else b
  }

  /** `Typewriter`: types `text` out one character per tick while in view, after a delay,
      and clears it whenever the element enters or leaves view. */
  class Typewriter {
    const text: string
    const view: InView
    var displayedText: string
    var timer: Timer
    /** The interval callback's counter `i` (meaningful while the interval runs). */
    var i: nat

    ghost predicate Valid()
      reads this, view
    {
      && (timer == DelayPending ==> view.isInView && displayedText == [])
      && (timer == Interval ==> view.isInView && i <= |text| && displayedText == text[..i])
      && (timer == NoTimer ==> displayedText == if view.isInView then text else [])
    }

    /** What is displayed is always the beginning of the text. */
    lemma DisplayedIsPrefix()
      requires Valid()
      ensures displayedText <= text
    {
    }

    /** The ticks left before the interval clears itself. */
    ghost function RemainingTicks(): nat
      reads this, view
      requires Valid()
    {
      if timer == Interval then |text| + 1 - i else 0
    }

    constructor (text: string)
      ensures Valid() && fresh(view)
      ensures this.text == text && !view.isInView && displayedText == [] && timer == NoTimer
    {
      this.text := text;
      view := new InView();
      displayedText := [];
      timer := NoTimer;
      i := 0;
    }

    /** An intersection report. The effect re-runs only when the flag changes: its cleanup
        cancels both timers, and the new run clears the text and, on entering view,
        schedules the start delay. */
    method SetVisible(isIntersecting: bool)
      requires Valid()
      modifies this, view
      ensures Valid()
      ensures view.isInView == isIntersecting
      ensures isIntersecting == old(view.isInView) ==>
        displayedText == old(displayedText) && timer == old(timer) && i == old(i)
      ensures isIntersecting != old(view.isInView) ==>
        displayedText == [] && timer == (if isIntersecting then DelayPending else NoTimer)
    {
      var changed := isIntersecting != view.isInView;
      view.Report(isIntersecting);
      if changed {
        displayedText := [];
        timer := if isIntersecting then DelayPending else NoTimer;
      }
    }

    /** The start delay fires: the interval starts with `i = 0`. A cancelled delay never fires. */
    method DelayElapsed()
      requires Valid()
      modifies this
      ensures Valid()
      ensures old(timer) == DelayPending ==>
        timer == Interval && i == 0 && displayedText == [] && RemainingTicks() == |text| + 1
      ensures old(timer) != DelayPending ==>
        timer == old(timer) && i == old(i) && displayedText == old(displayedText)
    {
      if timer == DelayPending {
        i := 0;
        timer := Interval;
      }
    }

    /** One interval tick: `setDisplayedText(text.slice(0, i + 1)); i++;` and the interval
        clears itself once `i > text.length`. Without a running interval a tick does nothing. */
    method Tick()
      requires Valid()
      modifies this
      ensures Valid()
      ensures old(timer) == Interval ==>
        && displayedText == text[..Min(old(i) + 1, |text|)]
        && i == old(i) + 1
        && old(displayedText) <= displayedText
        && RemainingTicks() == old(RemainingTicks()) - 1
        && (timer == NoTimer <==> old(i) == |text|)
      ensures old(timer) != Interval ==>
        timer == old(timer) && i == old(i) && displayedText == old(displayedText)
      ensures timer == NoTimer && view.isInView ==> displayedText == text
    {
      if timer == Interval {
        displayedText := text[..Min(i + 1, |text|)];
        i := i + 1;
        if i > |text| {
          timer := NoTimer;
        }
      }
    }
  }

  /** The browser delivering interval ticks until the interval clears itself: a started
      interval runs exactly `|text| + 1` ticks and leaves the whole text displayed. */
  method RunInterval(t: Typewriter) returns (ticks: nat)
    requires t.Valid() && t.timer == Interval && t.i == 0
    modifies t
    ensures t.Valid() && t.timer == NoTimer && t.displayedText == t.text
    ensures ticks == |t.text| + 1
  {
    ticks := 0;
    while t.timer == Interval
      invariant t.Valid()
      invariant t.timer == Interval ==> ticks == t.i
      invariant t.timer != Interval ==> ticks == |t.text| + 1
      invariant t.timer == Interval || t.timer == NoTimer
      invariant t.view.isInView
      decreases t.RemainingTicks()
    {
      t.Tick();
      ticks := ticks + 1;
    }
  }

  /** Typing "ab": nothing before the delay, then "a", "ab", and "ab" once more as the
      interval clears itself on the third tick. */
  method TypeTwoCharacters() {
    var t := new Typewriter("ab");
    t.Tick();
    assert t.displayedText == [];
    t.SetVisible(true);
    t.Tick();
    assert t.displayedText == [] && t.timer == DelayPending;
    t.DelayElapsed();
    t.Tick();
    assert t.displayedText == "a";
    t.Tick();
    assert t.displayedText == "ab" && t.timer == Interval;
    t.Tick();
    assert t.displayedText == "ab" && t.timer == NoTimer;
    t.SetVisible(false);
    assert t.displayedText == [];
    t.SetVisible(true);
    t.DelayElapsed();
    t.Tick();
    assert t.displayedText == "a";
    t.SetVisible(false);
    t.Tick();
    assert t.displayedText == [] && t.timer == NoTimer;
  }

  /** An empty text: one tick shows the empty string and clears the interval. */
  method TypeEmptyText() {
    var t := new Typewriter("");
    t.SetVisible(true);
    t.DelayElapsed();
    t.Tick();
    assert t.displayedText == [] && t.timer == NoTimer;
  }

  /** `FAQItem`: a question whose answer opens and closes on each click. */
  class FaqItem {
    var isOpen: bool

    constructor ()
      ensures !isOpen
    {
      isOpen := false;
    }

    method Click()
      modifies this
      ensures isOpen == !old(isOpen)
    {
      isOpen := !isOpen;
    }
  }

  /** Two clicks restore the item's state. */
  method ClickTwice(item: FaqItem)
    modifies item
    ensures item.isOpen == old(item.isOpen)
  {
    item.Click();
    item.Click();
  }
}
