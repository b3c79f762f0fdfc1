/** The BOOT button's multi-click counter: clicks closer together than
    the idle time are ignored, a click more than the multi-click timeout
    after the previous one starts a new series, and the fifth click of a
    series requests a factory reset. */
module Button {
  import opened Clock

  /** `MULTI_CLICK_TIMEOUT`, in milliseconds. */
  const MultiClickTimeout := 1000
  /** `FACTORY_RESET_CLICKS`. */
  const FactoryResetClicks := 5
  /** `BUTTON_IDLE_TICKS`: the least interval between accepted clicks. */
  const IdleTicks := 150

  /** The handler's statics `buttonClickCount`, `lastClickTime` and
      `lastValidClickTime`, with the number of factory resets requested. */
  datatype Clicks = Clicks(count: int, lastClick: Millis, lastValid: Millis, resets: nat)

  /** The click came too soon after the last accepted one. */
  predicate TooSoon(s: Clicks, now: Millis)
  {
    s.lastValid > 0 && Elapsed(now, s.lastValid) < IdleTicks
  }

  /** The count the click continues from: zero once the multi-click
      timeout has passed since the previous click. */
  function Prior(s: Clicks, now: Millis): int
  {
    if Elapsed(now, s.lastClick) > MultiClickTimeout then 0 else s.count
  }

  /** `handleButtonClick` at time `now`. */
  function Click(s: Clicks, now: Millis): (r: Clicks)
    ensures r.resets == s.resets || r.resets == s.resets + 1
    ensures r == s || (r.lastClick == now && r.lastValid == now)
  {
    if TooSoon(s, now) then s
    else
      var count := Prior(s, now) + 1;
      if count == FactoryResetClicks then Clicks(0, now, now, s.resets + 1)
      else Clicks(count, now, now, s.resets)
  }

  /** `checkMultiClickTimeout` at time `now`. */
  function Timeout(s: Clicks, now: Millis): (r: Clicks)
    ensures r.count == 0 || r.count == s.count
    ensures r.(count := s.count) == s
  {
    if s.count > 0 && Elapsed(now, s.lastClick) > MultiClickTimeout then s.(count := 0) else s
  }

  /** The statics' initial values. */
  const Initial := Clicks(0, 0, 0, 0)

  /** A click within the idle time of the last accepted click changes
      nothing; any other click is accepted. */
  lemma ClickIgnored(s: Clicks, now: Millis)
    ensures Click(s, now) == s <==> TooSoon(s, now)
  {
    if !TooSoon(s, now) {
      assert Click(s, now).lastValid == now;
      assert s.lastValid == now ==> Elapsed(now, s.lastValid) == 0;
    }
  }

  /** An accepted click stamps both times with `now` and counts on from
      the prior count, modulo five; the fifth click requests a reset. */
  lemma ClickAccepted(s: Clicks, now: Millis)
    requires 0 <= s.count < FactoryResetClicks && !TooSoon(s, now)
    ensures var r := Click(s, now);
      && r.lastClick == now && r.lastValid == now
      && r.count == (Prior(s, now) + 1) % FactoryResetClicks
      && r.resets == s.resets + (Prior(s, now) + 1) / FactoryResetClicks
  {
  }

  /** Between calls the count stays within 0..4. */
  predicate Bounded(s: Clicks)
  {
    0 <= s.count < FactoryResetClicks
  }

  lemma ClickBounded(s: Clicks, now: Millis)
    requires Bounded(s)
    ensures Bounded(Click(s, now)) && Bounded(Timeout(s, now))
  {
  }

  /** The timeout zeroes a positive count after more than a second without
      a click, and changes nothing else. */
  lemma TimeoutEffect(s: Clicks, now: Millis)
    ensures var r := Timeout(s, now);
      && r.lastClick == s.lastClick && r.lastValid == s.lastValid && r.resets == s.resets
      && (r.count == 0 <==> s.count == 0 || (s.count > 0 && Elapsed(now, s.lastClick) > MultiClickTimeout))
      && (r.count != 0 ==> r.count == s.count)
  {
  }

  /** Clicks at `times`, in order. */
  function Clicked(s: Clicks, times: seq<Millis>): Clicks
    decreases |times|
  {
    if times == [] then s else Clicked(Click(s, times[0]), times[1..])
  }

  /** Each click comes at least the idle time and at most the multi-click
      timeout after the one before it, the first after `last`. */
  predicate Spaced(last: Millis, times: seq<Millis>)
    decreases |times|
  {
    times == [] ||
    (IdleTicks <= Elapsed(times[0], last) <= MultiClickTimeout && Spaced(times[0], times[1..]))
  }

  /** Clicks spaced within a series are all counted: after `k` of them the
      count is `(c + k) % 5` and a reset has been requested for every fifth
      click. */
  lemma {:induction false} SpacedClicks(s: Clicks, times: seq<Millis>)
    requires Bounded(s) && s.lastValid == s.lastClick && Spaced(s.lastClick, times)
    ensures var r := Clicked(s, times);
      && r.count == (s.count + |times|) % FactoryResetClicks
      && r.resets == s.resets + (s.count + |times|) / FactoryResetClicks
    decreases |times|
  {
    if times != [] {
      var t := Click(s, times[0]);
      assert Prior(s, times[0]) == s.count && !TooSoon(s, times[0]);
      ClickAccepted(s, times[0]);
      SpacedClicks(t, times[1..]);
      var n := |times| - 1;
      if s.count + 1 < FactoryResetClicks {
        assert t.count == s.count + 1 && t.resets == s.resets;
      } else {
        assert t.count == 0 && t.resets == s.resets + 1;
        assert (n + FactoryResetClicks) / FactoryResetClicks == n / FactoryResetClicks + 1;
        assert (n + FactoryResetClicks) % FactoryResetClicks == n % FactoryResetClicks;
      }
    }
  }

  /** The class holding the statics, with the two entry points. */
  class ClickCounter {
    var buttonClickCount: int
    var lastClickTime: Millis
    var lastValidClickTime: Millis
    /** `factoryReset` requests issued. */
    var factoryResets: nat

    function View(): Clicks
      reads this
    {
      Clicks(buttonClickCount, lastClickTime, lastValidClickTime, factoryResets)
    }

    constructor ()
      ensures View() == Initial
    {
      buttonClickCount := 0;
      lastClickTime, lastValidClickTime := 0, 0;
      factoryResets := 0;
    }

    /** `handleButtonClick` at time `now`. */
    method HandleButtonClick(now: Millis)
      modifies this
      ensures View() == Click(old(View()), now)
    {
      var timeSinceLastValid := Elapsed(now, lastValidClickTime);
      if lastValidClickTime > 0 && timeSinceLastValid < IdleTicks {
        return;
      }
      if Elapsed(now, lastClickTime) > MultiClickTimeout {
        buttonClickCount := 0;
      }
      buttonClickCount := buttonClickCount + 1;
      lastClickTime := now;
      lastValidClickTime := now;
      if buttonClickCount == FactoryResetClicks {
        factoryResets := factoryResets + 1;
        buttonClickCount := 0;
      }
    }

    /** `checkMultiClickTimeout` at time `now`. */
    method CheckMultiClickTimeout(now: Millis)
      modifies this`buttonClickCount
      ensures View() == Timeout(old(View()), now)
    {
      if buttonClickCount > 0 && Elapsed(now, lastClickTime) > MultiClickTimeout {
        buttonClickCount := 0;
      }
    }
  }
}
