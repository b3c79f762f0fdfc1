/** The status LED: blue blinking once a second while no phone is
    connected, steady blue while connected and idle, and a green breathing
    ramp while playing. Each call acts only once the state's interval has
    passed since the last update. */
module Led {
  import opened Clock

  /** `LED_BLINK_INTERVAL`, in milliseconds. */
  const BlinkInterval := 1000
  /** The steady-blue refresh interval, in milliseconds. */
  const SteadyInterval := 100
  /** `LED_BREATH_INTERVAL`, in milliseconds. */
  const BreathInterval := 30
  /** `LED_BREATH_STEP`. */
  const BreathStep := 3
  /** `LED_BRIGHTNESS`: the top of the breathing ramp. */
  const Brightness := 100
  /** The falling direction: `-1.5` stored into an `int` truncates toward
      zero. */
  const Falling := -1
  /** The rising direction. */
  const Rising := 1

  /** The colour last shown. */
  datatype Color = Off | Blue | Green(level: int)

  /** The statics `lastLedUpdate`, `breathBrightness`, `breathDirection`
      and `ledBlinkState`, with the colour on the LED. */
  datatype LedState = LedState(lastUpdate: Millis, brightness: int, direction: int, blink: bool, shown: Color)

  /** The statics' initial values, with the blue shown by `initLedControl`. */
  const Initial := LedState(0, 0, Rising, false, Blue)

  /** The interval of the state the player is in. */
  function Interval(connected: bool, playing: bool): nat
  {
    if !connected then BlinkInterval else if !playing then SteadyInterval else BreathInterval
  }

  /** One step of the breathing ramp. */
  datatype Breath = Breath(brightness: int, direction: int)

  /** A direction is one step up or one step down. */
  predicate Unit(d: int)
  {
    d == Rising || d == Falling
  }

  /** The brightness moves by three in its direction; reaching the top
      clamps it there and turns it down, reaching 1 or below clamps it to 1
      and turns it up. Whatever the state before, the brightness after is
      within 1..100. */
  function Breathe(b: Breath): (r: Breath)
    ensures 1 <= r.brightness <= Brightness
    ensures Unit(b.direction) ==> Unit(r.direction)
  {
    var n := b.brightness + b.direction * BreathStep;
    if n >= Brightness then Breath(Brightness, Falling)
    else if n <= 1 then Breath(1, Rising)
    else Breath(n, b.direction)
  }

  /** `updateRgbLed(connected, playing)` at time `now`. */
  function Update(s: LedState, connected: bool, playing: bool, now: Millis): (r: LedState)
    ensures r == s || r.lastUpdate == now
    ensures Unit(s.direction) ==> Unit(r.direction)
    ensures 1 <= s.brightness <= Brightness ==> 1 <= r.brightness <= Brightness
  {
    if Elapsed(now, s.lastUpdate) < Interval(connected, playing) then s
    else if !connected then
      s.(lastUpdate := now, blink := !s.blink, shown := if !s.blink then Blue else Off)
    else if !playing then
      s.(lastUpdate := now, shown := Blue)
    else
      var b := Breathe(Breath(s.brightness, s.direction));
      s.(lastUpdate := now, brightness := b.brightness, direction := b.direction, shown := Green(b.brightness))
  }

  /** Before the interval has passed nothing changes; once it has, the
      update is stamped with `now`. */
  lemma UpdateWaits(s: LedState, connected: bool, playing: bool, now: Millis)
    ensures Elapsed(now, s.lastUpdate) < Interval(connected, playing) ==> Update(s, connected, playing, now) == s
    ensures Elapsed(now, s.lastUpdate) >= Interval(connected, playing) ==> Update(s, connected, playing, now).lastUpdate == now
  {
  }

  /** Disconnected: a second after the last update the blink state
      toggles, blue when it turns on and dark when it turns off; the
      breathing ramp is left where it was. */
  lemma Blinks(s: LedState, playing: bool, now: Millis)
    requires Elapsed(now, s.lastUpdate) >= BlinkInterval
    ensures var r := Update(s, false, playing, now);
      && r.blink == !s.blink && r.shown == (if r.blink then Blue else Off)
      && r.brightness == s.brightness && r.direction == s.direction
  {
  }

  /** Connected and idle: steady blue, the blink state and the ramp kept. */
  lemma SteadyBlue(s: LedState, now: Millis)
    requires Elapsed(now, s.lastUpdate) >= SteadyInterval
    ensures var r := Update(s, true, false, now);
      && r.shown == Blue && r.blink == s.blink && r.brightness == s.brightness && r.direction == s.direction
  {
  }

  /** Playing: the green shown is the new brightness, which is in 1..100,
      and the direction stays a unit step. */
  lemma Breathes(s: LedState, now: Millis)
    requires Elapsed(now, s.lastUpdate) >= BreathInterval && Unit(s.direction)
    ensures var r := Update(s, true, true, now);
      && r.shown == Green(r.brightness) && 1 <= r.brightness <= Brightness
      && Unit(r.direction) && r.blink == s.blink
  {
  }

  /** `n` breathing steps. */
  function BreatheN(b: Breath, n: nat): Breath
    decreases n
  {
    if n == 0 then b else BreatheN(Breathe(b), n - 1)
  }

  /** From the bottom the ramp climbs by three per step. */
  lemma {:induction false} RisingRamp(k: nat)
    requires k <= 32
    ensures BreatheN(Breath(1, Rising), k) == Breath(1 + BreathStep * k, Rising)
  {
    if k > 0 {
      RisingRamp(k - 1);
      BreatheNLast(Breath(1, Rising), k - 1);
    }
  }

  /** From the top the ramp descends by three per step. */
  lemma {:induction false} FallingRamp(k: nat)
    requires k <= 32
    ensures BreatheN(Breath(Brightness, Falling), k) == Breath(Brightness - BreathStep * k, Falling)
  {
    if k > 0 {
      FallingRamp(k - 1);
      BreatheNLast(Breath(Brightness, Falling), k - 1);
    }
  }

  /** The last of `n + 1` steps is one step after the first `n`. */
  lemma {:induction false} BreatheNLast(b: Breath, n: nat)
    ensures BreatheN(b, n + 1) == Breathe(BreatheN(b, n))
    decreases n
  {
    if n > 0 {
      BreatheNLast(Breathe(b), n - 1);
    }
  }

  /** Steps compose. */
  lemma {:induction false} BreatheNSplit(b: Breath, m: nat, n: nat)
    ensures BreatheN(b, m + n) == BreatheN(BreatheN(b, m), n)
    decreases m
  {
    if m > 0 {
      BreatheNSplit(Breathe(b), m - 1, n);
    }
  }

  /** The ramp takes 33 steps from 1 to 100 and 33 back: a breath lasts
      66 updates. */
  lemma BreathPeriod()
    ensures BreatheN(Breath(1, Rising), 33) == Breath(Brightness, Falling)
    ensures BreatheN(Breath(Brightness, Falling), 33) == Breath(1, Rising)
    ensures BreatheN(Breath(1, Rising), 66) == Breath(1, Rising)
  {
    RisingRamp(32);
    BreatheNLast(Breath(1, Rising), 32);
    FallingRamp(32);
    BreatheNLast(Breath(Brightness, Falling), 32);
    BreatheNSplit(Breath(1, Rising), 33, 33);
  }

  /** The LED's statics, with the colour shown. */
  class RgbLed {
    var lastLedUpdate: Millis
    var breathBrightness: int
    var breathDirection: int
    var ledBlinkState: bool
    var shown: Color

    function View(): LedState
      reads this
    {
      LedState(lastLedUpdate, breathBrightness, breathDirection, ledBlinkState, shown)
    }

    /** The statics' initial values, and `initLedControl` showing blue. */
    constructor ()
      ensures View() == Initial
    {
      lastLedUpdate := 0;
      breathBrightness := 0;
      breathDirection := Rising;
      ledBlinkState := false;
      shown := Blue;
    }

    /** `updateRgbLed(connected, playing)` at time `now`. */
    method UpdateRgbLed(connected: bool, playing: bool, now: Millis)
      modifies this
      ensures View() == Update(old(View()), connected, playing, now)
    {
      if !connected {
        if Elapsed(now, lastLedUpdate) >= BlinkInterval {
          lastLedUpdate := now;
          ledBlinkState := !ledBlinkState;
          shown := if ledBlinkState then Blue else Off;
        }
      } else if !playing {
        if Elapsed(now, lastLedUpdate) >= SteadyInterval {
          lastLedUpdate := now;
          shown := Blue;
        }
      } else {
        if Elapsed(now, lastLedUpdate) >= BreathInterval {
          lastLedUpdate := now;
          breathBrightness := breathBrightness + breathDirection * BreathStep;
          if breathBrightness >= Brightness {
            breathBrightness := Brightness;
            breathDirection := Falling;
          } else if breathBrightness <= 1 {
            breathBrightness := 1;
            breathDirection := Rising;
          }
          shown := Green(breathBrightness);
        }
      }
    }
  }
}
