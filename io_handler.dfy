/** The playback buttons on the I/O expander: pins 1, 2 and 3 of the
    PCA9554 input port, active low. A falling edge on a pin issues its
    playback command unless the same pin fired within the last 200 ms. */
module IoHandler {
  import opened Registers
  import opened Clock
  import Pca = Pca9554

  /** `DEBOUNCE_DELAY`, in milliseconds. */
  const DebounceDelay := 200

  /** The playback commands the buttons issue. */
  datatype Action = PreviousTrack | TogglePlayPause | NextTrack

  /** Pin 1 is previous track, pin 2 play/pause, pin 3 next track. */
  function PinAction(i: nat): Action
    requires 1 <= i <= 3
  {
    if i == 1 then PreviousTrack else if i == 2 then TogglePlayPause else NextTrack
  }

  /** The handler's statics: `lastIOState`, `lastIO1Change` to
      `lastIO3Change`, and the commands issued so far. */
  datatype IoState = IoState(last: byte, stamp1: Millis, stamp2: Millis, stamp3: Millis, actions: seq<Action>)

  /** When pin `i` last fired. */
  function Stamp(s: IoState, i: nat): Millis
    requires 1 <= i <= 3
  {
    if i == 1 then s.stamp1 else if i == 2 then s.stamp2 else s.stamp3
  }

  /** Pin `i` changed and is now low: a press. */
  predicate Falls(last: byte, current: byte, i: nat)
    requires i < 8
  {
    Bit(current ^ last, i as byte) && !Bit(current, i as byte)
  }

  /** Which of pins 1..3 fell. */
  datatype Edges = Edges(pin1: bool, pin2: bool, pin3: bool)

  /** The falling edges from `last` to `current`. */
  function EdgesOf(last: byte, current: byte): (e: Edges)
    ensures e.pin1 == Falls(last, current, 1) && e.pin2 == Falls(last, current, 2)
    ensures e.pin3 == Falls(last, current, 3)
  {
    Edges(Falls(last, current, 1), Falls(last, current, 2), Falls(last, current, 3))
  }

  /** Pin `i` fell. */
  predicate Fell(e: Edges, i: nat)
    requires 1 <= i <= 3
  {
    if i == 1 then e.pin1 else if i == 2 then e.pin2 else e.pin3
  }

  /** Pin `i` acts at `now`: it fell, and more than the debounce delay
      has passed since it last fired. */
  predicate Fires(s: IoState, e: Edges, now: Millis, i: nat)
    requires 1 <= i <= 3
  {
    Fell(e, i) && Elapsed(now, Stamp(s, i)) > DebounceDelay
  }

  /** Pin `i` firing: its command is issued and its stamp becomes `now`. */
  function Fire(t: IoState, now: Millis, i: nat): (r: IoState)
    requires 1 <= i <= 3
    ensures r.actions == t.actions + [PinAction(i)] && r.last == t.last
    ensures r.stamp1 == (if i == 1 then now else t.stamp1)
    ensures r.stamp2 == (if i == 2 then now else t.stamp2)
    ensures r.stamp3 == (if i == 3 then now else t.stamp3)
  {
    var u := t.(actions := t.actions + [PinAction(i)]);
    if i == 1 then u.(stamp1 := now) else if i == 2 then u.(stamp2 := now) else u.(stamp3 := now)
  }

  /** Pins 1 to `n` handled in order, each judged against the state before
      the change. */
  function Pins(s: IoState, e: Edges, now: Millis, n: nat): (r: IoState)
    requires n <= 3
    ensures r.last == s.last
    ensures |s.actions| <= |r.actions| <= |s.actions| + n && r.actions[..|s.actions|] == s.actions
  {
    if n == 0 then s
    else
      var t := Pins(s, e, now, n - 1);
      if Fires(s, e, now, n) then Fire(t, now, n) else t
  }

  /** `handleIOChange(currentState)` at time `now`: nothing when the port
      did not change; otherwise every pin of 1..3 that fires issues its
      command, in pin order, and the port state is remembered. */
  function Handle(s: IoState, current: byte, now: Millis): (r: IoState)
    ensures r.last == current
    ensures |s.actions| <= |r.actions| <= |s.actions| + 3 && r.actions[..|s.actions|] == s.actions
  {
    if current == s.last then s else Pins(s, EdgesOf(s.last, current), now, 3).(last := current)
  }

  /** What pin handling leaves: each pin's stamp is `now` exactly when it
      fired, and the commands are those of the firing pins in pin order. */
  lemma PinsEffect(s: IoState, e: Edges, now: Millis, n: nat)
    requires n <= 3
    ensures var r := Pins(s, e, now, n);
      && r.last == s.last
      && r.stamp1 == (if 1 <= n && Fires(s, e, now, 1) then now else s.stamp1)
      && r.stamp2 == (if 2 <= n && Fires(s, e, now, 2) then now else s.stamp2)
      && r.stamp3 == (if 3 <= n && Fires(s, e, now, 3) then now else s.stamp3)
      && r.actions == s.actions + Issued(s, e, now, n)
  {
    PinsStamps(s, e, now, n);
    PinsIssued(s, e, now, n);
  }

  lemma {:induction false} PinsStamps(s: IoState, e: Edges, now: Millis, n: nat)
    requires n <= 3
    ensures var r := Pins(s, e, now, n);
      && r.last == s.last
      && r.stamp1 == (if 1 <= n && Fires(s, e, now, 1) then now else s.stamp1)
      && r.stamp2 == (if 2 <= n && Fires(s, e, now, 2) then now else s.stamp2)
      && r.stamp3 == (if 3 <= n && Fires(s, e, now, 3) then now else s.stamp3)
  {
    if n > 0 {
      PinsStamps(s, e, now, n - 1);
    }
  }

  lemma {:induction false} PinsIssued(s: IoState, e: Edges, now: Millis, n: nat)
    requires n <= 3
    ensures Pins(s, e, now, n).actions == s.actions + Issued(s, e, now, n)
  {
    if n > 0 {
      PinsIssued(s, e, now, n - 1);
    }
  }

  /** The commands of the pins among 1..n that fire, in pin order. */
  function Issued(s: IoState, e: Edges, now: Millis, n: nat): (a: seq<Action>)
    requires n <= 3
    ensures |a| <= n
  {
    if n == 0 then []
    else Issued(s, e, now, n - 1) + (if Fires(s, e, now, n) then [PinAction(n)] else [])
  }

  /** A change with no falling edge on pins 1..3 (a release, or a change
      on pin 0 or pins 4..7 only) issues nothing and moves no stamp. */
  lemma NoPressNoAction(s: IoState, current: byte, now: Millis)
    requires !Falls(s.last, current, 1) && !Falls(s.last, current, 2) && !Falls(s.last, current, 3)
    ensures var r := Handle(s, current, now);
      r.actions == s.actions && r.stamp1 == s.stamp1 && r.stamp2 == s.stamp2 && r.stamp3 == s.stamp3
  {
    if current != s.last {
      var e := EdgesOf(s.last, current);
      PinsEffect(s, e, now, 3);
      assert Issued(s, e, now, 1) == [];
      assert Issued(s, e, now, 2) == [];
      assert Issued(s, e, now, 3) == [];
    }
  }

  /** Only pin `i` fell. */
  function Only(i: nat): (e: Edges)
    requires 1 <= i <= 3
    ensures forall k :: 1 <= k <= 3 ==> (Fell(e, k) <==> k == i)
  {
    Edges(i == 1, i == 2, i == 3)
  }

  /** A press on pin `i` alone, more than the debounce delay after it last
      fired, issues exactly that pin's command and moves only its stamp. */
  lemma OnePress(s: IoState, current: byte, now: Millis, i: nat)
    requires 1 <= i <= 3 && current != s.last && EdgesOf(s.last, current) == Only(i)
    requires Elapsed(now, Stamp(s, i)) > DebounceDelay
    ensures var r := Handle(s, current, now);
      && r.last == current && r.actions == s.actions + [PinAction(i)]
      && r.stamp1 == (if i == 1 then now else s.stamp1)
      && r.stamp2 == (if i == 2 then now else s.stamp2)
      && r.stamp3 == (if i == 3 then now else s.stamp3)
  {
    OnlyIssues(s, now, i);
  }

  lemma OnlyIssues(s: IoState, now: Millis, i: nat)
    requires 1 <= i <= 3 && Elapsed(now, Stamp(s, i)) > DebounceDelay
    ensures var r := Pins(s, Only(i), now, 3);
      && r.actions == s.actions + [PinAction(i)]
      && r.stamp1 == (if i == 1 then now else s.stamp1)
      && r.stamp2 == (if i == 2 then now else s.stamp2)
      && r.stamp3 == (if i == 3 then now else s.stamp3)
  {
    var e := Only(i);
    PinsEffect(s, e, now, 3);
    assert Issued(s, e, now, 1) == if i == 1 then [PreviousTrack] else [];
    assert Issued(s, e, now, 2) == if i <= 2 then [PinAction(i)] else [];
  }

  /** A pin that fired does not fire again on a press within the debounce
      delay, whatever the other pins do. */
  lemma {:induction false} DebounceHolds(s: IoState, c1: byte, t1: Millis, c2: byte, t2: Millis, i: nat)
    requires 1 <= i <= 3 && c1 != s.last && Fires(s, EdgesOf(s.last, c1), t1, i)
    requires Elapsed(t2, t1) <= DebounceDelay
    ensures var r := Handle(s, c1, t1); !Fires(r, EdgesOf(r.last, c2), t2, i)
  {
    PinsEffect(s, EdgesOf(s.last, c1), t1, 3);
  }

  /** The handler's state, with the expander it reads. */
  class Handler {
    const expander: Pca.Expander
    var lastIOState: byte
    var lastIO1Change: Millis
    var lastIO2Change: Millis
    var lastIO3Change: Millis
    /** `interruptTriggered`, set by the expander's interrupt line. */
    var interruptTriggered: bool
    /** Commands issued to the Bluetooth player, in order. */
    var actions: seq<Action>

    function View(): IoState
      reads this
    {
      IoState(lastIOState, lastIO1Change, lastIO2Change, lastIO3Change, actions)
    }

    /** The statics' initial values: all pins high, no stamps, no
        pending interrupt. */
    constructor (expander: Pca.Expander)
      ensures this.expander == expander
      ensures View() == IoState(0xFF, 0, 0, 0, []) && !interruptTriggered
    {
      this.expander := expander;
      lastIOState := 0xFF;
      lastIO1Change, lastIO2Change, lastIO3Change := 0, 0, 0;
      interruptTriggered := false;
      actions := [];
    }

    /** `handlePCA9554Interrupt`: the interrupt service routine only
        raises the flag. */
    method Interrupt()
      modifies this`interruptTriggered
      ensures interruptTriggered
    {
      interruptTriggered := true;
    }

    /** `handleIOChange(currentState)` at time `now`: the falling edges of
        pins 1..3 are taken from the changed bits, then each pin is
        handled in order. */
    method HandleIOChange(current: byte, now: Millis)
      modifies this`lastIOState, this`lastIO1Change, this`lastIO2Change, this`lastIO3Change, this`actions
      ensures View() == Handle(old(View()), current, now)
    {
      if current == lastIOState {
        return;
      }
      ghost var s0 := View();
      var e := EdgesOf(lastIOState, current);
      var i := 1;
      while i <= 3
        invariant 1 <= i <= 4 && lastIOState == s0.last
        invariant View() == Pins(s0, e, now, i - 1)
      {
        PinsStamp(s0, e, now, i - 1, i);
        if Fell(e, i) {
          Press(i, now);
        }
        i := i + 1;
      }
      lastIOState := current;
    }

    /** A press on pin `i`: its command is issued and its stamp moved to
        `now`, unless the pin fired within the debounce delay. */
    method Press(i: nat, now: Millis)
      requires 1 <= i <= 3
      modifies this`lastIO1Change, this`lastIO2Change, this`lastIO3Change, this`actions
      ensures View() == if Elapsed(now, Stamp(old(View()), i)) > DebounceDelay then Fire(old(View()), now, i) else old(View())
    {
      if i == 1 {
        if Elapsed(now, lastIO1Change) > DebounceDelay {
          actions := actions + [PreviousTrack];
          lastIO1Change := now;
        }
      } else if i == 2 {
        if Elapsed(now, lastIO2Change) > DebounceDelay {
          actions := actions + [TogglePlayPause];
          lastIO2Change := now;
        }
      } else {
        if Elapsed(now, lastIO3Change) > DebounceDelay {
          actions := actions + [NextTrack];
          lastIO3Change := now;
        }
      }
    }

    /** `updatePCA9554` at time `now`: after an interrupt the flag is
        cleared and the input port read; a successful read is handled as a
        change. Without an interrupt nothing happens. */
    method UpdatePCA9554(readAck: bool, now: Millis)
      requires expander.Valid()
      modifies this`interruptTriggered, this`lastIOState, this`lastIO1Change, this`lastIO2Change,
               this`lastIO3Change, this`actions, expander`log
      ensures !interruptTriggered
      ensures !old(interruptTriggered) ==> View() == old(View()) && expander.log == old(expander.log)
      ensures old(interruptTriggered) ==> !interruptTriggered && expander.log == old(expander.log) + [Read(Pca.InputPort)]
      ensures old(interruptTriggered) ==>
                View() == if readAck then Handle(old(View()), old(expander.Reg(Pca.InputPort)), now) else old(View())
    {
      if interruptTriggered {
        interruptTriggered := false;
        var ok, current := expander.DigitalReadPort(readAck);
        if ok {
          HandleIOChange(current, now);
        }
      }
    }

    /** `initPCA9554Handler`: probe the expander, make every pin an input,
        and take the input port as the starting state; any failure stops
        the sequence and returns false. */
    method Init(present: bool, writeAck: bool, readAck: bool) returns (ok: bool)
      requires expander.Valid()
      modifies this`lastIOState, expander
      ensures expander.Valid() && ok == (present && writeAck && readAck)
      ensures expander.initialized == present
      ensures expander.log == old(expander.log) + [Probe]
        + (if present then [Write(Pca.ConfigPort, Pca.AllInput)] else [])
        + (if present && writeAck then [Read(Pca.InputPort)] else [])
      ensures present && writeAck ==> expander.Reg(Pca.ConfigPort) == Pca.AllInput
      ensures expander.regs == if present && writeAck
        then old(expander.regs)[Pca.ConfigPort as int := Pca.AllInput] else old(expander.regs)
      ensures lastIOState == if ok then expander.Reg(Pca.InputPort) else old(lastIOState)
    {
      ok := expander.Begin(present);
      if !ok {
        return;
      }
      ok := expander.PortMode(Pca.AllInput, writeAck);
      if !ok {
        return;
      }
      var initial;
      ok, initial := expander.DigitalReadPort(readAck);
      if !ok {
        return;
      }
      lastIOState := initial;
    }
  }

  /** Handling pin `i` after pins 1..i-1 is `Pins` up to `i`: the pin is
      judged on the stamp it had before the change. */
  lemma PinsStamp(s: IoState, e: Edges, now: Millis, n: nat, i: nat)
    requires i == n + 1 && 1 <= i <= 3
    ensures Stamp(Pins(s, e, now, n), i) == Stamp(s, i)
  {
    PinsEffect(s, e, now, n);
  }
}
