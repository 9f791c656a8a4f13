/** A patch parameter as the host mirrors it: the value shown in the user
    interface and the controller value last seen on MIDI, with the echo
    suppression that decides which side wins. */
module Parameter {

  /** A Rust `u8` holding a MIDI controller value. */
  type u8 = x: int | 0 <= x < 256

  /** The value of an `OwlParameter`. The source's `f32` value is a real. */
  datatype ParameterState = ParameterState(name: string, value: real, midiValue: u8, prevMidiValue: u8)

  /** `OwlParameter::new(name)`. */
  function Fresh(name: string): ParameterState
  {
    ParameterState(name, 0.0, 0, 0)
  }

  /** The cast `x as u8` of a float: rounds toward zero and saturates at 0
      and 255. */
  function ToU8(x: real): (b: u8)
    ensures x < 1.0 ==> b == 0
    ensures x >= 255.0 ==> b == 255
    ensures 0.0 <= x < 256.0 ==> b as real <= x < b as real + 1.0
  {
    if x < 1.0 then 0 else if x >= 255.0 then 255 else x.Floor
  }

  /** `sync` on a value: the new parameter and whether the host must send the
      controller value to the device. */
  function Synced(p: ParameterState): (ParameterState, bool)
  {
    if p.midiValue != p.prevMidiValue then
      (p.(prevMidiValue := p.midiValue, value := p.midiValue as real / 127.0), false)
    else
      var expected := ToU8(p.value * 127.0);
      if p.midiValue != expected then
        (p.(midiValue := expected, prevMidiValue := expected), true)
      else
        (p, false)
  }

  /** `OwlParameter`: a parameter updated in place by `sync`. */
  class OwlParameter {
    var name: string
    var value: real
    var midiValue: u8
    var prevMidiValue: u8

    function State(): ParameterState
      reads this
    {
      ParameterState(name, value, midiValue, prevMidiValue)
    }

    /** `new(name)`: value and both controller values zero. */
    constructor (name: string)
      ensures State() == Fresh(name)
      ensures value == 0.0 && midiValue == 0 && prevMidiValue == 0
    {
      this.name := name;
      value := 0.0;
      midiValue := 0;
      prevMidiValue := 0;
    }

    /** `sync`: returns whether a controller change must be sent. */
    method Sync() returns (send: bool)
      modifies this
      ensures (State(), send) == Synced(old(State()))
    {
      if midiValue != prevMidiValue {
        prevMidiValue := midiValue;
        value := midiValue as real / 127.0;
      } else {
        var expectedValue := ToU8(value * 127.0);
        if midiValue != expectedValue {
          midiValue := expectedValue;
          prevMidiValue := expectedValue;
          return true;
        }
      }
      return false;
    }
  }

  // ---------------------------------------------------------------------
  // Properties of `sync`

  /** A whole number of steps converts back to itself. */
  lemma ToU8OfStep(m: u8)
    ensures ToU8(m as real / 127.0 * 127.0) == m
  {
    assert m as real / 127.0 * 127.0 == m as real;
  }

  /** After any `sync` the device and the host agree on the controller value,
      and the name never changes. */
  lemma SyncSettles(p: ParameterState)
    ensures Synced(p).0.midiValue == Synced(p).0.prevMidiValue
    ensures Synced(p).0.name == p.name
  {
  }

  /** A controller value received from the device wins: the shown value
      becomes its fraction of 127, which converts back to the same controller
      value, and nothing is sent. */
  lemma DeviceChangeWins(p: ParameterState)
    requires p.midiValue != p.prevMidiValue
    ensures var (q, send) := Synced(p);
      && !send
      && q.midiValue == q.prevMidiValue == p.midiValue
      && q.value == p.midiValue as real / 127.0
      && ToU8(q.value * 127.0) == p.midiValue
  {
    ToU8OfStep(p.midiValue);
  }

  /** Without a change from the device, a shown value that converts to a
      different controller value wins and is sent; otherwise nothing
      happens. */
  lemma InterfaceChangeWins(p: ParameterState)
    requires p.midiValue == p.prevMidiValue
    ensures var (q, send) := Synced(p);
      && q.value == p.value
      && (send <==> ToU8(p.value * 127.0) != p.midiValue)
      && q.midiValue == q.prevMidiValue == ToU8(p.value * 127.0)
      && (!send ==> q == p)
  {
  }

  /** A second `sync` with nothing changed in between sends nothing and
      changes nothing. */
  lemma SyncIdempotent(p: ParameterState)
    ensures Synced(Synced(p).0) == (Synced(p).0, false)
  {
    if p.midiValue != p.prevMidiValue {
      ToU8OfStep(p.midiValue);
    }
  }

  /** The unit test's sequence: a new parameter does not sync; a controller
      value of 1 from the device is taken over silently; a shown value of 0.5
      becomes controller value 63 and is sent, once. */
  lemma SyncVectors()
    ensures Synced(Fresh("foo")) == (Fresh("foo"), false)
    ensures Synced(Fresh("foo").(midiValue := 1)) == (ParameterState("foo", 1.0 / 127.0, 1, 1), false)
    ensures Synced(ParameterState("foo", 0.5, 1, 1)) == (ParameterState("foo", 0.5, 63, 63), true)
    ensures Synced(ParameterState("foo", 0.5, 63, 63)) == (ParameterState("foo", 0.5, 63, 63), false)
  {
    assert ToU8(0.5 * 127.0) == 63;
  }
}
