/** The filter on the MIDI port list: show every port, or only OWL devices. */
module MidiDevices {

  datatype MidiDeviceSelection = All | Owl

  /** The prefix OWL devices announce their port names with. */
  const OwlPrefix: string := "OWL-"

  /** `show_midi_device`: whether a port of this name is listed. */
  function ShowMidiDevice(selection: MidiDeviceSelection, name: string): (shown: bool)
    ensures selection == All ==> shown
    ensures selection == Owl ==> (shown <==> |name| >= 4 && name[..4] == OwlPrefix)
  {
    match selection
    case All => true
    case Owl => OwlPrefix <= name
  }

  /** With the OWL filter, a name too short to hold the prefix is hidden,
      the comparison is case-sensitive, and the bare prefix is shown. */
  lemma OwlFilterExamples(name: string)
    requires |name| < 4
    ensures !ShowMidiDevice(Owl, name)
    ensures !ShowMidiDevice(Owl, "owl-x")
    ensures ShowMidiDevice(Owl, "OWL-")
    ensures ShowMidiDevice(Owl, "OWL-1 MIDI 1")
  {
    assert "owl-x"[0] != OwlPrefix[0];
    assert "OWL-1 MIDI 1"[..4] == OwlPrefix;
  }
}
