/** Shared vocabulary of the OWL control model: MIDI byte types, the OpenWare
    SysEx command set and the protocol constants the host compares against.

    The numeric codes of the commands, the manufacturer and device ids and the
    parameter-id conversions live in a crate of their own; they are not part of
    this model and enter it as the values of a `Protocol`. */
module Midi {

  /** An 8-bit byte as it sits in a Rust `u8`. */
  type byte = bv8

  /** A MIDI data byte: seven significant bits, the top bit clear. */
  type U7 = b: bv8 | b < 0x80

  /** A Rust `u32`. */
  type u32 = bv32

  /** A MIDI channel index, 0 for channel 1. */
  type Channel = c: nat | c < 16

  datatype Option<+T> = None | Some(value: T)

  /** `U7::from_u8_lossy`: keep the low seven bits and drop the top one, so
      the word and the top bit together give the byte back. */
  function FromU8Lossy(b: byte): (w: U7)
    ensures w | (b & 0x80) == b
    ensures b < 0x80 ==> w == b
  {
    b & 0x7F
  }

  /** The OpenWare SysEx commands that the host dispatches on; every other
      command the device protocol defines is an `OtherCommand`. */
  datatype Command =
    | FirmwareVersion
    | ParameterName
    | PresetName
    | ResourceName
    | ProgramMessage
    | ProgramError
    | ProgramStats
    | Configuration
    | FirmwareUpload
    | OtherCommand(code: U7)

  /** The subset of decoded MIDI messages the host distinguishes. */
  datatype MidiMessage =
    | ControlChange(channel: Channel, controller: U7, value: U7)
    | ProgramChange(channel: Channel, program: U7)
    | OtherMessage(status: byte)

  /** The foreign protocol constants and conversions:
      - `manufacturer`, `owlDevice`: the ids an inbound OWL frame starts with;
      - `commands`: the command-byte conversion, defined only for known bytes;
      - `parameterIds`: the parameter-id conversion, defined only for bytes that
        name a patch parameter, mapping each to the parameter's string id;
      - `configurationOf`: the total conversion of a configuration code (two
        words, the first one weighted 256) to the key the settings are stored
        under. */
  datatype Protocol = Protocol(
    manufacturer: nat,
    owlDevice: nat,
    commands: map<U7, Command>,
    parameterIds: map<U7, string>,
    configurationOf: int -> int)
}
