/** The host's picture of an OWL device and the handlers that keep it up to
    date: the requests the host sends, the SysEx commands and MIDI messages it
    receives, and the resource transfer it drives. */
module CommandProcessor {
  import opened Midi
  import opened Text
  import opened Sysex
  import opened Resources
  import opened Parameter

  /** One entry of the processor's log. Each handler appends a fixed number of
      entries; the text the source formats for them is not modelled. */
  datatype LogEntry =
    | CommandSentEntry(command: Command)
    | StringSentEntry(command: Command, payload: seq<byte>)
    | MessageSentEntry(message: MidiMessage)
    | FirmwareVersionEntry(version: string)
    | ParameterNameEntry(param: U7, name: string)
    | PatchNameEntry(pos: nat, name: string)
    | ResourceNameEntry(pos: nat, name: string)
    | ProgramMessageEntry(text: string)
    | ProgramErrorEntry(text: string)
    | ProgramStatsEntry(text: string)
    | HexParseErrorEntry(text: string)
    | ConfigurationEntry(key: int)
    | FirmwareUploadEntry(index: u32)
    | ParameterEntry(stringId: string, value: U7)
    | ControlChangeEntry(controller: U7, value: U7)
    | MessageReceivedEntry(message: MidiMessage)

  /** The value of an `OwlCommandProcessor`, with its `ResourceData` as a
      `Transfer`. Parameters are keyed by the code of their id; settings by
      the converted configuration code. */
  datatype Device = Device(
    firmwareVersion: Option<string>,
    parameters: map<int, ParameterState>,
    programMessage: Option<string>,
    errorMessage: Option<string>,
    patchName: Option<string>,
    patches: seq<Option<Resource>>,
    resourceOffset: nat,
    resources: seq<Option<Resource>>,
    programStats: Option<string>,
    settings: map<int, string>,
    log: seq<LogEntry>,
    transfer: Transfer)

  /** `OwlCommandProcessor::new()`. */
  function NewDevice(): Device
  {
    Device(None, map[], None, None, None, [], 0, [], None, map[], [], Initial())
  }

  /** The processor's invariant: its transfer is consistent. */
  predicate Ready(d: Device)
  {
    Resources.Consistent(d.transfer)
  }

  // ---------------------------------------------------------------------
  // Name records: [index, name..., 0, size (5 words), checksum (5 words), ...]

  /** Where the name of a record ends: the first zero among words
      1..|data|-2, or the last word when there is none. */
  function NameEnd(data: seq<U7>): nat
    requires |data| >= 1
  {
    FirstZero(data, 1, |data| - 1)
  }

  /** What a name record must satisfy for the handler not to panic: the
      size and checksum after the name's end lie within the payload. */
  predicate NameRecordFits(data: seq<U7>)
  {
    |data| >= 2 && NameEnd(data) + 11 <= |data|
  }

  /** The resource a name record describes. */
  function NameRecord(data: seq<U7>, id: byte): Resource
    requires NameRecordFits(data)
  {
    var end := NameEnd(data);
    Resource(id, AsText(data[1..end]), DecodeU32(data[end + 1..end + 6]).value.0,
             DecodeU32(data[end + 6..end + 11]).value.0)
  }

  /** `resize_with(n, || None)` on a shorter list; a longer one is kept. */
  function Grown<T>(list: seq<Option<T>>, n: nat): (r: seq<Option<T>>)
    ensures |r| == if |list| < n then n else |list|
    ensures forall i :: 0 <= i < |r| ==> r[i] == if i < |list| then list[i] else None
  {
    if |list| < n then list + seq(n - |list|, _ => None) else list
  }

  // ---------------------------------------------------------------------
  // The processor's operations on values

  /** `request_settings`: log the request; asking for the preset names
      empties the patch list, asking for the resource names empties the
      resource list and its offset. */
  function SettingsRequested(d: Device, command: Command): Device
  {
    var d := d.(log := d.log + [CommandSentEntry(command)]);
    if command == PresetName then d.(patches := [])
    else if command == ResourceName then d.(resourceOffset := 0, resources := [])
    else d
  }

  /** `send_sysex_command`: only logged. */
  function CommandSent(d: Device, command: Command): Device
  {
    d.(log := d.log + [CommandSentEntry(command)])
  }

  /** `send_sysex_string`: only logged. */
  function StringSent(d: Device, command: Command, payload: seq<byte>): Device
  {
    d.(log := d.log + [StringSentEntry(command, payload)])
  }

  /** `send_message`: logged; a program change forgets every parameter. */
  function MessageSent(d: Device, message: MidiMessage): Device
  {
    d.(log := d.log + [MessageSentEntry(message)],
       parameters := if message.ProgramChange? then map[] else d.parameters)
  }

  /** What `handle_sysex_command` demands of a payload: the source indexes
      and slices it unchecked and unwraps the parameter-id conversion, so a
      payload outside these bounds panics. */
  predicate PayloadWellFormed(d: Device, cmd: Command, data: seq<U7>, p: Protocol)
  {
    match cmd
    case ParameterName => |data| >= 2 && data[0] in p.parameterIds
    case PresetName => NameRecordFits(data)
    case ResourceName => NameRecordFits(data) && (d.resources != [] ==> data[0] as int >= d.resourceOffset)
    case ProgramMessage => |data| >= 1
    case ProgramError => |data| >= 1
    case ProgramStats => |data| >= 1
    case Configuration => |data| >= 2
    case _ => true
  }

  /** The store that ends PRESET_NAME: the record goes to slot `pos` of
      the patch list, grown with gaps, and the patch name follows slot 0. */
  function PatchStored(d: Device, pos: nat, record: Resource): Device
  {
    var patches := Grown(d.patches, pos + 1)[pos := Some(record)];
    var patchName :=
      if |patches| > 0 then (if patches[0].Some? then Some(patches[0].value.name) else None)
      else d.patchName;
    d.(patches := patches, patchName := patchName,
       log := d.log + [PatchNameEntry(pos, patches[pos].value.name)])
  }

  /** PRESET_NAME: store the record at its index, growing the list with
      gaps, and take the patch name from slot 0. */
  function PresetNameHandled(d: Device, data: seq<U7>): Device
    requires NameRecordFits(data)
  {
    PatchStored(d, data[0] as int, NameRecord(data, data[0]))
  }

  /** The store that ends RESOURCE_NAME: the offset is recorded and the
      record goes to slot `pos` of the resource list, grown with gaps. */
  function ResourceStored(d: Device, offset: nat, pos: nat, record: Resource): Device
  {
    var resources := Grown(d.resources, pos + 1)[pos := Some(record)];
    d.(resourceOffset := offset, resources := resources,
       log := d.log + [ResourceNameEntry(pos, resources[pos].value.name)])
  }

  /** RESOURCE_NAME: the first index received into an empty list becomes
      the offset; the record is stored at its index minus the offset. */
  function ResourceNameHandled(d: Device, data: seq<U7>): Device
    requires NameRecordFits(data) && (d.resources != [] ==> data[0] as int >= d.resourceOffset)
  {
    var offset := if d.resources == [] then data[0] as int else d.resourceOffset;
    var pos := data[0] as int - offset;
    ResourceStored(d, offset, pos, NameRecord(data, pos as byte))
  }

  /** CONFIGURATION: the two code words name the setting; its value is the
      base-16 text that follows, stored in decimal, or "" with an error
      entry when it does not parse. */
  function ConfigurationHandled(d: Device, data: seq<U7>, p: Protocol): Device
    requires |data| >= 2
  {
    var key := p.configurationOf(data[0] as int * 256 + data[1] as int);
    var text := AsText(data[2..]);
    match ParseHexI64(text)
    case Some(v) =>
      d.(settings := d.settings[key := DecimalString(v)], log := d.log + [ConfigurationEntry(key)])
    case None =>
      d.(settings := d.settings[key := ""], log := d.log + [HexParseErrorEntry(text), ConfigurationEntry(key)])
  }

  /** FIRMWARE_UPLOAD: a payload with a chunk index restarts the transfer
      when the index is zero and feeds the words after it to the transfer. */
  function FirmwareUploadHandled(d: Device, data: seq<U7>, crc32: seq<byte> -> u32): Device
    requires Ready(d)
  {
    match DecodeU32(data)
    case Ok((index, _)) =>
      var t := if index == 0 then Initial() else d.transfer;
      d.(log := d.log + [FirmwareUploadEntry(index)], transfer := Step(t, data[5..], crc32))
    case Err(_) => d
  }

  /** The PRESET_NAME store, given its parts. */
  lemma PatchStoredParts(d: Device, pos: nat, record: Resource, patches: seq<Option<Resource>>,
                         patchName: Option<string>)
    requires patches == Grown(d.patches, pos + 1)[pos := Some(record)]
    requires patchName == if patches[0].Some? then Some(patches[0].value.name) else None
    ensures PatchStored(d, pos, record)
         == d.(patches := patches, patchName := patchName, log := d.log + [PatchNameEntry(pos, record.name)])
  {
  }

  /** The RESOURCE_NAME store, given its parts. */
  lemma ResourceStoredParts(d: Device, offset: nat, pos: nat, record: Resource,
                            resources: seq<Option<Resource>>)
    requires resources == Grown(d.resources, pos + 1)[pos := Some(record)]
    ensures ResourceStored(d, offset, pos, record)
         == d.(resourceOffset := offset, resources := resources, log := d.log + [ResourceNameEntry(pos, record.name)])
  {
  }

  /** `handle_sysex_command` on a value. */
  function CommandHandled(d: Device, cmd: Command, data: seq<U7>, p: Protocol, crc32: seq<byte> -> u32): Device
    requires Ready(d) && PayloadWellFormed(d, cmd, data, p)
  {
    match cmd
    case FirmwareVersion =>
      var version := AsText(data);
      d.(firmwareVersion := Some(version), log := d.log + [FirmwareVersionEntry(version)])
    case ParameterName =>
      var name := AsText(data[1..|data| - 1]);
      d.(log := d.log + [ParameterNameEntry(data[0], name)],
         parameters := d.parameters[data[0] as int := Fresh(name)])
    case PresetName => PresetNameHandled(d, data)
    case ResourceName => ResourceNameHandled(d, data)
    case ProgramMessage =>
      var text := AsText(data[..|data| - 1]);
      d.(programMessage := Some(text), log := d.log + [ProgramMessageEntry(text)])
    case ProgramError =>
      var text := AsText(data[..|data| - 1]);
      d.(errorMessage := Some(text), log := d.log + [ProgramErrorEntry(text)])
    case ProgramStats =>
      var text := AsText(data[..|data| - 1]);
      d.(programStats := Some(text), log := d.log + [ProgramStatsEntry(text)])
    case Configuration => ConfigurationHandled(d, data, p)
    case FirmwareUpload => FirmwareUploadHandled(d, data, crc32)
    case OtherCommand(_) => d
  }

  /** What `handle_sysex` demands of a frame: it reads word 0 unchecked, and
      word 1 only when word 0 is the manufacturer id. */
  predicate FrameReadable(frame: seq<U7>, p: Protocol)
  {
    |frame| >= 1 && (frame[0] as int == p.manufacturer ==> |frame| >= 2)
  }

  /** Whether a frame is an OWL command the protocol knows: manufacturer and
      device id match and the third word converts to a command. */
  predicate IsOwlCommand(frame: seq<U7>, p: Protocol)
    requires FrameReadable(frame, p)
  {
    frame[0] as int == p.manufacturer && frame[1] as int == p.owlDevice && |frame| > 2 && frame[2] in p.commands
  }

  /** `handle_sysex` on a value. */
  function SysexHandled(d: Device, frame: seq<U7>, p: Protocol, crc32: seq<byte> -> u32): Device
    requires Ready(d) && FrameReadable(frame, p)
    requires IsOwlCommand(frame, p) ==> PayloadWellFormed(d, p.commands[frame[2]], frame[3..], p)
  {
    if IsOwlCommand(frame, p) then CommandHandled(d, p.commands[frame[2]], frame[3..], p, crc32) else d
  }

  /** `handle_midi_message` on a value. */
  function MidiHandled(d: Device, message: MidiMessage, p: Protocol): Device
  {
    match message
    case ControlChange(_, cc, value) =>
      if cc in p.parameterIds then
        var id := p.parameterIds[cc];
        var key := cc as int;
        var param := if key in d.parameters then d.parameters[key].(midiValue := value as int)
                     else Fresh(id).(midiValue := value as int);
        d.(log := d.log + [ParameterEntry(id, value)], parameters := d.parameters[key := param])
      else
        d.(log := d.log + [ControlChangeEntry(cc, value)])
    case _ =>
      d.(log := d.log + [MessageReceivedEntry(message)])
  }

  // ---------------------------------------------------------------------
  // The processor

  /** `OwlCommandProcessor`: the device snapshot, updated in place by the
      handlers. The connection the requests go out on is not modelled. */
  class OwlCommandProcessor {
    var firmwareVersion: Option<string>
    var parameters: map<int, ParameterState>
    var programMessage: Option<string>
    var errorMessage: Option<string>
    var patchName: Option<string>
    var patches: seq<Option<Resource>>
    var resourceOffset: nat
    var resources: seq<Option<Resource>>
    var programStats: Option<string>
    var settings: map<int, string>
    var log: seq<LogEntry>
    const resourceData: ResourceData

    ghost predicate Valid()
      reads this, resourceData
    {
      resourceData.Valid() && Ready(Snapshot())
    }

    function Snapshot(): Device
      reads this, resourceData
    {
      Device(firmwareVersion, parameters, programMessage, errorMessage, patchName, patches,
             resourceOffset, resources, programStats, settings, log, resourceData.Model())
    }

    /** `new()`: nothing known yet, empty lists and maps, a new transfer. */
    constructor ()
      ensures Valid() && Snapshot() == NewDevice()
      ensures fresh(resourceData) && fresh(resourceData.decodeBuffer)
    {
      firmwareVersion, parameters, programMessage, errorMessage, patchName := None, map[], None, None, None;
      patches, resourceOffset, resources, programStats, settings, log := [], 0, [], None, map[], [];
      resourceData := new ResourceData();
    }

    method RequestSettings(command: Command)
      requires Valid()
      modifies this
      ensures Valid() && Snapshot() == SettingsRequested(old(Snapshot()), command)
    {
      log := log + [CommandSentEntry(command)];
      if command == PresetName {
        patches := [];
      } else if command == ResourceName {
        resourceOffset := 0;
        resources := [];
      }
    }

    method SendSysexCommand(command: Command)
      requires Valid()
      modifies this
      ensures Valid() && Snapshot() == CommandSent(old(Snapshot()), command)
    {
      log := log + [CommandSentEntry(command)];
    }

    /** `send_sysex_string`: the source unwraps the conversion of the
        payload to 7-bit words, so every byte must be below 0x80. */
    method SendSysexString(command: Command, payload: seq<byte>)
      requires Valid() && forall i :: 0 <= i < |payload| ==> payload[i] < 0x80
      modifies this
      ensures Valid() && Snapshot() == StringSent(old(Snapshot()), command, payload)
    {
      log := log + [StringSentEntry(command, payload)];
    }

    method SendMessage(message: MidiMessage)
      requires Valid()
      modifies this
      ensures Valid() && Snapshot() == MessageSent(old(Snapshot()), message)
    {
      log := log + [MessageSentEntry(message)];
      if message.ProgramChange? {
        parameters := map[];
      }
    }

    /** `handle_sysex`: the source indexes word 0 unchecked, and word 1 when
        word 0 is the manufacturer id. It always reports success, so the
        method returns nothing. */
    method HandleSysex(frame: seq<U7>, p: Protocol, crc32: seq<byte> -> u32)
      requires Valid() && FrameReadable(frame, p)
      requires IsOwlCommand(frame, p) ==> PayloadWellFormed(Snapshot(), p.commands[frame[2]], frame[3..], p)
      modifies this, resourceData, resourceData.decodeBuffer
      ensures Valid() && Snapshot() == SysexHandled(old(Snapshot()), frame, p, crc32)
    {
      if frame[0] as int == p.manufacturer && frame[1] as int == p.owlDevice {
        if |frame| > 2 && frame[2] in p.commands {
          HandleSysexCommand(p.commands[frame[2]], frame[3..], p, crc32);
        }
      }
    }

    /** `handle_sysex_command`: one command's payload. It always reports
        success, so the method returns nothing. */
    method HandleSysexCommand(cmd: Command, data: seq<U7>, p: Protocol, crc32: seq<byte> -> u32)
      requires Valid() && PayloadWellFormed(Snapshot(), cmd, data, p)
      modifies this, resourceData, resourceData.decodeBuffer
      ensures Valid() && Snapshot() == CommandHandled(old(Snapshot()), cmd, data, p, crc32)
    {
      var size := |data|;
      match cmd {
        case FirmwareVersion =>
          var version := AsText(data);
          firmwareVersion := Some(version);
          log := log + [FirmwareVersionEntry(version)];
        case ParameterName =>
          var name := AsText(data[1..size - 1]);
          log := log + [ParameterNameEntry(data[0], name)];
          parameters := parameters[data[0] as int := Fresh(name)];
        case PresetName =>
          HandlePresetName(data);
        case ResourceName =>
          HandleResourceName(data);
        case ProgramMessage =>
          var text := AsText(data[..size - 1]);
          programMessage := Some(text);
          log := log + [ProgramMessageEntry(text)];
        case ProgramError =>
          var text := AsText(data[..size - 1]);
          errorMessage := Some(text);
          log := log + [ProgramErrorEntry(text)];
        case ProgramStats =>
          var text := AsText(data[..size - 1]);
          programStats := Some(text);
          log := log + [ProgramStatsEntry(text)];
        case Configuration =>
          HandleConfiguration(data, p);
        case FirmwareUpload =>
          HandleFirmwareUpload(data, crc32);
        case OtherCommand(_) =>
      }
    }

    /** A store at index `pos` of the patch or resource list: a list too
        short to hold the index is first resized with `resize_with`. */
    static method StoreAt<T>(list: seq<Option<T>>, pos: nat, item: T) returns (r: seq<Option<T>>)
      ensures r == Grown(list, pos + 1)[pos := Some(item)]
    {
      r := list;
      if pos >= |r| {
        r := Grown(r, pos + 1);
      }
      r := r[pos := Some(item)];
    }

    /** The name scan and the two decodes shared by PRESET_NAME and
        RESOURCE_NAME. */
    static method ReadNameRecord(data: seq<U7>, id: byte) returns (r: Resource)
      requires NameRecordFits(data)
      ensures r == NameRecord(data, id)
    {
      var size := |data|;
      var end := FindTerminator(data, 1, size - 1);
      var recordSize := DecodeU32(data[end + 1..end + 6]).value.0;
      var checksum := DecodeU32(data[end + 6..end + 11]).value.0;
      r := Resource(id, AsText(data[1..end]), recordSize, checksum);
    }

    /** The PRESET_NAME branch of `handle_sysex_command`. */
    method HandlePresetName(data: seq<U7>)
      requires Valid() && NameRecordFits(data)
      modifies this
      ensures Valid() && Snapshot() == PresetNameHandled(old(Snapshot()), data)
    {
      var pos: nat := data[0] as int;
      var record := ReadNameRecord(data, data[0]);
      StorePatch(pos, record);
    }

    /** The end of the PRESET_NAME branch: the store at `pos`, the patch
        name taken from slot 0, and the log line. */
    method StorePatch(pos: nat, record: Resource)
      requires Valid()
      modifies this
      ensures Valid() && Snapshot() == PatchStored(old(Snapshot()), pos, record)
    {
      ghost var d := Snapshot();
      var list := StoreAt(patches, pos, record);
      var name := patchName;
      if |list| > 0 {
        name := if list[0].Some? then Some(list[0].value.name) else None;
      }
      PatchStoredParts(d, pos, record, list, name);
      patches, patchName, log := list, name, log + [PatchNameEntry(pos, record.name)];
    }

    /** The RESOURCE_NAME branch of `handle_sysex_command`. */
    method HandleResourceName(data: seq<U7>)
      requires Valid() && NameRecordFits(data) && (resources != [] ==> data[0] as int >= resourceOffset)
      modifies this
      ensures Valid() && Snapshot() == ResourceNameHandled(old(Snapshot()), data)
    {
      var offset := resourceOffset;
      if |resources| == 0 {
        offset := data[0] as int;
      }
      var pos: nat := data[0] as int - offset;
      assert pos < 128;
      var record := ReadNameRecord(data, pos as byte);
      StoreResource(offset, pos, record);
    }

    /** The end of the RESOURCE_NAME branch: the offset, the store at `pos`
        and the log line. */
    method StoreResource(offset: nat, pos: nat, record: Resource)
      requires Valid()
      modifies this
      ensures Valid() && Snapshot() == ResourceStored(old(Snapshot()), offset, pos, record)
    {
      ghost var d := Snapshot();
      var list := StoreAt(resources, pos, record);
      ResourceStoredParts(d, offset, pos, record, list);
      resourceOffset, resources, log := offset, list, log + [ResourceNameEntry(pos, record.name)];
    }

    /** The CONFIGURATION branch of `handle_sysex_command`. */
    method HandleConfiguration(data: seq<U7>, p: Protocol)
      requires Valid() && |data| >= 2
      modifies this
      ensures Valid() && Snapshot() == ConfigurationHandled(old(Snapshot()), data, p)
    {
      ghost var d := Snapshot();
      var key := p.configurationOf(data[0] as int * 256 + data[1] as int);
      var text := AsText(data[2..|data|]);
      var result := "";
      var parsed := ParseHexI64(text);
      if parsed.Some? {
        result := DecimalString(parsed.value);
      } else {
        log := log + [HexParseErrorEntry(text)];
      }
      settings := settings[key := result];
      log := log + [ConfigurationEntry(key)];
      assert text == AsText(data[2..]);
      assert Snapshot() == d.(settings := settings, log := log) == ConfigurationHandled(d, data, p);
    }

    /** The FIRMWARE_UPLOAD branch of `handle_sysex_command`: a chunk index
        of zero restarts the transfer, then the rest goes to the transfer. */
    method HandleFirmwareUpload(data: seq<U7>, crc32: seq<byte> -> u32)
      requires Valid()
      modifies this, resourceData, resourceData.decodeBuffer
      ensures Valid() && Snapshot() == FirmwareUploadHandled(old(Snapshot()), data, crc32)
    {
      ghost var d := Snapshot();
      var r := DecodeU32(data);
      if r.Ok? {
        var index := r.value.0;
        if index == 0 {
          resourceData.Reset();
        }
        log := log + [FirmwareUploadEntry(index)];
        ghost var t := resourceData.Model();
        assert t == if index == 0 then Initial() else d.transfer;
        StepConsistent(t, data[5..], crc32);
        resourceData.ProcessData(data[5..], crc32);
        assert Snapshot() == d.(log := log, transfer := Step(t, data[5..], crc32));
      }
    }

    method HandleMidiMessage(message: MidiMessage, p: Protocol)
      requires Valid()
      modifies this
      ensures Valid() && Snapshot() == MidiHandled(old(Snapshot()), message, p)
    {
      match message {
        case ControlChange(_, cc, value) =>
          if cc in p.parameterIds {
            var id := p.parameterIds[cc];
            log := log + [ParameterEntry(id, value)];
            var key := cc as int;
            if key in parameters {
              parameters := parameters[key := parameters[key].(midiValue := value as int)];
            } else {
              var param := Fresh(id).(midiValue := value as int);
              parameters := parameters[key := param];
            }
          } else {
            log := log + [ControlChangeEntry(cc, value)];
          }
        case _ =>
          log := log + [MessageReceivedEntry(message)];
      }
    }
  }

  // ---------------------------------------------------------------------
  // Properties of the handlers

  /** A frame is acted on only if it carries the OWL manufacturer and device
      ids and a known command; it is then that command's payload. */
  lemma SysexDispatch(d: Device, frame: seq<U7>, p: Protocol, crc32: seq<byte> -> u32)
    requires Ready(d) && FrameReadable(frame, p)
    requires IsOwlCommand(frame, p) ==> PayloadWellFormed(d, p.commands[frame[2]], frame[3..], p)
    ensures frame[0] as int != p.manufacturer ==> SysexHandled(d, frame, p, crc32) == d
    ensures frame[0] as int == p.manufacturer && frame[1] as int != p.owlDevice ==> SysexHandled(d, frame, p, crc32) == d
    ensures |frame| <= 2 || frame[2] !in p.commands ==> SysexHandled(d, frame, p, crc32) == d
    ensures frame[0] as int == p.manufacturer && frame[1] as int == p.owlDevice && |frame| > 2 && frame[2] in p.commands
            ==> SysexHandled(d, frame, p, crc32) == CommandHandled(d, p.commands[frame[2]], frame[3..], p, crc32)
  {
  }

  /** A name record's name runs from word 1 to the first zero, which comes
      before the size and checksum; these are the u32 decodings of the five
      words after the zero and of the five after those. */
  lemma NameRecordLayout(data: seq<U7>, id: byte)
    requires NameRecordFits(data)
    ensures var r := NameRecord(data, id); var end := 1 + |r.name|;
      && r.id == id
      && end + 11 <= |data| && data[end] == 0
      && (forall i :: 1 <= i < end ==> data[i] != 0)
      && r.name == AsText(data[1..end])
      && DecodeU32(data[end + 1..end + 6]) == Ok((r.size, CodingResult(5, 4)))
      && DecodeU32(data[end + 6..end + 11]) == Ok((r.checksum, CodingResult(5, 4)))
  {
  }

  /** The name ends at the first zero after word 0 when one comes before the
      last word. */
  lemma NameEndAt(data: seq<U7>, end: nat)
    requires 1 <= end < |data| - 1 && data[end] == 0
    requires forall i :: 1 <= i < end ==> data[i] != 0
    ensures NameEnd(data) == end
  {
  }

  /** A record whose name ends at `end` and whose size and checksum words
      decode to `size` and `checksum` reads back as that resource. */
  lemma NameRecordOfParts(data: seq<U7>, end: nat, id: byte, size: u32, checksum: u32)
    requires |data| >= 2 && NameEnd(data) == end && end + 11 <= |data|
    requires DecodeU32(data[end + 1..end + 6]) == Ok((size, CodingResult(5, 4)))
    requires DecodeU32(data[end + 6..end + 11]) == Ok((checksum, CodingResult(5, 4)))
    ensures NameRecordFits(data)
    ensures NameRecord(data, id) == Resource(id, AsText(data[1..end]), size, checksum)
  {
    var sizeResult := DecodeU32(data[end + 1..end + 6]);
    var checksumResult := DecodeU32(data[end + 6..end + 11]);
    assert NameRecord(data, id) == Resource(id, AsText(data[1..end]), sizeResult.value.0, checksumResult.value.0);
  }

  /** A record laid out by the device, an index, a name without zeros, a
      zero, then the encoded size and checksum, reads back as that
      resource. */
  lemma NameRecordRoundTrip(index: U7, name: seq<U7>, size: u32, checksum: u32)
    requires forall i :: 0 <= i < |name| ==> name[i] != 0
    ensures EncodeU32(size, 5).Ok? && EncodeU32(checksum, 5).Ok?
    ensures var data := [index] + name + [0] + EncodeU32(size, 5).value.0 + EncodeU32(checksum, 5).value.0;
      && NameRecordFits(data)
      && NameRecord(data, index) == Resource(index, AsText(name), size, checksum)
  {
    var sizeWords := EncodeU32(size, 5).value.0;
    var checksumWords := EncodeU32(checksum, 5).value.0;
    var head := [index] + name + [0];
    var data := head + sizeWords + checksumWords;
    var end := 1 + |name|;
    assert |sizeWords| == 5 && |checksumWords| == 5;
    assert data[end] == 0;
    assert forall i :: 1 <= i < end ==> data[i] == name[i - 1];
    NameEndAt(data, end);
    assert data[1..end] == name;
    assert data[end + 1..end + 6] == sizeWords;
    assert forall i :: 0 <= i < 5 ==> data[end + 6 + i] == checksumWords[i];
    assert data[end + 6..end + 11] == checksumWords;
    NameRecordOfParts(data, end, index, size, checksum);
  }

  /** PRESET_NAME grows the patch list to hold the index, padding with
      gaps, replaces that slot only, and takes the patch name from slot 0;
      nothing else but the log changes. */
  lemma PresetNameEffect(d: Device, data: seq<U7>)
    requires NameRecordFits(data)
    ensures var r := PresetNameHandled(d, data); var pos := data[0] as int;
      && |r.patches| == (if |d.patches| <= pos then pos + 1 else |d.patches|)
      && r.patches[pos] == Some(NameRecord(data, data[0]))
      && (forall i :: 0 <= i < |r.patches| && i != pos ==>
            r.patches[i] == if i < |d.patches| then d.patches[i] else None)
      && r.patchName == (if r.patches[0].Some? then Some(r.patches[0].value.name) else None)
      && r == d.(patches := r.patches, patchName := r.patchName,
                 log := d.log + [PatchNameEntry(pos, NameRecord(data, data[0]).name)])
  {
  }

  /** RESOURCE_NAME into an empty list takes the received index as the
      offset; the record then lands at index minus offset, in a list grown
      and padded as for patches, with every other slot kept. */
  lemma ResourceNameEffect(d: Device, data: seq<U7>)
    requires NameRecordFits(data) && (d.resources != [] ==> data[0] as int >= d.resourceOffset)
    ensures var r := ResourceNameHandled(d, data);
      && r.resourceOffset == (if d.resources == [] then data[0] as int else d.resourceOffset)
      && var pos := data[0] as int - r.resourceOffset;
      && 0 <= pos < |r.resources|
      && |r.resources| == (if |d.resources| <= pos then pos + 1 else |d.resources|)
      && r.resources[pos] == Some(NameRecord(data, pos as byte))
      && (forall i :: 0 <= i < |r.resources| && i != pos ==>
            r.resources[i] == if i < |d.resources| then d.resources[i] else None)
      && r == d.(resourceOffset := r.resourceOffset, resources := r.resources,
                 log := d.log + [ResourceNameEntry(pos, NameRecord(data, pos as byte).name)])
  {
  }

  /** Asking for the preset names and then receiving the one at index k
      leaves a list of k + 1 slots with only slot k filled. */
  lemma RequestThenPresetName(d: Device, data: seq<U7>)
    requires NameRecordFits(data)
    ensures var r := PresetNameHandled(SettingsRequested(d, PresetName), data); var pos := data[0] as int;
      && |r.patches| == pos + 1
      && r.patches[pos] == Some(NameRecord(data, data[0]))
      && (forall i :: 0 <= i < pos ==> r.patches[i].None?)
      && (r.patchName.Some? <==> pos == 0)
  {
    PresetNameEffect(SettingsRequested(d, PresetName), data);
  }

  /** Asking for the resource names and then receiving the one at index k
      makes k the offset and stores the record in slot 0, under id 0. */
  lemma RequestThenResourceName(d: Device, data: seq<U7>)
    requires NameRecordFits(data)
    ensures var r := ResourceNameHandled(SettingsRequested(d, ResourceName), data);
      && r.resourceOffset == data[0] as int
      && r.resources == [Some(NameRecord(data, 0))]
  {
    ResourceNameEffect(SettingsRequested(d, ResourceName), data);
  }

  /** CONFIGURATION always stores the setting under the key the two code
      words name, and changes no other setting: the value in decimal when
      the text parses as a base-16 `i64`, otherwise "" with an error entry
      in the log. */
  lemma ConfigurationEffect(d: Device, data: seq<U7>, p: Protocol)
    requires |data| >= 2
    ensures var r := ConfigurationHandled(d, data, p);
      var key := p.configurationOf(data[0] as int * 256 + data[1] as int);
      var parsed := ParseHexI64(AsText(data[2..]));
      && key in r.settings
      && r.settings == d.settings[key := r.settings[key]]
      && (parsed.Some? <==> r.settings[key] != "")
      && (parsed.Some? ==> r.settings[key] == DecimalString(parsed.value))
      && (parsed.Some? ==> r.log == d.log + [ConfigurationEntry(key)])
      && (parsed.None? ==> r.log == d.log + [HexParseErrorEntry(AsText(data[2..])), ConfigurationEntry(key)])
      && r == d.(settings := r.settings, log := r.log)
  {
  }

  /** A setting sent as lowercase base-16 digits is stored as the decimal
      digits of the same number. */
  lemma ConfigurationOfHexText(d: Device, data: seq<U7>, p: Protocol, n: nat)
    requires |data| >= 2 && n <= I64Max && AsText(data[2..]) == LowerHex(n)
    ensures var r := ConfigurationHandled(d, data, p);
      var key := p.configurationOf(data[0] as int * 256 + data[1] as int);
      && r.settings[key] == DecimalDigits(n)
      && DecimalValue(r.settings[key]) == n
  {
    ParseHexOfLowerHex(n);
    DecimalStringOfNatural(n);
  }

  /** FIRMWARE_UPLOAD without a full chunk index does nothing; with one, an
      index of zero restarts the transfer, and the words after the index go
      to the transfer. */
  lemma FirmwareUploadEffect(d: Device, data: seq<U7>, crc32: seq<byte> -> u32)
    requires Ready(d)
    ensures |data| < 5 ==> FirmwareUploadHandled(d, data, crc32) == d
    ensures |data| >= 5 ==>
      var index := DecodeU32(data).value.0;
      var t := if index == 0 then Initial() else d.transfer;
      && Resources.Consistent(t)
      && FirmwareUploadHandled(d, data, crc32)
         == d.(log := d.log + [FirmwareUploadEntry(index)], transfer := Step(t, data[5..], crc32))
  {
  }

  /** The first chunk of an upload, index zero followed by the encoded image
      size, starts a new transfer of that size whatever the transfer was
      doing. */
  lemma UploadHeaderStartsTransfer(d: Device, size: u32, crc32: seq<byte> -> u32)
    requires Ready(d)
    ensures EncodeU32(0, 5).Ok? && EncodeU32(size, 5).Ok?
    ensures var data := EncodeU32(0, 5).value.0 + EncodeU32(size, 5).value.0;
      FirmwareUploadHandled(d, data, crc32).transfer == Initial().(state := InProgress, size := size)
  {
    var indexWords := EncodeU32(0, 5).value.0;
    var sizeWords := EncodeU32(size, 5).value.0;
    var data := indexWords + sizeWords;
    DecodeU32ReadsFiveWords(data);
    assert data[..5] == indexWords;
    assert data[5..] == sizeWords;
    EncodedHeaderStarts(Initial(), size, crc32);
  }

  /** FIRMWARE_VERSION keeps the whole payload as the version; the three
      program texts drop the payload's last word; each sets its field alone
      and logs one entry. */
  lemma TextCommandEffect(d: Device, cmd: Command, data: seq<U7>, p: Protocol, crc32: seq<byte> -> u32)
    requires Ready(d) && PayloadWellFormed(d, cmd, data, p)
    requires cmd in {FirmwareVersion, ProgramMessage, ProgramError, ProgramStats}
    ensures var r := CommandHandled(d, cmd, data, p, crc32);
      var keep := if cmd == FirmwareVersion then |data| else |data| - 1;
      var text := match cmd
        case FirmwareVersion => r.firmwareVersion
        case ProgramMessage => r.programMessage
        case ProgramError => r.errorMessage
        case _ => r.programStats;
      && text.Some? && |text.value| == keep
      && (forall i :: 0 <= i < keep ==> text.value[i] as int == data[i] as int)
      && |r.log| == |d.log| + 1
      && r == d.(firmwareVersion := r.firmwareVersion, programMessage := r.programMessage,
                 errorMessage := r.errorMessage, programStats := r.programStats, log := r.log)
      && (cmd != FirmwareVersion ==> r.firmwareVersion == d.firmwareVersion)
      && (cmd != ProgramMessage ==> r.programMessage == d.programMessage)
      && (cmd != ProgramError ==> r.errorMessage == d.errorMessage)
      && (cmd != ProgramStats ==> r.programStats == d.programStats)
  {
  }

  /** PARAMETER_NAME replaces the parameter under the received id by a new
      one carrying the name between the id and the last word, whatever its
      earlier value; every other parameter is kept. */
  lemma ParameterNameEffect(d: Device, data: seq<U7>, p: Protocol, crc32: seq<byte> -> u32)
    requires Ready(d) && PayloadWellFormed(d, ParameterName, data, p)
    ensures var r := CommandHandled(d, ParameterName, data, p, crc32); var key := data[0] as int;
      && r.parameters.Keys == d.parameters.Keys + {key}
      && r.parameters[key] == Fresh(r.parameters[key].name)
      && |r.parameters[key].name| == |data| - 2
      && (forall i :: 0 <= i < |data| - 2 ==> r.parameters[key].name[i] as int == data[i + 1] as int)
      && (forall k :: k in d.parameters && k != key ==> r.parameters[k] == d.parameters[k])
      && r == d.(parameters := r.parameters, log := r.log) && |r.log| == |d.log| + 1
  {
    var key := data[0] as int;
    var name := AsText(data[1..|data| - 1]);
    var r := CommandHandled(d, ParameterName, data, p, crc32);
    assert r.parameters == d.parameters[key := Fresh(name)];
    assert r.parameters[key] == Fresh(name);
  }

  /** Every handler keeps the transfer consistent. */
  lemma CommandKeepsReady(d: Device, cmd: Command, data: seq<U7>, p: Protocol, crc32: seq<byte> -> u32)
    requires Ready(d) && PayloadWellFormed(d, cmd, data, p)
    ensures Ready(CommandHandled(d, cmd, data, p, crc32))
  {
    if cmd == FirmwareUpload && |data| >= 5 {
      var index := DecodeU32(data).value.0;
      StepConsistent(if index == 0 then Initial() else d.transfer, data[5..], crc32);
    }
  }

  /** The log only grows: every operation keeps the old log as a prefix. */
  lemma LogOnlyGrows(d: Device, cmd: Command, data: seq<U7>, message: MidiMessage, p: Protocol,
                     crc32: seq<byte> -> u32)
    ensures d.log <= SettingsRequested(d, cmd).log
    ensures d.log <= CommandSent(d, cmd).log
    ensures d.log <= MessageSent(d, message).log
    ensures d.log <= MidiHandled(d, message, p).log
    ensures Ready(d) && PayloadWellFormed(d, cmd, data, p) ==> d.log <= CommandHandled(d, cmd, data, p, crc32).log
  {
  }

  /** A controller change for a patch parameter sets that parameter's
      controller value only, creating the parameter if it is new; any other
      message changes nothing but the log. */
  lemma MidiMessageEffect(d: Device, message: MidiMessage, p: Protocol)
    ensures var r := MidiHandled(d, message, p);
      if message.ControlChange? && message.controller in p.parameterIds then
        var cc := message.controller; var key := cc as int;
        && r.parameters.Keys == d.parameters.Keys + {key}
        && r.parameters[key].midiValue == message.value as int
        && (key in d.parameters ==> r.parameters[key] == d.parameters[key].(midiValue := message.value as int))
        && (key !in d.parameters ==> r.parameters[key] == Fresh(p.parameterIds[cc]).(midiValue := message.value as int))
        && (forall k :: k in d.parameters && k != key ==> r.parameters[k] == d.parameters[k])
        && r == d.(parameters := r.parameters, log := d.log + [ParameterEntry(p.parameterIds[cc], message.value)])
      else
        r == d.(log := r.log) && |r.log| == |d.log| + 1
  {
    if message.ControlChange? && message.controller in p.parameterIds {
      var cc := message.controller;
      var key := cc as int;
      var param := if key in d.parameters then d.parameters[key].(midiValue := message.value as int)
                   else Fresh(p.parameterIds[cc]).(midiValue := message.value as int);
      assert MidiHandled(d, message, p).parameters == d.parameters[key := param];
    }
  }

  /** A controller value received for a known parameter that differs from
      the last one synced wins the next `sync`: the shown value follows it
      and nothing is echoed back. */
  lemma ReceivedValueWinsSync(d: Device, channel: Channel, cc: U7, value: U7, p: Protocol)
    requires cc in p.parameterIds
    requires cc as int in d.parameters ==> d.parameters[cc as int].prevMidiValue != value as int
    requires cc as int !in d.parameters ==> value != 0
    ensures var q := MidiHandled(d, ControlChange(channel, cc, value), p).parameters[cc as int];
      Synced(q) == (q.(prevMidiValue := value as int, value := value as int as real / 127.0), false)
  {
    MidiMessageEffect(d, ControlChange(channel, cc, value), p);
    var q := MidiHandled(d, ControlChange(channel, cc, value), p).parameters[cc as int];
    DeviceChangeWins(q);
  }

  /** A program change forgets every parameter; other messages keep them. */
  lemma MessageSentEffect(d: Device, message: MidiMessage)
    ensures message.ProgramChange? ==> MessageSent(d, message).parameters == map[]
    ensures !message.ProgramChange? ==> MessageSent(d, message) == d.(log := d.log + [MessageSentEntry(message)])
  {
  }
}
