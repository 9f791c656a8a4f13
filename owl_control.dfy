/** The older command processor: it remembers the last command it sent and
    interprets the next raw response frame (which still starts with 0xF0) as
    the answer to that command, whatever command byte the frame carries. */
module OwlControl {
  import opened Midi
  import opened Text

  /** The value of the older `OwlCommandProcessor`. Names and the firmware
      version are kept as the raw bytes of the frame. */
  datatype Controller = Controller(
    currentCommand: Option<Command>,
    firmwareVersion: Option<seq<byte>>,
    presetName: Option<seq<byte>>,
    presetNames: seq<seq<byte>>,
    resourceOffset: nat,
    resourceNames: seq<seq<byte>>)

  /** `OwlCommandProcessor::new()`. */
  function NewController(): Controller
  {
    Controller(None, None, None, [], 0, [])
  }

  /** `request_settings`: asking for the preset names empties them, asking
      for the resource names empties them and their offset; the command is
      remembered. */
  function SettingsRequested(c: Controller, command: Command): Controller
  {
    var c := c.(currentCommand := Some(command));
    if command == PresetName then c.(presetNames := [])
    else if command == ResourceName then c.(resourceOffset := 0, resourceNames := [])
    else c
  }

  /** `send_sysex_command`: the command is remembered. */
  function CommandSent(c: Controller, command: Command): Controller
  {
    c.(currentCommand := Some(command))
  }

  /** Where a name in a response frame ends: the first zero at index 6 or
      later, scanning no further than index size - 2 nor past the frame; the
      word before the last one when there is none. */
  function ResponseNameEnd(data: seq<byte>, size: nat): nat
    requires size >= 1
  {
    var limit := if size - 1 < |data| then size - 1 else |data|;
    var end := FirstZero(data, 6, limit);
    if end < limit then end else size - 1
  }

  /** `resize(n, String::new())` on a shorter list; a longer one is kept. */
  function Padded(names: seq<seq<byte>>, n: nat): (r: seq<seq<byte>>)
    ensures |r| == if |names| < n then n else |names|
    ensures forall i :: 0 <= i < |r| ==> r[i] == if i < |names| then names[i] else []
  {
    if |names| < n then names + seq(n - |names|, _ => []) else names
  }

  /** What `handle_response` demands of a frame for the command it waits
      for: the source indexes and slices the frame unchecked, so a frame
      outside these bounds panics. */
  predicate ResponseWellFormed(c: Controller, data: seq<byte>, size: nat)
  {
    match c.currentCommand
    case Some(FirmwareVersion) => 5 <= size <= |data| + 1
    case Some(PresetName) => NameFits(data, size)
    case Some(ResourceName) =>
      NameFits(data, size) && (c.resourceNames != [] ==> data[4] as int >= c.resourceOffset)
    case _ => true
  }

  /** The frame holds an index at word 4 and a name from word 5 to its end. */
  predicate NameFits(data: seq<byte>, size: nat)
  {
    |data| >= 5 && size >= 1 && 5 <= ResponseNameEnd(data, size) <= |data|
  }

  /** `handle_response` on a value. */
  function ResponseHandled(c: Controller, data: seq<byte>, size: nat): Controller
    requires ResponseWellFormed(c, data, size)
  {
    match c.currentCommand
    case Some(FirmwareVersion) => c.(firmwareVersion := Some(data[4..size - 1]))
    case Some(PresetName) => PresetNameRead(c, data, size)
    case Some(ResourceName) => ResourceNameRead(c, data, size)
    case _ => c
  }

  /** A preset name response: the name goes to the slot in word 4. */
  function PresetNameRead(c: Controller, data: seq<byte>, size: nat): Controller
    requires NameFits(data, size)
  {
    var pos := data[4] as int;
    c.(presetNames := Padded(c.presetNames, pos + 1)[pos := data[5..ResponseNameEnd(data, size)]])
  }

  /** A resource name response: the first one into an empty list fixes the
      offset, and the name goes to the slot in word 4 less the offset. */
  function ResourceNameRead(c: Controller, data: seq<byte>, size: nat): Controller
    requires NameFits(data, size) && (c.resourceNames != [] ==> data[4] as int >= c.resourceOffset)
  {
    var offset := if c.resourceNames == [] then data[4] as int else c.resourceOffset;
    var pos := data[4] as int - offset;
    c.(resourceOffset := offset,
       resourceNames := Padded(c.resourceNames, pos + 1)[pos := data[5..ResponseNameEnd(data, size)]])
  }

  /** The older `OwlCommandProcessor`, updated in place. The connection the
      requests go out on is not modelled. */
  class OwlCommandProcessor {
    var currentCommand: Option<Command>
    var firmwareVersion: Option<seq<byte>>
    var presetName: Option<seq<byte>>
    var presetNames: seq<seq<byte>>
    var resourceOffset: nat
    var resourceNames: seq<seq<byte>>

    function State(): Controller
      reads this
    {
      Controller(currentCommand, firmwareVersion, presetName, presetNames, resourceOffset, resourceNames)
    }

    /** `new()`: no command sent, nothing known, empty lists. */
    constructor ()
      ensures State() == NewController()
    {
      currentCommand, firmwareVersion, presetName := None, None, None;
      presetNames, resourceOffset, resourceNames := [], 0, [];
    }

    method RequestSettings(command: Command)
      modifies this
      ensures State() == SettingsRequested(old(State()), command)
    {
      if command == PresetName {
        presetNames := [];
      } else if command == ResourceName {
        resourceOffset := 0;
        resourceNames := [];
      }
      currentCommand := Some(command);
    }

    method SendSysexCommand(command: Command)
      modifies this
      ensures State() == CommandSent(old(State()), command)
    {
      currentCommand := Some(command);
    }

    /** `handle_response`: interpret a frame of `size` bytes as the answer
        to the remembered command. It always reports success, so the method
        returns nothing. */
    method HandleResponse(data: seq<byte>, size: nat)
      requires ResponseWellFormed(State(), data, size)
      modifies this
      ensures State() == ResponseHandled(old(State()), data, size)
    {
      match currentCommand {
        case Some(cmd) =>
          match cmd {
            case FirmwareVersion =>
              firmwareVersion := Some(data[4..size - 1]);
            case PresetName =>
              ReadPresetName(data, size);
            case ResourceName =>
              ReadResourceName(data, size);
            case _ =>
          }
        case None =>
      }
    }

    method ReadPresetName(data: seq<byte>, size: nat)
      requires NameFits(data, size)
      modifies this
      ensures State() == PresetNameRead(old(State()), data, size)
    {
      var pos := data[4] as int;
      if pos >= |presetNames| {
        presetNames := Padded(presetNames, pos + 1);
      }
      var end := ScanName(data, size);
      presetNames := presetNames[pos := data[5..end]];
    }

    method ReadResourceName(data: seq<byte>, size: nat)
      requires NameFits(data, size) && (resourceNames != [] ==> data[4] as int >= resourceOffset)
      modifies this
      ensures State() == ResourceNameRead(old(State()), data, size)
    {
      var pos := data[4] as int;
      if |resourceNames| == 0 {
        resourceOffset := pos;
      }
      pos := pos - resourceOffset;
      if pos >= |resourceNames| {
        resourceNames := Padded(resourceNames, pos + 1);
      }
      var end := ScanName(data, size);
      resourceNames := resourceNames[pos := data[5..end]];
    }

    /** The name scan of `handle_response`: the end defaults to size - 1 and
        becomes the first zero found among the frame's words 6 up to size - 2. */
    static method ScanName(data: seq<byte>, size: nat) returns (end: nat)
      requires size >= 1
      ensures end == ResponseNameEnd(data, size)
    {
      var limit := if size - 1 < |data| then size - 1 else |data|;
      end := FindTerminator(data, 6, limit);
      if end == limit {
        end := size - 1;
      }
    }
  }

  // ---------------------------------------------------------------------
  // Properties of the older processor

  /** Both ways of sending a command make it the one the next response is
      read as; a request also clears the list it asks for. */
  lemma RequestsRememberCommand(c: Controller, command: Command)
    ensures SettingsRequested(c, command).currentCommand == Some(command)
    ensures CommandSent(c, command) == c.(currentCommand := Some(command))
    ensures command == PresetName ==> SettingsRequested(c, command).presetNames == []
    ensures command == ResourceName ==>
      SettingsRequested(c, command).resourceNames == [] && SettingsRequested(c, command).resourceOffset == 0
    ensures command != PresetName && command != ResourceName ==>
      SettingsRequested(c, command) == c.(currentCommand := Some(command))
  {
  }

  /** Without a command sent, or after any command but the three it
      understands, a response changes nothing. */
  lemma UnexpectedResponseIgnored(c: Controller, data: seq<byte>, size: nat)
    requires c.currentCommand.None? || c.currentCommand.value !in {FirmwareVersion, PresetName, ResourceName}
    ensures ResponseWellFormed(c, data, size)
    ensures ResponseHandled(c, data, size) == c
  {
  }

  /** The response is read as an answer to the remembered command: the
      frame's own command byte (word 3) makes no difference. */
  lemma CommandByteIgnored(c: Controller, data: seq<byte>, size: nat, b: byte)
    requires |data| > 3 && ResponseWellFormed(c, data, size)
    ensures ResponseWellFormed(c, data[3 := b], size)
    ensures ResponseHandled(c, data[3 := b], size) == ResponseHandled(c, data, size)
  {
    var data' := data[3 := b];
    match c.currentCommand
    case Some(FirmwareVersion) =>
      assert data'[4..size - 1] == data[4..size - 1];
    case Some(PresetName) =>
      NameIgnoresCommandByte(data, size, b);
    case Some(ResourceName) =>
      NameIgnoresCommandByte(data, size, b);
    case _ =>
  }

  /** The name a frame carries does not depend on its command byte. */
  lemma NameIgnoresCommandByte(data: seq<byte>, size: nat, b: byte)
    requires |data| > 3 && NameFits(data, size)
    ensures NameFits(data[3 := b], size) && data[3 := b][4] == data[4]
    ensures ResponseNameEnd(data[3 := b], size) == ResponseNameEnd(data, size)
    ensures var end := ResponseNameEnd(data, size); data[3 := b][5..end] == data[5..end]
  {
    var data' := data[3 := b];
    var limit := if size - 1 < |data| then size - 1 else |data|;
    FirstZeroAbove(data, data', 6, limit);
  }

  /** Two frames that agree from index `from` on find the same zero. */
  lemma {:induction false} FirstZeroAbove(data: seq<byte>, data': seq<byte>, from: nat, limit: nat)
    requires |data'| == |data| && limit <= |data|
    requires forall i :: from <= i < |data| ==> data'[i] == data[i]
    ensures FirstZero(data', from, limit) == FirstZero(data, from, limit)
    decreases limit - from
  {
    if from < limit {
      FirstZeroAbove(data, data', from + 1, limit);
    }
  }

  /** A firmware version response keeps the frame's bytes from word 4 up to
      the last one, and changes nothing else. */
  lemma FirmwareVersionResponse(c: Controller, data: seq<byte>, size: nat)
    requires c.currentCommand == Some(FirmwareVersion) && 5 <= size <= |data| + 1
    ensures var r := ResponseHandled(c, data, size);
      && r.firmwareVersion.Some?
      && |r.firmwareVersion.value| == size - 5
      && (forall i :: 0 <= i < size - 5 ==> r.firmwareVersion.value[i] == data[4 + i])
      && r == c.(firmwareVersion := r.firmwareVersion)
  {
  }

  /** A preset name response pads the list with empty names up to the index
      in word 4 and replaces that slot only, with the bytes from word 5 up to
      the name's end; the name holds no zero after its first byte. */
  lemma PresetNameResponse(c: Controller, data: seq<byte>, size: nat)
    requires c.currentCommand == Some(PresetName) && NameFits(data, size)
    ensures var r := ResponseHandled(c, data, size); var pos := data[4] as int;
      var end := ResponseNameEnd(data, size);
      && |r.presetNames| == (if |c.presetNames| <= pos then pos + 1 else |c.presetNames|)
      && r.presetNames[pos] == data[5..end]
      && (forall i :: 1 <= i < |r.presetNames[pos]| ==> r.presetNames[pos][i] != 0)
      && (forall i :: 0 <= i < |r.presetNames| && i != pos ==>
            r.presetNames[i] == if i < |c.presetNames| then c.presetNames[i] else [])
      && r == c.(presetNames := r.presetNames)
  {
    var end := ResponseNameEnd(data, size);
    assert forall i :: 6 <= i < end ==> data[i] != 0;
  }

  /** A resource name response into an empty list takes the index in word 4
      as the offset; the name lands at index minus offset, in a list padded
      as for presets, with every other slot kept. */
  lemma ResourceNameResponse(c: Controller, data: seq<byte>, size: nat)
    requires c.currentCommand == Some(ResourceName) && ResponseWellFormed(c, data, size)
    ensures var r := ResponseHandled(c, data, size);
      && r.resourceOffset == (if c.resourceNames == [] then data[4] as int else c.resourceOffset)
      && var pos := data[4] as int - r.resourceOffset;
      && 0 <= pos < |r.resourceNames|
      && r.resourceNames[pos] == data[5..ResponseNameEnd(data, size)]
      && (forall i :: 0 <= i < |r.resourceNames| && i != pos ==>
            r.resourceNames[i] == if i < |c.resourceNames| then c.resourceNames[i] else [])
      && r == c.(resourceOffset := r.resourceOffset, resourceNames := r.resourceNames)
  {
  }

  /** The scan for the end of a name starts one word after the name does:
      a frame whose name is empty keeps its terminating zero, and whatever
      follows up to the next zero, in the name. */
  lemma EmptyNameKeepsTerminator(c: Controller, data: seq<byte>, size: nat)
    requires c.currentCommand == Some(PresetName) && NameFits(data, size)
    requires |data| > 5 && data[5] == 0 && size >= 7
    ensures var r := ResponseHandled(c, data, size);
      |r.presetNames[data[4] as int]| >= 1 && r.presetNames[data[4] as int][0] == 0
  {
    var end := ResponseNameEnd(data, size);
    assert end >= 6;
    assert data[5..end][0] == data[5];
  }
}
