# OWL control: the host side of the OpenWare SysEx protocol

This project models the host-side protocol engine of owl_wave, a desktop
companion for Rebel Technology's OWL devices. The host and an OWL device talk
MIDI. Besides control changes (CC), they exchange OpenWare system-exclusive
(SysEx) frames. Every SysEx payload word has its top bit clear, so 8-bit data
travels in packed form. The model covers six parts of the engine.

- **The 7-bit codec** (module `Sysex`).
  - A `u32` travels as five words: a mask word with the four top bits, then
    the four bytes with their top bits dropped, most significant first.
  - A byte run travels in groups of up to seven bytes. Each group is one mask
    word followed by the low seven bits of each byte.
  - The byte encoder and decoder are loops that write into a caller's array.
    Here they are methods over arrays, proved against index-wise
    specifications of the packing.
- **The chunked transfer** (module `Resources`): the six-state machine
  `ResourceData` that receives a firmware or resource image.
  - A header chunk carries the image size.
  - Data chunks are packed with the byte codec and decoded through a 256-byte
    buffer.
  - A trailer chunk carries the image's CRC-32.
- **Parameter echo suppression** (module `Parameter`): `OwlParameter::sync`
  decides whether the device's controller value or the interface's value wins,
  and whether a CC must be sent.
- **The command processor** (module `CommandProcessor`): the device snapshot
  that inbound SysEx commands and MIDI messages update. It holds:
  - the firmware version and the program texts;
  - the patch and resource lists, with gaps and an index offset;
  - the parameter and settings maps;
  - an append-only log;
  - the nested transfer.
- **The older response parser** (module `OwlControl`). It reads a raw response
  frame, 0xF0 included, as the answer to the last command it sent.
- **The port filter** (module `MidiDevices`): list every MIDI port, or only
  those whose name starts with `OWL-`.

Shared vocabulary lives in `Midi`:
- the byte, 7-bit word and `u32` types;
- the command set;
- a `Protocol` value standing for the foreign protocol constants and
  conversions.

`Text` holds what the handlers do to text:
- turning 7-bit words into characters;
- the scan for a name's terminating zero;
- Rust's base-16 `i64` parse and decimal formatting.

Every stateful part is a class whose fields are the source's fields. Each
method is proved against a specification function over a value of those
fields: `Snapshot() == ...(old(Snapshot()), ...)`. The properties are lemmas
about those functions. Where the code panics (an unchecked index or slice, an
`unwrap`, a `usize` underflow), the model has a precondition.

The model follows the code, including where it behaves in ways a reader
might not expect:
- Encoding an empty byte run reports one word written.
- A transfer in `New` ignores a chunk whose length is not five words.
- Unknown commands leave no log entry.
- A frame for another manufacturer or device is ignored. A one-word frame is
  read only as far as its manufacturer word.
- The firmware version keeps the whole payload, terminator included.
- A configuration value that does not parse as hexadecimal is stored as the
  empty string.
- A second five-word header that arrives while a transfer is in progress is
  decoded as data; it does not fail the transfer.
- A transfer of an empty image still needs one data chunk (an empty one will
  do) before the trailer. Without it, the trailer is decoded as four bytes of
  data and the transfer waits for another trailer.
- A `PARAMETER_NAME` command replaces the map entry with a new parameter, so
  the old value and controller values are dropped.
- `Sync` converts `value * 127` by truncation, not rounding.

## Model

| member | source | states |
|---|---|---|
| Midi.FromU8Lossy | src/owl_control/sysex.rs:78-82 | the word keeps the byte's low seven bits: with the byte's top bit it gives the byte back, and a byte below 0x80 is kept unchanged |
| Text.AsText | src/owl_control/command_processor.rs:160 | text made of 7-bit words has one character per word, with the word's code |
| Text.FirstZero | src/owl_control/command_processor.rs:180-186 | the name's end is the first zero at or after `from` and before `limit`, or `limit` when there is none; no zero comes before it |
| Text.FindTerminator | src/owl_control/command_processor.rs:180-186 | the scanning loop returns exactly the first zero, or the limit |
| Text.ParseHexI64 | src/owl_control/command_processor.rs:266 | a parse succeeds only within the `i64` range; empty text and a bare sign fail; a negative result needs a leading `-` |
| Text.ParseHexOfLowerHex | src/owl_control/command_processor.rs:266 | lower-case hexadecimal digits of any n up to the `i64` maximum parse back to n |
| Text.HexValueOfLowerHex | src/owl_control/command_processor.rs:266 | the digit value of the hexadecimal text of n is n |
| Text.DecimalValueOfDigits | src/owl_control/command_processor.rs:267 | the decimal digits of n read back as n |
| Text.DecimalStringOfNatural | src/owl_control/command_processor.rs:267 | `to_string` of a non-negative number is its decimal digits, whose value is the number |
| Text.DecimalStringOfNegative | src/owl_control/command_processor.rs:267 | `to_string` of a negative number is `-` followed by the digits of its magnitude |
| Sysex.DecodeU32 | src/owl_control/sysex.rs:33-57 | fewer than five words give `Err("Not enough data")`; otherwise (5, 4), and each byte of the value is the mask bit for that byte above the word's seven bits |
| Sysex.EncodeU32 | src/owl_control/sysex.rs:59-85 | a buffer length other than 5 gives `Err("Invalid buffer size")`; otherwise five 7-bit words with a mask below 0x10 and (4, 5), and decoding them gives the value back |
| Sysex.DecodeU32ReadsFiveWords | src/owl_control/sysex.rs:34-39 | the decoder reads words 0 to 4 and nothing after them |
| Sysex.U32Vectors | src/owl_control/sysex.rs:155-177 | 1 and 32812 encode to [0,0,0,0,1] and [4,0,0,0,0x2c] and decode back; four words are not enough |
| Sysex.Encoded | src/owl_control/sysex.rs:125-147 | the packing of n bytes has n plus one mask word per group of seven |
| Sysex.EncodedLayout | src/owl_control/sysex.rs:129-143 | bit i of word 8g is set iff byte 7g+i has its top bit set, and word 8g+1+i holds that byte's low seven bits |
| Sysex.EncodeBytes | src/owl_control/sysex.rs:125-147 | reports (n, 1) for empty input and (n, packed length) otherwise, and leaves the buffer as the packing written over its old contents |
| Sysex.ZeroFilledBufferGetsPacking | src/owl_control/sysex.rs:130-143 | written into a zero-filled buffer, the encoder leaves exactly the packing in front |
| Sysex.StaleTrailingMask | src/owl_control/sysex.rs:140-143 | a trailing group with no top bits does not get its mask word written: a stale word survives in a non-zero buffer |
| Sysex.EncodeVectorOneByte | src/owl_control/sysex.rs:254-261 | [128] packs to [1, 0] |
| Sysex.EncodeVectorTwoGroups | src/owl_control/sysex.rs:299-306 | [1..7, 128, 129] packs to [0,1,2,3,4,5,6,7,3,0,1] |
| Sysex.DecodedFits | src/owl_control/sysex.rs:95-99 | the bytes decoded never exceed the capacity the decoder demands of its buffer |
| Sysex.Decoded | src/owl_control/sysex.rs:109-120 | n words decode to n minus one mask word per group of eight |
| Sysex.DecodeBytes | src/owl_control/sysex.rs:92-123 | a buffer below capacity gives `Err("Buffer too small")` untouched; otherwise it reports (words read, bytes written), holds the decoded bytes in front and keeps everything after them |
| Sysex.LengthsAgree | src/owl_control/sysex.rs:95-98 | decoding the packing of n bytes yields n bytes |
| Sysex.RoundTripUpTo14 | src/owl_control/sysex.rs:109-120 | the decoder as written inverts the encoder on runs of at most 14 bytes |
| Sysex.AsWrittenMatchesIntendedForTwoGroups | src/owl_control/sysex.rs:111-114 | on up to 16 words the decoder as written and the corrected decoder agree |
| Sysex.RoundTripFailsAt15 | src/owl_control/sysex.rs:111-114 | thirteen zeros then [1, 0] come back with 128 as the last byte |
| Sysex.DecodedIntended | src/owl_control/sysex.rs:111-114 | with each group's mask read from word 8g, n words decode to the same length |
| Sysex.IntendedRoundTrip | src/owl_control/sysex.rs:111-114 | with each group's mask read from word 8g, decoding inverts the encoder on every byte run |
| Sysex.DecodeVectorOneByte | src/owl_control/sysex.rs:195-198 | [1, 0] decodes to [128] |
| Sysex.DecodeVectorTwoGroups | src/owl_control/sysex.rs:220-223 | [0,1,2,3,4,5,6,7,3,0,1] decodes to [1..7, 128, 129] |
| Resources.ResourceData.constructor | src/owl_control/resources.rs:53-64 | a new transfer is in `New` with no data and zero counters, and its decode buffer is zeroed |
| Resources.ResourceData.Reset | src/owl_control/resources.rs:65-67 | reset gives exactly the new transfer and a zeroed buffer |
| Resources.ResourceData.ProcessData | src/owl_control/resources.rs:68-123 | one chunk changes the transfer as the state machine's step says, through the decode buffer |
| Resources.InitialConsistent | src/owl_control/resources.rs:53-64 | a new transfer meets the invariant |
| Resources.StepConsistent | src/owl_control/resources.rs:68-123 | every chunk keeps "offset counts the received bytes, a complete transfer holds the announced size", so the checksum slice is in range |
| Resources.NewStep | src/owl_control/resources.rs:71-82 | in `New` a five-word chunk starts the transfer with its decoded size and zero offset and CRC; any other chunk changes nothing |
| Resources.InProgressStep | src/owl_control/resources.rs:83-95 | a chunk that fits appends exactly its decoded bytes, and the state is `Complete` iff the offset reached the size; one that does not fit fails and keeps the data |
| Resources.CompleteStep | src/owl_control/resources.rs:96-112 | a five-word trailer gives `Success` iff it carries the CRC-32 of the image, else `InvalidChecksum`; another length gives `Failed` |
| Resources.EncodedHeaderStarts | src/owl_control/resources.rs:71-82 | a header made by the u32 encoder starts the transfer with exactly that size |
| Resources.EncodedTrailerDecides | src/owl_control/resources.rs:96-112 | a trailer made by the u32 encoder succeeds iff the value is the image's CRC-32 |
| Resources.FinalStatesAbsorb | src/owl_control/resources.rs:113 | `Success`, `Failed` and `InvalidChecksum` ignore every chunk |
| Resources.RunConsistent | src/owl_control/resources.rs:68-123 | any run of chunks from a consistent transfer keeps it consistent |
| Resources.RunFromFinal | src/owl_control/resources.rs:113 | once finished, no run of chunks changes the transfer |
| Resources.RunAppend | src/owl_control/resources.rs:68-123 | feeding two runs of chunks one after the other is the same as feeding their concatenation |
| Resources.SmallChunkFits | src/owl_control/resources.rs:84-86 | a packed run of at most fourteen bytes never exceeds the 256-byte decode buffer |
| Resources.DataChunkStep | src/owl_control/resources.rs:83-95 | a packed run of at most fourteen bytes appends exactly that run, and the transfer is complete iff the size is reached |
| Resources.DataChunksAppend | src/owl_control/resources.rs:83-95 | packed runs that add up to the announced size append exactly their concatenation and leave the transfer complete |
| Resources.HeaderReceived | src/owl_control/resources.rs:71-82 | from `new()`, an encoded size header gives an empty transfer in progress awaiting that size |
| Resources.DataReceived | src/owl_control/resources.rs:68-95 | from `new()`, the header then the packed image (the empty image as one empty run) leave the transfer complete, holding exactly the image |
| Resources.TrailerDecides | src/owl_control/resources.rs:96-112 | on a complete transfer, a run of just the encoded trailer keeps the data and succeeds iff the checksum is the image's CRC-32 |
| Resources.TransferDelivers | src/owl_control/resources.rs:68-123 | from `new()`, a header with the image size, the image packed in runs of at most fourteen bytes (empty only as the empty image's single run) and a checksum trailer leave exactly the image, the empty image included; the transfer succeeds iff the checksum is the image's CRC-32, and otherwise ends in `InvalidChecksum` |
| Resources.EmptyImageDelivers | src/owl_control/resources.rs:68-123 | the empty image is delivered by a zero-size header, one empty data chunk and a trailer: no data, and success iff the checksum is the CRC-32 of no bytes |
| Resources.TrailerTakenAsData | src/owl_control/resources.rs:83-95 | after a zero-size header, a trailer sent straight away is decoded as four bytes of data and leaves the transfer complete |
| Parameter.ToU8 | src/owl_control/parameter.rs:26 | the float-to-`u8` cast saturates at 0 and 255 and rounds toward zero in between |
| Parameter.OwlParameter.constructor | src/owl_control/parameter.rs:10-17 | a new parameter has value 0 and both controller values 0 |
| Parameter.OwlParameter.Sync | src/owl_control/parameter.rs:19-34 | sync updates the fields and answers as the echo-suppression rule says |
| Parameter.ToU8OfStep | src/owl_control/parameter.rs:23-26 | a controller value turned into a fraction of 127 converts back to itself |
| Parameter.SyncSettles | src/owl_control/parameter.rs:19-34 | after a sync both controller values agree and the name is unchanged |
| Parameter.DeviceChangeWins | src/owl_control/parameter.rs:20-23 | a new controller value from the device sets the value to its fraction of 127, sends nothing, and converts back to the same controller value |
| Parameter.InterfaceChangeWins | src/owl_control/parameter.rs:24-33 | otherwise a sync sends iff the value's conversion differs from the controller value, which becomes that conversion; with nothing sent nothing changes |
| Parameter.SyncIdempotent | src/owl_control/parameter.rs:19-34 | a second sync sends nothing and changes nothing |
| Parameter.SyncVectors | src/owl_control/parameter.rs:42-88 | the unit test's sequence: no sync when new, device value 1 taken over silently, value 0.5 sent once as 63 |
| MidiDevices.ShowMidiDevice | src/midi_devices.rs:9-14 | `All` shows every port; `Owl` shows a port iff its name starts with `OWL-` |
| MidiDevices.OwlFilterExamples | src/midi_devices.rs:12 | names shorter than the prefix are hidden, the match is case-sensitive, and the bare prefix is shown |
| CommandProcessor.Grown | src/owl_control/command_processor.rs:176-178 | growing keeps every entry, pads with gaps up to the length asked for, and never shrinks |
| CommandProcessor.OwlCommandProcessor.constructor | src/owl_control/command_processor.rs:29-44 | a new processor has no texts, no parameters, empty lists and settings, an empty log and a new transfer |
| CommandProcessor.OwlCommandProcessor.RequestSettings | src/owl_control/command_processor.rs:45-71 | the request is logged; asking for presets empties the patch list, asking for resources empties the resource list and zeroes the offset |
| CommandProcessor.OwlCommandProcessor.SendSysexCommand | src/owl_control/command_processor.rs:72-90 | sending a command only logs it |
| CommandProcessor.OwlCommandProcessor.SendSysexString | src/owl_control/command_processor.rs:91-112 | sending a 7-bit string only logs the command with its payload |
| CommandProcessor.OwlCommandProcessor.SendMessage | src/owl_control/command_processor.rs:114-136 | sending a message logs it, and a program change forgets every parameter |
| CommandProcessor.OwlCommandProcessor.HandleSysex | src/owl_control/command_processor.rs:137-151 | any frame with at least one word (two when the first is the manufacturer id) changes the snapshot as the dispatch specification says and keeps the transfer consistent |
| CommandProcessor.OwlCommandProcessor.HandleSysexCommand | src/owl_control/command_processor.rs:152-292 | each command changes the snapshot as its handler's specification says and keeps the transfer consistent |
| CommandProcessor.OwlCommandProcessor.StoreAt | src/owl_control/command_processor.rs:176-196 | the index check, `resize_with` and the store leave the list grown to hold the index, with the record at the index and every other entry as before |
| CommandProcessor.OwlCommandProcessor.ReadNameRecord | src/owl_control/command_processor.rs:180-196 | the scan and the two u32 decodes read exactly the record's resource |
| CommandProcessor.OwlCommandProcessor.HandlePresetName | src/owl_control/command_processor.rs:174-209 | PRESET_NAME reads the record at index data[0] and stores it there |
| CommandProcessor.OwlCommandProcessor.StorePatch | src/owl_control/command_processor.rs:176-209 | the record goes to slot `pos` of the grown patch list, the patch name follows slot 0 (none for a gap), one log entry is added, and nothing else changes |
| CommandProcessor.OwlCommandProcessor.HandleResourceName | src/owl_control/command_processor.rs:210-242 | RESOURCE_NAME takes the offset from the first index into an empty list and stores the record at index minus offset |
| CommandProcessor.OwlCommandProcessor.StoreResource | src/owl_control/command_processor.rs:211-242 | the offset is recorded, the record goes to slot `pos` of the grown resource list, one log entry is added, and nothing else changes |
| CommandProcessor.OwlCommandProcessor.HandleConfiguration | src/owl_control/command_processor.rs:260-274 | CONFIGURATION updates settings and log as specified |
| CommandProcessor.OwlCommandProcessor.HandleFirmwareUpload | src/owl_control/command_processor.rs:275-286 | FIRMWARE_UPLOAD updates log and transfer as specified and keeps the transfer consistent |
| CommandProcessor.OwlCommandProcessor.HandleMidiMessage | src/owl_control/command_processor.rs:293-317 | a MIDI message updates parameters and log as specified |
| CommandProcessor.SysexDispatch | src/owl_control/command_processor.rs:137-151 | a frame for another manufacturer (a one-word frame included) or device, or without a known command word, changes nothing; otherwise the command's handler runs on the words after the command |
| CommandProcessor.TextCommandEffect | src/owl_control/command_processor.rs:159-257 | the firmware version is the whole payload; a program message, error or stats text drops the last word; each sets its own field and logs one entry |
| CommandProcessor.ParameterNameEffect | src/owl_control/command_processor.rs:164-173 | the parameter under the received id is replaced by a new one named by the words between the id and the last word; the others are kept |
| CommandProcessor.NameRecordLayout | src/owl_control/command_processor.rs:180-196 | a record's name runs from word 1 to the first zero and holds no zero; size and checksum are the two five-word u32 encodings after that zero |
| CommandProcessor.NameEndAt | src/owl_control/command_processor.rs:180-186 | a zero before the last word with none before it is where the name ends |
| CommandProcessor.NameRecordOfParts | src/owl_control/command_processor.rs:187-196 | a record whose name ends at a given word reads as the resource from its name and two decoded values |
| CommandProcessor.NameRecordRoundTrip | src/owl_control/command_processor.rs:180-196 | an index, a zero-free name, a zero and the encoded size and checksum read back as exactly that resource |
| CommandProcessor.PatchStoredParts | src/owl_control/command_processor.rs:176-209 | the PRESET_NAME store is the list update, the patch-name update and one log entry |
| CommandProcessor.PresetNameEffect | src/owl_control/command_processor.rs:175-203 | PRESET_NAME grows the patch list with gaps to hold the index, replaces that slot only, and takes the patch name from slot 0 |
| CommandProcessor.ResourceStoredParts | src/owl_control/command_processor.rs:211-242 | the RESOURCE_NAME store is the offset update, the list update and one log entry |
| CommandProcessor.ResourceNameEffect | src/owl_control/command_processor.rs:211-236 | into an empty list the received index becomes the offset; the record lands at index minus offset, every other slot kept |
| CommandProcessor.RequestThenPresetName | src/owl_control/command_processor.rs:61-203 | after a fresh request a name at index i leaves i gaps before it, and a patch name exists iff i is 0 |
| CommandProcessor.RequestThenResourceName | src/owl_control/command_processor.rs:63-236 | after a fresh request the first resource name lands in slot 0 whatever its index |
| CommandProcessor.ConfigurationEffect | src/owl_control/command_processor.rs:260-274 | the key from the first two words always gets a value: the decimal form of the hexadecimal text, or `""` and an error entry when it does not parse; nothing else changes |
| CommandProcessor.ConfigurationOfHexText | src/owl_control/command_processor.rs:263-272 | a value sent as lower-case hexadecimal is stored as its decimal digits, which read back as the value |
| CommandProcessor.FirmwareUploadEffect | src/owl_control/command_processor.rs:275-286 | fewer than five words change nothing; otherwise the chunk index is logged, index 0 restarts the transfer, and the words after the index go to the transfer |
| CommandProcessor.UploadHeaderStartsTransfer | src/owl_control/command_processor.rs:275-286 | chunk 0 carrying an encoded size starts a new transfer of that size |
| CommandProcessor.CommandKeepsReady | src/owl_control/command_processor.rs:152-292 | every command keeps the transfer consistent |
| CommandProcessor.LogOnlyGrows | src/owl_control/command_processor.rs:50-314 | every operation keeps the old log as a prefix |
| CommandProcessor.MidiMessageEffect | src/owl_control/command_processor.rs:293-317 | a CC for a parameter id sets only that parameter's controller value, creating it if absent; everything else only adds one log entry |
| CommandProcessor.ReceivedValueWinsSync | src/owl_control/command_processor.rs:299-308 | a received controller value that differs from the last synced one wins the next sync, and nothing is sent |
| CommandProcessor.MessageSentEffect | src/owl_control/command_processor.rs:119-122 | a program change forgets every parameter; any other message only logs |
| OwlControl.Padded | src/owl_control.rs:94-96 | padding keeps every name, fills with empty names up to the length asked for, and never shrinks |
| OwlControl.OwlCommandProcessor.constructor | src/owl_control.rs:15-24 | no command sent, no version, no preset name, empty lists and zero offset |
| OwlControl.OwlCommandProcessor.RequestSettings | src/owl_control.rs:25-56 | the request is remembered and clears the list it asks for |
| OwlControl.OwlCommandProcessor.SendSysexCommand | src/owl_control.rs:57-80 | the command is remembered |
| OwlControl.OwlCommandProcessor.HandleResponse | src/owl_control.rs:81-138 | a response frame changes the state as the response specification says |
| OwlControl.OwlCommandProcessor.ReadPresetName | src/owl_control.rs:91-107 | a preset name response updates the preset names as specified |
| OwlControl.OwlCommandProcessor.ReadResourceName | src/owl_control.rs:108-129 | a resource name response updates offset and resource names as specified |
| OwlControl.OwlCommandProcessor.ScanName | src/owl_control.rs:98-104 | the scanning loop returns the name's end |
| OwlControl.RequestsRememberCommand | src/owl_control.rs:44-78 | both kinds of request make the command the one awaited; a request for presets or resources clears that list (and the offset), any other changes nothing else |
| OwlControl.UnexpectedResponseIgnored | src/owl_control.rs:130-136 | with no command awaited, or one the parser does not handle, any frame is accepted and changes nothing |
| OwlControl.CommandByteIgnored | src/owl_control.rs:83-85 | the frame's own command byte makes no difference to the result |
| OwlControl.NameIgnoresCommandByte | src/owl_control.rs:93-105 | the index, the name's end and the name do not depend on the command byte |
| OwlControl.FirstZeroAbove | src/owl_control.rs:99-104 | the scan only looks at words from its start on |
| OwlControl.FirmwareVersionResponse | src/owl_control.rs:86-90 | the version is the frame's bytes 4 to size-2, and nothing else changes |
| OwlControl.PresetNameResponse | src/owl_control.rs:93-105 | the list is padded with empty names to hold index data[4], only that slot changes, to bytes 5 up to the name's end, with no zero after its first byte |
| OwlControl.ResourceNameResponse | src/owl_control.rs:110-127 | into an empty list the index becomes the offset; the name lands at index minus offset in a padded list, every other slot kept |
| OwlControl.EmptyNameKeepsTerminator | src/owl_control.rs:99-105 | because the scan starts at byte 6, an empty name keeps its terminating zero in the stored name |

## Left out

- The outbound bytes: `connection.send` and wmidi's frame layout are I/O. Send errors are swallowed. Only the log entries and the state changes are modelled.
- `println!` output is left out, and so is the exact text of log lines. The log is a sequence of entries, one per appended line, carrying the values the line shows.
- CRC-32: the `crc32` module is not part of this model. The transfer takes the checksum function as a parameter.
- The `owl_midi` crate is not part of this model: the manufacturer and device ids, the command-byte conversion, the parameter-id conversion and the `SysexConfiguration` conversion. A `Protocol` value stands in for them. Its partial maps say which bytes convert.
- The parameter map is keyed by the parameter id's code, and the settings map by the converted configuration key as an integer.
- `Resource::size_string` is left out: its formatting is delegated to the `byte_unit` crate.
- `String::from_utf8_lossy` in the older parser is left out: it keeps the raw bytes. On 7-bit text, as in the newer processor, the conversion is exact and is modelled.
- Resources.ResourceData.ProcessData: `offset` is unbounded. The source's `u32` addition only overflows after 4 GiB of data.
- Parameter.OwlParameter.Sync: the `f32` value is a real. Rounding of `value * 127.0`, NaN and infinities are not modelled, so float equalities in the unit test hold only up to the real-number reading.
- CommandProcessor.OwlCommandProcessor.SendMessage: wmidi's `copy_to_slice` into a three-byte buffer panics, after the log line, for a message longer than three bytes. `OtherMessage` does not carry a message's length, so that panic is not modelled.
- Panics are preconditions, not behaviour:
  - slices past the frame when a name record has no terminator;
  - `usize` underflow of index minus offset;
  - `unwrap` of an unknown parameter id or of a non-7-bit string.
- The decode buffer's contents beyond the bytes just decoded are not part of the transfer's value. Only its length is kept as an invariant.

## Findings

| source | as written | input that shows it | evidently intended | confidence | as-written member | corrected member |
|---|---|---|---|---|---|---|
| src/owl_control/sysex.rs:114 | from the third group on, the byte decoder reads a group's mask from word 7g+1, the previous group's last data word, instead of word 8g | the 18-word packing of thirteen zero bytes followed by [1, 0]: word 15 holds 1, so the last byte decodes as 128 | each group's mask is word 8g, so decoding inverts encoding on every byte run | high; not executed | Sysex.RoundTripFailsAt15 | Sysex.IntendedRoundTrip |

`Sysex.Decoded` models the decoder as written. `Sysex.DecodedIntended` is the corrected decoder, and `Sysex.AsWrittenMatchesIntendedForTwoGroups` shows the two agree on frames of at most two groups. The transfer machine keeps the decoder as written, because that is what `process_data` calls. Its data chunks of up to 16 words are unaffected.
