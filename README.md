# pwrsurge core, modelled in Dafny

pwrsurge is a Linux daemon. It listens for ACPI events on a generic-netlink
socket and for input events on the evdev devices, filters them through
configured whitelists, and hands what is admitted to a plugin library. This
project models the daemon's pure and stateful core, and proves what that core
promises:

- **`acpi.dfy` (module `Acpi`)** is the 44-byte ACPI event record. It holds a
  20-byte device-class C string, a 16-byte bus-id C string, and two 32-bit
  integers.
  - Decoding is pure. It checks the field lengths and scans for the first
    zero byte.
  - Encoding is a method that writes into a caller's `array<byte>`. It is
    proved equal to a function that describes the effect on the buffer.
  - Two round trips are proved. `DeserializeEncode` decodes the `Encode`d
    form back to the event. `SerializeDeserialize` decodes the event back
    after serializing it in place into any 44-byte buffer. The byte-exact
    test vector is proved too.
  - Encoding a decoded buffer is not claimed to give the buffer back. It
    fails whenever a field's padding after its terminator is not zero.
  - The netlink payload dispatch (`acpi_event`) works over an abstract
    payload datatype.
- **`filter.dfy` (module `Filter`)** holds the whitelist predicates for ACPI
  device classes and evdev type/code/value triples. It proves the laws that
  link `is_wildcard` to the `contains_*` predicates.
- **`evdev.dfy` (module `Evdev`)** parses the kernel's input-device list into
  a handler-to-name map.
  - The class `EvdevEvents` owns the map.
  - `ParseFileChunk` loops over the lines of a paragraph. Its inner loop over
    the handler tokens, which `break`s at the first `event` token, is the
    method `ScanHandlers`.
  - `ParseEventsFile` splits the text at blank lines. It skips blank
    paragraphs and parses the rest.
  - Both methods are proved against fold functions. Lemmas about those
    functions state the overwrite order.
- **`args.dfy` (module `Args`)** extracts the configuration from INI sections.
  It covers the comma-split device-class list, the `u16` type and code lists,
  and the `reset_on_input` flag. Round-trip lemmas connect written lists to
  parsed ones.
- **`strings.dfy` (module `Strings`)** models the Rust `str` operations the
  core calls (`contains`, `split`, `lines`, `trim`) with their laws.
  - `Find` is the search behind `contains` and `split`. The core does not
    call `find` itself.
  - `Join` is not called by the core either. It is the partner in the lemmas
    that relate `Split` to `Join`.
- **`wrappers.dfy` and `primitives.dfy`** hold `Option`/`Result` and the
  fixed-width integer types.

The code of the `neli` library is not modelled. The model takes its behaviour to be as follows:

- A `String` has size length + 1 and is written as its bytes followed by a
  zero byte.
- `String::deserialize` of a zero-terminated slice yields the bytes before the
  terminator, provided they are UTF-8.
- The `serialize!`/`deserialize!` macros hand each field the next sub-slice of
  its size. A sub-slice past the end panics. After the last field, bytes left
  over are `BufferNotFilled` when serializing and `BufferNotParsed` when
  deserializing.
- `get_attr_payload_as` decodes the first attribute of the requested type.

A Rust panic is modelled as an error value: `SliceOutOfRange` in the codec,
`ok == false` in the device-list parser.

## Model

| member | source | states |
|---|---|---|
| Acpi.DeviceClass.Size | src/acpi.rs:63-65 | a device class has size 20 whatever its text |
| Acpi.BusId.Size | src/acpi.rs:100-102 | a bus id has size 16 whatever its text |
| Acpi.DeviceClassTypeSize | src/acpi.rs:67-69 | the device-class field's type size is known and is 20 |
| Acpi.BusIdTypeSize | src/acpi.rs:104-106 | the bus-id field's type size is known and is 16 |
| Acpi.U32TypeSize | src/acpi.rs:148 | a `u32` field's type size is known and is 4 |
| Acpi.AcpiEventTypeSize | src/acpi.rs:145-149 | the type size is 20 + 16 + 2·4 = 44 |
| Acpi.AndThenAdd | src/acpi.rs:146-148 | one `and_then` step is defined exactly when both sizes are, and adds `count` copies of the field size |
| Acpi.AcpiEventSize | src/acpi.rs:141-143 | every event's size equals the constant type size |
| Acpi.U32RoundTrip | src/acpi.rs:113-114 | a `u32` read back from its four bytes is itself |
| Acpi.U32BytesRoundTrip | src/acpi.rs:113-114 | four bytes turned into a `u32` and back are the same bytes |
| Acpi.Position | src/acpi.rs:55 | `position` finds the first zero byte, or reports that there is none |
| Acpi.PositionUnique | src/acpi.rs:55 | any index holding the first zero is the one found |
| Acpi.StringDeserialize | src/acpi.rs:60 | neli's `String::deserialize` as modelled: it succeeds exactly when the bytes before the final terminator are UTF-8, and then yields those bytes; otherwise the error is `InvalidUtf8` |
| Acpi.DeserializeCString | src/acpi.rs:49-60 | a region longer than the width is `BufferNotParsed`; a shorter one is `UnexpectedEOB`; one with no zero byte is the null-byte error; a success is text shorter than the width, followed by a zero byte, with no zero byte inside and valid UTF-8 |
| Acpi.DeserializeCStringIff | src/acpi.rs:49-60 | a field decodes to `t` exactly when the region has the field's width and begins with `t` and a zero byte, `t` is zero-free and UTF-8; the bytes after the terminator are never read |
| Acpi.DeserializeDeviceClass | src/acpi.rs:49-61 | the three error cases for width 20, and on success the text of the first zero-terminated prefix |
| Acpi.DeserializeBusId | src/acpi.rs:86-98 | the three error cases for width 16, and on success the text of the first zero-terminated prefix |
| Acpi.Deserialize | src/acpi.rs:129-139 | a decoded event always comes from exactly 44 bytes |
| Acpi.DeserializeIff | src/acpi.rs:129-139 | a buffer decodes to `e` exactly when it is 44 bytes long, `e` is well formed, and the buffer holds each string and its terminator at the start of its field plus the two integers |
| Acpi.Encode | src/acpi.rs:118-127 | the layout is device class, bus id, event type, event data, with length equal to the event's size |
| Acpi.EncodeCarries | src/acpi.rs:118-127 | the zero-padded layout holds each field where decoding looks for it |
| Acpi.DeserializeEncode | src/acpi.rs:118-139 | round trip: a well-formed event decodes from its encoding |
| Acpi.Overwrite | src/acpi.rs:46 | writing into a sub-slice keeps the buffer's length and every byte after the sub-slice |
| Acpi.SerializeEffect | src/acpi.rs:118-127 | the effect of `serialize` in function form: the buffer keeps its length, and no byte past the 44-byte record is ever written |
| Acpi.SerializeOutcome | src/acpi.rs:118-127 | serialization succeeds exactly for a 44-byte buffer and strings that fit; a longer buffer is `BufferNotFilled`; anything else stops at a slice past the end |
| Acpi.SerializeZeroed | src/acpi.rs:118-127 | serializing into a zeroed 44-byte buffer succeeds and leaves exactly the encoding |
| Acpi.SerializeDeserialize | src/acpi.rs:118-139 | whatever a 44-byte buffer held before, a well-formed event serialized into it decodes back to itself |
| Acpi.OverwriteAt | src/acpi.rs:46 | writing into a sub-slice changes exactly the bytes under it |
| Acpi.SerializeU32 | src/acpi.rs:123-124 | a `u32` is written into its four bytes and nothing else changes |
| Acpi.SerializeCString | src/acpi.rs:39-47 | a sub-slice longer than the width is `BufferNotFilled`; a shorter one is `UnexpectedEOB`; a string too long for its terminator is a slice past the end; otherwise the string and a zero byte are written at the start, the rest of the buffer is unchanged, and any error leaves the buffer untouched |
| Acpi.SerializeDeviceClass | src/acpi.rs:39-47 | the same contract at width 20 |
| Acpi.SerializeBusId | src/acpi.rs:76-84 | the same contract at width 16 |
| Acpi.Serialize | src/acpi.rs:118-127 | the outcome and the whole new buffer are those of the field-by-field effect, including partial writes before an error |
| Acpi.SerializeToBuffer | src/acpi.rs:181 | a zeroed buffer of the event's size is serialized into; this succeeds exactly when the strings fit, and then holds the encoding |
| Acpi.FindAttr | src/acpi.rs:25 | the first attribute of the requested type, or none of that type |
| Acpi.AcpiEventOf | src/acpi.rs:13-26 | an error payload, an ACK or an empty packet is an error; a result exists exactly when the payload's first `Event` attribute decodes, and it is that decoded event |
| Acpi.AcpiEventOfEncoded | src/acpi.rs:13-26 | a message whose first `Event` attribute is an encoded well-formed event yields that event |
| Acpi.TestVector | src/acpi.rs:161-210 | "AAAAAA", "AAAAA", 5, 7 encode to the pinned 44 bytes, and those bytes decode back to the event |
| Filter.Contains | src/filter.rs:13 | `Vec::contains` is membership |
| Filter.AcpiFilter.ContainsDeviceClass | src/filter.rs:12-14 | true exactly when some whitelist entry equals the class; an empty list contains nothing |
| Filter.AcpiFilter.IsWildcard | src/filter.rs:16-18 | the filter is the wildcard exactly when its whitelist is empty |
| Filter.AcpiWildcardIff | src/filter.rs:12-18 | the filter is the wildcard exactly when it contains no class at all |
| Filter.EvdevFilter.ContainsType | src/filter.rs:40-42 | the type is listed, or no type is listed |
| Filter.EvdevFilter.ContainsCode | src/filter.rs:44-46 | the code is listed, or no code is listed |
| Filter.EvdevFilter.ContainsValue | src/filter.rs:48-50 | the value is listed, or no value is listed |
| Filter.EvdevFilter.IsWildcard | src/filter.rs:52-56 | all three lists are empty |
| Filter.EvdevWildcardContainsAll | src/filter.rs:40-56 | a wildcard filter contains every type, code and value |
| Filter.EvdevWildcardIff | src/filter.rs:40-56 | for a triple that no list names, the filter contains it exactly when it is the wildcard |
| Strings.Find | src/evdev.rs:16-17 | the leftmost occurrence of the pattern, or none anywhere |
| Strings.FindFirst | src/evdev.rs:16-17 | the first occurrence of the pattern is the one `find` reports |
| Strings.ContainsPattern | src/evdev.rs:16-17 | `contains` holds exactly when the pattern occurs somewhere |
| Strings.AbsentHeadNotContained | src/evdev.rs:16-17 | a pattern whose first character does not occur is not contained |
| Strings.Split | src/evdev.rs:23 | `split` yields at least one piece |
| Strings.SplitPiecesAvoidSep | src/evdev.rs:23 | no piece of a split contains the separator |
| Strings.JoinSplit | src/evdev.rs:40 | joining the pieces with the separator gives the text back |
| Strings.SplitJoin | src/args.rs:52 | parts free of a one-character separator, once joined, split back into the same parts |
| Strings.Lines | src/evdev.rs:15 | defines `str::lines`: the pieces between line feeds, without the empty piece after a final line feed, each with one trailing carriage return removed |
| Strings.LinesAvoidNewline | src/evdev.rs:15 | no line holds a line feed |
| Strings.LinesJoin | src/evdev.rs:15 | `lines` recovers the lines of their newline-joined text |
| Strings.TrimStart | src/evdev.rs:41 | drops exactly the leading whitespace |
| Strings.TrimEnd | src/evdev.rs:41 | drops exactly the trailing whitespace |
| Strings.Trim | src/evdev.rs:41 | defines `str::trim` as `trim_end` after `trim_start` |
| Strings.TrimEnds | src/evdev.rs:41 | the trimmed text is a contiguous part of the input that neither starts nor ends with whitespace |
| Strings.TrimEmptyIffBlank | src/evdev.rs:41 | the trimmed text is empty exactly when every character is whitespace |
| Evdev.FirstEventHandler | src/evdev.rs:23-29 | the chosen token contains "event" and no earlier token does; there is none exactly when no token contains "event" |
| Evdev.FirstEventIndex | src/evdev.rs:24-29 | the position of the first token containing "event": no token before it contains it, and the one there does unless it is past the end |
| Evdev.FirstEventHandlerAt | src/evdev.rs:24-28 | the first token containing "event" is the one chosen, whatever comes after it |
| Evdev.StepLine | src/evdev.rs:16-30 | defines one line of the paragraph loop: a name line sets the name, a handlers line sets the handler when a token contains "event"; its laws are `StepLineFields` and the lemmas below |
| Evdev.StepLineFields | src/evdev.rs:18-30 | a line changes only its own field: the name only on a name line, the handler only on a handlers line |
| Evdev.ParseLines | src/evdev.rs:13-31 | defines the loop over the lines as a fold from the empty name and handler; `LastNameLineWins`, `NoNameLine`, `LastHandlerLineWins` and `NoHandlerLine` state what it yields |
| Evdev.ChunkEntry | src/evdev.rs:12-32 | defines the entry `insert`ed for a paragraph, handler to name, from `Lines` and the line fold |
| Evdev.ParseLinesSnoc | src/evdev.rs:15-31 | parsing one more line is one more step of the line fold |
| Evdev.LastNameLineWins | src/evdev.rs:18-20 | the recorded name is the text between `N: Name="` and the last character of the last name line |
| Evdev.NoNameLine | src/evdev.rs:13 | without a name line the name stays empty |
| Evdev.LastHandlerLineWins | src/evdev.rs:21-29 | the recorded handler is the first event token of the last handlers line that has one |
| Evdev.NoHandlerLine | src/evdev.rs:14 | without such a line the handler, and so the map key, is empty |
| Evdev.NameAndHandlersLine | src/evdev.rs:16-22 | a line containing both tags is only a name line: the handler is kept |
| Evdev.ApplyChunk | src/evdev.rs:41-43 | a paragraph gets through exactly when it is blank or can be sliced; a blank paragraph or a panicking one leaves the map as it was |
| Evdev.ParseChunks | src/evdev.rs:40-44 | defines the loop over the paragraphs as a fold that stops at the first panic; `ParseChunksOk`, `ParseChunksStops`, `ParseChunksKeepsKey` and `ParseChunksLastWins` state what it yields |
| Evdev.ChunksSliceableTail | src/evdev.rs:40-44 | dropping the first paragraph keeps every remaining non-blank paragraph sliceable |
| Evdev.ParseChunksStep | src/evdev.rs:40-44 | a paragraph that can be parsed never stops the loop, and the rest is parsed from the map it leaves |
| Evdev.ApplyChunkSets | src/evdev.rs:41-42 | a non-blank sliceable paragraph inserts its entry into the map |
| Evdev.ParseChunksAppend | src/evdev.rs:40-44 | two runs of paragraphs parse as the second run started from the map the first leaves, unless the first stopped, in which case the second is never read |
| Evdev.ChunksSliceableSplit | src/evdev.rs:40-44 | both sides of a cut in the paragraph list keep every non-blank paragraph sliceable |
| Evdev.SuffixLastSetter | src/evdev.rs:40-44 | cut at a paragraph, the suffix starts with it and no later paragraph in the suffix sets the key |
| Evdev.ParseChunksOk | src/evdev.rs:40-44 | when every non-blank paragraph can be sliced, the parse runs to the end |
| Evdev.ParseChunksStops | src/evdev.rs:40-44 | a non-blank paragraph that cannot be sliced stops the parse; with `ParseChunksOk`, the parse gets through exactly when every non-blank paragraph can be sliced |
| Evdev.LastSetterFirst | src/evdev.rs:40-44 | a paragraph that no later paragraph overrides leaves its entry in the final map |
| Evdev.ParseChunksKeepsKey | src/evdev.rs:40-44 | a key that no non-blank paragraph sets keeps its presence and its value; blank paragraphs touch nothing |
| Evdev.ParseChunksLastWins | src/evdev.rs:40-44 | a key maps to the name of the last non-blank paragraph that sets it |
| Evdev.ScanHandlers | src/evdev.rs:24-29 | the handler becomes the first token containing "event", and stays as it was when no token does |
| Evdev.EvdevEvents.constructor | src/evdev.rs:49 | the map starts empty |
| Evdev.EvdevEvents.ParseFileChunk | src/evdev.rs:12-33 | succeeds exactly when every slice stays inside its line; then exactly one entry, handler to name, is inserted or overwritten and all other keys are unchanged; a panic leaves the map untouched |
| Evdev.EvdevEvents.ParseEventsFile | src/evdev.rs:35-46 | the new map and the outcome are the fold over the paragraphs between "\n\n": blank ones skipped, each other one applied in order, stopping at the first panic |
| Evdev.ParseEvents | src/evdev.rs:48-52 | a fresh registry filled from an empty map over the whole text |
| Evdev.TestChunkEntry | src/evdev.rs:83-96 | the sound-card paragraph can be sliced and gives event8 → "HDA Intel PCH Mic" |
| Args.Lookup | src/args.rs:48-50 | a value exists exactly when the section and the key do, and it is the stored string |
| Args.NonEmpty | src/args.rs:52-54 | the kept pieces are exactly the non-empty ones |
| Args.NonEmptyKeepsAll | src/args.rs:52-54 | non-empty pieces are all kept, unchanged |
| Args.NonEmptyConcat | src/args.rs:52-54 | dropping empty pieces keeps the order |
| Args.SplitPiecesLackSep | src/args.rs:52 | no piece of a comma split holds a comma |
| Args.ParseAcpiConfig | src/args.rs:47-61 | a missing section or key gives an empty list; every element is non-empty and comma-free; the elements are exactly the non-empty comma-separated pieces |
| Args.ParseAcpiConfigJoin | src/args.rs:47-61 | non-empty, comma-free classes written comma-separated are read back in order |
| Args.ParseU16 | src/args.rs:67 | a value is read exactly from an optional `+` and one or more digits of value at most 65535; a leading `-` or an empty string fails |
| Args.Decimal | src/args.rs:67 | a decimal numeral is a non-empty digit string without sign or comma |
| Args.DecimalValue | src/args.rs:67 | a numeral's digit value is its number |
| Args.ParseU16Decimal | src/args.rs:67 | every `u16` written in decimal, with or without `+`, parses back |
| Args.ParsedU16s | src/args.rs:66-71 | the kept numbers are exactly those some piece parses to, and there are no more of them than pieces |
| Args.ParsedU16sConcat | src/args.rs:66-71 | parsing keeps the order |
| Args.Decimals | src/args.rs:66-71 | one decimal numeral per number |
| Args.ParsedU16sDecimals | src/args.rs:66-71 | numerals of numbers parse back to those numbers, in order |
| Args.U16List | src/args.rs:66-71 | a missing key gives an empty list; otherwise the elements are exactly the numbers the comma-separated pieces parse to |
| Args.U16ListJoin | src/args.rs:66-71 | numbers written comma-separated in decimal are read back in order |
| Args.ParseEvdevConfig | src/args.rs:63-76 | the type and code lists come from their keys; the value list is always empty; a missing section gives the wildcard filter |
| Args.ParseEvdevConfigJoin | src/args.rs:63-76 | type and code lists written in decimal give a filter holding exactly those lists and no value list |
| Args.ParseBool | src/args.rs:82 | exactly "true" and "false" parse |
| Args.ParseTimerConfig | src/args.rs:78-87 | true exactly when the `[timer]` section has `reset_on_input` set to the text "true" |
| Args.ParseConfig | src/args.rs:89-99 | the timer flag is that of `reset_on_input`; the value list is empty; a missing device-class key gives the wildcard ACPI filter |
| Args.SectionsIndependent | src/args.rs:89-99 | changing a section other than `[acpi]` and `[evdev]` leaves both filters unchanged, and one other than `[timer]` also leaves the timer flag unchanged |

## Left out

- `src/event.rs`, `src/netlink.rs` and `src/main.rs` are not part of this model. They are threads, dynamic-library loading, unsafe calls into C code and netlink sockets.
- The example plugins (`examples/`, `example_libs/`) are not part of this model. They do sysfs I/O and floating-point percentages, and they read a 15-byte bus id where `src/acpi.rs` declares 16. The model follows `src/acpi.rs`.
- The `neli` library's own code is not modelled. `String` serialization, the `serialize!`/`deserialize!` macros and attribute lookup are fixed as described above.
- The `u32` fields are written in the host's byte order. The model fixes little-endian.
- `Acpi.NlPayload` reduces a generic-netlink message to its list of attributes. Header fields, the command and the version are not modelled.
- `acpi_event` builds its errors from message strings. The model uses one constructor per case (`UnexpectedAck`, `EmptyPacket`, and so on).
- Reading `/proc/bus/input/devices` (`File::open`, the 65536-byte `take`), `evdev_files` and `InputEvent` are left out. They are I/O and a platform-dependent C layout. The text is a parameter of `ParseEventsFile`.
- `EvdevEvents::iter` is left out. It only exposes the map, which the model keeps as the field `devices`.
- Characters stand for bytes in the device list. Slicing inside a multi-byte UTF-8 character, which would also panic, is not modelled.
- `Strings.Lines` strips one trailing carriage return from each line. A Rust release that strips only a `"\r\n"` pair would treat a bare final `"\r"` differently.
- `parse_args` and the loading part of `parse_config` are left out. They are getopts, `process::exit` and `Ini::load_from_file`. The INI file is taken as already loaded, as a map from section name to a map from key to value.
- `Args.ParseEvdevConfig`: `src/args.rs:72,74` call `EvdevFilter::new` with two arguments, while `src/filter.rs:28-32` takes three. The model builds the filter with an empty value list, so event values are never filtered.
- `src/args.rs` reads no `value_whitelist` key from `[evdev]`, and neither does the model. The value list is always empty.
- `src/` defines no combined rule that admits an input event by its type, code and value together. The filter predicates are modelled one at a time, as `src/filter.rs` defines them.
- `Args.ParseU16` checks the value after reading every digit. Rust `u16::from_str` stops at the first overflow, with the same outcome.
