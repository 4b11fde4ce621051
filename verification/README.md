# A verified model of the gateway's codecs and protocols

This project models the pure C parts of a gateway that reads Viessmann
controllers over CAN, together with the generator of its database and the
browser's copy of one rule, and proves what they promise. Verify with
`dafny verify dfyconfig.toml`.

## How it is built

Each operation of the source has two forms. A function on values says what the
operation does to the whole state (bytes, bus, history, slot), with the
branches, limits and errors of the code. A method or a class with mutable
fields then does it the way the code does - an index walking an array, a ring
and a cursor, a loop over the hardware - and is proved to end in the state and
with the result of that function. The lemmas state the promises about the
function, for all inputs, all runs and all peers.

| part | function | as the code runs it | claims |
|---|---|---|---|
| datapoint codec (main/o3e_codec.c) | CodecDecode, CodecEncode | CodecDecoder, CodecEncoder | CodecLeaves, CodecPlaces, CodecNumbers, CodecCanon, TimeForm, CodecValues |
| event sinks (main/o3e_json.c, main/o3e_flatten.c) | Events, JsonSink, FlatSink | classes Printer, Flattener | JsonSink, FlatSink, Render |
| doubles as text (main/o3e_json.c) | Doubles, ShortestText, DecimalLayout | ShortestText, DecimalLayout | Doubles, ShortestText, DecimalLayout |
| read, merge, write (main/poller.c) | Merge, JsonReader | Merge | Merge, JsonReader, MergeText |
| ISO-TP (main/isotp.c) | IsoTp | IsoTpPort | IsoTpSender, IsoTpReceiver, IsoTpFlow |
| UDS (main/uds.c) | Uds | IsoTpPort | Uds, UdsWire, UdsAnswered |
| collect stream (main/collect_parse.c) | Collect | CollectAsm | Collect, CollectSeen |
| bus trace (main/cantrace.c) | CanTrace | TraceRing | CanTrace, TraceTrigger, TraceStats |
| database (tools/gen_dpdb.py, main/o3e_db.c) | Container, DbImage, DbReader | DbPacker, DbLookup | DbReader, DbFormat, DbRefine |
| held setpoints (main/hold.c) | Hold | class Holder | Hold |
| topics (main/mqtt_pub.c, web/app.js) | Topic | Topic | Topic |
| debouncer (main/contact.c) | Contact | class Debouncer | Contact |

C integers are unbounded here unless their width matters, and then the cast or
the wrap is written out (the 64-bit casts of the INT branch, the 32-bit trace
counter, the millisecond counter of the debouncer). A double is the real it
holds, and every conversion to a double, every product and quotient, every
printing with a fixed number of decimals and every reading of a decimal text is
rounded to 53 bits, half to even, as the code does it (Doubles); only the
exponent has no limit. The foreign conversions - float bits, dates, local time -
are parameters. The bus is an explicit value: a microsecond clock, the frames
still to arrive from an arbitrary peer, the outcome and cost of every
transmission, and a log.

## Where the code and its description part

- main/o3e_codec.c: decoding takes the first default branch of a switch,
  encoding the last. With one default, which is all the compiler of the tree can
  make, they agree; the round trips assume one.
- main/o3e_codec.c expects unsigned 64-bit counters with the top bit set. On the
  way to text and back every number is a double: the counter FF FF FF FF FF FF
  FF FF is shown as 2^64 and refused when it is written back
  (CodecCanon.TopCounterRefused), 2^53 + 1 comes back as 2^53, and with a scale a
  number below 2^53 can come back as its neighbour (CodecNumbers.OneMore). A
  partial write then changes or refuses a field nobody named; it leaves the rest
  alone exactly when the kept fields are canonical (Merge.WriteKeepsTheRest).
- main/o3e_codec.c: besides such numbers, a BYTEVAL of eight bytes with the top
  bit set, an enum value that changes when stored, a negative list count and a
  time whose text is cut by the 96-byte buffer do not survive the round trip. The
  canonical predicates of CodecCanon and CodecValues are the exact conditions. For
  a number they are: an unscaled INT, a BYTEVAL and a Count must be doubles; a
  scaled INT survives whenever it is modest (CodecNumbers.ModestBack), and beyond
  that the double arithmetic of the one number decides (for a time, with its one
  exception, CodecCanon.TimeReadBack).
- main/o3e_codec.c: a FLOAT32 is shown over its scale and written without it
  (CodecLeaves.FloatShown, CodecLeaves.FloatTakes), so a number other than zero
  comes back exactly if the scale is 1 (CodecLeaves.FloatBack).
- main/o3e_codec.c: o3e_codec_encodable is a hint. It says no of a list whose
  entries hold an array, to which an empty list can still be written
  (CodecPlaces.HintIsNoVerdict).
- main/cantrace.h says capture continues for post_frames after the trigger. A
  write request and a control change are followed by post + 1 frames, a novelty
  by post (CanTrace.TriggerKept, CanTrace.ControlStops).
- main/cantrace.h has a count of frames, a last time and the bytes that have
  changed for each identifier. The count leaves out the first frame, the last
  time of an identifier heard once is 0, and a change is noted only while
  learning (TraceStats.StatsTell, TraceStats.HeardOnce, TraceStats.NoneLearned).
- main/can_port.c calls the 30 s wait comfortably longer than the worst
  exchange. It is for reads with at most one segmented pending reply and for
  writes with none, and for no more than that (Uds.ShorterThanTheWait, with the
  buses of Uds.SlowRead and Uds.SlowWrite).
- main/collect.h describes hooking 0x21 as equal to reassembling. It is, for
  messages of one block (Collect.HookIsReassembly). Of several blocks only those
  are seen that lie where the sequence is at 21 (CollectSeen.HookSees,
  CollectSeen.FirstBlockOnly, CollectSeen.SeventeenthFrameHooked), and of a block
  that the message cuts off the hook takes the padding of the last frame for data:
  77 00 00 43 01 82 05 00 B3 09 holds no block, and the hook delivers DID 5 with
  09 00 00 (CollectSeen.CutOffBlock).
- main/hold.c: a write in flight across a restart is counted against the new
  hold, since the slot is looked up again when it returns
  (Hold.OldFailureCounted). The count is that of the new hold's own writes
  exactly unless such a write has failed since, and then one more
  (Hold.FailuresCounted).
- web/app.js replaces an empty format, main/mqtt_pub.c publishes to the bare
  base topic (Topic.EmptyFormat). A datapoint name of 96 characters or more is
  cut to 95 in the one and not in the other (Topic.LongName).

## Model

| member | source | states |
|---|---|---|
| Bytes.ReadUint | main/o3e_codec.c:255-263 | the little-endian number in the first `width` available bytes, however short the payload |
| Bytes.LEofReadInt | main/o3e_codec.c:265-279 | writing back what was read, signed or not, at any width up to eight bytes, gives the same bytes |
| Bytes.CastsMean | main/o3e_codec.c:255-279 | the casts to 32 and 64 bits give the number of that width with the same low bits |
| Bytes.PutLE | main/o3e_codec.c:724-729 | exactly `width` bytes of the buffer become the number's low bytes; the rest of the buffer stays |
| Text.HexRoundTrip | main/o3e_codec.c:315-335 | the hex text printed for any bytes parses back to those bytes |
| Text.TimeRoundTrip | main/o3e_codec.c:886-902 | the colon-separated time printed for any bytes is read back by strtol as those bytes |
| Text.StrtolReads | main/o3e_codec.c:886-902 | strtol skips white space, takes a sign and every digit that follows, and stops at the first character that is none |
| Text.IgnoresCase | main/o3e_codec.c:371-371 | names and texts are compared letter by letter, either case counting as the same |
| CodecDecoder.HexOf | main/o3e_codec.c:315-335 | two lower-case digits for each of the n bytes from `at`, in order |
| CodecDecoder.TimeOf | main/o3e_codec.c:511-518 | two digits per byte with colons, clipped to the 95 characters of the buffer |
| CodecDecoder.DecodeScalar | main/o3e_codec.c:408-529 | the one value a scalar kind makes of the available bytes, short payloads included |
| CodecDecoder.DecodeEnum | main/o3e_codec.c:560-566 | appends the events of an ID/Text pair for the stored number |
| CodecDecoder.DecodeComplex | main/o3e_codec.c:568-580 | appends the events of the object whose members are the fields, each decoded from its own offset |
| CodecDecoder.DecodeListFields | main/o3e_codec.c:360-396 | count, then the counted entries, then the remaining fields, as events of the list's denotation |
| CodecDecoder.DecodeEntries | main/o3e_codec.c:376-388 | appends the events of as many entries as counted and returns how many bytes they took |
| CodecDecoder.DecodeArray | main/o3e_codec.c:585-601 | appends the events of arrayLen repetitions, in order, each behind the last |
| CodecDecoder.DecodeSwitch | main/o3e_codec.c:603-645 | appends the events of ID, Text and the chosen branch (first default), or of what is shown when no branch exists |
| CodecDecoder.DecodeNode | main/o3e_codec.c:398-648 | for every tree: only the `avail` bytes from `at` matter, and exactly the events of the value they denote are appended |
| Events.ReadBack | main/o3e_codec.c:398-648 | an emitted event stream is balanced and denotes exactly one value, whatever follows |
| CodecLeaves.FloatShown | main/o3e_codec.c:423-432 | whatever number x the four bytes hold, what is shown differs from x / scale by at most half a unit of the last shown decimal plus the rounding of a quotient and a print |
| CodecLeaves.CosPhiShown | main/o3e_codec.c:434-443 | the second byte over the scale, to the same precision, negated if and only if the first byte is 4 |
| CodecLeaves.IntShownFor | main/o3e_codec.c:413-421 | an INT with a scale or decimals likewise shows its stored number over the scale to within that precision |
| CodecLeaves.BoolShown | main/o3e_codec.c:449-451 | on if and only if there is a byte and it is not 0 |
| CodecLeaves.EnumShows | main/o3e_codec.c:336-352 | ID is the stored number, Text the list's text for it or a message of at most 63 characters |
| CodecLeaves.HexShown | main/o3e_codec.c:408-411 | the text shown of a raw or unknown field parses to the bytes there are |
| CodecLeaves.TextShown | main/o3e_codec.c:453-529 | which bytes each text kind is made of |
| CodecLeaves.DateShown | main/o3e_codec.c:531-558 | text and epoch of six bytes, or of eight if there are eight |
| CodecPlaces.FieldPlaced | main/o3e_codec.c:568-580 | field i of an object is what its node decodes from the bytes behind the lengths of all fields before it |
| CodecPlaces.EntriesPlaced | main/o3e_codec.c:376-388 | as many entries as counted and as fit, entry k decoded from k lengths on |
| CodecPlaces.ElementPlaced | main/o3e_codec.c:585-601 | element k of array field i lies behind all repetitions of the fields before it and k of its own |
| CodecPlaces.ListOfThree | main/o3e_codec.c:353-396 | a count, another field and the entries: the entries start behind both |
| CodecPlaces.CasePicked | main/o3e_codec.c:603-645 | the first case with the value, else the first default in decoding and the last in encoding |
| CodecPlaces.ShortPayload | main/o3e_codec.c:255-279 | a payload shorter than the field decodes like a field that short |
| CodecEncoder.EncodeHex | main/o3e_codec.c:794-812 | hex text into place: all 2*len digits or a refusal, and never a byte outside the node |
| CodecEncoder.EncodeInt | main/o3e_codec.c:814-850 | scaled, rounded and range-checked as the code does it: the bytes of the field, or the refusal, the encoding has |
| CodecEncoder.FindText | main/o3e_codec.c:744-783 | the loop over an enum's list finds the value of the first entry with the text |
| CodecEncoder.EncodeEnumValue | main/o3e_codec.c:744-783 | from an object, a text or a bare number to the value's bytes, or the encoding's refusal |
| CodecEncoder.EncodeTime | main/o3e_codec.c:886-902 | time parts into place, or a refusal, and never a byte outside the node |
| CodecEncoder.EncodeMembers | main/o3e_codec.c:907-924 | each child written behind the last; a refusal names the first child that fails; bytes outside untouched |
| CodecEncoder.EncodeCounted | main/o3e_codec.c:926-983 | count first, then the entries, then zeros; refused when the array is missing, no array or of another length |
| CodecEncoder.EncodeItems | main/o3e_codec.c:963-973 | entries one behind the other in the room left, refused when one no longer fits, the rest zero |
| CodecEncoder.EncodeBranch | main/o3e_codec.c:985-1022 | selector byte, branch, zeros; bytes outside the switch untouched |
| CodecEncoder.EncodeNode | main/o3e_codec.c:785-1028 | for every tree and value: success determines exactly bytes at..at+len-1 as the encoding, a refusal is the encoding's refusal, too little room is refused untouched, and nothing outside the node ever changes |
| CodecNumbers.IntAccepted | main/o3e_codec.c:814-850 | an INT field takes a rounded number if and only if it fits the width and signedness; the 64-bit casts let nothing through |
| CodecLeaves.IntTakes | main/o3e_codec.c:814-850 | a number, multiplied by the scale and rounded half away from zero, is stored and then shown if the field can hold it, and refused as out of range if and only if not |
| CodecLeaves.EnumNumber | main/o3e_codec.c:756-762 | any bare number is stored without its fraction in the field's bytes and shown as the ID of what they hold, and as the ID of an object without a text it is stored the same way |
| CodecLeaves.EnumWhole | main/o3e_codec.c:756-762 | every whole number that fits the field and is a double is the ID shown of its encoding, whatever bytes follow, and integer, double and ID object encode alike |
| CodecLeaves.EnumTextTakes | main/o3e_codec.c:744-783 | a listed text in any case, bare or in an object with whatever ID, encodes as its number does |
| CodecLeaves.EnumRefuses | main/o3e_codec.c:744-783 | a text that is not listed is refused, and an object with neither text nor number |
| CodecLeaves.BoolTakes | main/o3e_codec.c:874-884 | true, on in any case and numbers other than zero store 1 and are shown as on, everything else of those types stores 0 and is shown as off, and other types are refused |
| CodecLeaves.ByteValTakes | main/o3e_codec.c:863-872 | a number below zero is refused, any other is stored without its fraction and shown so if it fits |
| CodecLeaves.FloatTakes | main/o3e_codec.c:852-861 | the four bytes are the number's float bits, and what those hold is shown over the scale: the scale is not multiplied in |
| CodecLeaves.FloatBack | main/o3e_codec.c:423-432 | a number that its float holds comes back, when all decimals are shown, if and only if it is zero or the scale is 1 |
| CodecLeaves.RawTakes | main/o3e_codec.c:794-812 | exactly hex digits of either case, two for each byte, are taken, and shown in lower case; each refusal says which condition failed |
| CodecLeaves.TimeTakes | main/o3e_codec.c:886-902 | digit texts of values 0 to 255 with colons between are read as those bytes, leading zeros or not |
| CodecLeaves.TimeTooLarge | main/o3e_codec.c:886-902 | a part above 255 is refused wherever its text ends |
| CodecLeaves.WrongTypes | main/o3e_codec.c:785-1028 | which JSON types each kind refuses, and which kinds have no encoder |
| CodecPlaces.FieldRefused | main/o3e_codec.c:907-924 | the first field that is missing is named, the first one refused gives its reason, and those behind are not looked at |
| CodecPlaces.ListRefused | main/o3e_codec.c:926-961 | which check refuses a list, in the order the code has them |
| CodecPlaces.SwitchRefused | main/o3e_codec.c:985-1022 | which check refuses a switch, in the order the code has them |
| CodecPlaces.HintIsNoVerdict | main/o3e_codec.c:680-718 | the encodable hint says no of a list whose entries hold an array, and an empty list can be written to it all the same |
| CodecPlaces.NeverWritable | main/o3e_codec.c:680-718 | an object with a field that has no encoder refuses every value |
| Doubles.NoneNearer | main/o3e_codec.c:413-419 | the model's conversion of a number to a double is the nearest double: no other is nearer |
| Doubles.QuotientMoves | main/o3e_codec.c:423-432 | the quotient of two doubles is the dividend if and only if that is zero or the divisor is 1: rounding never hides a scale |
| CodecNumbers.IntSurvives | main/o3e_codec.c:413-421 | in double arithmetic, an INT shown and written back gives the stored number if and only if, without a scale, it is a double; with one, always up to 2^50 when decimals are 0, match the scale or leave the rounding errors room, and beyond that when the arithmetic of this one number says so |
| CodecNumbers.ModestBack | main/o3e_codec.c:814-835 | the bound: a division, a print and a multiplication, each rounded, stay below one half for every modest number |
| CodecNumbers.OneMore | main/o3e_codec.c:281-301 | with scale 10 and one decimal the stored 9007199254740987, below 2^53, comes back as the next number |
| CodecNumbers.PowerScaleExact | main/o3e_codec.c:281-301 | with scale 10^k every stored number survives if and only if the field has at most six bytes and decimals are 0 or at least k |
| CodecNumbers.OneIsLost | main/o3e_codec.c:281-301 | with fewer decimals than the scale has zeros, a stored 1 comes back as 0 |
| CodecCanon.BytesRoundTrip | main/o3e_codec.c:360-648 | for every well-formed tree and every payload: encoding what was decoded gives the same bytes if and only if the payload is canonical (numbers survive their doubles, list padding zero, count not negative, switch branch present and padded with zeros, enum value listed, bool 0 or 1, time text inside its buffer) |
| CodecCanon.TopCounterRefused | main/o3e_codec.c:413-419 | an unsigned 64-bit counter with all bits set is shown as 2^64 and refused when written back |
| CodecCanon.WholeStored | main/o3e_codec.c:863-872 | a whole number goes through cJSON's double into its bytes unchanged if and only if it is a double |
| CodecCanon.TimeReadBack | main/o3e_codec.c:886-902 | what is shown of a time of any length reads back if and only if its text has at most 95 characters, or 96 of which the last is the second zero of a last byte 0 |
| CodecCanon.FieldsFound | main/o3e_codec.c:907-924 | with distinct sibling ids each field of a decoded object is found under its own id |
| CodecCanon.EnumShownEncodes | main/o3e_codec.c:744-783 | the ID/Text pair decoding shows encodes to the value's own bytes, or is refused when the list does not have it |
| CodecCanon.SwitchTrip | main/o3e_codec.c:985-1022 | the round trip of a switch, branch merged into the same object, holds exactly when the payload is canonical |
| CodecCanon.ListTrip | main/o3e_codec.c:926-983 | the round trip of a list holds exactly when count and entries are canonical and the padding is zero |
| CodecValues.ValueRoundTrip | main/o3e_codec.c:785-1028 | for every well-formed tree and every JSON value: encoding succeeds and decodes to the same value if and only if the value is canonical, whatever bytes follow |
| CodecValues.DecodeCanonical | main/o3e_codec.c:398-648 | what decoding makes of a canonical payload is a canonical value |
| CodecValues.EncodeCanonical | main/o3e_codec.c:785-1028 | every canonical value encodes, and decodes back to itself |
| TimeForm.CanonicalTime | main/o3e_codec.c:511-518 | a text of that many parts of two digits, or three from 100 to 255, with colons between, of at most 95 characters or lacking the last zero of a final 00, is what decoding shows of some bytes |
| TimeForm.TimeCanonical | main/o3e_codec.c:511-518 | and what decoding shows of a time that fits is such a text |
| Merge.MergeCurrent | main/poller.c:329-354 | the caller's object keeps its members and gains, in order, every current member whose key it lacks |
| MergeText.MergedByText | main/poller.c:335-353 | printing the current value and parsing it again changes nothing: the merged value encodes to the same payload or is refused the same way |
| MergeText.DecodedDoubles | main/o3e_codec.c:398-648 | every number decoding shows as a double is one |
| MergeText.EncodeAsRead | main/o3e_codec.c:785-1028 | the encoder does not see whether a number was an integer or the double nearest to it: for every tree and value |
| Merge.MergedLookup | main/poller.c:346-351 | a key of the merged object yields the caller's value if the caller gave one, else the current value |
| Merge.WriteNow | main/poller.c:356-437 | a payload is produced exactly when writing is enabled, the datapoint is known and writable or forced, the value parses and the merged value encodes; it is that encoding |
| Merge.WriteKeepsTheRest | main/poller.c:406-437 | for a COMPLEX root whose kept fields are canonical the merged value encodes to the bytes just read with the named fields replaced, and is refused exactly when one of those fields is; when none is, only then |
| Merge.WrittenField | main/o3e_codec.c:907-924 | in that payload each named field's range holds the encoding of the caller's value and every other range the bytes as read |
| Merge.WriteFrame | main/poller.c:406-437 | kept fields canonical: outside the fields the caller named the payload equals what was read |
| Merge.EnumRootIgnoresId | main/poller.c:346-351 | why the frame is about objects: on an ENUM root a caller's ID alone writes the current bytes back |
| JsonSink.LiteralReadsBack | main/o3e_json.c:171-204 | a printed string literal, escapes and all, reads back as the string |
| JsonSink.EscapeMeans | main/o3e_json.c:171-204 | each character's escape: two characters for quote, backslash and the five short controls, six for other controls, itself otherwise |
| JsonReader.TextReadsBack | main/o3e_json.c:206-332 | a JSON reader gives back from the text of a value that value, every number as the nearest double, whatever follows |
| JsonReader.PrintLegible | main/o3e_json.c:290-306 | printed by o3e_json_fmt_double every decoded value has the texts that the reader needs |
| JsonReader.IntegerDenotes | main/o3e_json.c:299-306 | the digits printed for an integer denote it |
| JsonSink.ValuePrinted | main/o3e_json.c:206-332 | the comma/depth state machine run over a value's events prints exactly that value and restores the state |
| JsonSink.PrintedExactly | main/o3e_json.c:216-250 | the text is the ", " / ": " rendering if and only if no container deeper than the comma flags holds two elements; otherwise it is shorter |
| JsonSink.ShallowIsThin | main/o3e_json.c:236-250 | nesting up to 15 never loses a comma |
| JsonSink.Printer.AddQuoted | main/o3e_json.c:171-204 | appends the escaped literal of the string |
| JsonSink.Printer.On | main/o3e_json.c:252-332 | each callback takes the sink's state through the step of its event |
| JsonSink.Printer.Feed | main/o3e_json.c:206-332 | a whole event stream, callback by callback |
| FlatSink.ValueFlattened | main/o3e_flatten.c:29-131 | the path/mark/index state machine sends exactly the recursive topic/value pairs of a value, in order, and restores path and counters |
| FlatSink.PairsCarryLeaves | tools/gen_flat_fixtures.py:20-29 | the recursive pairs are the value's leaves, one each, in the order the JSON text has them, and each says its leaf: a string as it is without quotes, an integer in digits that denote it, a double in the formatter's text, null as None |
| FlatSink.MemberPairsAt | tools/gen_flat_fixtures.py:20-25 | a member's leaves are published below the path with its key |
| FlatSink.ItemPairsAt | tools/gen_flat_fixtures.py:24-27 | an entry's leaves are published below the path with its index |
| FlatSink.BuffersEnd | main/o3e_flatten.c:20-62 | in any state a path is cut to 255 characters and a topic to 383, and an array's index is part of the path down to the twelfth level |
| FlatSink.Flattener.On | main/o3e_flatten.c:62-131 | each callback takes path, depth, marks and indices through the step of its event |
| FlatSink.Flattener.Feed | main/o3e_flatten.c:29-131 | a whole event stream, callback by callback |
| Render.NestingBounds | main/o3e_codec.c:398-648 | no payload makes a tree nest containers deeper than the tree says |
| Render.DecodeJson | main/o3e_codec.c:659-685 | the printed text is the JSON text of the decoded value if and only if no comma was lost, and always for nesting up to 15 |
| Render.Flatten | main/o3e_flatten.c:133-145 | for nesting up to 11 and topics that fit, the recursive pairs of the decoded value: both publish modes carry the same leaves |
| IsoTpSender.OnlyThePrefix | main/isotp.c:96-161 | against any peer only a prefix of the canonical segmentation is put on the wire, addressed to the peer; all of it when the send reports success |
| IsoTpSender.NeverBeyondTheBlock | main/isotp.c:124-158 | a monitor reading the log alone: no consecutive frame goes out that the last clear-to-send does not allow, at most BS per grant |
| IsoTpSender.DeliveredExactlyInTime | main/isotp.c:118-158 | instant I/O, one clear-to-send, BS 0, STmin s: success if and only if (n/7 - 1)*s < 3000, n/7 being the number of consecutive frames |
| IsoTpReceiver.OnlyWhatWasHeard | main/isotp.c:163-252 | whatever arrives, OK means the frames on rx_id were some that open nothing and then one uninterrupted in-sequence message with that content |
| IsoTpReceiver.CarriesUnique | main/isotp.c:187-251 | the frames leave no choice about the message they carry |
| IsoTpReceiver.SegmentsCarry | main/isotp.c:96-161 | the canonical segmentation of every payload up to 4095 bytes carries that payload, across all sequence wraps |
| IsoTpReceiver.ReceivedExactlyInTime | main/isotp.c:187-252 | frames of a payload with any foreign frames in between: the payload is received if and only if no time ceiling passes and flow control gets out, and otherwise nothing is |
| IsoTpReceiver.SentIsReceived | main/isotp.c:96-252 | what one node's send delivered, the other's receive takes in as the same payload, exactly when the ceilings hold |
| IsoTpReceiver.AwaitWithin4000 | main/isotp.c:54-94 | waiting for flow control ends within 4000 ms under endless foreign traffic |
| IsoTpReceiver.SendTime | main/isotp.c:96-161 | a send ends within 2*S + 11127 ms for transmissions of at most S, within 2*S + 7127 when it delivers, within S when it is a single frame |
| IsoTpReceiver.RecvTime | main/isotp.c:163-252 | a receive ends within timeout + S + 4000 ms for send cost S, and within the timeout alone when the message is a single frame |
| IsoTpFlow.SingleFrameBytes | main/isotp.c:96-112 | up to seven bytes go out as their length, the bytes and zeros |
| IsoTpFlow.FirstFrameBytes | main/isotp.c:114-116 | the first frame's eight bytes, and how many frames there are in all |
| IsoTpFlow.ConsFrameBytes | main/isotp.c:124-158 | frame k behind the first: its sequence number, its seven bytes of the rest, zeros behind the last |
| IsoTpFlow.SeparationMeans | main/isotp.c:39-51 | milliseconds up to 127, tenths of a millisecond from F1 to F9, else 127 ms |
| IsoTpFlow.FlowAnswered | main/isotp.c:54-94 | what each flow control says, and that it must come within a second |
| IsoTpFlow.WaitsAllowed | main/isotp.c:75-84 | the peer may ask for more time four times in a row and not five times |
| IsoTpFlow.SendReported | main/isotp.c:96-161 | against any peer and driver a send reports a bus error if and only if the driver refused one of its frames, and too long if and only if it is, with nothing sent |
| IsoTpFlow.AnswersFirstFrame | main/isotp.c:196-216 | a receiver with room answers 30 00 STmin: no blocks, its own separation time |
| IsoTpFlow.AnswersTooLong | main/isotp.c:196-209 | one without room answers overflow and gives up |
| IsoTpFlow.GrantedForAll | main/isotp.c:118-158 | a sender that hears that answer within a second is granted everything and listens to nothing more |
| IsoTpPort.AwaitFlowControl | main/isotp.c:54-94 | the loop gives the grant and leaves the bus that the wait specified on the whole bus does |
| IsoTpPort.IsoSend | main/isotp.c:96-161 | the sender's loop over the hardware does what Send says, frame for frame |
| IsoTpPort.SendConsecutive | main/isotp.c:126-160 | the consecutive-frame loop: offset, sequence number, block counter and ceiling |
| IsoTpPort.IsoRecv | main/isotp.c:163-252 | the receiver over the hardware and the caller's array: same result, same bus and frame buffer, and the payload in the front of the array |
| IsoTpPort.RecvConsecutive | main/isotp.c:217-251 | the reassembly loop filling the array |
| Uds.ReadOnlyWhatWasAnswered | main/uds.c:92-120 | a read is OK only if on the wire at most three 7F..78 messages preceded a 62 response with the requested identifier, and then returns exactly the bytes after it |
| Uds.WriteOnlyIfAcknowledged | main/uds.c:122-151 | a write is OK only if the request went out whole and a 6E response with the identifier followed after at most three pending replies |
| UdsWire.ReadOnTheWire | main/uds.c:92-103 | whatever the peer does, a read puts frames carrying 22 and the identifier on the wire, high byte first, then flow control only: all of them on success, else perhaps only the first ones |
| UdsWire.WriteOnTheWire | main/uds.c:122-140 | whatever the peer does, a write of up to 512 bytes puts frames carrying 2E, the identifier and the caller's data on the wire, then flow control only; a longer one sends nothing |
| UdsWire.SendFailureTold | main/uds.c:46-54 | why a request did not go out: no response, too large or a transport failure |
| UdsWire.ReceiveFailureTold | main/uds.c:46-54 | and why no response was received |
| Uds.ReadTime | main/uds.c:59-120 | a read ends within S + P2 + 3*min(5*P2, 5000) + (k + 1)*(S + 4000) ms under any traffic, k <= 3 counting the segmented pending replies |
| Uds.WriteTime | main/uds.c:122-151 | a write ends within 2*S + 7127 + P2 + 3*min(5*P2, 5000) + (k + 1)*(S + 4000) ms under any traffic, k counting the segmented pending replies |
| Uds.ShorterThanTheWait | main/can_port.c:729-752 | with P2 = 1000 and sends of at most 600 ms: every read with at most k segmented pending replies ends inside the 5 + 25 s a waiting task grants if and only if k <= 1, and every write if and only if k = 0 |
| Uds.SlowRead | main/can_port.c:737-752 | a bus on which a read with two segmented pending replies takes 30391 ms, every ceiling kept |
| Uds.SlowWrite | main/can_port.c:737-752 | a bus on which a write with one segmented pending reply and a late clear-to-send takes 30391 ms |
| UdsAnswered.ReadAnswered | main/uds.c:59-120 | a read to which the ECU replies with up to three pending messages and then the positive response, other nodes' frames in between, returns exactly the bytes behind the identifier if and only if its request goes out and every reply is in time, and fails otherwise |
| UdsAnswered.ResponseTaken | main/uds.c:59-90 | any response to either service, with up to three pending messages before it: taken exactly when every message is in time, and then judged positive, negative or unexpected by its bytes |
| UdsAnswered.TooManyPending | main/uds.c:72-88 | a fourth pending message ends the wait, whatever follows |
| UdsAnswered.WriteReplied | main/uds.c:122-151 | a write is acknowledged if and only if its request goes out, every reply is in time and the response is 6E with the identifier |
| UdsAnswered.OwnFramesOnly | main/isotp.c:163-252 | a received message has taken its own frames and no more: what follows on rx_id is still to come |
| Uds.HalSend | main/can_port.c:102-140 | at most four attempts and 600 ms; success if and only if the last attempt went out well; another attempt only after one that went out badly |
| IsoTpPort.AwaitResponse | main/uds.c:59-90 | the pending loop: same verdict and same bus as specified |
| IsoTpPort.UdsReadDid | main/uds.c:92-120 | the read over the hardware: same result as specified, out_len 0 on every failure |
| IsoTpPort.UdsWriteDid | main/uds.c:122-151 | the write over the hardware: same result as specified |
| CollectAsm.Asm.Finish | main/collect_parse.c:6-23 | complete: delivers need bytes; incomplete: counts one abandoned; inactive: nothing |
| CollectAsm.Asm.Begin | main/collect_parse.c:25-41 | the state a first chunk leaves, and delivery at once when it is enough |
| CollectAsm.Asm.Feed | main/collect_parse.c:43-112 | the buffer machine does what the step on values says: same state, same delivery, same count of abandoned messages; the discarded result on interruption is never a message |
| Collect.FeedKeepsValid | main/collect_parse.c:43-112 | active always implies have < need <= 200, and what is delivered has DID 1..9999 and 1..200 bytes |
| Collect.NoMessageUnaccounted | main/collect_parse.c:6-112 | over every frame sequence: active before + begun + whole = delivered + abandoned + active after |
| Collect.OnlyOneUninterruptedRun | main/collect_parse.c:43-112 | a delivered message was opened by one 21 frame and continued in sequence, frame after frame, to the delivering one, and is the bytes these frames carry |
| Collect.HookIsReassembly | main/collect.h:8-31 | for every one-block message (DID 1..9999, 1..200 bytes, three length encodings) its ISO-TP segmentation fed from any reachable state delivers exactly (DID, data) on the last frame and nothing earlier |
| Collect.OneBlockParsed | web/app.js:938-991 | that is what full reassembly and block parsing find in the message |
| CollectSeen.HookSees | main/collect_parse.c:43-112 | for every message of up to 4095 bytes and every reachable state: what the hook delivers of its segmentation is what a walk over the zero-padded body in steps of 112 bytes finds |
| CollectSeen.FirstBlockSeen | web/app.js:959-985 | of the blocks of a message of any length the first is seen if and only if it has DID 1..9999 and 1..200 bytes, and the hook goes on at the next multiple of 112 bytes |
| CollectSeen.FirstBlockOnly | web/app.js:938-991 | up to 118 bytes the hook agrees with full reassembly if and only if there is one block and it is in range, or there is none and the opening frame does not look like one that the padded frames complete |
| CollectSeen.CutOffBlock | main/collect_parse.c:76-88 | a block cut off by the message's length: reassembly finds none, the hook delivers the frame's padding as data |
| CollectSeen.SeventeenthFrameHooked | main/collect_parse.c:66-76 | past the bound: a block ending with the sixteenth consecutive frame lets the hook see the next one too |
| CanTrace.SurpriseExact | main/cantrace.c:234-303 | before the trigger the learned table decides novelty exactly as the whole history would, and the event names the identifier, or the first broken byte with its constant and its new value |
| CanTrace.ClearBitMeansConstant | main/cantrace.c:273-303 | before the trigger a varying bit is clear if and only if that byte was equal in every frame of the identifier |
| CanTrace.NoveltyIs | main/cantrace.c:234-303 | with at most 255 identifiers novelty is: after learning, an unheard identifier or a byte that had been constant in every frame of it |
| CanTrace.TriggerKept | main/cantrace.c:305-343 | over every capture: no hit before the trigger, the event tells of the first hit, and that frame is still in the ring if post + 2 <= capacity (WRITE) or post + 1 <= capacity (NOVEL); a capture that stopped itself has recorded exactly post + 1 (WRITE) or post (NOVEL) frames after it, and has it if and only if so |
| CanTrace.KeptByDefault | main/cantrace.c:168-175 | with the default of half the ring the write request is kept in every ring of three frames or more |
| CanTrace.ControlStops | main/cantrace.c:92-114 | the control event tells of the first change noted, and exactly post + 1 more frames are recorded before the capture stops itself |
| CanTrace.RecordedInOrder | main/cantrace.c:205-232 | what is recorded is the accepted frames in order (range, own exchange left out), up to where recording stopped |
| CanTrace.AllVisible | main/cantrace.c:388-397 | the whole window is readable if and only if the 32-bit frame counter has not just wrapped |
| TraceRing.Trace.Put | main/cantrace.c:205-344 | the static state - ring, cursor, counters, table, trigger - follows the step on the history for every frame |
| TraceRing.Trace.Store | main/cantrace.c:222-232 | the ring goes on holding the last frames of the history, each at its place |
| TraceRing.Trace.Compare | main/cantrace.c:268-303 | byte loop: last, varying bits and the first moved byte, as the statistics' step has them |
| TraceRing.Trace.Note | main/cantrace.c:234-303 | index and statistics hold the updated table, and the trigger fires exactly on a surprise |
| TraceRing.Trace.OnWrite | main/cantrace.c:314-343 | trips on the first write request with its identifier, counts down after it |
| TraceTrigger.WriteTrips | main/cantrace.c:314-343 | the first frame of a message trips an armed write capture if and only if the message is 2E or 77 with at least two bytes behind; the event carries that frame and 256 * hi + lo as its identifier |
| TraceTrigger.OthersDoNot | main/cantrace.c:51-77 | consecutive frames and flow control never trip it |
| TraceTrigger.EventTells | main/cantrace.c:234-343 | whatever tripped the capture, the event has the time, identifier, length and bytes of a recorded frame, and the kind of the capture |
| TraceTrigger.ControlTells | main/cantrace.c:92-114 | a control event has the identifiers and at most eight bytes of the change; anything not armed changes nothing |
| TraceTrigger.RecordedAs | main/cantrace.c:205-232 | a frame in range that is not the gateway's own exchange is recorded with the time since the start in 32 bits and zeros behind its bytes, and no other is |
| TraceTrigger.OwnSkipped | main/cantrace.c:205-220 | the own exchange is only counted |
| TraceTrigger.Configured | main/cantrace.c:126-185 | 65536 frames unless asked otherwise, at most 262144, half of them after the trigger unless asked otherwise, an upside-down range corrected |
| TraceStats.StatsTell | main/cantrace.c:234-303 | over every capture, in every mode: each identifier in the table tells its first frame's time, length and bytes, its last frame's bytes, its last frame's time unless that is the first, the number of frames after the first, and exactly the bytes that changed from one frame to its next while learning |
| TraceStats.HeardOnce | main/cantrace.c:239-248 | an identifier heard once is reported with count 0 and last time 0 |
| TraceStats.NoneLearned | main/cantrace.c:276-280 | without frames in the learning period no byte is ever reported as varying, whatever changes |
| TraceRing.SameRequest | main/cantrace.c:62-75 | the raw buffer and the recorded frame make the same write request, whatever the length code says |
| TraceRing.Trace.NoteControl | main/cantrace.c:92-114 | trips only while running, armed for control and not tripped before |
| TraceRing.Trace.Start | main/cantrace.c:126-185 | a fresh capture with clamped size, corrected range and defaulted post frames; fails exactly when a new ring is needed and memory is not there |
| TraceRing.Trace.Read | main/cantrace.c:388-408 | paging from any index returns exactly those frames of the last min(total, capacity), oldest first, as many as fit |
| Container.RowRoundTrip | tools/gen_dpdb.py:52-59 | a packed record read through the packed struct gives its fields back |
| Container.TableRoundTrip | tools/gen_dpdb.py:115-133 | so does a table of records, whatever its length |
| Container.StoreHolds | tools/gen_dpdb.py:62-78 | every entry added to a blob is found at the offset returned for it |
| Container.StoredOnce | tools/gen_dpdb.py:69-75 | different entries of a blob never overlap |
| DbPacker.Blob.Add | tools/gen_dpdb.py:69-75 | the offset of the entry's only copy, old or new |
| DbPacker.BuildVariants | tools/gen_dpdb.py:192-211 | index and payload of the sorted records, or a failure exactly when a field does not fit its width |
| DbPacker.BuildDatapoints | tools/gen_dpdb.py:115-135 | index, names, payload, German labels and their offsets, or a failure exactly when a field does not fit |
| DbPacker.BuildEnums | tools/gen_dpdb.py:93-112 | index, entries and shared texts of all lists, or a failure exactly when a name is 40 bytes or longer or a field does not fit |
| DbPacker.Pack | tools/gen_dpdb.py:214-231 | header, section table and padded sections, or a failure when an offset does not fit |
| DbPacker.Generate | tools/gen_dpdb.py:234-293 | the twelve-section file of a database |
| DbReader.SectionPlaced | tools/gen_dpdb.py:222-231 | each section lies where the table says, on a multiple of four |
| DbReader.OpenBuilt | main/o3e_db.c:119-212 | opening a built file succeeds and gives exactly the tables it was built from |
| DbLookup.Search | main/o3e_db.c:253-267 | binary search returns a matching row, and the first match or none when the keys rise |
| DbLookup.SearchPair | main/o3e_db.c:271-286 | the same for (did, len) keys |
| DbLookup.Database.OpenFile | main/o3e_db.c:105-212 | open, or closed again after whatever was loaded: the tables are filled section by section and let go when one is missing or cannot be read |
| DbLookup.Database.OpenInner | main/o3e_db.c:119-212 | succeeds if and only if header, version and all twelve sections are there, with exactly their tables |
| DbLookup.Database.Json | main/o3e_db.c:302-315 | the variant for the length, else the general record, as the tables have them |
| DbLookup.Database.EnumText | main/o3e_db.c:362-381 | the list by name, the value by binary search, the text at its offset |
| DbRefine.JsonAgrees | main/o3e_db.c:302-315 | for every database that builds: the (did, len) variant if present and len is not 0, else the general record, else NULL |
| DbRefine.EnumAgrees | main/o3e_db.c:349-381 | o3e_db_enum is the source dictionary, through de-duplicated texts and binary search |
| DbRefine.NamesAgree | main/o3e_db.c:240-251 | names and German labels are the texts that went in |
| DbRefine.MeterAgrees | main/o3e_db.c:324-347 | the same for the meters' broadcast frames |
| DbRefine.TablesSorted | tools/gen_dpdb.py:115-135 | the indices rise strictly, so every binary search is exact |
| DbRefine.Answer | main/o3e_db.c:109-117 | generate, open, look up: both answers are the dictionaries', and opening succeeds exactly when the database could be built |
| DbFormat.DpEntry | tools/gen_dpdb.py:51-58 | the bytes of a datapoint's index entry and what each points to |
| DbFormat.VarEntry | tools/gen_dpdb.py:192-211 | the bytes of a variant's entry: identifier, length, the place of its JSON and how long it is |
| DbFormat.EnumEntry | tools/gen_dpdb.py:93-112 | the bytes of an enum list's entry: its name, where its items start and how many there are |
| DbFormat.ItemEntry | tools/gen_dpdb.py:93-112 | the bytes of an item: its 32-bit value and the place of its text |
| DbFormat.HeaderBytes | tools/gen_dpdb.py:214-221 | magic, format version 3, the database's version and the number of sections, in 32 bytes |
| DbFormat.SectionEntry | tools/gen_dpdb.py:222-231 | name, place and length of each section, the place being behind header, table and padded sections |
| DbFormat.FileParts | tools/gen_dpdb.py:214-234 | header, 32 reserved bytes, table, sections |
| DbFormat.HeaderOpens | main/o3e_db.c:119-152 | any file at all is taken exactly when it begins with O3EDB, has container version 3, one to 32 sections and room for their table, and its version is the text from byte 12 on |
| DbFormat.BuildsExactly | tools/gen_dpdb.py:93-231 | a database is built if and only if every identifier and length fits two bytes, every offset and size four, every enum value 32 bits with sign, every list name 39 bytes, and every section's place 32 bits |
| DbFormat.JsonForMeans | main/o3e_db.c:302-315 | the dictionary's answer in terms of its entries alone |
| DbFormat.TextForMeans | main/o3e_db.c:349-381 | the same for enum texts |
| DbFormat.MeterMeans | main/o3e_db.c:324-347 | the same for meters |
| Hold.ActiveExactly | main/hold.c:68-191 | over every interleaving of starts, stops, looks and returning writes: a slot is active if and only if its last accepted start was not stopped, not found over and fewer than five writes failed since; it carries what that start said |
| Hold.WriteIsOfLatestStart | main/hold.c:137-158 | a write is chosen if and only if none is in flight, the slot is live and the deadline, at most an hour after the start, lies ahead; it carries the latest start's ECU, DID and bytes |
| Hold.FailuresCounted | main/hold.c:171-185 | the failures counted are those of writes chosen since the last start if and only if no write in flight at that start has since failed; else one more |
| Hold.OldFailureCounted | main/hold.c:171-185 | start, look, start again, failure: the new hold has one failure and none of its own writes has failed |
| Hold.SlotsIndependent | main/hold.c:68-191 | what happens to one slot does not affect the other |
| Hold.StartMeans | main/hold.c:68-102 | a start of one second to an hour that is allowed replaces the slot and lasts that long; any other leaves it |
| Hold.GridBytesMean | main/hold.c:240-254 | the six held bytes read back as the watts asked for, sign and all, and the validity |
| Hold.StorageBytesMean | main/hold.c:333-355 | each mode's limits are zero or the open value, per direction |
| Hold.AsJson | main/hold.c:54-64 | the quoted hex text of the bytes when the buffer has room |
| Hold.RawPassesBytes | main/o3e_codec.c:794-812 | held bytes pass through hex JSON and the raw encoder unchanged, exactly when the datapoint has their length |
| Hold.PayloadOf | main/hold.c:158-163 | from snapshot to payload: the held bytes, or nothing is sent |
| Hold.Holder.SlotStart | main/hold.c:68-102 | accepted or refused, and the slot's new state; the other slot unchanged |
| Hold.Holder.SlotStop | main/hold.c:104-125 | the slot becomes inactive and nothing else changes |
| Hold.Holder.LookAt | main/hold.c:138-158 | the locked section: expiry, or the snapshot to write |
| Hold.Holder.Report | main/hold.c:171-185 | success or failure counted, given up at the fifth failure |
| Hold.Holder.GridStart | main/hold.c:240-254 | beyond 6000 W nothing changes; otherwise slot 0 is started with those bytes |
| Hold.Holder.StorageStart | main/hold.c:333-355 | normal stops slot 1, every other mode starts it with its limits |
| Topic.ExpandersAgree | web/app.js:1232-1268 | for every format whose recognised placeholders have specs under 16 and texts under 96 characters both grammars give the same text, unclosed and unknown placeholders included |
| Topic.TopicsAgree | main/mqtt_pub.c:75-127 | the firmware's topic is the browser's cut to the buffer, and equal when it fits |
| Topic.EmptyFormat | main/mqtt_pub.c:85-127 | for an empty format the two name the same topic if and only if the name is empty too and the base fits the buffer |
| Topic.PlaceholderAgrees | main/mqtt_pub.c:51-120 | one placeholder comes out the same if and only if it is not recognised at all, or its spec is under 16 and its text under 96 characters |
| Topic.FirmwareCuts | main/mqtt_pub.c:51-120 | past those sizes: a placeholder with a longer spec is copied as it stands, and 95 characters of a longer text are kept |
| Topic.LongName | main/mqtt_pub.c:85-127 | so a name of 96 characters or more is cut to 95 in the firmware's topic and not in the browser's |
| Topic.SubstituteMeans | main/mqtt_pub.c:51-120 | what each placeholder gives: name, label, the number in decimal, or in hexadecimal digits that denote it, upper case if and only if the letter is, padded with zeros to the width asked for |
| Topic.PlainNumber | main/mqtt_pub.c:51-120 | without a spec a number is its decimal digits |
| Topic.AddressMeans | main/mqtt_pub.c:51-120 | with X or x the address is the hexadecimal digits that denote it, in that case and width |
| Topic.OtherNames | main/mqtt_pub.c:97-120 | a name that is none of the known ones is no placeholder |
| Topic.MatchPlaceholder | main/mqtt_pub.c:51-73 | matches if and only if a closed placeholder of that name with a short spec comes next, and where it ends |
| Topic.Next | main/mqtt_pub.c:97-120 | the substitution the grammar has for the next placeholder |
| Topic.MqttPubTopic | main/mqtt_pub.c:75-127 | override or expanded format, cut to the buffer |
| Topic.ExpandTopic | web/app.js:1232-1268 | override or expanded format, empty format defaulted |
| Contact.WrapIsHarmless | main/contact.c:24-54 | samples less than 2^32 - release ms apart: the wrapping 32-bit counter makes no difference |
| Contact.ActivatedExactly | main/contact.c:29-36 | activation if and only if inactive before and this and the previous sample are active |
| Contact.ReleasedExactly | main/contact.c:37-44 | release if and only if active, the sample is inactive and release ms have passed since the last active one |
| Contact.ActivationsApart | main/contact.c:24-54 | two activations are at least release ms apart, more when the clock moves between the last two samples |
| Contact.EdgesCounted | main/contact.c:46-53 | the edge counter is the number of activations |
| Contact.OneRing | main/contact.c:24-54 | active samples always less than release ms apart count at most one edge |
| Contact.Debouncer.Feed | main/contact.c:24-54 | the fields follow the wrapped step, and the result says whether the state changed |
| DecimalLayout.LayoutDenotes | main/o3e_json.c:70-103 | each of the four layouts denotes exactly the digits times the power of ten |
| DecimalLayout.SameValue | main/o3e_json.c:42-103 | splitting, trimming and laying out keep the number the shortest text denotes |
| DecimalLayout.TrimmedEnds | main/o3e_json.c:58-60 | of the digits exactly the zeros at the end are taken off, up to the first digit |
| DecimalLayout.NotationByExponent | main/o3e_json.c:76-103 | exponential notation if and only if the exponent is not in -4..15; otherwise there is a decimal point |
| DecimalLayout.LayoutFits | main/o3e_json.c:69-103 | 17 digits and a three-digit exponent need at most 24 characters |
| DecimalLayout.Split | main/o3e_json.c:42-60 | sign, digits and exponent of the scientific text |
| DecimalLayout.LayOut | main/o3e_json.c:62-103 | the notation chosen from the exponent, character by character |
| DecimalLayout.Arrange | main/o3e_json.c:42-103 | split, trimmed and laid out, the text denotes what the scientific text denotes |
| ShortestText.SeventeenDigits | main/o3e_json.c:31-39 | seventeen correctly rounded digits read back as the double they were made of |
| ShortestText.ShortestReadsBack | main/o3e_json.c:31-39 | the text chosen reads back as the double, and none with fewer digits does |
| ShortestText.ZeroShown | main/o3e_json.c:31-108 | zero is shown as 0.0, negative zero as -0.0 |
| ShortestText.Search | main/o3e_json.c:31-39 | the loop over the precision stops at that text |
| ShortestText.FmtDouble | main/o3e_json.c:17-108 | NaN, the infinities and every finite double, cut to the caller's buffer; uncut in 25 bytes or more, and then a number text that reads back as the double |

## Left out

- cJSON: values are ordered JSON values; the reader of JsonReader stands for its parser, on the texts the sink prints.
- MergeText.MergedByText: assumes that nesting loses no comma (JsonSink.ShallowIsThin).
- CodecDecoder.DecodeScalar: the texts of the text kinds and the number a FLOAT32 holds are parameters.
- Doubles: overflow to infinity, the coarser doubles below 2^-1022 and the sign of a zero that decoding shows.
- FLOAT32 and COSPHI are outside the round trips of whole trees: the first has its scale on one side only, the second has no encoder. CodecLeaves says what each shows and takes, and when a FLOAT32 comes back. FLOAT32 shows finite numbers only, and the conversion between its bits and their number is a parameter.
- CodecNumbers.IntSurvives: for a scaled number that is not modest the condition is the arithmetic of that number, not a bound; a power-of-ten scale on up to six bytes never gets there (CodecNumbers.PowerScaleExact).
- CodecDecoder.DecodeNode: 30 decimals or more, where round_decimals' 48-byte buffer would cut the text.
- CodecEncoder.EncodeNode: a number outside the 64-bit range for an enum, a BYTEVAL, a Count or a selector is undefined in C; here its low bytes are stored.
- Date, address, version and text kinds: decode only, one opaque text each; the indeterminate text of an empty time field is a parameter.
- The compiler of the codec tree is represented by the well-formedness it gives its trees.
- Error message texts are reduced to which check refused.
- Growable buffers: every allocation of the JSON buffer is granted.
- Sinks: the events of a decode are recorded and then replayed into a sink; the callbacks do not influence the decoder, which ignores what they return.
- Render.Flatten: speaks of nesting below 12 and topics that fit; how the code cuts the others is in FlatSink.BuffersEnd, step by step.
- Container.StoredOnce: speaks of entries that are not empty; the empty one has no bytes to share.
- ISO-TP: the millisecond clock does not wrap and finitely many frames arrive.
- IsoTpPort.IsoRecv: takes a buffer of at least six bytes, as every caller has.
- IsoTpPort.UdsReadDid: the same buffer of at least six bytes.
- IsoTpSender.DeliveredExactlyInTime: one clear-to-send with block size 0; other schedules are covered by the ceilings of IsoTpReceiver.SendTime.
- main/can_port.c: the driver, its queue and its interrupts; only the retry loop and the length of the wait are modelled.
- Collect: channels, queueing and publishing of finished messages.
- Trace: tearing between interrupt and reader, the notification task, sorting of the identifier list. A `DLC` shorter than a write request's identifier leaves the identifier to the raw buffer, as in the code.
- TraceRing.Trace.Put: the two clock readings of a call are arguments; nothing is assumed about their order.
- Database: Python's `sorted` is represented by dictionaries given as items in key order; JSON text is opaque bytes; the E380 table's import and glossary translation supply their results.
- DbLookup.Search: on keys that do not rise it promises a matching row only; the reader does not check the order either.
- DbLookup.Database.EnumText: assumes every list's entries lie inside the entry table, which holds of every built file (DbRefine.TablesConsistent) and which the reader does not check.
- Hold: publishing, logging and the reported watts and mode; the hold task may look at the slots in any order here, a superset of its own.
- Hold.PayloadOf: the two held datapoints are raw ones in the database, which is assumed.
- Topic: characters are compared as characters, not as UTF-8 bytes; a width beyond the range of `int` in a spec is outside the text limit.
- Contact.WrapIsHarmless: sampling gaps of 2^32 ms or more are excluded; the input loop samples every 5 ms.
- The web interface, Home Assistant discovery, KNX, scanning, provisioning, updates and the rest of the firmware.
