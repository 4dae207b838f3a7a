# sixaxispairer core, modelled in Dafny

This project models the core of a small tool that reads and rewrites the Bluetooth
address of the host a Sony controller is paired with, over USB HID feature reports.
Two pieces are modelled.

- **MAC address** (`src/mac.rs`, module `Mac`, file `mac.dfy`). A six-byte value
  is parsed from text and rendered back to it. Parsing splits the text on `:`,
  requires exactly six segments, and reads each segment as Rust's
  `u8::from_str_radix(segment, 16)` does:
  - an optional single leading `+`;
  - one or more hexadecimal digits, upper- or lower-case, leading zeros allowed;
  - a value of at most 255.

  The first segment that fails is reported with its 1-based position and its text.
  `FromString` is imperative, like the source: it fills a six-byte array in a loop.
  It is proved equal to the specification function `Parse`. Formatting writes six
  upper-case, zero-padded hex pairs joined by `:`. Parsing the formatted text gives
  back the same address.
- **Controller** (`src/sixaxis.rs`, module `Sixaxis`, file `sixaxis.dfy`). This part
  covers four things:
  - the table of the three known controllers;
  - the device choice made by `SixAxisController::open`;
  - the byte layouts of the get and set feature reports for the two protocols;
  - the display name.

  The HID library is a transport abstraction. `HidApi` is the enumerated
  `(vendor, product)` list plus the result of opening a pair. `HidDevice` is an
  open handle. It has fixed answers: its manufacturer, product and serial strings
  (read by `GetDisplayName`), the bytes it delivers for a feature-report query by
  report id, and the verdict on a report sent to it. It keeps a log of the
  reports sent to it. `Open` is a static method with the
  source's two nested loops, proved against the specification functions `Decide`
  and `OpenSpec`. `GetPairedMac` and `SetPairedMac` build the report in a
  fixed-size array, as the source does. They are proved against the pure
  functions `GetRequest`, `DecodeGetReport` and `EncodeSetReport`.

The code does not validate a get reply's length or header, although its comments
at src/sixaxis.rs:189 and :204 say "validate result"; the model follows the code.
The device writes its bytes over the request
buffer. The address is then sliced from fixed offsets, whatever the device wrote.
`Overlay` and `ReadPairedMac` state this. `SixAxisShortReplyAccepted` shows that a
7-byte SixAxis reply gives an address whose last byte is the request's zero. It is
not rejected.

## Model

| member | source | states |
|---|---|---|
| `Mac.FromBytes` | src/mac.rs:20-22 | the address built from six bytes gives back exactly those bytes through `as_bytes` |
| `Mac.AsBytes` | src/mac.rs:55-57 | the six bytes returned rebuild the same address |
| `Mac.BytesRoundTrip` | src/mac.rs:55-57 | `as_bytes(from_bytes(b)) == b` and `from_bytes(as_bytes(m)) == m` |
| `Mac.ParseHexByte` | src/mac.rs:38 | `u8::from_str_radix(segment, 16)`: an accepted segment is non-empty, starts with `+` or a hex digit, and holds only hex digits after that; characterised further by the lemmas below |
| `Mac.ShortDigitsAccepted` | src/mac.rs:38 | one or two hex digits always parse, to their hexadecimal value |
| `Mac.LeadingZeroIgnored` | src/mac.rs:38 | a leading `0` does not change whether or how a segment parses (`0FF` reads as 255) |
| `Mac.PlusSignIgnored` | src/mac.rs:38 | one leading `+` is skipped: `+s` parses as `s` when `s` does not itself start with `+` |
| `Mac.DoublePlusRejected` | src/mac.rs:38 | a segment starting with `++` is rejected |
| `Mac.ParseHexByteIgnoresCase` | src/mac.rs:38 | lower- and upper-case digits parse alike |
| `Mac.ParseHexByteRejects` | src/mac.rs:38-39 | empty, `+`, `-1`, `1G` and `100` (above 255) are rejected |
| `Mac.ParseHexByteAccepts` | src/mac.rs:38-39 | `7`, `ff`, `0FF` and `+aB` are accepted with their values 7, 255, 255 and 171 |
| `Mac.Split` | src/mac.rs:29 | `split(':')` gives at least one segment and no segment holds a colon |
| `Mac.SplitCount` | src/mac.rs:29-35 | `split(':')` gives one segment more than there are colons |
| `Mac.JoinSplit` | src/mac.rs:29 | joining the segments of `split(':')` with `:` gives the text back |
| `Mac.SplitJoin` | src/mac.rs:29 | splitting undoes joining for colon-free segments |
| `Mac.FirstInvalid` | src/mac.rs:37-45 | every segment before the returned index parses and the one at it does not |
| `Mac.FirstInvalidIs` | src/mac.rs:37-45 | an index before which every segment parses and at which one does not (or the end) is the first invalid index |
| `Mac.SegmentValues` | src/mac.rs:47-48 | value `j` is what segment `j` parses to |
| `Mac.ParseSegments` | src/mac.rs:29-51 | on the split segments: a count error carries a count other than 6; a bad-segment error names a position in 1..6 whose segment fails, after segments that all parse; success means six segments, segment `j` parsing to byte `j` |
| `Mac.Parse` | src/mac.rs:25-52 | `from_string` on the text: a count error carries the colon count plus one (never 6); a reported bad segment fails to parse and holds no colon, at position 1..6; success needs exactly five colons |
| `Mac.SegmentsFirstBad` | src/mac.rs:37-45 | of six segments, the first one that fails is reported at position `k+1` with its text |
| `Mac.SegmentsAllParse` | src/mac.rs:37-51 | six segments that parse to six values give the address of those values, in order |
| `Mac.FromString` | src/mac.rs:25-52 | the in-place loop over the byte array returns exactly `Parse(text)` |
| `Mac.CountCheckedFirst` | src/mac.rs:29-35 | text without exactly five colons fails with its segment count, whatever its segments contain |
| `Mac.FirstBadSegmentReported` | src/mac.rs:37-45 | with six segments, the first one that does not parse is reported at position `k+1` with its text |
| `Mac.SegmentsSucceed` | src/mac.rs:29-51 | the segments give an address if and only if there are six and all parse; byte `j` is then segment `j`'s value |
| `Mac.ParseSucceeds` | src/mac.rs:29-51 | parsing succeeds if and only if `split(':')` gives six segments that all parse, and byte `j` is segment `j`'s value, in input order |
| `Mac.ParseTwoSegmentExample` | src/mac.rs:29-35 | `ZZ:00` fails with a segment count of 2, not with a bad byte |
| `Mac.ParseShortExample` | src/mac.rs:29-35 | `AA:BB:CC` fails with a segment count of 3 |
| `Mac.ParseBadSegmentExample` | src/mac.rs:37-45 | `ZZ:00:00:00:00:00` fails at position 1 with the segment `ZZ` |
| `Mac.HexPair` | src/mac.rs:12 | `{:02X}` writes two upper-case digits whose value is the byte |
| `Mac.HexPairRoundTrip` | src/mac.rs:12 | parsing a pair written by `{:02X}` gives back the byte |
| `Mac.Format` | src/mac.rs:8-15 | the text is 17 characters long; colons are exactly at positions 2, 5, 8, 11 and 14; every other character is an upper-case hex digit; characters `3k..3k+2` are octet `k`'s pair |
| `Mac.FormatParseRoundTrip` | src/mac.rs:8-52 | parsing the formatted text of any address gives back that address |
| `Sixaxis.LookupIn` | src/sixaxis.rs:108-119 | the scan of the table finds a record exactly when some record has the device's vendor and product, and the record it keeps has that id |
| `Sixaxis.LookupKnown` | src/sixaxis.rs:108-119 | a record found for an id is in `KNOWN_DEVICES` and has exactly that id; nothing found means no record has the id |
| `Sixaxis.LookupUnique` | src/sixaxis.rs:108-119 | when the ids are pairwise distinct, the scan yields THE record with the id (the loop has no `break`, so this is what makes last match equal first match) |
| `Sixaxis.KnownDevicesTable` | src/sixaxis.rs:40-65 | three entries, all vendor 0x054C, distinct products; 0x0268 and 0x042F are SixAxis, 0x05C4 is DualShock4; nothing else is known |
| `Sixaxis.FirstCandidate` | src/sixaxis.rs:91-140 | no device before the returned index qualifies, and the device at it does |
| `Sixaxis.Decide` | src/sixaxis.rs:91-142 | no candidate exactly when no device qualifies; otherwise the index is the first qualifying device; an explicit id uses the caller's protocol (and lacks one exactly when the caller gave none), automatic choice uses the table's |
| `Sixaxis.OpenSpec` | src/sixaxis.rs:78-143 | a failed `HidApi::new` is reported as such; success means the first qualifying device was opened and its handle returned; an explicit id returns the caller's protocol; the protocol error only arises for an explicit id without protocol |
| `Sixaxis.ExplicitIdPicksFirstMatch` | src/sixaxis.rs:95-128 | with an explicit id, the first device whose vendor and product equal it is chosen, with the caller's protocol; without one the result is the missing-protocol error |
| `Sixaxis.AutomaticPicksFirstKnown` | src/sixaxis.rs:106-128 | without an explicit id, the first known device is chosen with the table's protocol, whatever protocol the caller gave |
| `Sixaxis.NoCandidateExactly` | src/sixaxis.rs:91-142 | "No supported devices found." is the outcome exactly when no device qualifies; without an explicit id the protocol is never missing |
| `Sixaxis.OpenFailureIsFinal` | src/sixaxis.rs:130-134 | if opening the chosen device fails, that error is returned, and devices enumerated after it make no difference |
| `Sixaxis.DecideKeepsPrefix` | src/sixaxis.rs:91-128 | enumerations that agree up to the first candidate give the same decision |
| `Sixaxis.OpenIgnoresLaterDevices` | src/sixaxis.rs:91-139 | the outcome depends only on the devices up to and including the chosen one |
| `Sixaxis.DecideExamples` | src/sixaxis.rs:91-142 | explicit PlayStation 3 id: no protocol gives the error, `SixAxis` gives success; a lone DualShock 4 resolves to DualShock4; an unknown device gives no candidate |
| `Sixaxis.SixAxisController.Open` | src/sixaxis.rs:78-143 | the loop over the devices, with its inner loop over the table, returns what `OpenSpec` gives: the same error, or a controller holding the opened handle and the chosen protocol |
| `Sixaxis.GetRequest` | src/sixaxis.rs:179-196 | the request buffer is 8 bytes (SixAxis) or 16 bytes (DualShock4); byte 0 is the report id 0xF5 or 0x12, and the rest are zero |
| `Sixaxis.Reverse` | src/sixaxis.rs:207-208 | element `i` of the result is element `n-1-i` of the input |
| `Sixaxis.ReverseInPlace` | src/sixaxis.rs:234-235 | the array afterwards holds the reverse of its old contents |
| `Sixaxis.ReverseReverse` | src/sixaxis.rs:207-208 | reversing twice gives the bytes back |
| `Sixaxis.DecodeGetReport` | src/sixaxis.rs:189-209 | SixAxis: octet `i-2` is byte `i` for `i` in 2..8; DualShock4: octet `15-i` is byte `i` for `i` in 10..16 |
| `Sixaxis.EncodeSetReport` | src/sixaxis.rs:215-242 | SixAxis: 8 bytes `F5 00` then the octets as stored; DualShock4: 23 bytes, `13`, then the octets reversed at 1..7, then 16 zero bytes |
| `Sixaxis.SetReportLayout` | src/sixaxis.rs:215-242 | a buffer laid out byte by byte as described for the set report is that report |
| `Sixaxis.SixAxisSetReadsBack` | src/sixaxis.rs:189-222 | a SixAxis set report decoded as a get report gives back the address |
| `Sixaxis.DualShock4SetReadsBack` | src/sixaxis.rs:204-240 | DualShock4 set bytes 1..7 placed at get offsets 10..16 decode back to the address |
| `Sixaxis.SetReportInjective` | src/sixaxis.rs:215-242 | different addresses give different set reports for either protocol |
| `Sixaxis.Overlay` | src/sixaxis.rs:184-190 | the filled buffer keeps the request's length; the device's bytes come first and the request's bytes follow |
| `Sixaxis.ReadPairedMac` | src/sixaxis.rs:176-212 | a transport error is passed on; a reply at least as long as the request is decoded from its own first 8 (SixAxis) or 16 (DualShock4) bytes |
| `Sixaxis.SixAxisReadAfterWrite` | src/sixaxis.rs:176-222 | a SixAxis device answering with the report last set, and anything after it, reads back that address |
| `Sixaxis.DualShock4ReadAfterWrite` | src/sixaxis.rs:193-240 | a DualShock4 reply of at least 16 bytes whose bytes 10..16 are the set report's bytes 1..7 reads back that address |
| `Sixaxis.SixAxisShortReplyAccepted` | src/sixaxis.rs:184-191 | a 7-byte SixAxis reply is not rejected; its address ends with the request's zero byte |
| `Sixaxis.SixAxisController.GetPairedMac` | src/sixaxis.rs:176-212 | a transport error is returned as is; otherwise the result is the decoded form of the request buffer after the device wrote its reply into it |
| `Sixaxis.SixAxisController.SetPairedMac` | src/sixaxis.rs:215-253 | exactly one report, `EncodeSetReport(protocol, mac)`, is sent, and the transport's verdict on it is returned |
| `Sixaxis.HidDevice.GetFeatureReport` | src/sixaxis.rs:184 | abstract transport: the device's answer for the report id in byte 0 is written over the buffer from offset 0, or its error is returned and the buffer kept |
| `Sixaxis.HidDevice.SendFeatureReport` | src/sixaxis.rs:225 | abstract transport: the report is appended to the device's log and the device's verdict on it is returned |
| `Sixaxis.SixAxisController.GetDisplayName` | src/sixaxis.rs:148-172 | returns `DisplayName` of the device's own manufacturer, product and serial strings |
| `Sixaxis.DisplayName` | src/sixaxis.rs:148-172 | defined by its body; characterised by `DisplayNameDefaults` and `DisplayNameSerialOnlyOnRequest` |
| `Sixaxis.DisplayNameDefaults` | src/sixaxis.rs:148-172 | `?` stands for each missing string: `? ? (?)` with the serial, `? ?` without it; given strings appear as `m p (s)` |
| `Sixaxis.DisplayNameSerialOnlyOnRequest` | src/sixaxis.rs:162-172 | the serial number has no effect unless `include_serial` is `Some(true)` |

## Left out

- The HID library (`HidApi::new`, `device_list`, `open`, `get_feature_report`, `send_feature_report` and the `get_*_string` calls) is foreign I/O. It appears only as the abstract values `HidApi` and `HidDevice`. A device's answers are fixed for its lifetime, so repeated queries get the same reply.
- `HidDevice.GetFeatureReport` models how the device fills the buffer: its bytes are written from offset 0 and the rest of the buffer is kept. The byte count it returns is ignored, as in the code.
- A failing `get_*_string` and an absent string both become `None` in `DisplayName`; the source collapses them the same way with `unwrap_or(None)`.
- The `println!` progress lines in `open` are left out. They only observe and decide nothing.
- Error messages are modelled as error kinds with their payloads: segment count, position and text, and the transport's cause. The exact strings and boxed error objects are not modelled.
- Releasing the device handle (Rust's `Drop`) is not modelled. No operation here depends on it.
- `src/main.rs` (command-line parsing and printing) is not part of this model. It wires only the `ds4` stubs and `mac`, not `sixaxis`.
- `src/ds4.rs` is not part of this model. It holds stubs that return an all-zero address and success.
- `Sixaxis.SixAxisController.Open`: its contract does not say that the returned controller is freshly allocated.
