/** The controller side of src/sixaxis.rs: the table of known Sony controllers,
    the choice of the device to open, and the byte layouts of the feature
    reports that read and write the paired host address. The HID library is an
    abstract transport: an enumerated device list with an open function
    (`HidApi`) and device handles whose answers are fixed values (`HidDevice`). */
module Sixaxis {
  import opened Wrappers
  import Mac

  type byte = Mac.byte

  /** An unsigned 16-bit value (Rust's `u16`). */
  type u16 = x: int | 0 <= x < 0x1_0000

  /** `USBDeviceId`. */
  datatype USBDeviceId = USBDeviceId(vendor: u16, product: u16)

  /** `SixAxisProtocol`: the two report layouts. */
  datatype Protocol = SixAxis | DualShock4

  /** `KnownDeviceRecord`. */
  datatype KnownDeviceRecord = KnownDeviceRecord(name: string, id: USBDeviceId, protocol: Protocol)

  const SONY_VENDOR_ID: u16 := 0x054C

  /** `KNOWN_DEVICES`. */
  const KNOWN_DEVICES: seq<KnownDeviceRecord> := [
    KnownDeviceRecord("Sony PlayStation 3 Controller", USBDeviceId(SONY_VENDOR_ID, 0x0268), SixAxis),
    KnownDeviceRecord("Sony Move Motion Controller", USBDeviceId(SONY_VENDOR_ID, 0x042F), SixAxis),
    KnownDeviceRecord("Sony DualShock 4 Controller", USBDeviceId(SONY_VENDOR_ID, 0x05C4), DualShock4)
  ]

  /** An error reported by the HID library; its content is not modelled. */
  datatype TransportError = TransportError(message: string)

  /** Why `SixAxisController::open` failed. */
  datatype OpenError =
    | ApiUnavailable(cause: TransportError)  // `HidApi::new` failed
    | ProtocolRequired                       // "Device found, but no protocol specified."
    | OpenFailed(cause: TransportError)      // `api.open` failed on the chosen device
    | NoSupportedDevice                      // "No supported devices found."

  // ---------------------------------------------------------------------------
  // The known-device table

  predicate SameId(a: USBDeviceId, b: USBDeviceId) {
    a.vendor == b.vendor && a.product == b.product
  }

  /** The record the scan of `table` leaves behind for `id`: the loop over the
      table has no `break`, so the LAST matching record wins. */
  function LookupIn(table: seq<KnownDeviceRecord>, id: USBDeviceId): (r: Option<KnownDeviceRecord>)
    ensures r.Some? <==> exists i :: 0 <= i < |table| && SameId(id, table[i].id)
    ensures r.Some? ==> r.value in table && SameId(id, r.value.id)
  {
    if |table| == 0 then None
    else if SameId(id, table[|table| - 1].id) then Some(table[|table| - 1])
    else
      var r := LookupIn(table[..|table| - 1], id);
      assert forall i :: 0 <= i < |table| - 1 ==> table[..|table| - 1][i] == table[i];
      r
  }

  /** The record of `KNOWN_DEVICES` for `id`, if the device is known. */
  function LookupKnown(id: USBDeviceId): (r: Option<KnownDeviceRecord>)
    ensures r.Some? ==> r.value in KNOWN_DEVICES && r.value.id == id
    ensures r.None? ==> forall i :: 0 <= i < |KNOWN_DEVICES| ==> KNOWN_DEVICES[i].id != id
  {
    LookupIn(KNOWN_DEVICES, id)
  }

  /** In a table whose ids are pairwise distinct, the lookup finds THE record
      with the id (so first or last match makes no difference). */
  lemma {:induction false} LookupUnique(table: seq<KnownDeviceRecord>, i: nat)
    requires forall a, b :: 0 <= a < b < |table| ==> !SameId(table[a].id, table[b].id)
    requires i < |table|
    ensures LookupIn(table, table[i].id) == Some(table[i])
  {
    var n := |table| - 1;
    if i < n {
      assert !SameId(table[i].id, table[n].id);
      assert table[..n][i] == table[i];
      LookupUnique(table[..n], i);
    }
  }

  /** `KNOWN_DEVICES`: three Sony controllers with distinct product ids, the
      PlayStation 3 and Move controllers on the SixAxis layout and the
      DualShock 4 on its own. */
  lemma KnownDevicesTable()
    ensures |KNOWN_DEVICES| == 3
    ensures forall i :: 0 <= i < 3 ==> KNOWN_DEVICES[i].id.vendor == 0x054C
    ensures forall a, b :: 0 <= a < b < 3 ==> KNOWN_DEVICES[a].id.product != KNOWN_DEVICES[b].id.product
    ensures LookupKnown(USBDeviceId(0x054C, 0x0268)) == Some(KNOWN_DEVICES[0])
    ensures LookupKnown(USBDeviceId(0x054C, 0x042F)) == Some(KNOWN_DEVICES[1])
    ensures LookupKnown(USBDeviceId(0x054C, 0x05C4)) == Some(KNOWN_DEVICES[2])
    ensures KNOWN_DEVICES[0].protocol == SixAxis && KNOWN_DEVICES[1].protocol == SixAxis
    ensures KNOWN_DEVICES[2].protocol == DualShock4
    ensures forall id :: LookupKnown(id).Some? <==>
      id.vendor == 0x054C && (id.product == 0x0268 || id.product == 0x042F || id.product == 0x05C4)
  {
    LookupUnique(KNOWN_DEVICES, 0);
    LookupUnique(KNOWN_DEVICES, 1);
    LookupUnique(KNOWN_DEVICES, 2);
  }

  // ---------------------------------------------------------------------------
  // Choosing the device to open

  /** Whether enumerated `device` is one `open` would open: it equals the
      explicit id when one is given, and is a known device otherwise. */
  predicate Qualifies(device: USBDeviceId, deviceId: Option<USBDeviceId>) {
    match deviceId
    case Some(filter) => SameId(device, filter)
    case None => LookupKnown(device).Some?
  }

  /** The index of the first qualifying device, `|devices|` when none does. */
  function FirstCandidate(devices: seq<USBDeviceId>, deviceId: Option<USBDeviceId>): (k: nat)
    ensures k <= |devices|
    ensures forall j :: 0 <= j < k ==> !Qualifies(devices[j], deviceId)
    ensures k < |devices| ==> Qualifies(devices[k], deviceId)
  {
    if |devices| == 0 then 0
    else if Qualifies(devices[0], deviceId) then 0
    else 1 + FirstCandidate(devices[1..], deviceId)
  }

  /** What `open` decides before touching any device. */
  datatype Decision =
    | Use(index: nat, protocol: Protocol)  // open `devices[index]` with this protocol
    | MissingProtocol(index: nat)          // `devices[index]` matches, but no protocol is known
    | NoCandidate                          // nothing qualifies

  /** The first qualifying device, with the caller's protocol for an explicit
      id and the table's protocol otherwise. */
  function Decide(devices: seq<USBDeviceId>, deviceId: Option<USBDeviceId>, protocol: Option<Protocol>): (d: Decision)
    ensures d.NoCandidate? <==> forall j :: 0 <= j < |devices| ==> !Qualifies(devices[j], deviceId)
    ensures d.Use? || d.MissingProtocol? ==>
      d.index < |devices| && Qualifies(devices[d.index], deviceId) &&
      forall j :: 0 <= j < d.index ==> !Qualifies(devices[j], deviceId)
    ensures d.Use? && deviceId.Some? ==> protocol == Some(d.protocol)
    ensures d.Use? && deviceId.None? ==> LookupKnown(devices[d.index]).value.protocol == d.protocol
    ensures d.MissingProtocol? <==> deviceId.Some? && protocol.None? && !d.NoCandidate?
  {
    var k := FirstCandidate(devices, deviceId);
    if k == |devices| then NoCandidate
    else if deviceId.Some? then
      (if protocol.Some? then Use(k, protocol.value) else MissingProtocol(k))
    else Use(k, LookupKnown(devices[k]).value.protocol)
  }

  /** The HID library once initialised: the devices it enumerates, in order,
      and what opening a (vendor, product) pair gives. */
  datatype HidApi = HidApi(deviceList: seq<USBDeviceId>, open: USBDeviceId -> Result<HidDevice, TransportError>)

  /** What `SixAxisController::open` returns: the opened handle and the
      protocol, or an error. At most one device is ever opened. */
  function OpenSpec(init: Result<HidApi, TransportError>, deviceId: Option<USBDeviceId>, protocol: Option<Protocol>)
    : (r: Result<(HidDevice, Protocol), OpenError>)
    ensures init.Err? ==> r == Err(ApiUnavailable(init.error))
    ensures r.Ok? ==> init.Ok?
    ensures r.Ok? ==>
      (var k := FirstCandidate(init.value.deviceList, deviceId);
       k < |init.value.deviceList| && init.value.open(init.value.deviceList[k]) == Ok(r.value.0))
    ensures r.Ok? && deviceId.Some? ==> protocol == Some(r.value.1)
    ensures r == Err(ProtocolRequired) ==> deviceId.Some? && protocol.None?
  {
    match init
    case Err(e) => Err(ApiUnavailable(e))
    case Ok(api) =>
      match Decide(api.deviceList, deviceId, protocol)
      case NoCandidate => Err(NoSupportedDevice)
      case MissingProtocol(_) => Err(ProtocolRequired)
      case Use(k, p) =>
        match api.open(api.deviceList[k])
        case Err(e) => Err(OpenFailed(e))
        case Ok(handle) => Ok((handle, p))
  }

  /** With an explicit id, the first enumerated device with that id is chosen,
      and it needs the caller's protocol. */
  lemma ExplicitIdPicksFirstMatch(devices: seq<USBDeviceId>, filter: USBDeviceId, protocol: Option<Protocol>, k: nat)
    requires k < |devices| && SameId(devices[k], filter)
    requires forall j :: 0 <= j < k ==> !SameId(devices[j], filter)
    ensures Decide(devices, Some(filter), protocol) ==
      if protocol.Some? then Use(k, protocol.value) else MissingProtocol(k)
  {
    var k' := FirstCandidate(devices, Some(filter));
    assert !(k' < k) && !(k < k');
  }

  /** Without an explicit id, the first known device is chosen and its protocol
      comes from the table, whatever protocol the caller passed. */
  lemma AutomaticPicksFirstKnown(devices: seq<USBDeviceId>, protocol: Option<Protocol>, k: nat, record: KnownDeviceRecord)
    requires k < |devices| && record in KNOWN_DEVICES && SameId(devices[k], record.id)
    requires forall j :: 0 <= j < k ==> LookupKnown(devices[j]).None?
    ensures Decide(devices, None, protocol) == Use(k, record.protocol)
  {
    var k' := FirstCandidate(devices, None);
    var i :| 0 <= i < |KNOWN_DEVICES| && KNOWN_DEVICES[i] == record;
    KnownDevicesTable();
    LookupUnique(KNOWN_DEVICES, i);
    assert devices[k] == record.id;
    assert !(k' < k) && !(k < k');
  }

  /** `open` reports "No supported devices found." exactly when no enumerated
      device qualifies; without an explicit id it never lacks a protocol. */
  lemma NoCandidateExactly(devices: seq<USBDeviceId>, deviceId: Option<USBDeviceId>, protocol: Option<Protocol>)
    ensures Decide(devices, deviceId, protocol) == NoCandidate <==>
      forall j :: 0 <= j < |devices| ==> !Qualifies(devices[j], deviceId)
    ensures deviceId.None? ==> !Decide(devices, deviceId, protocol).MissingProtocol?
  {
  }

  /** Devices enumerated after the first candidate do not change the decision. */
  lemma DecideKeepsPrefix(devices: seq<USBDeviceId>, longer: seq<USBDeviceId>,
                          deviceId: Option<USBDeviceId>, protocol: Option<Protocol>, k: nat)
    requires FirstCandidate(devices, deviceId) == k < |devices| && k < |longer|
    requires forall j :: 0 <= j <= k ==> longer[j] == devices[j]
    ensures Decide(longer, deviceId, protocol) == Decide(devices, deviceId, protocol)
  {
    var k' := FirstCandidate(longer, deviceId);
    assert !(k' < k) && !(k < k');
  }

  /** If opening the chosen device fails, `open` returns that error and
      later devices are never tried: appending devices after it changes nothing. */
  lemma OpenFailureIsFinal(api: HidApi, deviceId: Option<USBDeviceId>, protocol: Option<Protocol>,
                           k: nat, p: Protocol, e: TransportError, later: seq<USBDeviceId>)
    requires Decide(api.deviceList, deviceId, protocol) == Use(k, p)
    requires api.open(api.deviceList[k]) == Err(e)
    ensures OpenSpec(Ok(api), deviceId, protocol) == Err(OpenFailed(e))
    ensures OpenSpec(Ok(HidApi(api.deviceList[..k + 1] + later, api.open)), deviceId, protocol) == Err(OpenFailed(e))
  {
    var longer := api.deviceList[..k + 1] + later;
    assert forall j :: 0 <= j <= k ==> longer[j] == api.deviceList[j];
    DecideKeepsPrefix(api.deviceList, longer, deviceId, protocol, k);
  }

  /** Two enumerations that agree up to the chosen device give the same outcome. */
  lemma OpenIgnoresLaterDevices(api: HidApi, deviceId: Option<USBDeviceId>, protocol: Option<Protocol>,
                                k: nat, later: seq<USBDeviceId>)
    requires FirstCandidate(api.deviceList, deviceId) == k < |api.deviceList|
    ensures OpenSpec(Ok(HidApi(api.deviceList[..k + 1] + later, api.open)), deviceId, protocol)
         == OpenSpec(Ok(api), deviceId, protocol)
  {
    var longer := api.deviceList[..k + 1] + later;
    assert forall j :: 0 <= j <= k ==> longer[j] == api.deviceList[j];
    DecideKeepsPrefix(api.deviceList, longer, deviceId, protocol, k);
  }

  /** An explicit PlayStation 3 id needs a protocol; a lone DualShock 4 is
      recognised on its own. */
  lemma DecideExamples(rest: seq<USBDeviceId>)
    ensures Decide([USBDeviceId(0x054C, 0x0268)] + rest, Some(USBDeviceId(0x054C, 0x0268)), None) == MissingProtocol(0)
    ensures Decide([USBDeviceId(0x054C, 0x0268)] + rest, Some(USBDeviceId(0x054C, 0x0268)), Some(SixAxis)) == Use(0, SixAxis)
    ensures Decide([USBDeviceId(0x054C, 0x05C4)], None, Some(SixAxis)) == Use(0, DualShock4)
    ensures Decide([USBDeviceId(0x1234, 0x5678)], None, Some(SixAxis)) == NoCandidate
  {
    KnownDevicesTable();
  }

  // ---------------------------------------------------------------------------
  // Feature-report layouts

  const SIXAXIS_REPORT_ID: byte := 0xF5
  const DS4_GET_REPORT_ID: byte := 0x12
  const DS4_SET_REPORT_ID: byte := 0x13

  function GetReportId(p: Protocol): byte {
    match p
    case SixAxis => SIXAXIS_REPORT_ID
    case DualShock4 => DS4_GET_REPORT_ID
  }

  function GetReportLength(p: Protocol): nat {
    match p
    case SixAxis => 8
    case DualShock4 => 16
  }

  function Zeros(n: nat): (z: seq<byte>)
    ensures |z| == n && forall i :: 0 <= i < n ==> z[i] == 0
  {
    seq(n, _ => 0)
  }

  /** The buffer `get_paired_mac` hands to the device: zeros behind the report id. */
  function GetRequest(p: Protocol): (request: seq<byte>)
    ensures |request| == GetReportLength(p) && request[0] == GetReportId(p)
    ensures forall i :: 1 <= i < |request| ==> request[i] == 0
  {
    [GetReportId(p)] + Zeros(GetReportLength(p) - 1)
  }

  /** The octets in reverse order (`<[u8]>::reverse`). */
  function Reverse(s: seq<byte>): (r: seq<byte>)
    ensures |r| == |s|
    ensures forall i :: 0 <= i < |s| ==> r[i] == s[|s| - 1 - i]
  {
    if |s| == 0 then [] else Reverse(s[1..]) + [s[0]]
  }

  /** Reversing twice gives the octets back. */
  lemma ReverseReverse(s: seq<byte>)
    ensures Reverse(Reverse(s)) == s
  {
  }

  /** The address `get_paired_mac` reads from a filled buffer: bytes 2..8 as they
      are for SixAxis, bytes 10..16 reversed for DualShock4. Neither the length
      the device reported nor the header is checked. */
  function DecodeGetReport(p: Protocol, report: seq<byte>): (mac: Mac.MacAddress)
    requires |report| == GetReportLength(p)
    ensures p.SixAxis? ==> forall i :: 2 <= i < 8 ==> mac.octets[i - 2] == report[i]
    ensures p.DualShock4? ==> forall i :: 10 <= i < 16 ==> mac.octets[15 - i] == report[i]
  {
    match p
    case SixAxis => Mac.FromBytes(report[2..8])
    case DualShock4 => Mac.FromBytes(Reverse(report[10..16]))
  }

  function SetReportId(p: Protocol): byte {
    match p
    case SixAxis => SIXAXIS_REPORT_ID
    case DualShock4 => DS4_SET_REPORT_ID
  }

  function SetReportLength(p: Protocol): nat {
    match p
    case SixAxis => 8
    case DualShock4 => 23
  }

  /** The report `set_paired_mac` sends. SixAxis: 8 bytes, 0xF5, a zero, then
      the address as stored. DualShock4: 23 bytes, 0x13, the address reversed,
      then 16 zero bytes (the unused key region). */
  function EncodeSetReport(p: Protocol, mac: Mac.MacAddress): (report: seq<byte>)
    ensures |report| == SetReportLength(p) && report[0] == SetReportId(p)
    ensures p.SixAxis? ==> report[1] == 0 && forall i :: 2 <= i < 8 ==> report[i] == mac.octets[i - 2]
    ensures p.DualShock4? ==> forall i :: 1 <= i < 7 ==> report[i] == mac.octets[6 - i]
    ensures p.DualShock4? ==> forall i :: 7 <= i < 23 ==> report[i] == 0
  {
    match p
    case SixAxis => [SIXAXIS_REPORT_ID, 0] + Mac.AsBytes(mac)
    case DualShock4 => [DS4_SET_REPORT_ID] + Reverse(Mac.AsBytes(mac)) + Zeros(16)
  }

  /** A buffer laid out byte by byte as `EncodeSetReport` states is that report. */
  lemma SetReportLayout(p: Protocol, mac: Mac.MacAddress, report: seq<byte>)
    requires |report| == SetReportLength(p) && report[0] == SetReportId(p)
    requires p.SixAxis? ==> report[1] == 0 && forall i :: 2 <= i < 8 ==> report[i] == mac.octets[i - 2]
    requires p.DualShock4? ==> report[1..7] == Reverse(mac.octets)
    requires p.DualShock4? ==> forall i :: 7 <= i < 23 ==> report[i] == 0
    ensures report == EncodeSetReport(p, mac)
  {
    if p.DualShock4? {
      assert forall i :: 1 <= i < 7 ==> report[i] == report[1..7][i - 1];
    }
  }

  /** A SixAxis set report, read back as a get reply, gives the same address. */
  lemma SixAxisSetReadsBack(mac: Mac.MacAddress)
    ensures DecodeGetReport(SixAxis, EncodeSetReport(SixAxis, mac)) == mac
  {
    var decoded := DecodeGetReport(SixAxis, EncodeSetReport(SixAxis, mac));
    assert decoded.octets == mac.octets;
  }

  /** The DualShock4 address bytes of a set report (offsets 1..7), found at the
      get offsets 10..16 of a reply, decode to the same address. */
  lemma DualShock4SetReadsBack(mac: Mac.MacAddress, reply: seq<byte>)
    requires |reply| == 16
    requires reply[10..16] == EncodeSetReport(DualShock4, mac)[1..7]
    ensures DecodeGetReport(DualShock4, reply) == mac
  {
    var bytes := Mac.AsBytes(mac);
    assert EncodeSetReport(DualShock4, mac)[1..7] == Reverse(bytes);
    ReverseReverse(bytes);
    Mac.BytesRoundTrip(Reverse(Reverse(bytes)), mac);
  }

  /** Different addresses give different set reports. */
  lemma SetReportInjective(p: Protocol, a: Mac.MacAddress, b: Mac.MacAddress)
    requires EncodeSetReport(p, a) == EncodeSetReport(p, b)
    ensures a == b
  {
    match p
    case SixAxis =>
      SixAxisSetReadsBack(a);
      SixAxisSetReadsBack(b);
    case DualShock4 =>
      var reply := Zeros(10) + EncodeSetReport(p, a)[1..7];
      assert reply[10..16] == EncodeSetReport(p, a)[1..7];
      DualShock4SetReadsBack(a, reply);
      DualShock4SetReadsBack(b, reply);
  }

  // ---------------------------------------------------------------------------
  // The transport side of a feature-report query

  /** The buffer after the device has written `data` over `buffer` from offset
      0: what it did not write keeps the request's bytes. */
  function Overlay(buffer: seq<byte>, data: seq<byte>): (r: seq<byte>)
    ensures |r| == |buffer|
    ensures forall i :: 0 <= i < |r| ==> r[i] == if i < |data| then data[i] else buffer[i]
  {
    if |data| >= |buffer| then data[..|buffer|] else data + buffer[|data|..]
  }

  /** The result of `get_paired_mac` when the device answers the query with
      `reply`: a transport error is passed on, and any delivered bytes, of any
      length, are decoded from the buffer they were written into. */
  function ReadPairedMac(p: Protocol, reply: Result<seq<byte>, TransportError>): (r: Result<Mac.MacAddress, TransportError>)
    ensures reply.Err? ==> r == Err(reply.error)
    ensures reply.Ok? && |reply.value| >= GetReportLength(p) ==>
      r == Ok(DecodeGetReport(p, reply.value[..GetReportLength(p)]))
  {
    match reply
    case Err(e) => Err(e)
    case Ok(data) => Ok(DecodeGetReport(p, Overlay(GetRequest(p), data)))
  }

  /** A SixAxis device that answers with the report last set (and anything
      after it) reads back that address. */
  lemma SixAxisReadAfterWrite(mac: Mac.MacAddress, extra: seq<byte>)
    ensures ReadPairedMac(SixAxis, Ok(EncodeSetReport(SixAxis, mac) + extra)) == Ok(mac)
  {
    var written := EncodeSetReport(SixAxis, mac);
    assert Overlay(GetRequest(SixAxis), written + extra) == written;
    SixAxisSetReadsBack(mac);
  }

  /** A DualShock4 reply holding the set report's address bytes at 10..16 reads
      back that address. */
  lemma DualShock4ReadAfterWrite(mac: Mac.MacAddress, data: seq<byte>)
    requires |data| >= 16
    requires data[10..16] == EncodeSetReport(DualShock4, mac)[1..7]
    ensures ReadPairedMac(DualShock4, Ok(data)) == Ok(mac)
  {
    var filled := Overlay(GetRequest(DualShock4), data);
    assert filled == data[..16];
    assert filled[10..16] == data[10..16];
    DualShock4SetReadsBack(mac, filled);
  }

  /** A short SixAxis reply is not rejected: with 7 bytes the last address byte
      is the request's zero. */
  lemma SixAxisShortReplyAccepted(data: seq<byte>)
    requires |data| == 7
    ensures ReadPairedMac(SixAxis, Ok(data)) == Ok(Mac.FromBytes(data[2..7] + [0]))
  {
    var filled := Overlay(GetRequest(SixAxis), data);
    assert filled[2..8] == data[2..7] + [0];
  }

  // ---------------------------------------------------------------------------
  // `get_display_name`

  /** The display name: manufacturer and product, then the serial in
      parentheses when `include_serial` is `Some(true)`; "?" stands for any
      string the device does not supply. */
  function DisplayName(manufacturer: Option<string>, product: Option<string>, serial: Option<string>,
                       includeSerial: Option<bool>): string
  {
    var m := manufacturer.GetOr("?");
    var p := product.GetOr("?");
    if includeSerial.GetOr(false) then m + " " + p + " (" + serial.GetOr("?") + ")"
    else m + " " + p
  }

  /** Missing strings are shown as "?", and the serial only when asked for. */
  lemma DisplayNameDefaults(m: string, p: string, s: string, serial: Option<string>)
    ensures DisplayName(None, None, None, Some(true)) == "? ? (?)"
    ensures DisplayName(None, None, serial, None) == "? ?"
    ensures DisplayName(Some(m), Some(p), Some(s), Some(true)) == m + " " + p + " (" + s + ")"
    ensures DisplayName(Some(m), None, serial, Some(false)) == m + " ?"
  {
  }

  /** The serial number has no effect unless `include_serial` is `Some(true)`. */
  lemma DisplayNameSerialOnlyOnRequest(m: Option<string>, p: Option<string>, s1: Option<string>,
                                       s2: Option<string>, includeSerial: Option<bool>)
    requires includeSerial != Some(true)
    ensures DisplayName(m, p, s1, includeSerial) == DisplayName(m, p, s2, includeSerial)
  {
  }

  // ---------------------------------------------------------------------------
  // Transport handle and controller

  /** An open HID device handle. Its answers are fixed: the strings it
      supplies, what it delivers for a feature-report query by report id, and
      how it takes a report sent to it; `sentReports` records what was sent. */
  class HidDevice {
    const manufacturer: Option<string>
    const product: Option<string>
    const serial: Option<string>
    const featureReply: byte -> Result<seq<byte>, TransportError>
    const sendResult: seq<byte> -> Outcome<TransportError>
    var sentReports: seq<seq<byte>>

    constructor (manufacturer: Option<string>, product: Option<string>, serial: Option<string>,
                 featureReply: byte -> Result<seq<byte>, TransportError>,
                 sendResult: seq<byte> -> Outcome<TransportError>)
      ensures this.manufacturer == manufacturer && this.product == product && this.serial == serial
      ensures this.featureReply == featureReply && this.sendResult == sendResult
      ensures sentReports == []
    {
      this.manufacturer := manufacturer;
      this.product := product;
      this.serial := serial;
      this.featureReply := featureReply;
      this.sendResult := sendResult;
      sentReports := [];
    }

    /** `HidDevice::get_feature_report`: the device writes its answer for the
        report id in `buf[0]` over `buf` and reports how many bytes it wrote. */
    method GetFeatureReport(buf: array<byte>) returns (r: Result<nat, TransportError>)
      requires buf.Length > 0
      modifies buf
      ensures featureReply(old(buf[0])).Err? ==>
        r == Err(featureReply(old(buf[0])).error) && buf[..] == old(buf[..])
      ensures featureReply(old(buf[0])).Ok? ==>
        r.Ok? && buf[..] == Overlay(old(buf[..]), featureReply(old(buf[0])).value)
    {
      var reply := featureReply(buf[0]);
      if reply.Err? {
        return Err(reply.error);
      }
      var data := reply.value;
      var n := if |data| < buf.Length then |data| else buf.Length;
      forall i | 0 <= i < n {
        buf[i] := data[i];
      }
      return Ok(n);
    }

    /** `HidDevice::send_feature_report`. */
    method SendFeatureReport(data: seq<byte>) returns (r: Outcome<TransportError>)
      modifies this
      ensures sentReports == old(sentReports) + [data]
      ensures r == sendResult(data)
    {
      sentReports := sentReports + [data];
      r := sendResult(data);
    }
  }

  /** `<[u8]>::reverse` on an array. */
  method ReverseInPlace(a: array<byte>)
    modifies a
    ensures a[..] == Reverse(old(a[..]))
  {
    var lo, hi := 0, a.Length - 1;
    while lo < hi
      invariant 0 <= lo <= a.Length && hi == a.Length - 1 - lo
      invariant forall i :: 0 <= i < lo ==> a[i] == old(a[a.Length - 1 - i]) && a[a.Length - 1 - i] == old(a[i])
      invariant forall i :: lo <= i <= hi ==> a[i] == old(a[i])
    {
      a[lo], a[hi] := a[hi], a[lo];
      lo, hi := lo + 1, hi - 1;
    }
  }

  /** `SixAxisController`: an open device and the protocol chosen for it. */
  class SixAxisController {
    const device: HidDevice
    const protocol: Protocol

    constructor (device: HidDevice, protocol: Protocol)
      ensures this.device == device && this.protocol == protocol
    {
      this.device := device;
      this.protocol := protocol;
    }

    /** `SixAxisController::open`: scan the enumerated devices in order and
        open the first that qualifies, or fail. */
    static method Open(init: Result<HidApi, TransportError>, deviceId: Option<USBDeviceId>, protocol: Option<Protocol>)
      returns (r: Result<SixAxisController, OpenError>)
      ensures OpenSpec(init, deviceId, protocol).Err? ==> r == Err(OpenSpec(init, deviceId, protocol).error)
      ensures OpenSpec(init, deviceId, protocol).Ok? ==>
        r.Ok? && r.value.device == OpenSpec(init, deviceId, protocol).value.0
              && r.value.protocol == OpenSpec(init, deviceId, protocol).value.1
    {
      if init.Err? {
        return Err(ApiUnavailable(init.error));
      }
      var api := init.value;

      var i := 0;
      while i < |api.deviceList|
        invariant 0 <= i <= |api.deviceList|
        invariant forall j :: 0 <= j < i ==> !Qualifies(api.deviceList[j], deviceId)
      {
        var device := api.deviceList[i];
        var shouldOpen := false;
        var proto := protocol;

        if deviceId.Some? {
          if device.vendor == deviceId.value.vendor && device.product == deviceId.value.product {
            shouldOpen := true;
          }
        } else {
          var j := 0;
          while j < |KNOWN_DEVICES|
            invariant 0 <= j <= |KNOWN_DEVICES|
            invariant shouldOpen == LookupIn(KNOWN_DEVICES[..j], device).Some?
            invariant shouldOpen ==> proto == Some(LookupIn(KNOWN_DEVICES[..j], device).value.protocol)
          {
            var known := KNOWN_DEVICES[j];
            assert KNOWN_DEVICES[..j + 1][..j] == KNOWN_DEVICES[..j];
            if device.vendor == known.id.vendor && device.product == known.id.product {
              proto := Some(known.protocol);
              shouldOpen := true;
            }
            j := j + 1;
          }
          assert KNOWN_DEVICES[..j] == KNOWN_DEVICES;
        }

        if shouldOpen {
          assert FirstCandidate(api.deviceList, deviceId) == i;
          if proto.None? {
            return Err(ProtocolRequired);
          }
          var handle := api.open(device);
          if handle.Err? {
            return Err(OpenFailed(handle.error));
          }
          var controller := new SixAxisController(handle.value, proto.value);
          return Ok(controller);
        }
        i := i + 1;
      }

      return Err(NoSupportedDevice);
    }

    /** `SixAxisController::get_display_name`: the device's manufacturer and
        product strings, and its serial when asked for, "?" for any missing. */
    method GetDisplayName(includeSerial: Option<bool>) returns (name: string)
      ensures name == DisplayName(device.manufacturer, device.product, device.serial, includeSerial)
    {
      var manufacturer := device.manufacturer.GetOr("?");
      var product := device.product.GetOr("?");
      if includeSerial.GetOr(false) {
        var serial := device.serial.GetOr("?");
        return manufacturer + " " + product + " (" + serial + ")";
      }
      return manufacturer + " " + product;
    }

    /** `SixAxisController::get_paired_mac`: query the protocol's get report and
        decode the address from the buffer the device filled. */
    method GetPairedMac() returns (r: Result<Mac.MacAddress, TransportError>)
      ensures r == ReadPairedMac(protocol, device.featureReply(GetReportId(protocol)))
    {
      match protocol
      case SixAxis =>
        var report := new byte[8](_ => 0);
        report[0] := SIXAXIS_REPORT_ID;
        assert report[..] == GetRequest(SixAxis);

        var result := device.GetFeatureReport(report);
        if result.Err? {
          return Err(result.error);
        }

        var macBytes := report[2..8];
        return Ok(Mac.FromBytes(macBytes));
      case DualShock4 =>
        var report := new byte[16](_ => 0);
        report[0] := DS4_GET_REPORT_ID;
        assert report[..] == GetRequest(DualShock4);

        var result := device.GetFeatureReport(report);
        if result.Err? {
          return Err(result.error);
        }

        ghost var filled := report[..];
        assert filled == Overlay(GetRequest(DualShock4), device.featureReply(DS4_GET_REPORT_ID).value);

        var macBytes := new byte[6](_ => 0);
        forall i | 0 <= i < 6 {
          macBytes[i] := report[10 + i];
        }
        assert macBytes[..] == filled[10..16];
        ReverseInPlace(macBytes);
        assert macBytes[..] == Reverse(filled[10..16]);
        return Ok(Mac.FromBytes(macBytes[..]));
    }

    /** `SixAxisController::set_paired_mac`: build the protocol's set report and
        send it; the transport's verdict is the result. */
    method SetPairedMac(mac: Mac.MacAddress) returns (r: Outcome<TransportError>)
      modifies device
      ensures device.sentReports == old(device.sentReports) + [EncodeSetReport(protocol, mac)]
      ensures r == device.sendResult(EncodeSetReport(protocol, mac))
    {
      ghost var sent := device.sentReports;
      match protocol
      case SixAxis =>
        var report := new byte[8](_ => 0);
        report[0] := SIXAXIS_REPORT_ID;
        report[1] := 0;
        var bytes := Mac.AsBytes(mac);
        forall i | 2 <= i < 8 {
          report[i] := bytes[i - 2];
        }
        var data := report[..];
        SetReportLayout(SixAxis, mac, data);
        assert device.sentReports == sent;

        r := device.SendFeatureReport(data);
      case DualShock4 =>
        var macBytes := new byte[6](_ => 0);
        var bytes := Mac.AsBytes(mac);
        forall i | 0 <= i < 6 {
          macBytes[i] := bytes[i];
        }
        assert macBytes[..] == bytes;
        ReverseInPlace(macBytes);

        var report := new byte[23](_ => 0);
        report[0] := DS4_SET_REPORT_ID;
        forall i | 1 <= i < 7 {
          report[i] := macBytes[i - 1];
        }
        assert report[1..7] == macBytes[..];
        var data := report[..];
        SetReportLayout(DualShock4, mac, data);
        assert device.sentReports == sent;

        r := device.SendFeatureReport(data);
    }
  }
}
