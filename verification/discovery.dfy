/**
 * Device and service discovery on Linux (btmain.c): the `bt_inquiry_t`
 * cursor over the answers of a device inquiry and over the response list of
 * an SDP search.
 */
module Discovery {
  import opened BtTypes
  import BtUtil
  import BtDefs
  import opened Bluez

  /** `enum bt_inquiry_type`. */
  datatype Kind = Devices | Services

  /** `bt_device_t`: a discovered device. */
  datatype Device = Device(address: Addr, name: string, cod: bv32)

  /** `bt_service_t`: a service found on a device (the parsed record is not kept). */
  datatype Service = Service(name: string, description: string, uuid: Uuid, port: int)

  /**
   * `bt_inquiry_t` on Linux. The device cursor is the index `current` into
   * `info` with `count` answers still to come; the service cursor is the
   * response list still to come. The `...Buffer` and `infoAllocated` flags
   * stand for the heap blocks the inquiry owns.
   */
  class Inquiry {
    var kind: Kind
    var error: int
    var devId: int
    var socket: int
    var info: seq<InquiryInfo>
    var current: int
    var count: int
    var infoAllocated: bool
    var session: bool
    var response: seq<SdpRecord>
    var nameBuffer: bool
    var descBuffer: bool

    /** The device cursor stays inside the answers of the inquiry. */
    ghost predicate DeviceCursor()
      reads this
    {
      0 <= current && 0 <= count && current + count <= |info|
    }

    /** The answers `bt_inquiry_next` has still to yield, in order. */
    ghost function Pending(): seq<InquiryInfo>
      reads this
      requires DeviceCursor()
    {
      info[current..current + count]
    }
  }

  // ---------------------------------------------------------------------
  // Class of device
  // ---------------------------------------------------------------------

  /** `bt_inquiry_next`'s CoD: the three class bytes as one 24-bit value, first byte highest. */
  function PackCod(c: DevClass): (cod: bv32)
    ensures cod < 0x100_0000
    ensures cod >> 16 == c[0] as bv32
    ensures (cod >> 8) & 0xff == c[1] as bv32
    ensures cod & 0xff == c[2] as bv32
  {
    ((c[0] as bv32) << 16) | ((c[1] as bv32) << 8) | (c[2] as bv32)
  }

  /** Equal CoD values come from equal class bytes. */
  lemma PackCodInjective(c: DevClass, d: DevClass)
    requires PackCod(c) == PackCod(d)
    ensures c == d
  {
    PackCodHigh(c, d);
    PackCodMiddle(c, d);
    PackCodLow(c, d);
    SameBytes(c, d);
  }

  lemma PackCodHigh(c: DevClass, d: DevClass)
    requires PackCod(c) == PackCod(d)
    ensures c[0] == d[0]
  {
    WidenInjective(c[0], d[0]);
  }

  lemma PackCodMiddle(c: DevClass, d: DevClass)
    requires PackCod(c) == PackCod(d)
    ensures c[1] == d[1]
  {
    WidenInjective(c[1], d[1]);
  }

  lemma PackCodLow(c: DevClass, d: DevClass)
    requires PackCod(c) == PackCod(d)
    ensures c[2] == d[2]
  {
    WidenInjective(c[2], d[2]);
  }

  lemma SameBytes(c: DevClass, d: DevClass)
    requires c[0] == d[0] && c[1] == d[1] && c[2] == d[2]
    ensures c == d
  {
  }

  lemma WidenInjective(x: bv8, y: bv8)
    requires x as bv32 == y as bv32
    ensures x == y
  {
  }

  /**
   * Where the btmain.h fields of a packed CoD come from: the format and minor
   * class are the low and high bits of the last byte, the major class the low
   * five bits of the middle byte, and the service classes the first byte above
   * the top three bits of the middle byte.
   */
  lemma PackedCodFields(c: DevClass)
    ensures BtDefs.CodFormat(PackCod(c)) == (c[2] as bv32) & 3
    ensures BtDefs.CodMinor(PackCod(c)) == (c[2] as bv32) >> 2
    ensures BtDefs.CodMajor(PackCod(c)) == (c[1] as bv32) & 0x1f
    ensures BtDefs.CodService(PackCod(c)) == ((c[0] as bv32) << 3) | ((c[1] as bv32) >> 5)
  {
  }

  /** The class bytes 04 01 0c of the inquiry tests: CoD 0x4010c, a laptop (major 1, minor 3). */
  lemma CodExample(c: DevClass)
    requires c == [0x04, 0x01, 0x0c]
    ensures PackCod(c) == 0x4010c
    ensures BtDefs.CodMajor(PackCod(c)) == 1 && BtDefs.CodMinor(PackCod(c)) == 3
    ensures BtDefs.CodService(PackCod(c)) == 0x20 && BtDefs.CodFormat(PackCod(c)) == 0
  {
    PackedCodFields(c);
  }

  // ---------------------------------------------------------------------
  // Device inquiry
  // ---------------------------------------------------------------------

  /**
   * `bt_inquiry_begin`: marks the inquiry as a device inquiry and asks the
   * radio for answers. `route` is what `hci_get_route` gives, `hciSocket` what
   * `hci_open_dev` gives, and `answers` what `hci_inquiry` finds (`None` when
   * it fails). No route is `ErrUnsupported`; a failed inquiry frees the
   * answer block, closes the socket it opened (`closed`) and is
   * `ErrUnknown`; otherwise the cursor starts at the first answer.
   */
  method InquiryBegin(inquiry: Inquiry?, route: int, hciSocket: int, answers: Option<seq<InquiryInfo>>)
    returns (r: BtErr, closed: Option<int>)
    modifies inquiry
    ensures inquiry == null ==> r == ErrBadParam && closed == None
    ensures inquiry != null ==>
      inquiry.kind == Devices && inquiry.error == 0 && inquiry.devId == route
      && inquiry.session == old(inquiry.session) && inquiry.response == old(inquiry.response)
      && inquiry.descBuffer == old(inquiry.descBuffer)
    ensures inquiry != null && route < 0 ==>
      r == ErrUnsupported && closed == None
      && inquiry.socket == old(inquiry.socket) && inquiry.info == old(inquiry.info)
      && inquiry.current == old(inquiry.current) && inquiry.count == old(inquiry.count)
      && inquiry.infoAllocated == old(inquiry.infoAllocated) && inquiry.nameBuffer == old(inquiry.nameBuffer)
    ensures inquiry != null && route >= 0 && answers.None? ==>
      r == ErrUnknown && inquiry.socket == hciSocket && !inquiry.infoAllocated
      && inquiry.info == old(inquiry.info) && inquiry.current == 0 && inquiry.count == -1
      && inquiry.nameBuffer == old(inquiry.nameBuffer)
      && closed == (if hciSocket != INVALID_SOCKET then Some(hciSocket) else None)
    ensures inquiry != null && route >= 0 && answers.Some? ==>
      r == Success && closed == None && inquiry.socket == hciSocket
      && inquiry.infoAllocated && inquiry.nameBuffer
      && inquiry.DeviceCursor() && inquiry.Pending() == answers.value
  {
    closed := None;
    if inquiry == null {
      return ErrBadParam, None;
    }
    inquiry.kind := Devices;
    inquiry.error := 0;
    inquiry.devId := route;
    if route < 0 {
      return ErrUnsupported, None;
    }
    inquiry.socket := hciSocket;
    inquiry.infoAllocated := true;
    inquiry.current := 0;
    if answers.None? {
      inquiry.count := -1;
      inquiry.infoAllocated := false;
      if hciSocket != INVALID_SOCKET {
        closed := Some(hciSocket);
      }
      return ErrUnknown, closed;
    }
    inquiry.info := answers.value;
    inquiry.count := |answers.value|;
    inquiry.nameBuffer := true;
    assert inquiry.info[0..|answers.value|] == answers.value;
    return Success, None;
  }

  /** The name of a device or service, or the placeholder used when it cannot be read. */
  function NameOr(name: Option<string>, placeholder: string): (s: string)
    ensures name.Some? ==> s == name.value
    ensures name.None? ==> s == placeholder
  {
    if name.Some? then name.value else placeholder
  }

  /**
   * `bt_inquiry_next`: yields the device at the cursor (its address, its
   * name or "<unavailable>", and its packed CoD) and advances; at the end it
   * reports `ErrEndOfEnum` and stays put.
   */
  method InquiryNext(inquiry: Inquiry?, device: Ref?<Device>) returns (r: BtErr)
    requires inquiry != null && inquiry.kind == Devices ==> inquiry.DeviceCursor()
    modifies inquiry, device
    ensures r == ErrBadParam <==> inquiry == null || device == null || old(inquiry.kind) != Devices
    ensures r == ErrBadParam || r == ErrEndOfEnum ==> (inquiry != null ==> unchanged(inquiry)) && (device != null ==> unchanged(device))
    ensures r != ErrBadParam ==> (r == ErrEndOfEnum <==> old(inquiry.count) == 0)
    ensures r == ErrEndOfEnum ==> inquiry.Pending() == []
    ensures r == Success ==>
      inquiry != null && device != null && old(inquiry.DeviceCursor()) && inquiry.DeviceCursor()
      && old(inquiry.Pending()) == [old(inquiry.info[inquiry.current])] + inquiry.Pending()
      && device.value == Device(old(inquiry.info[inquiry.current]).bdaddr,
                                NameOr(old(inquiry.info[inquiry.current]).remoteName, "<unavailable>"),
                                PackCod(old(inquiry.info[inquiry.current]).devClass))
      && inquiry.current == old(inquiry.current) + 1 && inquiry.count == old(inquiry.count) - 1
      && inquiry.info == old(inquiry.info) && inquiry.kind == old(inquiry.kind)
      && inquiry.session == old(inquiry.session) && inquiry.response == old(inquiry.response)
      && inquiry.socket == old(inquiry.socket) && inquiry.devId == old(inquiry.devId)
      && inquiry.error == old(inquiry.error) && inquiry.infoAllocated == old(inquiry.infoAllocated)
      && inquiry.nameBuffer == old(inquiry.nameBuffer) && inquiry.descBuffer == old(inquiry.descBuffer)
    ensures r == Success || r == ErrBadParam || r == ErrEndOfEnum
  {
    if inquiry == null || device == null {
      return ErrBadParam;
    }
    if inquiry.kind != Devices {
      return ErrBadParam;
    }
    if inquiry.count == 0 {
      return ErrEndOfEnum;
    }
    var e := inquiry.info[inquiry.current];
    var name := NameOr(e.remoteName, "<unavailable>");
    device.value := Device(e.bdaddr, name, PackCod(e.devClass));
    ghost var pending := inquiry.Pending();
    inquiry.current := inquiry.current + 1;
    inquiry.count := inquiry.count - 1;
    assert pending == [e] + inquiry.Pending();
    return Success;
  }

  /**
   * `bt_inquiry_end`: for an inquiry that reached the radio, frees the
   * answers and the name buffer and closes the HCI socket once; `closed` is
   * the descriptor it closes.
   */
  method InquiryEnd(inquiry: Inquiry?) returns (closed: Option<int>)
    modifies inquiry
    ensures inquiry == null ==> closed == None
    ensures inquiry != null && inquiry.devId < 0 ==> unchanged(inquiry) && closed == None
    ensures inquiry != null && inquiry.devId >= 0 ==>
      !inquiry.infoAllocated && !inquiry.nameBuffer && inquiry.socket == INVALID_SOCKET
      && (closed.Some? <==> old(inquiry.socket) != INVALID_SOCKET)
      && (closed.Some? ==> closed.value == old(inquiry.socket))
      && inquiry.kind == old(inquiry.kind) && inquiry.info == old(inquiry.info)
      && inquiry.current == old(inquiry.current) && inquiry.count == old(inquiry.count)
      && inquiry.session == old(inquiry.session) && inquiry.descBuffer == old(inquiry.descBuffer)
      && inquiry.error == old(inquiry.error) && inquiry.devId == old(inquiry.devId)
      && inquiry.response == old(inquiry.response)
  {
    closed := None;
    if inquiry == null {
      return;
    }
    if inquiry.devId < 0 {
      return;
    }
    inquiry.infoAllocated := false;
    inquiry.nameBuffer := false;
    if inquiry.socket != INVALID_SOCKET {
      closed := Some(inquiry.socket);
      inquiry.socket := INVALID_SOCKET;
    }
  }

  // ---------------------------------------------------------------------
  // Service inquiry
  // ---------------------------------------------------------------------

  /** The public browse group UUID 00001002-0000-1000-8000-00805f9b34fb. */
  const PublicBrowseGroup: Uuid :=
    [0x00, 0x00, 0x10, 0x02, 0x00, 0x00, 0x10, 0x00, 0x80, 0x00, 0x00, 0x80, 0x5f, 0x9b, 0x34, 0xfb]

  const PublicBrowseGroupText: string := "00001002-0000-1000-8000-00805f9b34fb"

  /** The browse group prints as its text form. */
  lemma BrowseGroupPrints()
    ensures BtUtil.UuidToStr(PublicBrowseGroup) == PublicBrowseGroupText
  {
    BrowseGroupText(PublicBrowseGroup);
  }

  /** A UUID with the browse group's five groups prints as its text form. */
  lemma BrowseGroupText(u: Uuid)
    requires u[..4] == [0x00, 0x00, 0x10, 0x02] && u[4..6] == [0x00, 0x00] && u[6..8] == [0x10, 0x00]
    requires u[8..10] == [0x80, 0x00] && u[10..] == [0x00, 0x80, 0x5f, 0x9b, 0x34, 0xfb]
    ensures BtUtil.UuidToStr(u) == PublicBrowseGroupText
  {
    assert "00001002" + ("-" + "0000") + ("-" + "1000") + ("-" + "8000") + ("-" + "00805f9b34fb")
        == PublicBrowseGroupText;
    assert BtUtil.HexString([0x00, 0x00, 0x10, 0x02], false) == "00001002" by {
      BtUtil.HexStringOfTwo(0x00, 0x00);
      BtUtil.HexStringOfTwo(0x10, 0x02);
      assert BtUtil.Hex2(0x00, false) == "00" && BtUtil.Hex2(0x10, false) == "10" && BtUtil.Hex2(0x02, false) == "02";
      BtUtil.HexStringPairs([0x00, 0x00, 0x10, 0x02], [0x00, 0x00], [0x10, 0x02]);
      assert "0000" + "1002" == "00001002";
    }
    BtUtil.BaseUuidGroups();
    BtUtil.UuidTextLayout(u);
  }

  /** The text `bt_services_begin` converts for a NULL class reads as the browse group UUID. */
  lemma BrowseGroupParses()
    ensures BtUtil.StrToUuid(PublicBrowseGroupText) == Ok(PublicBrowseGroup)
  {
    BrowseGroupPrints();
    BtUtil.UuidStrRoundTrip(PublicBrowseGroup, "");
    assert BtUtil.UuidToStr(PublicBrowseGroup) + "" == PublicBrowseGroupText;
  }

  /** The browse group is the 16-bit UUID 0x1002 on the Bluetooth base UUID. */
  lemma BrowseGroupIsShort()
    ensures BtUtil.UuidTToUuid(BtUtil.Uuid16(0x1002)) == PublicBrowseGroup
  {
    assert BtUtil.BigEndian32(0x1002) == [0x00, 0x00, 0x10, 0x02];
  }

  /** The class a service inquiry searches for: the one given, else the public browse group. */
  function SearchClass(serviceClass: Option<Uuid>): (u: Uuid)
    ensures serviceClass.Some? ==> u == serviceClass.value
    ensures serviceClass.None? ==> u == PublicBrowseGroup
  {
    if serviceClass.Some? then serviceClass.value else PublicBrowseGroup
  }

  /**
   * The class `bt_services_begin` searches for: the one given, else the
   * public browse group converted from its text form.
   */
  method SearchTarget(serviceClass: Option<Uuid>) returns (target: Uuid)
    ensures target == SearchClass(serviceClass)
  {
    if serviceClass.None? {
      BrowseGroupParses();
      target := BtUtil.StrToUuid(PublicBrowseGroupText).value;
    } else {
      target := serviceClass.value;
    }
  }

  /**
   * `bt_services_begin`: marks the inquiry as a service inquiry and searches
   * the device's SDP server for the class (the public browse group when none
   * is given). An unreachable server or a failed search leaves no session
   * and reports `ErrDeviceNotFound`; otherwise the response list becomes the
   * cursor.
   */
  method ServicesBegin(inquiry: Inquiry?, device: Option<Addr>, serviceClass: Option<Uuid>, server: SdpServer)
    returns (r: BtErr)
    modifies inquiry
    ensures inquiry == null || device.None? ==> r == ErrBadParam && (inquiry != null ==> unchanged(inquiry))
    ensures inquiry != null && device.Some? ==>
      inquiry.kind == Services && inquiry.error == 0
      && inquiry.info == old(inquiry.info) && inquiry.devId == old(inquiry.devId) && inquiry.socket == old(inquiry.socket)
      && inquiry.current == old(inquiry.current) && inquiry.count == old(inquiry.count)
      && inquiry.infoAllocated == old(inquiry.infoAllocated)
      && (r == Success <==> server.Reachable? && server.search(BtUtil.UuidToUuidT(SearchClass(serviceClass))).Some?)
      && (r != Success ==>
            r == ErrDeviceNotFound && !inquiry.session && inquiry.response == old(inquiry.response)
            && inquiry.nameBuffer == old(inquiry.nameBuffer) && inquiry.descBuffer == old(inquiry.descBuffer))
      && (r == Success ==>
            inquiry.session && inquiry.nameBuffer && inquiry.descBuffer
            && inquiry.response == server.search(BtUtil.UuidToUuidT(SearchClass(serviceClass))).value)
  {
    if inquiry == null || device.None? {
      return ErrBadParam;
    }
    var target := SearchTarget(serviceClass);
    inquiry.kind := Services;
    inquiry.error := 0;
    var uuid := BtUtil.UuidToUuidT(target);
    if server.Unreachable? {
      inquiry.session := false;
      return ErrDeviceNotFound;
    }
    inquiry.session := true;
    var found := server.search(uuid);
    if found.None? {
      inquiry.session := false;
      return ErrDeviceNotFound;
    }
    inquiry.response := found.value;
    inquiry.nameBuffer := true;
    inquiry.descBuffer := true;
    return Success;
  }

  /**
   * `bt_services_next`: pops the record at the head of the response list and
   * describes it: name or "<no name>", description or "<no description>";
   * the UUID and port of `service` are overwritten only when the record has
   * a class and an access-protocol list.
   */
  method ServicesNext(inquiry: Inquiry?, service: Ref?<Service>) returns (r: BtErr)
    modifies inquiry, service
    ensures r == ErrBadParam <==> inquiry == null || service == null || inquiry.kind != Services || !inquiry.session
    ensures r == ErrBadParam || r == ErrEndOfEnum ==> (inquiry != null ==> unchanged(inquiry)) && (service != null ==> unchanged(service))
    ensures r != ErrBadParam ==> (r == ErrEndOfEnum <==> old(inquiry.response) == [])
    ensures r == Success ==>
      inquiry != null && service != null
      && old(inquiry.response) == [old(inquiry.response[0])] + inquiry.response
      && inquiry.kind == old(inquiry.kind) && inquiry.session == old(inquiry.session)
      && inquiry.info == old(inquiry.info) && inquiry.current == old(inquiry.current) && inquiry.count == old(inquiry.count)
      && inquiry.error == old(inquiry.error) && inquiry.devId == old(inquiry.devId) && inquiry.socket == old(inquiry.socket)
      && inquiry.infoAllocated == old(inquiry.infoAllocated)
      && inquiry.nameBuffer == old(inquiry.nameBuffer) && inquiry.descBuffer == old(inquiry.descBuffer)
      && service.value.name == NameOr(old(inquiry.response[0]).name, "<no name>")
      && service.value.description == NameOr(old(inquiry.response[0]).description, "<no description>")
      && service.value.uuid == (match old(inquiry.response[0]).serviceClass
                               case Some(c) => BtUtil.UuidTToUuid(c)
                               case None => old(service.value.uuid))
      && service.value.port == (match old(inquiry.response[0]).accessPort
                               case Some(p) => p
                               case None => old(service.value.port))
    ensures r == Success || r == ErrBadParam || r == ErrEndOfEnum
  {
    if inquiry == null || service == null {
      return ErrBadParam;
    }
    if inquiry.kind != Services {
      return ErrBadParam;
    }
    if !inquiry.session {
      return ErrBadParam;
    }
    if inquiry.response == [] {
      return ErrEndOfEnum;
    }
    var record := inquiry.response[0];
    inquiry.response := inquiry.response[1..];
    var name := NameOr(record.name, "<no name>");
    var description := NameOr(record.description, "<no description>");
    var uuid := service.value.uuid;
    if record.serviceClass.Some? {
      uuid := BtUtil.UuidTToUuid(record.serviceClass.value);
    }
    var port := service.value.port;
    if record.accessPort.Some? {
      port := record.accessPort.value;
    }
    service.value := Service(name, description, uuid, port);
    return Success;
  }

  /**
   * `bt_services_end`: closes the SDP session once and frees the name and
   * description buffers; `closedSession` says whether a session was closed.
   */
  method ServicesEnd(inquiry: Inquiry?) returns (closedSession: bool)
    modifies inquiry
    ensures inquiry == null ==> !closedSession
    ensures inquiry != null ==>
      closedSession == old(inquiry.session)
      && !inquiry.session && !inquiry.nameBuffer && !inquiry.descBuffer
      && inquiry.kind == old(inquiry.kind) && inquiry.response == old(inquiry.response)
      && inquiry.info == old(inquiry.info) && inquiry.socket == old(inquiry.socket)
      && inquiry.error == old(inquiry.error) && inquiry.devId == old(inquiry.devId)
      && inquiry.current == old(inquiry.current) && inquiry.count == old(inquiry.count)
      && inquiry.infoAllocated == old(inquiry.infoAllocated)
  {
    closedSession := false;
    if inquiry == null {
      return;
    }
    if inquiry.session {
      closedSession := true;
      inquiry.session := false;
    }
    inquiry.nameBuffer := false;
    inquiry.descBuffer := false;
  }
}
