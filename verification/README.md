# libpicobt core in Dafny

libpicobt is a small C library for Bluetooth: it discovers nearby devices and their SDP
services, connects to an RFCOMM channel and moves bytes over it. Applications use one API on
Linux (BlueZ) and Windows (Winsock). This project models the library's core and proves what
the core promises:

- **Text codecs** (`src/btutil.c`), module `BtUtil`:
  - Bluetooth addresses as `xx:xx:xx:xx:xx:xx` and as the compact `XXXXXXXXXXXX`.
  - UUIDs as `xxxxxxxx-xxxx-xxxx-xxxx-xxxxxxxxxxxx`.
  - The conversions between the library's UUID and BlueZ's `uuid_t` (16-, 32- or 128-bit), and
    between the library's address and BlueZ's `bdaddr_t`.
  - One generic "grouped hex" renderer and parser gives every text form. The conversions are
    shown to round-trip in both directions and to reject each other's forms.
- **CoD macros and lengths** (`include/picobt/btmain.h`), module `BtDefs`:
  - The four class-of-device field extractors.
  - A proof that the fields partition the 24 CoD bits.
- **SDP record decoder** (`src/btsdp.c`), module `BtSdp`:
  - A recursive reader of type-length-value data elements.
  - An encoder written as its partner.
  - Round trip: every well-formed element tree decodes back from its encoding, wherever it
    sits in a buffer.
  - Two findings, listed below.
  - The in-place endian swap, the sequence loop and the free are also modelled as methods.
- **Device list** (`src/devicelist.c`), module `DeviceList`:
  - A sentinel-terminated linked list of `Node` objects.
  - The list itself: add without duplicates, iteration, size.
  - The line-per-address file format: saving and loading round-trip.
- **Sessions and streams on Linux** (`src/btmain.c`), modules `Discovery` and `Connection`:
  - Device and service inquiry cursors.
  - Looking up a service's channel.
  - Connecting, first-fit channel binding, accepting, closing.
  - `bt_recv`/`bt_read`/`bt_send`/`bt_write` over a byte stream.
- **Backend oracle**, module `Bluez`:
  - BlueZ and the kernel are an oracle handed in as data: inquiry answers, an SDP server and
    an RFCOMM radio.
  - A `Peer` object scripts how a connected socket delivers and accepts bytes.
  - Each operation is specified for every answer the backend may give.

`Byte`, `Addr` (6 bytes) and `Uuid` (16 bytes) are subset types (module `BtTypes`). A C
pointer the callee writes through is a `Ref<T>` object. NULL is `null` (or `None` for a
pointer the callee only reads), and `bt_err_t` is the enumeration `BtErr`.

## Model

| member | source | states |
|---|---|---|
| BtDefs.CodService | include/picobt/btmain.h:43 | the result is below 0x800 and equals CoD bits 13-23 |
| BtDefs.CodMajor | include/picobt/btmain.h:45 | the result is below 0x20 and equals CoD bits 8-12 |
| BtDefs.CodMinor | include/picobt/btmain.h:47 | the result is below 0x40 and equals CoD bits 2-7 |
| BtDefs.CodFormat | include/picobt/btmain.h:49 | the format field is below 4 |
| BtDefs.CodFieldsPartition | include/picobt/btmain.h:42-49 | the four fields put back at their positions rebuild any 24-bit CoD |
| BtDefs.CodFieldsDetermineValue | include/picobt/btmain.h:42-49 | two 24-bit CoD values with equal fields are equal |
| BtUtil.HexDigit | src/btutil.c:36-43 | each digit value prints as a hex digit of the requested case |
| BtUtil.HexValue | src/btutil.c:98-110 | a character has a value exactly when it is a hex digit of either case, and the value is below 16 |
| BtUtil.HexValueOfDigit | src/btutil.c:98-110 | reading a printed digit gives back its value |
| BtUtil.HexDigitOfValue | src/btutil.c:98-110 | printing a read digit in its own case gives back the character |
| BtUtil.Hex2 | src/btutil.c:36 | `%02x` of a byte is two digits of the case, reading back to its high and low nibble |
| BtUtil.Render | src/btutil.c:79-87 | the printed text has the length the format fixes |
| BtUtil.Parse | src/btutil.c:98-110 | a successful scan yields one byte per field and consumed the whole format |
| BtUtil.ParseFieldStep | src/btutil.c:98-110 | scanning two hex digits then the rest is the byte they denote followed by the rest's scan |
| BtUtil.ParseRender | src/btutil.c:79-110 | scanning printed bytes, whatever follows them, gives the bytes back |
| BtUtil.RenderParse | src/btutil.c:79-110 | printing scanned bytes in the text's own case gives back the scanned prefix |
| BtUtil.RenderInCase | src/btutil.c:36-43 | printed text uses only digits of the requested case |
| BtUtil.Fields | src/btutil.c:43 | a format of n bare `%02X` fields has n fields, 2n characters and no hex literal |
| BtUtil.ParseFieldsIff | src/btutil.c:135-147 | n bare fields scan exactly when the first 2n characters are hex digits |
| BtUtil.AddrEqualsFrom | src/btutil.c:58-64 | the loop from byte i says true exactly when the two suffixes are equal |
| BtUtil.AddrEquals | src/btutil.c:58-64 | true exactly when the addresses are equal, byte by byte |
| BtUtil.FormatConcat | src/btutil.c:36-43 | field count, text length and digit-free literals add up over joined formats |
| BtUtil.SepFields | src/btutil.c:38-39 | a separator then n fields has n fields and 2n+1 characters |
| BtUtil.ColonFields | src/btutil.c:36 | k `:%02x` groups have k fields and 3k characters |
| BtUtil.AddrFormat | src/btutil.c:36 | the address format has 6 fields, 17 characters, and starts with a field then a colon |
| BtUtil.CompactFormat | src/btutil.c:43 | the compact format has 6 fields and 12 characters |
| BtUtil.UuidFormat | src/btutil.c:38-39 | the UUID format has 16 fields and 36 characters |
| BtUtil.MsbFirst | src/btutil.c:80-81 | byte i of the printed order is address byte 5-i |
| BtUtil.AddrToStr | src/btutil.c:79-87 | the text plus its nil fills BT_ADDRESS_LENGTH, is lower case and starts with byte 5 then a colon |
| BtUtil.StrToAddr | src/btutil.c:98-110 | fails with BT_ERR_BAD_PARAM exactly when the colon format does not scan |
| BtUtil.AddrToStrCompact | src/btutil.c:119-127 | 12 upper-case hex digits |
| BtUtil.StrCompactToAddr | src/btutil.c:135-147 | succeeds exactly when the first 12 characters are hex digits, otherwise BT_ERR_BAD_PARAM |
| BtUtil.AddrStrRoundTrip | src/btutil.c:79-110 | parsing a printed address, with any tail, gives the address |
| BtUtil.StrAddrRoundTrip | src/btutil.c:79-110 | printing a parsed lower-case address text gives back its first 17 characters |
| BtUtil.AddrStrCompactRoundTrip | src/btutil.c:119-147 | parsing a compact-printed address gives the address |
| BtUtil.StrCompactAddrRoundTrip | src/btutil.c:119-147 | printing a parsed upper-case compact text gives back its first 12 characters |
| BtUtil.CompactRejectsColonForm | src/btutil.c:135-147 | the compact parser refuses every colon-form address |
| BtUtil.ColonRejectsCompactForm | src/btutil.c:98-110 | the colon parser refuses every compact-form address |
| BtUtil.UuidToStr | src/btutil.c:160-166 | the text plus its nil fills BT_UUID_LENGTH and is lower case |
| BtUtil.StrToUuid | src/btutil.c:175-186 | fails with BT_ERR_BAD_PARAM exactly when the UUID format does not scan |
| BtUtil.UuidStrRoundTrip | src/btutil.c:160-186 | parsing a printed UUID, with any tail, gives the UUID |
| BtUtil.StrUuidRoundTrip | src/btutil.c:160-186 | printing a parsed lower-case UUID text gives back its first 36 characters |
| BtUtil.BigEndian32 | src/btutil.c:282-285 | four bytes whose big-endian value is v |
| BtUtil.UuidToUuidT | src/btutil.c:253-257 | the result is a 128-bit uuid_t holding the same 16 bytes |
| BtUtil.UuidTToUuid | src/btutil.c:265-288 | a 128-bit value is copied; any other tag gives the big-endian 16/32-bit value (0 for an unknown tag) followed by the Bluetooth base UUID tail |
| BtUtil.UuidTRoundTrip | src/btutil.c:253-288 | converting to uuid_t and back gives the UUID |
| BtUtil.ShortUuidsWiden | src/btutil.c:265-288 | a 16-bit UUID widens to the same UUID as the 32-bit one of the same value |
| BtUtil.AddrToBdaddr | src/btutil.c:296-299 | the bdaddr holds the six bytes in the same order |
| BtUtil.BdaddrToAddr | src/btutil.c:307-310 | the address holds the six bytes in the same order |
| BtUtil.BdaddrRoundTrip | src/btutil.c:296-310 | the two address conversions are inverse in both directions |
| BtUtil.RenderConcat | src/btutil.c:36-43 | printing under joined formats is the join of the printings |
| BtUtil.RenderFields | src/btutil.c:43 | bare fields print as plain hex |
| BtUtil.RenderColonFields | src/btutil.c:36 | colon groups print as colon-prefixed hex |
| BtUtil.AddrTextLayout | src/btutil.c:79-87 | the address text is byte 5, then `:`-prefixed bytes 4 down to 0 |
| BtUtil.RenderSepFields | src/btutil.c:38-39 | a separator group prints as the separator then plain hex |
| BtUtil.UuidFormatLayout | src/btutil.c:38-39 | the UUID format prints as the 4-2-2-2-6 byte groups joined with dashes |
| BtUtil.UuidTextLayout | src/btutil.c:160-166 | the UUID text is its 4-2-2-2-6 byte groups in hex, joined with dashes |
| BtUtil.MalformedAddressesRejected | tests/test_btutil.c:74-79 | "gibberish", "0123456789ab" and "he:ll:o :wo:rl:d!" are not addresses; a colon address is not a UUID |
| BtUtil.MalformedCompactRejected | tests/test_btutil.c:117-121 | "gibberish" and a colon address are not compact addresses |
| BtUtil.ColonHexExample | tests/test_btmain.c:180 | the tail bytes of the test device print as ":1a:7d:da:71:13" |
| BtUtil.AddressExample | tests/test_btmain.c:102 | the test device's bytes 13 71 da 7d 1a 00 print as "00:1a:7d:da:71:13" |
| BtUtil.Uuid16ExampleBytes | tests/test_btmain.c:259 | the 16-bit UUID 0x1801 widens to 00001801-0000-1000-8000-00805f9b34fb, as bytes |
| BtUtil.Uuid16Example | tests/test_btmain.c:332 | the 16-bit UUID 0x1801 prints as "00001801-0000-1000-8000-00805f9b34fb" |
| BtSdp.ReverseAt | src/btsdp.c:170-174 | byte k of the reversal is byte n-1-k of the input |
| BtSdp.ReadHeader | src/btsdp.c:121-147 | a header read within the buffer gives type = byte >> 3 and size descriptor = byte & 7, and its length fits the buffer |
| BtSdp.ReadElement | src/btsdp.c:107-272 | a decoded element spans at least one byte within the buffer; every failure is BT_ERR_SDP_BAD_RECORD |
| BtSdp.ReadBody | src/btsdp.c:121-272 | a decoded body carries the header's type, descriptor and size and fits the buffer |
| BtSdp.ReadValue | src/btsdp.c:153-269 | a decoded value's payload fits the buffer; every failure is BT_ERR_SDP_BAD_RECORD; NIL with a non-zero size descriptor and the reserved types above URL are always refused |
| BtSdp.ReadNumber | src/btsdp.c:162-175 | a number keeps `size` bytes; it is refused exactly when the size descriptor is above 4 |
| BtSdp.ReadUuid | src/btsdp.c:193-196 | a UUID is the payload bytes; it is refused exactly when the size descriptor is not 1, 2 or 4 |
| BtSdp.ReadText | src/btsdp.c:210-226 | text and URL are refused exactly when the size descriptor is below 5; an empty payload gives a NULL text |
| BtSdp.ReadBool | src/btsdp.c:228-231 | a boolean is the payload byte; it is refused exactly when the size descriptor is not 0 |
| BtSdp.ReadRun | src/btsdp.c:237-262 | a sequence has at least one child, its children fit the buffer and cover at least the declared size |
| BtSdp.ReverseSwapsEndianness | src/btsdp.c:166-175 | the swapped bytes read little-endian give the wire's big-endian value |
| BtSdp.ReverseInvolution | src/btsdp.c:170-174 | swapping twice restores the bytes |
| BtSdp.NumberIsWireValue | src/btsdp.c:162-175 | a decoded number's host value is the big-endian value of its wire payload |
| BtSdp.HeaderBytes | src/btsdp.c:121-147 | the encoded header has the length the decoder expects |
| BtSdp.EncodeLength | src/btsdp.c:143 | an encoded element is recordSize bytes with a size-byte payload |
| BtSdp.EncodeAllLength | src/btsdp.c:252-253 | an encoded run is as long as its children's record sizes added up |
| BtSdp.HeaderRoundTrip | src/btsdp.c:121-147 | an encoded header reads back as the same type, descriptor, size and length |
| BtSdp.BodyDecodes | src/btsdp.c:153-269 | an encoded payload reads back as the element's value |
| BtSdp.NumberBodyDecodes | src/btsdp.c:162-175 | an encoded number reads back as its host bytes |
| BtSdp.NumberDecodes | src/btsdp.c:162-175 | a big-endian wire payload reads back as the host (reversed) bytes |
| BtSdp.UuidBodyDecodes | src/btsdp.c:193-196 | an encoded UUID reads back |
| BtSdp.TextBodyDecodes | src/btsdp.c:210-226 | an encoded text or URL reads back |
| BtSdp.BoolBodyDecodes | src/btsdp.c:228-231 | an encoded boolean reads back |
| BtSdp.DecodeEncode | src/btsdp.c:107-272 | an encoded element decodes back whatever precedes and follows it |
| BtSdp.DecodeEncodedAt | src/btsdp.c:107-272 | an element encoded at any position of a buffer decodes back there |
| BtSdp.ElementFromValue | src/btsdp.c:121-153 | a header and a value that read back make the element read back |
| BtSdp.RunDecodeEncodedAt | src/btsdp.c:237-262 | an encoded run of children decodes back as the same children |
| BtSdp.RunStop | src/btsdp.c:254-256 | the loop ends with the child that reaches the declared size |
| BtSdp.RunStep | src/btsdp.c:252-260 | a child short of the declared size is followed by the rest of the run |
| BtSdp.HeaderExtend | src/btsdp.c:121-147 | a header read in a prefix reads the same in any extension |
| BtSdp.ElementExtend | src/btsdp.c:107-272 | an element that does not overrun a prefix decodes the same in any extension |
| BtSdp.ValueExtend | src/btsdp.c:153-269 | the same for a value |
| BtSdp.RunExtend | src/btsdp.c:237-262 | the same for a run |
| BtSdp.RunStopsAtFirstReach | src/btsdp.c:252-256 | every child but the last ends below the declared size and the last reaches it |
| BtSdp.ParseRecord | src/btsdp.c:58-77 | BT_ERR_BAD_PARAM exactly for NULL data, length <= 0 or NULL out; a decoded record fits the data |
| BtSdp.ParseRecordDecodesEncoding | src/btsdp.c:58-77 | an encoded record parses back |
| BtSdp.ParseRecordReadsPastLength | src/btsdp.c:58-77 | two buffers equal in their first `length` bytes parse differently, one into a record longer than `length` |
| BtSdp.Uint16Example | src/btsdp.c:162-175 | 09 12 34 decodes as the 16-bit unsigned 0x1234 |
| BtSdp.HostValue | src/btsdp.c:166-175 | two host bytes have the value low + 256 * high |
| BtSdp.SequenceOvershootAccepted | src/btsdp.c:254 | a sequence declaring 1 byte whose child takes 3 is accepted |
| BtSdp.LengthByte | src/btsdp.c:129-132 | descriptor 5 takes its size from the next byte and a 2-byte header |
| BtSdp.ParseRecordBounded | src/btsdp.c:58-77 | same parameter errors; never reads past `length`, and a record fits `length` |
| BtSdp.BoundedIgnoresTail | src/btsdp.c:58-77 | bytes after `length` do not change the result |
| BtSdp.BoundedAgreesWhenDone | src/btsdp.c:58-77 | where the bounded parser succeeds the parser as written gives the same record |
| BtSdp.BoundedDecodesEncoding | src/btsdp.c:58-77 | an encoded record of exactly `length` bytes parses back |
| BtSdp.BoundedRejectsOverread | src/btsdp.c:58-77 | both buffers of the finding are malformed within 2 bytes |
| BtSdp.SwapBytes | src/btsdp.c:168-175 | the array afterwards holds its old bytes reversed |
| BtSdp.ReadSequence | src/btsdp.c:242-261 | the do-while loop returns the children the run reader describes |
| BtSdp.FreeElementShallow | src/btsdp.c:288-312 | a sequence frees only its chain cells; those plus the children's own allocations make up the whole |
| BtSdp.FreeElementLeaks | src/btsdp.c:288-312 | a sequence holding one text has two allocations but one chain cell |
| BtSdp.FreeElement | src/btsdp.c:288-312 | every allocation of the tree is freed |
| DeviceList.Node.constructor | src/devicelist.c:42-46 | a new list is a sentinel with no next |
| DeviceList.CellLinks | src/devicelist.c:150-166 | in a valid list cell i links to cell i+1 and holds item i exactly for the items, and the last cell is the sentinel |
| DeviceList.AddItem | src/devicelist.c:150-166 | the address is in the result; an address already present leaves the items alone, and otherwise it is appended |
| DeviceList.AddKeepsNoDuplicates | src/devicelist.c:143-166 | adding keeps the list free of duplicates |
| DeviceList.AddIdempotent | src/devicelist.c:143-166 | adding the same address twice is adding it once |
| DeviceList.NewList | src/devicelist.c:42-46 | a fresh sentinel is a valid empty list |
| DeviceList.ListDelete | src/devicelist.c:54-65 | NULL frees nothing; otherwise every cell is freed once and unlinked |
| DeviceList.AddDevice | src/devicelist.c:150-166 | NULL arguments change nothing; otherwise the list holds AddItem of the address, and a new address gets one fresh sentinel at the end |
| DeviceList.IsEmpty | src/devicelist.c:173-175 | true exactly when the list holds no address |
| DeviceList.IterateList | src/devicelist.c:207-212 | the iterator starts at the head of the list |
| DeviceList.IterateRewind | src/devicelist.c:221-225 | the iterator returns to the head |
| DeviceList.GetNextDevice | src/devicelist.c:234-246 | BAD_PARAM for NULL iterator, address or item; END_OF_ENUM at the sentinel; otherwise the item at the cursor and a step forward |
| DeviceList.GetListSize | src/devicelist.c:185-199 | the number of addresses in the list, 0 for NULL |
| DeviceList.SaveLine | src/devicelist.c:133-134 | a saved line is the address text and a newline, BT_ADDRESS_LENGTH characters |
| DeviceList.SaveLines | src/devicelist.c:129-135 | one line per item, in order |
| DeviceList.LoadLine | src/devicelist.c:90-100 | a line loads only when it has a newline at BT_ADDRESS_LENGTH-1 and the text before it parses as that address |
| DeviceList.LoadInto | src/devicelist.c:90-100 | a loaded line adds its address; another line is skipped |
| DeviceList.LoadSavedLine | src/devicelist.c:90-134 | a saved line loads back as its address |
| DeviceList.LoadSavedLines | src/devicelist.c:90-134 | loading saved lines after a prefix without duplicates appends the items |
| DeviceList.SaveLoadRoundTrip | src/devicelist.c:73-141 | loading a saved duplicate-free list into an empty list gives the same list |
| DeviceList.ListSave | src/devicelist.c:114-141 | BAD_PARAM for a NULL name or list, FILE_NOT_FOUND when the file does not open, otherwise the saved lines of the items |
| DeviceList.ListLoad | src/devicelist.c:73-107 | BAD_PARAM for a NULL name or list; a file that does not open empties the list; otherwise the lines are loaded into the list |
| Bluez.Responses | src/btmain.c:832-834 | a failed search leaves the response list empty |
| Bluez.HangupError | src/btmain.c:1664-1676 | a stream end is SOCKET_CLOSED, except an error other than ECONNRESET, which is ERR_UNKNOWN |
| Bluez.KernelRecv | src/btmain.c:1663 | recv delivers the first pending bytes in order, up to the count asked, or reports the stream's end |
| Bluez.KernelSend | src/btmain.c:1762 | send accepts a prefix of the bytes up to the peer's window, or reports the stream's end |
| Discovery.PackCod | src/btmain.c:413-415 | the CoD is 24 bits with the class bytes at bits 16, 8 and 0 |
| Discovery.PackCodInjective | src/btmain.c:413-415 | different class bytes give different CoD values |
| Discovery.PackedCodFields | src/btmain.c:413-415 | where each btmain.h field of a packed CoD comes from in the three bytes |
| Discovery.CodExample | tests/test_btmain.c:105 | class bytes 04 01 0c give CoD 0x4010c, major 1, minor 3 |
| Discovery.NameOr | src/btmain.c:408-410 | the name when there is one, the placeholder otherwise |
| Discovery.InquiryBegin | src/btmain.c:235-320 | BAD_PARAM for NULL; otherwise a device inquiry on the routed device: UNSUPPORTED with nothing else touched when there is no route, UNKNOWN with the answer block freed and the opened socket closed when the inquiry fails, else a cursor whose pending answers are exactly the radio's answers |
| Discovery.InquiryNext | src/btmain.c:340-425 | BAD_PARAM for NULL or a non-device inquiry, END_OF_ENUM when no answer is left; otherwise the next answer's address, name (or "<unavailable>") and packed CoD, the cursor advances by one and every other field is unchanged |
| Discovery.InquiryEnd | src/btmain.c:434-465 | nothing for NULL or an unopened device; otherwise the answers and name buffer are freed and an open HCI socket is closed once, and every other field is unchanged |
| Discovery.BrowseGroupPrints | src/btmain.c:514 | the public browse group UUID prints as 00001002-0000-1000-8000-00805f9b34fb |
| Discovery.BrowseGroupText | src/btmain.c:514 | a UUID with the browse group's byte groups prints as that text |
| Discovery.BrowseGroupParses | src/btmain.c:513-516 | the text parses to the public browse group UUID |
| Discovery.BrowseGroupIsShort | src/btmain.c:513-516 | the browse group is the 16-bit UUID 0x1002 widened |
| Discovery.SearchClass | src/btmain.c:512-516 | a NULL class searches the public browse group, any other class itself |
| Discovery.SearchTarget | src/btmain.c:512-516 | the method picks the class SearchClass names |
| Discovery.ServicesBegin | src/btmain.c:491-631 | BAD_PARAM for NULL arguments; otherwise a service inquiry that succeeds exactly when the server answers the search, holding its records and buffers, and is DEVICE_NOT_FOUND with no session and the old records and buffers otherwise; the device cursor is untouched |
| Discovery.ServicesNext | src/btmain.c:650-761 | BAD_PARAM for NULL, a non-service inquiry or no session; END_OF_ENUM when no record is left; otherwise the head record is consumed, with placeholders for missing name and description, and UUID and port overwritten only when present; every other field is unchanged |
| Discovery.ServicesEnd | src/btmain.c:769-794 | the session is closed once and both buffers are freed, and every other field is unchanged |
| Connection.LastPortMeaning | src/btmain.c:836-846 | no port exactly when no record has one; otherwise the port of a record after which none has one |
| Connection.FindServiceChannel | src/btmain.c:812-849 | -2 when the server cannot be reached (a reachable server gives -2 only if a record's port is -2), -1 when no record has a port, otherwise the last record's port |
| Connection.ConnectToPort | src/btmain.c:971-1005 | ERR_ALLOCATING_SOCKET without a descriptor, CONNECTION_FAILURE (closing it) when nobody listens, otherwise success; `sock` is valid exactly on success |
| Connection.ConnectToService | src/btmain.c:902-921 | DEVICE_NOT_FOUND for -2, SERVICE_NOT_FOUND for -1; otherwise, on the channel truncated to a byte, ALLOCATING_SOCKET when no socket can be made, CONNECTION_FAILURE with the new socket closed when nothing listens there, and success with that socket otherwise |
| Connection.FirstFree | src/btmain.c:1325-1331 | the first channel from `from` to 31 that binds, or none when none binds |
| Connection.DynamicBindRc | src/btmain.c:1318-1342 | succeeds exactly when the first free channel exists and is not 30, and then reports it |
| Connection.DynamicBindFirstFit | src/btmain.c:1318-1342 | succeeds exactly when some channel 1-31 binds, and reports the first one |
| Connection.FirstFreeSkips | src/btmain.c:1325-1331 | channels that do not bind are skipped |
| Connection.BindOnly15 | tests/test_btmain.c:578-612 | a backend binding only channel 15 gets channel 15 |
| Connection.BindOnlyChannel30 | src/btmain.c:1333-1336 | with only channel 30 free, the code reports failure where first fit finds 30 |
| Connection.AcceptWithTimeout | src/btmain.c:1207-1254 | a ready listener takes the accepted descriptor, which fails when negative; a timeout or a select error leaves `sock` alone |
| Connection.Disconnect | src/btmain.c:1614-1633 | a valid socket is closed and marked invalid; NULL or invalid is left alone |
| Connection.DisconnectTwice | src/btmain.c:1614-1633 | disconnecting twice closes the descriptor once |
| Connection.Recv | src/btmain.c:1651-1681 | success exactly when bytes were asked for and are pending, with those bytes copied in order; otherwise 0 bytes and the stream end as an error |
| Connection.StreamError | src/btmain.c:1663-1676 | a 0 return is SOCKET_CLOSED and an error is mapped through its errno |
| Connection.Read | src/btmain.c:1703-1733 | success exactly when the stream carries the bytes asked for, which then fill the buffer in order; otherwise everything the stream carried, its count, and the end as bt_recv reports it |
| Connection.RecvMore | src/btmain.c:1716-1728 | one round of the loop extends the received prefix of the stream, or finds it used up |
| Connection.Send | src/btmain.c:1750-1780 | success exactly when bytes are offered and the peer takes some, which are delivered in order; otherwise 0 bytes and the end as an error |
| Connection.Write | src/btmain.c:1841-1869 | success exactly when the peer takes all bytes, delivered in order; otherwise what the peer took is delivered and its end is reported |

## Left out

- Windows: the Winsock branches of btmain.c and `bt_uuid_to_guid`/the `BTH_ADDR`
  conversions of btutil.c are not part of this model. Only the Linux (BlueZ) branches are
  modelled.
- `bt_init`, `bt_exit`, `bt_is_present`, `bt_get_device_name`, `bt_bind`,
  `bt_bind_to_channel`, `bt_listen`, `bt_accept`, `bt_register_service`,
  `bt_wait_for_connection`, `bt_set_timeout`, `bt_get_socket_channel` and `async_connect`
  are not modelled. They are mostly calls into BlueZ, but some carry logic of their own
  that is left out with them. `bt_accept` (src/btmain.c:1286-1298) reads the listener's
  receive timeout, sets BT_ERR_UNKNOWN when that read fails, then overwrites it with the
  result of `bt_accept_with_timeout`. Their channel probe (`dynamic_bind_rc`) and
  `bt_accept_with_timeout` are modelled.
- Discovery.InquiryBegin: the `cached` flag only chooses `IREQ_CACHE_FLUSH`, and the
  256-answer cap belongs to `hci_inquiry`; neither is modelled, and the answers are a
  parameter.
- `bt_send_to_list` (src/devicelist.c:256-286) is not modelled. It returns at once when
  the list, the service or the message is NULL or the length is 0 (src/devicelist.c:265-266).
  Otherwise it walks the list with `bt_iterate_list` and `bt_get_next_device`, connects to
  each device with `bt_connect_to_service` and writes the message with `bt_write`. It
  calls `bt_disconnect` after a successful connect, and also after a connection failure
  (src/devicelist.c:274-281). Each of those steps is modelled on its own
  (DeviceList.IterateList, DeviceList.GetNextDevice, Connection.ConnectToService,
  Connection.Write, Connection.Disconnect), but the loop that chains them is not.
- DynamicBindRc: `errno = EINVAL` on the channel-30 failure is not modelled.
- AcceptWithTimeout: the `select` wait and the 20-second timeout set on the accepted socket
  are not modelled. `select` and `accept` results are parameters.
- I/O is data:
  - files are a `File` value (a NULL name, a file that does not open, or its lines);
  - BlueZ is the `Bluez` oracle;
  - logging is dropped.
- ListLoad: `fgets` reads at most 99 characters per call, so a longer line splits. A line
  shorter than 18 characters leaves stale bytes at index 17. The model treats each file line
  whole, and a line without a newline at index 17 is skipped.
- BtUtil.Parse: `sscanf`'s leniency is not modelled. This covers one-digit fields, leading
  whitespace and `0x` prefixes inside fields. The model accepts exactly two hex digits of
  either case per field and ignores trailing text, as `sscanf` does.
- Integer widths: `size_t`, `int` and `uint32_t` are unbounded. SDP sizes wrapping at
  2^32, and `recordSize` overflow, are not modelled. `bt_connect_to_service` truncates the
  channel to `unsigned char`, and that is modelled with `% 256`.
- BtSdp.ReadElement: a read beyond the bytes given is the `Overrun` outcome. The C code
  has undefined behaviour there.
- Memory: `malloc` is not modelled, and neither are its failures, leaks on error paths or
  freeing. The one exception is the SDP free finding below, modelled as allocation counts.
  Partial trees on a failed SDP decode are not released by the code, and the model does not
  track them.
- Connection.Recv, Connection.Read, Connection.Send: the model requires `numBytes` to be
  non-NULL. The C code dereferences `*numBytes` before its NULL check.
- Connection.Recv, Connection.Read: a `Peer` reports its end (a hang-up or an error) only
  after every scripted chunk has been delivered. A stream that times out with EAGAIN and
  then delivers more data cannot be scripted. One Read or Write stops at its first error,
  so every outcome of a single call can still be scripted; what cannot is a later call on
  the same socket that finds data after the timeout.
- Discovery.InquiryNext: `bt_inquiry_t` is a union over device and service state, and
  `device->name` aliases the inquiry's name buffer. The model keeps both as separate fields
  and copies the name.
- Discovery.ServicesBegin, Discovery.ServicesNext: the same union means `bt_services_begin`
  overwrites device-inquiry state when it stores the SDP session and the response list
  (src/btmain.c:605, 624). The model keeps the device fields unchanged. `service->name` and
  `service->description` alias the inquiry's buffers (src/btmain.c:739-740), and the model
  copies them.
- Discovery.ServicesBegin: the SDP server is one oracle, the function from search UUID to
  records. How BlueZ reads each record's attributes is part of that oracle.
- Three behaviours of the code are modelled as written:
  - a sequence stops reading children once the bytes consumed reach or pass its declared
    size (src/btsdp.c:252-256), so a child that overshoots it is accepted
    (BtSdp.SequenceOvershootAccepted);
  - freeing a sequence releases only its chain cells (src/btsdp.c:304-309; second finding
    row);
  - `bt_find_service_channel` keeps the port of the last record that has one
    (src/btmain.c:836-846).

## Findings

| source | as written | input that shows it | evidently intended | confidence | as-written member | corrected member |
|---|---|---|---|---|---|---|
| src/btsdp.c:58-77 | `bt_sdp_parse_record` checks that `length` is positive but never passes it down; the decoder reads as far as the headers say | `length` 2 with data 35 02 08 01 gives a 4-byte record; 35 02 48 00, which agrees in the first 2 bytes, is malformed | decode within the first `length` bytes only | not executed | BtSdp.ParseRecordReadsPastLength | BtSdp.ParseRecordBounded |
| src/btsdp.c:288-312 | `bt_sdp_free_element` frees a sequence's chain cells but not the elements they hold | a sequence holding one text element: two allocations, one freed | free recursively | not executed | BtSdp.FreeElementLeaks | BtSdp.FreeElement |
| src/btmain.c:1333-1336 | `dynamic_bind_rc` treats `check == 31` after the loop as "no channel", but `check` is 31 exactly when channel 30 was bound | only channel 30 bindable: bind succeeds on 30, the function returns -1 | fail only when no channel from 1 to 31 binds | not executed | Connection.BindOnlyChannel30 | Connection.DynamicBindFirstFit |
