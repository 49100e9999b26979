# usbip list: device-list client and local listing

This Dafny project models the core of `usbip list` from usbip-win
(`userspace/src/usbip_list.c`). The core has three parts.

- **The remote listing** (`usbip list -r <host>`), in `query_exported_devices`.
  The client sends an `OP_REQ_DEVLIST` request (an 8-byte common header:
  version 0x0111, code 0x8005, status 0). It then receives the 8-byte
  common reply header and checks its code against `OP_REP_DEVLIST` (0x0005).
  Next comes a 4-byte device count `ndev`, and then, `ndev` times, a 312-byte
  device record followed by exactly `bNumInterfaces` 4-byte interface records.
  Every multi-byte field is in network (big-endian) order. A failed send or
  a short receive ends the pass with -1. Otherwise the function returns
  `ndev`. Each device is printed as it arrives: three header lines, one line
  per interface, and a blank line.
- **The bus-id filter** `is_usb_device`. A sysfs entry name is a USB device
  when it matches `^[0-9]+-[0-9]+(\.[0-9]+)*$`.
- **The local listing** (`usbip list -l`, with or without `-p`), in
  `show_devices` and `show_devices2`. It walks the USB device directory and
  keeps the names that pass the filter. For each one it prints the device
  with its interfaces 0..ninf-1, in a human-readable or a parsable format.

The files:

- `byte_order.dfy` (`ByteOrder`): network-order 16- and 32-bit integers,
  and NUL-padded fixed-width character fields.
- `records.dfy` (`Records`): the common header, the device record and the
  interface record, with their encodings. It also has the protocol
  constants and record sizes.
- `devlist.dfy` (`Devlist`): the reply decoder as pure functions over the
  whole byte stream the server sends and a read cursor. It proves the
  success, failure, size, layout and prefix properties, plus a server-side
  encoder with the round-trip theorem.
- `text.dfy` (`Text`): `%d`, `%8s` and `%2d` formatting.
- `report.dfy` (`Report`): the lines the remote listing prints, including
  those printed before a receive fails.
- `connection.dfy` (`Client`): the socket as a class with a read cursor, and
  `query_exported_devices` as a method. The method is proved to send the
  request, leave the cursor where the decoder stops, return what the
  decoder implies, and print what the report functions say.
- `busid.dfy` (`BusId`): a scanner for the bus-id expression, proved equal to
  an independent character-level description, with the accepted and
  rejected examples.
- `local_list.dfy` (`LocalList`): `show_devices` and `show_devices2` as loop
  methods, proved equal to listing functions. The properties of those
  functions are proved as lemmas.

External inputs are parameters:

- The bytes the server sends, and whether the socket accepts writes.
- The usb.ids name lookups (`NameDb`), as functions.
- The sysfs directory entries, as a sequence in directory order.
- The sysfs attribute reads (`Sysfs`), as functions.
- Output is a sequence of lines without their trailing newlines.

Three behaviours of the code that the model keeps:

- Lines already printed for earlier devices stay printed when a later
  receive fails. The return value is still -1, with no partial count.
- Attribute reads in the local listing never skip an entry. Whatever a
  read yields is printed.
- An `ndev` of 2^31 or more is returned through the C `int` as a negative
  number (`Client.AsInt32`), which the caller treats as failure.

## Model

| member | source | states |
|---|---|---|
| ByteOrder.DecodeU16 | userspace/src/usbip_list.c:100 | a 16-bit field converted from network order, high byte first; DecodeEncodeU16 and EncodeDecodeU16 state what it means |
| ByteOrder.EncodeU16 | userspace/src/usbip_list.c:100 | a 16-bit field is two bytes on the wire |
| ByteOrder.DecodeEncodeU16 | userspace/src/usbip_list.c:100 | converting a 16-bit field from network order gives back the value the server encoded |
| ByteOrder.EncodeDecodeU16 | userspace/src/usbip_list.c:100 | every pair of bytes is the encoding of exactly the value it decodes to, so the conversion is a bijection |
| ByteOrder.DecodeU32 | userspace/src/usbip_list.c:85 | a 32-bit field converted from network order, high half first; DecodeEncodeU32 and EncodeDecodeU32 state what it means |
| ByteOrder.EncodeU32 | userspace/src/usbip_list.c:85 | a 32-bit field is four bytes on the wire |
| ByteOrder.DecodeEncodeU32 | userspace/src/usbip_list.c:85 | converting the 32-bit device count from network order gives back the value the server encoded |
| ByteOrder.EncodeDecodeU32 | userspace/src/usbip_list.c:85 | every four bytes are the encoding of exactly the value they decode to |
| ByteOrder.EncodeU32Bytes | userspace/src/usbip_list.c:85 | the four bytes are the value's bytes from the most significant down (big-endian) |
| ByteOrder.NulIndex | userspace/src/usbip_list.c:108-109 | the string printed with `%s` ends at the first NUL byte of the field: every byte before it is non-NUL; a field with no NUL ends at its width (see Left out) |
| ByteOrder.DecodeEncodeField | userspace/src/usbip_list.c:108-109 | a string that fits its field is printed back unchanged |
| Records.DecodeOpCommon | userspace/src/usbip_list.c:73-77 | the reply header read as version, code and status; DecodeEncodeOpCommon states that nothing is lost |
| Records.EncodeOpCommon | userspace/src/usbip_list.c:67 | the common header is 8 bytes |
| Records.DecodeEncodeOpCommon | userspace/src/usbip_list.c:67-77 | version, code and status of a common header are read back exactly |
| Records.EncodeDevice | userspace/src/usbip_list.c:95 | a device record is 312 bytes |
| Records.DecodeDevice | userspace/src/usbip_list.c:95-106 | bNumInterfaces is byte 311 of the record; converting the record's numeric tail to host order loses nothing: converting it back gives the 24 bytes received |
| Records.DecodeDeviceBytes | userspace/src/usbip_list.c:100 | the three 32-bit and three 16-bit fields of the numeric tail, converted to host order and back, are the bytes received |
| Records.DecodeEncodeDevice | userspace/src/usbip_list.c:95-106 | every field of a device record, in host order, is read back exactly |
| Records.DecodeDeviceNumbers | userspace/src/usbip_list.c:100 | each integer in the record's numeric tail decodes to its own field |
| Records.DecodeInterface | userspace/src/usbip_list.c:115-121 | an interface record read as class, subclass and protocol; DecodeEncodeInterface states that nothing is lost |
| Records.EncodeInterface | userspace/src/usbip_list.c:115 | an interface record is 4 bytes |
| Records.DecodeEncodeInterface | userspace/src/usbip_list.c:115-125 | class, subclass and protocol of an interface are read back exactly |
| Devlist.ToHost | userspace/src/usbip_list.c:100 | a complete device converted to host order carries exactly as many interfaces as it declares |
| Devlist.Listing | userspace/src/usbip_list.c:88-121 | the listing has one device per device received, in order; each one is consistent, with exactly bNumInterfaces interfaces, and carries the interfaces as received |
| Devlist.Received | userspace/src/usbip_list.c:95 | a receive of n bytes delivers n bytes |
| Devlist.ReceivedSlice | userspace/src/usbip_list.c:95 | those bytes are the stream's next n bytes |
| Devlist.InterfaceAtRecord | userspace/src/usbip_list.c:115-125 | the interface at a cursor is the decoded 4-byte record there |
| Devlist.DecodeInterfaces | userspace/src/usbip_list.c:112-119 | receiving interfaces never moves the cursor past the end of the stream |
| Devlist.DecodeEntry | userspace/src/usbip_list.c:95-128 | receiving a device never moves the cursor past the end of the stream |
| Devlist.DecodeDevices | userspace/src/usbip_list.c:88-131 | receiving devices never moves the cursor past the end of the stream |
| Devlist.DecodeReply | userspace/src/usbip_list.c:73-131 | receiving the reply never moves the cursor past the end of the stream |
| Devlist.HandshakeFailures | userspace/src/usbip_list.c:63-83 | a short reply header, a code other than OP_REP_DEVLIST, or a missing device count each end the pass before any device is read |
| Devlist.EmptyDeviceList | userspace/src/usbip_list.c:79-88 | ndev = 0 yields an empty list and reads nothing past the count |
| Devlist.InterfacesOutcome | userspace/src/usbip_list.c:112-119 | the m interfaces are received exactly when 4m bytes remain; otherwise the receive of the first interface that does not fit fails |
| Devlist.EntryOutcome | userspace/src/usbip_list.c:95-119 | a device is received exactly when its record and all declared interfaces fit; a short record fails as the record, a short interface list as one of its interfaces |
| Devlist.DevicesOutcome | userspace/src/usbip_list.c:88-99 | success returns exactly n devices; failure names a device below n |
| Devlist.ReplyOutcome | userspace/src/usbip_list.c:73-88 | a successful reply carried OP_REP_DEVLIST and exactly the declared number of devices |
| Devlist.DevicesLast | userspace/src/usbip_list.c:88-131 | a pass over n devices is a pass over n-1 followed by one complete entry where that pass stopped |
| Devlist.DevicesSnoc | userspace/src/usbip_list.c:88-131 | a pass over n-1 devices followed by one more entry is a pass over n |
| Devlist.SizeAppend | userspace/src/usbip_list.c:95-128 | one more device adds 312 + 4M bytes to the total |
| Devlist.DevicesSize | userspace/src/usbip_list.c:95-128 | after n devices the cursor has advanced by exactly the sum of 312 + 4M_i |
| Devlist.ReplyConsumed | userspace/src/usbip_list.c:79-128 | a successful reply reads 8 + 4 + sum(312 + 4M_i) bytes |
| Devlist.DevicesComplete | userspace/src/usbip_list.c:112 | every device received has exactly bNumInterfaces interfaces |
| Devlist.ReplyComplete | userspace/src/usbip_list.c:112 | every device of a successful reply has exactly bNumInterfaces interfaces |
| Devlist.InterfacesLayout | userspace/src/usbip_list.c:112-121 | interface j is the record 4j bytes past the cursor, so interfaces keep the order received |
| Devlist.EntryLayout | userspace/src/usbip_list.c:95-121 | a device is the record at the cursor followed immediately by its interfaces |
| Devlist.DevicesLayout | userspace/src/usbip_list.c:88-131 | device k starts exactly where devices 0..k-1 with all their interfaces end |
| Devlist.DevicesFailurePersists | userspace/src/usbip_list.c:95-99 | once a receive fails, no later device is read |
| Devlist.DevicesFailureContext | userspace/src/usbip_list.c:95-119 | a failure at device i means devices 0..i-1 arrived in full and device i's receive came up short |
| Devlist.DevicesPrefixOk | userspace/src/usbip_list.c:88-99 | a successful pass over n devices succeeded on the first n-1 and on the n-th |
| Devlist.DevicesStep | userspace/src/usbip_list.c:88-99 | two streams that agree on the first n-1 devices and on the n-th decode the same n devices |
| Devlist.ExtendInterfaces | userspace/src/usbip_list.c:112-119 | received interfaces do not depend on bytes after them |
| Devlist.ExtendEntry | userspace/src/usbip_list.c:95-119 | a received device does not depend on bytes after it |
| Devlist.ExtendDevices | userspace/src/usbip_list.c:88-119 | received devices do not depend on bytes after them |
| Devlist.ExtendReply | userspace/src/usbip_list.c:73-128 | bytes after a complete reply do not change what it decodes to |
| Devlist.TruncatedReplyFails | userspace/src/usbip_list.c:79-119 | cutting a complete reply anywhere before its end makes the pass fail, with no partial list |
| Devlist.EncodeInterfaces | userspace/src/usbip_list.c:115 | m interfaces occupy 4m bytes |
| Devlist.Pack | userspace/src/usbip_list.c:100 | a device in network order is complete and converts back to itself |
| Devlist.PackAll | userspace/src/usbip_list.c:88-100 | every packed device is complete, and converting the packed list back to host order gives the list |
| Devlist.EncodeEntry | userspace/src/usbip_list.c:95-128 | a device with its interfaces occupies 312 + 4M bytes |
| Devlist.EncodeDevices | userspace/src/usbip_list.c:88-131 | the devices occupy the sum of their sizes |
| Devlist.EncodeReply | userspace/src/usbip_list.c:73-131 | a server's reply occupies exactly the bytes a successful pass reads |
| Devlist.BytesAtSplit | userspace/src/usbip_list.c:95-128 | two records sent back to back are found one after the other |
| Devlist.DecodeEncodeInterfaces | userspace/src/usbip_list.c:112-125 | encoded interfaces are received back, in order, with the cursor just past them |
| Devlist.InterfaceBytes | userspace/src/usbip_list.c:115-125 | an encoded interface record is received back |
| Devlist.DecodeEncodeEntry | userspace/src/usbip_list.c:95-125 | an encoded device with its interfaces is received back, with the cursor just past it |
| Devlist.DecodeEncodeDevices | userspace/src/usbip_list.c:88-128 | encoded devices are received back, in order, with the cursor just past them |
| Devlist.DecodeEncodeReply | userspace/src/usbip_list.c:73-133 | decoding a server's reply gives back exactly its devices in host order, whatever follows, and reads exactly its bytes |
| Devlist.EncodedReplyDecodes | userspace/src/usbip_list.c:73-131 | a server's reply decodes to its packed devices and reads exactly their bytes |
| Devlist.EncodedReplyHeader | userspace/src/usbip_list.c:73-85 | an encoded reply carries OP_REP_DEVLIST and the device count, then the devices |
| Devlist.HeaderBytes | userspace/src/usbip_list.c:73-85 | an encoded header and count are read back as that code and that count |
| Devlist.ListingPackAll | userspace/src/usbip_list.c:100 | converting packed devices back to host order gives the devices |
| Devlist.TruncatedEncodingFails | userspace/src/usbip_list.c:79-119 | every strict prefix of a server's reply is rejected |
| Devlist.BytesAtPrefix | userspace/src/usbip_list.c:73-85 | a reply sits at the front of the stream that starts with it |
| Text.NatToString | userspace/src/usbip_list.c:127 | `%d` of a non-negative value is one or more digits without a leading zero |
| Text.NatToStringValue | userspace/src/usbip_list.c:127 | those digits read back as the value |
| Text.IntToString | userspace/src/usbip_list.c:220 | `%d` of an int starts with '-' exactly when it is negative |
| Text.IntToStringValue | userspace/src/usbip_list.c:220 | its digits read back as the magnitude |
| Text.PadLeftShape | userspace/src/usbip_list.c:108 | `%8s` right-aligns the string in at least 8 columns, blank to its left |
| Report.Render | userspace/src/usbip_list.c:88-131 | the lines printed for a list of devices, device after device; RenderLength and RenderSnoc state their number and order |
| Report.HeaderLines | userspace/src/usbip_list.c:108-110 | a received device prints three header lines |
| Report.InterfaceLines | userspace/src/usbip_list.c:127 | one line is printed per interface received |
| Report.InterfaceNumbering | userspace/src/usbip_list.c:112-127 | interface line k carries the number k and the class of the k-th interface received |
| Report.DeviceLines | userspace/src/usbip_list.c:108-130 | a device prints 4 + M lines |
| Report.RenderLength | userspace/src/usbip_list.c:88-131 | a list of devices prints the sum of 4 + bNumInterfaces lines |
| Report.RenderSnoc | userspace/src/usbip_list.c:88-131 | one more device appends its lines after the earlier ones |
| Report.ListingSnoc | userspace/src/usbip_list.c:88-131 | one more complete device appends its host-order form to the listing |
| Report.EntryPrinted | userspace/src/usbip_list.c:95-130 | the lines printed for one device, whether or not all of it arrives: nothing on a short record, the header and the interfaces received before a short interface; EntryPrintedOk states the complete case |
| Report.ReplyPrinted | userspace/src/usbip_list.c:59-134 | the lines printed by a whole query: the listing on success, the devices before the failure and the failing device's partial lines, or nothing when the handshake fails; ReplyFailureContext and Client.QueryExportedDevices state what it means |
| Report.EntryPrintedOk | userspace/src/usbip_list.c:108-130 | a device received in full prints its complete block |
| Report.ReplyFailureContext | userspace/src/usbip_list.c:88-119 | a reply that fails on a device passed the handshake, and the devices before it arrived in full |
| Client.Connection.constructor | userspace/src/usbip_list.c:59 | a connected socket starts with nothing received and nothing sent |
| Client.Connection.Send | userspace/src/usbip_list.c:67-71 | a send succeeds exactly when the socket is writable and then writes all of its bytes; a failing send has written some leading part of them |
| Client.Connection.Recv | userspace/src/usbip_list.c:79-83 | a receive delivers exactly the next n bytes, or fails when fewer remain |
| Client.DevlistRequest | userspace/src/usbip_list.c:67 | the request is one 8-byte common header |
| Client.DevlistRequestDecodes | userspace/src/usbip_list.c:67 | the request carries version 0x0111, OP_REQ_DEVLIST and status 0 |
| Client.Exchange | userspace/src/usbip_list.c:67-131 | the pass fails with a send failure when the request cannot be written, and otherwise is the decoded reply; Client.QueryExportedDevices states that the method computes it |
| Client.Returned | userspace/src/usbip_list.c:68-133 | every failure returns -1; a non-negative return value is exactly the number of devices received, and one is returned whenever that number fits a C `int` |
| Client.AsInt32 | userspace/src/usbip_list.c:133 | the count returned as a C int is non-negative exactly when it is below 2^31 |
| Client.QueryExportedDevices | userspace/src/usbip_list.c:59-134 | sends the request only if writable; returns -1 on every failure and otherwise ndev; stops reading where the decoder stops; prints exactly what the report functions give, including the lines before a failure |
| Client.ReceiveHeader | userspace/src/usbip_list.c:61-86 | the handshake succeeds exactly when the request was sent, 12 bytes arrived and the code is OP_REP_DEVLIST; it then yields the declared count |
| Client.ReceiveDevices | userspace/src/usbip_list.c:88-131 | the device loop succeeds exactly when the reply decodes, and prints the listing or the lines up to the failure |
| Client.ReceiveDevice | userspace/src/usbip_list.c:89-130 | one device is received exactly when its entry decodes; it then prints its whole block, and otherwise the lines before the failing receive |
| Client.InterfaceReceived | userspace/src/usbip_list.c:112-127 | one more interface received extends the decoded interfaces and the printed lines by one |
| Client.InterfaceFailed | userspace/src/usbip_list.c:115-119 | a short interface receive fails the device after the lines already printed |
| Client.EntryReceived | userspace/src/usbip_list.c:112-130 | after its last interface a device decodes with its whole block printed |
| Client.DeviceReceived | userspace/src/usbip_list.c:88-131 | one more device received extends the listing and its printed lines |
| Client.DeviceFailed | userspace/src/usbip_list.c:95-119 | a device that fails to arrive ends the reply with the lines printed so far |
| Client.HandshakeFailed | userspace/src/usbip_list.c:67-83 | a failed handshake returns -1 and prints nothing |
| Client.ListingDone | userspace/src/usbip_list.c:88-133 | after ndev devices the reply is decoded and its listing printed |
| BusId.IsUsbDevice | userspace/src/usbip_list.c:167-183 | the filter accepts a name exactly when the scanner for the expression ends in its matching state; IsUsbDeviceShape states which names those are |
| BusId.IsUsbDeviceShape | userspace/src/usbip_list.c:174-182 | a name matches exactly when it is digits, one dash, then dot-separated digit runs, with a digit first and last and never two separators in a row |
| BusId.ScanClassify | userspace/src/usbip_list.c:174 | after every prefix the scanner is in the state that prefix's shape deserves |
| BusId.ClassifyStep | userspace/src/usbip_list.c:174 | reading one more character moves that state by one scanner step |
| BusId.DigitAfterDash | userspace/src/usbip_list.c:174 | a digit after the dash starts a match |
| BusId.DigitAfterPort | userspace/src/usbip_list.c:174 | a digit after a match extends it |
| BusId.DigitAfterDot | userspace/src/usbip_list.c:174 | a digit after a dot completes a match |
| BusId.NotAfterBus | userspace/src/usbip_list.c:174 | a bus number followed by anything but a digit or dash cannot match |
| BusId.NotAfterSep | userspace/src/usbip_list.c:174 | a separator followed by a non-digit cannot match |
| BusId.NotAfterPort | userspace/src/usbip_list.c:174 | a match followed by anything but a digit or dot cannot match |
| BusId.RejectStays | userspace/src/usbip_list.c:174 | a prefix that cannot start a match never does |
| BusId.ShapePrefix | userspace/src/usbip_list.c:174 | dropping the last digit of a match leaves a match or a name ending in a separator |
| BusId.ScanChars | userspace/src/usbip_list.c:178 | the scan of a name reads it one character after another |
| BusId.ScanFromSnoc | userspace/src/usbip_list.c:178 | scanning one more character is one more scanner step |
| BusId.AcceptedNames | userspace/src/usbip_list.c:174-182 | "1-2", "1-2.3" and "1-2.3.4" are USB devices |
| BusId.RejectedNames | userspace/src/usbip_list.c:174-182 | "usb1", "1-", "-1", "1..2" and "1-1:1.0" are not |
| LocalList.DriverBuffer | userspace/src/usbip_list.c:206-221 | the driver buffer, shared by the interfaces of a device and kept when a read yields nothing; DriverBufferSource states where its content comes from |
| LocalList.DriverBufferSource | userspace/src/usbip_list.c:206-221 | the driver printed for an interface is empty or the result of a lookup for that interface or an earlier one of the same device |
| LocalList.AcceptedNames | userspace/src/usbip_list.c:198-204 | a name is listed exactly when it is a directory entry that passes the filter |
| LocalList.InterfaceLines | userspace/src/usbip_list.c:217-222 | ninf interface lines |
| LocalList.InterfaceNumbering | userspace/src/usbip_list.c:217-222 | line i names interface i, `busid:conf.i -> driver` |
| LocalList.Block | userspace/src/usbip_list.c:204-224 | a device prints ninf + 2 lines (none interfaces when ninf <= 0) |
| LocalList.Listing | userspace/src/usbip_list.c:185-230 | the lines show_devices prints, entry by entry; ListingBlocks states their shape |
| LocalList.ListingBlocks | userspace/src/usbip_list.c:193-225 | the listing is the title and then one block per accepted name, in directory order; other entries print nothing |
| LocalList.PrintInterfaces | userspace/src/usbip_list.c:217-222 | the interface loop prints exactly the interface lines |
| LocalList.BlockAppended | userspace/src/usbip_list.c:215-223 | the device line, interface lines and blank line make up the device's block |
| LocalList.ShowDevices | userspace/src/usbip_list.c:185-230 | show_devices prints exactly the listing |
| LocalList.ParsableEntries | userspace/src/usbip_list.c:263-266 | ninf interface entries |
| LocalList.ParsableNumbering | userspace/src/usbip_list.c:263-266 | entry i is `busid:conf.i=driver#` for interface i |
| LocalList.ParsableLine | userspace/src/usbip_list.c:250-267 | the one line show_devices2 prints for a device: busid, name and then the interface entries; ParsableEntries, ParsableNumbering and ParsableExample state its content |
| LocalList.ParsableListing | userspace/src/usbip_list.c:232-274 | the lines show_devices2 prints, entry by entry; ParsableLines states their shape |
| LocalList.ParsableLines | userspace/src/usbip_list.c:240-268 | one line per accepted name, in directory order, each that device's line |
| LocalList.PrintParsableInterfaces | userspace/src/usbip_list.c:263-266 | the interface loop prints exactly the entries |
| LocalList.ShowDevices2 | userspace/src/usbip_list.c:232-274 | show_devices2 prints exactly the parsable listing |
| LocalList.ParsableExample | userspace/src/usbip_list.c:250-267 | device 1-1 named Widget with one interface on the hub driver prints `busid=1-1#usbid=Widget#1-1:1.0=hub#`, and "usb1" and "1-1:1.0" print nothing |
| LocalList.ExampleLine | userspace/src/usbip_list.c:261-267 | that device's line |
| LocalList.ExampleEntry | userspace/src/usbip_list.c:265 | that interface's entry |

## Left out

- The TCP connection (`show_exported_devices`, lines 136-163) and the
  `- <host>` line it prints are not modelled. The socket is not closed when
  the query fails; that is outside the query function.
- The internals of `usbip_recv_op_common` are in `usbip_network.c`, which is
  not part of this model. The model checks only the reply code. The header's
  version and status checks are not modelled.
- The usb.ids database (`usbip_names_*`) is a pair of lookup functions.
  Truncation to the 100-byte name buffers is not modelled.
- Directory iteration is a sequence of entry names. The failed `opendir` at
  lines 189-191, where the code carries on with a null directory, and
  `closedir` are not modelled.
- The sysfs reads are functions of the bus id (and of the configuration and
  interface number for the driver). Truncation to the 100-byte buffers is
  not modelled.
- A failed `regcomp` (lines 174-176) is not modelled. The expression is a
  constant, and the scanner stands for the compiled expression.
- Command-line parsing and usage text (`usbip_list`, `usbip_list_usage`) are
  not modelled.
- The text of the `err` and `dbg` messages is not modelled. Each `err` in the
  query is one case of `Devlist.Error`.
- ByteOrder.NulIndex: a character field with no NUL byte ends at the
  field's width. The code's `%s` (lines 108-109) would read past the array,
  which is undefined behaviour in C, so that case is not modelled.
- ByteOrder.DecodeField: for the same reason, a field with no NUL byte is
  printed as exactly its width, not as whatever memory follows it.
- Records.DecodeDevice: inherits that limit for `busid` and `path`.
- Client.Connection.Send: how many bytes a failing send gets out is a
  constructor parameter (`partial`); the model states only that they are a
  leading part of the request.
- Client.Connection.Recv: on a short receive the bytes it returns are not
  specified, because the code discards them.
