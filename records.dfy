/**
 The fixed-size records of the USB/IP "list exported devices" exchange
 (OP_REQ_DEVLIST / OP_REP_DEVLIST in the Linux kernel's USB/IP protocol
 description): the common operation header, the device record and the
 interface record, with their network-order encodings.
 */
module Records {
  import opened ByteOrder

  const USBIP_VERSION: u16 := 0x0111
  const OP_REQ_DEVLIST: u16 := 0x8005
  const OP_REP_DEVLIST: u16 := 0x0005

  /** Sizes on the wire, in bytes. */
  const OP_COMMON_SIZE: nat := 8
  const DEVLIST_REPLY_SIZE: nat := 4
  const USB_DEVICE_SIZE: nat := 312
  const USB_INTERFACE_SIZE: nat := 4

  /** Widths of the two character fields of a device record. */
  const SYSFS_PATH_MAX: nat := 256
  const SYSFS_BUS_ID_SIZE: nat := 32

  /** struct op_common: version, operation or reply code, status. */
  datatype OpCommon = OpCommon(version: u16, code: u16, status: u32)

  /** struct usb_device, with every integer in host order. */
  datatype UsbDevice = UsbDevice(
    path: string,
    busid: string,
    busnum: u32,
    devnum: u32,
    speed: u32,
    idVendor: u16,
    idProduct: u16,
    bcdDevice: u16,
    bDeviceClass: byte,
    bDeviceSubClass: byte,
    bDeviceProtocol: byte,
    bConfigurationValue: byte,
    bNumConfigurations: byte,
    bNumInterfaces: byte)

  /** struct usb_interface without its padding byte. */
  datatype UsbInterface = UsbInterface(
    bInterfaceClass: byte,
    bInterfaceSubClass: byte,
    bInterfaceProtocol: byte)

  function EncodeOpCommon(h: OpCommon): (b: seq<byte>)
    ensures |b| == OP_COMMON_SIZE
  {
    EncodeU16(h.version) + EncodeU16(h.code) + EncodeU32(h.status)
  }

  function DecodeOpCommon(b: seq<byte>): (h: OpCommon)
    requires |b| == OP_COMMON_SIZE
  {
    OpCommon(DecodeU16(b[0..2]), DecodeU16(b[2..4]), DecodeU32(b[4..8]))
  }

  lemma DecodeEncodeOpCommon(h: OpCommon)
    ensures DecodeOpCommon(EncodeOpCommon(h)) == h
  {
    var b := EncodeOpCommon(h);
    assert b[0..2] == EncodeU16(h.version);
    assert b[2..4] == EncodeU16(h.code);
    assert b[4..8] == EncodeU32(h.status);
    DecodeEncodeU16(h.version);
    DecodeEncodeU16(h.code);
    DecodeEncodeU32(h.status);
  }

  /** A device whose character fields fit the record's fixed-width fields. */
  predicate Encodable(d: UsbDevice)
  {
    FitsField(d.path, SYSFS_PATH_MAX) && FitsField(d.busid, SYSFS_BUS_ID_SIZE)
  }

  /** The 24 bytes after the two character fields. */
  function EncodeDeviceNumbers(d: UsbDevice): (b: seq<byte>)
    ensures |b| == 24
  {
    EncodeU32(d.busnum) + EncodeU32(d.devnum) + EncodeU32(d.speed)
    + EncodeU16(d.idVendor) + EncodeU16(d.idProduct) + EncodeU16(d.bcdDevice)
    + [d.bDeviceClass, d.bDeviceSubClass, d.bDeviceProtocol,
       d.bConfigurationValue, d.bNumConfigurations, d.bNumInterfaces]
  }

  /** The device record as the server sends it (pack_usb_device to network order). */
  function EncodeDevice(d: UsbDevice): (b: seq<byte>)
    requires Encodable(d)
    ensures |b| == USB_DEVICE_SIZE
  {
    EncodeField(d.path, SYSFS_PATH_MAX) + EncodeField(d.busid, SYSFS_BUS_ID_SIZE)
    + EncodeDeviceNumbers(d)
  }

  /** A received device record, every multi-byte field converted to host order. */
  function DecodeDevice(b: seq<byte>): (d: UsbDevice)
    requires |b| == USB_DEVICE_SIZE
    ensures d.bNumInterfaces == b[311]
    ensures d.idVendor == DecodeU16(b[300..302]) && d.idProduct == DecodeU16(b[302..304])
    ensures EncodeDeviceNumbers(d) == b[288..312]
  {
    DecodeDeviceBytes(b);
    UsbDevice(
      DecodeField(b[0..256]),
      DecodeField(b[256..288]),
      DecodeU32(b[288..292]),
      DecodeU32(b[292..296]),
      DecodeU32(b[296..300]),
      DecodeU16(b[300..302]),
      DecodeU16(b[302..304]),
      DecodeU16(b[304..306]),
      b[306], b[307], b[308], b[309], b[310], b[311])
  }

  /** Converting the numeric tail of a record to host order loses nothing:
      converting it back gives the same 24 bytes. */
  lemma DecodeDeviceBytes(b: seq<byte>)
    requires |b| == USB_DEVICE_SIZE
    ensures var n := b[288..312];
      EncodeU32(DecodeU32(b[288..292])) + EncodeU32(DecodeU32(b[292..296])) + EncodeU32(DecodeU32(b[296..300]))
      + EncodeU16(DecodeU16(b[300..302])) + EncodeU16(DecodeU16(b[302..304])) + EncodeU16(DecodeU16(b[304..306]))
      + [b[306], b[307], b[308], b[309], b[310], b[311]] == n
  {
    EncodeDecodeU32(b[288..292]);
    EncodeDecodeU32(b[292..296]);
    EncodeDecodeU32(b[296..300]);
    EncodeDecodeU16(b[300..302]);
    EncodeDecodeU16(b[302..304]);
    EncodeDecodeU16(b[304..306]);
    var n := b[288..312];
    assert n == b[288..292] + b[292..296] + b[296..300] + b[300..302] + b[302..304] + b[304..306]
      + [b[306], b[307], b[308], b[309], b[310], b[311]];
  }

  lemma DecodeEncodeDevice(d: UsbDevice)
    requires Encodable(d)
    ensures DecodeDevice(EncodeDevice(d)) == d
  {
    var b := EncodeDevice(d);
    var n := EncodeDeviceNumbers(d);
    assert b[0..256] == EncodeField(d.path, SYSFS_PATH_MAX);
    assert b[256..288] == EncodeField(d.busid, SYSFS_BUS_ID_SIZE);
    assert b[288..312] == n;
    assert b[288..292] == n[0..4] && b[292..296] == n[4..8] && b[296..300] == n[8..12];
    assert b[300..302] == n[12..14] && b[302..304] == n[14..16] && b[304..306] == n[16..18];
    DecodeEncodeField(d.path, SYSFS_PATH_MAX);
    DecodeEncodeField(d.busid, SYSFS_BUS_ID_SIZE);
    DecodeDeviceNumbers(d);
  }

  /** Each number in the 24-byte tail decodes to the device's own field. */
  lemma DecodeDeviceNumbers(d: UsbDevice)
    ensures var n := EncodeDeviceNumbers(d);
      DecodeU32(n[0..4]) == d.busnum && DecodeU32(n[4..8]) == d.devnum && DecodeU32(n[8..12]) == d.speed &&
      DecodeU16(n[12..14]) == d.idVendor && DecodeU16(n[14..16]) == d.idProduct &&
      DecodeU16(n[16..18]) == d.bcdDevice &&
      n[18..] == [d.bDeviceClass, d.bDeviceSubClass, d.bDeviceProtocol,
                  d.bConfigurationValue, d.bNumConfigurations, d.bNumInterfaces]
  {
    var n := EncodeDeviceNumbers(d);
    assert n[0..4] == EncodeU32(d.busnum);
    assert n[4..8] == EncodeU32(d.devnum);
    assert n[8..12] == EncodeU32(d.speed);
    assert n[12..14] == EncodeU16(d.idVendor);
    assert n[14..16] == EncodeU16(d.idProduct);
    assert n[16..18] == EncodeU16(d.bcdDevice);
    DecodeEncodeU32(d.busnum);
    DecodeEncodeU32(d.devnum);
    DecodeEncodeU32(d.speed);
    DecodeEncodeU16(d.idVendor);
    DecodeEncodeU16(d.idProduct);
    DecodeEncodeU16(d.bcdDevice);
  }

  /** The interface record as the server sends it; the padding byte is zero. */
  function EncodeInterface(i: UsbInterface): (b: seq<byte>)
    ensures |b| == USB_INTERFACE_SIZE
  {
    [i.bInterfaceClass, i.bInterfaceSubClass, i.bInterfaceProtocol, 0]
  }

  /** A received interface record; its padding byte is ignored. */
  function DecodeInterface(b: seq<byte>): (i: UsbInterface)
    requires |b| == USB_INTERFACE_SIZE
  {
    UsbInterface(b[0], b[1], b[2])
  }

  lemma DecodeEncodeInterface(i: UsbInterface)
    ensures DecodeInterface(EncodeInterface(i)) == i
  {
  }
}
