/**
 What `usbip list -r` prints for each exported device it receives: three
 header lines (bus id and product name, sysfs path, device class), one line
 per interface numbered from 0 in the order received, and a blank line.
 Lines are given without their terminating newline.
 */
module Report {
  import opened ByteOrder
  import opened Records
  import opened Text
  import opened Devlist

  /** The usb.ids name database as the two lookups the listing makes; each
      yields the text the lookup writes into the caller's buffer. */
  datatype NameDb = NameDb(
    product: (u16, u16) -> string,
    className: (byte, byte, byte) -> string)

  /** The `%8s: ` column every line starts with. */
  function Column(s: string): string
  {
    PadLeft(s, 8) + ": "
  }

  /** The three lines printed as soon as a device record has arrived. */
  function HeaderLines(names: NameDb, d: UsbDevice): (ls: seq<string>)
    ensures |ls| == 3
  {
    [Column(d.busid) + names.product(d.idVendor, d.idProduct),
     Column(" ") + d.path,
     Column(" ") + names.className(d.bDeviceClass, d.bDeviceSubClass, d.bDeviceProtocol)]
  }

  /** The line printed for interface number `j`. */
  function InterfaceLine(names: NameDb, j: nat, x: UsbInterface): string
  {
    Column(" ") + PadLeft(NatToString(j), 2) + " - "
    + names.className(x.bInterfaceClass, x.bInterfaceSubClass, x.bInterfaceProtocol)
  }

  /** The lines printed for interfaces received in order, one per interface. */
  function InterfaceLines(names: NameDb, ifs: seq<UsbInterface>): (ls: seq<string>)
    ensures |ls| == |ifs|
  {
    if ifs == [] then []
    else InterfaceLines(names, ifs[..|ifs| - 1]) + [InterfaceLine(names, |ifs| - 1, ifs[|ifs| - 1])]
  }

  /** Interface line k belongs to the k-th interface received and carries the number k. */
  lemma {:induction false} InterfaceNumbering(names: NameDb, ifs: seq<UsbInterface>, k: nat)
    requires k < |ifs|
    ensures InterfaceLines(names, ifs)[k] == InterfaceLine(names, k, ifs[k])
  {
    if k < |ifs| - 1 {
      InterfaceNumbering(names, ifs[..|ifs| - 1], k);
    }
  }

  /** All lines printed for one device. */
  function DeviceLines(names: NameDb, e: ExportedDevice): (ls: seq<string>)
    ensures |ls| == 4 + |e.interfaces|
  {
    HeaderLines(names, e.device) + InterfaceLines(names, e.interfaces) + [""]
  }

  /** The lines printed for a sequence of devices, device after device. */
  function Render(names: NameDb, ds: seq<ExportedDevice>): (ls: seq<string>)
  {
    if ds == [] then [] else Render(names, ds[..|ds| - 1]) + DeviceLines(names, ds[|ds| - 1])
  }

  /** A consistent device list prints 4 + bNumInterfaces lines per device. */
  lemma {:induction false} RenderLength(names: NameDb, ds: seq<ExportedDevice>)
    requires forall k :: 0 <= k < |ds| ==> Consistent(ds[k])
    ensures |Render(names, ds)| == LineCount(ds)
  {
    if ds != [] {
      RenderLength(names, ds[..|ds| - 1]);
    }
  }

  function LineCount(ds: seq<ExportedDevice>): nat
  {
    if ds == [] then 0 else LineCount(ds[..|ds| - 1]) + 4 + ds[|ds| - 1].device.bNumInterfaces
  }

  lemma RenderSnoc(names: NameDb, ds: seq<ExportedDevice>, e: ExportedDevice)
    ensures Render(names, ds + [e]) == Render(names, ds) + DeviceLines(names, e)
  {
    assert (ds + [e])[..|ds|] == ds;
  }

  lemma ListingSnoc(ws: seq<WireDevice>, w: WireDevice)
    requires AllComplete(ws) && Complete(w)
    ensures AllComplete(ws + [w]) && Listing(ws + [w]) == Listing(ws) + [ToHost(w)]
  {
  }

  /** What is printed for a device whose receive starts at cursor `p`: nothing
      when its record is short; otherwise its header lines and a line for
      each interface that arrived, and the closing blank line only once all
      of them have arrived. */
  function EntryPrinted(names: NameDb, s: seq<byte>, p: nat, device: nat): seq<string>
    requires p <= |s|
  {
    if p + USB_DEVICE_SIZE > |s| then []
    else
      var d := DecodeDevice(Received(s, p, USB_DEVICE_SIZE));
      var ifs := DecodeInterfaces(s, p + USB_DEVICE_SIZE, s[p + USB_DEVICE_SIZE - 1], device);
      if ifs.Ok? then DeviceLines(names, ExportedDevice(d, ifs.value))
      else
        InterfacesOutcome(s, p + USB_DEVICE_SIZE, s[p + USB_DEVICE_SIZE - 1], device);
        var j := ifs.error.index;
        InterfacesOutcome(s, p + USB_DEVICE_SIZE, j, device);
        HeaderLines(names, d) + InterfaceLines(names, DecodeInterfaces(s, p + USB_DEVICE_SIZE, j, device).value)
  }

  /** A device received in full prints as its complete block of lines. */
  lemma EntryPrintedOk(names: NameDb, s: seq<byte>, p: nat, device: nat)
    requires p <= |s| && DecodeEntry(s, p, device).Ok?
    ensures Complete(DecodeEntry(s, p, device).value)
    ensures EntryPrinted(names, s, p, device) == DeviceLines(names, ToHost(DecodeEntry(s, p, device).value))
  {
    EntryOutcome(s, p, device);
  }

  /** Everything `usbip list -r` prints for the reply `s`, including the lines
      for the devices that arrived before a receive came up short. */
  function ReplyPrinted(names: NameDb, s: seq<byte>): seq<string>
  {
    var r := DecodeReply(s);
    if r.Ok? then
      ReplyComplete(s);
      Render(names, Listing(r.value))
    else if r.error.DeviceTruncated? || r.error.InterfaceTruncated? then
      ReplyFailureContext(s);
      var prev := DecodeDevices(s, OP_COMMON_SIZE + DEVLIST_REPLY_SIZE, r.error.device);
      DevicesComplete(s, OP_COMMON_SIZE + DEVLIST_REPLY_SIZE, r.error.device);
      Render(names, Listing(prev.value)) + EntryPrinted(names, s, prev.next, r.error.device)
    else []
  }

  /** A reply that fails on a device passed the handshake, and the devices
      before the failing one were received in full. */
  lemma ReplyFailureContext(s: seq<byte>)
    requires DecodeReply(s).Fail?
    ensures var e := DecodeReply(s).error;
      (e.DeviceTruncated? || e.InterfaceTruncated?) ==>
        |s| >= OP_COMMON_SIZE + DEVLIST_REPLY_SIZE && ReplyCode(s) == OP_REP_DEVLIST &&
        e.device < DeclaredCount(s) &&
        DecodeDevices(s, OP_COMMON_SIZE + DEVLIST_REPLY_SIZE, e.device).Ok? &&
        DecodeEntry(s, DecodeDevices(s, OP_COMMON_SIZE + DEVLIST_REPLY_SIZE, e.device).next, e.device) == Fail(e)
  {
    if |s| >= OP_COMMON_SIZE + DEVLIST_REPLY_SIZE && ReplyCode(s) == OP_REP_DEVLIST {
      DevicesFailureContext(s, OP_COMMON_SIZE + DEVLIST_REPLY_SIZE, DeclaredCount(s));
    }
  }
}
