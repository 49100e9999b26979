/**
 The client-side decoding of an OP_REP_DEVLIST reply, as pure functions over
 the whole byte stream that the peer sends and a read cursor into it. The
 stream cannot be rewound: every decoder reads forward from its cursor, and
 the cursor after a successful decode is the start cursor plus the wire size
 of what was decoded. A decoder returns either what it read or the first
 receive that could not be completed; there is no partial result.
 */
module Devlist {
  import opened ByteOrder
  import opened Records

  /** Why a listing pass stopped; each case is one `err` message of the client. */
  datatype Error =
    | SendFailed                                    // "send op_common"
    | ReplyTruncated                                // "recv op_common": short reply header
    | ProtocolMismatch(code: u16)                   // "recv op_common": not OP_REP_DEVLIST
    | HeaderTruncated                               // "recv op_devlist"
    | DeviceTruncated(device: nat)                  // "recv usb_device[%d]"
    | InterfaceTruncated(device: nat, index: nat)   // "recv usb_interface[%d]"

  /** A decoded value with the cursor just past it, or the failure that
      ended the pass. */
  datatype Outcome<T> = Ok(value: T, next: nat) | Fail(error: Error)

  /** One exported device, in host order, with its interfaces in the order received. */
  datatype ExportedDevice = ExportedDevice(device: UsbDevice, interfaces: seq<UsbInterface>)

  /** One device as it came off the wire: its record, still in network
      order, and the interface records that followed it. */
  datatype WireDevice = WireDevice(record: seq<byte>, interfaces: seq<UsbInterface>)

  /** A device carries exactly as many interfaces as its record declares. */
  predicate Consistent(e: ExportedDevice)
  {
    |e.interfaces| == e.device.bNumInterfaces
  }

  /** A whole record, followed by exactly as many interfaces as its last
      byte, bNumInterfaces, declares. */
  predicate Complete(w: WireDevice)
  {
    |w.record| == USB_DEVICE_SIZE && |w.interfaces| == w.record[USB_DEVICE_SIZE - 1]
  }

  predicate AllComplete(ws: seq<WireDevice>)
  {
    forall k :: 0 <= k < |ws| ==> Complete(ws[k])
  }

  /** The device with its record converted to host order (pack_usb_device). */
  function ToHost(w: WireDevice): (e: ExportedDevice)
    requires Complete(w)
    ensures Consistent(e) && e.interfaces == w.interfaces
  {
    ExportedDevice(DecodeDevice(w.record), w.interfaces)
  }

  /** The devices of a listing, each converted to host order; every one
      carries exactly as many interfaces as its record declares, and they
      are the interfaces received after that record. */
  function Listing(ws: seq<WireDevice>): (ds: seq<ExportedDevice>)
    requires AllComplete(ws)
    ensures |ds| == |ws| && forall k :: 0 <= k < |ws| ==> ds[k] == ToHost(ws[k])
    ensures forall k :: 0 <= k < |ds| ==> Consistent(ds[k]) && ds[k].interfaces == ws[k].interfaces
  {
    seq(|ws|, k requires 0 <= k < |ws| => ToHost(ws[k]))
  }

  /** The bytes a device and its interfaces occupy on the wire: 312 + 4 * M. */
  function EntrySize(w: WireDevice): nat
  {
    USB_DEVICE_SIZE + USB_INTERFACE_SIZE * |w.interfaces|
  }

  /** The bytes a sequence of devices occupies: the sum of 312 + 4 * M_i. */
  function Size(ws: seq<WireDevice>): nat
  {
    if ws == [] then 0 else Size(ws[..|ws| - 1]) + EntrySize(ws[|ws| - 1])
  }

  lemma SizeAppend(ws: seq<WireDevice>, w: WireDevice)
    ensures Size(ws + [w]) == Size(ws) + EntrySize(w)
  {
    assert (ws + [w])[..|ws|] == ws;
  }

  /** The bytes a complete reply occupies: the common header, the device
      count, then every device with its interfaces. */
  function Consumed(ws: seq<WireDevice>): nat
  {
    OP_COMMON_SIZE + DEVLIST_REPLY_SIZE + Size(ws)
  }

  /** The interface record at byte `q`: its three class bytes; the fourth
      byte is padding. */
  function InterfaceAt(s: seq<byte>, q: nat): UsbInterface
    requires q + 4 <= |s|
  {
    UsbInterface(s[q], s[q + 1], s[q + 2])
  }

  /** It is the 4-byte record at `q`, decoded. */
  lemma InterfaceAtRecord(s: seq<byte>, q: nat)
    requires q + 4 <= |s|
    ensures InterfaceAt(s, q) == DecodeInterface(s[q..q + 4])
  {
  }

  /** The `n` bytes a receive of `n` bytes at cursor `p` delivers. */
  function Received(s: seq<byte>, p: nat, n: nat): (b: seq<byte>)
    requires p + n <= |s|
    ensures |b| == n
  {
    seq(n, i requires 0 <= i < n => s[p + i])
  }

  /** They are the slice of the stream from `p`. */
  lemma ReceivedSlice(s: seq<byte>, p: nat, n: nat)
    requires p + n <= |s|
    ensures Received(s, p, n) == s[p..p + n]
  {
  }

  /** Receive `m` interface records of device number `device` from cursor
      `p`, in order; the receive of record j fails when fewer than 4 bytes
      remain. */
  function DecodeInterfaces(s: seq<byte>, p: nat, m: nat, device: nat): (r: Outcome<seq<UsbInterface>>)
    requires p <= |s|
    ensures r.Ok? ==> r.next <= |s|
    decreases m
  {
    if m == 0 then Ok([], p)
    else
      var prev := DecodeInterfaces(s, p, m - 1, device);
      if prev.Fail? then prev
      else if prev.next + 4 <= |s| then Ok(prev.value + [InterfaceAt(s, prev.next)], prev.next + 4)
      else Fail(InterfaceTruncated(device, m - 1))
  }

  /** Receive device record number `device` at cursor `p`, then exactly the
      number of interface records its bNumInterfaces (byte 311) declares. */
  function DecodeEntry(s: seq<byte>, p: nat, device: nat): (r: Outcome<WireDevice>)
    requires p <= |s|
    ensures r.Ok? ==> r.next <= |s|
  {
    if p + USB_DEVICE_SIZE > |s| then Fail(DeviceTruncated(device))
    else
      var ifs := DecodeInterfaces(s, p + USB_DEVICE_SIZE, s[p + USB_DEVICE_SIZE - 1], device);
      if ifs.Fail? then Fail(ifs.error) else Ok(WireDevice(Received(s, p, USB_DEVICE_SIZE), ifs.value), ifs.next)
  }

  /** Receive `n` devices from cursor `p`, each with its interfaces, each
      device read only after every interface of the one before it. */
  function DecodeDevices(s: seq<byte>, p: nat, n: nat): (r: Outcome<seq<WireDevice>>)
    requires p <= |s|
    ensures r.Ok? ==> r.next <= |s|
    decreases n
  {
    if n == 0 then Ok([], p)
    else
      var prev := DecodeDevices(s, p, n - 1);
      if prev.Fail? then prev
      else
        var e := DecodeEntry(s, prev.next, n - 1);
        if e.Fail? then Fail(e.error) else Ok(prev.value + [e.value], e.next)
  }

  /** The device count of a devlist reply header, converted to host order. */
  function DeclaredCount(s: seq<byte>): u32
    requires |s| >= OP_COMMON_SIZE + DEVLIST_REPLY_SIZE
  {
    DecodeU32(s[OP_COMMON_SIZE..OP_COMMON_SIZE + DEVLIST_REPLY_SIZE])
  }

  /** The reply code of the common reply header, converted to host order. */
  function ReplyCode(s: seq<byte>): u16
    requires |s| >= OP_COMMON_SIZE
  {
    DecodeOpCommon(s[..OP_COMMON_SIZE]).code
  }

  /** Receive the whole reply: common header, device count, then the devices. */
  function DecodeReply(s: seq<byte>): (r: Outcome<seq<WireDevice>>)
    ensures r.Ok? ==> r.next <= |s|
  {
    if |s| < OP_COMMON_SIZE then Fail(ReplyTruncated)
    else if ReplyCode(s) != OP_REP_DEVLIST then Fail(ProtocolMismatch(ReplyCode(s)))
    else if |s| < OP_COMMON_SIZE + DEVLIST_REPLY_SIZE then Fail(HeaderTruncated)
    else DecodeDevices(s, OP_COMMON_SIZE + DEVLIST_REPLY_SIZE, DeclaredCount(s))
  }

  // ---------------------------------------------------------------------------
  // The handshake and the device count.

  /** A short reply header, or one whose code is not OP_REP_DEVLIST, ends the
      pass before the device count is read; so does a missing device count. */
  lemma HandshakeFailures(s: seq<byte>)
    ensures |s| < OP_COMMON_SIZE ==> DecodeReply(s) == Fail(ReplyTruncated)
    ensures |s| >= OP_COMMON_SIZE && ReplyCode(s) != OP_REP_DEVLIST ==>
      DecodeReply(s) == Fail(ProtocolMismatch(ReplyCode(s)))
    ensures |s| >= OP_COMMON_SIZE && ReplyCode(s) == OP_REP_DEVLIST && |s| < OP_COMMON_SIZE + DEVLIST_REPLY_SIZE ==>
      DecodeReply(s) == Fail(HeaderTruncated)
  {
  }

  /** A reply that declares no devices is a successful, empty listing that
      reads nothing past the device count. */
  lemma EmptyDeviceList(s: seq<byte>)
    requires |s| >= OP_COMMON_SIZE + DEVLIST_REPLY_SIZE
    requires ReplyCode(s) == OP_REP_DEVLIST && DeclaredCount(s) == 0
    ensures DecodeReply(s) == Ok([], OP_COMMON_SIZE + DEVLIST_REPLY_SIZE)
  {
  }

  // ---------------------------------------------------------------------------
  // When each decoder succeeds, and how it fails.

  /** The interfaces are received exactly when 4 * m bytes remain; otherwise
      the receive that fails is that of record j, the first one that does
      not fit before the end of the stream. */
  lemma {:induction false} InterfacesOutcome(s: seq<byte>, p: nat, m: nat, device: nat)
    requires p <= |s|
    ensures var r := DecodeInterfaces(s, p, m, device);
      (r.Ok? <==> p + 4 * m <= |s|) &&
      (r.Ok? ==> |r.value| == m && r.next == p + 4 * m) &&
      (r.Fail? ==> r.error.InterfaceTruncated? && r.error.device == device && r.error.index < m &&
                   p + 4 * r.error.index <= |s| < p + 4 * r.error.index + 4)
  {
    if m > 0 {
      InterfacesOutcome(s, p, m - 1, device);
    }
  }

  /** A device is received exactly when its record and the interfaces its
      record declares all fit; a short record fails as that device's record,
      a short interface list as one of that device's interfaces. */
  lemma EntryOutcome(s: seq<byte>, p: nat, device: nat)
    requires p <= |s|
    ensures var r := DecodeEntry(s, p, device);
      (r.Ok? <==> p + USB_DEVICE_SIZE <= |s| && p + USB_DEVICE_SIZE + 4 * (s[p + USB_DEVICE_SIZE - 1] as int) <= |s|) &&
      (r.Ok? ==> Complete(r.value) && r.next == p + EntrySize(r.value)) &&
      (r.Fail? ==> (r.error == DeviceTruncated(device) <==> p + USB_DEVICE_SIZE > |s|)) &&
      (r.Fail? && p + USB_DEVICE_SIZE <= |s| ==>
         r.error.InterfaceTruncated? && r.error.device == device && r.error.index < s[p + USB_DEVICE_SIZE - 1])
  {
    if p + USB_DEVICE_SIZE <= |s| {
      InterfacesOutcome(s, p + USB_DEVICE_SIZE, s[p + USB_DEVICE_SIZE - 1], device);
    }
  }

  /** A successful pass returns exactly `n` devices; a failed one names a
      device below `n` and whether its record or an interface came up short. */
  lemma {:induction false} DevicesOutcome(s: seq<byte>, p: nat, n: nat)
    requires p <= |s|
    ensures var r := DecodeDevices(s, p, n);
      (r.Ok? ==> |r.value| == n && p <= r.next) &&
      (r.Fail? ==> (r.error.DeviceTruncated? || r.error.InterfaceTruncated?) && r.error.device < n)
  {
    if n > 0 {
      DevicesOutcome(s, p, n - 1);
      var prev := DecodeDevices(s, p, n - 1);
      if prev.Ok? {
        EntryOutcome(s, prev.next, n - 1);
      }
    }
  }

  /** A successful reply carried OP_REP_DEVLIST, a device count, and exactly
      that many devices; a failed reply never reports a failed send. */
  lemma ReplyOutcome(s: seq<byte>)
    ensures var r := DecodeReply(s);
      (r.Ok? ==> |s| >= OP_COMMON_SIZE + DEVLIST_REPLY_SIZE && ReplyCode(s) == OP_REP_DEVLIST &&
                 |r.value| == DeclaredCount(s)) &&
      (r.Fail? ==> !r.error.SendFailed?)
  {
    if |s| >= OP_COMMON_SIZE + DEVLIST_REPLY_SIZE && ReplyCode(s) == OP_REP_DEVLIST {
      DevicesOutcome(s, OP_COMMON_SIZE + DEVLIST_REPLY_SIZE, DeclaredCount(s));
    }
  }

  // ---------------------------------------------------------------------------
  // What a successful decode read: sizes and layout.

  /** A successful pass over `n` devices is a successful pass over the first
      `n - 1` followed by one complete entry where that pass left the cursor. */
  lemma DevicesLast(s: seq<byte>, p: nat, n: nat)
    requires p <= |s| && n > 0 && DecodeDevices(s, p, n).Ok?
    ensures var prev := DecodeDevices(s, p, n - 1);
      prev.Ok? &&
      var e := DecodeEntry(s, prev.next, n - 1);
      e.Ok? && Complete(e.value) && e.next == prev.next + EntrySize(e.value) &&
      DecodeDevices(s, p, n) == Ok(prev.value + [e.value], e.next)
  {
    EntryOutcome(s, DecodeDevices(s, p, n - 1).next, n - 1);
  }

  /** A pass over `n - 1` devices followed by one more entry is a pass over `n`. */
  lemma DevicesSnoc(s: seq<byte>, p: nat, n: nat, v: seq<WireDevice>, q: nat, w: WireDevice, r: nat)
    requires p <= |s| && n > 0 && DecodeDevices(s, p, n - 1) == Ok(v, q) && DecodeEntry(s, q, n - 1) == Ok(w, r)
    ensures DecodeDevices(s, p, n) == Ok(v + [w], r)
  {
  }

  /** After `n` devices the cursor has advanced by exactly the sum of
      312 + 4 * M_i over them. */
  lemma {:induction false} DevicesSize(s: seq<byte>, p: nat, n: nat)
    requires p <= |s| && DecodeDevices(s, p, n).Ok?
    ensures DecodeDevices(s, p, n).next == p + Size(DecodeDevices(s, p, n).value)
  {
    if n > 0 {
      DevicesLast(s, p, n);
      var prev := DecodeDevices(s, p, n - 1);
      DevicesSize(s, p, n - 1);
      SizeAppend(prev.value, DecodeEntry(s, prev.next, n - 1).value);
    }
  }

  /** A successful reply reads the common header, the device count and then
      exactly the devices it returns, each with its interfaces. */
  lemma ReplyConsumed(s: seq<byte>)
    requires DecodeReply(s).Ok?
    ensures DecodeReply(s).next == Consumed(DecodeReply(s).value)
  {
    DevicesSize(s, OP_COMMON_SIZE + DEVLIST_REPLY_SIZE, DeclaredCount(s));
  }

  /** Every decoded device is a whole record with exactly as many interfaces
      as it declares. */
  lemma {:induction false} DevicesComplete(s: seq<byte>, p: nat, n: nat)
    requires p <= |s| && DecodeDevices(s, p, n).Ok?
    ensures AllComplete(DecodeDevices(s, p, n).value)
  {
    if n > 0 {
      DevicesComplete(s, p, n - 1);
      EntryOutcome(s, DecodeDevices(s, p, n - 1).next, n - 1);
    }
  }

  lemma ReplyComplete(s: seq<byte>)
    requires DecodeReply(s).Ok?
    ensures AllComplete(DecodeReply(s).value)
  {
    DevicesComplete(s, OP_COMMON_SIZE + DEVLIST_REPLY_SIZE, DeclaredCount(s));
  }

  /** Interface j of a device is the record at 4 * j bytes past the cursor. */
  lemma {:induction false} InterfacesLayout(s: seq<byte>, p: nat, m: nat, device: nat, j: nat)
    requires p + 4 * m <= |s| && j < m
    ensures var r := DecodeInterfaces(s, p, m, device);
      r.Ok? && |r.value| == m && r.value[j] == InterfaceAt(s, p + 4 * j)
  {
    InterfacesOutcome(s, p, m, device);
    InterfacesOutcome(s, p, m - 1, device);
    if j < m - 1 {
      InterfacesLayout(s, p, m - 1, device, j);
    }
  }

  /** A decoded device is the record at the cursor, and its interfaces are
      the records immediately after it, in order. */
  lemma EntryLayout(s: seq<byte>, p: nat, device: nat)
    requires p <= |s| && DecodeEntry(s, p, device).Ok?
    ensures var r := DecodeEntry(s, p, device);
      r.next == p + EntrySize(r.value) && r.value.record == s[p..p + USB_DEVICE_SIZE] &&
      forall j :: 0 <= j < |r.value.interfaces| ==> r.value.interfaces[j] == InterfaceAt(s, p + USB_DEVICE_SIZE + 4 * j)
  {
    EntryOutcome(s, p, device);
    var w := DecodeEntry(s, p, device).value;
    forall j | 0 <= j < |w.interfaces|
      ensures w.interfaces[j] == InterfaceAt(s, p + USB_DEVICE_SIZE + 4 * j)
    {
      InterfacesLayout(s, p + USB_DEVICE_SIZE, s[p + USB_DEVICE_SIZE - 1], device, j);
    }
  }

  /** The first `k` of `n` decoded devices are what decoding `k` devices
      gives, and device k is the entry that starts where they end: devices
      are read back to back, each with all of its interfaces, in the order
      the peer sent them. */
  lemma {:induction false} DevicesLayout(s: seq<byte>, p: nat, n: nat, k: nat)
    requires p <= |s| && DecodeDevices(s, p, n).Ok? && k < n
    ensures var v := DecodeDevices(s, p, n).value;
      |v| == n && DecodeDevices(s, p, k).Ok? && DecodeDevices(s, p, k).value == v[..k] &&
      DecodeEntry(s, DecodeDevices(s, p, k).next, k).Ok? &&
      DecodeEntry(s, DecodeDevices(s, p, k).next, k).value == v[k]
  {
    DevicesOutcome(s, p, n);
    DevicesOutcome(s, p, n - 1);
    var v := DecodeDevices(s, p, n).value;
    var v0 := DecodeDevices(s, p, n - 1).value;
    assert v == v0 + [v[n - 1]];
    if k < n - 1 {
      DevicesLayout(s, p, n - 1, k);
      assert v[..k] == v0[..k];
    } else {
      assert v[..k] == v0;
    }
  }

  // ---------------------------------------------------------------------------
  // How a failed pass stopped.

  /** Once a device cannot be received, later devices are never read: the
      failure of the first `k` devices is the failure of all `n`. */
  lemma {:induction false} DevicesFailurePersists(s: seq<byte>, p: nat, k: nat, n: nat)
    requires p <= |s| && k <= n && DecodeDevices(s, p, k).Fail?
    ensures DecodeDevices(s, p, n) == DecodeDevices(s, p, k)
    decreases n
  {
    if n > k {
      DevicesFailurePersists(s, p, k, n - 1);
    }
  }

  /** A failure reported for device `i` means devices 0..i-1 were received in
      full and the receive of device `i` (its record or one of its
      interfaces) was the one that came up short. */
  lemma {:induction false} DevicesFailureContext(s: seq<byte>, p: nat, n: nat)
    requires p <= |s| && DecodeDevices(s, p, n).Fail?
    ensures var e := DecodeDevices(s, p, n).error;
      (e.DeviceTruncated? || e.InterfaceTruncated?) && e.device < n &&
      DecodeDevices(s, p, e.device).Ok? &&
      DecodeEntry(s, DecodeDevices(s, p, e.device).next, e.device) == Fail(e)
    decreases n
  {
    DevicesOutcome(s, p, n);
    var prev := DecodeDevices(s, p, n - 1);
    if prev.Fail? {
      DevicesFailureContext(s, p, n - 1);
    } else {
      EntryOutcome(s, prev.next, n - 1);
    }
  }

  // ---------------------------------------------------------------------------
  // The decoders read a prefix of the stream and nothing beyond it.

  lemma {:induction false} ExtendInterfaces(s: seq<byte>, y: seq<byte>, p: nat, m: nat, device: nat)
    requires p <= |s| && DecodeInterfaces(s, p, m, device).Ok?
    ensures DecodeInterfaces(s + y, p, m, device) == DecodeInterfaces(s, p, m, device)
  {
    if m > 0 {
      ExtendInterfaces(s, y, p, m - 1, device);
      var q := DecodeInterfaces(s, p, m - 1, device).next;
      assert (s + y)[q..q + 4] == s[q..q + 4];
    }
  }

  lemma ExtendEntry(s: seq<byte>, y: seq<byte>, p: nat, device: nat)
    requires p <= |s| && DecodeEntry(s, p, device).Ok?
    ensures DecodeEntry(s + y, p, device) == DecodeEntry(s, p, device)
  {
    ReceivedSlice(s, p, USB_DEVICE_SIZE);
    ReceivedSlice(s + y, p, USB_DEVICE_SIZE);
    assert (s + y)[p..p + USB_DEVICE_SIZE] == s[p..p + USB_DEVICE_SIZE];
    ExtendInterfaces(s, y, p + USB_DEVICE_SIZE, s[p + USB_DEVICE_SIZE - 1], device);
  }

  lemma {:induction false} ExtendDevices(s: seq<byte>, y: seq<byte>, p: nat, n: nat)
    requires p <= |s| && DecodeDevices(s, p, n).Ok?
    ensures DecodeDevices(s + y, p, n) == DecodeDevices(s, p, n)
  {
    if n > 0 {
      var prev := DecodeDevices(s, p, n - 1);
      assert prev.Ok? by { DevicesPrefixOk(s, p, n); }
      ExtendDevices(s, y, p, n - 1);
      DevicesPrefixOk(s, p, n);
      ExtendEntry(s, y, prev.next, n - 1);
      DevicesStep(s, s + y, p, n);
    }
  }

  /** One more entry is decoded from the cursor the previous entries left. */
  lemma DevicesPrefixOk(s: seq<byte>, p: nat, n: nat)
    requires p <= |s| && n > 0 && DecodeDevices(s, p, n).Ok?
    ensures DecodeDevices(s, p, n - 1).Ok?
    ensures DecodeEntry(s, DecodeDevices(s, p, n - 1).next, n - 1).Ok?
  {
  }

  /** Two streams that agree on the first n - 1 entries and on the n-th decode the same n entries. */
  lemma DevicesStep(s: seq<byte>, t: seq<byte>, p: nat, n: nat)
    requires p <= |s| && p <= |t| && n > 0
    requires DecodeDevices(t, p, n - 1) == DecodeDevices(s, p, n - 1)
    requires DecodeDevices(s, p, n - 1).Ok?
    requires DecodeEntry(t, DecodeDevices(s, p, n - 1).next, n - 1) == DecodeEntry(s, DecodeDevices(s, p, n - 1).next, n - 1)
    ensures DecodeDevices(t, p, n) == DecodeDevices(s, p, n)
  {
  }

  /** Bytes that arrive after a complete reply do not change what it decodes to. */
  lemma ExtendReply(s: seq<byte>, y: seq<byte>)
    requires DecodeReply(s).Ok?
    ensures DecodeReply(s + y) == DecodeReply(s)
  {
    var hs := OP_COMMON_SIZE + DEVLIST_REPLY_SIZE;
    assert (s + y)[..OP_COMMON_SIZE] == s[..OP_COMMON_SIZE];
    assert (s + y)[OP_COMMON_SIZE..hs] == s[OP_COMMON_SIZE..hs];
    ExtendDevices(s, y, hs, DeclaredCount(s));
  }

  /** A stream cut anywhere before the end of a complete reply fails: no
      device list is ever produced from a truncated reply. */
  lemma TruncatedReplyFails(s: seq<byte>, k: nat)
    requires DecodeReply(s).Ok? && k <= |s|
    ensures k < Consumed(DecodeReply(s).value) ==> DecodeReply(s[..k]).Fail?
  {
    ReplyConsumed(s);
    assert s[..k] + s[k..] == s;
    if DecodeReply(s[..k]).Ok? {
      ExtendReply(s[..k], s[k..]);
    }
  }

  // ---------------------------------------------------------------------------
  // The server side: the network-order encoding of a device list.

  function EncodeInterfaces(ifs: seq<UsbInterface>): (b: seq<byte>)
    ensures |b| == USB_INTERFACE_SIZE * |ifs|
  {
    if ifs == [] then []
    else EncodeInterfaces(ifs[..|ifs| - 1]) + EncodeInterface(ifs[|ifs| - 1])
  }

  /** A device a server can send: its strings fit their fields and it
      carries as many interfaces as it declares. */
  predicate EncodableEntry(e: ExportedDevice)
  {
    Encodable(e.device) && Consistent(e)
  }

  /** The device with its record converted to network order. */
  function Pack(e: ExportedDevice): (w: WireDevice)
    requires EncodableEntry(e)
    ensures Complete(w) && ToHost(w) == e
  {
    DecodeEncodeDevice(e.device);
    WireDevice(EncodeDevice(e.device), e.interfaces)
  }

  /** A device list as a server sends it: every device complete, and
      converting the list back to host order gives the list. */
  function PackAll(devs: seq<ExportedDevice>): (ws: seq<WireDevice>)
    requires forall k :: 0 <= k < |devs| ==> EncodableEntry(devs[k])
    ensures |ws| == |devs| && forall k :: 0 <= k < |devs| ==> ws[k] == Pack(devs[k])
    ensures AllComplete(ws) && Listing(ws) == devs
  {
    seq(|devs|, k requires 0 <= k < |devs| => Pack(devs[k]))
  }

  function EncodeEntry(w: WireDevice): (b: seq<byte>)
    requires Complete(w)
    ensures |b| == EntrySize(w)
  {
    w.record + EncodeInterfaces(w.interfaces)
  }

  function EncodeDevices(ws: seq<WireDevice>): (b: seq<byte>)
    requires AllComplete(ws)
    ensures |b| == Size(ws)
  {
    if ws == [] then []
    else EncodeDevices(ws[..|ws| - 1]) + EncodeEntry(ws[|ws| - 1])
  }

  /** A device list a server can send: a 32-bit count of sendable devices. */
  predicate EncodableList(devs: seq<ExportedDevice>)
  {
    |devs| < 0x1_0000_0000 && forall k :: 0 <= k < |devs| ==> EncodableEntry(devs[k])
  }

  /** The OP_REP_DEVLIST reply a server sends for `devs`. */
  function EncodeReply(devs: seq<ExportedDevice>): (b: seq<byte>)
    requires EncodableList(devs)
    ensures |b| == Consumed(PackAll(devs))
  {
    EncodeOpCommon(OpCommon(USBIP_VERSION, OP_REP_DEVLIST, 0)) + EncodeU32(|devs|) + EncodeDevices(PackAll(devs))
  }

  /** The bytes of `b` appear in the stream from cursor `p` on. */
  predicate BytesAt(s: seq<byte>, p: nat, b: seq<byte>)
  {
    p + |b| <= |s| && forall i :: 0 <= i < |b| ==> s[p + i] == b[i]
  }

  /** Bytes `a + b` at cursor `p` are `a` at `p` and then `b` right after. */
  lemma BytesAtSplit(s: seq<byte>, p: nat, a: seq<byte>, b: seq<byte>)
    requires BytesAt(s, p, a + b)
    ensures BytesAt(s, p, a) && BytesAt(s, p + |a|, b)
  {
    forall i | 0 <= i < |a|
      ensures s[p + i] == a[i]
    {
      assert (a + b)[i] == a[i];
    }
    forall i | 0 <= i < |b|
      ensures s[p + |a| + i] == b[i]
    {
      assert (a + b)[|a| + i] == b[i];
    }
  }

  /** The interfaces encoded at cursor `p` decode to themselves, and the
      cursor ends just past them. */
  lemma {:induction false} DecodeEncodeInterfaces(s: seq<byte>, p: nat, ifs: seq<UsbInterface>, device: nat)
    requires BytesAt(s, p, EncodeInterfaces(ifs))
    ensures DecodeInterfaces(s, p, |ifs|, device) == Ok(ifs, p + 4 * |ifs|)
  {
    if ifs != [] {
      var init, last := ifs[..|ifs| - 1], ifs[|ifs| - 1];
      BytesAtSplit(s, p, EncodeInterfaces(init), EncodeInterface(last));
      DecodeEncodeInterfaces(s, p, init, device);
      InterfaceBytes(s, p + 4 * |init|, last);
      Snoc(ifs);
    }
  }

  lemma InterfaceBytes(s: seq<byte>, q: nat, x: UsbInterface)
    requires BytesAt(s, q, EncodeInterface(x))
    ensures q + 4 <= |s| && InterfaceAt(s, q) == x
  {
    var b := EncodeInterface(x);
    assert s[q + 0] == b[0] && s[q + 1] == b[1] && s[q + 2] == b[2];
  }

  lemma DecodeEncodeEntry(s: seq<byte>, p: nat, w: WireDevice, device: nat)
    requires Complete(w) && BytesAt(s, p, EncodeEntry(w))
    ensures DecodeEntry(s, p, device) == Ok(w, p + EntrySize(w))
  {
    BytesAtSplit(s, p, w.record, EncodeInterfaces(w.interfaces));
    assert s[p + USB_DEVICE_SIZE - 1] == w.record[USB_DEVICE_SIZE - 1];
    ReceivedSlice(s, p, USB_DEVICE_SIZE);
    assert s[p..p + USB_DEVICE_SIZE] == w.record;
    DecodeEncodeInterfaces(s, p + USB_DEVICE_SIZE, w.interfaces, device);
  }

  /** The devices encoded at cursor `p` decode to themselves, and the cursor
      ends just past them. */
  lemma {:induction false} DecodeEncodeDevices(s: seq<byte>, p: nat, ws: seq<WireDevice>)
    requires AllComplete(ws) && BytesAt(s, p, EncodeDevices(ws))
    ensures DecodeDevices(s, p, |ws|) == Ok(ws, p + Size(ws))
  {
    if ws != [] {
      var init, last := ws[..|ws| - 1], ws[|ws| - 1];
      var q := p + Size(init);
      BytesAtSplit(s, p, EncodeDevices(init), EncodeEntry(last));
      DecodeEncodeDevices(s, p, init);
      DecodeEncodeEntry(s, q, last, |init|);
      DevicesSnoc(s, p, |ws|, init, q, last, q + EntrySize(last));
      Snoc(ws);
    }
  }

  /** Decoding a reply that a server encoded gives back exactly its devices,
      in order, each with its interfaces and every field in host order,
      whatever follows it on the stream; and it reads exactly the bytes of
      the reply. */
  lemma DecodeEncodeReply(devs: seq<ExportedDevice>, rest: seq<byte>)
    requires EncodableList(devs)
    ensures DecodeReply(EncodeReply(devs) + rest) == Ok(PackAll(devs), Consumed(PackAll(devs)))
    ensures Listing(PackAll(devs)) == devs
  {
    EncodedReplyDecodes(devs, rest);
    ListingPackAll(devs);
  }

  /** The decoding half of DecodeEncodeReply: the header, then every device. */
  lemma EncodedReplyDecodes(devs: seq<ExportedDevice>, rest: seq<byte>)
    requires EncodableList(devs)
    ensures DecodeReply(EncodeReply(devs) + rest) == Ok(PackAll(devs), Consumed(PackAll(devs)))
  {
    EncodedReplyHeader(devs, rest);
    DecodeEncodeDevices(EncodeReply(devs) + rest, OP_COMMON_SIZE + DEVLIST_REPLY_SIZE, PackAll(devs));
  }

  /** An encoded reply carries OP_REP_DEVLIST, the device count, and then
      the encoded devices. */
  lemma EncodedReplyHeader(devs: seq<ExportedDevice>, rest: seq<byte>)
    requires EncodableList(devs)
    ensures var s := EncodeReply(devs) + rest;
      |s| >= OP_COMMON_SIZE + DEVLIST_REPLY_SIZE &&
      ReplyCode(s) == OP_REP_DEVLIST && DeclaredCount(s) == |devs| &&
      AllComplete(PackAll(devs)) &&
      BytesAt(s, OP_COMMON_SIZE + DEVLIST_REPLY_SIZE, EncodeDevices(PackAll(devs)))
  {
    var h := OpCommon(USBIP_VERSION, OP_REP_DEVLIST, 0);
    var head := EncodeOpCommon(h) + EncodeU32(|devs|);
    var s := EncodeReply(devs) + rest;
    BytesAtPrefix(EncodeReply(devs), rest);
    BytesAtSplit(s, 0, head, EncodeDevices(PackAll(devs)));
    HeaderBytes(s, h, |devs|);
  }

  /** A stream that starts with an encoded common header and an encoded count
      carries that header's code and that count. */
  lemma HeaderBytes(s: seq<byte>, h: OpCommon, n: u32)
    requires BytesAt(s, 0, EncodeOpCommon(h) + EncodeU32(n))
    ensures |s| >= OP_COMMON_SIZE + DEVLIST_REPLY_SIZE && ReplyCode(s) == h.code && DeclaredCount(s) == n
  {
    BytesAtSplit(s, 0, EncodeOpCommon(h), EncodeU32(n));
    assert s[..OP_COMMON_SIZE] == EncodeOpCommon(h);
    assert s[OP_COMMON_SIZE..OP_COMMON_SIZE + DEVLIST_REPLY_SIZE] == EncodeU32(n);
    DecodeEncodeOpCommon(h);
    DecodeEncodeU32(n);
  }

  /** Converting packed devices back to host order gives the devices. */
  lemma ListingPackAll(devs: seq<ExportedDevice>)
    requires forall k :: 0 <= k < |devs| ==> EncodableEntry(devs[k])
    ensures Listing(PackAll(devs)) == devs
  {
  }

  /** Every strict prefix of an encoded reply is rejected. */
  lemma TruncatedEncodingFails(devs: seq<ExportedDevice>, k: nat)
    requires EncodableList(devs)
    ensures k < |EncodeReply(devs)| ==> DecodeReply(EncodeReply(devs)[..k]).Fail?
  {
    var s := EncodeReply(devs);
    if k < |s| {
      DecodeEncodeReply(devs, []);
      assert s + [] == s;
      TruncatedReplyFails(s, k);
    }
  }

  // ---------------------------------------------------------------------------
  // Sequence facts used by the proofs above.

  /** A sequence sits at the front of any stream that starts with it. */
  lemma BytesAtPrefix(x: seq<byte>, rest: seq<byte>)
    ensures BytesAt(x + rest, 0, x)
  {
    forall i | 0 <= i < |x|
      ensures (x + rest)[0 + i] == x[i]
    {
    }
  }

  /** A non-empty sequence is its prefix followed by its last element. */
  lemma Snoc<T>(xs: seq<T>)
    requires xs != []
    ensures xs[..|xs| - 1] + [xs[|xs| - 1]] == xs
  {
  }
}
