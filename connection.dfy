/**
 The client side of one `usbip list -r` exchange over a connected socket:
 send OP_REQ_DEVLIST, receive the common reply header and the device count,
 then every device record followed by its interface records, printing as
 it goes. The socket is a class whose read cursor advances with every
 receive; what the peer will send is fixed when the connection is made.
 */
module Client {
  import opened ByteOrder
  import opened Records
  import opened Devlist
  import opened Report
  import opened Text

  /** A connected socket. `peer` is every byte the server sends before it
      closes its end; `pos` counts the bytes received so far; `sent` is
      what the client has written. `writable` is false when writes fail,
      and a failing send gets at most `partial` of its bytes out first. */
  class Connection {
    const peer: seq<byte>
    const writable: bool
    const partial: nat
    var pos: nat
    var sent: seq<byte>

    predicate Valid()
      reads this
    {
      pos <= |peer|
    }

    constructor(peer: seq<byte>, writable: bool, partial: nat)
      ensures Valid() && this.peer == peer && this.writable == writable && this.partial == partial
      ensures pos == 0 && sent == []
    {
      this.peer := peer;
      this.writable := writable;
      this.partial := partial;
      pos := 0;
      sent := [];
    }

    /** Write all of `b` (usbip_net_send): either every byte goes out, or
        the send fails after some leading part of `b` has gone out. */
    method Send(b: seq<byte>) returns (ok: bool)
      requires Valid()
      modifies this
      ensures Valid() && pos == old(pos)
      ensures ok == writable
      ensures ok ==> sent == old(sent) + b
      ensures !ok ==> exists k :: 0 <= k <= |b| && sent == old(sent) + b[..k]
    {
      ok := writable;
      if ok {
        sent := sent + b;
      } else {
        var k := if partial < |b| then partial else |b|;
        sent := sent + b[..k];
      }
    }

    /** Receive exactly `n` bytes (usbip_recv). When fewer remain, the
        receive fails after taking what was left. */
    method Recv(n: nat) returns (data: seq<byte>, ok: bool)
      requires Valid()
      modifies this
      ensures Valid() && sent == old(sent)
      ensures ok <==> old(pos) + n <= |peer|
      ensures ok ==> data == Received(peer, old(pos), n) && pos == old(pos) + n
      ensures !ok ==> pos == |peer|
    {
      if pos + n <= |peer| {
        data, ok := Received(peer, pos, n), true;
        pos := pos + n;
      } else {
        data, ok := peer[pos..], false;
        pos := |peer|;
      }
    }
  }

  /** The request: op_common with version 0x0111, OP_REQ_DEVLIST, status 0. */
  function DevlistRequest(): (b: seq<byte>)
    ensures |b| == OP_COMMON_SIZE
  {
    EncodeOpCommon(OpCommon(USBIP_VERSION, OP_REQ_DEVLIST, 0))
  }

  /** The server reads back the version, the request code and a zero status. */
  lemma DevlistRequestDecodes()
    ensures DecodeOpCommon(DevlistRequest()) == OpCommon(0x0111, 0x8005, 0)
  {
    DecodeEncodeOpCommon(OpCommon(USBIP_VERSION, OP_REQ_DEVLIST, 0));
  }

  /** The outcome of one exchange: a failed send, or the decoded reply. */
  function Exchange(writable: bool, s: seq<byte>): Outcome<seq<WireDevice>>
  {
    if writable then DecodeReply(s) else Fail(SendFailed)
  }

  /** An unsigned 32-bit count returned through a C `int`. */
  function AsInt32(x: u32): (r: int)
    ensures -0x8000_0000 <= r < 0x8000_0000
    ensures r >= 0 <==> x < 0x8000_0000
  {
    if x < 0x8000_0000 then x else x - 0x1_0000_0000
  }

  /** What the query returns: -1 on any failure, otherwise the number of
      devices received, which is the count the server declared. */
  function Returned(writable: bool, s: seq<byte>): (r: int)
    ensures Exchange(writable, s).Fail? ==> r == -1
    ensures Exchange(writable, s).Ok? ==> (r >= 0 <==> |Exchange(writable, s).value| < 0x8000_0000)
    ensures r >= 0 ==> Exchange(writable, s).Ok? && r == |Exchange(writable, s).value|
  {
    var r := Exchange(writable, s);
    if r.Fail? then -1
    else
      ReplyOutcome(s);
      AsInt32(DeclaredCount(s))
  }

  /** Where the read cursor stops after a failed exchange: a failed send
      reads nothing; a reply header with the wrong code has been read in
      full; every other failure is a short receive, which drains the socket. */
  function StopPos(e: Error, len: nat): nat
  {
    match e
    case SendFailed => 0
    case ProtocolMismatch(_) => OP_COMMON_SIZE
    case _ => len
  }

  /** Everything printed during the exchange. */
  function Printed(names: NameDb, writable: bool, s: seq<byte>): seq<string>
  {
    if writable then ReplyPrinted(names, s) else []
  }

  /** query_exported_devices: -1 on any failure, otherwise the device count
      the server declared, returned as a C int. */
  method QueryExportedDevices(conn: Connection, names: NameDb) returns (ret: int, out: seq<string>)
    requires conn.Valid() && conn.pos == 0
    modifies conn
    ensures conn.Valid()
    ensures conn.writable ==> conn.sent == old(conn.sent) + DevlistRequest()
    ensures !conn.writable ==> exists k :: 0 <= k <= OP_COMMON_SIZE && conn.sent == old(conn.sent) + DevlistRequest()[..k]
    ensures ret == Returned(conn.writable, conn.peer)
    ensures var r := Exchange(conn.writable, conn.peer);
      (r.Ok? ==> conn.pos == r.next) && (r.Fail? ==> conn.pos == StopPos(r.error, |conn.peer|))
    ensures out == Printed(names, conn.writable, conn.peer)
  {
    var ok, ndev := ReceiveHeader(conn);
    if !ok {
      HandshakeFailed(names, conn.writable, conn.peer);
      return -1, [];
    }
    var complete;
    complete, out := ReceiveDevices(conn, names, ndev);
    ret := if complete then AsInt32(ndev) else -1;
  }

  /** Send the request, then receive the common reply header, check its
      code, and receive the device count. */
  method ReceiveHeader(conn: Connection) returns (ok: bool, ndev: u32)
    requires conn.Valid() && conn.pos == 0
    modifies conn
    ensures conn.Valid()
    ensures conn.writable ==> conn.sent == old(conn.sent) + DevlistRequest()
    ensures !conn.writable ==> exists k :: 0 <= k <= OP_COMMON_SIZE && conn.sent == old(conn.sent) + DevlistRequest()[..k]
    ensures ok <==> conn.writable && FIRST_DEVICE <= |conn.peer| && ReplyCode(conn.peer) == OP_REP_DEVLIST
    ensures ok ==> ndev == DeclaredCount(conn.peer) && conn.pos == FIRST_DEVICE
    ensures !ok ==> var r := Exchange(conn.writable, conn.peer);
      r.Fail? && conn.pos == StopPos(r.error, |conn.peer|)
  {
    var sentOk := conn.Send(DevlistRequest());
    if !sentOk {
      return false, 0;
    }
    var header, got := conn.Recv(OP_COMMON_SIZE);
    if !got {
      HandshakeFailures(conn.peer);
      return false, 0;
    }
    var code := DecodeOpCommon(header).code;
    ReceivedSlice(conn.peer, 0, OP_COMMON_SIZE);
    assert conn.peer[0..OP_COMMON_SIZE] == conn.peer[..OP_COMMON_SIZE];
    if code != OP_REP_DEVLIST {
      HandshakeFailures(conn.peer);
      return false, 0;
    }
    var reply, gotCount := conn.Recv(DEVLIST_REPLY_SIZE);
    if !gotCount {
      HandshakeFailures(conn.peer);
      return false, 0;
    }
    ReceivedSlice(conn.peer, OP_COMMON_SIZE, DEVLIST_REPLY_SIZE);
    ndev := DecodeU32(reply);
    ok := true;
  }

  /** The device loop: receive `ndev` devices, each with its interfaces,
      printing as they arrive, and stop at the first receive that fails. */
  method ReceiveDevices(conn: Connection, names: NameDb, ndev: u32) returns (ok: bool, out: seq<string>)
    requires conn.Valid() && conn.writable && conn.pos == FIRST_DEVICE && FIRST_DEVICE <= |conn.peer|
    requires ReplyCode(conn.peer) == OP_REP_DEVLIST && ndev == DeclaredCount(conn.peer)
    modifies conn
    ensures conn.Valid() && conn.sent == old(conn.sent)
    ensures var r := DecodeReply(conn.peer);
      (ok <==> r.Ok?) && (r.Ok? ==> conn.pos == r.next) && (r.Fail? ==> conn.pos == StopPos(r.error, |conn.peer|))
    ensures out == ReplyPrinted(names, conn.peer)
  {
    out := [];
    var i := 0;
    while i < ndev
      invariant conn.Valid() && conn.sent == old(conn.sent)
      invariant i <= ndev
      invariant var r := DecodeDevices(conn.peer, FIRST_DEVICE, i);
        r.Ok? && conn.pos == r.next && AllComplete(r.value) && out == Render(names, Listing(r.value))
    {
      var received, lines := ReceiveDevice(conn, names, i);
      if !received {
        DeviceFailed(names, conn.peer, i);
        return false, out + lines;
      }
      DeviceReceived(names, conn.peer, i);
      out := out + lines;
      i := i + 1;
    }
    ListingDone(names, conn.peer);
    ok := true;
  }

  /** The cursor of the first device record: past the common header and the
      device count. */
  const FIRST_DEVICE: nat := OP_COMMON_SIZE + DEVLIST_REPLY_SIZE

  /** One iteration of the device loop: receive the record of device number
      `device`, print its header lines, then receive and print each of the
      interfaces it declares. */
  method ReceiveDevice(conn: Connection, names: NameDb, device: nat) returns (ok: bool, lines: seq<string>)
    requires conn.Valid()
    modifies conn
    ensures conn.Valid() && conn.sent == old(conn.sent)
    ensures var e := DecodeEntry(conn.peer, old(conn.pos), device);
      (ok <==> e.Ok?) &&
      (ok ==> conn.pos == e.next && Complete(e.value) && lines == DeviceLines(names, ToHost(e.value))) &&
      (!ok ==> conn.pos == |conn.peer| && lines == EntryPrinted(names, conn.peer, old(conn.pos), device))
  {
    var p := conn.pos;
    var record, got := conn.Recv(USB_DEVICE_SIZE);
    if !got {
      return false, [];
    }
    var udev := DecodeDevice(record);
    lines := HeaderLines(names, udev);
    var q := p + USB_DEVICE_SIZE;
    var j := 0;
    while j < udev.bNumInterfaces
      invariant conn.Valid() && conn.sent == old(conn.sent)
      invariant q <= |conn.peer| && j <= udev.bNumInterfaces
      invariant var r := DecodeInterfaces(conn.peer, q, j, device);
        r.Ok? && conn.pos == r.next && lines == HeaderLines(names, udev) + InterfaceLines(names, r.value)
    {
      var data, gotInterface := conn.Recv(USB_INTERFACE_SIZE);
      if !gotInterface {
        InterfaceFailed(names, conn.peer, p, device, j);
        return false, lines;
      }
      var uinf := DecodeInterface(data);
      InterfaceReceived(names, conn.peer, q, j, device);
      AppendAssoc(HeaderLines(names, udev), InterfaceLines(names, DecodeInterfaces(conn.peer, q, j, device).value),
                  [InterfaceLine(names, j, uinf)]);
      lines := lines + [InterfaceLine(names, j, uinf)];
      j := j + 1;
    }
    EntryReceived(names, conn.peer, p, device);
    lines := lines + [""];
    ok := true;
  }

  // ---------------------------------------------------------------------------
  // One step of each loop, against the decoders and the printed lines.

  /** Interface j arrived in full: the interfaces received grow by it, and
      its line, numbered j, is printed next. */
  lemma InterfaceReceived(names: NameDb, s: seq<byte>, q: nat, j: nat, device: nat)
    requires q <= |s| && DecodeInterfaces(s, q, j, device).Ok?
    requires DecodeInterfaces(s, q, j, device).next + USB_INTERFACE_SIZE <= |s|
    ensures var r := DecodeInterfaces(s, q, j, device);
      var x := DecodeInterface(Received(s, r.next, USB_INTERFACE_SIZE));
      DecodeInterfaces(s, q, j + 1, device) == Ok(r.value + [x], r.next + USB_INTERFACE_SIZE) &&
      InterfaceLines(names, r.value + [x]) == InterfaceLines(names, r.value) + [InterfaceLine(names, j, x)]
  {
    var r := DecodeInterfaces(s, q, j, device);
    var x := DecodeInterface(Received(s, r.next, USB_INTERFACE_SIZE));
    InterfacesOutcome(s, q, j, device);
    assert (r.value + [x])[..|r.value|] == r.value;
  }

  /** Interface j came up short: the device fails, and what was printed for
      it is its header and the lines of interfaces 0..j-1. */
  lemma InterfaceFailed(names: NameDb, s: seq<byte>, p: nat, device: nat, j: nat)
    requires p + USB_DEVICE_SIZE <= |s| && j < s[p + USB_DEVICE_SIZE - 1]
    requires DecodeInterfaces(s, p + USB_DEVICE_SIZE, j, device).Ok?
    requires DecodeInterfaces(s, p + USB_DEVICE_SIZE, j, device).next + USB_INTERFACE_SIZE > |s|
    ensures DecodeEntry(s, p, device).Fail?
    ensures EntryPrinted(names, s, p, device) ==
      HeaderLines(names, DecodeDevice(Received(s, p, USB_DEVICE_SIZE))) +
      InterfaceLines(names, DecodeInterfaces(s, p + USB_DEVICE_SIZE, j, device).value)
  {
    var q := p + USB_DEVICE_SIZE;
    InterfacesOutcome(s, q, j, device);
    InterfacesOutcome(s, q, s[p + USB_DEVICE_SIZE - 1], device);
    var k := DecodeInterfaces(s, q, s[p + USB_DEVICE_SIZE - 1], device).error.index;
    SameSlot(q, |s|, j, k);
  }

  /** The cursor position `len` lies in the 4-byte slot of exactly one record. */
  lemma SameSlot(q: nat, len: nat, j: nat, k: nat)
    requires q + 4 * j <= len < q + 4 * j + 4 && q + 4 * k <= len < q + 4 * k + 4
    ensures j == k
  {
  }

  /** All declared interfaces arrived: the device is received, and its lines
      are the header, the interface lines and the blank line. */
  lemma EntryReceived(names: NameDb, s: seq<byte>, p: nat, device: nat)
    requires p + USB_DEVICE_SIZE <= |s|
    requires DecodeInterfaces(s, p + USB_DEVICE_SIZE, s[p + USB_DEVICE_SIZE - 1], device).Ok?
    ensures var e := DecodeEntry(s, p, device);
      var ifs := DecodeInterfaces(s, p + USB_DEVICE_SIZE, s[p + USB_DEVICE_SIZE - 1], device);
      e.Ok? && e.next == ifs.next && Complete(e.value) &&
      DeviceLines(names, ToHost(e.value)) ==
        HeaderLines(names, DecodeDevice(Received(s, p, USB_DEVICE_SIZE))) + InterfaceLines(names, ifs.value) + [""]
  {
    EntryOutcome(s, p, device);
  }

  /** Device i arrived in full: the devices received grow by it, and its
      lines follow those of the devices before it. */
  lemma DeviceReceived(names: NameDb, s: seq<byte>, i: nat)
    requires FIRST_DEVICE <= |s|
    requires DecodeDevices(s, FIRST_DEVICE, i).Ok? && AllComplete(DecodeDevices(s, FIRST_DEVICE, i).value)
    requires DecodeEntry(s, DecodeDevices(s, FIRST_DEVICE, i).next, i).Ok?
    ensures var prev := DecodeDevices(s, FIRST_DEVICE, i);
      var e := DecodeEntry(s, prev.next, i);
      var r := DecodeDevices(s, FIRST_DEVICE, i + 1);
      r.Ok? && r.next == e.next && Complete(e.value) && AllComplete(r.value) &&
      Render(names, Listing(r.value)) == Render(names, Listing(prev.value)) + DeviceLines(names, ToHost(e.value))
  {
    var prev := DecodeDevices(s, FIRST_DEVICE, i);
    var e := DecodeEntry(s, prev.next, i);
    EntryOutcome(s, prev.next, i);
    DevicesSnoc(s, FIRST_DEVICE, i + 1, prev.value, prev.next, e.value, e.next);
    ListingSnoc(prev.value, e.value);
    RenderSnoc(names, Listing(prev.value), ToHost(e.value));
  }

  /** Device i came up short: the whole reply fails with that device's
      error, the socket is drained, and what was printed is the lines of
      devices 0..i-1 and whatever device i printed. */
  lemma DeviceFailed(names: NameDb, s: seq<byte>, i: nat)
    requires FIRST_DEVICE <= |s| && ReplyCode(s) == OP_REP_DEVLIST && i < DeclaredCount(s)
    requires DecodeDevices(s, FIRST_DEVICE, i).Ok? && AllComplete(DecodeDevices(s, FIRST_DEVICE, i).value)
    requires DecodeEntry(s, DecodeDevices(s, FIRST_DEVICE, i).next, i).Fail?
    ensures var prev := DecodeDevices(s, FIRST_DEVICE, i);
      var e := DecodeEntry(s, prev.next, i);
      DecodeReply(s) == Fail(e.error) && StopPos(e.error, |s|) == |s| &&
      ReplyPrinted(names, s) == Render(names, Listing(prev.value)) + EntryPrinted(names, s, prev.next, i)
  {
    var prev := DecodeDevices(s, FIRST_DEVICE, i);
    EntryOutcome(s, prev.next, i);
    assert DecodeDevices(s, FIRST_DEVICE, i + 1).Fail?;
    DevicesFailurePersists(s, FIRST_DEVICE, i + 1, DeclaredCount(s));
  }

  /** A pass that stops before the device count prints nothing and returns -1. */
  lemma HandshakeFailed(names: NameDb, writable: bool, s: seq<byte>)
    requires !(writable && FIRST_DEVICE <= |s| && ReplyCode(s) == OP_REP_DEVLIST)
    ensures Exchange(writable, s).Fail? && Returned(writable, s) == -1 && Printed(names, writable, s) == []
  {
    HandshakeFailures(s);
  }

  /** All declared devices arrived: the reply is exactly those devices, and
      what was printed is their lines. */
  lemma ListingDone(names: NameDb, s: seq<byte>)
    requires FIRST_DEVICE <= |s| && ReplyCode(s) == OP_REP_DEVLIST
    requires DecodeDevices(s, FIRST_DEVICE, DeclaredCount(s)).Ok?
    requires AllComplete(DecodeDevices(s, FIRST_DEVICE, DeclaredCount(s)).value)
    ensures var r := DecodeDevices(s, FIRST_DEVICE, DeclaredCount(s));
      DecodeReply(s) == r && |r.value| == DeclaredCount(s) &&
      ReplyPrinted(names, s) == Render(names, Listing(r.value))
  {
    DevicesOutcome(s, FIRST_DEVICE, DeclaredCount(s));
  }
}
