/**
 `usbip list -l` and `usbip list -l -p`: walk the entries of the sysfs USB
 device directory in the order the directory yields them, keep the names
 that are USB devices, and print each with its interfaces, in a
 human-readable or a '#'-separated parsable format. Lines are given without
 their terminating newline.
 */
module LocalList {
  import opened Text
  import opened BusId

  datatype Option<T> = None | Some(value: T)

  /** The sysfs attribute reads of one run. Each read of a device
      attribute yields a value; a driver lookup may write nothing into the
      caller's buffer, which is `None`. */
  datatype Sysfs = Sysfs(
    bConfigurationValue: string -> int,
    bNumInterfaces: string -> int,
    deviceName: string -> string,
    driver: (string, int, nat) -> Option<string>)

  /** How many times `for (i = 0; i < n; i++)` runs. */
  function Count(n: int): nat
  {
    if n > 0 then n else 0
  }

  /** The device's driver buffer after the lookups for interfaces 0..n-1:
      empty at first, then what the latest lookup that wrote anything wrote. */
  function DriverBuffer(fs: Sysfs, busid: string, conf: int, n: nat): string
  {
    if n == 0 then ""
    else match fs.driver(busid, conf, n - 1)
      case Some(d) => d
      case None => DriverBuffer(fs, busid, conf, n - 1)
  }

  /** The driver printed for an interface is empty or the result of a lookup
      for that interface or an earlier one of the same device. */
  lemma {:induction false} DriverBufferSource(fs: Sysfs, busid: string, conf: int, n: nat)
    ensures var d := DriverBuffer(fs, busid, conf, n);
      d == "" || exists i :: 0 <= i < n && fs.driver(busid, conf, i) == Some(d)
  {
    if n > 0 && fs.driver(busid, conf, n - 1).None? {
      DriverBufferSource(fs, busid, conf, n - 1);
    }
  }

  /** The names kept, in directory order. */
  function Accepted(entries: seq<string>): (bs: seq<string>)
  {
    if entries == [] then []
    else Accepted(entries[..|entries| - 1]) + (if IsUsbDevice(entries[|entries| - 1]) then [entries[|entries| - 1]] else [])
  }

  /** A name is kept exactly when it is a directory entry that is a USB device. */
  lemma {:induction false} AcceptedNames(entries: seq<string>)
    ensures forall b :: b in Accepted(entries) <==> b in entries && IsUsbDevice(b)
  {
    if entries != [] {
      var init, last := entries[..|entries| - 1], entries[|entries| - 1];
      AcceptedNames(init);
      assert entries == init + [last];
    }
  }

  // ---------------------------------------------------------------------------
  // show_devices: the human-readable format.

  function DeviceLine(busid: string, name: string): string
  {
    " - busid " + busid + " (" + name + ")"
  }

  function InterfaceLine(busid: string, conf: int, i: nat, driver: string): string
  {
    "         " + busid + ":" + IntToString(conf) + "." + NatToString(i) + " -> " + driver
  }

  /** The lines for interfaces 0..n-1 of a device. */
  function InterfaceLines(fs: Sysfs, busid: string, conf: int, n: nat): (ls: seq<string>)
    ensures |ls| == n
  {
    if n == 0 then []
    else InterfaceLines(fs, busid, conf, n - 1) + [InterfaceLine(busid, conf, n - 1, DriverBuffer(fs, busid, conf, n))]
  }

  /** Line i names interface i, with the driver buffer after its lookup. */
  lemma {:induction false} InterfaceNumbering(fs: Sysfs, busid: string, conf: int, n: nat, i: nat)
    requires i < n
    ensures InterfaceLines(fs, busid, conf, n)[i] == InterfaceLine(busid, conf, i, DriverBuffer(fs, busid, conf, i + 1))
  {
    if i < n - 1 {
      InterfaceNumbering(fs, busid, conf, n - 1, i);
    }
  }

  /** Everything printed for one USB device. */
  function Block(fs: Sysfs, busid: string): (ls: seq<string>)
    ensures |ls| == Count(fs.bNumInterfaces(busid)) + 2
  {
    var conf := fs.bConfigurationValue(busid);
    [DeviceLine(busid, fs.deviceName(busid))]
    + InterfaceLines(fs, busid, conf, Count(fs.bNumInterfaces(busid))) + [""]
  }

  /** The output of show_devices for the directory entries `entries`. */
  function Listing(fs: Sysfs, entries: seq<string>): seq<string>
  {
    if entries == [] then ["List USB devices"]
    else
      var last := entries[|entries| - 1];
      Listing(fs, entries[..|entries| - 1]) + (if IsUsbDevice(last) then Block(fs, last) else [])
  }

  /** The blocks of the given devices, one after another. */
  function Blocks(fs: Sysfs, bs: seq<string>): seq<string>
  {
    if bs == [] then [] else Blocks(fs, bs[..|bs| - 1]) + Block(fs, bs[|bs| - 1])
  }

  /** The listing is its title followed by one block per kept name, in
      directory order; other entries print nothing. */
  lemma {:induction false} ListingBlocks(fs: Sysfs, entries: seq<string>)
    ensures Listing(fs, entries) == ["List USB devices"] + Blocks(fs, Accepted(entries))
  {
    if entries != [] {
      var init, last := entries[..|entries| - 1], entries[|entries| - 1];
      ListingBlocks(fs, init);
      if IsUsbDevice(last) {
        var a := Accepted(init) + [last];
        assert a[..|a| - 1] == Accepted(init);
      } else {
        assert Accepted(init) + [] == Accepted(init);
      }
    }
  }

  /** show_devices: the readdir loop and, for each USB device, the loop over
      its interfaces. */
  method ShowDevices(fs: Sysfs, entries: seq<string>) returns (out: seq<string>)
    ensures out == Listing(fs, entries)
  {
    out := ["List USB devices"];
    var k := 0;
    while k < |entries|
      invariant k <= |entries|
      invariant out == Listing(fs, entries[..k])
    {
      var busid := entries[k];
      assert entries[..k + 1][..k] == entries[..k];
      if IsUsbDevice(busid) {
        var conf := fs.bConfigurationValue(busid);
        var ninf := fs.bNumInterfaces(busid);
        var name := fs.deviceName(busid);
        var lines := PrintInterfaces(fs, busid, conf, ninf);
        BlockAppended(fs, busid, out, lines);
        out := out + [DeviceLine(busid, name)] + lines + [""];
      }
      k := k + 1;
    }
    assert entries[..k] == entries;
  }

  /** The loop over one device's interfaces: for each, look up its driver
      and print its line. */
  method PrintInterfaces(fs: Sysfs, busid: string, conf: int, ninf: int) returns (lines: seq<string>)
    ensures lines == InterfaceLines(fs, busid, conf, Count(ninf))
  {
    lines := [];
    var driver := "";
    var i := 0;
    while i < ninf
      invariant 0 <= i <= Count(ninf)
      invariant driver == DriverBuffer(fs, busid, conf, i)
      invariant lines == InterfaceLines(fs, busid, conf, i)
      decreases ninf - i
    {
      match fs.driver(busid, conf, i) {
        case Some(d) => driver := d;
        case None =>
      }
      lines := lines + [InterfaceLine(busid, conf, i, driver)];
      i := i + 1;
    }
    assert i == Count(ninf);
  }

  lemma BlockAppended(fs: Sysfs, busid: string, before: seq<string>, lines: seq<string>)
    requires lines == InterfaceLines(fs, busid, fs.bConfigurationValue(busid), Count(fs.bNumInterfaces(busid)))
    ensures before + [DeviceLine(busid, fs.deviceName(busid))] + lines + [""] == before + Block(fs, busid)
  {
    var d := [DeviceLine(busid, fs.deviceName(busid))];
    AppendAssoc(before, d, lines);
    AppendAssoc(before, d + lines, [""]);
  }

  // ---------------------------------------------------------------------------
  // show_devices2: the parsable format, one line per device.

  /** `<busid>:<conf>.<i>=<driver>#` */
  function ParsableEntry(busid: string, conf: int, i: nat, driver: string): string
  {
    busid + ":" + IntToString(conf) + "." + NatToString(i) + "=" + driver + "#"
  }

  /** The entries for interfaces 0..n-1, in order. */
  function ParsableEntries(fs: Sysfs, busid: string, conf: int, n: nat): (es: seq<string>)
    ensures |es| == n
  {
    if n == 0 then []
    else ParsableEntries(fs, busid, conf, n - 1) + [ParsableEntry(busid, conf, n - 1, DriverBuffer(fs, busid, conf, n))]
  }

  /** Entry i names interface i, with the driver buffer after its lookup. */
  lemma {:induction false} ParsableNumbering(fs: Sysfs, busid: string, conf: int, n: nat, i: nat)
    requires i < n
    ensures ParsableEntries(fs, busid, conf, n)[i] == ParsableEntry(busid, conf, i, DriverBuffer(fs, busid, conf, i + 1))
  {
    if i < n - 1 {
      ParsableNumbering(fs, busid, conf, n - 1, i);
    }
  }

  function Concat(xs: seq<string>): string
  {
    if xs == [] then "" else Concat(xs[..|xs| - 1]) + xs[|xs| - 1]
  }

  /** The line printed for one USB device: `busid=<id>#usbid=<name>#` and then
      one entry per interface. */
  function ParsableLine(fs: Sysfs, busid: string): string
  {
    var conf := fs.bConfigurationValue(busid);
    "busid=" + busid + "#usbid=" + fs.deviceName(busid) + "#"
    + Concat(ParsableEntries(fs, busid, conf, Count(fs.bNumInterfaces(busid))))
  }

  /** The output of show_devices2 for the directory entries `entries`. */
  function ParsableListing(fs: Sysfs, entries: seq<string>): seq<string>
  {
    if entries == [] then []
    else
      var last := entries[|entries| - 1];
      ParsableListing(fs, entries[..|entries| - 1]) + (if IsUsbDevice(last) then [ParsableLine(fs, last)] else [])
  }

  /** One line per kept name, in directory order. */
  lemma {:induction false} ParsableLines(fs: Sysfs, entries: seq<string>)
    ensures |ParsableListing(fs, entries)| == |Accepted(entries)|
    ensures forall k :: 0 <= k < |Accepted(entries)| ==> ParsableListing(fs, entries)[k] == ParsableLine(fs, Accepted(entries)[k])
  {
    if entries != [] {
      ParsableLines(fs, entries[..|entries| - 1]);
    }
  }

  /** The loop over one device's interfaces in the parsable format: the
      entries it prints, one per interface. */
  method PrintParsableInterfaces(fs: Sysfs, busid: string, conf: int, ninf: int) returns (pieces: seq<string>)
    ensures pieces == ParsableEntries(fs, busid, conf, Count(ninf))
  {
    pieces := [];
    var driver := "";
    var i := 0;
    while i < ninf
      invariant 0 <= i <= Count(ninf)
      invariant driver == DriverBuffer(fs, busid, conf, i)
      invariant pieces == ParsableEntries(fs, busid, conf, i)
      decreases ninf - i
    {
      match fs.driver(busid, conf, i) {
        case Some(d) => driver := d;
        case None =>
      }
      pieces := pieces + [ParsableEntry(busid, conf, i, driver)];
      i := i + 1;
    }
    assert i == Count(ninf);
  }

  /** show_devices2: the same two loops, building each device's line. */
  method ShowDevices2(fs: Sysfs, entries: seq<string>) returns (out: seq<string>)
    ensures out == ParsableListing(fs, entries)
  {
    out := [];
    var k := 0;
    while k < |entries|
      invariant k <= |entries|
      invariant out == ParsableListing(fs, entries[..k])
    {
      var busid := entries[k];
      assert entries[..k + 1][..k] == entries[..k];
      if IsUsbDevice(busid) {
        var conf := fs.bConfigurationValue(busid);
        var ninf := fs.bNumInterfaces(busid);
        var name := fs.deviceName(busid);
        var pieces := PrintParsableInterfaces(fs, busid, conf, ninf);
        out := out + ["busid=" + busid + "#usbid=" + name + "#" + Concat(pieces)];
      }
      k := k + 1;
    }
    assert entries[..k] == entries;
  }

  /** Device 1-1, named Widget, configuration 1, one interface bound to the
      hub driver, prints as a single parsable line; the root hub and the
      interface entry beside it print nothing. */
  lemma ParsableExample(fs: Sysfs)
    requires fs.bConfigurationValue("1-1") == 1 && fs.bNumInterfaces("1-1") == 1
    requires fs.deviceName("1-1") == "Widget" && fs.driver("1-1", 1, 0) == Some("hub")
    ensures ParsableListing(fs, ["usb1", "1-1", "1-1:1.0"]) == ["busid=1-1#usbid=Widget#1-1:1.0=hub#"]
  {
    RejectedNames();
    ScanChars("1-1");
    var es := ["usb1", "1-1", "1-1:1.0"];
    assert es[..2][..1] == ["usb1"] && es[..2] == ["usb1", "1-1"] && es[..1] == ["usb1"];
    assert ParsableListing(fs, ["usb1"]) == [];
    ExampleLine(fs);
  }

  lemma ExampleLine(fs: Sysfs)
    requires fs.bConfigurationValue("1-1") == 1 && fs.bNumInterfaces("1-1") == 1
    requires fs.deviceName("1-1") == "Widget" && fs.driver("1-1", 1, 0) == Some("hub")
    ensures ParsableLine(fs, "1-1") == "busid=1-1#usbid=Widget#1-1:1.0=hub#"
  {
    var e := ParsableEntry("1-1", 1, 0, "hub");
    ExampleEntry();
    assert ParsableEntries(fs, "1-1", 1, 1) == [e];
    assert Concat([e]) == e;
    assert ParsableLine(fs, "1-1") == "busid=" + "1-1" + "#usbid=" + "Widget" + "#" + e;
    ExampleText();
  }

  lemma ExampleText()
    ensures "busid=" + "1-1" + "#usbid=" + "Widget" + "#" + "1-1:1.0=hub#" == "busid=1-1#usbid=Widget#1-1:1.0=hub#"
  {
  }

  lemma ExampleEntry()
    ensures ParsableEntry("1-1", 1, 0, "hub") == "1-1:1.0=hub#"
  {
    assert NatToString(0) == "0" && IntToString(1) == "1";
  }
}
