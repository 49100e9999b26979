/**
 The bus-id filter of the local listing: a sysfs entry name is a USB
 device when it matches the extended regular expression
 ^[0-9]+-[0-9]+(\.[0-9]+)*$ , a bus number, a dash, and a dot-separated
 chain of port numbers ("1-2", "3-1.4.2"). Interface entries ("1-1:1.0")
 and root hubs ("usb1") do not match.
 */
module BusId {
  import opened Text

  /** Where a left-to-right scan of the expression stands after a prefix. */
  datatype State =
    | Start    // nothing read
    | Bus      // inside the bus number
    | Dash     // just read the dash
    | Port     // inside a port number: the only accepting state
    | Dot      // just read a dot
    | Reject   // no continuation can match

  function Step(st: State, c: char): State
  {
    match st
    case Start => if IsDigit(c) then Bus else Reject
    case Bus => if IsDigit(c) then Bus else if c == '-' then Dash else Reject
    case Dash => if IsDigit(c) then Port else Reject
    case Port => if IsDigit(c) then Port else if c == '.' then Dot else Reject
    case Dot => if IsDigit(c) then Port else Reject
    case Reject => Reject
  }

  /** The state after reading all of `s`. */
  function Scan(s: string): State
  {
    if s == [] then Start else Step(Scan(s[..|s| - 1]), s[|s| - 1])
  }

  /** is_usb_device: the whole name matches the expression. */
  predicate IsUsbDevice(busid: string)
  {
    Scan(busid) == Port
  }

  // ---------------------------------------------------------------------------
  // The same language described character by character.

  predicate AllDigits(t: string)
  {
    forall i :: 0 <= i < |t| ==> IsDigit(t[i])
  }

  predicate Sep(c: char)
  {
    c == '-' || c == '.'
  }

  /** Digits, dashes and dots only; a digit first and last; never two
      separators in a row; exactly one dash, and every dot after it. */
  predicate Shape(s: string)
  {
    |s| > 0 && IsDigit(s[0]) && IsDigit(s[|s| - 1]) && '-' in s &&
    (forall i :: 0 <= i < |s| ==> IsDigit(s[i]) || Sep(s[i])) &&
    (forall i :: 0 <= i < |s| - 1 ==> IsDigit(s[i]) || IsDigit(s[i + 1])) &&
    (forall i, k :: 0 <= i < k < |s| && s[k] == '-' ==> IsDigit(s[i]))
  }

  /** The state each prefix deserves, read off the description above. */
  function Classify(t: string): State
  {
    if t == [] then Start
    else if AllDigits(t) then Bus
    else if Shape(t) then Port
    else if |t| >= 2 && t[|t| - 1] == '-' && AllDigits(t[..|t| - 1]) then Dash
    else if t[|t| - 1] == '.' && Shape(t[..|t| - 1]) then Dot
    else Reject
  }

  /** The recogniser accepts exactly the names of that shape. */
  lemma IsUsbDeviceShape(s: string)
    ensures IsUsbDevice(s) <==> Shape(s)
  {
    ScanClassify(s);
    if Shape(s) {
      assert !AllDigits(s);
    }
  }

  /** The scan is in the state the prefix deserves, after every prefix. */
  lemma {:induction false} ScanClassify(t: string)
    ensures Scan(t) == Classify(t)
  {
    if t != [] {
      var u, c := t[..|t| - 1], t[|t| - 1];
      assert t == u + [c];
      ScanClassify(u);
      ClassifyStep(u, c);
    }
  }

  /** Reading one more character moves the deserved state by one step. */
  lemma ClassifyStep(u: string, c: char)
    ensures Classify(u + [c]) == Step(Classify(u), c)
  {
    var t := u + [c];
    assert t[..|t| - 1] == u;
    match Classify(u)
    case Start =>
      assert u == [];
    case Bus =>
      if IsDigit(c) {
        assert AllDigits(t);
      } else if c == '-' {
        assert t[|u|] == '-';
      } else {
        NotAfterBus(u, c);
      }
    case Dash =>
      if IsDigit(c) {
        DigitAfterDash(u, c);
      } else {
        NotAfterSep(u, c);
      }
    case Port =>
      if IsDigit(c) {
        DigitAfterPort(u, c);
      } else if c == '.' {
        assert !AllDigits(t) by { var d :| 0 <= d < |u| && u[d] == '-'; assert t[d] == '-'; }
      } else {
        NotAfterPort(u, c);
      }
    case Dot =>
      if IsDigit(c) {
        DigitAfterDot(u, c);
      } else {
        NotAfterSep(u, c);
      }
    case Reject =>
      RejectStays(u, c);
  }

  lemma DigitAfterDash(u: string, c: char)
    requires |u| >= 2 && u[|u| - 1] == '-' && AllDigits(u[..|u| - 1])
    requires IsDigit(c)
    ensures Classify(u + [c]) == Port
  {
    var t := u + [c];
    assert t[|u| - 1] == '-';
    assert !AllDigits(t);
    assert Shape(t);
  }

  lemma DigitAfterPort(u: string, c: char)
    requires Shape(u) && IsDigit(c)
    ensures Classify(u + [c]) == Port
  {
    var t := u + [c];
    assert '-' in t by { var d :| 0 <= d < |u| && u[d] == '-'; assert t[d] == '-'; }
    assert !AllDigits(t);
    assert Shape(t);
  }

  lemma DigitAfterDot(u: string, c: char)
    requires |u| > 0 && u[|u| - 1] == '.' && Shape(u[..|u| - 1])
    requires IsDigit(c)
    ensures Classify(u + [c]) == Port
  {
    var t := u + [c];
    var v := u[..|u| - 1];
    assert '-' in t by { var d :| 0 <= d < |v| && v[d] == '-'; assert t[d] == '-'; }
    assert !AllDigits(t);
    assert Shape(t);
  }

  lemma NotAfterBus(u: string, c: char)
    requires |u| > 0 && AllDigits(u) && !IsDigit(c) && c != '-'
    ensures Classify(u + [c]) == Reject
  {
    var t := u + [c];
    assert t[..|t| - 1] == u;
    assert t[|u|] == c;
    assert !Shape(u) by { assert '-' !in u; }
  }

  lemma NotAfterSep(u: string, c: char)
    requires |u| > 0 && Sep(u[|u| - 1]) && !IsDigit(c)
    ensures Classify(u + [c]) == Reject
  {
    var t := u + [c];
    assert t[..|t| - 1] == u;
    assert !AllDigits(t);
    assert !Shape(t);
    assert !AllDigits(u);
    assert !Shape(u);
  }

  lemma NotAfterPort(u: string, c: char)
    requires Shape(u) && !IsDigit(c) && c != '.'
    ensures Classify(u + [c]) == Reject
  {
    var t := u + [c];
    assert t[..|t| - 1] == u;
    assert !AllDigits(t);
    assert !Shape(t);
    if c == '-' {
      assert !AllDigits(u) by { var d :| 0 <= d < |u| && u[d] == '-'; }
    }
  }

  /** A prefix that no match can start never starts one. */
  lemma RejectStays(u: string, c: char)
    requires Classify(u) == Reject
    ensures Classify(u + [c]) == Reject
  {
    var t := u + [c];
    assert t[..|t| - 1] == u;
    var i :| 0 <= i < |u| && !IsDigit(u[i]);
    assert t[i] == u[i];
    if Shape(t) {
      ShapePrefix(u, c);
    }
  }

  /** Dropping the last digit of a matching name leaves a match, a name
      ending in the dash, or a name ending in a dot after a match. */
  lemma ShapePrefix(u: string, c: char)
    requires Shape(u + [c]) && |u| > 0
    ensures Shape(u) || (|u| >= 2 && u[|u| - 1] == '-' && AllDigits(u[..|u| - 1])) ||
            (u[|u| - 1] == '.' && Shape(u[..|u| - 1]))
  {
    var t := u + [c];
    assert forall i :: 0 <= i < |u| ==> t[i] == u[i];
    var d :| 0 <= d < |t| && t[d] == '-';
    assert d < |u|;
    if IsDigit(u[|u| - 1]) {
      assert u[d] == '-';
    } else if u[|u| - 1] == '-' {
      var v := u[..|u| - 1];
      assert t[|u| - 1] == '-';
      assert forall i :: 0 <= i < |v| ==> v[i] == t[i];
    } else {
      var v := u[..|u| - 1];
      assert forall i :: 0 <= i < |v| ==> v[i] == t[i];
      assert t[|u| - 2] == v[|v| - 1];
      assert v[d] == '-';
    }
  }

  // ---------------------------------------------------------------------------
  // Names the filter lets through and names it drops.

  /** The scan of a whole string, one character after another. */
  lemma {:induction false} ScanChars(s: string)
    ensures Scan(s) == ScanFrom(Start, s)
  {
    if s != [] {
      ScanChars(s[..|s| - 1]);
      ScanFromSnoc(Start, s[..|s| - 1], s[|s| - 1]);
      assert s[..|s| - 1] + [s[|s| - 1]] == s;
    }
  }

  /** Scanning from state `st`, front to back. */
  function ScanFrom(st: State, s: string): State
    decreases s
  {
    if s == [] then st else ScanFrom(Step(st, s[0]), s[1..])
  }

  lemma {:induction false} ScanFromSnoc(st: State, u: string, c: char)
    ensures ScanFrom(st, u + [c]) == Step(ScanFrom(st, u), c)
    decreases u
  {
    if u != [] {
      assert (u + [c])[1..] == u[1..] + [c];
      ScanFromSnoc(Step(st, u[0]), u[1..], c);
    }
  }

  lemma AcceptedNames()
    ensures IsUsbDevice("1-2") && IsUsbDevice("1-2.3") && IsUsbDevice("1-2.3.4")
  {
    ScanChars("1-2");
    ScanChars("1-2.3");
    ScanChars("1-2.3.4");
  }

  lemma RejectedNames()
    ensures !IsUsbDevice("usb1") && !IsUsbDevice("1-") && !IsUsbDevice("-1")
    ensures !IsUsbDevice("1..2") && !IsUsbDevice("1-1:1.0")
  {
    ScanChars("usb1");
    ScanChars("1-");
    ScanChars("-1");
    ScanChars("1..2");
    ScanChars("1-1:1.0");
  }
}
