/**
 The pieces of printf formatting the listings use: a decimal integer (`%d`)
 and right alignment in a minimum field width (`%8s`, `%2d`).
 */
module Text {

  predicate IsDigit(c: char)
  {
    '0' <= c <= '9'
  }

  /** The value of a string of decimal digits. */
  function DigitsValue(s: string): nat
    requires forall i :: 0 <= i < |s| ==> IsDigit(s[i])
  {
    if s == [] then 0
    else
      assert IsDigit(s[|s| - 1]);
      10 * DigitsValue(s[..|s| - 1]) + (s[|s| - 1] as int - '0' as int)
  }

  /** The decimal digits of `n`, without leading zeros (`%d` of a non-negative value). */
  function NatToString(n: nat): (s: string)
    ensures |s| >= 1 && forall i :: 0 <= i < |s| ==> IsDigit(s[i])
    ensures |s| > 1 ==> s[0] != '0'
    decreases n
  {
    var last := ['0' + (n % 10) as char];
    if n < 10 then last else NatToString(n / 10) + last
  }

  /** The printed digits read back as `n`. */
  lemma {:induction false} NatToStringValue(n: nat)
    ensures DigitsValue(NatToString(n)) == n
    decreases n
  {
    var s := NatToString(n);
    if n >= 10 {
      NatToStringValue(n / 10);
      assert s[..|s| - 1] == NatToString(n / 10);
    }
  }

  /** `%d` of a possibly negative value. */
  function IntToString(x: int): (s: string)
    ensures |s| >= 1 && (x < 0 <==> s[0] == '-')
  {
    if x < 0 then "-" + NatToString(-x) else NatToString(x)
  }

  /** Its digits read back as the magnitude of `x`. */
  lemma IntToStringValue(x: int)
    ensures var s := IntToString(x);
      if x < 0 then s[1..] == NatToString(-x) && DigitsValue(s[1..]) == -x
      else DigitsValue(s) == x
  {
    if x < 0 {
      assert IntToString(x)[1..] == NatToString(-x);
      NatToStringValue(-x);
    } else {
      NatToStringValue(x);
    }
  }

  /** Output accumulated line by line can be regrouped: appending `c` to
      `a + b` is appending `b + c` to `a`. */
  lemma AppendAssoc<T>(a: seq<T>, b: seq<T>, c: seq<T>)
    ensures (a + b) + c == a + (b + c)
  {
  }

  /** `s` right-aligned in a field of at least `width` characters. */
  function PadLeft(s: string, width: nat): (r: string)
  {
    if |s| >= width then s else seq(width - |s|, _ => ' ') + s
  }

  /** The field is exactly as wide as the larger of `width` and `s`, holds
      `s` at its right end, and is blank to its left. */
  lemma PadLeftShape(s: string, width: nat)
    ensures var r := PadLeft(s, width);
      |r| == (if |s| >= width then |s| else width) &&
      r[|r| - |s|..] == s &&
      forall i :: 0 <= i < |r| - |s| ==> r[i] == ' '
  {
  }
}
