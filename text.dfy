/** Decimal rendering of naturals (Python's `str(int)` and f-string
    interpolation of an `int`) and hexadecimal parsing (`int(s, 16)`). */
module Text {
  import opened Wrappers

  function DigitChar(d: nat): (c: char)
    requires d < 10
    ensures '0' <= c <= '9'
    ensures c as int - '0' as int == d
  {
    ('0' as int + d) as char
  }

  /** `str(n)` for a non-negative integer: its decimal digits, no leading zeros. */
  function NatToString(n: nat): (s: string)
    ensures |s| >= 1
    ensures forall i :: 0 <= i < |s| ==> '0' <= s[i] <= '9'
    ensures s[|s| - 1] == DigitChar(n % 10)
    ensures n < 10 <==> |s| == 1
  {
    if n < 10 then [DigitChar(n)] else NatToString(n / 10) + [DigitChar(n % 10)]
  }

  /** Distinct numbers render as distinct strings, so names built from distinct
      indices never clash. */
  lemma {:induction false} NatToStringInjective(m: nat, n: nat)
    requires NatToString(m) == NatToString(n)
    ensures m == n
  {
    var sm, sn := NatToString(m), NatToString(n);
    assert m % 10 == n % 10 by {
      assert sm[|sm| - 1] == sn[|sn| - 1];
    }
    if m >= 10 && n >= 10 {
      assert NatToString(m / 10) == sm[..|sm| - 1];
      assert NatToString(n / 10) == sn[..|sn| - 1];
      NatToStringInjective(m / 10, n / 10);
    }
  }

  /** A fixed prefix followed by distinct numbers gives distinct strings. */
  lemma PrefixedNamesDistinct(prefix: string, m: nat, n: nat)
    requires m != n
    ensures prefix + NatToString(m) != prefix + NatToString(n)
  {
    if prefix + NatToString(m) == prefix + NatToString(n) {
      assert NatToString(m) == (prefix + NatToString(m))[|prefix|..];
      assert NatToString(n) == (prefix + NatToString(n))[|prefix|..];
      NatToStringInjective(m, n);
    }
  }

  predicate IsHexDigit(c: char) {
    ('0' <= c <= '9') || ('a' <= c <= 'f') || ('A' <= c <= 'F')
  }

  function HexValue(c: char): (v: nat)
    requires IsHexDigit(c)
    ensures v < 16
  {
    if '0' <= c <= '9' then c as int - '0' as int
    else if 'a' <= c <= 'f' then c as int - 'a' as int + 10
    else c as int - 'A' as int + 10
  }

  function HexDigitChar(d: nat): (c: char)
    requires d < 16
    ensures IsHexDigit(c) && HexValue(c) == d
  {
    if d < 10 then DigitChar(d) else ('a' as int + d - 10) as char
  }

  /** `int(s, 16)` on a string of hexadecimal digits; `None` stands for the
      `ValueError` Python raises on anything else (see README for the accepted
      forms the model leaves out). */
  function ParseHex(s: string): (r: Option<nat>)
    ensures r.Some? <==> |s| > 0 && forall i :: 0 <= i < |s| ==> IsHexDigit(s[i])
    decreases |s|
  {
    if |s| == 0 || !IsHexDigit(s[|s| - 1]) then None
    else if |s| == 1 then Some(HexValue(s[0]))
    else match ParseHex(s[..|s| - 1])
      case None => None
      case Some(v) => Some(16 * v + HexValue(s[|s| - 1]))
  }

  /** The lower-case hexadecimal rendering `'%x' % n`, the form in which a
      datapath id is written. */
  function ToHex(n: nat): (s: string)
    ensures |s| >= 1
  {
    if n < 16 then [HexDigitChar(n)] else ToHex(n / 16) + [HexDigitChar(n % 16)]
  }

  /** Parsing a rendered datapath id gives back the number. */
  lemma {:induction false} ParseHexOfToHex(n: nat)
    ensures ParseHex(ToHex(n)) == Some(n)
  {
    if n >= 16 {
      var s := ToHex(n);
      assert s[..|s| - 1] == ToHex(n / 16);
      ParseHexOfToHex(n / 16);
    }
  }

  /** Leading zeros (Mininet pads a datapath id to 16 digits) do not change the value. */
  lemma {:induction false} ParseHexLeadingZero(s: string)
    requires ParseHex(s).Some?
    ensures ParseHex("0" + s) == ParseHex(s)
    decreases |s|
  {
    if |s| > 1 {
      assert ("0" + s)[..|"0" + s| - 1] == "0" + s[..|s| - 1];
      ParseHexLeadingZero(s[..|s| - 1]);
    }
  }
}
