/**
  The colour text of the state report: `f"#{int(color):06x}"`
  (src/app.py:36). Lower-case hexadecimal, zero-padded to a width of six that
  counts a leading minus sign, never truncated.
*/
module HexFormat {
  import opened Base

  predicate IsHexDigit(c: char) {
    '0' <= c <= '9' || 'a' <= c <= 'f'
  }

  predicate IsLowerHex(s: string) {
    forall i :: 0 <= i < |s| ==> IsHexDigit(s[i])
  }

  function HexDigit(d: nat): (c: char)
    requires d < 16
    ensures IsHexDigit(c)
    ensures c == '0' <==> d == 0
  {
    if d < 10 then ('0' as int + d) as char else ('a' as int + d - 10) as char
  }

  function DigitValue(c: char): (d: nat)
    requires IsHexDigit(c)
    ensures d < 16 && HexDigit(d) == c
  {
    if c <= '9' then c as int - '0' as int else c as int - 'a' as int + 10
  }

  /** The hexadecimal digits of `n`, most significant first, without leading zeros. */
  function Hex(n: nat): (r: string)
    ensures |r| >= 1 && IsLowerHex(r)
    ensures r[0] == '0' <==> n == 0
    decreases n
  {
    if n < 16 then [HexDigit(n)] else Hex(n / 16) + [HexDigit(n % 16)]
  }

  /** The number a string of hexadecimal digits denotes. */
  function ParseHex(s: string): nat
    requires IsLowerHex(s)
  {
    if s == [] then 0 else ParseHex(s[..|s| - 1]) * 16 + DigitValue(s[|s| - 1])
  }

  function Zeros(k: nat): (r: string)
    ensures |r| == k && forall i :: 0 <= i < k ==> r[i] == '0'
  {
    seq(k, _ => '0')
  }

  /** `s` with zeros in front up to `width` characters; never shortened. */
  function ZeroPad(s: string, width: nat): (r: string)
    ensures |r| == Max(|s|, width)
    ensures r == Zeros(|r| - |s|) + s
  {
    if |s| >= width then s else Zeros(width - |s|) + s
  }

  /** Python's `format(n, "06x")`: the sign, then the digits padded so the whole is at least six characters. */
  function Format06x(n: int): string {
    if n < 0 then "-" + ZeroPad(Hex(-n), 5) else ZeroPad(Hex(n), 6)
  }

  /** The `color` entry of the state report. */
  function ColorString(color: int): string {
    "#" + Format06x(color)
  }

  /** Reading back the digits of `n` gives `n`. */
  lemma {:induction false} ParseHexOfHex(n: nat)
    ensures ParseHex(Hex(n)) == n
    decreases n
  {
    if n >= 16 {
      var h := Hex(n);
      assert h[..|h| - 1] == Hex(n / 16);
      ParseHexOfHex(n / 16);
    }
  }

  /** Leading zeros do not change the number a hexadecimal string denotes. */
  lemma {:induction false} ParseHexLeadingZeros(k: nat, s: string)
    requires IsLowerHex(s)
    ensures IsLowerHex(Zeros(k) + s)
    ensures ParseHex(Zeros(k) + s) == ParseHex(s)
    decreases k + |s|
  {
    var z := Zeros(k) + s;
    if s == [] {
      assert z == Zeros(k);
      if k > 0 {
        assert z[..|z| - 1] == Zeros(k - 1) + [];
        ParseHexLeadingZeros(k - 1, []);
      }
    } else {
      assert z[..|z| - 1] == Zeros(k) + s[..|s| - 1];
      ParseHexLeadingZeros(k, s[..|s| - 1]);
    }
  }

  /** Zero padding keeps the digits lower-case hex and the number they denote. */
  lemma PadReadsBack(h: string, width: nat)
    requires IsLowerHex(h)
    ensures IsLowerHex(ZeroPad(h, width)) && ParseHex(ZeroPad(h, width)) == ParseHex(h)
  {
    ParseHexLeadingZeros(|ZeroPad(h, width)| - |h|, h);
  }

  /** Format06x of a non-negative number: hex that reads back as the number, at least six digits. */
  lemma FormatNonNegative(n: nat)
    ensures |Format06x(n)| == Max(6, |Hex(n)|)
    ensures IsLowerHex(Format06x(n)) && ParseHex(Format06x(n)) == n
  {
    PadReadsBack(Hex(n), 6);
    ParseHexOfHex(n);
  }

  /** Format06x of a negative number: a minus sign, then hex of the magnitude, at least five digits. */
  lemma FormatNegative(n: int)
    requires n < 0
    ensures |Format06x(n)| == Max(5, |Hex(-n)|) + 1 && Format06x(n)[0] == '-'
    ensures IsLowerHex(Format06x(n)[1..]) && ParseHex(Format06x(n)[1..]) == -n
  {
    var m: nat := -n;
    ParseHexOfHex(m);
    SignThenPadded(Hex(m), m);
  }

  /** A minus sign before digits padded to five: the digits after the sign read back as before. */
  lemma SignThenPadded(h: string, v: nat)
    requires IsLowerHex(h) && ParseHex(h) == v
    ensures var f := "-" + ZeroPad(h, 5);
            |f| == Max(5, |h|) + 1 && f[0] == '-' && IsLowerHex(f[1..]) && ParseHex(f[1..]) == v
  {
    var p := ZeroPad(h, 5);
    PadReadsBack(h, 5);
    assert ("-" + p)[1..] == p;
  }

  /**
    The colour text starts with `#`; for a non-negative colour the rest is
    lower-case hex that reads back as the colour and has max(6, digits)
    characters; for a negative colour it is `-` and hex digits that read back
    as its magnitude, padded to max(5, digits).
  */
  lemma ColorStringRoundTrip(color: int)
    ensures ColorString(color)[0] == '#'
    ensures color >= 0 ==>
              |ColorString(color)| == Max(6, |Hex(color)|) + 1 &&
              IsLowerHex(ColorString(color)[1..]) && ParseHex(ColorString(color)[1..]) == color
    ensures color < 0 ==>
              |ColorString(color)| == Max(5, |Hex(-color)|) + 2 && ColorString(color)[1] == '-' &&
              IsLowerHex(ColorString(color)[2..]) && ParseHex(ColorString(color)[2..]) == -color
  {
    var r := ColorString(color);
    if color >= 0 {
      FormatNonNegative(color);
      assert r[1..] == Format06x(color);
    } else {
      FormatNegative(color);
      assert r[1..] == Format06x(color);
      assert r[2..] == Format06x(color)[1..];
    }
  }

  /** One more hexadecimal digit after a number's digits. */
  lemma HexAppend(q: nat, d: nat, digits: string)
    requires 0 < q && d < 16 && Hex(q) == digits
    ensures Hex(16 * q + d) == digits + [HexDigit(d)]
  {
    assert (16 * q + d) / 16 == q && (16 * q + d) % 16 == d;
  }

  /** The start-up sentinel 0xdeadbeef has eight digits and is shown whole, not masked to 24 bits. */
  lemma DefaultColorString()
    ensures ColorString(0xdeadbeef) == "#deadbeef"
  {
    assert Hex(0xd) == "d";
    HexAppend(0xd, 0xe, "d");
    HexAppend(0xde, 0xa, "de");
    HexAppend(0xdea, 0xd, "dea");
    HexAppend(0xdead, 0xb, "dead");
    HexAppend(0xdeadb, 0xe, "deadb");
    HexAppend(0xdeadbe, 0xe, "deadbe");
    HexAppend(0xdeadbee, 0xf, "deadbee");
  }

  /** The mock server's first colour, six digits long. */
  lemma PinkColorString()
    ensures ColorString(0xFF69B4) == "#ff69b4"
  {
    assert Hex(0xf) == "f";
    HexAppend(0xf, 0xf, "f");
    HexAppend(0xff, 0x6, "ff");
    HexAppend(0xff6, 0x9, "ff6");
    HexAppend(0xff69, 0xb, "ff69");
    HexAppend(0xff69b, 0x4, "ff69b");
  }

  /** The mock server's second colour, padded with zeros to six digits. */
  lemma BlueColorString()
    ensures ColorString(0x00BFFF) == "#00bfff"
  {
    assert Hex(0xb) == "b";
    HexAppend(0xb, 0xf, "b");
    HexAppend(0xbf, 0xf, "bf");
    HexAppend(0xbff, 0xf, "bff");
    assert ZeroPad("bfff", 6) == "00" + "bfff";
  }

  /** The mock server's two colours; the second is padded with zeros to six digits. */
  lemma MockColorStrings()
    ensures ColorString(0xFF69B4) == "#ff69b4"
    ensures ColorString(0x00BFFF) == "#00bfff"
  {
    PinkColorString();
    BlueColorString();
  }
}
