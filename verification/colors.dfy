/**
  Hexadecimal rendering of a text colour, as `Color#full_hex_string` does it:
  every channel (already scaled to 0..255 and rounded) is written in upper-case
  base 16 WITHOUT zero padding, and the three are joined after a `#`.
*/
module Colors {

  type Byte = x: int | 0 <= x < 256

  /** A decoded colour; `alpha` takes part in equality but is never rendered. */
  datatype Color = Color(red: Byte, green: Byte, blue: Byte, alpha: Byte)

  /** An upper-case hexadecimal digit. */
  predicate IsHexDigit(c: char) {
    '0' <= c <= '9' || 'A' <= c <= 'F'
  }

  /** The digit for a value below 16. */
  function HexDigit(d: nat): (c: char)
    requires d < 16
    ensures IsHexDigit(c)
    ensures c == '0' <==> d == 0
  {
    if d < 10 then ('0' as int + d) as char else ('A' as int + d - 10) as char
  }

  function DigitValue(c: char): (d: nat)
    requires IsHexDigit(c)
    ensures d < 16 && HexDigit(d) == c
  {
    if '0' <= c <= '9' then c as int - '0' as int else c as int - 'A' as int + 10
  }

  lemma DigitValueOfDigit(d: nat)
    requires d < 16
    ensures DigitValue(HexDigit(d)) == d
  {
  }

  /** Integer#to_s(16).upcase on a non-negative integer. */
  function ToHex(n: nat): (s: string)
    ensures |s| >= 1
    ensures forall i :: 0 <= i < |s| ==> IsHexDigit(s[i])
    ensures s[0] == '0' <==> n == 0
    ensures n < 16 <==> |s| == 1
    ensures n < 256 ==> |s| <= 2
    decreases n
  {
    if n < 16 then [HexDigit(n)] else ToHex(n / 16) + [HexDigit(n % 16)]
  }

  /** Reads a string of hexadecimal digits back as a number, most significant first. */
  function ParseHex(s: string): (n: nat)
    requires forall i :: 0 <= i < |s| ==> IsHexDigit(s[i])
    decreases |s|
  {
    if |s| == 0 then 0 else 16 * ParseHex(s[..|s| - 1]) + DigitValue(s[|s| - 1])
  }

  lemma {:induction false} ParseToHex(n: nat)
    ensures ParseHex(ToHex(n)) == n
    decreases n
  {
    var s := ToHex(n);
    if n >= 16 {
      assert s[..|s| - 1] == ToHex(n / 16);
      assert s[|s| - 1] == HexDigit(n % 16);
      DigitValueOfDigit(n % 16);
      ParseToHex(n / 16);
    } else {
      assert s[..0] == [];
      DigitValueOfDigit(n);
    }
  }

  /** `Color#full_hex_string`. */
  function FullHexString(c: Color): (s: string)
    ensures 4 <= |s| <= 7 && s[0] == '#'
    ensures forall i :: 1 <= i < |s| ==> IsHexDigit(s[i])
  {
    "#" + ToHex(c.red) + ToHex(c.green) + ToHex(c.blue)
  }

  /**
    When every channel is at least 16 each component takes exactly two
    digits, so the string has the full `#RRGGBB` form and decodes back.
  */
  lemma FullHexRoundTrip(c: Color)
    requires c.red >= 16 && c.green >= 16 && c.blue >= 16
    ensures var s := FullHexString(c);
      |s| == 7 && ParseHex(s[1..3]) == c.red && ParseHex(s[3..5]) == c.green && ParseHex(s[5..7]) == c.blue
  {
    var s := FullHexString(c);
    assert s[1..3] == ToHex(c.red);
    assert s[3..5] == ToHex(c.green);
    assert s[5..7] == ToHex(c.blue);
    ParseToHex(c.red);
    ParseToHex(c.green);
    ParseToHex(c.blue);
  }

  /**
    Without padding, distinct colours can render to the same string:
    (0x1, 0x23, 0x0) and (0x12, 0x3, 0x0) both become "#1230".
  */
  lemma UnpaddedRenderingIsAmbiguous()
    ensures FullHexString(Color(1, 35, 0, 0)) == FullHexString(Color(18, 3, 0, 0)) == "#1230"
  {
    assert ToHex(35) == "23";
    assert ToHex(18) == "12";
  }
}
