/**
 * Hexadecimal digits on both sides of the UUID code: the lower-case digits
 * `Number.prototype.toString(16)` writes, and the code units `parseInt(_, 16)`
 * and the unescaper's `[0-9A-Fa-f]` classes accept.
 */
module Hex {
  import opened JsText

  predicate IsLowerHex(c: char)
  {
    '0' <= c <= '9' || 'a' <= c <= 'f'
  }

  /** The digit `toString(16)` writes for a value below 16. */
  function Digit(v: nat): (c: char)
    requires v < 16
    ensures IsLowerHex(c) && DigitValue(c) == v
  {
    if v < 10 then ('0' as int + v) as char else ('a' as int + v - 10) as char
  }

  function DigitValue(c: char): (v: nat)
    requires IsLowerHex(c)
    ensures v < 16
  {
    if c <= '9' then c as int - '0' as int else c as int - 'a' as int + 10
  }

  lemma DigitOfValue(c: char)
    requires IsLowerHex(c)
    ensures Digit(DigitValue(c)) == c
  {
  }

  /** The number a string of lower-case hex digits denotes, most significant digit first. */
  function CharsValue(s: string): nat
    requires forall i :: 0 <= i < |s| ==> IsLowerHex(s[i])
  {
    if s == [] then 0 else 16 * CharsValue(s[..|s| - 1]) + DigitValue(s[|s| - 1])
  }

  /** `n.toString(16)` for a non-negative integer: the shortest lower-case digit string denoting n. */
  function ToHexString(n: nat): (s: string)
    ensures |s| >= 1 && forall i :: 0 <= i < |s| ==> IsLowerHex(s[i])
    ensures CharsValue(s) == n
    ensures n < 16 ==> |s| == 1
    ensures 16 <= n < 256 ==> |s| == 2
    ensures |s| > 1 ==> s[0] != '0'
  {
    if n < 16 then [Digit(n)]
    else
      var s := ToHexString(n / 16) + [Digit(n % 16)];
      assert s[..|s| - 1] == ToHexString(n / 16);
      s
  }

  /** `s.padStart(width, fill)` with a one-character fill. */
  function PadStart(s: string, width: nat, fill: char): (r: string)
    ensures |r| == if |s| >= width then |s| else width
    ensures r[|r| - |s|..] == s
    ensures forall i :: 0 <= i < |r| - |s| ==> r[i] == fill
  {
    if |s| >= width then s else seq(width - |s|, _ => fill) + s
  }

  /** `b.toString(16).padStart(2, '0')`: always exactly the two digits of the byte. */
  function ByteHex(b: nat): (r: string)
    requires b < 256
    ensures r == [Digit(b / 16), Digit(b % 16)]
  {
    var s := ToHexString(b);
    if b < 16 then
      assert s == [Digit(b)] by { assert s[..|s| - 1] == []; }
      PadStart(s, 2, '0')
    else
      assert s == [Digit(b / 16), Digit(b % 16)] by {
        DigitOfValue(s[0]);
        DigitOfValue(s[1]);
        assert s[..1] == [s[0]];
      }
      PadStart(s, 2, '0')
  }

  // Code units, as the parsing side sees them.

  /** `[0-9A-Fa-f]`. */
  predicate IsHexUnit(u: CodeUnit)
  {
    (0x30 <= u <= 0x39) || (0x41 <= u <= 0x46) || (0x61 <= u <= 0x66)
  }

  predicate AllHexUnits(s: JsString)
  {
    forall i :: 0 <= i < |s| ==> IsHexUnit(s[i])
  }

  function UnitValue(u: CodeUnit): (v: nat)
    requires IsHexUnit(u)
    ensures v < 16
  {
    if u <= 0x39 then u as int - 0x30 else if u <= 0x46 then u as int - 0x41 + 10 else u as int - 0x61 + 10
  }

  /** The number a string of hex digit code units denotes, most significant digit first. */
  function UnitsValue(s: JsString): nat
    requires AllHexUnits(s)
  {
    if s == [] then 0 else 16 * UnitsValue(s[..|s| - 1]) + UnitValue(s[|s| - 1])
  }

  /** A lower-case hex character is a hex code unit of the same value. */
  lemma LowerHexUnit(c: char)
    requires IsLowerHex(c)
    ensures IsHexUnit(c as int as CodeUnit) && UnitValue(c as int as CodeUnit) == DigitValue(c)
  {
  }
}
