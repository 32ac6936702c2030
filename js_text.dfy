/**
 * JavaScript strings as the browser holds them: sequences of UTF-16 code units.
 * Dafny's `char` is a Unicode scalar value and cannot hold a lone surrogate,
 * which a JavaScript string (and `\uD83D` decoded by the unescaper) can.
 */
module JsText {

  newtype CodeUnit = x: int | 0 <= x < 0x1_0000

  type JsString = seq<CodeUnit>

  /** The UTF-16 code units of one character: itself below 0x10000, otherwise a surrogate pair. */
  function CharUnits(c: char): (u: JsString)
    ensures |u| == if c as int < 0x1_0000 then 1 else 2
  {
    var n := c as int;
    if n < 0x1_0000 then [n as CodeUnit]
    else [(0xD800 + (n - 0x1_0000) / 0x400) as CodeUnit, (0xDC00 + (n - 0x1_0000) % 0x400) as CodeUnit]
  }

  /** The UTF-16 code units of a Dafny string: what a JavaScript literal with the same text holds. */
  function Units(s: string): (u: JsString)
    ensures |u| >= |s|
  {
    if s == [] then [] else CharUnits(s[0]) + Units(s[1..])
  }

  /** Encoding distributes over concatenation. */
  lemma {:induction false} UnitsAppend(a: string, b: string)
    ensures Units(a + b) == Units(a) + Units(b)
  {
    if a == [] {
      assert a + b == b;
    } else {
      assert (a + b)[0] == a[0];
      assert (a + b)[1..] == a[1..] + b;
      UnitsAppend(a[1..], b);
      calc {
        Units(a + b);
        CharUnits(a[0]) + Units(a[1..] + b);
        CharUnits(a[0]) + (Units(a[1..]) + Units(b));
        (CharUnits(a[0]) + Units(a[1..])) + Units(b);
        Units(a) + Units(b);
      }
    }
  }

  predicate IsAscii(s: string)
  {
    forall i :: 0 <= i < |s| ==> s[i] as int < 0x80
  }

  /** An ASCII string is one code unit per character, with the same codes. */
  lemma {:induction false} AsciiUnits(s: string)
    requires IsAscii(s)
    ensures |Units(s)| == |s|
    ensures forall i :: 0 <= i < |s| ==> Units(s)[i] as int == s[i] as int
  {
    if s != [] {
      assert IsAscii(s[1..]) by {
        forall i | 0 <= i < |s[1..]| ensures s[1..][i] as int < 0x80 { assert s[1..][i] == s[i + 1]; }
      }
      AsciiUnits(s[1..]);
      assert Units(s) == CharUnits(s[0]) + Units(s[1..]);
    }
  }
}
