/**
 * The textual form of a UUID in the UUID generator component: bytes rendered
 * as lower-case hex and cut into the 8-4-4-4-12 layout, and the way a
 * namespace string is turned back into bytes (strip hyphens, read two
 * characters at a time with `parseInt(_, 16)`, store in a `Uint8Array`).
 */
module UuidFormat {
  import opened Wrappers
  import opened JsText
  import opened Hex
  import opened Bits

  newtype byte = x: int | 0 <= x < 0x100

  // Rendering

  /** `bytes.map(b => b.toString(16).padStart(2, '0')).join('')`. */
  function HexOfBytes(bytes: seq<byte>): (hex: string)
    ensures |hex| == 2 * |bytes|
  {
    if bytes == [] then [] else ByteHex(bytes[0] as nat) + HexOfBytes(bytes[1..])
  }

  /** Byte k becomes digits 2k and 2k + 1: high nibble first, each exactly one lower-case digit. */
  lemma {:induction false} HexOfBytesAt(bytes: seq<byte>, k: nat)
    requires k < |bytes|
    ensures HexOfBytes(bytes)[2 * k] == Digit(bytes[k] as int / 16)
    ensures HexOfBytes(bytes)[2 * k + 1] == Digit(bytes[k] as int % 16)
  {
    var head := ByteHex(bytes[0] as nat);
    var rest := HexOfBytes(bytes[1..]);
    assert HexOfBytes(bytes) == head + rest;
    assert |head| == 2;
    if k > 0 {
      var j := 2 * (k - 1);
      HexOfBytesAt(bytes[1..], k - 1);
      assert 2 * k == j + 2;
      assert HexOfBytes(bytes)[2 * k] == rest[j];
      assert HexOfBytes(bytes)[2 * k + 1] == rest[j + 1];
    }
  }

  lemma HexOfBytesIsLowerHex(bytes: seq<byte>)
    ensures forall i :: 0 <= i < |HexOfBytes(bytes)| ==> IsLowerHex(HexOfBytes(bytes)[i])
  {
    forall i | 0 <= i < |HexOfBytes(bytes)| ensures IsLowerHex(HexOfBytes(bytes)[i]) {
      HexOfBytesAt(bytes, i / 2);
      assert i == 2 * (i / 2) || i == 2 * (i / 2) + 1;
    }
  }

  /** The template literal that cuts the first 32 hex digits into groups of 8, 4, 4, 4 and 12. */
  function Layout(hex: string): string
    requires |hex| >= 32
  {
    hex[0..8] + "-" + hex[8..12] + "-" + hex[12..16] + "-" + hex[16..20] + "-" + hex[20..32]
  }

  predicate IsHyphenPosition(i: int)
  {
    i == 8 || i == 13 || i == 18 || i == 23
  }

  /** Where hex digit k (k < 32) lands in the 36-character form. */
  function Position(k: nat): (i: nat)
    requires k < 32
    ensures i < 36 && !IsHyphenPosition(i)
  {
    if k < 8 then k else if k < 12 then k + 1 else if k < 16 then k + 2 else if k < 20 then k + 3 else k + 4
  }

  /** The canonical form: 36 characters, hyphens at 8, 13, 18 and 23, lower-case hex digits elsewhere. */
  predicate IsCanonical(u: string)
  {
    && |u| == 36
    && (forall i :: 0 <= i < 36 && IsHyphenPosition(i) ==> u[i] == '-')
    && (forall i :: 0 <= i < 36 && !IsHyphenPosition(i) ==> IsLowerHex(u[i]))
  }

  function FormatUuid(bytes: seq<byte>): string
    requires |bytes| >= 16
  {
    Layout(HexOfBytes(bytes))
  }

  /** The layout puts digit k at Position(k) and hyphens between the groups; digits past 32 are dropped. */
  lemma LayoutPositions(hex: string)
    requires |hex| >= 32
    ensures |Layout(hex)| == 36
    ensures forall i :: 0 <= i < 36 && IsHyphenPosition(i) ==> Layout(hex)[i] == '-'
    ensures forall k :: 0 <= k < 32 ==> Layout(hex)[Position(k)] == hex[k]
  {
    var u := Layout(hex);
    assert u[..8] == hex[0..8];
    assert u[9..13] == hex[8..12];
    assert u[14..18] == hex[12..16];
    assert u[19..23] == hex[16..20];
    assert u[24..] == hex[20..32];
    forall k | 0 <= k < 32 ensures u[Position(k)] == hex[k] {
      if k < 8 { assert u[..8][k] == u[k]; }
      else if k < 12 { assert u[9..13][k - 8] == u[k + 1]; }
      else if k < 16 { assert u[14..18][k - 12] == u[k + 2]; }
      else if k < 20 { assert u[19..23][k - 16] == u[k + 3]; }
      else { assert u[24..][k - 20] == u[k + 4]; }
    }
  }

  /** Every position of the 36-character form is a hyphen position or the image of one digit. */
  lemma PositionOnto(i: nat)
    requires i < 36 && !IsHyphenPosition(i)
    ensures exists k :: 0 <= k < 32 && Position(k) == i
  {
    var k := if i < 8 then i else if i < 13 then i - 1 else if i < 18 then i - 2 else if i < 23 then i - 3 else i - 4;
    assert Position(k) == i;
  }

  /** 16 or more bytes always render as a canonical UUID built from the first 16 of them. */
  lemma FormatCanonical(bytes: seq<byte>)
    requires |bytes| >= 16
    ensures IsCanonical(FormatUuid(bytes))
    ensures forall k :: 0 <= k < 16 ==>
      FormatUuid(bytes)[Position(2 * k)] == Digit(bytes[k] as int / 16) &&
      FormatUuid(bytes)[Position(2 * k + 1)] == Digit(bytes[k] as int % 16)
  {
    var hex := HexOfBytes(bytes);
    LayoutPositions(hex);
    HexOfBytesIsLowerHex(bytes);
    forall i | 0 <= i < 36 && !IsHyphenPosition(i) ensures IsLowerHex(FormatUuid(bytes)[i]) {
      PositionOnto(i);
    }
    forall k | 0 <= k < 16 ensures
      FormatUuid(bytes)[Position(2 * k)] == Digit(bytes[k] as int / 16) &&
      FormatUuid(bytes)[Position(2 * k + 1)] == Digit(bytes[k] as int % 16)
    {
      HexOfBytesAt(bytes, k);
    }
  }

  lemma {:induction false} HexOfBytesAppend(a: seq<byte>, b: seq<byte>)
    ensures HexOfBytes(a + b) == HexOfBytes(a) + HexOfBytes(b)
  {
    if a == [] {
      assert a + b == b;
    } else {
      assert (a + b)[0] == a[0] && (a + b)[1..] == a[1..] + b;
      HexOfBytesAppend(a[1..], b);
    }
  }

  /** Only the first 16 bytes reach the text: a 20-byte digest prints as its first 16 bytes do. */
  lemma FormatPrefix(bytes: seq<byte>)
    requires |bytes| >= 16
    ensures FormatUuid(bytes) == FormatUuid(bytes[..16])
  {
    assert bytes == bytes[..16] + bytes[16..];
    HexOfBytesAppend(bytes[..16], bytes[16..]);
    LayoutPrefix(HexOfBytes(bytes), HexOfBytes(bytes[..16]));
  }

  /** The layout reads only the first 32 digits. */
  lemma LayoutPrefix(all: string, h: string)
    requires |h| == 32 && h <= all
    ensures Layout(all) == Layout(h)
  {
    assert all[0..8] == h[0..8] && all[8..12] == h[8..12] && all[12..16] == h[12..16];
    assert all[16..20] == h[16..20] && all[20..32] == h[20..32];
  }

  // Parsing a namespace

  /** U+002D: the separator `replace(/-/g, '')` removes, and the minus sign `parseInt` accepts. */
  const Hyphen: CodeUnit := 0x2D

  /** `s.replace(/-/g, '')`. */
  function StripHyphens(s: JsString): (r: JsString)
    ensures forall i :: 0 <= i < |r| ==> r[i] != Hyphen
    ensures |r| <= |s|
  {
    if s == [] then []
    else (if s[0] == Hyphen then [] else [s[0]]) + StripHyphens(s[1..])
  }

  /** The code units the regular-expression dot does not match. */
  predicate IsLineTerminator(u: CodeUnit)
  {
    u == 0x0A || u == 0x0D || u == 0x2028 || u == 0x2029
  }

  /** `s.match(/.{2}/g) || []`: successive non-overlapping pairs of units that are not line terminators. */
  function Pairs(s: JsString): (ps: seq<JsString>)
    ensures forall k :: 0 <= k < |ps| ==> |ps[k]| == 2
    ensures |ps| <= |s| / 2
    decreases |s|
  {
    if |s| < 2 then []
    else if !IsLineTerminator(s[0]) && !IsLineTerminator(s[1]) then [s[..2]] + Pairs(s[2..])
    else Pairs(s[1..])
  }

  /** The white space `parseInt` skips: WhiteSpace and LineTerminator of ECMAScript. */
  predicate IsStrWhiteSpace(u: CodeUnit)
  {
    || u == 0x09 || u == 0x0B || u == 0x0C || u == 0x20 || u == 0xA0 || u == 0xFEFF
    || u == 0x1680 || (0x2000 <= u <= 0x200A) || u == 0x202F || u == 0x205F || u == 0x3000
    || IsLineTerminator(u)
  }

  function TrimStart(s: JsString): (r: JsString)
    ensures |r| <= |s| && r == s[|s| - |r|..]
    ensures forall i :: 0 <= i < |s| - |r| ==> IsStrWhiteSpace(s[i])
    ensures r != [] ==> !IsStrWhiteSpace(r[0])
  {
    if s != [] && IsStrWhiteSpace(s[0]) then TrimStart(s[1..]) else s
  }

  /** The longest prefix made of hex digits. */
  function HexPrefix(s: JsString): (r: JsString)
    ensures AllHexUnits(r) && r <= s
    ensures |r| < |s| ==> !IsHexUnit(s[|r|])
  {
    if s != [] && IsHexUnit(s[0]) then [s[0]] + HexPrefix(s[1..]) else []
  }

  const Plus: CodeUnit := 0x2B

  /**
   * `parseInt(s, 16)`: skip leading white space, take an optional sign and an
   * optional `0x`/`0X`, then the longest run of hex digits; None is NaN.
   * (Only two-unit strings reach it here, so the rounding of long digit runs
   * to doubles never arises.)
   */
  function ParseIntHex(s: JsString): Option<int>
  {
    var t := TrimStart(s);
    var negative := t != [] && t[0] == Hyphen;
    var unsigned := if t != [] && (t[0] == Hyphen || t[0] == Plus) then t[1..] else t;
    var body := if |unsigned| >= 2 && unsigned[0] == 0x30 && (unsigned[1] == 0x78 || unsigned[1] == 0x58)
                then unsigned[2..] else unsigned;
    var digits := HexPrefix(body);
    if digits == [] then None
    else Some(if negative then -(UnitsValue(digits) as int) else UnitsValue(digits))
  }

  /** The conversion `new Uint8Array([...])` applies to each element: NaN becomes 0, the rest wraps modulo 256. */
  function ToUint8(v: Option<int>): byte
  {
    match v
    case None => 0
    case Some(n) => (n % 0x100) as byte
  }

  /** A value already in byte range is stored unchanged. */
  lemma ByteInRange(n: int)
    requires 0 <= n < 0x100
    ensures ToUint8(Some(n)) as int == n
  {
  }

  /** The namespace bytes: `ns.replace(/-/g, '').match(/.{2}/g)?.map((byte) => parseInt(byte, 16)) || []`. */
  function NamespaceBytes(ns: JsString): (bytes: seq<byte>)
    ensures |bytes| <= |ns| / 2
  {
    var pairs := Pairs(StripHyphens(ns));
    seq(|pairs|, k requires 0 <= k < |pairs| => ToUint8(ParseIntHex(pairs[k])))
  }

  /** A namespace with fewer than two units left after stripping hyphens gives no bytes at all; nothing is rejected. */
  lemma ShortNamespaceGivesNoBytes(ns: JsString)
    requires |StripHyphens(ns)| < 2
    ensures NamespaceBytes(ns) == []
  {
  }

  /** Two hex digit units parse as the byte they spell. */
  lemma ParseHexPair(p: JsString)
    requires |p| == 2 && AllHexUnits(p)
    ensures ParseIntHex(p) == Some(16 * UnitValue(p[0]) + UnitValue(p[1]))
  {
    assert !IsStrWhiteSpace(p[0]);
    assert TrimStart(p) == p;
    assert !(p[0] == Hyphen || p[0] == Plus);
    assert !(p[1] == 0x78 || p[1] == 0x58);
    assert HexPrefix(p[1..]) == [p[1]] by { assert HexPrefix(p[2..]) == []; }
    assert HexPrefix(p) == p;
    assert p[..1] == [p[0]] && p[..1][..0] == [];
    assert UnitsValue(p[..1]) == UnitValue(p[0]);
  }

  predicate AllLowerHex(h: string)
  {
    forall i :: 0 <= i < |h| ==> IsLowerHex(h[i])
  }

  /** Reading a string of lower-case hex digits two by two gives one byte per pair, high digit first. */
  lemma ParseLowerHex(h: string)
    requires |h| % 2 == 0 && AllLowerHex(h)
    ensures |NamespaceBytes(Units(h))| == |h| / 2
    ensures forall k :: 0 <= k < |h| / 2 ==>
      NamespaceBytes(Units(h))[k] as int == 16 * DigitValue(h[2 * k]) + DigitValue(h[2 * k + 1])
  {
    var u := LowerHexUnits(h);
    NoHyphenStrip(u);
    PairsOfHexUnits(u);
    forall k | 0 <= k < |h| / 2
      ensures NamespaceBytes(u)[k] as int == 16 * DigitValue(h[2 * k]) + DigitValue(h[2 * k + 1])
    {
      ParsedByteAt(h, u, k);
    }
  }

  lemma ParsedByteAt(h: string, u: JsString, k: nat)
    requires |h| % 2 == 0 && AllLowerHex(h) && k < |h| / 2
    requires |u| == |h| && StripHyphens(u) == u
    requires forall i :: 0 <= i < |u| ==> IsHexUnit(u[i]) && UnitValue(u[i]) == DigitValue(h[i])
    requires |Pairs(u)| == |u| / 2 && Pairs(u)[k] == u[2 * k..2 * k + 2]
    ensures NamespaceBytes(u)[k] as int == 16 * DigitValue(h[2 * k]) + DigitValue(h[2 * k + 1])
  {
    var pair := Pairs(u)[k];
    assert pair[0] == u[2 * k] && pair[1] == u[2 * k + 1];
    assert AllHexUnits(pair);
    ParseHexPair(pair);
    var v := 16 * UnitValue(pair[0]) + UnitValue(pair[1]);
    ByteInRange(v);
    assert NamespaceBytes(u)[k] == ToUint8(ParseIntHex(pair));
  }

  /** The code units of a lower-case hex string are hex units of the same values and contain no hyphen. */
  lemma LowerHexUnits(h: string) returns (u: JsString)
    requires AllLowerHex(h)
    ensures u == Units(h) && |u| == |h| && AllHexUnits(u)
    ensures forall i :: 0 <= i < |u| ==> u[i] != Hyphen && UnitValue(u[i]) == DigitValue(h[i])
  {
    AsciiUnits(h);
    u := Units(h);
    forall i | 0 <= i < |u| ensures IsHexUnit(u[i]) && UnitValue(u[i]) == DigitValue(h[i]) {
      LowerHexUnit(h[i]);
    }
  }

  lemma {:induction false} NoHyphenStrip(s: JsString)
    requires forall i :: 0 <= i < |s| ==> s[i] != Hyphen
    ensures StripHyphens(s) == s
  {
    if s != [] { NoHyphenStrip(s[1..]); }
  }

  /** Without line terminators the pairs are simply the consecutive two-unit chunks. */
  lemma {:induction false} PairsOfHexUnits(u: JsString)
    requires |u| % 2 == 0 && AllHexUnits(u)
    ensures |Pairs(u)| == |u| / 2
    ensures forall k :: 0 <= k < |u| / 2 ==> Pairs(u)[k] == u[2 * k..2 * k + 2]
  {
    if u != [] {
      var rest := u[2..];
      PairsOfHexUnits(rest);
      assert Pairs(u) == [u[..2]] + Pairs(rest);
      forall k | 1 <= k < |u| / 2 ensures Pairs(u)[k] == u[2 * k..2 * k + 2] {
        assert rest[2 * (k - 1)..2 * (k - 1) + 2] == u[2 * k..2 * k + 2];
      }
    }
  }

  // Round trips between bytes and text

  /** Rendering bytes as hex and reading them back as a namespace gives the same bytes. */
  lemma ParseOfHex(bytes: seq<byte>)
    ensures NamespaceBytes(Units(HexOfBytes(bytes))) == bytes
  {
    var h := HexOfBytes(bytes);
    HexOfBytesIsLowerHex(bytes);
    ParseLowerHex(h);
    forall k | 0 <= k < |bytes|
      ensures h[2 * k] == Digit(bytes[k] as int / 16) && h[2 * k + 1] == Digit(bytes[k] as int % 16)
    {
      HexOfBytesAt(bytes, k);
    }
    BytesFromDigits(bytes, h, NamespaceBytes(Units(h)));
  }

  /** Bytes read pair by pair from digits that render `bytes` are `bytes`. */
  lemma BytesFromDigits(bytes: seq<byte>, h: string, parsed: seq<byte>)
    requires |h| == 2 * |bytes| && |parsed| == |bytes|
    requires forall k :: 0 <= k < |bytes| ==>
      && h[2 * k] == Digit(bytes[k] as int / 16) && h[2 * k + 1] == Digit(bytes[k] as int % 16)
      && parsed[k] as int == 16 * DigitValue(h[2 * k]) + DigitValue(h[2 * k + 1])
    ensures parsed == bytes
  {
    forall k | 0 <= k < |bytes| ensures parsed[k] == bytes[k] {
      ParsedPair(bytes[k], h[2 * k], h[2 * k + 1], parsed[k]);
    }
  }

  lemma ParsedPair(b: byte, d0: char, d1: char, parsed: byte)
    requires d0 == Digit(b as int / 16) && d1 == Digit(b as int % 16)
    requires parsed as int == 16 * DigitValue(d0) + DigitValue(d1)
    ensures parsed == b
  {
    var x := b as int;
    assert DigitValue(d0) == x / 16 && DigitValue(d1) == x % 16;
    assert x == 16 * (x / 16) + x % 16;
  }

  /** Reading an even-length lower-case hex string as bytes and rendering them gives the string back. */
  lemma HexOfParsed(h: string)
    requires |h| % 2 == 0 && AllLowerHex(h)
    ensures HexOfBytes(NamespaceBytes(Units(h))) == h
  {
    var bytes := NamespaceBytes(Units(h));
    ParseLowerHex(h);
    var r := HexOfBytes(bytes);
    forall i | 0 <= i < |h| ensures r[i] == h[i] {
      var k := i / 2;
      RenderedPair(h, bytes, k);
      assert i == 2 * k || i == 2 * k + 1;
    }
  }

  lemma RenderedPair(h: string, bytes: seq<byte>, k: nat)
    requires |h| % 2 == 0 && AllLowerHex(h) && |bytes| == |h| / 2 && k < |bytes|
    requires bytes[k] as int == 16 * DigitValue(h[2 * k]) + DigitValue(h[2 * k + 1])
    ensures HexOfBytes(bytes)[2 * k] == h[2 * k] && HexOfBytes(bytes)[2 * k + 1] == h[2 * k + 1]
  {
    HexOfBytesAt(bytes, k);
    DivModUnique(bytes[k] as int, 16, DigitValue(h[2 * k]), DigitValue(h[2 * k + 1]));
    DigitOfValue(h[2 * k]);
    DigitOfValue(h[2 * k + 1]);
  }

  lemma {:induction false} StripAppend(a: JsString, b: JsString)
    ensures StripHyphens(a + b) == StripHyphens(a) + StripHyphens(b)
  {
    if a == [] {
      assert a + b == b;
    } else {
      assert (a + b)[0] == a[0];
      assert (a + b)[1..] == a[1..] + b;
      StripAppend(a[1..], b);
      var head: JsString := if a[0] == Hyphen then [] else [a[0]];
      calc {
        StripHyphens(a + b);
        head + StripHyphens(a[1..] + b);
        head + (StripHyphens(a[1..]) + StripHyphens(b));
        (head + StripHyphens(a[1..])) + StripHyphens(b);
        StripHyphens(a) + StripHyphens(b);
      }
    }
  }

  lemma StripLowerHex(h: string)
    requires AllLowerHex(h)
    ensures StripHyphens(Units(h)) == Units(h)
  {
    var u := LowerHexUnits(h);
    NoHyphenStrip(u);
  }

  /** Appending a hyphen and a group of hex digits adds just the group's units once hyphens are stripped. */
  lemma StripGroup(a: string, g: string)
    requires AllLowerHex(g)
    ensures StripHyphens(Units(a + "-" + g)) == StripHyphens(Units(a)) + Units(g)
  {
    UnitsAppend(a + "-", g);
    UnitsAppend(a, "-");
    assert Units("-") == [Hyphen];
    StripAppend(Units(a) + [Hyphen], Units(g));
    StripAppend(Units(a), [Hyphen]);
    StripLowerHex(g);
  }

  /** Removing the hyphens from the layout of 32 hex digits gives back those digits. */
  lemma StripLayout(h: string)
    requires |h| == 32 && AllLowerHex(h)
    ensures StripHyphens(Units(Layout(h))) == Units(h)
  {
    var g0, g1, g2, g3, g4 := h[0..8], h[8..12], h[12..16], h[16..20], h[20..32];
    var p1 := g0 + "-" + g1;
    var p2 := p1 + "-" + g2;
    var p3 := p2 + "-" + g3;
    assert Layout(h) == p3 + "-" + g4;
    StripLowerHex(g0);
    StripGroup(g0, g1);
    StripGroup(p1, g2);
    StripGroup(p2, g3);
    StripGroup(p3, g4);
    assert StripHyphens(Units(Layout(h))) == Units(g0) + Units(g1) + Units(g2) + Units(g3) + Units(g4);
    JoinGroups(h);
  }

  lemma JoinGroups(h: string)
    requires |h| == 32
    ensures Units(h) == Units(h[0..8]) + Units(h[8..12]) + Units(h[12..16]) + Units(h[16..20]) + Units(h[20..32])
  {
    var g0, g1, g2, g3, g4 := h[0..8], h[8..12], h[12..16], h[16..20], h[20..32];
    assert h == g0 + g1 + g2 + g3 + g4;
    UnitsAppend(g0 + g1 + g2 + g3, g4);
    UnitsAppend(g0 + g1 + g2, g3);
    UnitsAppend(g0 + g1, g2);
    UnitsAppend(g0, g1);
  }

  /**
   * Formatting 16 bytes and reading the result back as a namespace gives the
   * same 16 bytes: the round-trip law between the two directions of the format.
   */
  lemma FormatThenParse(bytes: seq<byte>)
    requires |bytes| == 16
    ensures NamespaceBytes(Units(FormatUuid(bytes))) == bytes
  {
    var h := HexOfBytes(bytes);
    HexOfBytesIsLowerHex(bytes);
    StripLayout(h);
    assert NamespaceBytes(Units(FormatUuid(bytes))) == NamespaceBytes(Units(h)) by {
      StripLowerHex(h);
    }
    ParseOfHex(bytes);
  }

  /** The 32 hex digits of a canonical UUID, without its hyphens. */
  function DigitsOf(u: string): (h: string)
    requires IsCanonical(u)
    ensures |h| == 32 && AllLowerHex(h)
    ensures forall k :: 0 <= k < 32 ==> h[k] == u[Position(k)]
  {
    var h := u[0..8] + u[9..13] + u[14..18] + u[19..23] + u[24..36];
    assert forall k :: 0 <= k < 32 ==> h[k] == u[Position(k)];
    h
  }

  /**
   * Reading a canonical UUID as a namespace gives 16 bytes whose formatting is
   * the UUID again: the other round trip, for every canonical string.
   */
  lemma ParseThenFormat(u: string)
    requires IsCanonical(u)
    ensures |NamespaceBytes(Units(u))| == 16
    ensures FormatUuid(NamespaceBytes(Units(u))) == u
  {
    var h := DigitsOf(u);
    LayoutPositions(h);
    assert Layout(h) == u by {
      forall i | 0 <= i < 36 ensures Layout(h)[i] == u[i] {
        if !IsHyphenPosition(i) { PositionOnto(i); }
      }
    }
    StripLayout(h);
    StripLowerHex(h);
    assert NamespaceBytes(Units(u)) == NamespaceBytes(Units(h));
    ParseLowerHex(h);
    HexOfParsed(h);
  }
}
