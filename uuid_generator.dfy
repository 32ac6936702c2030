/**
 * The UUID generator component: version 4 UUIDs from a template filled with
 * random nibbles, version 5 UUIDs from a namespace and a name hashed with
 * SHA-1 and stamped with the version and variant bits, and the form state
 * that holds the two results and the "missing information" message.
 */
module UuidGenerator {
  import opened Wrappers
  import opened JsText
  import opened Hex
  import opened Bits
  import opened UuidFormat

  // Version 4

  /** `(Math.random() * 16) | 0`: one random value in 0..15. */
  newtype nibble = x: int | 0 <= x < 16

  /** `count` copies of 'x'. */
  function Xs(count: nat): string
  {
    seq(count, _ => 'x')
  }

  /** The template's 32 digit places: all `x` but the fixed `4` at 12 and the `y` at 16. */
  const V4Digits: string := Xs(12) + "4" + Xs(3) + "y" + Xs(15)

  /** The template `xxxxxxxx-xxxx-4xxx-yxxx-xxxxxxxxxxxx`, written as its digit places in the 8-4-4-4-12 layout. */
  const V4Template: string := Layout(V4Digits)

  predicate IsPlaceholder(c: char)
  {
    c == 'x' || c == 'y'
  }

  function PlaceholderCount(t: string): (n: nat)
    ensures n <= |t|
  {
    if t == [] then 0 else (if IsPlaceholder(t[0]) then 1 else 0) + PlaceholderCount(t[1..])
  }

  /** The replacement callback's value: the random value itself for `x`, `(r & 0x3) | 0x8` for `y`. */
  function PlaceholderValue(c: char, r: nibble): (v: nat)
    requires IsPlaceholder(c)
    ensures v < 16
    ensures c == 'x' ==> v == r as nat
    ensures c == 'y' ==> v == 8 + r as nat % 4
  {
    if c == 'x' then r as nat
    else
      assert Pow2(2) == 4;
      MaskThenSet(r as nat, 8, 2);
      Or(And(r as nat, 0x3), 0x8)
  }

  /**
   * `t.replace(/[xy]/g, (c) => v.toString(16))`: each placeholder, left to
   * right, draws the next random value and becomes one hex digit; every other
   * character stays.
   */
  function Fill(t: string, random: seq<nibble>): (r: string)
    requires |random| == PlaceholderCount(t)
    ensures |r| == |t|
    ensures forall i :: 0 <= i < |t| && !IsPlaceholder(t[i]) ==> r[i] == t[i]
  {
    if t == [] then []
    else if IsPlaceholder(t[0]) then
      ToHexString(PlaceholderValue(t[0], random[0])) + Fill(t[1..], random[1..])
    else [t[0]] + Fill(t[1..], random)
  }

  /** The placeholder at index i takes the random value whose index is the number of placeholders before it. */
  lemma {:induction false} FillAt(t: string, random: seq<nibble>, i: nat)
    requires |random| == PlaceholderCount(t) && i < |t| && IsPlaceholder(t[i])
    ensures PlaceholderCount(t[..i]) < |random|
    ensures Fill(t, random)[i] == Digit(PlaceholderValue(t[i], random[PlaceholderCount(t[..i])]))
  {
    var head := if IsPlaceholder(t[0]) then 1 else 0;
    var rest := random[head..];
    var tail := Fill(t[1..], rest);
    if IsPlaceholder(t[0]) {
      var d := ToHexString(PlaceholderValue(t[0], random[0]));
      assert d == [Digit(PlaceholderValue(t[0], random[0]))];
      assert Fill(t, random) == d + tail;
    } else {
      assert Fill(t, random) == [t[0]] + tail;
    }
    if i == 0 {
      assert t[..0] == [];
    } else {
      FillAt(t[1..], rest, i - 1);
      assert t[..i][0] == t[0] && t[..i][1..] == t[1..][..i - 1];
      assert PlaceholderCount(t[..i]) == head + PlaceholderCount(t[1..][..i - 1]);
      assert Fill(t, random)[i] == tail[i - 1];
    }
  }

  predicate IsVariantDigit(c: char)
  {
    c == '8' || c == '9' || c == 'a' || c == 'b'
  }

  /** Every placeholder becomes a hex digit; a `y` becomes one of 8, 9, a, b. */
  lemma FillDigits(t: string, random: seq<nibble>, i: nat)
    requires |random| == PlaceholderCount(t) && i < |t| && IsPlaceholder(t[i])
    ensures IsLowerHex(Fill(t, random)[i])
    ensures t[i] == 'y' ==> IsVariantDigit(Fill(t, random)[i])
  {
    FillAt(t, random, i);
    var v := PlaceholderValue(t[i], random[PlaceholderCount(t[..i])]);
    if t[i] == 'y' {
      VariantDigit(v);
    }
  }

  lemma VariantDigit(v: nat)
    requires 8 <= v < 12
    ensures IsVariantDigit(Digit(v))
  {
  }

  lemma {:induction false} PlaceholderCountAppend(a: string, b: string)
    ensures PlaceholderCount(a + b) == PlaceholderCount(a) + PlaceholderCount(b)
  {
    if a == [] {
      assert a + b == b;
    } else {
      assert (a + b)[0] == a[0] && (a + b)[1..] == a[1..] + b;
      PlaceholderCountAppend(a[1..], b);
    }
  }

  lemma {:induction false} PlaceholderCountXs(count: nat)
    ensures PlaceholderCount(Xs(count)) == count
  {
    if count > 0 {
      assert Xs(count)[1..] == Xs(count - 1);
      PlaceholderCountXs(count - 1);
    }
  }

  /** The template spelled out. */
  lemma V4TemplateText()
    ensures V4Template == "xxxxxxxx-xxxx-4xxx-yxxx-xxxxxxxxxxxx"
  {
    assert Xs(12) == "xxxxxxxxxxxx";
    assert Xs(3) == "xxx";
    assert Xs(15) == "xxxxxxxxxxxxxxx";
    assert V4Digits == "xxxxxxxxxxxx4xxxyxxxxxxxxxxxxxxx";
    assert V4Digits[0..8] == "xxxxxxxx";
    assert V4Digits[8..12] == "xxxx";
    assert V4Digits[12..16] == "4xxx";
    assert V4Digits[16..20] == "yxxx";
    assert V4Digits[20..32] == "xxxxxxxxxxxx";
  }

  /** Which character each of the 32 digit places holds. */
  lemma V4DigitAt(k: nat)
    requires k < 32
    ensures |V4Digits| == 32
    ensures V4Digits[k] == if k == 12 then '4' else if k == 16 then 'y' else 'x'
  {
  }

  /** The hyphens the layout inserts are not placeholders. */
  lemma PlaceholderCountLayout(h: string)
    requires |h| == 32
    ensures PlaceholderCount(Layout(h)) == PlaceholderCount(h)
  {
    var g0, g1, g2, g3, g4 := h[0..8], h[8..12], h[12..16], h[16..20], h[20..32];
    assert h == g0 + g1 + g2 + g3 + g4;
    PlaceholderCountAppend(g0 + g1 + g2 + g3, g4);
    PlaceholderCountAppend(g0 + g1 + g2, g3);
    PlaceholderCountAppend(g0 + g1, g2);
    PlaceholderCountAppend(g0, g1);
    var p1 := g0 + "-" + g1;
    var p2 := p1 + "-" + g2;
    var p3 := p2 + "-" + g3;
    assert Layout(h) == p3 + "-" + g4;
    assert PlaceholderCount("-") == 0;
    PlaceholderCountAppend(p3 + "-", g4);
    PlaceholderCountAppend(p3, "-");
    PlaceholderCountAppend(p2 + "-", g3);
    PlaceholderCountAppend(p2, "-");
    PlaceholderCountAppend(p1 + "-", g2);
    PlaceholderCountAppend(p1, "-");
    PlaceholderCountAppend(g0 + "-", g1);
    PlaceholderCountAppend(g0, "-");
  }

  /** The template has 31 placeholders: 32 hex digits less the fixed `4`. */
  lemma V4PlaceholderCount()
    ensures PlaceholderCount(V4Template) == 31
  {
    PlaceholderCountLayout(V4Digits);
    PlaceholderCountAppend(Xs(12) + "4" + Xs(3) + "y", Xs(15));
    PlaceholderCountAppend(Xs(12) + "4" + Xs(3), "y");
    PlaceholderCountAppend(Xs(12) + "4", Xs(3));
    PlaceholderCountAppend(Xs(12), "4");
    PlaceholderCountXs(12); PlaceholderCountXs(3); PlaceholderCountXs(15);
    assert PlaceholderCount("4") == 0 && PlaceholderCount("y") == 1;
  }

  function GenerateV4(random: seq<nibble>): string
    requires |random| == PlaceholderCount(V4Template)
  {
    Fill(V4Template, random)
  }

  /**
   * A version 4 UUID keeps the template's hyphens and its literal `4` at
   * index 14, has one of 8, 9, a, b at index 19, and hex digits elsewhere.
   */
  lemma V4IsCanonical(random: seq<nibble>)
    requires |random| == PlaceholderCount(V4Template)
    ensures IsCanonical(GenerateV4(random))
    ensures GenerateV4(random)[14] == '4' && IsVariantDigit(GenerateV4(random)[19])
  {
    V4DigitAt(0);
    LayoutPositions(V4Digits);
    var u := GenerateV4(random);
    forall k | 0 <= k < 32 ensures IsLowerHex(u[Position(k)]) {
      V4DigitAt(k);
      if k != 12 { FillDigits(V4Template, random, Position(k)); }
    }
    forall i | 0 <= i < 36 && !IsHyphenPosition(i) ensures IsLowerHex(u[i]) {
      PositionOnto(i);
    }
    V4DigitAt(12);
    V4DigitAt(16);
    assert Position(12) == 14 && Position(16) == 19;
    FillDigits(V4Template, random, 19);
  }

  // Version 5: the namespace

  /** The four predefined namespaces of the object literal (RFC 4122, Appendix C), keyed by their names. */
  const Registry: map<JsString, string> := map[
    Units("DNS") := PredefinedNamespace('0'),
    Units("URL") := PredefinedNamespace('1'),
    Units("OID") := PredefinedNamespace('2'),
    Units("X500") := PredefinedNamespace('4')
  ]

  /** The namespaces `6ba7b810-…`, `6ba7b811-…`, `6ba7b812-…` and `6ba7b814-…` differ only in their eighth digit. */
  function PredefinedNamespace(c: char): string
  {
    "6ba7b81" + [c] + "-9dad-11d1-80b4-00c04fd430c8"
  }

  /** The registry is the object literal of the component, entry for entry. */
  lemma RegistryText()
    ensures Registry.Keys == {Units("DNS"), Units("URL"), Units("OID"), Units("X500")}
    ensures Registry[Units("DNS")] == "6ba7b810-9dad-11d1-80b4-00c04fd430c8"
    ensures Registry[Units("URL")] == "6ba7b811-9dad-11d1-80b4-00c04fd430c8"
    ensures Registry[Units("OID")] == "6ba7b812-9dad-11d1-80b4-00c04fd430c8"
    ensures Registry[Units("X500")] == "6ba7b814-9dad-11d1-80b4-00c04fd430c8"
  {
    RegistryKeys();
    RegistryEntryDNS();
    RegistryEntryURL();
    RegistryEntryOID();
    RegistryEntryX500();
  }

  lemma RegistryEntryDNS()
    ensures Units("DNS") in Registry && Registry[Units("DNS")] == "6ba7b810-9dad-11d1-80b4-00c04fd430c8"
  {
    RegistryKeys();
    NamespaceText('0', "6ba7b810-9dad-11d1-80b4-00c04fd430c8");
  }

  lemma RegistryEntryURL()
    ensures Units("URL") in Registry && Registry[Units("URL")] == "6ba7b811-9dad-11d1-80b4-00c04fd430c8"
  {
    RegistryKeys();
    NamespaceText('1', "6ba7b811-9dad-11d1-80b4-00c04fd430c8");
  }

  lemma RegistryEntryOID()
    ensures Units("OID") in Registry && Registry[Units("OID")] == "6ba7b812-9dad-11d1-80b4-00c04fd430c8"
  {
    RegistryKeys();
    NamespaceText('2', "6ba7b812-9dad-11d1-80b4-00c04fd430c8");
  }

  lemma RegistryEntryX500()
    ensures Units("X500") in Registry && Registry[Units("X500")] == "6ba7b814-9dad-11d1-80b4-00c04fd430c8"
  {
    RegistryKeys();
    NamespaceText('4', "6ba7b814-9dad-11d1-80b4-00c04fd430c8");
  }

  lemma NamespaceText(c: char, text: string)
    requires |text| == 36 && text[..7] == "6ba7b81" && text[7] == c && text[8..] == "-9dad-11d1-80b4-00c04fd430c8"
    ensures PredefinedNamespace(c) == text
  {
    assert text == text[..7] + [text[7]] + text[8..];
  }

  /**
   * `namespaces[namespace] || namespace`, with the lookup confined to the
   * literal's own entries: the four names give their namespace UUIDs, any
   * other text is the namespace itself.
   */
  function Resolve(token: JsString): (ns: JsString)
    ensures token == Units("DNS") ==> ns == Units("6ba7b810-9dad-11d1-80b4-00c04fd430c8")
    ensures token == Units("URL") ==> ns == Units("6ba7b811-9dad-11d1-80b4-00c04fd430c8")
    ensures token == Units("OID") ==> ns == Units("6ba7b812-9dad-11d1-80b4-00c04fd430c8")
    ensures token == Units("X500") ==> ns == Units("6ba7b814-9dad-11d1-80b4-00c04fd430c8")
    ensures token !in {Units("DNS"), Units("URL"), Units("OID"), Units("X500")} ==> ns == token
  {
    RegistryText();
    RegistryKeys();
    if token in Registry then Units(Registry[token]) else token
  }

  /** Every predefined namespace is a canonical UUID, so it reads back as exactly 16 bytes that print as the same text. */
  lemma RegistryNamespacesAreSixteenBytes(token: JsString)
    requires token in Registry
    ensures IsCanonical(Registry[token])
    ensures |NamespaceBytes(Resolve(token))| == 16
    ensures FormatUuid(NamespaceBytes(Resolve(token))) == Registry[token]
  {
    PredefinedCanonical(token);
    ParseThenFormat(Registry[token]);
  }

  lemma PredefinedCanonical(token: JsString)
    requires token in Registry
    ensures IsCanonical(Registry[token])
  {
    RegistryKeys();
    if token == Units("DNS") {
      NamespaceCanonical('0');
    } else if token == Units("URL") {
      NamespaceCanonical('1');
    } else if token == Units("OID") {
      NamespaceCanonical('2');
    } else {
      NamespaceCanonical('4');
    }
  }

  /** The four keys are the code units of their ASCII names. */
  lemma RegistryKeys()
    ensures Units("DNS") == [0x44, 0x4E, 0x53]
    ensures Units("URL") == [0x55, 0x52, 0x4C]
    ensures Units("OID") == [0x4F, 0x49, 0x44]
    ensures Units("X500") == [0x58, 0x35, 0x30, 0x30]
  {
  }

  lemma NamespaceCanonical(c: char)
    requires c == '0' || c == '1' || c == '2' || c == '4'
    ensures IsCanonical(PredefinedNamespace(c))
  {
    var u := PredefinedNamespace(c);
    assert u[7] == c;
    forall i | 0 <= i < 36 && !IsHyphenPosition(i) ensures IsLowerHex(u[i]) {
    }
  }

  /** The four names are at most four code units long. */
  lemma PredefinedNamesAreShort(token: JsString)
    requires token in Registry
    ensures |token| <= 4
  {
  }

  /**
   * The custom namespace box shows the namespace unless it is empty or one
   * of the four names the drop-down offers.
   */
  function CustomFieldValue(namespace: JsString): (shown: JsString)
    ensures shown == [] <==> namespace == [] || namespace in Registry
    ensures shown != [] ==> shown == namespace
  {
    if namespace != [] && namespace !in Registry then namespace else []
  }

  // Version 5: the namespace lookup as written

  /**
   * The names an object literal inherits from `Object.prototype`; looking
   * one of them up yields a function (or, for `__proto__`, an object), never
   * a string.
   */
  const InheritedNames: set<JsString> := {
    Units("constructor"), Units("hasOwnProperty"), Units("isPrototypeOf"),
    Units("propertyIsEnumerable"), Units("toString"), Units("toLocaleString"),
    Units("valueOf"), Units("__proto__"), Units("__defineGetter__"),
    Units("__defineSetter__"), Units("__lookupGetter__"), Units("__lookupSetter__")
  }

  /** What `namespaces[token]` yields on the object literal. */
  datatype Lookup = Absent | Own(value: string) | Inherited

  function LookUp(token: JsString): (r: Lookup)
    ensures r.Own? <==> token in Registry
    ensures r.Inherited? <==> token !in Registry && token in InheritedNames
  {
    if token in Registry then Own(Registry[token])
    else if token in InheritedNames then Inherited
    else Absent
  }

  /**
   * `namespaces[namespace] || namespace` followed by `ns.replace(...)`: an
   * inherited member is truthy, so it is kept, and calling `replace` on it
   * throws; None stands for that TypeError.
   */
  function ResolveAsWritten(token: JsString): Option<JsString>
  {
    match LookUp(token)
    case Own(value) => Some(Units(value))
    case Inherited => None
    case Absent => Some(token)
  }

  /** Away from the inherited names the lookup as written agrees with Resolve. */
  lemma ResolveAsWrittenAgrees(token: JsString)
    ensures ResolveAsWritten(token) == None <==> token !in Registry && token in InheritedNames
    ensures token !in InheritedNames ==> ResolveAsWritten(token) == Some(Resolve(token))
  {
  }

  /** The namespace `toString` makes the lookup as written throw, where it should be hashed as the text itself. */
  lemma ToStringNamespaceThrows()
    ensures ResolveAsWritten(Units("toString")) == None
    ensures Resolve(Units("toString")) == Units("toString")
  {
    assert |Units("toString")| == 8;
    if Units("toString") in Registry {
      PredefinedNamesAreShort(Units("toString"));
    }
  }

  // Version 5: the bits

  /** `(b & 0x0f) | 0x50`: high nibble 5, low nibble kept. */
  function SetVersion5(b: byte): (r: byte)
    ensures r as int / 16 == 5 && r as int % 16 == b as int % 16
  {
    assert Pow2(4) == 16;
    MaskThenSet(b as nat, 0x50, 4);
    Or(And(b as nat, 0x0F), 0x50) as byte
  }

  /** `(b & 0x3f) | 0x80`: top two bits 10, low six bits kept. */
  function SetVariant(b: byte): (r: byte)
    ensures r as int / 64 == 2 && r as int % 64 == b as int % 64
  {
    assert Pow2(6) == 64;
    MaskThenSet(b as nat, 0x80, 6);
    Or(And(b as nat, 0x3F), 0x80) as byte
  }

  /** The digest after its version and variant bytes are overwritten. */
  function Stamp(digest: seq<byte>): (r: seq<byte>)
    requires |digest| > 8
    ensures |r| == |digest|
    ensures r[6] as int / 16 == 5 && r[6] as int % 16 == digest[6] as int % 16
    ensures r[8] as int / 64 == 2 && r[8] as int % 64 == digest[8] as int % 64
    ensures forall i :: 0 <= i < |digest| && i != 6 && i != 8 ==> r[i] == digest[i]
  {
    digest[6 := SetVersion5(digest[6])][8 := SetVariant(digest[8])]
  }

  /** The two assignments to `hashArray[6]` and `hashArray[8]`. */
  method StampInPlace(hashArray: array<byte>)
    requires hashArray.Length > 8
    modifies hashArray
    ensures hashArray[..] == Stamp(old(hashArray[..]))
  {
    hashArray[6] := SetVersion5(hashArray[6]);
    hashArray[8] := SetVariant(hashArray[8]);
  }

  // Version 5: the whole derivation

  /** A SHA-1 digest: 20 bytes. */
  type Digest = d: seq<byte> | |d| == 20 witness seq(20, _ => 0)

  /** The bytes hashed: namespace bytes, then name bytes, nothing in between. */
  function HashInput(namespace: JsString, nameBytes: seq<byte>): seq<byte>
  {
    NamespaceBytes(Resolve(namespace)) + nameBytes
  }

  /** The version 5 UUID the component derives, given the SHA-1 function it calls. */
  function UuidV5(namespace: JsString, nameBytes: seq<byte>, sha1: seq<byte> -> Digest): string
  {
    FormatUuid(Stamp(sha1(HashInput(namespace, nameBytes))))
  }

  /**
   * `generateUUIDv5`: resolve the namespace, read its bytes, hash them followed
   * by the name bytes, stamp version and variant into the digest in place,
   * render all of it as hex and cut the first 32 digits into the UUID layout.
   */
  method GenerateV5(namespace: JsString, nameBytes: seq<byte>, sha1: seq<byte> -> Digest) returns (uuid: string)
    ensures uuid == UuidV5(namespace, nameBytes, sha1)
    ensures IsCanonical(uuid) && uuid[14] == '5' && IsVariantDigit(uuid[19])
    ensures NamespaceBytes(Units(uuid)) == Stamp(sha1(NamespaceBytes(Resolve(namespace)) + nameBytes))[..16]
  {
    var ns := Resolve(namespace);
    var nsBytes := NamespaceBytes(ns);
    var combined := nsBytes + nameBytes;
    var hashBuffer := sha1(combined);
    var hashArray := new byte[|hashBuffer|](i requires 0 <= i < |hashBuffer| => hashBuffer[i]);
    assert hashArray[..] == hashBuffer;
    StampInPlace(hashArray);
    var stamped := hashArray[..];
    var hex := HexOfBytes(stamped);
    uuid := hex[0..8] + "-" + hex[8..12] + "-" + hex[12..16] + "-" + hex[16..20] + "-" + hex[20..32];
    assert uuid == FormatUuid(stamped);
    V5Shape(stamped);
  }

  /**
   * What the stamped digest guarantees about the text: canonical, `5` at
   * index 14, one of 8, 9, a, b at index 19, and reading the text back gives
   * the first 16 stamped bytes.
   */
  lemma V5Shape(stamped: seq<byte>)
    requires |stamped| == 20 && stamped[6] as int / 16 == 5 && stamped[8] as int / 64 == 2
    ensures IsCanonical(FormatUuid(stamped))
    ensures FormatUuid(stamped)[14] == '5' && IsVariantDigit(FormatUuid(stamped)[19])
    ensures NamespaceBytes(Units(FormatUuid(stamped))) == stamped[..16]
  {
    FormatCanonical(stamped);
    assert Position(12) == 14 && Position(16) == 19;
    assert 8 <= stamped[8] as int / 16 < 12;
    FormatPrefix(stamped);
    FormatThenParse(stamped[..16]);
  }

  /** The bytes a canonical UUID stands for carry the version in byte 6's high nibble and the variant in byte 8's top bits. */
  lemma TagBytes(u: string)
    requires IsCanonical(u) && IsVariantDigit(u[19])
    ensures |NamespaceBytes(Units(u))| == 16
    ensures NamespaceBytes(Units(u))[6] as int / 16 == DigitValue(u[14])
    ensures NamespaceBytes(Units(u))[8] as int / 64 == 2
  {
    ParseThenFormat(u);
    var b := NamespaceBytes(Units(u));
    FormatCanonical(b);
    assert Position(12) == 14 && Position(16) == 19;
    assert Digit(b[6] as int / 16) == u[14];
    assert Digit(b[8] as int / 16) == u[19];
    VariantByte(b[8] as int);
  }

  /** A byte whose high nibble prints as 8, 9, a or b has top bits 10. */
  lemma VariantByte(x: nat)
    requires x < 256 && IsVariantDigit(Digit(x / 16))
    ensures x / 64 == 2
  {
    assert 8 <= x / 16 < 12;
  }

  /** Both generators give identifiers of the standard layout whose bytes carry their version and the RFC 4122 variant. */
  lemma GeneratedBytesCarryVersion(random: seq<nibble>, namespace: JsString, nameBytes: seq<byte>, sha1: seq<byte> -> Digest)
    requires |random| == PlaceholderCount(V4Template)
    ensures |NamespaceBytes(Units(GenerateV4(random)))| == 16
    ensures NamespaceBytes(Units(GenerateV4(random)))[6] as int / 16 == 4
    ensures NamespaceBytes(Units(GenerateV4(random)))[8] as int / 64 == 2
    ensures |NamespaceBytes(Units(UuidV5(namespace, nameBytes, sha1)))| == 16
    ensures NamespaceBytes(Units(UuidV5(namespace, nameBytes, sha1)))[6] as int / 16 == 5
    ensures NamespaceBytes(Units(UuidV5(namespace, nameBytes, sha1)))[8] as int / 64 == 2
  {
    V4IsCanonical(random);
    TagBytes(GenerateV4(random));
    var stamped := Stamp(sha1(HashInput(namespace, nameBytes)));
    V5Shape(stamped);
    TagBytes(UuidV5(namespace, nameBytes, sha1));
  }

  // Missing input

  /** The message the form shows for a version 5 request without namespace or name, if one is missing. */
  function MissingFieldMessage(namespace: JsString, name: JsString): Option<string>
  {
    if namespace == [] && name == [] then Some("Please provide a namespace and name for UUID v5")
    else if namespace == [] then Some("Please provide a namespace for UUID v5")
    else if name == [] then Some("Please provide a name for UUID v5")
    else None
  }

  /** The check in `handleGenerate`: collect the missing field names, then word the message. */
  method CheckFields(namespace: JsString, name: JsString) returns (message: Option<string>)
    ensures message == MissingFieldMessage(namespace, name)
  {
    var missingFields: seq<string> := [];
    if namespace == [] {
      missingFields := missingFields + ["namespace"];
    }
    if name == [] {
      missingFields := missingFields + ["name"];
    }
    if |missingFields| > 0 {
      var fieldList := if |missingFields| == 2 then "namespace and name" else missingFields[0];
      assert "Please provide a " + "namespace and name" + " for UUID v5" == "Please provide a namespace and name for UUID v5";
      assert "Please provide a " + "namespace" + " for UUID v5" == "Please provide a namespace for UUID v5";
      assert "Please provide a " + "name" + " for UUID v5" == "Please provide a name for UUID v5";
      return Some("Please provide a " + fieldList + " for UUID v5");
    }
    return None;
  }

  // The form

  datatype Version = V4 | V5

  /** A UUID shown for `version`: canonical, with the version digit at index 14 and the variant digit at index 19. */
  predicate IsUuidOfVersion(u: string, digit: char)
  {
    IsCanonical(u) && u[14] == digit && IsVariantDigit(u[19])
  }

  /** `generateUUIDv4()` as the form calls it, with the 31 random values it draws. */
  method NewV4(random: seq<nibble>) returns (uuid: string)
    requires |random| == 31
    ensures |random| == PlaceholderCount(V4Template) && uuid == GenerateV4(random)
    ensures IsUuidOfVersion(uuid, '4')
  {
    V4PlaceholderCount();
    uuid := GenerateV4(random);
    V4IsCanonical(random);
  }

  /**
   * The component's state: the selected version, the two inputs, one result
   * and one "copied" flag per version, and the modal that reports missing input.
   */
  class UuidForm {
    var version: Version
    var namespace: JsString
    var name: JsString
    var v4Uuid: string
    var v5Uuid: string
    var v4Copied: bool
    var v5Copied: bool
    var showModal: bool
    var modalMessage: string

    /** Each result is empty or a UUID of its own version, and a result is marked copied only once it exists. */
    predicate Valid()
      reads this
    {
      && (v4Uuid == [] || IsUuidOfVersion(v4Uuid, '4'))
      && (v5Uuid == [] || IsUuidOfVersion(v5Uuid, '5'))
      && (v4Copied ==> v4Uuid != [])
      && (v5Copied ==> v5Uuid != [])
    }

    /** The UUID on display: the one belonging to the selected version. */
    function GeneratedUuid(): string
      reads this
    {
      if version == V4 then v4Uuid else v5Uuid
    }

    function Copied(): bool
      reads this
    {
      if version == V4 then v4Copied else v5Copied
    }

    constructor ()
      ensures Valid()
      ensures version == V4 && namespace == [] && name == []
      ensures v4Uuid == [] && v5Uuid == [] && !v4Copied && !v5Copied
      ensures !showModal && modalMessage == []
    {
      version := V4;
      namespace := [];
      name := [];
      v4Uuid := [];
      v5Uuid := [];
      v4Copied := false;
      v5Copied := false;
      showModal := false;
      modalMessage := [];
    }

    /** The two version buttons. */
    method SelectVersion(v: Version)
      requires Valid()
      modifies this
      ensures Valid() && version == v
      ensures namespace == old(namespace) && name == old(name)
      ensures v4Uuid == old(v4Uuid) && v5Uuid == old(v5Uuid) && v4Copied == old(v4Copied) && v5Copied == old(v5Copied)
      ensures showModal == old(showModal) && modalMessage == old(modalMessage)
    {
      version := v;
    }

    /** The namespace drop-down and the custom namespace box both set the namespace. */
    method SetNamespace(value: JsString)
      requires Valid()
      modifies this
      ensures Valid() && namespace == value
      ensures version == old(version) && name == old(name)
      ensures v4Uuid == old(v4Uuid) && v5Uuid == old(v5Uuid) && v4Copied == old(v4Copied) && v5Copied == old(v5Copied)
      ensures showModal == old(showModal) && modalMessage == old(modalMessage)
    {
      namespace := value;
    }

    method SetName(value: JsString)
      requires Valid()
      modifies this
      ensures Valid() && name == value
      ensures version == old(version) && namespace == old(namespace)
      ensures v4Uuid == old(v4Uuid) && v5Uuid == old(v5Uuid) && v4Copied == old(v4Copied) && v5Copied == old(v5Copied)
      ensures showModal == old(showModal) && modalMessage == old(modalMessage)
    {
      name := value;
    }

    /**
     * `handleGenerate`. Version 4 draws a fresh UUID from `random`. Version 5
     * first checks the inputs: a missing one opens the modal with its message
     * and leaves the result alone; otherwise the name is UTF-8 encoded and the
     * version 5 UUID replaces the old one. A new result is never marked copied.
     */
    method HandleGenerate(random: seq<nibble>, utf8: JsString -> seq<byte>, sha1: seq<byte> -> Digest)
      requires Valid() && |random| == 31
      modifies this
      ensures Valid()
      ensures version == old(version) && namespace == old(namespace) && name == old(name)
      ensures old(version) == V4 ==>
        |random| == PlaceholderCount(V4Template) &&
        v4Uuid == GenerateV4(random) && !v4Copied &&
        v5Uuid == old(v5Uuid) && v5Copied == old(v5Copied) &&
        showModal == old(showModal) && modalMessage == old(modalMessage)
      ensures old(version) == V5 && MissingFieldMessage(namespace, name).Some? ==>
        showModal && modalMessage == MissingFieldMessage(namespace, name).value &&
        v4Uuid == old(v4Uuid) && v5Uuid == old(v5Uuid) && v4Copied == old(v4Copied) && v5Copied == old(v5Copied)
      ensures old(version) == V5 && MissingFieldMessage(namespace, name).None? ==>
        v5Uuid == UuidV5(namespace, utf8(name), sha1) && !v5Copied &&
        v4Uuid == old(v4Uuid) && v4Copied == old(v4Copied) &&
        showModal == old(showModal) && modalMessage == old(modalMessage)
    {
      if version == V4 {
        GenerateVersion4(random);
      } else {
        GenerateVersion5(utf8, sha1);
      }
    }

    /** The version 4 branch of `handleGenerate`. */
    method GenerateVersion4(random: seq<nibble>)
      requires Valid() && |random| == 31
      modifies this
      ensures Valid()
      ensures |random| == PlaceholderCount(V4Template) && v4Uuid == GenerateV4(random) && !v4Copied
      ensures version == old(version) && namespace == old(namespace) && name == old(name)
      ensures v5Uuid == old(v5Uuid) && v5Copied == old(v5Copied)
      ensures showModal == old(showModal) && modalMessage == old(modalMessage)
    {
      var uuid := NewV4(random);
      v4Uuid := uuid;
      v4Copied := false;
    }

    /** The version 5 branch of `handleGenerate`: the input check, then the derivation. */
    method GenerateVersion5(utf8: JsString -> seq<byte>, sha1: seq<byte> -> Digest)
      requires Valid()
      modifies this
      ensures Valid()
      ensures version == old(version) && namespace == old(namespace) && name == old(name)
      ensures v4Uuid == old(v4Uuid) && v4Copied == old(v4Copied)
      ensures MissingFieldMessage(namespace, name).Some? ==>
        showModal && modalMessage == MissingFieldMessage(namespace, name).value &&
        v5Uuid == old(v5Uuid) && v5Copied == old(v5Copied)
      ensures MissingFieldMessage(namespace, name).None? ==>
        v5Uuid == UuidV5(namespace, utf8(name), sha1) && !v5Copied &&
        showModal == old(showModal) && modalMessage == old(modalMessage)
    {
      var message := CheckFields(namespace, name);
      if message.Some? {
        modalMessage := message.value;
        showModal := true;
        return;
      }
      var uuid := GenerateV5(namespace, utf8(name), sha1);
      v5Uuid := uuid;
      v5Copied := false;
    }

    /** `handleCopy`: with a UUID on display, the selected version's flag is set; the text goes to the clipboard. */
    method HandleCopy()
      requires Valid()
      modifies this
      ensures Valid()
      ensures Copied() == (old(Copied()) || old(GeneratedUuid()) != [])
      ensures version == old(version) && namespace == old(namespace) && name == old(name)
      ensures v4Uuid == old(v4Uuid) && v5Uuid == old(v5Uuid)
      ensures version == V4 ==> v5Copied == old(v5Copied)
      ensures version == V5 ==> v4Copied == old(v4Copied)
      ensures showModal == old(showModal) && modalMessage == old(modalMessage)
    {
      if GeneratedUuid() != [] {
        if version == V4 {
          v4Copied := true;
        } else {
          v5Copied := true;
        }
      }
    }

    /** The timer `handleCopy` starts: two seconds later the flag of the version copied is cleared. */
    method CopyTimerFires(v: Version)
      requires Valid()
      modifies this
      ensures Valid()
      ensures v == V4 ==> !v4Copied && v5Copied == old(v5Copied)
      ensures v == V5 ==> !v5Copied && v4Copied == old(v4Copied)
      ensures version == old(version) && namespace == old(namespace) && name == old(name)
      ensures v4Uuid == old(v4Uuid) && v5Uuid == old(v5Uuid)
      ensures showModal == old(showModal) && modalMessage == old(modalMessage)
    {
      if v == V4 {
        v4Copied := false;
      } else {
        v5Copied := false;
      }
    }

    /** The modal's close action. */
    method CloseModal()
      requires Valid()
      modifies this
      ensures Valid() && !showModal && modalMessage == old(modalMessage)
      ensures version == old(version) && namespace == old(namespace) && name == old(name)
      ensures v4Uuid == old(v4Uuid) && v5Uuid == old(v5Uuid) && v4Copied == old(v4Copied) && v5Copied == old(v5Copied)
    {
      showModal := false;
    }
  }

  /** Whatever the form shows is a UUID of the selected version. */
  lemma DisplayedUuidHasVersion(form: UuidForm)
    requires form.Valid() && form.GeneratedUuid() != []
    ensures IsUuidOfVersion(form.GeneratedUuid(), if form.version == V4 then '4' else '5')
  {
  }
}
