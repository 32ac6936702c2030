/**
 * The text unescaper: the input is first read as the body of a JSON string
 * (its double quotes escaped, the whole wrapped in quotes); when that is not
 * valid JSON, eleven global substitutions run over the raw input in a fixed
 * order. All text here is UTF-16 code units, as in JavaScript.
 */
module Unescape {
  import opened Wrappers
  import opened JsText
  import opened Hex

  const Backslash: CodeUnit := 0x5C
  const QuoteMark: CodeUnit := 0x22

  predicate NoBackslash(s: JsString)
  {
    forall i :: 0 <= i < |s| ==> s[i] != Backslash
  }

  /** A code unit below U+0020, which a JSON string may not hold unescaped. */
  predicate IsControl(u: CodeUnit)
  {
    u < 0x20
  }

  predicate NoControl(s: JsString)
  {
    forall i :: 0 <= i < |s| ==> !IsControl(s[i])
  }

  // Quoting

  /** `text.replace(/"/g, '\\"')`: a backslash goes in front of every double quote. */
  function EscapeQuotes(t: JsString): (r: JsString)
    ensures |r| >= |t|
  {
    if t == [] then []
    else (if t[0] == QuoteMark then [Backslash, QuoteMark] else [t[0]]) + EscapeQuotes(t[1..])
  }

  /** The JSON text handed to the parser: the escaped input between two double quotes. */
  function Wrap(t: JsString): (w: JsString)
    ensures |w| >= 2 && w[0] == QuoteMark && w[|w| - 1] == QuoteMark
  {
    [QuoteMark] + EscapeQuotes(t) + [QuoteMark]
  }

  /**
   * Escaping keeps every unit of the input in order and only adds
   * backslashes: every double quote of the result follows a backslash, and
   * a text without double quotes is left as it is.
   */
  lemma {:induction false} EscapeQuotesShape(t: JsString)
    ensures forall i :: 0 <= i < |EscapeQuotes(t)| && EscapeQuotes(t)[i] == QuoteMark ==>
      i > 0 && EscapeQuotes(t)[i - 1] == Backslash
    ensures (forall i :: 0 <= i < |t| ==> t[i] != QuoteMark) ==> EscapeQuotes(t) == t
  {
    if t != [] {
      EscapeQuotesShape(t[1..]);
      var head := if t[0] == QuoteMark then [Backslash, QuoteMark] else [t[0]];
      var r := EscapeQuotes(t);
      assert r == head + EscapeQuotes(t[1..]);
      forall i | 0 <= i < |r| && r[i] == QuoteMark ensures i > 0 && r[i - 1] == Backslash {
        if i >= |head| {
          var j := i - |head|;
          assert EscapeQuotes(t[1..])[j] == QuoteMark;
        }
      }
    }
  }

  /** A control unit of the input is still in the escaped text. */
  lemma {:induction false} EscapeQuotesKeepsControl(t: JsString, p: nat)
    requires p < |t| && IsControl(t[p])
    ensures !NoControl(EscapeQuotes(t))
  {
    var head := if t[0] == QuoteMark then [Backslash, QuoteMark] else [t[0]];
    assert EscapeQuotes(t) == head + EscapeQuotes(t[1..]);
    if p == 0 {
      assert EscapeQuotes(t)[0] == t[0];
    } else {
      EscapeQuotesKeepsControl(t[1..], p - 1);
      var r := EscapeQuotes(t[1..]);
      var q :| 0 <= q < |r| && IsControl(r[q]);
      assert EscapeQuotes(t)[|head| + q] == r[q];
    }
  }

  // JSON string decoding (section 7 of RFC 8259)

  /** The unit a two-character escape stands for: `\"`, `\\`, `\/`, `\b`, `\f`, `\n`, `\r` and `\t`. */
  function ShortEscape(letter: CodeUnit): Option<CodeUnit>
  {
    if letter == 0x22 then Some(0x22)
    else if letter == 0x5C then Some(0x5C)
    else if letter == 0x2F then Some(0x2F)
    else if letter == 0x62 then Some(0x08)
    else if letter == 0x66 then Some(0x0C)
    else if letter == 0x6E then Some(0x0A)
    else if letter == 0x72 then Some(0x0D)
    else if letter == 0x74 then Some(0x09)
    else None
  }

  lemma UnitsValueBelow(s: JsString)
    requires AllHexUnits(s) && |s| <= 4
    ensures UnitsValue(s) < 0x1_0000
    ensures |s| <= 2 ==> UnitsValue(s) < 0x100
  {
    if |s| > 0 {
      assert AllHexUnits(s[..|s| - 1]);
      UnitsValueBelow(s[..|s| - 1]);
    }
  }

  /**
   * Reads a JSON string body up to its closing quote: the decoded units and
   * what follows the quote. None when the body ends early, holds an unknown
   * escape or holds a control unit.
   */
  function ScanString(s: JsString): (r: Option<(JsString, JsString)>)
    ensures r.Some? ==> |r.value.1| < |s| && r.value.1 == s[|s| - |r.value.1|..]
    decreases |s|
  {
    if s == [] then None
    else if s[0] == QuoteMark then Some(([], s[1..]))
    else if s[0] == Backslash then
      if |s| >= 2 && ShortEscape(s[1]).Some? then
        match ScanString(s[2..])
        case None => None
        case Some(tail) => Some(([ShortEscape(s[1]).value] + tail.0, tail.1))
      else if |s| >= 6 && s[1] == 0x75 && AllHexUnits(s[2..6]) then
        UnitsValueBelow(s[2..6]);
        match ScanString(s[6..])
        case None => None
        case Some(tail) => Some(([UnitsValue(s[2..6]) as CodeUnit] + tail.0, tail.1))
      else None
    else if IsControl(s[0]) then None
    else
      match ScanString(s[1..])
      case None => None
      case Some(tail) => Some(([s[0]] + tail.0, tail.1))
  }

  predicate IsJsonWhitespace(u: CodeUnit)
  {
    u == 0x20 || u == 0x09 || u == 0x0A || u == 0x0D
  }

  /**
   * `JSON.parse` of a text that opens with a double quote: the string value
   * when the string is followed by nothing but JSON whitespace, None (the
   * `SyntaxError`) otherwise.
   */
  function JsonParseString(w: JsString): Option<JsString>
    requires |w| > 0 && w[0] == QuoteMark
  {
    match ScanString(w[1..])
    case None => None
    case Some(parsed) =>
      if forall i :: 0 <= i < |parsed.1| ==> IsJsonWhitespace(parsed.1[i]) then Some(parsed.0) else None
  }

  /** What the scanner reads past holds no control unit: every escape letter and hex digit is printable. */
  lemma {:induction false} ScanSkipsNoControl(s: JsString)
    requires ScanString(s).Some?
    ensures forall i :: 0 <= i < |s| - |ScanString(s).value.1| ==> !IsControl(s[i])
    decreases |s|
  {
    if s[0] == QuoteMark {
    } else if s[0] == Backslash {
      if |s| >= 2 && ShortEscape(s[1]).Some? {
        ScanSkipsNoControl(s[2..]);
        forall i | 2 <= i < |s| - |ScanString(s).value.1| ensures !IsControl(s[i]) {
          assert s[i] == s[2..][i - 2];
        }
      } else {
        ScanSkipsNoControl(s[6..]);
        forall i | 2 <= i < |s| - |ScanString(s).value.1| ensures !IsControl(s[i]) {
          if i >= 6 {
            assert s[i] == s[6..][i - 6];
          } else {
            assert s[2..6][i - 2] == s[i];
          }
        }
      }
    } else {
      ScanSkipsNoControl(s[1..]);
      forall i | 1 <= i < |s| - |ScanString(s).value.1| ensures !IsControl(s[i]) {
        assert s[i] == s[1..][i - 1];
      }
    }
  }

  /** A body with no backslash and no control unit whose quotes are escaped reads back as itself. */
  lemma {:induction false} ScanEscaped(t: JsString)
    requires NoBackslash(t) && NoControl(t)
    ensures ScanString(EscapeQuotes(t) + [QuoteMark]) == Some((t, []))
  {
    var s := EscapeQuotes(t) + [QuoteMark];
    if t == [] {
      assert s == [QuoteMark];
    } else {
      assert NoBackslash(t[1..]) && NoControl(t[1..]) by {
        forall i | 0 <= i < |t[1..]| ensures t[1..][i] == t[i + 1] { }
      }
      ScanEscaped(t[1..]);
      var rest := EscapeQuotes(t[1..]) + [QuoteMark];
      if t[0] == QuoteMark {
        assert s == [Backslash, QuoteMark] + rest;
        assert s[2..] == rest;
        assert [t[0]] + t[1..] == t;
      } else {
        assert s == [t[0]] + rest;
        assert s[1..] == rest;
        assert [t[0]] + t[1..] == t;
      }
    }
  }

  // The fallback substitutions

  /**
   * One global substitution: a backslash and a letter become one unit, or a
   * backslash, a letter and `width` hex digits become the unit with that
   * code (`String.fromCharCode(parseInt(hex, 16))`).
   */
  datatype Rule = Simple(letter: CodeUnit, replacement: CodeUnit) | CharCode(letter: CodeUnit, width: nat)

  /** The unit a rule produces at the start of `s` and how many units it consumes, if it matches there. */
  function MatchAt(s: JsString, rule: Rule): (m: Option<(CodeUnit, nat)>)
    ensures m.Some? ==> 2 <= m.value.1 <= |s|
  {
    if |s| < 2 || s[0] != Backslash || s[1] != rule.letter then None
    else match rule
      case Simple(_, replacement) => Some((replacement, 2))
      case CharCode(_, width) =>
        if |s| >= 2 + width && AllHexUnits(s[2..2 + width])
        then Some(((UnitsValue(s[2..2 + width]) % 0x1_0000) as CodeUnit, 2 + width))
        else None
  }

  /** `s.replace(regex, replacement)` with the `g` flag: matches are taken left to right and never overlap. */
  function ReplaceAll(s: JsString, rule: Rule): (r: JsString)
    ensures |r| <= |s|
    ensures s != [] ==> r != []
    decreases |s|
  {
    if s == [] then []
    else match MatchAt(s, rule)
      case Some(m) => [m.0] + ReplaceAll(s[m.1..], rule)
      case None => [s[0]] + ReplaceAll(s[1..], rule)
  }

  /** The substitutions run one after the other, each over the previous one's result. */
  function ApplyRules(s: JsString, rules: seq<Rule>): (r: JsString)
    ensures |r| <= |s|
    ensures s != [] ==> r != []
    decreases |rules|
  {
    if rules == [] then s else ApplyRules(ReplaceAll(s, rules[0]), rules[1..])
  }

  /** `\n`, `\r`, `\t`, `\b`, `\f`, `\'`, `\"`, `\\`, `\0`, `\xHH`, `\uHHHH`, in that order. */
  const FallbackRules: seq<Rule> := TwoUnitRules + [HexRule, UnicodeRule]

  /** `\n`, `\r`, `\t`, `\b`, `\f`, `\'`, `\"`, `\\` and `\0`. */
  const TwoUnitRules: seq<Rule> := [
    Simple(0x6E, 0x0A), Simple(0x72, 0x0D), Simple(0x74, 0x09), Simple(0x62, 0x08),
    Simple(0x66, 0x0C), Simple(0x27, 0x27), Simple(0x22, 0x22), Simple(0x5C, 0x5C),
    Simple(0x30, 0x00)
  ]

  /** `/\\x([0-9A-Fa-f]{2})/g`. */
  const HexRule: Rule := CharCode(0x78, 2)

  /** `/\\u([0-9A-Fa-f]{4})/g`. */
  const UnicodeRule: Rule := CharCode(0x75, 4)

  function Fallback(text: JsString): JsString
  {
    ApplyRules(text, FallbackRules)
  }

  /** `unescapeText`: the JSON reading when it succeeds, the substitutions otherwise. */
  function UnescapeText(text: JsString): JsString
  {
    match JsonParseString(Wrap(text))
    case Some(value) => value
    case None => Fallback(text)
  }

  // Properties of the fallback

  /** Every pattern starts with a backslash, so a text without one passes a substitution untouched. */
  lemma {:induction false} ReplaceAllNoBackslash(s: JsString, rule: Rule)
    requires NoBackslash(s)
    ensures ReplaceAll(s, rule) == s
    decreases |s|
  {
    if s != [] {
      assert s[0] != Backslash;
      assert NoBackslash(s[1..]) by {
        forall i | 0 <= i < |s[1..]| ensures s[1..][i] == s[i + 1] { }
      }
      ReplaceAllNoBackslash(s[1..], rule);
      assert [s[0]] + s[1..] == s;
    }
  }

  lemma {:induction false} ApplyRulesNoBackslash(s: JsString, rules: seq<Rule>)
    requires NoBackslash(s)
    ensures ApplyRules(s, rules) == s
    decreases |rules|
  {
    if rules != [] {
      ReplaceAllNoBackslash(s, rules[0]);
      ApplyRulesNoBackslash(s, rules[1..]);
    }
  }

  /** Text without a backslash comes out of the fallback unchanged; no text comes out longer. */
  lemma FallbackNoBackslash(text: JsString)
    ensures NoBackslash(text) ==> Fallback(text) == text
    ensures |Fallback(text)| <= |text|
  {
    if NoBackslash(text) {
      ApplyRulesNoBackslash(text, FallbackRules);
    }
  }

  /** A rule that matches at no position leaves the text as it is. */
  lemma {:induction false} ReplaceAllNoMatch(s: JsString, rule: Rule)
    requires forall i :: 0 <= i < |s| ==> MatchAt(s[i..], rule).None?
    ensures ReplaceAll(s, rule) == s
    decreases |s|
  {
    if s != [] {
      assert MatchAt(s[0..], rule).None? && s[0..] == s;
      forall i | 0 <= i < |s[1..]| ensures MatchAt(s[1..][i..], rule).None? {
        assert s[1..][i..] == s[i + 1..];
      }
      ReplaceAllNoMatch(s[1..], rule);
      assert [s[0]] + s[1..] == s;
    }
  }

  /** Rules that match nowhere in the text leave it as it is. */
  lemma {:induction false} ApplyRulesNoMatch(s: JsString, rules: seq<Rule>)
    requires forall k, i :: 0 <= k < |rules| && 0 <= i < |s| ==> MatchAt(s[i..], rules[k]).None?
    ensures ApplyRules(s, rules) == s
    decreases |rules|
  {
    if rules != [] {
      ReplaceAllNoMatch(s, rules[0]);
      forall k, i | 0 <= k < |rules[1..]| && 0 <= i < |s| ensures MatchAt(s[i..], rules[1..][k]).None? {
        assert rules[1..][k] == rules[k + 1];
      }
      ApplyRulesNoMatch(s, rules[1..]);
    }
  }

  lemma {:induction false} ApplyRulesAppend(s: JsString, a: seq<Rule>, b: seq<Rule>)
    ensures ApplyRules(s, a + b) == ApplyRules(ApplyRules(s, a), b)
    decreases |a|
  {
    if a == [] {
      assert a + b == b;
    } else {
      assert (a + b)[0] == a[0] && (a + b)[1..] == a[1..] + b;
      ApplyRulesAppend(ReplaceAll(s, a[0]), a[1..], b);
    }
  }

  /** A text whose only backslash is the first unit, followed by `letter`, matches no rule of another letter. */
  lemma OnlyLeadingBackslash(s: JsString, rules: seq<Rule>)
    requires |s| >= 2 && s[0] == Backslash && NoBackslash(s[1..])
    requires forall k :: 0 <= k < |rules| ==> rules[k].letter != s[1]
    ensures forall k, i :: 0 <= k < |rules| && 0 <= i < |s| ==> MatchAt(s[i..], rules[k]).None?
  {
    forall k, i | 0 <= k < |rules| && 0 <= i < |s| ensures MatchAt(s[i..], rules[k]).None? {
      if i > 0 {
        assert s[i..][0] == s[1..][i - 1];
      }
    }
  }

  lemma HexUnitNotBackslash(s: JsString)
    requires AllHexUnits(s)
    ensures NoBackslash(s)
  {
  }

  /** A code rule at the start of a text that is exactly its escape gives the one unit. */
  lemma CharCodeWhole(letter: CodeUnit, h: JsString)
    requires |h| > 0 && AllHexUnits(h)
    ensures ReplaceAll([Backslash, letter] + h, CharCode(letter, |h|)) == [(UnitsValue(h) % 0x1_0000) as CodeUnit]
  {
    var s: JsString := [Backslash, letter] + h;
    assert s[2..2 + |h|] == h;
    assert MatchAt(s, CharCode(letter, |h|)) == Some(((UnitsValue(h) % 0x1_0000) as CodeUnit, 2 + |h|));
    assert s[2 + |h|..] == [];
  }

  /** A single unit is too short for any pattern. */
  lemma SingleUnit(u: CodeUnit, rules: seq<Rule>)
    ensures ApplyRules([u], rules) == [u]
  {
    var v: JsString := [u];
    forall k, i | 0 <= k < |rules| && 0 <= i < |v| ensures MatchAt(v[i..], rules[k]).None? {
      assert v[i..] == v;
    }
    ApplyRulesNoMatch(v, rules);
  }

  /** In the fallback, a backslash, `x` and two hex digits become the one unit with that code. */
  lemma FallbackHexEscape(h: JsString)
    requires |h| == 2 && AllHexUnits(h)
    ensures |Fallback([Backslash, 0x78] + h)| == 1
    ensures Fallback([Backslash, 0x78] + h)[0] as int == UnitsValue(h)
  {
    var s: JsString := [Backslash, 0x78] + h;
    UnitsValueBelow(h);
    HexUnitNotBackslash(h);
    assert s[1..] == [0x78] + h;
    OnlyLeadingBackslash(s, TwoUnitRules);
    ApplyRulesNoMatch(s, TwoUnitRules);
    ApplyRulesAppend(s, TwoUnitRules, [HexRule, UnicodeRule]);
    CharCodeWhole(0x78, h);
    var u := (UnitsValue(h) % 0x1_0000) as CodeUnit;
    SingleUnit(u, [UnicodeRule]);
  }

  /** In the fallback, a backslash, `u` and four hex digits become the one unit with that code. */
  lemma FallbackUnicodeEscape(h: JsString)
    requires |h| == 4 && AllHexUnits(h)
    ensures |Fallback([Backslash, 0x75] + h)| == 1
    ensures Fallback([Backslash, 0x75] + h)[0] as int == UnitsValue(h)
  {
    var s: JsString := [Backslash, 0x75] + h;
    UnitsValueBelow(h);
    HexUnitNotBackslash(h);
    assert s[1..] == [0x75] + h;
    OnlyLeadingBackslash(s, TwoUnitRules + [HexRule]);
    ApplyRulesNoMatch(s, TwoUnitRules + [HexRule]);
    assert FallbackRules == (TwoUnitRules + [HexRule]) + [UnicodeRule];
    ApplyRulesAppend(s, TwoUnitRules + [HexRule], [UnicodeRule]);
    CharCodeWhole(0x75, h);
  }

  // Properties of the whole

  /** Text with no backslash and no control unit survives the JSON reading unchanged. */
  lemma PlainTextUnchanged(t: JsString)
    requires NoBackslash(t) && NoControl(t)
    ensures JsonParseString(Wrap(t)) == Some(t)
    ensures UnescapeText(t) == t
  {
    assert Wrap(t)[1..] == EscapeQuotes(t) + [QuoteMark];
    ScanEscaped(t);
  }

  /** The scanner stops before any control unit. */
  lemma ScanStopsBeforeControl(s: JsString, p: nat)
    requires p < |s| && IsControl(s[p]) && ScanString(s).Some?
    ensures |s| - |ScanString(s).value.1| <= p
  {
    ScanSkipsNoControl(s);
  }

  /** A control unit anywhere in the input (a raw newline, say) makes the JSON reading fail, so the fallback decides. */
  lemma ControlForcesFallback(t: JsString, p: nat)
    requires p < |t| && IsControl(t[p])
    ensures JsonParseString(Wrap(t)) == None
    ensures UnescapeText(t) == Fallback(t)
  {
    var e := EscapeQuotes(t);
    var s := Wrap(t)[1..];
    assert s == e + [QuoteMark];
    EscapeQuotesKeepsControl(t, p);
    var q :| 0 <= q < |e| && IsControl(e[q]);
    assert s[q] == e[q];
    match ScanString(s)
    case None =>
    case Some(parsed) =>
      ScanStopsBeforeControl(s, q);
      assert parsed.1[|parsed.1| - 1] == s[|s| - 1] == QuoteMark;
      assert !IsJsonWhitespace(parsed.1[|parsed.1| - 1]);
  }

  /**
   * The order of the fallback matters: `\n` becomes a backslash and a
   * newline there, because `\n` is rewritten before `\\`; the JSON reading,
   * which succeeds on this text, gives a backslash and `n`.
   */
  lemma DoubleBackslashN()
    ensures Fallback([Backslash, Backslash, 0x6E]) == [Backslash, 0x0A]
    ensures UnescapeText([Backslash, Backslash, 0x6E]) == [Backslash, 0x6E]
  {
    var s: JsString := [Backslash, Backslash, 0x6E];
    assert ReplaceAll(s, Simple(0x6E, 0x0A)) == [Backslash, 0x0A] by {
      assert MatchAt(s, Simple(0x6E, 0x0A)).None?;
      assert s[1..] == [Backslash, 0x6E];
      assert MatchAt(s[1..], Simple(0x6E, 0x0A)) == Some((0x0A, 2));
      assert s[1..][2..] == [];
    }
    var r: JsString := [Backslash, 0x0A];
    assert r[1..] == [0x0A];
    assert forall k, i :: 1 <= k < 11 && 0 <= i < |r| ==> MatchAt(r[i..], FallbackRules[k]).None?;
    ApplyRulesNoMatch(r, FallbackRules[1..]);
    EscapeQuotesShape(s);
    var body: JsString := [Backslash, Backslash, 0x6E, QuoteMark];
    assert Wrap(s)[1..] == body;
    var tail: JsString := [0x6E, QuoteMark];
    assert body[2..] == tail && tail[1..] == [QuoteMark];
    var none: JsString := [];
    assert ScanString(tail[1..]) == Some((none, none));
    assert tail[0] == 0x6E && !IsControl(tail[0]) && [tail[0]] + none == [0x6E];
    assert ScanString(tail) == Some(([0x6E], none));
    assert ScanString(body) == Some(([Backslash, 0x6E], []));
  }

  /** Unescaping never empties a text: every escape and every other unit yields one unit. */
  lemma NonEmptyStaysNonEmpty(t: JsString)
    requires t != []
    ensures UnescapeText(t) != []
  {
    var e := EscapeQuotes(t);
    var s := Wrap(t)[1..];
    assert s == e + [QuoteMark];
    EscapeQuotesShape(t);
    assert s[0] == e[0] != QuoteMark;
  }

  // The form

  /** The output area for a given input: empty for an empty input, the unescaped text otherwise. */
  function OutputFor(input: JsString): JsString
  {
    if input == [] then [] else UnescapeText(input)
  }

  /** The component's state: the input, the output shown for it and the "copied" flag. */
  class UnescapeForm {
    var inputText: JsString
    var outputText: JsString
    var copied: bool

    /** The output always belongs to the current input, and only a non-empty output can be marked copied. */
    predicate Valid()
      reads this
    {
      outputText == OutputFor(inputText) && (copied ==> outputText != [])
    }

    constructor ()
      ensures Valid() && inputText == [] && outputText == [] && !copied
    {
      inputText := [];
      outputText := [];
      copied := false;
    }

    /** `handleInputChange`: the input is replaced, its output recomputed and the flag cleared. */
    method HandleInputChange(value: JsString)
      modifies this
      ensures Valid()
      ensures inputText == value && outputText == OutputFor(value) && !copied
      ensures outputText == [] <==> value == []
    {
      inputText := value;
      copied := false;
      if value != [] {
        NonEmptyStaysNonEmpty(value);
        outputText := UnescapeText(value);
      } else {
        outputText := [];
      }
    }

    /** `handleCopy`: a non-empty output goes to the clipboard and the flag is set. */
    method HandleCopy()
      requires Valid()
      modifies this
      ensures Valid()
      ensures copied == (old(copied) || outputText != [])
      ensures inputText == old(inputText) && outputText == old(outputText)
    {
      if outputText != [] {
        copied := true;
      }
    }

    /** The timer `handleCopy` starts: two seconds later the flag is cleared. */
    method CopyTimerFires()
      requires Valid()
      modifies this
      ensures Valid() && !copied
      ensures inputText == old(inputText) && outputText == old(outputText)
    {
      copied := false;
    }

    /** `handleClear`. */
    method HandleClear()
      modifies this
      ensures Valid() && inputText == [] && outputText == [] && !copied
    {
      inputText := [];
      outputText := [];
      copied := false;
    }
  }
}
