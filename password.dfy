/**
 * The password generator component: a character set assembled from four
 * switches, passwords drawn from it by reducing random 32-bit words modulo
 * its size, and the form state that keeps the list of passwords and the
 * per-row "copied" flags in step.
 */
module Password {

  /** One element of the `Uint32Array` that `crypto.getRandomValues` fills. */
  newtype uint32 = x: int | 0 <= x < 0x1_0000_0000

  /** The four character-class switches. */
  datatype Options = Options(uppercase: bool, lowercase: bool, numbers: bool, symbols: bool)

  /** The names of the four switches, as `toggleOption` receives them. */
  datatype OptionKey = UppercaseKey | LowercaseKey | NumbersKey | SymbolsKey

  const UppercaseChars: string := "ABCDEFGHIJKLMNOPQRSTUVWXYZ"
  const LowercaseChars: string := "abcdefghijklmnopqrstuvwxyz"
  const NumberChars: string := "0123456789"
  const SymbolChars: string := "!@#$%^&*()_+-=[]{}|;:,.<>?"

  predicate IsUpper(c: char) { 'A' <= c <= 'Z' }
  predicate IsLower(c: char) { 'a' <= c <= 'z' }
  predicate IsDigit(c: char) { '0' <= c <= '9' }

  /** The `count` characters from `first` on, in code order. */
  function CharRange(first: char, count: nat): (r: string)
    requires first as int + count <= 0x1_0000
    requires first as int + count <= 0xD800 || first as int >= 0xE000
  {
    seq(count, i requires 0 <= i < count => (first as int + i) as char)
  }

  /** The three alphanumeric sets are the ranges A-Z, a-z and 0-9. */
  lemma AlphanumericRanges()
    ensures UppercaseChars == CharRange('A', 26)
    ensures LowercaseChars == CharRange('a', 26)
    ensures NumberChars == CharRange('0', 10)
  {
  }

  lemma InRange(first: char, count: nat, c: char)
    requires first as int + count <= 0xD800
    ensures c in CharRange(first, count) <==> first <= c && c as int < first as int + count
  {
    if first <= c && c as int < first as int + count {
      assert CharRange(first, count)[c as int - first as int] == c;
    }
  }

  /** Membership in each fixed set, by character class. */
  lemma FixedSetMembers(c: char)
    ensures c in UppercaseChars <==> IsUpper(c)
    ensures c in LowercaseChars <==> IsLower(c)
    ensures c in NumberChars <==> IsDigit(c)
  {
    AlphanumericRanges();
    InRange('A', 26, c);
    InRange('a', 26, c);
    InRange('0', 10, c);
  }

  /** The character set: the enabled sets joined in the order uppercase, lowercase, numbers, symbols. */
  function Charset(opts: Options): string
  {
    (if opts.uppercase then UppercaseChars else [])
    + (if opts.lowercase then LowercaseChars else [])
    + (if opts.numbers then NumberChars else [])
    + (if opts.symbols then SymbolChars else [])
  }

  predicate AnyEnabled(opts: Options)
  {
    opts.uppercase || opts.lowercase || opts.numbers || opts.symbols
  }

  /** The `+=` steps of `generatePassword` that assemble the set. */
  method BuildCharset(opts: Options) returns (charset: string)
    ensures charset == Charset(opts)
  {
    charset := [];
    if opts.uppercase { charset := charset + UppercaseChars; }
    ghost var upper := charset;
    if opts.lowercase { charset := charset + LowercaseChars; }
    ghost var lower := charset;
    if opts.numbers { charset := charset + NumberChars; }
    ghost var numbers := charset;
    if opts.symbols { charset := charset + SymbolChars; }
    assert upper == (if opts.uppercase then UppercaseChars else []);
    assert lower == upper + (if opts.lowercase then LowercaseChars else []);
    assert numbers == lower + (if opts.numbers then NumberChars else []);
    assert charset == numbers + (if opts.symbols then SymbolChars else []);
  }

  /** A character is in the set exactly when its class is switched on. */
  lemma CharsetMembers(opts: Options, c: char)
    ensures c in Charset(opts) <==>
      (opts.uppercase && IsUpper(c)) || (opts.lowercase && IsLower(c)) ||
      (opts.numbers && IsDigit(c)) || (opts.symbols && c in SymbolChars)
  {
    FixedSetMembers(c);
  }

  /** The set has 26, 26, 10 and 26 characters from the four switches, so it is empty exactly when every switch is off. */
  lemma CharsetSize(opts: Options)
    ensures |Charset(opts)| ==
      (if opts.uppercase then 26 else 0) + (if opts.lowercase then 26 else 0) +
      (if opts.numbers then 10 else 0) + (if opts.symbols then 26 else 0)
    ensures Charset(opts) == [] <==> !AnyEnabled(opts)
  {
  }

  /**
   * The password `generatePassword` returns: empty when the set is empty,
   * otherwise one character per random word, the word reduced modulo the
   * size of the set.
   */
  function PasswordOf(len: nat, opts: Options, random: seq<uint32>): (p: string)
    requires |random| == len
  {
    var charset := Charset(opts);
    if charset == [] then []
    else seq(len, i requires 0 <= i < len => charset[random[i] as int % |charset|])
  }

  /** A password has the requested length and only characters of the set, unless no switch is on. */
  lemma PasswordShape(len: nat, opts: Options, random: seq<uint32>)
    requires |random| == len
    ensures !AnyEnabled(opts) ==> PasswordOf(len, opts, random) == []
    ensures AnyEnabled(opts) ==> |PasswordOf(len, opts, random)| == len
    ensures forall i :: 0 <= i < |PasswordOf(len, opts, random)| ==> PasswordOf(len, opts, random)[i] in Charset(opts)
  {
    CharsetSize(opts);
  }

  /**
   * `generatePassword`: grow the set switch by switch, give up on an empty
   * set, fill a word array with the random values, and map every word to
   * its character.
   */
  method GeneratePassword(len: nat, opts: Options, random: seq<uint32>) returns (password: string)
    requires |random| == len
    ensures password == PasswordOf(len, opts, random)
  {
    var charset := BuildCharset(opts);
    if charset == [] {
      return [];
    }
    var words := new uint32[len];
    forall i | 0 <= i < len {
      words[i] := random[i];
    }
    password := DrawCharacters(charset, words);
    assert words[..] == random;
    DrawnFromCharset(len, opts, random, password);
  }

  lemma DrawnFromCharset(len: nat, opts: Options, random: seq<uint32>, password: string)
    requires |random| == len && Charset(opts) != [] && |password| == len
    requires forall i :: 0 <= i < len ==> password[i] == Charset(opts)[random[i] as int % |Charset(opts)|]
    ensures password == PasswordOf(len, opts, random)
  {
  }

  /** `Array.from(array, (num) => charset[num % charset.length]).join('')`. */
  method DrawCharacters(charset: string, words: array<uint32>) returns (password: string)
    requires charset != []
    ensures |password| == words.Length
    ensures forall i :: 0 <= i < words.Length ==> password[i] == charset[words[i] as int % |charset|]
  {
    password := [];
    for i := 0 to words.Length
      invariant |password| == i
      invariant forall k :: 0 <= k < i ==> password[k] == charset[words[k] as int % |charset|]
    {
      password := password + [charset[words[i] as int % |charset|]];
    }
  }

  /** `Math.max(1, Math.min(20, n))`. */
  function ClampCount(n: int): (c: int)
    ensures 1 <= c <= 20
    ensures 1 <= n <= 20 ==> c == n
    ensures n < 1 ==> c == 1
    ensures n > 20 ==> c == 20
  {
    if n < 1 then 1 else if n > 20 then 20 else n
  }

  /** `{ ...options, [key]: !options[key] }`. */
  function Flip(opts: Options, key: OptionKey): (r: Options)
  {
    match key
    case UppercaseKey => opts.(uppercase := !opts.uppercase)
    case LowercaseKey => opts.(lowercase := !opts.lowercase)
    case NumbersKey => opts.(numbers := !opts.numbers)
    case SymbolsKey => opts.(symbols := !opts.symbols)
  }

  function Switch(opts: Options, key: OptionKey): bool
  {
    match key
    case UppercaseKey => opts.uppercase
    case LowercaseKey => opts.lowercase
    case NumbersKey => opts.numbers
    case SymbolsKey => opts.symbols
  }

  /** Flipping changes the named switch and no other, and flipping twice restores the options. */
  lemma FlipChangesOneSwitch(opts: Options, key: OptionKey)
    ensures Switch(Flip(opts, key), key) == !Switch(opts, key)
    ensures forall other :: other != key ==> Switch(Flip(opts, key), other) == Switch(opts, other)
    ensures Flip(Flip(opts, key), key) == opts
  {
  }

  /** A flip turns every switch off only when the named switch was the last one on. */
  lemma FlipDisablesAll(opts: Options, key: OptionKey)
    requires AnyEnabled(opts)
    ensures !AnyEnabled(Flip(opts, key)) <==>
      Switch(opts, key) && forall other :: other != key ==> !Switch(opts, other)
  {
    var flipped := Flip(opts, key);
    assert AnyEnabled(flipped) <==>
      Switch(flipped, UppercaseKey) || Switch(flipped, LowercaseKey) || Switch(flipped, NumbersKey) || Switch(flipped, SymbolsKey);
    FlipChangesOneSwitch(opts, key);
  }

  /**
   * `newStates[index] = false` on a copy of `states`: an index past the end
   * grows the array, the gap left as holes; a hole reads as `undefined`,
   * which the component only ever tests for truth, so it is modelled as false.
   */
  function ClearedAt(states: seq<bool>, index: nat): (r: seq<bool>)
    ensures |r| == if index < |states| then |states| else index + 1
    ensures !r[index]
    ensures forall i :: 0 <= i < |states| && i != index ==> r[i] == states[i]
    ensures forall i :: |states| <= i < |r| ==> !r[i]
  {
    if index < |states| then states[index := false]
    else states + seq(index + 1 - |states|, _ => false)
  }

  /** Every password has `len` characters drawn from the set. */
  predicate WellFormed(p: string, len: nat, opts: Options)
  {
    |p| == len && forall i :: 0 <= i < |p| ==> p[i] in Charset(opts)
  }

  /** Passwords made for a length and enabled switches have that length and only characters of the set. */
  lemma AllWellFormed(len: nat, opts: Options, random: seq<seq<uint32>>, passwords: seq<string>)
    requires AnyEnabled(opts) && |passwords| <= |random|
    requires forall i :: 0 <= i < |random| ==> |random[i]| == len
    requires forall i :: 0 <= i < |passwords| ==> passwords[i] == PasswordOf(len, opts, random[i])
    ensures forall i :: 0 <= i < |passwords| ==> WellFormed(passwords[i], len, opts)
  {
    forall i | 0 <= i < |passwords| ensures WellFormed(passwords[i], len, opts) {
      PasswordShape(len, opts, random[i]);
    }
  }

  /**
   * The component's state: the slider length, the count, the switches, the
   * list of passwords with its two rows of flags, and the "copied all" flag.
   */
  class PasswordGenerator {
    var length: nat
    var count: int
    var options: Options
    var passwords: seq<string>
    var copiedAll: bool
    var copiedIndices: seq<bool>
    var copiedButtonStates: seq<bool>

    /**
     * The count stays in 1..20 and a switch stays on; the list is empty or
     * holds `count` passwords made for the current length and switches; each
     * row has its "copied" flag, and the button flags cover every row (a late
     * timer can leave them longer).
     */
    predicate Valid()
      reads this
    {
      && 1 <= count <= 20
      && AnyEnabled(options)
      && (passwords == [] || |passwords| == count)
      && (forall i :: 0 <= i < |passwords| ==> WellFormed(passwords[i], length, options))
      && |copiedIndices| == |passwords|
      && |copiedButtonStates| >= |passwords|
    }

    /** The initial state: 16 characters, one password, every switch on, nothing generated yet. */
    constructor ()
      ensures Valid()
      ensures length == 16 && count == 1 && options == Options(true, true, true, true)
      ensures passwords == [] && !copiedAll && copiedIndices == [] && copiedButtonStates == []
    {
      length := 16;
      count := 1;
      options := Options(true, true, true, true);
      passwords := [];
      copiedAll := false;
      copiedIndices := [];
      copiedButtonStates := [];
    }

    /**
     * `handleGenerate` (also run once on mount): `count` fresh passwords,
     * password i drawn from `random[i]`, and every flag cleared.
     */
    method HandleGenerate(random: seq<seq<uint32>>)
      requires Valid()
      requires |random| == count && forall i :: 0 <= i < |random| ==> |random[i]| == length
      modifies this
      ensures Valid()
      ensures length == old(length) && count == old(count) && options == old(options)
      ensures |passwords| == count
      ensures forall i :: 0 <= i < count ==> passwords[i] == PasswordOf(length, options, random[i])
      ensures !copiedAll
      ensures copiedIndices == seq(count, _ => false) && copiedButtonStates == seq(count, _ => false)
    {
      var n, len, opts := count, length, options;
      var newPasswords: seq<string> := [];
      while |newPasswords| < n
        invariant unchanged(this)
        invariant |newPasswords| <= n
        invariant forall i :: 0 <= i < |newPasswords| ==> newPasswords[i] == PasswordOf(len, opts, random[i])
        decreases n - |newPasswords|
      {
        var p := GeneratePassword(len, opts, random[|newPasswords|]);
        newPasswords := newPasswords + [p];
      }
      AllWellFormed(len, opts, random, newPasswords);
      passwords := newPasswords;
      copiedAll := false;
      copiedIndices := seq(|newPasswords|, _ => false);
      copiedButtonStates := seq(|newPasswords|, _ => false);
    }

    /** `handleCopy` for row `index`: that row's two flags are set and every other flag is kept. */
    method HandleCopy(index: nat)
      requires Valid() && index < |passwords|
      modifies this
      ensures Valid()
      ensures copiedIndices == old(copiedIndices)[index := true]
      ensures copiedButtonStates == old(copiedButtonStates)[index := true]
      ensures length == old(length) && count == old(count) && options == old(options)
      ensures passwords == old(passwords) && copiedAll == old(copiedAll)
    {
      copiedIndices := copiedIndices[index := true];
      copiedButtonStates := copiedButtonStates[index := true];
    }

    /** The timer `handleCopy` starts: two seconds later the row's button flag is cleared, whatever the list holds by then. */
    method CopyTimerFires(index: nat)
      requires Valid()
      modifies this
      ensures Valid()
      ensures copiedButtonStates == ClearedAt(old(copiedButtonStates), index)
      ensures length == old(length) && count == old(count) && options == old(options)
      ensures passwords == old(passwords) && copiedAll == old(copiedAll) && copiedIndices == old(copiedIndices)
    {
      copiedButtonStates := ClearedAt(copiedButtonStates, index);
    }

    /** `handleCopyAll`: with at least one password, every row and the "all" flag are marked copied. */
    method HandleCopyAll()
      requires Valid()
      modifies this
      ensures Valid()
      ensures old(passwords) != [] ==> copiedAll && copiedIndices == seq(|passwords|, _ => true)
      ensures old(passwords) == [] ==> copiedAll == old(copiedAll) && copiedIndices == old(copiedIndices)
      ensures length == old(length) && count == old(count) && options == old(options)
      ensures passwords == old(passwords) && copiedButtonStates == old(copiedButtonStates)
    {
      if |passwords| > 0 {
        copiedIndices := seq(|passwords|, _ => true);
        copiedAll := true;
      }
    }

    /** The timer `handleCopyAll` starts. */
    method CopyAllTimerFires()
      requires Valid()
      modifies this
      ensures Valid() && !copiedAll
      ensures length == old(length) && count == old(count) && options == old(options)
      ensures passwords == old(passwords) && copiedIndices == old(copiedIndices)
      ensures copiedButtonStates == old(copiedButtonStates)
    {
      copiedAll := false;
    }

    /** `clearPasswords`: the list and both rows of flags are emptied and "copied all" is reset. */
    method ClearPasswords()
      requires 1 <= count <= 20 && AnyEnabled(options)
      modifies this
      ensures Valid()
      ensures passwords == [] && !copiedAll && copiedIndices == [] && copiedButtonStates == []
      ensures length == old(length) && count == old(count) && options == old(options)
    {
      passwords := [];
      copiedAll := false;
      copiedIndices := [];
      copiedButtonStates := [];
    }

    /** `handleLengthChange`: the new length is taken as given and the list is cleared. */
    method HandleLengthChange(newLength: nat)
      requires Valid()
      modifies this
      ensures Valid()
      ensures length == newLength && count == old(count) && options == old(options)
      ensures passwords == [] && !copiedAll && copiedIndices == [] && copiedButtonStates == []
    {
      length := newLength;
      ClearPasswords();
    }

    /** `handleCountChange`: the count is clamped into 1..20 and the list is cleared. */
    method HandleCountChange(newCount: int)
      requires Valid()
      modifies this
      ensures Valid()
      ensures count == ClampCount(newCount) && length == old(length) && options == old(options)
      ensures passwords == [] && !copiedAll && copiedIndices == [] && copiedButtonStates == []
    {
      count := ClampCount(newCount);
      ClearPasswords();
    }

    /**
     * `toggleOption`: flip one switch; when that would turn every switch off
     * nothing changes, otherwise the new switches are kept and the list is cleared.
     */
    method ToggleOption(key: OptionKey)
      requires Valid()
      modifies this
      ensures Valid()
      ensures length == old(length) && count == old(count)
      ensures AnyEnabled(Flip(old(options), key)) ==>
        options == Flip(old(options), key) &&
        passwords == [] && !copiedAll && copiedIndices == [] && copiedButtonStates == []
      ensures !AnyEnabled(Flip(old(options), key)) ==>
        options == old(options) && passwords == old(passwords) && copiedAll == old(copiedAll) &&
        copiedIndices == old(copiedIndices) && copiedButtonStates == old(copiedButtonStates)
    {
      var newOptions := Flip(options, key);
      if AnyEnabled(newOptions) {
        options := newOptions;
        ClearPasswords();
      }
    }
  }
}
