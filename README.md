# Developer toolkit: UUID, password and unescape components

This project models three components of a browser-based developer toolkit:

- **The UUID generator** produces version 4 and version 5 UUIDs.
  - Version 4 fills the template `xxxxxxxx-xxxx-4xxx-yxxx-xxxxxxxxxxxx` with random nibbles.
  - Version 5 works in three steps. It resolves the namespace (one of four predefined names, or a UUID typed by the user) and turns it into bytes. It hashes those bytes followed by the name's UTF-8 bytes with SHA-1. It stamps the version and variant bits into the digest and prints the first 16 bytes in the 8-4-4-4-12 layout.
  - The form keeps one result and one "copied" flag per version. A version 5 request with a missing namespace or name opens a modal with a message.
- **The password generator** assembles a character set from four switches (uppercase, lowercase, numbers, symbols). It maps random 32-bit words onto that set with `num % charset.length`. The form keeps the list of passwords and its two rows of per-password flags in step.
- **The unescaper** reads its input as the body of a JSON string. It escapes the double quotes, wraps the text in quotes and decodes it per section 7 of RFC 8259. If that is not valid JSON, it applies eleven global substitutions to the raw input in a fixed order.

All JavaScript text is modelled as UTF-16 code units (`JsText.JsString`), so lone surrogates and the exact behaviour of `parseInt`, regular expressions and `String.fromCharCode` can be stated. Text that is always ASCII (UUIDs, passwords, messages) is a Dafny `string`. `JsText.Units` connects the two.

Randomness, hashing and text encoding are parameters:

- `Math.random` becomes a sequence of nibbles.
- `crypto.getRandomValues` becomes sequences of `uint32` words.
- `crypto.subtle.digest('SHA-1', …)` becomes a function `seq<byte> -> Digest`, where a digest is 20 bytes.
- `TextEncoder` becomes a function from code units to bytes.

Modules:

| file | module | contents |
|---|---|---|
| wrappers.dfy | `Wrappers` | `Option` |
| js_text.dfy | `JsText` | code units, UTF-16 encoding of Dafny strings |
| bits.dfy | `Bits` | bitwise and/or on naturals, masking lemmas |
| hex.dfy | `Hex` | hex digits, `toString(16)`, `padStart`, hex code units |
| uuid_format.dfy | `UuidFormat` | bytes to UUID text and UUID text to bytes (`parseInt`, `match(/.{2}/g)`) |
| uuid_generator.dfy | `UuidGenerator` | version 4 and version 5 generation, the namespace lookup, the form |
| password.dfy | `Password` | the character set, password drawing, the form |
| unescape.dfy | `Unescape` | quote escaping, JSON string decoding, the fallback substitutions, the form |

## Model

| member | source | states |
|---|---|---|
| UuidGenerator.PlaceholderValue | app/src/components/UUIDGenerator.tsx:28-29 | An `x` takes the random value. A `y` takes `(r & 0x3) \| 0x8`, which is 8 plus `r mod 4`. Both are below 16. |
| UuidGenerator.Fill | app/src/components/UUIDGenerator.tsx:27-31 | The filled template has the template's length, and every character that is not a placeholder is kept. |
| UuidGenerator.FillAt | app/src/components/UUIDGenerator.tsx:27-31 | The placeholder at index i draws the random value whose index is the number of placeholders before i. It becomes that value's single hex digit. |
| UuidGenerator.FillDigits | app/src/components/UUIDGenerator.tsx:27-31 | Every placeholder becomes a lower-case hex digit, and a `y` becomes one of 8, 9, a, b. |
| UuidGenerator.V4TemplateText | app/src/components/UUIDGenerator.tsx:27 | The template used is exactly `xxxxxxxx-xxxx-4xxx-yxxx-xxxxxxxxxxxx`. |
| UuidGenerator.V4PlaceholderCount | app/src/components/UUIDGenerator.tsx:27-28 | The template has 31 placeholders, so one call draws 31 random values. |
| UuidGenerator.V4IsCanonical | app/src/components/UUIDGenerator.tsx:26-32 | A version 4 UUID has the standard layout: hyphens at 8, 13, 18, 23 and lower-case hex elsewhere. It has `4` at index 14 and one of 8, 9, a, b at index 19. |
| UuidGenerator.NewV4 | app/src/components/UUIDGenerator.tsx:74 | The UUID generated for the form is the filled template, and it is a UUID of version 4. |
| UuidGenerator.Resolve | app/src/components/UUIDGenerator.tsx:37-44 | `DNS`, `URL`, `OID` and `X500` resolve to the namespace UUIDs 6ba7b810-, 6ba7b811-, 6ba7b812- and 6ba7b814-9dad-11d1-80b4-00c04fd430c8, and any other token is used as the namespace itself. |
| UuidGenerator.RegistryText | app/src/components/UUIDGenerator.tsx:37-42 | The lookup table has exactly the four keys of the object literal, each with the literal's namespace UUID. |
| UuidGenerator.RegistryNamespacesAreSixteenBytes | app/src/components/UUIDGenerator.tsx:37-51 | Each predefined namespace is a canonical UUID. It reads back as exactly 16 bytes that print as the same text. |
| UuidGenerator.CustomFieldValue | app/src/components/UUIDGenerator.tsx:163-165 | The custom namespace box is empty exactly when the namespace is empty or one of the four names. Otherwise it shows the namespace. |
| UuidGenerator.LookUp | app/src/components/UUIDGenerator.tsx:37-44 | Looking up a token in the object literal finds an own entry exactly for the four names. It finds an inherited `Object.prototype` member exactly for the inherited names. |
| UuidGenerator.ResolveAsWrittenAgrees | app/src/components/UUIDGenerator.tsx:44-51 | The lookup as written fails (throws) exactly on inherited names. Elsewhere it agrees with `Resolve`. |
| UuidGenerator.ToStringNamespaceThrows | app/src/components/UUIDGenerator.tsx:44-51 | The namespace `toString` makes the lookup as written throw, while `Resolve` passes it through as text. |
| UuidGenerator.SetVersion5 | app/src/components/UUIDGenerator.tsx:64 | `(b & 0x0f) \| 0x50` has high nibble 5 and keeps the low nibble. |
| UuidGenerator.SetVariant | app/src/components/UUIDGenerator.tsx:65 | `(b & 0x3f) \| 0x80` has top bits `10` and keeps the low six bits. |
| UuidGenerator.Stamp | app/src/components/UUIDGenerator.tsx:63-65 | Only bytes 6 and 8 change: byte 6 gets version 5 and byte 8 gets the RFC 4122 variant, each keeping its low bits. |
| UuidGenerator.StampInPlace | app/src/components/UUIDGenerator.tsx:63-65 | The two in-place assignments leave the array holding the stamped digest. |
| UuidGenerator.GenerateV5 | app/src/components/UUIDGenerator.tsx:35-70 | The result is the version 5 UUID of the namespace bytes followed by the name bytes. It is canonical, with `5` at index 14 and a variant digit at index 19. Reading it back gives the first 16 stamped digest bytes. |
| UuidGenerator.V5Shape | app/src/components/UUIDGenerator.tsx:63-69 | A stamped 20-byte digest prints as a canonical version 5 UUID whose text reads back as its first 16 bytes. |
| UuidGenerator.TagBytes | app/src/components/UUIDGenerator.tsx:27-29 | A canonical UUID's bytes carry the digit at index 14 as byte 6's high nibble. A variant digit at 19 makes byte 8's top bits `10`. |
| UuidGenerator.GeneratedBytesCarryVersion | app/src/components/UUIDGenerator.tsx:26-70 | Both generators produce 16 bytes whose version nibble is 4 or 5 and whose variant bits are `10`. |
| UuidGenerator.CheckFields | app/src/components/UUIDGenerator.tsx:78-87 | The message names the missing fields ("namespace and name", "namespace" or "name"). There is no message when both are present. |
| UuidGenerator.UuidForm.constructor | app/src/components/UUIDGenerator.tsx:7-19 | The form starts on version 4 with empty inputs, no results, no flags and a closed modal. |
| UuidGenerator.UuidForm.SelectVersion | app/src/components/UUIDGenerator.tsx:118-129 | Only the selected version changes. |
| UuidGenerator.UuidForm.SetNamespace | app/src/components/UUIDGenerator.tsx:150-167 | Only the namespace changes. |
| UuidGenerator.UuidForm.SetName | app/src/components/UUIDGenerator.tsx:180 | Only the name changes. |
| UuidGenerator.UuidForm.HandleGenerate | app/src/components/UUIDGenerator.tsx:72-93 | Version 4 replaces its UUID and clears its flag. Version 5 with a missing input opens the modal with the message and leaves both results alone. Otherwise it replaces the version 5 UUID with the one derived from the UTF-8 name and clears its flag. Every shown UUID stays of its version. |
| UuidGenerator.UuidForm.GenerateVersion4 | app/src/components/UUIDGenerator.tsx:73-75 | The version 4 branch: a fresh UUID and a cleared flag, nothing else changes. |
| UuidGenerator.UuidForm.GenerateVersion5 | app/src/components/UUIDGenerator.tsx:76-92 | The version 5 branch: the modal for missing input, or the new UUID and a cleared flag. The version 4 state is untouched. |
| UuidGenerator.UuidForm.HandleCopy | app/src/components/UUIDGenerator.tsx:95-106 | The selected version's flag is set exactly when a UUID is shown. Nothing else changes. |
| UuidGenerator.UuidForm.CopyTimerFires | app/src/components/UUIDGenerator.tsx:100-103 | The timer clears the flag of the version that was copied. |
| UuidGenerator.UuidForm.CloseModal | app/src/components/UUIDGenerator.tsx:251 | Closing the modal hides it and keeps its message. |
| UuidGenerator.DisplayedUuidHasVersion | app/src/components/UUIDGenerator.tsx:22 | The UUID on display is always a UUID of the selected version. |
| UuidFormat.HexOfBytesAt | app/src/components/UUIDGenerator.tsx:68 | Byte k prints as digits 2k and 2k+1, high nibble first, each a single lower-case digit. |
| UuidFormat.FormatCanonical | app/src/components/UUIDGenerator.tsx:68-69 | Printing 16 or more bytes gives a canonical UUID with byte k's digits at their layout positions. |
| UuidFormat.FormatPrefix | app/src/components/UUIDGenerator.tsx:69 | Only the first 16 bytes reach the text, so the last four digest bytes are dropped. |
| UuidFormat.StripHyphens | app/src/components/UUIDGenerator.tsx:49 | The result has no hyphen and is no longer than the input. |
| UuidFormat.Pairs | app/src/components/UUIDGenerator.tsx:50 | `match(/.{2}/g)` yields pairs of two units, at most half as many as units. |
| UuidFormat.TrimStart | app/src/components/UUIDGenerator.tsx:51 | `parseInt` skips a prefix of white space and starts at a unit that is not white space. |
| UuidFormat.HexPrefix | app/src/components/UUIDGenerator.tsx:51 | `parseInt` reads the longest run of hex digits. |
| UuidFormat.NamespaceBytes | app/src/components/UUIDGenerator.tsx:47-51 | A namespace yields at most one byte per two units. |
| UuidFormat.ShortNamespaceGivesNoBytes | app/src/components/UUIDGenerator.tsx:47-51 | A namespace with fewer than two units after stripping hyphens gives no bytes at all. Nothing is rejected. |
| UuidFormat.ParseHexPair | app/src/components/UUIDGenerator.tsx:51 | `parseInt` of two hex digits is 16 times the first plus the second. |
| UuidFormat.ParseOfHex | app/src/components/UUIDGenerator.tsx:47-51 | Reading back the hex printing of any bytes gives those bytes. |
| UuidFormat.FormatThenParse | app/src/components/UUIDGenerator.tsx:47-51 | Reading back the UUID printed from 16 bytes gives those 16 bytes. |
| UuidFormat.ParseThenFormat | app/src/components/UUIDGenerator.tsx:47-51 | A canonical UUID reads as exactly 16 bytes that print as the same text. |
| Hex.ToHexString | app/src/components/UUIDGenerator.tsx:30 | `toString(16)` gives lower-case digits denoting the number, with no leading zero, one digit below 16 and two below 256. |
| Hex.PadStart | app/src/components/UUIDGenerator.tsx:68 | `padStart` fills on the left up to the width and keeps the string as the suffix. |
| Hex.ByteHex | app/src/components/UUIDGenerator.tsx:68 | A byte always prints as exactly its two hex digits. |
| Password.AlphanumericRanges | app/src/components/PasswordGenerator.tsx:24-29 | The uppercase, lowercase and number sets are the ranges A-Z, a-z and 0-9. |
| Password.CharsetMembers | app/src/components/PasswordGenerator.tsx:32-36 | A character is in the set exactly when its class is switched on. |
| Password.CharsetSize | app/src/components/PasswordGenerator.tsx:32-38 | The set has 26, 26, 10 and 26 characters from the four switches. It is empty exactly when all switches are off. |
| Password.BuildCharset | app/src/components/PasswordGenerator.tsx:32-36 | The `+=` steps produce the enabled sets joined in the order uppercase, lowercase, numbers, symbols. |
| Password.PasswordShape | app/src/components/PasswordGenerator.tsx:38-43 | With no switch on the password is empty. Otherwise it has the requested length and only characters of the set. |
| Password.GeneratePassword | app/src/components/PasswordGenerator.tsx:31-44 | The method returns the password of the specification: character i is the set's character at `random[i] mod size`. |
| Password.DrawCharacters | app/src/components/PasswordGenerator.tsx:43 | One character per word, each the set's character at the word modulo the set's size. |
| Password.ClampCount | app/src/components/PasswordGenerator.tsx:98 | The count lies in 1..20 and equals the request when the request is in range. |
| Password.FlipChangesOneSwitch | app/src/components/PasswordGenerator.tsx:103 | A toggle flips the named switch, keeps the others, and a second toggle undoes it. |
| Password.FlipDisablesAll | app/src/components/PasswordGenerator.tsx:103-105 | A toggle turns all switches off exactly when it names the last switch that is on. |
| Password.ClearedAt | app/src/components/PasswordGenerator.tsx:68-71 | Writing `false` at an index clears that entry and keeps the others. An index past the end grows the array with falsy entries. |
| Password.AllWellFormed | app/src/components/PasswordGenerator.tsx:47 | Passwords generated for a length and switches have that length and only characters of the set. |
| Password.PasswordGenerator.constructor | app/src/components/PasswordGenerator.tsx:11-22 | The form starts with length 16, count 1, all switches on and no passwords. |
| Password.PasswordGenerator.HandleGenerate | app/src/components/PasswordGenerator.tsx:46-52 | It produces exactly `count` passwords, password i drawn from its own random words, with both flag rows of that length and all false. |
| Password.PasswordGenerator.HandleCopy | app/src/components/PasswordGenerator.tsx:57-65 | Copying row i sets that row's two flags and keeps every other entry. |
| Password.PasswordGenerator.CopyTimerFires | app/src/components/PasswordGenerator.tsx:67-73 | The timer clears the row's button flag in whatever array is current, and the form invariant still holds. |
| Password.PasswordGenerator.HandleCopyAll | app/src/components/PasswordGenerator.tsx:76-83 | With a non-empty list, every row and the "all" flag are marked copied. With an empty list nothing changes. |
| Password.PasswordGenerator.CopyAllTimerFires | app/src/components/PasswordGenerator.tsx:81 | The timer clears the "all" flag. |
| Password.PasswordGenerator.ClearPasswords | app/src/components/PasswordGenerator.tsx:85-90 | The list and both flag rows are emptied and "copied all" is reset. |
| Password.PasswordGenerator.HandleLengthChange | app/src/components/PasswordGenerator.tsx:92-95 | It takes the new length and clears the list. |
| Password.PasswordGenerator.HandleCountChange | app/src/components/PasswordGenerator.tsx:97-100 | It stores the clamped count and clears the list. |
| Password.PasswordGenerator.ToggleOption | app/src/components/PasswordGenerator.tsx:102-109 | A toggle that would turn every switch off changes nothing. Otherwise exactly that switch flips and the list is cleared. At least one switch stays on. |
| Unescape.EscapeQuotes | app/src/components/UnescapeText.tsx:12 | Escaping never shortens the text. |
| Unescape.Wrap | app/src/components/UnescapeText.tsx:12 | The parsed text opens and closes with a double quote. |
| Unescape.EscapeQuotesShape | app/src/components/UnescapeText.tsx:12 | Every double quote of the escaped text follows a backslash, and a text without double quotes is unchanged. |
| Unescape.ScanString | app/src/components/UnescapeText.tsx:12 | The JSON string reader stops at a closing quote and returns what follows it as a proper suffix of its input. |
| Unescape.ScanSkipsNoControl | app/src/components/UnescapeText.tsx:12 | Nothing the JSON reader accepts contains a control unit. |
| Unescape.ScanEscaped | app/src/components/UnescapeText.tsx:12 | Decoding inverts the quote escaping for text without backslashes or control units. |
| Unescape.PlainTextUnchanged | app/src/components/UnescapeText.tsx:8-13 | Text without backslashes or control units parses as JSON and comes back unchanged. |
| Unescape.ControlForcesFallback | app/src/components/UnescapeText.tsx:9-15 | A control unit anywhere in the input (a raw newline, say) makes the JSON reading fail, so the substitutions decide. |
| Unescape.NonEmptyStaysNonEmpty | app/src/components/UnescapeText.tsx:8-27 | A non-empty input never unescapes to the empty string. |
| Unescape.MatchAt | app/src/components/UnescapeText.tsx:16-26 | A match consumes at least the backslash and its letter, and no more than the text holds. |
| Unescape.ReplaceAll | app/src/components/UnescapeText.tsx:16-26 | A global substitution never lengthens the text and never empties a non-empty one. |
| Unescape.ApplyRules | app/src/components/UnescapeText.tsx:15-26 | The chain of substitutions never lengthens the text and never empties a non-empty one. |
| Unescape.FallbackNoBackslash | app/src/components/UnescapeText.tsx:15-26 | The fallback leaves text without a backslash unchanged and never makes text longer. |
| Unescape.FallbackHexEscape | app/src/components/UnescapeText.tsx:25 | In the fallback, `\xHH` becomes the single unit with code HH. |
| Unescape.FallbackUnicodeEscape | app/src/components/UnescapeText.tsx:26 | In the fallback, `\uHHHH` becomes the single unit with code HHHH. |
| Unescape.DoubleBackslashN | app/src/components/UnescapeText.tsx:12-23 | In the fallback, `\\n` becomes a backslash and a newline, because `\n` is rewritten before `\\`. The JSON reading of the same text gives a backslash and `n`. |
| Unescape.UnescapeForm.constructor | app/src/components/UnescapeText.tsx:4-6 | The form starts empty and not copied. |
| Unescape.UnescapeForm.HandleInputChange | app/src/components/UnescapeText.tsx:30-38 | The output is empty for an empty input and otherwise the unescaped input, so it is empty exactly when the input is. The flag is cleared. |
| Unescape.UnescapeForm.HandleCopy | app/src/components/UnescapeText.tsx:40-46 | The flag is set exactly when there is output. Nothing else changes. |
| Unescape.UnescapeForm.CopyTimerFires | app/src/components/UnescapeText.tsx:44 | The timer clears the flag. |
| Unescape.UnescapeForm.HandleClear | app/src/components/UnescapeText.tsx:48-52 | Input, output and flag are reset. |

## Left out

- Randomness is not modelled. `Math.random` and `crypto.getRandomValues` are inputs, so uniqueness and unpredictability are not stated. Version 4 uses `Math.random`, although the info text (app/src/components/UUIDGenerator.tsx:242) calls its values cryptographically strong.
- Version 4 models `(Math.random() * 16) \| 0` as a value already in 0..15. No floating point is modelled.
- SHA-1 and `TextEncoder` are function parameters. No reference vector is proved, because that would need the hash itself.
- Clipboard writes are left out. The copy handlers model only the flags they set.
- Timers are modelled as separate `CopyTimerFires` / `CopyAllTimerFires` calls that may come at any time. Their two-second delay and React's batching of state updates are not modelled.
- React's rendering, JSX, styling, the slider and text-field conversions (`parseInt(e.target.value) || 1`) and the mount effect are left out. The mount effect is the first `HandleGenerate` call.
- Missing inputs are detected with `!namespace` and `!name`, without trimming, so a namespace of spaces counts as given. The model follows the code (`UuidGenerator.MissingFieldMessage`).
- The password form's invariant allows a late button timer to leave `copiedButtonStates` longer than the list, so it states only that it covers every row, not that the lengths are equal. `ClearedAt` models a hole as false; the component only tests the entry for truth.
- UuidGenerator.GenerateV5: it resolves the namespace with the corrected `Resolve`. For the twelve inherited `Object.prototype` names (`toString`, `constructor`, `__proto__`, …) it returns a UUID, where the code as written throws a TypeError (see Findings). Only `ResolveAsWritten` captures that behaviour.
- UuidGenerator.UuidForm.GenerateVersion5: it stores the UUID from `GenerateV5`, so the same inherited names give a new UUID. In the code as written the async handler rejects and `v5UUID` stays as it was.
- UuidGenerator.UuidForm.HandleGenerate: it runs as one step from the click to the stored result. Two overlapping version 5 requests (each awaits the digest) can finish out of order, which would leave a UUID for an earlier name on display. The model does not capture that.
- Password.PasswordGenerator.HandleCopy: it runs as one step, with no interleaving. The handler awaits the clipboard and then copies the `copiedIndices` array it captured when it started. A generate, count change or toggle during that await is overwritten by the stale array, which can break the length equality the form invariant states.
- Password.PasswordGenerator.HandleCopyAll: it runs as one step, with no interleaving. After its await, the handler sizes the flag array from the password count it captured, so a change of list during the await is not modelled.
- UuidGenerator.UuidForm.HandleCopy: it runs as one step. The version test after the clipboard await uses the version captured at the click.
- Unescape.UnescapeForm.HandleCopy: it runs as one step. A clear during the clipboard await followed by `setCopied(true)` would set the flag with no output, which the form invariant excludes.
- The modulo bias of `num % charset.length` is not stated.
- `Unescape.JsonParseString` models `JSON.parse` only for texts that start with a double quote. Those are the only texts the component passes. Other JSON values are not modelled.
- The other components (JSON formatter, URL encoder, modal, header, pages), the routing, the infrastructure stack and the tooling configuration are not part of this model.

## Findings

| source | as written | input that shows it | evidently intended | confidence | as-written member | corrected member |
|---|---|---|---|---|---|---|
| app/src/components/UUIDGenerator.tsx:44 | `namespaces[namespace] \|\| namespace` looks the namespace up on a plain object literal, so inherited `Object.prototype` members count as hits. They are functions (or an object for `__proto__`), so the next line's `ns.replace` throws a TypeError and no UUID is produced. | The custom namespace `toString` (also `constructor`, `valueOf`, `__proto__`, …) | Only the four predefined names are looked up; any other text is used as the namespace itself. | not executed | UuidGenerator.ToStringNamespaceThrows | UuidGenerator.Resolve |
