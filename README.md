# Thugtools utilities, modelled in Dafny

This project models the pure and index-level logic of the Kotlin helper
object `Util` in Thugtools, and the `CommonEnums.Intervals` enum. The
Android layer around them is not modelled. The parts covered are:

- **Digests.** Hex rendering of a digest (`getHash`). Reading the first 8 or
  4 digest bytes through a `ByteBuffer` as a signed big-endian `Long` or
  `Int` (`getHashLong`, `getHashInt`).
- **Phone numbers.** `normalizePhoneNumber`, in full for inputs with letters.
  For the numeric branch, libphonenumber is a parameter.
- **Validity.** `isProbablyAValidPhoneNumber`.
- **Text cleaning.** `containsDigit` and the two-pass `cleanText`.
- **Timestamps.** `formatTimestamp` and `getStringForTimestamp`. Today's
  local midnight and the date formatter are parameters.
- **Highlighting.** The index arithmetic of `highlightText`: case-insensitive
  search, then the 13-character lead window for late matches.
- **Intervals.** The millisecond values and `millis(multiple)`, with Kotlin
  `Long` wrap-around.

Modules, one per file:

- `Wrappers`: `Option`.
- `JvmInts`: JVM integer ranges and 64-bit wrap-around.
- `Chars`: ASCII character classes, lowercasing, and Kotlin's `trim` /
  `isBlank`.
- `CommonEnums`: the `Intervals` enum.
- `Hashing`: the hex fold, plus a `ByteBuffer` class over an array with a
  position.
- `PhoneNumbers`: normalisation and validity.
- `TextCleaner`: `split` and `join`, the two passes, and the token
  specification.
- `Timestamps`: range selection and the final trim.
- `Highlight`: the search and the window.

The imperative code keeps its form:

- `cleanText` is a method with its two loops over string buffers.
- `containsDigit` has its flag-and-break loop.
- `getStringForTimestamp` reassigns its variables.
- `highlightText` moves its start position.
- `getHashLong` and `getHashInt` allocate a `ByteBuffer` object, `put`,
  `rewind` and `get` on it.

Each of these is proved against a specification function. The properties of
those functions are proved as lemmas.

## Model

| member | source | states |
|---|---|---|
| CommonEnums.Intervals.ValueInMillis | thugtools/src/main/java/com/siddhantkushwaha/thugtools/CommonEnums.kt:5-11 | Second, Minute, Hour, Day, Week and Month are 1000, 60000, 3600000, 86400000, 604800000 and 2592000000 ms |
| CommonEnums.Intervals.Millis | thugtools/src/main/java/com/siddhantkushwaha/thugtools/CommonEnums.kt:13-15 | the result is unit × multiple whenever that product fits in a Long, and is congruent to it modulo 2^64 always (Long multiplication wraps) |
| CommonEnums.UnitRatios | thugtools/src/main/java/com/siddhantkushwaha/thugtools/CommonEnums.kt:7-11 | Minute = 60·Second, Hour = 60·Minute, Day = 24·Hour, Week = 7·Day, Month = 30·Day |
| CommonEnums.ValuesIncrease | thugtools/src/main/java/com/siddhantkushwaha/thugtools/CommonEnums.kt:6-11 | every value is positive, and the values strictly increase in declaration order |
| CommonEnums.MillisDefault | thugtools/src/main/java/com/siddhantkushwaha/thugtools/CommonEnums.kt:13-15 | the default multiple 1 gives the unit's own value |
| CommonEnums.MillisLinear | thugtools/src/main/java/com/siddhantkushwaha/thugtools/CommonEnums.kt:13-15 | millis(a + b) = millis(a) + millis(b) while every product stays in Long range |
| CommonEnums.MillisOverflow | thugtools/src/main/java/com/siddhantkushwaha/thugtools/CommonEnums.kt:14 | past the range the product wraps: Day.millis(106751991168) is negative |
| JvmInts.WrapLong | thugtools/src/main/java/com/siddhantkushwaha/thugtools/CommonEnums.kt:14 | the Long a 64-bit two's-complement operation yields: congruent modulo 2^64, and the value itself when it fits |
| Hashing.GetHash | thugtools/src/main/java/com/siddhantkushwaha/thugtools/Util.kt:40-43 | the hex text is twice as long as the digest; characters 2i and 2i+1 are the lowercase hex digits of byte i taken mod 256, high digit first |
| Hashing.ParseGetHash | thugtools/src/main/java/com/siddhantkushwaha/thugtools/Util.kt:40-43 | reading the hex text back gives each digest byte's unsigned value, in order (round trip) |
| Hashing.GetHashInjective | thugtools/src/main/java/com/siddhantkushwaha/thugtools/Util.kt:40-43 | different digests never render to the same hex text |
| Hashing.ByteBuffer.Allocate | thugtools/src/main/java/com/siddhantkushwaha/thugtools/Util.kt:47 | a fresh buffer of the requested capacity, zero-filled, at position 0 |
| Hashing.ByteBuffer.Put | thugtools/src/main/java/com/siddhantkushwaha/thugtools/Util.kt:48 | the bytes are copied in at the position, the rest of the array is unchanged, and the position advances by their count |
| Hashing.ByteBuffer.Rewind | thugtools/src/main/java/com/siddhantkushwaha/thugtools/Util.kt:49 | the position returns to 0 |
| Hashing.ByteBuffer.Next | thugtools/src/main/java/com/siddhantkushwaha/thugtools/Util.kt:50 | reads `width` bytes as an unsigned big-endian number and advances past them; an underflow reads nothing and leaves the position |
| Hashing.ByteBuffer.GetLong | thugtools/src/main/java/com/siddhantkushwaha/thugtools/Util.kt:50 | the next 8 bytes as a signed big-endian Long, and the position moves past them; None (BufferUnderflowException) when fewer than 8 remain, with the position left as it was |
| Hashing.ByteBuffer.GetInt | thugtools/src/main/java/com/siddhantkushwaha/thugtools/Util.kt:58 | the next 4 bytes as a signed big-endian Int, and the position moves past them; None when fewer than 4 remain, with the position left as it was |
| Hashing.GetHashLong | thugtools/src/main/java/com/siddhantkushwaha/thugtools/Util.kt:45-51 | defined exactly when the digest has at least 8 bytes; then it is the first 8 bytes decoded big-endian as a signed Long |
| Hashing.GetHashInt | thugtools/src/main/java/com/siddhantkushwaha/thugtools/Util.kt:53-59 | defined exactly when the digest has at least 4 bytes; then it is the first 4 bytes decoded big-endian as a signed Int |
| Hashing.SignFollowsFirstByte | thugtools/src/main/java/com/siddhantkushwaha/thugtools/Util.kt:45-59 | the decoded Long or Int is negative exactly when the first digest byte is |
| Hashing.BigEndianBytes | thugtools/src/main/java/com/siddhantkushwaha/thugtools/Util.kt:50 | writing a number as `width` big-endian bytes and reading them back gives the number |
| Hashing.LongRoundTrip | thugtools/src/main/java/com/siddhantkushwaha/thugtools/Util.kt:50 | every Long is the decoding of its own 8 big-endian bytes, so the decoding reaches every Long |
| Hashing.IntRoundTrip | thugtools/src/main/java/com/siddhantkushwaha/thugtools/Util.kt:58 | every Int is the decoding of its own 4 big-endian bytes |
| PhoneNumbers.NormalizePhoneNumber | thugtools/src/main/java/com/siddhantkushwaha/thugtools/Util.kt:69-98 | null gives null. Input with a letter gives its alias, a text made only of [a-z0-9] (the alias is fixed character by character by AliasOne and AliasConcat). Input without a letter gives a non-null result exactly when the parse succeeds; that result is the E.164 text for a Mobile or FixedLineOrMobile number, and the national number's decimal digits otherwise |
| PhoneNumbers.StripNonLowerAlnum | thugtools/src/main/java/com/siddhantkushwaha/thugtools/Util.kt:75 | removing every character outside [a-z0-9] leaves only such characters, and every such character of the input (order and count: StripConcat, StripOne) |
| PhoneNumbers.Decimal | thugtools/src/main/java/com/siddhantkushwaha/thugtools/Util.kt:88 | a national number renders as a non-empty string of decimal digits, with no leading zero, whose decimal value is the number |
| PhoneNumbers.ValidityCharacterization | thugtools/src/main/java/com/siddhantkushwaha/thugtools/Util.kt:61-67 | valid exactly when the input has no ASCII letter, the parse succeeds, and (for mobile numbers) the E.164 text has no letter |
| PhoneNumbers.StripConcat | thugtools/src/main/java/com/siddhantkushwaha/thugtools/Util.kt:75 | the `[^a-z0-9]` removal works piece by piece: stripping a concatenation strips each part |
| PhoneNumbers.StripOne | thugtools/src/main/java/com/siddhantkushwaha/thugtools/Util.kt:75 | one character is kept exactly when it is in [a-z0-9] |
| PhoneNumbers.AliasConcat | thugtools/src/main/java/com/siddhantkushwaha/thugtools/Util.kt:74-75 | the alias of a concatenation is the concatenation of the aliases |
| PhoneNumbers.AliasOne | thugtools/src/main/java/com/siddhantkushwaha/thugtools/Util.kt:74-75 | a letter appears in the alias lowercased, a digit as it is, any other character is dropped |
| PhoneNumbers.IsProbablyAValidPhoneNumber | thugtools/src/main/java/com/siddhantkushwaha/thugtools/Util.kt:61-67 | a probably-valid number has no ASCII letter and is parsed by libphonenumber |
| PhoneNumbers.LetteredNeverValid | thugtools/src/main/java/com/siddhantkushwaha/thugtools/Util.kt:61-75 | an input with an ASCII letter is never a probably-valid number |
| PhoneNumbers.DecimalHasNoLetter | thugtools/src/main/java/com/siddhantkushwaha/thugtools/Util.kt:88 | a national-number rendering never contains a letter |
| PhoneNumbers.AliasKeepsLetter | thugtools/src/main/java/com/siddhantkushwaha/thugtools/Util.kt:73-75 | an alias made from an input with a letter still contains a letter |
| PhoneNumbers.StripKeepsLowerAlnum | thugtools/src/main/java/com/siddhantkushwaha/thugtools/Util.kt:75 | text already in [a-z0-9] is left unchanged |
| PhoneNumbers.AliasIdempotent | thugtools/src/main/java/com/siddhantkushwaha/thugtools/Util.kt:74-75 | lowercasing and stripping a second time changes nothing |
| PhoneNumbers.NormalizeAliasStable | thugtools/src/main/java/com/siddhantkushwaha/thugtools/Util.kt:69-75 | normalising an alias a second time gives the same alias |
| TextCleaner.Split | thugtools/src/main/java/com/siddhantkushwaha/thugtools/Util.kt:114 | `split(" ")` yields at least one piece, and no piece holds the separator |
| TextCleaner.SplitChars | thugtools/src/main/java/com/siddhantkushwaha/thugtools/Util.kt:114 | every character of a piece comes from the split text |
| TextCleaner.SplitConcat | thugtools/src/main/java/com/siddhantkushwaha/thugtools/Util.kt:114 | splitting x + sep + y gives the pieces of x followed by those of y |
| TextCleaner.SplitNoSeparator | thugtools/src/main/java/com/siddhantkushwaha/thugtools/Util.kt:114 | text without the separator splits into itself alone |
| TextCleaner.SplitJoin | thugtools/src/main/java/com/siddhantkushwaha/thugtools/Util.kt:139-145 | splitting a join of separator-free pieces gives the pieces back |
| TextCleaner.JoinStartsWithFirst | thugtools/src/main/java/com/siddhantkushwaha/thugtools/Util.kt:141-145 | a join begins with its first piece |
| TextCleaner.JoinChars | thugtools/src/main/java/com/siddhantkushwaha/thugtools/Util.kt:141-145 | every character of a join is the separator or a character of some piece |
| TextCleaner.ContainsDigit | thugtools/src/main/java/com/siddhantkushwaha/thugtools/Util.kt:100-110 | true exactly when some character is a digit, false for "" |
| TextCleaner.IsLinkOrEmail | thugtools/src/main/java/com/siddhantkushwaha/thugtools/Util.kt:117-122 | a dropped word always holds a dot; a kept word has no `/` with a dot and no `@` with a dot |
| TextCleaner.Scrub | thugtools/src/main/java/com/siddhantkushwaha/thugtools/Util.kt:132-133 | same length; a letter becomes its lowercase at the same position, digits and spaces stay, every other character becomes a space |
| TextCleaner.WordTokens | thugtools/src/main/java/com/siddhantkushwaha/thugtools/Util.kt:116-135 | a link or e-mail contributes nothing; otherwise a word with a digit contributes exactly `#`; every token is `#` or at least two lowercase letters |
| TextCleaner.CleanText | thugtools/src/main/java/com/siddhantkushwaha/thugtools/Util.kt:112-146 | the output is the cleaned tokens of the input's words, in order, joined by single spaces |
| TextCleaner.TwoPasses | thugtools/src/main/java/com/siddhantkushwaha/thugtools/Util.kt:112-146 | the first pass, the second pass and the trim together give the cleaned tokens joined by spaces |
| TextCleaner.ContributionTokens | thugtools/src/main/java/com/siddhantkushwaha/thugtools/Util.kt:116-143 | what one word appends to the first buffer yields, after splitting and filtering, exactly that word's tokens |
| TextCleaner.Pass1Tokens | thugtools/src/main/java/com/siddhantkushwaha/thugtools/Util.kt:113-143 | the pieces of the first buffer that the second pass keeps are the words' tokens |
| TextCleaner.KeptConcat | thugtools/src/main/java/com/siddhantkushwaha/thugtools/Util.kt:139-143 | the second pass's filter works piece by piece |
| TextCleaner.Pass2Spaced | thugtools/src/main/java/com/siddhantkushwaha/thugtools/Util.kt:138-143 | the second buffer is each kept piece preceded by one space |
| TextCleaner.TrimPass2 | thugtools/src/main/java/com/siddhantkushwaha/thugtools/Util.kt:138-145 | trimming the second buffer gives the kept pieces joined by single spaces |
| TextCleaner.JoinShape | thugtools/src/main/java/com/siddhantkushwaha/thugtools/Util.kt:145 | a join of clean tokens has no space at either end and splits back into those tokens |
| TextCleaner.CleanedShape | thugtools/src/main/java/com/siddhantkushwaha/thugtools/Util.kt:138-145 | the output is empty exactly when there are no tokens; otherwise it has no leading or trailing space and no empty token |
| TextCleaner.CleanedAlphabet | thugtools/src/main/java/com/siddhantkushwaha/thugtools/Util.kt:112-146 | every output character is a space, `#` or a lowercase letter |
| TextCleaner.WordsTokensConcat | thugtools/src/main/java/com/siddhantkushwaha/thugtools/Util.kt:114-136 | the tokens of a word list split at any point are the tokens of the parts, in order |
| TextCleaner.CleanTokensConcat | thugtools/src/main/java/com/siddhantkushwaha/thugtools/Util.kt:114-136 | cleaning works word by word: texts joined by a space give the tokens of the first and then of the second |
| TextCleaner.NotIdempotent | thugtools/src/main/java/com/siddhantkushwaha/thugtools/Util.kt:126-140 | "word number" cleans to "word #", and "word #" cleans to "word"; a second cleaning can change the text |
| TextCleaner.LowercaseWordTokens | thugtools/src/main/java/com/siddhantkushwaha/thugtools/Util.kt:131-134 | a word of two or more lowercase letters is kept as it is |
| TextCleaner.HashTokens | thugtools/src/main/java/com/siddhantkushwaha/thugtools/Util.kt:131-141 | the sentinel `#` scrubs to a space, which is dropped |
| Chars.ToLower | thugtools/src/main/java/com/siddhantkushwaha/thugtools/Util.kt:74 | 'A'..'Z' move 32 code points on to 'a'..'z'; lowercase letters and every non-letter stay |
| Chars.IsBlank | thugtools/src/main/java/com/siddhantkushwaha/thugtools/Util.kt:149 | blank exactly when trimStart leaves nothing |
| Chars.Lowercase | thugtools/src/main/java/com/siddhantkushwaha/thugtools/Util.kt:74 | same length; each character is ToLower of the input character at that position |
| Chars.Trim | thugtools/src/main/java/com/siddhantkushwaha/thugtools/Util.kt:145 | empty exactly when the text is blank; otherwise starts and ends with a non-whitespace character; always a slice of the text with only whitespace before and after it |
| Chars.TrimNoOp | thugtools/src/main/java/com/siddhantkushwaha/thugtools/Util.kt:153 | text without whitespace at either end is left as it is |
| Chars.TrimLeadingSpace | thugtools/src/main/java/com/siddhantkushwaha/thugtools/Util.kt:184 | a leading space does not change the trimmed text |
| Chars.TrimTrailingSpace | thugtools/src/main/java/com/siddhantkushwaha/thugtools/Util.kt:184 | a trailing space does not change the trimmed text |
| Timestamps.GetStringForTimestamp | thugtools/src/main/java/com/siddhantkushwaha/thugtools/Util.kt:156-185 | the result is the range's prefix, a space and the formatted range pattern, trimmed. Today shows the trimmed time of day, and yesterday without `showTime` shows exactly "Yesterday" |
| Timestamps.RangesPartition | thugtools/src/main/java/com/siddhantkushwaha/thugtools/Util.kt:166-181 | today, yesterday, earlier this week and older cover every timestamp and never overlap |
| Timestamps.SelectionShape | thugtools/src/main/java/com/siddhantkushwaha/thugtools/Util.kt:164-182 | " hh:mm a" ends the pattern exactly when `showTime` holds and today's range was not taken. Only yesterday has a prefix. The pattern is blank exactly for yesterday without `showTime` |
| Timestamps.TodayAlone | thugtools/src/main/java/com/siddhantkushwaha/thugtools/Util.kt:167-184 | today's text is the rendered time of day, trimmed, with no prefix |
| Timestamps.YesterdayAlone | thugtools/src/main/java/com/siddhantkushwaha/thugtools/Util.kt:171-184 | yesterday with a blank pattern gives exactly "Yesterday" |
| Timestamps.FormatTimestamp | thugtools/src/main/java/com/siddhantkushwaha/thugtools/Util.kt:148-154 | a blank pattern gives ""; any other pattern reaches the formatter trimmed, non-empty and without whitespace at either end |
| Timestamps.FormatTimestampBlank | thugtools/src/main/java/com/siddhantkushwaha/thugtools/Util.kt:148-154 | a blank pattern formats to ""; any other pattern reaches the formatter trimmed, so " hh:mm a" renders as "hh:mm a" |
| Highlight.IndexOfIgnoreCase | thugtools/src/main/java/com/siddhantkushwaha/thugtools/Util.kt:233 | -1 exactly when the substring occurs nowhere ignoring case; otherwise the first index where it occurs |
| Highlight.IndexOfFrom | thugtools/src/main/java/com/siddhantkushwaha/thugtools/Util.kt:233 | the first index from the start where the substring occurs ignoring case, or -1 exactly when it occurs nowhere |
| Highlight.IndexOfLowercase | thugtools/src/main/java/com/siddhantkushwaha/thugtools/Util.kt:233 | lowercasing the text does not move the match |
| Highlight.HighlightText | thugtools/src/main/java/com/siddhantkushwaha/thugtools/Util.kt:227-251 | nothing exactly when there is no match. Otherwise the span has the substring's length, lies inside the shown text and holds the characters of the first match. A match past index 30 shows "..." plus the text from 10 before it, with the span at 13; an earlier match shows the text as is, with the span at the match |
| Highlight.WindowKeepsMatch | thugtools/src/main/java/com/siddhantkushwaha/thugtools/Util.kt:237-240 | the cut text holds the match at index 13, and is shorter than the original text whenever the match starts past index 13, as it does for every cut |
| Highlight.SpanMatches | thugtools/src/main/java/com/siddhantkushwaha/thugtools/Util.kt:242-248 | the coloured span matches the substring ignoring case |

## Left out

- Only some of `Util.kt` is modelled. These parts are Android I/O or UI and are not part of this model: `getDeviceId`, `getDeviceModelInfo`, `checkPermissions`, `copyToClipboard`, `showAlert`, `dbToPx` (floating point), `isAndroidVersionAtLeast`, `isAppInstalled` and `base64Encode`.
- The `TextView`, `SpannableString` and colour side of `highlightText` is left out. Android's handling of a zero-length span (an empty substring) is outside the model.
- `TelephonyUtil.kt` is not part of this model (content providers, cursors, subscriptions).
- `CoroutineHelper.throttleLatest` is left out: it is coroutine timing over shared captured variables.
- `GsonUtil`, `LogUtil` and `ActivityTracker` are left out; they are thin wrappers over Gson, `android.util.Log` and global activity state.
- The error log in `normalizePhoneNumber`'s catch block is not modelled; only its `null` result is.
- `MessageDigest` is not modelled: the digest bytes are the input of `GetHash`, `GetHashLong` and `GetHashInt`, and the `algorithm` argument is dropped with it. A digest shorter than 8 (or 4) bytes gives None where Java throws `BufferUnderflowException`.
- libphonenumber is a parameter. `parse`, `getNumberType` and E.164 `format` are fields of `PhoneNumberUtil`, and a failed parse is None in place of a `NumberParseException`. Its rules for numbers are outside the model, and so is the claim that two spellings of one subscriber normalise alike.
- Dates are not modelled. The clock (`OffsetDateTime.now()`) and the time zone become the `midnight` parameter. `DateTimeFormatter` becomes a function parameter from a timestamp and a pattern to text.
- Timestamps.GetStringForTimestamp: its full selection result is stated only when `midnight - 6 days` does not wrap below Long's minimum (`NoWrap`). That excludes midnights within six days of the year -292 million, where the Kotlin subtraction wraps.
- Highlight.HighlightText: string indices and lengths count Unicode scalar values, where Kotlin's `indexOf`, `length` and `substring` count UTF-16 code units. The `> 30` threshold, the cut at `p - 10` and the span at 13 agree with the Kotlin code only for text without characters outside the Basic Multilingual Plane (emoji, for example). A cut that splits a surrogate pair cannot be represented.
- Highlight.IndexOfIgnoreCase: the index it returns counts Unicode scalar values, not UTF-16 code units, so it is smaller than Kotlin's whenever a character outside the Basic Multilingual Plane comes before the match.
- Highlight.IndexOfFrom: the start index and the result count Unicode scalar values, not UTF-16 code units, as for `IndexOfIgnoreCase`.
- Case and digits are ASCII only. `lowercase(Locale.getDefault())`, `Character.isDigit`, the `[a-zA-Z]` checks and `indexOf(ignoreCase = true)` are modelled on ASCII. Locale-specific and non-ASCII case mappings and digits are out of scope. `isWhitespace` follows Kotlin's list of whitespace characters.
- Hashing.ByteBuffer.Put: requires that the bytes fit. Java throws `BufferOverflowException` otherwise, but `getHashLong` and `getHashInt` allocate exactly the digest's size, so that path is never taken there.
- `cleanText` is not idempotent: `#` holds no digit, so a second cleaning scrubs it to a space and drops it. `TextCleaner.NotIdempotent` proves this, for example "call 12" → "call #" → "call".
