# Mariowski.Common in Dafny

A Dafny model of the logic at the heart of Mariowski.Common, with proofs about it. It covers five groups of code:

- **TimeString**: the duration parser `TimeString.Parse` and the `TimeString` value type. The parser reads segments such as `"3days 20hours 36mins 17secs 156ms"`, case-insensitive unit prefixes, and a digit run converted with `ToInt`. The value type compares instances by duration.
- **ShortGuid**: the 22-character URL-safe text of a GUID, with its `Encode`/`Decode`, constructors and equality. The loop-based variant `GuidExtensions.EncodeBase64String` is here too. Base64 follows section 4 of RFC 4648, with the URL-safe alphabet of section 5.
- **Email**: the e-mail address pattern shared by `MailAddressValidator`, `EmailValidator` and `Email.IsValid`. Both `Email` value types (the record in `DataTypes`, the class in `ValueObjects`) validate and lowercase their input.
- **Shuffle**: the in-place Fisher–Yates `ListExtensions.Shuffle`.
- **Entities and the repository**: identity of entities (`Entity.IsTransient`, `Equals`, `==`). Also `InMemoryRepository` with the default operations it inherits from `GenericRepository`.

Files:

- `common.dfy`: `Option`, `Result`, and `Object<T>`. `Object<T>` is the argument of an `Equals(object)`: null, an object that the source's type test accepts, or any other object.
- `ascii.dfy`: ASCII character classes, `char.IsWhiteSpace`, `ToLowerInvariant` on ASCII.
- `base64.dfy`: `Convert.ToBase64String` and `Convert.FromBase64String`.
  - Bytes are cut into sextets and back.
  - Padding is handled.
  - The decoder skips white space and checks lengths.
- `shortguid.dfy`: `ShortGuid.Encode` and `Decode`, the `ShortGuid` type, and the test vector `087cd284-4e96-42bb-870c-8f9177ed8246` ↔ `hNJ8CJZOu0KHDI-Rd-2CRg`.
- `guidext.dfy`: `GuidExtensions.EncodeBase64String`, a method with the source's 22-step loop over a `char` array.
- `emailpattern.dfy`: the regular language of the e-mail pattern, written twice.
  - As predicates that follow the pattern's parts.
  - As a deterministic automaton (`Recognize`) that is proved to decide exactly that language.
- `validators.dfy`: `MailAddressValidator.IsValid` (with the test vectors) and `EmailValidator.IsValid`.
- `email.dfy`: `DataTypes.Email` (module `DataTypesEmail`) and `ValueObjects.Email` (module `ValueObjectsEmail`).
- `timestring.dfy`:
  - `Parse` is a method with the source's loop and its three locals.
  - `Duration` defines independently what a string denotes, segment by segment.
  - `Fold` is the loop written as a function. It links the two: `Parse` is proved to return `Duration`.
  - Module `TimeStrings` holds the value type.
- `shuffle.dfy`: `Shuffle` on an `array`, proved to compute `Shuffled`, which is proved to be a permutation.
- `entity.dfy`: `Entity` identity.
- `repository.dfy`: `InMemoryRepository`, a class whose `memory` map the methods update. Its invariant `Valid()` says that every key holds a persistent entity with that `Id`.

Exceptions become `Err` values of a `Result`, with one constructor per exception the source throws. `null` is `None` of an `Option`.

On upsert the code and the contract text differ. `InsertOrUpdate` (GenericRepository.cs:29-30) sends every non-transient entity to `Update`, with no existence check. On the in-memory store, `Update` refuses an absent `Id` with `KeyNotFoundException`. So upserting a new entity with a client-assigned `Id` fails there rather than inserting it. The model follows the code (`Repositories.InMemoryRepository.InsertOrUpdate`).

## Model

| member | source | states |
|---|---|---|
| TimeStringParser.Parse | src/Mariowski.Common/DataTypes/TimeString.Statics.cs:37-100 | the loop over the non-white-space characters, with `Process` on every digit after letters and once at the end, returns exactly `Duration` of the input, errors included |
| TimeStringParser.FoldIsDuration | src/Mariowski.Common/DataTypes/TimeString.Statics.cs:82-97 | running the loop's state machine from zero locals over a non-blank string gives the segment-by-segment duration |
| TimeStringParser.Process | src/Mariowski.Common/DataTypes/TimeString.Statics.cs:46-80 | `Process` adds the pending segment's value to the total, and fails exactly when that segment is in error |
| TimeStringParser.Segment | src/Mariowski.Common/DataTypes/TimeString.Statics.cs:48-76 | a segment without digits fails with "Unknown string part"; a number above `int.MaxValue` fails with the overflow of `int.Parse`; an unknown unit word fails as an unknown part; otherwise it succeeds, worth number × the unit's milliseconds |
| TimeStringParser.UnitOfByInitial | src/Mariowski.Common/DataTypes/TimeString.Statics.cs:23-27 | the five anchored case-insensitive unit patterns, tried in source order, pick the unit by the word's first letter, with "ms…" before "m…"; an empty word means milliseconds and any other first letter is unknown |
| TimeStringParser.MatchesMilliseconds | src/Mariowski.Common/DataTypes/TimeString.Statics.cs:27 | the milliseconds pattern matches exactly the words starting with "ms" in any case |
| TimeStringParser.BlankRejected | src/Mariowski.Common/DataTypes/TimeString.Statics.cs:39-40 | null, empty and white-space-only strings fail with the argument error before any scanning |
| TimeStringParser.WhiteSpaceIgnored | src/Mariowski.Common/DataTypes/TimeString.Statics.cs:82 | removing the white space from a string does not change its duration ("1 h 4 m" is "1h4m") |
| TimeStringParser.SingleSegment | src/Mariowski.Common/DataTypes/TimeString.Statics.cs:84-97 | a digit run followed by a letter run denotes exactly that one segment |
| TimeStringParser.UnknownUnit | tests/Mariowski.Common.UnitTests/DataTypes/TimeString.Statics.Tests.cs:60 | "1test" fails with "test" as the unknown part |
| TimeStringParser.SegmentsNoNumber | src/Mariowski.Common/DataTypes/TimeString.Statics.cs:48-49 | the segment reader fails at once on a text that does not start with a digit, with its leading letters as the unknown part |
| TimeStringParser.LeadingLetters | src/Mariowski.Common/DataTypes/TimeString.Statics.cs:48-49 | a string whose first significant character is a letter, or that has none, fails with the leading letter run as the unknown part ("day", "ms 10") |
| TimeStringParser.SegmentsAppend | src/Mariowski.Common/DataTypes/TimeString.Statics.cs:84-91 | a digit after letters closes the current segment: the segments of two strings put together are those of each, in order |
| TimeStringParser.SumAppend | src/Mariowski.Common/DataTypes/TimeString.Statics.cs:55-71 | the total of two lists of segment values is the sum of their totals |
| TimeStringParser.SignificantAppend | src/Mariowski.Common/DataTypes/TimeString.Statics.cs:82-94 | the characters the loop looks at in two strings put together are those of each, in order |
| TimeStringParser.SignificantRemoveWhiteSpace | src/Mariowski.Common/DataTypes/TimeString.Statics.cs:82 | white space never reaches the tokenizer |
| TimeStringParser.RemoveWhiteSpaceEmpty | src/Mariowski.Common/DataTypes/TimeString.Statics.cs:39-40 | a string is blank exactly when nothing is left after removing its white space |
| TimeStringParser.Duration | src/Mariowski.Common/DataTypes/TimeString.Statics.cs:37-40 | the argument error comes back exactly for null, empty and white-space-only strings |
| TimeStringParser.Segments | src/Mariowski.Common/DataTypes/TimeString.Statics.cs:46-49 | the segment reader never reports the argument error: its failures are the format errors of a segment |
| TimeStringParser.DecimalValue | src/Mariowski.Common/Extensions/StringExtensions.cs:22-23 | the number a digit run stands for, as `int.Parse` reads it: a leading zero does not change it |
| TimeStringParser.UnitExamplesHold | tests/Mariowski.Common.UnitTests/DataTypes/TimeString.Statics.Tests.cs:11-24 | "1" followed by each spelling of a unit ("d", "day", "days", "h", …, "ms", or nothing) is worth that unit's milliseconds: `UnitOf` picks the unit and `InMilliseconds` converts 1 of it |
| TimeStringParser.SampleDuration | tests/Mariowski.Common.UnitTests/DataTypes/TimeString.Statics.Tests.cs:33-40 | "3days 20hours 36mins 17secs 156ms" is worth 333377156 milliseconds |
| TimeStringParser.DigitSpan | src/Mariowski.Common/DataTypes/TimeString.Statics.cs:84-90 | the digit run that `currentNumber` collects is the longest run of digits at the start |
| TimeStringParser.LetterSpan | src/Mariowski.Common/DataTypes/TimeString.Statics.cs:93-94 | the letter run that `currentString` collects is the longest run of letters at the start |
| TimeStringParser.Significant | src/Mariowski.Common/DataTypes/TimeString.Statics.cs:82-94 | the characters that reach the loop's two branches are only digits and letters |
| TimeStrings.New | src/Mariowski.Common/DataTypes/TimeString.cs:17-22 | the constructor stores `Parse(value)` as the duration and the text unchanged, and fails with the parser's own error |
| TimeStrings.TimeString.Equals | src/Mariowski.Common/DataTypes/TimeString.cs:25-29 | an instance equals another exactly when the other is not null and has the same duration |
| TimeStrings.TimeString.EqualsObject | src/Mariowski.Common/DataTypes/TimeString.cs:32-37 | `Equals(object)` holds exactly for a `TimeString` of the same duration; null and other types are never equal |
| TimeStrings.Eq | src/Mariowski.Common/DataTypes/TimeString.Statics.cs:108-113 | `==` holds for two nulls, and for two instances with the same duration |
| TimeStrings.NotEq | src/Mariowski.Common/DataTypes/TimeString.Statics.cs:121-122 | `!=` holds when exactly one side is null or the durations differ |
| TimeStrings.EqualDurations | src/Mariowski.Common/DataTypes/TimeString.cs:25-45 | two instances with the same duration are equal however they are spelt, and `GetHashCode` gives them the same hash code |
| TimeStrings.ToStringKeepsSpelling | src/Mariowski.Common/DataTypes/TimeString.cs:40-41 | `ToString` gives back the text as written: an instance made from a string with white space equals the one made from the string without, yet shows a different text |
| TimeStrings.EqualsReflexive | src/Mariowski.Common/DataTypes/TimeString.cs:27-36 | an instance equals itself and never null or an object of another type |
| Base64.Char | src/Mariowski.Common/DataTypes/ShortGuid.Statics.cs:28 | every sextet has a character of the base64 alphabet, never the pad |
| Base64.Value | src/Mariowski.Common/DataTypes/ShortGuid.Statics.cs:50 | decoding a character of the alphabet gives back the sextet that encodes to it |
| Base64.ValueChar | src/Mariowski.Common/DataTypes/ShortGuid.Statics.cs:28-50 | a sextet's character decodes to that sextet |
| Base64.ValuesChars | src/Mariowski.Common/DataTypes/ShortGuid.Statics.cs:28-50 | decoding the characters of a list of sextets gives that list back |
| Base64.DecodeEncodeGroup | src/Mariowski.Common/DataTypes/ShortGuid.Statics.cs:28-50 | three bytes encoded to four sextets decode back to the same three bytes |
| Base64.EncodeDecodeGroup | src/Mariowski.Common/DataTypes/ShortGuid.Statics.cs:28-50 | four sextets decoded to three bytes encode back to the same sextets |
| Base64.SextetCountValue | src/Mariowski.Common/DataTypes/ShortGuid.Statics.cs:28 | n bytes need 4 sextets per full group of three, plus 2 or 3 for a partial group |
| Base64.EncodeSextets | src/Mariowski.Common/DataTypes/ShortGuid.Statics.cs:28 | the unpadded encoding has exactly the number of sextets the byte count calls for |
| Base64.DecodeSextets | src/Mariowski.Common/DataTypes/ShortGuid.Statics.cs:50 | an unpadded sextet list of any length other than 1 mod 4 decodes to 3 bytes per group plus 1 or 2 |
| Base64.EncodeSextetsAppend | src/Mariowski.Common/DataTypes/ShortGuid.Statics.cs:28 | encoding works group by group: after a whole number of groups, the encoding of the rest follows |
| Base64.DecodeSextetsAppend | src/Mariowski.Common/DataTypes/ShortGuid.Statics.cs:50 | decoding works group by group |
| Base64.EncodeZeroBytes | src/Mariowski.Common/DataTypes/ShortGuid.Statics.cs:11 | zero bytes encode to zero sextets only |
| Base64.EncodeSextetsCanonical | src/Mariowski.Common/DataTypes/ShortGuid.Statics.cs:28 | the encoder leaves the unused low bits of a partial group at zero |
| Base64.DecodeEncodeSextets | src/Mariowski.Common/DataTypes/ShortGuid.Statics.cs:28-50 | decoding the encoding of any bytes gives the bytes back |
| Base64.EncodeDecodeSextets | src/Mariowski.Common/DataTypes/ShortGuid.Statics.cs:28-50 | a sextet list whose unused low bits are zero is the encoding of what it decodes to |
| Base64.DecodeIgnoresLowBits | src/Mariowski.Common/DataTypes/ShortGuid.Statics.cs:50 | the decoder ignores the unused low bits of the last sextet |
| Base64.Padding | src/Mariowski.Common/DataTypes/ShortGuid.Statics.cs:28 | the pad fills a partial group with '=' up to four characters |
| Base64.ToBase64String | src/Mariowski.Common/DataTypes/ShortGuid.Statics.cs:28 | the padded text has four characters per started group of three bytes |
| Base64.StripSkipped | src/Mariowski.Common/DataTypes/ShortGuid.Statics.cs:50 | the decoder drops white space and keeps a text without any as it is |
| Base64.TrailingPads | src/Mariowski.Common/DataTypes/ShortGuid.Statics.cs:50 | the pad is the longest run of '=' at the end |
| Base64.FromBase64String | src/Mariowski.Common/DataTypes/ShortGuid.Statics.cs:50 | after white space is dropped, decoding succeeds exactly when the length is a multiple of four, at most two '=' end the text, and every other character is of the alphabet |
| Base64.ForeignRejected | src/Mariowski.Common/DataTypes/ShortGuid.Statics.cs:40 | a character that is neither white space nor of the alphabet makes decoding fail; so does a '=' with two or more characters after it |
| Base64.StripSkippedAppend | src/Mariowski.Common/DataTypes/ShortGuid.Statics.cs:50 | white space is dropped from two texts put together as from each in turn |
| Base64.FromBase64StringPadded | src/Mariowski.Common/DataTypes/ShortGuid.Statics.cs:47-50 | alphabet characters followed by zero, one or two '=' that complete a group decode to the bytes of their sextets |
| Base64.FromToBase64String | src/Mariowski.Common/DataTypes/ShortGuid.Statics.cs:28-50 | decoding the padded text of any bytes gives the bytes back |
| Base64.ToFromBase64String | src/Mariowski.Common/DataTypes/ShortGuid.Statics.cs:28-50 | a text in the alphabet whose unused low bits are zero is re-encoded to itself plus its pad |
| ShortGuids.GuidOf | tests/Mariowski.Common.UnitTests/DataTypes/ShortGuid.Statics.Tests.cs:37 | the 16 bytes of a GUID written as fields: the first three little-endian, then the last eight bytes as written |
| ShortGuids.Replace | src/Mariowski.Common/DataTypes/ShortGuid.Statics.cs:29-31 | `string.Replace` of one character changes exactly its occurrences |
| ShortGuids.FromUrlSafe | src/Mariowski.Common/DataTypes/ShortGuid.Statics.cs:47-49 | '_' becomes '/' and '-' becomes '+', and nothing else changes |
| ShortGuids.UrlSafeRoundTrip | src/Mariowski.Common/DataTypes/ShortGuid.Statics.cs:29-49 | the replacements of `Encode` make base64 text URL-safe, and those of `Decode` undo them |
| ShortGuids.Encode | src/Mariowski.Common/DataTypes/ShortGuid.Statics.cs:26-33 | the text of a GUID is always 22 characters, all of the URL-safe alphabet |
| ShortGuids.EncodeIsUrlSafeBase64 | src/Mariowski.Common/DataTypes/ShortGuid.Statics.cs:28-32 | the padded base64 of 16 bytes ends in "==", which `Encode` cuts off; each of the 22 characters is the base64 one with '/' and '+' replaced, and stands for the sextet of the bytes' encoding |
| ShortGuids.UrlValue | src/Mariowski.Common/DataTypes/ShortGuid.Statics.cs:47-50 | a URL-safe character stands for the sextet of the base64 character it is replaced by |
| ShortGuids.Decode | src/Mariowski.Common/DataTypes/ShortGuid.Statics.cs:42-52 | null fails with ArgumentNull; text that is not base64 after the replacements and "==" fails with Format; any other byte count than 16 fails with Argument; otherwise the bytes are the GUID |
| ShortGuids.DecodeRejectsForeign | src/Mariowski.Common/DataTypes/ShortGuid.Statics.cs:40-50 | text holding a character that is not white space, not of the base64 alphabet and not '_' or '-' fails with Format; '=' is among them, as `Decode` appends the pad itself |
| ShortGuids.DecodeEncode | src/Mariowski.Common/DataTypes/ShortGuid.Statics.cs:26-52 | decoding the text of any GUID gives that GUID |
| ShortGuids.DecodeUrlSafe | src/Mariowski.Common/DataTypes/ShortGuid.Statics.cs:47-51 | any 22 URL-safe characters decode to a GUID, the bytes of their sextets |
| ShortGuids.DecodeCanonical | src/Mariowski.Common/DataTypes/ShortGuid.Statics.cs:26-52 | 22 URL-safe characters ending in one of "AQgw" decode, and re-encode to the same text |
| ShortGuids.EncodeLastChar | src/Mariowski.Common/DataTypes/ShortGuid.Statics.cs:28-32 | the last character of a GUID's text is always one of "AQgw" |
| ShortGuids.DecodeIgnoresLowBits | src/Mariowski.Common/DataTypes/ShortGuid.Statics.cs:50-51 | two texts that differ only in the four unused low bits of the last character decode to the same GUID |
| ShortGuids.NonCanonicalAlias | src/Mariowski.Common/DataTypes/ShortGuid.cs:17-55 | a second spelling of a GUID's text builds a ShortGuid with the same GUID and hash code that is not equal to the one built from the GUID |
| ShortGuids.UrlValueInjective | src/Mariowski.Common/DataTypes/ShortGuid.Statics.cs:47-50 | different URL-safe characters stand for different sextets |
| ShortGuids.SampleVector | tests/Mariowski.Common.UnitTests/DataTypes/ShortGuid.Statics.Tests.cs:37-50 | 087cd284-4e96-42bb-870c-8f9177ed8246 encodes to "hNJ8CJZOu0KHDI-Rd-2CRg", which decodes back to it and builds the same ShortGuid |
| ShortGuids.ShortGuid.Equals | src/Mariowski.Common/DataTypes/ShortGuid.cs:34-39 | equal exactly when the other is not null and has the same GUID and the same text |
| ShortGuids.ShortGuid.EqualsObject | src/Mariowski.Common/DataTypes/ShortGuid.cs:42-47 | `Equals(object)` holds exactly for a ShortGuid with the same fields; null and other types are never equal |
| ShortGuids.FromGuid | src/Mariowski.Common/DataTypes/ShortGuid.cs:27-31 | the GUID constructor keeps the GUID, and its text decodes back to that GUID |
| ShortGuids.ToStringDecodes | src/Mariowski.Common/DataTypes/ShortGuid.cs:17-51 | `ToString` gives the stored text: for either constructor it decodes to the stored GUID, and the string constructor's text is the string given |
| ShortGuids.EqualsSameHash | src/Mariowski.Common/DataTypes/ShortGuid.cs:34-55 | equal ShortGuids hold the same GUID, so `GetHashCode` gives them the same hash code |
| ShortGuids.FromString | src/Mariowski.Common/DataTypes/ShortGuid.cs:17-21 | the string constructor fails as `Decode` does and otherwise keeps the text as given |
| ShortGuids.Eq | src/Mariowski.Common/DataTypes/ShortGuid.Statics.cs:60-65 | `==` holds for two nulls and for two equal ShortGuids, and never when one side is null |
| ShortGuids.NotEq | src/Mariowski.Common/DataTypes/ShortGuid.Statics.cs:73-74 | `!=` is the negation of `==` |
| ShortGuids.FromGuidRoundTrip | src/Mariowski.Common/DataTypes/ShortGuid.cs:17-51 | the text of a ShortGuid built from a GUID has 22 characters and builds back an equal ShortGuid |
| ShortGuids.FromStringCanonical | src/Mariowski.Common/DataTypes/ShortGuid.cs:17-39 | for text that is the encoding of its GUID, the string constructor and the GUID constructor give equal ShortGuids |
| ShortGuids.EmptyValue | src/Mariowski.Common/DataTypes/ShortGuid.Statics.cs:11 | `Empty` holds the all-zero GUID, written as 22 'A's |
| GuidExtensions.EncodeBase64String | src/Mariowski.Common/Extensions/GuidExtensions.cs:19-51 | 22 characters; each is the replacement for '/' or '+', or the base64 character itself; the two pad characters are never copied; with the defaults the result is `ShortGuid.Encode` and holds no '/', '+' or '=' |
| EmailPattern.Recognize | src/Mariowski.Common/Validators/MailAddressValidator.cs:19-23 | the automaton accepts exactly the strings the pattern matches |
| EmailPattern.RecognizeMatches | src/Mariowski.Common/Validators/MailAddressValidator.cs:19-23 | running the automaton over a string ends in an accepting state exactly when the pattern matches |
| EmailPattern.ScanMatches | src/Mariowski.Common/Validators/MailAddressValidator.cs:19-23 | the index-based run of the automaton decides the pattern too |
| EmailPattern.AddressRun | src/Mariowski.Common/Validators/MailAddressValidator.cs:19-22 | on a string without newlines, the automaton ends in a final state exactly when the string is an address |
| EmailPattern.AddressAtFirst | src/Mariowski.Common/Validators/MailAddressValidator.cs:19-22 | a string is an address exactly when the part before its first '@' is a local part and the rest is a domain |
| EmailPattern.SingleAt | src/Mariowski.Common/Validators/MailAddressValidator.cs:19-22 | a matching string holds exactly one '@' |
| EmailPattern.FirstAt | src/Mariowski.Common/Validators/MailAddressValidator.cs:19-21 | a local part holds no '@', so the split of an address is unique |
| EmailPattern.DomainByState | src/Mariowski.Common/Validators/MailAddressValidator.cs:22 | a domain is one or more labels ending in '.', each starting alphanumeric, then a final label of 2 to 17 alphanumerics |
| EmailPattern.NoAtRun | src/Mariowski.Common/Validators/MailAddressValidator.cs:19-22 | a string without '@' is never an address |
| EmailPattern.EarlyNewlineNoMatch | src/Mariowski.Common/Validators/MailAddressValidator.cs:22-23 | a newline anywhere but at the very end rules a match out |
| EmailPattern.FirstAlphanumeric | src/Mariowski.Common/Validators/MailAddressValidator.cs:19 | a matching string starts with an ASCII letter or digit |
| EmailPattern.WhiteSpaceNotMatches | src/Mariowski.Common/Validators/MailAddressValidator.cs:19-23 | empty and white-space-only strings never match |
| EmailPattern.MatchesToLower | src/Mariowski.Common/DataTypes/Email.cs:16-19 | lowercasing a string keeps it matching or not matching |
| EmailPattern.RunAppend | src/Mariowski.Common/Validators/MailAddressValidator.cs:23 | the automaton reads a string in one pass, part after part |
| MailAddressValidator.IsValid | src/Mariowski.Common/Validators/MailAddressValidator.cs:14-24 | false for null, otherwise whether the pattern matches |
| MailAddressValidator.RejectsBlank | tests/Mariowski.Common.UnitTests/Validators/MailAddressValidatorTests.cs:23-24 | null, empty and white-space-only input are invalid |
| MailAddressValidator.ValidHasSingleAt | tests/Mariowski.Common.UnitTests/Validators/MailAddressValidatorTests.cs:32 | a valid address holds exactly one '@' |
| MailAddressValidator.AcceptsShort | tests/Mariowski.Common.UnitTests/Validators/MailAddressValidatorTests.cs:10 | "joe@doe.com" is valid |
| MailAddressValidator.AcceptsUnderscore | tests/Mariowski.Common.UnitTests/Validators/MailAddressValidatorTests.cs:11 | "valid_mail@gmail.com" is valid |
| MailAddressValidator.AcceptsPlus | tests/Mariowski.Common.UnitTests/Validators/MailAddressValidatorTests.cs:12 | "plus+trick@gmail.com" is valid |
| MailAddressValidator.AcceptsDotted | tests/Mariowski.Common.UnitTests/Validators/MailAddressValidatorTests.cs:13 | "super.long.mail.address@that.is.valid" is valid |
| MailAddressValidator.RejectsNoAt | tests/Mariowski.Common.UnitTests/Validators/MailAddressValidatorTests.cs:25 | "fake_mail_address" is invalid |
| MailAddressValidator.RejectsNoDomain | tests/Mariowski.Common.UnitTests/Validators/MailAddressValidatorTests.cs:26 | "fake_mail_address@" is invalid |
| MailAddressValidator.RejectsDotDomain | tests/Mariowski.Common.UnitTests/Validators/MailAddressValidatorTests.cs:27 | "fake_mail_address@." is invalid |
| MailAddressValidator.RejectsNoDot | tests/Mariowski.Common.UnitTests/Validators/MailAddressValidatorTests.cs:28 | "fake_mail_address@biz" is invalid |
| MailAddressValidator.RejectsEmptyLabel | tests/Mariowski.Common.UnitTests/Validators/MailAddressValidatorTests.cs:29 | "fake_mail_address@.dev" is invalid |
| MailAddressValidator.RejectsComma | tests/Mariowski.Common.UnitTests/Validators/MailAddressValidatorTests.cs:30 | "fake_mai,l_address@ea.it" is invalid |
| MailAddressValidator.RejectsLeadingDot | tests/Mariowski.Common.UnitTests/Validators/MailAddressValidatorTests.cs:31 | "fake_mail_address@.pl.net" is invalid |
| MailAddressValidator.RejectsTwoAts | tests/Mariowski.Common.UnitTests/Validators/MailAddressValidatorTests.cs:32 | "fake_mail_address@sd@.org" is invalid |
| MailAddressValidator.RejectsSymbols | tests/Mariowski.Common.UnitTests/Validators/MailAddressValidatorTests.cs:33 | "!#$%^&**[]@sd.com" is invalid |
| MailAddressValidator.RejectsNonAscii | tests/Mariowski.Common.UnitTests/Validators/MailAddressValidatorTests.cs:34 | "óąćżź@sd.com" is invalid |
| EmailValidator.IsValid | src/Validators/EmailValidator.cs:12-22 | false for null, otherwise whether the pattern matches |
| EmailValidator.SameAsMailAddressValidator | src/Validators/EmailValidator.cs:17-20 | the older validator accepts exactly what `MailAddressValidator` accepts |
| DataTypesEmail.IsValid | src/Mariowski.Common/DataTypes/Email.Statics.cs:13-23 | false for null, otherwise whether the pattern matches |
| DataTypesEmail.SameAsMailAddressValidator | src/Mariowski.Common/DataTypes/Email.Statics.cs:18-22 | `Email.IsValid` accepts exactly what `MailAddressValidator` accepts |
| DataTypesEmail.New | src/Mariowski.Common/DataTypes/Email.cs:14-20 | the constructor fails with InvalidEmail exactly when the input is not valid, null included, and otherwise stores the input lowercased |
| DataTypesEmail.ValueIsNormalised | src/Mariowski.Common/DataTypes/Email.cs:16-19 | the stored value has no uppercase letter, lowercasing it again changes nothing, and it is itself valid |
| DataTypesEmail.AsString | src/Mariowski.Common/DataTypes/Email.Statics.cs:61-62 | converting to a string gives the stored value, and null has none |
| DataTypesEmail.ConversionRoundTrip | src/Mariowski.Common/DataTypes/Email.Statics.cs:53-62 | string to Email to string gives the lowercased string for a valid one, and the conversion fails with InvalidEmail for an invalid one |
| DataTypesEmail.Email.Equals | src/Mariowski.Common/DataTypes/Email.cs:5-7 | record equality: equal exactly to a non-null Email with the same value |
| DataTypesEmail.Eq | src/Mariowski.Common/DataTypes/Email.Statics.cs:31-36 | `==` holds for two nulls and two equal Emails, never when one side is null |
| DataTypesEmail.NotEq | src/Mariowski.Common/DataTypes/Email.Statics.cs:44-45 | `!=` is the negation of `==` |
| DataTypesEmail.EqualIffSameLowered | src/Mariowski.Common/DataTypes/Email.cs:5-19 | Emails built from two valid strings are equal exactly when the strings agree after lowercasing |
| ValueObjectsEmail.New | src/Mariowski.Common/ValueObjects/Email.cs:16-22 | the constructor fails with InvalidEmail exactly when `MailAddressValidator` rejects the input, and otherwise stores it lowercased |
| ValueObjectsEmail.ValueIsNormalised | src/Mariowski.Common/ValueObjects/Email.cs:18-21 | the stored value has no uppercase letter and is itself valid |
| ValueObjectsEmail.AsString | src/Mariowski.Common/ValueObjects/Email.cs:38-39 | converting to a string gives the stored value; null fails with a null reference |
| ValueObjectsEmail.Email.Equals | src/Mariowski.Common/ValueObjects/Email.cs:42-43 | compares the stored values; a null argument fails with a null reference |
| ValueObjectsEmail.Email.EqualsObject | src/Mariowski.Common/ValueObjects/Email.cs:46-47 | `Equals(object)` holds exactly for an Email with the same value |
| ValueObjectsEmail.EqualsIgnoresCase | src/Mariowski.Common/ValueObjects/Email.cs:21-51 | Emails built from two valid strings are equal exactly when the strings agree after lowercasing, and then share a hash code |
| ValueObjectsEmail.EqualsSameHash | src/Mariowski.Common/ValueObjects/Email.cs:46-51 | an object equal to an Email is an Email to which `GetHashCode` gives the same hash code |
| ValueObjectsEmail.EqualsObjectNonEmail | src/Mariowski.Common/ValueObjects/Email.cs:46-47 | null and objects of other types are never equal to an Email |
| Ascii.ToLower | src/Mariowski.Common/DataTypes/Email.cs:19 | `ToLowerInvariant` maps each ASCII capital to its small letter and leaves every other ASCII character alone; non-ASCII capitals are not lowered (see Left out) |
| Ascii.ToLowerStringIdempotent | src/Mariowski.Common/DataTypes/Email.cs:19 | lowercasing twice is lowercasing once, and leaves no capital |
| ListExtensions.Shuffle | src/Mariowski.Common/Extensions/ListExtensions.cs:13-26 | the list after the loop is `Shuffled` of the list before, for the values `Random.Next` returns |
| ListExtensions.ShufflePermutes | src/Mariowski.Common/Extensions/ListExtensions.cs:17-25 | the shuffled list has the same length and the same elements, each as often as before |
| ListExtensions.LoopPermutes | src/Mariowski.Common/Extensions/ListExtensions.cs:18-25 | every stretch of the loop only exchanges elements |
| ListExtensions.LoopKeepsTail | src/Mariowski.Common/Extensions/ListExtensions.cs:18-25 | positions from n on are never touched again once the counter has passed them |
| ListExtensions.ShortListUnchanged | src/Mariowski.Common/Extensions/ListExtensions.cs:18 | lists of zero or one element are left as they are |
| ListExtensions.TwoElements | tests/Mariowski.Common.UnitTests/Extensions/ListExtensionsTests.cs:22-32 | a two-element list is reversed exactly when the one draw, `Next(2)`, is 0 |
| ListExtensions.Swap | src/Mariowski.Common/Extensions/ListExtensions.cs:22-24 | the swap exchanges the elements at k and n and leaves every other position alone |
| Entities.Entity.Equals | src/Mariowski.Common.DataSource/Entities/Entity.cs:47-68 | never equal to a non-entity; always to the same instance; otherwise equal exactly when not both transient, one type is assignable from the other, and the Ids agree |
| Entities.Entity.IsTransient | src/Mariowski.Common.DataSource/Entities/Entity.cs:18-32 | the default key is transient for every key type; `int` and `long` keys are transient exactly up to zero, other keys exactly at the default |
| Entities.EqualsItself | src/Mariowski.Common.DataSource/Entities/Entity.cs:49-93 | an entity equals itself even when transient, `==` agrees, and it never equals null or an object of another type |
| Entities.TransientNeverEqual | src/Mariowski.Common.DataSource/Entities/Entity.cs:58-59 | two different transient entities are never equal, even with the same Id |
| Entities.EqualsSymmetric | src/Mariowski.Common.DataSource/Entities/Entity.cs:47-68 | equality does not depend on the side it is called on |
| Entities.EqualsSameHash | src/Mariowski.Common.DataSource/Entities/Entity.cs:67-80 | equal entities have the same Id, so `GetHashCode` gives them the same hash code |
| Entities.Eq | src/Mariowski.Common.DataSource/Entities/Entity.cs:92-93 | `==` is null-safe: two nulls are equal, null and an entity are not, two entities compare with `Equals` |
| Entities.NotEq | src/Mariowski.Common.DataSource/Entities/Entity.cs:105-106 | `!=` is the negation of `==` |
| Repositories.InMemoryRepository.constructor | src/Mariowski.Common.DataSource/Repositories/InMemoryRepository.cs:13-14 | a new store is empty and keeps its invariant |
| Repositories.InMemoryRepository.Insert | src/Mariowski.Common.DataSource/Repositories/InMemoryRepository.cs:20-38 | null, transient and already-stored entities are refused with their own errors and the store is unchanged; otherwise exactly Id ↦ entity is added, the count goes up by one and the entity is returned |
| Repositories.InMemoryRepository.Update | src/Mariowski.Common.DataSource/Repositories/InMemoryRepository.cs:54-70 | null, transient and absent entities are refused and the store is unchanged; otherwise the value at the Id is replaced and the keys stay the same |
| Repositories.InMemoryRepository.Delete | src/Mariowski.Common.DataSource/Repositories/InMemoryRepository.cs:75-85 | null and transient entities are refused; otherwise the Id is removed, and an absent Id changes nothing |
| Repositories.InMemoryRepository.GetAll | src/Mariowski.Common.DataSource/Repositories/InMemoryRepository.cs:41-48 | the entities listed are exactly the stored values, all persistent |
| Repositories.InMemoryRepository.InsertAndGetId | src/Mariowski.Common.DataSource/Repositories/GenericRepository.cs:21-22 | fails with `Insert`'s errors (null, transient, already stored) and leaves the store unchanged; succeeds exactly when `Insert` does, storing the entity and returning the Id it was stored under |
| Repositories.InMemoryRepository.InsertOrUpdate | src/Mariowski.Common.DataSource/Repositories/GenericRepository.cs:29-30 | null fails with a null reference and a transient entity is refused by `Insert`; any other entity goes to `Update`, so an absent Id fails with KeyNotFound; it succeeds exactly for a stored, non-transient entity, which then replaces the stored one; the keys never change |
| Repositories.InMemoryRepository.InsertOrUpdateAndGetId | src/Mariowski.Common.DataSource/Repositories/GenericRepository.cs:37-38 | fails as `InsertOrUpdate` does (null reference, transient, KeyNotFound) and then changes nothing; succeeds exactly for a stored, non-transient entity, replacing it and returning its Id |
| Repositories.InMemoryRepository.FirstOrDefaultById | src/Mariowski.Common.DataSource/Repositories/GenericRepository.cs:79-80 | a stored entity with that Id, or null exactly when there is none |
| Repositories.InMemoryRepository.GetById | src/Mariowski.Common.DataSource/Repositories/GenericRepository.cs:54-64 | the stored entity with that Id, or KeyNotFound exactly when there is none |
| Repositories.InMemoryRepository.FirstOrDefault | src/Mariowski.Common.DataSource/Repositories/GenericRepository.cs:87-88 | a stored entity that matches, or null exactly when none does |
| Repositories.InMemoryRepository.Count | src/Mariowski.Common.DataSource/Repositories/GenericRepository.cs:151-168 | the number of stored entities |
| Repositories.InMemoryRepository.CountWhere | src/Mariowski.Common.DataSource/Repositories/GenericRepository.cs:159-176 | the number of stored entities that match the predicate, at most the count, and zero exactly when none matches |
| Repositories.InMemoryRepository.Any | src/Mariowski.Common.DataSource/Repositories/GenericRepository.cs:95-96 | some stored entity matches, exactly when the matching count is positive |
| Repositories.InMemoryRepository.Single | src/Mariowski.Common.DataSource/Repositories/GenericRepository.cs:71-72 | fails when no entity or several match, and otherwise returns the one stored entity that matches |
| Repositories.InMemoryRepository.DeleteWhere | src/Mariowski.Common.DataSource/Repositories/GenericRepository.cs:119-124 | afterwards exactly the entities that did not match remain, unchanged |
| Repositories.InMemoryRepository.DeleteById | src/Mariowski.Common.DataSource/Repositories/GenericRepository.cs:134-141 | the Id is gone afterwards, every other entry is untouched, and an absent Id changes nothing |
| Repositories.InMemoryRepository.ValuesById | src/Mariowski.Common.DataSource/Repositories/InMemoryRepository.cs:35-67 | an entity is stored exactly when it sits under its own Id |
| Repositories.InMemoryRepository.EntitiesMatchKeys | src/Mariowski.Common.DataSource/Repositories/GenericRepository.cs:151-152 | there are as many stored entities as keys |
| Repositories.InMemoryRepository.MatchingEntities | src/Mariowski.Common.DataSource/Repositories/GenericRepository.cs:175-176 | the stored entities that match are as many as the keys under which they are stored |
| Repositories.InMemoryRepository.MatchingBound | src/Mariowski.Common.DataSource/Repositories/GenericRepository.cs:159-160 | the matching count never exceeds the count, and is zero exactly when nothing matches |
| Repositories.KeysToValues | src/Mariowski.Common.DataSource/Repositories/InMemoryRepository.cs:35 | a map that keys every entity by its own Id has as many values as keys |
| Repositories.KeptStep | src/Mariowski.Common.DataSource/Repositories/GenericRepository.cs:122-123 | deleting one matching entity of the snapshot removes just its key from what is left to keep |
| Repositories.KeptAll | src/Mariowski.Common.DataSource/Repositories/GenericRepository.cs:121 | before the loop, nothing of the store has been deleted yet |

## Left out

- Hash codes: .NET's hashes of `Guid`, `string`, `TimeSpan` and the key type are parameters. The model proves only that equal values have equal hash codes. The concrete hash integers the tests check are not modelled.
- `ShortGuid.NewShortGuid`: random GUID generation is not modelled.
- The implicit `Guid`/`string` → `ShortGuid` conversions and `ShortGuid` → `Guid` are the constructors and the `guid` field. They have no members of their own.
- `Random` in `Shuffle`: modelled as the sequence of values that `Next(n + 1)` returns, each within `[0, n]`. The default `new Random()` is not modelled.
- `Shuffle` acts on an `array`. It does not model `IList<T>` implementations whose indexer does more than store.
- TimeStringParser.Duration: durations are unbounded integers of milliseconds. `TimeSpan`'s range overflow and the `double` arithmetic of `TimeSpan.FromDays` and its siblings are not modelled. Only `ToInt`'s overflow above `int.MaxValue` is.
- TimeStringParser.DecimalValue: `char.IsDigit` and `char.IsLetter` are taken as ASCII. The Unicode digits and letters they also accept are not modelled.
- TimeStringParser.SegmentsAppend: additivity is proved for segments and for sums separately. A single lemma that the duration of two strings put together is the sum of their durations is not part of the model.
- EmailPattern.Recognize: `\w` is taken as its ASCII part `[A-Za-z0-9_]`; .NET also accepts non-ASCII letters there. `$` matching just before a final '\n' is modelled.
- Ascii.ToLower: `ToLowerInvariant` also lowers non-ASCII capitals ('Ą' to 'ą'); the model lowers only A–Z. Under the ASCII reading of `\w` (see EmailPattern.Recognize), no valid address reaches the difference.
- Base64.FromBase64String: the white space the decoder skips is taken to be space, tab, CR and LF. The decoder ignores the unused low bits of the last character. .NET's other rejections of non-canonical input are not modelled.
- GuidExtensions.EncodeBase64String: `MemoryMarshal.TryWrite` is taken to lay the GUID out as `Guid.ToByteArray` does (true on little-endian hosts).
- ValueObject.cs, TimestampableEntity, the exception classes and `IGenericRepository` are not part of this model. The exceptions appear as error constructors.
- Repositories.InMemoryRepository.Count: the result is an unbounded count. The 32-bit overflow of `Count` compared with `LongCount` is not modelled, so `LongCount` is the same member.
- Repositories.InMemoryRepository.GetAll: the result is a set. The order in which the dictionary enumerates its values is not modelled.
- Entities.Entity.Equals: keys are integers, with 0 as the default. Reference-type keys, and a null `Id`, are not modelled. Object identity is an `instance` number carried by the value.
- Aliasing: entities are values. An entity changed through another reference after it was stored is not modelled.
- Storage adapters (Entity Framework, MongoDB, LiteDB) are not part of this model. Also left out: the async wrappers, the `ConcurrentDictionary` atomicity, and LINQ expression trees. Predicates are Dafny functions, and `CreateEqualityExpressionForId` is the predicate `e.id == id`.
- String helpers, JSON, HTTP, JWT, date-time extensions and settings are not part of this model.
