# Scalar resolution of candiedyaml, in Dafny

This project models the scalar resolver of the candiedyaml YAML library (`resolver.go`).
The resolver takes the text of one scalar event, with its tag and its implicit flag, and
turns it into a Go value following the YAML 1.1 types null, bool, int, float, timestamp and
binary. The Dafny modules follow the parts of that file:

- `Vocabulary`: the null spellings and the boolean words, which `init` fills, and `resolve_bool`.
- `Integers`: `resolve_int` and `resolve_uint`. Each is a specification function, a method
  that works step by step the way the Go code does, and the lemmas that connect them:
  - underscores are removed and a sign is taken off;
  - the base comes from the prefix (`0b`, `0x`, a leading `0`) or is sexagesimal after a `:`;
  - the sexagesimal loop runs right to left in wrapping 64-bit arithmetic;
  - the range check uses the target width, and `SetInt`/`SetUint` truncate to it.
- `Floats`: the branch structure of `resolve_float`:
  - the sign;
  - `.inf` and `.nan` in any letter case;
  - the colon loop;
  - the decimal case.
- `Timestamps`: a hand-written recogniser for the two regular expressions of `init`, proved
  to accept exactly the texts they match. Also `resolve_time`, which turns the captures into
  year, month, day, hour, minute, second, nanoseconds and an optional offset in seconds.
- `Resolver`: `resolve`, which checks the null spellings before anything else and then
  dispatches on the kind of the target, and `resolveInterface`, which guesses a value from the
  first character.
- Support modules:
  - `Outcomes`: the three endings of a conversion — a value, an error, or a Go runtime panic.
  - `Text`: `strings.Replace` of underscores, `strings.ToLower` and `strings.Split`.
  - `Numerals`: `strconv.ParseInt`, `ParseUint` and `Atoi`.
  - `TwosComplement`: integer widths and wrap-around.

A Go panic is a value of its own (`Panic`), never a precondition. `resolve_int`,
`resolve_uint` and `resolve_float` read the first character of the text without checking its
length, once underscores are removed. The two integer converters read it again after taking a
sign off. So:

- `"_"` (nothing left once underscores are removed) crashes all three converters.
- A lone `"-"` or `"+"` crashes `resolve_int`, and a lone `"+"` crashes `resolve_uint`.
- A lone `"-"` into an unsigned target is the negative-value error instead.
- A lone sign into a float target is the error "Float: " with nothing after it.

The model says exactly when a panic happens, for `resolve` (`Resolver.ResolvePanics`) and for
`resolveInterface` (`Resolver.InterfacePanicsExactly`).

The model follows the code, both where it departs from the YAML 1.1 type definitions (int,
float and timestamp) and where it behaves in a way a reader may not expect:

- A leading `0` selects octal before a `:` is looked for. So `"0:30"` is the error
  `Integer: :30`. YAML 1.1 does not accept it as an int either, but the error names `:30`, the
  text left after the octal `0`.
- In a sexagesimal integer, each scaled group is checked against the width, but the sum is not.
  The sum wraps in 64 bits and is then truncated to the target, so `"2:8"` into an `int8` is -128.
- Each converter reports a malformed number and an overflow with the same error: "Integer: ",
  "Unsigned Integer: " or "Float: ".
  - It carries the text after the underscores, the sign and (for integers) the base prefix are
    removed.
  - A malformed number and an overflow are not told apart.
  - `resolve_uint` has one more error, "Unsigned int with negative value: ". It is given for a
    leading `-` and carries the text with the `-` kept.
- A leading `-` on an unsigned target is an error even for `"-0"`. The test runs before the zero
  shortcut.
- The digits after the `.` of a timestamp are read as a whole number of milliseconds. So `.1`
  is 1 ms, `.10` is 10 ms, and a long fraction overflows into seconds.
- Blanks are allowed before `Z` or an offset, not after.
- `resolveInterface` is not total. A tagged or implicit scalar that is only a sign once
  underscores are gone (`"-"`, `"+_"`) makes `resolve_int` panic.
- An unsupported kind gives "Cannot resolve into <type>" for a slice that is not `[]byte`, and
  "Resolve failed for <kind>" otherwise.

## Model

| member | source | states |
|---|---|---|
| Text.StripUnderscores | resolver.go:101 | the result has no underscore, is no longer than the input, and is the input itself when it had none |
| Text.StripUnderscoresAppend | resolver.go:101 | removing underscores distributes over concatenation |
| Text.StripUnderscoresIdempotent | resolver.go:101 | removing underscores twice is removing them once |
| Text.StripUnderscoresLength | resolver.go:101 | the result is shorter than the text by exactly its number of underscores |
| Text.LowerChar | resolver.go:91 | A–Z move to a–z, and only A–Z, U+0130 and the Kelvin sign change (the characters whose lower case is ASCII) |
| Text.LowerIdempotent | resolver.go:91 | lower-casing twice is lower-casing once |
| Text.Split | resolver.go:128 | at least one piece, no piece holds the separator, and joining the pieces gives the text back |
| Text.SplitJoin | resolver.go:128 | splitting joined separator-free pieces gives the pieces back: Split and Join are inverses |
| Text.AfterSign | resolver.go:212-218 | the text after its sign: the sign followed by it is the text, and a text without a sign is itself |
| Text.SplitPiece | resolver.go:127-128 | text without the separator is one piece |
| Numerals.DigitValue | resolver.go:145 | a digit character's value is below 10 exactly for 0–9, and at most 36 for any character |
| Numerals.ParseUint64 | resolver.go:199 | accepts exactly a non-empty string of digits of the base whose value fits 64 bits, and returns that value |
| Numerals.ParseInt64 | resolver.go:145 | every accepted value lies within int64 |
| Numerals.ParseInt64Value | resolver.go:145 | accepts exactly an optional sign followed by a non-empty string of digits of the base whose signed value lies within int64, and returns that signed value |
| Numerals.Atoi | resolver.go:255-257 | the value of the digits when it is an int64, and the largest int64 when the value is larger |
| Numerals.ParseUintFormat | resolver.go:199 | parsing the decimal numeral of any uint64 gives it back |
| Numerals.ParseIntFormat | resolver.go:145 | parsing the decimal numeral of any int64 gives it back |
| TwosComplement.WrapSigned | resolver.go:132-141 | the result fits the width and equals the input when the input already fits |
| TwosComplement.WrapUnsigned | resolver.go:187-195 | the result fits the width and equals the input when the input already fits |
| TwosComplement.WrapSignedIsMod | resolver.go:132-141 | signed wrap-around is (x + 2^(w-1)) mod 2^w − 2^(w-1) |
| TwosComplement.WrapUnsignedIsMod | resolver.go:187-195 | unsigned wrap-around is x mod 2^w |
| TwosComplement.WrapSignedAdd | resolver.go:136 | wrapping an operand before an addition does not change the wrapped sum |
| TwosComplement.WrapSignedMul | resolver.go:132 | wrapping an operand before a multiplication does not change the wrapped product |
| TwosComplement.WrapSignedNarrow | resolver.go:140-141 | wrapping to 64 bits and then truncating to a narrower width is truncating once |
| TwosComplement.WrapUnsignedNarrow | resolver.go:191-195 | the same for unsigned values |
| Vocabulary.ResolveBool | resolver.go:90-98 | succeeds exactly when the lower-cased text is a boolean word, with that word's value; otherwise "Invalid boolean" with the text as given |
| Vocabulary.BoolWords | resolver.go:28-36 | true exactly for y, yes, true, on and false exactly for n, no, false, off, in any letter case |
| Vocabulary.BoolRoundTrip | resolver.go:90-98 | every boolean reads back from its canonical spelling in any letter case |
| Vocabulary.BoolCaseInsensitive | resolver.go:91 | a text and its lower-cased form resolve alike |
| Vocabulary.NullsAreNotBools | resolver.go:38-43 | no null spelling is a boolean word |
| Integers.ScaledIsProduct | resolver.go:130-137 | scaling a group by repeated multiplication by 60 is multiplying it by 60^k |
| Integers.SignedValue | resolver.go:100-153 | a result fits the width; every error is "Integer"; it panics exactly when the text without underscores is empty or a lone sign |
| Integers.SignedBody | resolver.go:112-153 | the same for the text after the sign; it panics exactly when that text is empty |
| Integers.SignedRadix | resolver.go:145-152 | a result fits the width; an error carries the digits; it never panics |
| Integers.SignedSexagesimal | resolver.go:127-143 | a result fits the width; an error carries the whole colon text; it never panics |
| Integers.ResolveInt | resolver.go:100-153 | the step-by-step method gives what SignedValue specifies |
| Integers.SexagesimalInt | resolver.go:127-143 | the colon branch of the method gives what SignedSexagesimal specifies |
| Integers.SumGroupsInt | resolver.go:128-138 | the loop stops exactly when some scaled group overflows the width; otherwise it returns the base-60 sum of the groups wrapped to 64 bits |
| Integers.SignedGroupsFitFromAll | resolver.go:130-135 | the loop's group check is the check of every group at its own place |
| Integers.SignedSexagesimalSucceeds | resolver.go:127-142 | when every group fits, the result is the wrapped sum times the sign, truncated to the width |
| Integers.WrapSignedSign | resolver.go:140-141 | negating the wrapped sum in int64 and truncating is truncating the negated sum |
| Integers.SignedValueIgnoresUnderscores | resolver.go:101 | underscores never change the outcome |
| Integers.SignedDecimalRoundTrip | resolver.go:145-152 | every value of the width except the least int64 reads back from its decimal numeral |
| Integers.SignedDecimalRoundTripPositive | resolver.go:145-152 | a non-negative value of the width reads back from its decimal numeral |
| Integers.SignedDecimalRoundTripNegative | resolver.go:104-152 | a negative value reads back from '-' followed by the numeral of its magnitude |
| Integers.SignedDecimalText | resolver.go:104-148 | a decimal numeral, after an optional '-', gives its value when it fits, and "Integer" with the digits when the magnitude exceeds int64 |
| Integers.SignedRadixRejects | resolver.go:145-149 | digits ParseInt rejects, and an int64 value that does not fit the width once the sign is applied, give "Integer" with the digits |
| Integers.UnsignedRadixRejects | resolver.go:199-202 | digits ParseUint rejects, and a value that does not fit the width, give "Unsigned Integer" with the digits |
| Integers.SignedRadixOf | resolver.go:145-152 | the ParseInt tail gives the signed value of the digits when it fits, and an error when the magnitude exceeds int64 |
| Integers.SignedValueSign | resolver.go:104-110 | '-' and '+' are taken off the front and the rest is the body, '-' making it negative |
| Integers.SignedBodyDecimal | resolver.go:112-145 | a body not starting with '0' and without ':' is decimal |
| Integers.SignedBodyPrefixed | resolver.go:118-123 | "0b" selects base 2 and "0x" base 16, with the prefix dropped |
| Integers.SignedBodyOctal | resolver.go:124-126 | any other leading '0' selects base 8 with the '0' dropped, before any ':' is looked for |
| Integers.SignedBodySexagesimal | resolver.go:127-143 | a body starting with 1–9 and holding ':' is sexagesimal |
| Integers.SignedLargeMagnitudeRejected | resolver.go:145-148 | '-' followed by a magnitude above the largest int64 is "Integer" with the digits |
| Integers.SignedMinInt64Rejected | resolver.go:104-148 | the decimal numeral of the least int64 is rejected, because its magnitude is parsed after the sign |
| Integers.NumeralParses | resolver.go:131 | a numeral whose value is an int64 parses as that value |
| Integers.TwoGroupsText | resolver.go:127-128 | two numerals joined by ':' form a sexagesimal body that splits back into them |
| Integers.SignedSexagesimalText | resolver.go:127-142 | a sexagesimal text whose groups all fit gives its base-60 sum truncated to the width |
| Integers.SignedSexagesimalOk | resolver.go:127-142 | a sexagesimal body whose groups all fit gives the signed sum truncated to the width |
| Integers.SignedPairFits | resolver.go:130-138 | two groups a and b fit when a·60 and b do, and sum to a·60 + b |
| Integers.ExampleUnderscores | resolver.go:101 | "1_000" resolves as "1000" |
| Integers.ExampleDoubleSign | resolver.go:104-110 | "--5" is 5 and "+-5" is -5: ParseInt reads its own sign after the resolver's |
| Integers.ExampleOctalBeforeColon | resolver.go:124-127 | "0:30" is "Integer: :30": octal wins over ':' |
| Integers.ExampleSexagesimalWraps | resolver.go:130-141 | "2:8" into an int8 is -128: only the groups are range-checked, not the sum |
| Integers.ExampleSexagesimalSum | resolver.go:127-142 | the sexagesimal branch sums 2·60 + 8 before truncating |
| Integers.UnsignedValue | resolver.go:155-206 | a result fits the width; the negative-value error occurs exactly for a leading '-'; it panics exactly on an empty text or a lone '+' |
| Integers.UnsignedBody | resolver.go:167-206 | the same for the text after '+'; errors are "Unsigned Integer"; it panics exactly when the text is empty |
| Integers.UnsignedRadix | resolver.go:199-202 | a result fits the width; an error carries the digits; it never panics |
| Integers.UnsignedSexagesimal | resolver.go:182-196 | a result fits the width; an error carries the colon text; it never panics |
| Integers.ResolveUint | resolver.go:155-206 | the step-by-step method gives what UnsignedValue specifies |
| Integers.SexagesimalUint | resolver.go:182-196 | the colon branch of the method gives what UnsignedSexagesimal specifies |
| Integers.SumGroupsUint | resolver.go:183-193 | the loop stops exactly when some scaled group overflows the width; otherwise it returns the base-60 sum wrapped to 64 bits |
| Integers.UnsignedGroupsFitFromAll | resolver.go:185-190 | the loop's group check is the check of every group at its own place |
| Integers.UnsignedSexagesimalSucceeds | resolver.go:182-196 | when every group fits, the result is the wrapped sum truncated to the width |
| Integers.UnsignedValueSign | resolver.go:159-165 | a '+' is taken off and the rest is the body |
| Integers.UnsignedBodyDecimal | resolver.go:173-199 | a body not starting with '0' and without ':' is decimal |
| Integers.UnsignedBodyOctal | resolver.go:179-181 | a leading '0' other than "0b"/"0x" selects base 8 |
| Integers.UnsignedDecimalRoundTrip | resolver.go:199-205 | every value of the width reads back from its decimal numeral |
| Integers.NumeralParsesUnsigned | resolver.go:186 | a numeral whose value is a uint64 parses as that value |
| Integers.ExampleUnsignedNegativeZero | resolver.go:159-171 | "-0" is a negative-value error, because the sign test comes before the zero shortcut |
| Integers.ExampleUnsignedTooWide | resolver.go:199-202 | "256" into a uint8 is "Unsigned Integer: 256" |
| Floats.FloatValue | resolver.go:208-249 | panics exactly when nothing is left without underscores; an error carries the text after the sign; a result is what that text denotes with that sign |
| Floats.FloatBody | resolver.go:220-245 | an error carries the body; a result is infinity or NaN for their names, base 60 over accepted groups after a ':', otherwise an accepted decimal |
| Floats.ResolveFloat | resolver.go:208-249 | the step-by-step method gives what FloatValue specifies |
| Floats.CheckGroups | resolver.go:226-236 | the right-to-left loop accepts exactly when every group is accepted at its place |
| Floats.SignFor | resolver.go:212-218 | the sign written before a number is read back as that sign, and the number after it unchanged |
| Floats.SignedSpelling | resolver.go:212-218 | a number behind the sign SignFor writes resolves as that number with that sign |
| Floats.FloatBodyComplete | resolver.go:220-245 | every value a body denotes is what the body resolves to: infinity and NaN from their names, base 60 from accepted groups joined by ':', a decimal from an accepted text |
| Floats.FloatValueComplete | resolver.go:208-249 | every value a body without underscores denotes is what the body resolves to behind the sign SignFor writes |
| Floats.FloatRoundTrip | resolver.go:208-249 | every resolved float reads back from its spelling |
| Floats.BodyRoundTrip | resolver.go:220-245 | the same for the text after the sign |
| Floats.FloatIgnoresUnderscores | resolver.go:209 | an underscore anywhere does not change the outcome |
| Floats.ExampleNegativeInfinity | resolver.go:220-222 | "-.INF" is negative infinity |
| Floats.ExampleNegativeNaN | resolver.go:223-224 | "-.NaN" is NaN; its sign is dropped |
| Floats.ExampleLoneSign | resolver.go:209-218 | "-" is "Float: " with nothing after it, but "_" panics |
| Timestamps.Number | resolver.go:45 | a piece of digits within the bounds, followed by the rest of the text |
| Timestamps.ParseZone | resolver.go:45 | a recognised zone is well formed and renders as the text |
| Timestamps.ParseOffset | resolver.go:45 | a recognised signed offset is well formed and renders as the text |
| Timestamps.ParseTail | resolver.go:45 | a recognised fraction and zone are well formed and render as the text |
| Timestamps.ParseTime | resolver.go:45 | a recognised clock is well formed and renders as the text |
| Timestamps.ParseClock | resolver.go:45 | a recognised separator and clock are well formed and render as the text |
| Timestamps.ParseDate | resolver.go:45-46 | a recognised date has 4, 1–2 and 1–2 digits and is the front of the text |
| Timestamps.RecogniseDate | resolver.go:46 | a date-only match is well formed, has no clock, and renders as the text |
| Timestamps.Recognise | resolver.go:45 | a match is well formed and renders as the text |
| Timestamps.ParseZoneComplete | resolver.go:45 | every well-formed zone is recognised from its rendering |
| Timestamps.ParseOffsetComplete | resolver.go:45 | every well-formed signed offset is recognised from its rendering |
| Timestamps.ParseTailComplete | resolver.go:45 | every well-formed fraction and zone are recognised from their rendering |
| Timestamps.ParseTimeComplete | resolver.go:45 | every well-formed clock is recognised from its rendering |
| Timestamps.ParseClockComplete | resolver.go:45 | every well-formed separator and clock are recognised from their rendering |
| Timestamps.ParseDateComplete | resolver.go:45 | every well-formed date is recognised from its rendering |
| Timestamps.RecogniseExactly | resolver.go:45 | the recogniser returns c for s if and only if c is well formed and renders as s: it accepts exactly the language of the pattern, with unique captures |
| Timestamps.DatePatternIsClockless | resolver.go:45-46 | the date-only pattern matches exactly the timestamps without a clock, with the same captures |
| Timestamps.Nanos | resolver.go:272-276 | the nanoseconds fit int64 and are 0 without a fraction |
| Timestamps.ZoneOffset | resolver.go:278-293 | an offset exactly for a signed zone; none (UTC) for Z or no zone |
| Timestamps.ResolveTime | resolver.go:251-299 | never panics; fails exactly when the text is not a timestamp, with "Unexpected timestamp" and the text; otherwise the fields of its captures |
| Timestamps.ResolveTimeOf | resolver.go:251-299 | every well-formed timestamp resolves to its fields |
| Timestamps.ResolveTimeFails | resolver.go:260-263 | a text that renders no well-formed timestamp is "Unexpected timestamp" |
| Timestamps.ResolveTimeClock | resolver.go:265-294 | a full timestamp carries its fraction's nanoseconds and its zone's offset |
| Timestamps.DateIsMidnightUtc | resolver.go:253-258 | a date-only timestamp is midnight with no offset (UTC) |
| Timestamps.ZoneOffsetRange | resolver.go:279-290 | no offset exactly for Z and no zone; an offset is within ±(99·60+99)·60 seconds and negative only after '-' |
| Timestamps.TwoDigitsAtMost | resolver.go:265-270 | a field of one or two digits is at most 99 |
| Timestamps.FractionIsMilliseconds | resolver.go:272-276 | a fraction of up to 12 digits is its integer value in milliseconds |
| Timestamps.ExampleFraction | resolver.go:273-275 | ".10" is 10 ms |
| Timestamps.ExampleZone | resolver.go:279-292 | "-05:00" is -18000 seconds |
| Resolver.Resolve | resolver.go:49-88 | a value has the target's kind and fits its width; an error is the target converter's error, the type name for a non-[]byte slice or the kind name for an unsupported kind |
| Resolver.ResolveDispatch | resolver.go:57-85 | past the null check: the text for a string, and otherwise exactly the outcome of the converter for the kind (resolve_bool, resolve_int or resolve_uint at the width, resolve_float at the bit size, resolveInterface, resolve_time, the decoded bytes), "Cannot resolve into" a slice that is not []byte and "Resolve failed" for any other kind |
| Resolver.ResolveInterface | resolver.go:301-354 | never an error |
| Resolver.MessageEndsWithText | resolver.go:93 | each error's message is a fixed prefix followed by the text the error carries |
| Resolver.NullFirst | resolver.go:52-55 | the null spellings give the zero value of every target kind, an interface included |
| Resolver.NullStart | resolver.go:21 | a non-empty null spelling starts with '~', 'n' or 'N' |
| Resolver.ResolvePanics | resolver.go:49-88 | resolve panics exactly for a lone sign or an empty text into an integer, a lone '+' or empty text into an unsigned, an empty text into a float, an interface when resolveInterface panics, and a timestamp into a struct other than time.Time |
| Resolver.InterfaceNilExactly | resolver.go:301-336 | nil exactly for the empty text and for the null spellings of a tagged or implicit scalar |
| Resolver.GuessNilExactly | resolver.go:311-350 | the guess by the first character is nil exactly for a null spelling |
| Resolver.InterfaceNeverNil | resolver.go:52-69 | resolve never stores nil in an interface |
| Resolver.InterfacePanicsExactly | resolver.go:311-320 | resolveInterface panics exactly for a tagged or implicit scalar that is a sign and nothing else once underscores are removed |
| Resolver.QuotedStaysText | resolver.go:307-309 | a scalar with neither tag nor implicit flag stays text |
| Resolver.InterfaceTextIsScalar | resolver.go:353 | any text resolveInterface returns is the scalar itself |
| Resolver.NullInference | resolver.go:333-336 | a null spelling is nil, or the text for a quoted scalar, so resolve's null check never hides an inferred number, time or bool |
| Resolver.InferredIntAgrees | resolver.go:317-321 | an inferred integer is what resolve gives an int64 target |
| Resolver.InferredFloatAgrees | resolver.go:322-345 | an inferred float is what resolve gives a float64 target |
| Resolver.InferredTimeAgrees | resolver.go:327-331 | an inferred timestamp is what resolve gives a time.Time target |
| Resolver.InferredBoolAgrees | resolver.go:333-350 | an inferred boolean is what resolve gives a bool target |
| Resolver.FloatsAfterIntegers | resolver.go:314-326 | a text starting with a sign or digit that is not an int64 but is a float64 is inferred as that float |
| Resolver.TimestampsAfterFloats | resolver.go:316-331 | a text starting with a digit that is neither an int64 nor a float64 but is a timestamp is inferred as that time |
| Resolver.GuessesTime | resolver.go:316-331 | a digit-first text that is neither an int64 nor a float64 is guessed as what resolve_time gives, or the text |
| Resolver.FailedNumberStaysText | resolver.go:314-353 | a sign-first text that is neither an int64 nor a float64, and a digit-first text that is not a timestamp either, stay text |
| Resolver.DotGuess | resolver.go:341-353 | a text starting with '.' is the float64 it denotes, and the text when it denotes none |
| Resolver.OtherFirstCharacterStaysText | resolver.go:311-353 | a text whose first character starts no number, null, float or boolean stays text |
| Resolver.GuessedTime | resolver.go:327-331 | a guessed timestamp is what resolve_time gives |
| Resolver.StoredTime | resolver.go:70-71 | a timestamp that is not a null spelling is stored into time.Time as it is |
| Resolver.IntegersBeforeFloats | resolver.go:317-321 | a text starting with a sign or digit that is an int64 is inferred as that integer |
| Resolver.NoSignedTimestamps | resolver.go:314-332 | a text starting with a sign is never inferred as a timestamp |
| Resolver.BooleanGuess | resolver.go:333-350 | a text starting with a boolean letter that is not a null spelling is its boolean if it is a boolean word, and text otherwise |
| Resolver.TildeStaysText | resolver.go:333-340 | a tagged or implicit text starting with '~' that is not a null spelling stays text, since resolve_bool rejects it |

## Left out

- Float arithmetic. Whether `strconv.ParseFloat` accepts a text, and whether the value scaled
  by 60^k overflows the target (`OverflowFloat`), is a parameter of the model (`FloatCheck`).
  A resolved float is kept as the text that denotes it. The sum of the sexagesimal groups and
  the value of a decimal are not computed.
- Base64 decoding (`base64.StdEncoding`, section 4 of RFC 4648) is a parameter (`Base64Decoder`),
  so `[]byte` targets are modelled only up to what the decoder returns.
- `time.Date` normalisation and `time.FixedZone`: a timestamp is the tuple of its fields and
  its offset in seconds, not an instant.
- Reflection:
  - The target is a `TargetKind` that carries what the resolver reads from its type: the width,
    whether a struct is `time.Time`, whether a slice is `[]byte`, and the type's name.
  - The `Set…` calls become returned values.
  - `int` and `uint` are 64 bits wide.
- The regexp engine: the two patterns are replaced by a recogniser proved equivalent to their
  grammar (`Timestamps.RecogniseExactly`).
- `init` mutates package-level maps. They are constants here.
- `strings.ToLower` is modelled only for the characters whose lower case is ASCII. The others
  cannot make a text equal to a boolean word.
- Resolver.ResolveInterface: its contract states only that it never returns an error. What it
  infers is stated by the lemmas after it.
- Interface targets: `InterfaceKind` stands for `interface{}` only. For an interface type with
  methods, `v.Set` panics when the inferred value does not implement it; that check is not
  modelled.
- Resolver.Message: the Go error strings are built exactly, but the only contract about them
  is `Resolver.MessageEndsWithText`.
