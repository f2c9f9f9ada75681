# Account value objects: Email and VerificationCode

This project models the two account value objects of the Balta domain, and
proves properties about the model.

- **VerificationCode** is a one-time confirmation code. `ShouldCreate` issues
  six upper-case hexadecimal characters that expire five minutes after the
  clock's reading. `ShouldVerify` runs a fixed chain of guards. Only if every
  guard passes does it record the verification instant and clear the expiry.
- **Email** trims and lower-cases its input. It then checks the result
  against the pattern `^\w+([-+.']\w+)*@\w+([-.]\w+)*\.\w+([-.]\w+)*$`. It
  stores the normalised address and its `ToBase64` encoding. The clock
  overload also stores a freshly issued verification code. Verifying an email
  is delegated to that code.

Files and modules:

- `wrappers.dfy`: module `Wrappers` holds `Option` (a nullable value),
  `Result` (a value or an exception) and `Outcome` (a void call or an
  exception). Module `Exceptions` holds the error datatype. Its cases are
  `InvalidEmail`, `InvalidVerificationCode` with its message, and
  `NullReference`.
- `text.dfy`: module `Text` models the .NET string primitives used.
  `IsWhiteSpace` is the full `char.IsWhiteSpace` set. `IsBlank` is
  `string.IsNullOrWhiteSpace` on a non-null string. `Utf16Length` is
  `String.Length`, which counts UTF-16 code units. The file also has `Trim`,
  `ToLower`, `ToUpper`, and `Normalize` (Trim then ToLower).
- `email_grammar.dfy`: module `EmailGrammar` reads the address pattern in two
  ways. The ghost predicates `WordRun`, `Groups`, `Dotted`, `FullMatch` and
  `IsMatch` follow the regular expression piece by piece. The executable
  `IsAddress` looks for an '@' with a segmented local part before it and a
  segmented domain after it, and requires a '.' in the domain. The lemmas prove that the two
  readings accept the same strings.
- `verification_code.dfy`: module `VerificationCodes`. `CodeState` and the
  functions `Issue`, `FromString` and `Verify` are the specification. The
  class `VerificationCode` keeps `Code`, `ExpiresAtUtc` and `VerifiedAtUtc`
  as fields. Its method `ShouldVerify` updates them in place, and its
  contract ties the new state to `Verify`.
- `email.dfy`: module `Emails`. `Email` is a datatype, like the C# record,
  with an immutable address and hash. It holds a reference to its
  `VerificationCode` object, which may be null. The one-argument
  `ShouldCreate` is a function. The clock overload `ShouldCreateWithCode` is
  a method, because it allocates the code object. `ShouldVerify` is a method
  that modifies the owned code.

External inputs are parameters:

- An instant is an `int` count of `DateTime` ticks, at 600 000 000 ticks per
  minute.
- The clock provider's reading is `now`.
- The `DateTime.UtcNow` reading at VerificationCode.cs:69 is a separate
  argument, `wallNow`.
- The text of `Guid.NewGuid().ToString("N")` is `guid`. It must be 32
  lower-case hexadecimal digits.
- The `ToBase64` string extension is a function parameter `toBase64`. Nothing
  is assumed about it.
- A null string is `None`.

Edge behaviours of the code that the model keeps:

- Expiry (VerificationCode.cs:66): a code fails as expired only when
  `ExpiresAtUtc < now`, so a code presented at exactly its expiry instant is
  accepted.
- Verification instant (VerificationCode.cs:69): the code records
  `DateTime.UtcNow`, not the reading of the injected clock.
- Email without a code (Email.cs:66-67): `Email.ShouldVerify` on an email
  from the one-argument factory dereferences a null code, which gives a null
  reference, not `InvalidVerificationCode`.
- Code alphabet (VerificationCode.cs:33): an issued code is upper-case
  hexadecimal (0-9, A-F).
- Length (VerificationCode.cs:57): the length guard counts UTF-16 code
  units, so a character outside the Basic Multilingual Plane counts twice.
- `IsActive` (VerificationCode.cs:43): true only after a successful
  verification.
- Null email input (Email.cs:32): `Email.ShouldCreate(null)` fails with a
  null reference inside `Trim`, not with `InvalidEmail`.

## Model

| member | source | states |
|---|---|---|
| `Text.Trim` | unit-tests/Balta.Domain/AccountContext/ValueObjects/Email.cs:32 | the result has no white space at either end and is never longer than the input |
| `Text.TrimIsSlice` | unit-tests/Balta.Domain/AccountContext/ValueObjects/Email.cs:32 | Trim keeps one contiguous slice of its input, and every character it drops is white space |
| `Text.TrimPadded` | unit-tests/Balta.Domain.Test/AccountContext/ValueObjects/EmailTests.cs:33-54 | Trim removes exactly the white space around a trimmed non-empty string, as in the padded test address |
| `Text.TrimOfBlank` | unit-tests/Balta.Domain/AccountContext/ValueObjects/Email.cs:32 | a string made only of white space trims to the empty string |
| `Text.TrimIgnoresPadding` | unit-tests/Balta.Domain/AccountContext/ValueObjects/Email.cs:32 | white space added before and after any string leaves its trimmed form unchanged |
| `Text.Utf16Length` | unit-tests/Balta.Domain/AccountContext/ValueObjects/VerificationCode.cs:57 | String.Length counts between one and two code units per character, and exactly one each when every character is in the Basic Multilingual Plane |
| `Text.TrimOfTrimmed` | unit-tests/Balta.Domain/AccountContext/ValueObjects/Email.cs:32 | Trim leaves a string with no white space at its ends unchanged |
| `Text.TrimIdempotent` | unit-tests/Balta.Domain/AccountContext/ValueObjects/Email.cs:32 | trimming twice is trimming once |
| `Text.ToLower` | unit-tests/Balta.Domain/AccountContext/ValueObjects/Email.cs:33 | the length is kept and each character is lower-cased in place |
| `Text.ToUpper` | unit-tests/Balta.Domain/AccountContext/ValueObjects/VerificationCode.cs:33 | the length is kept and each character is upper-cased in place |
| `Text.ToLowerIdempotent` | unit-tests/Balta.Domain/AccountContext/ValueObjects/Email.cs:33 | lower-casing twice is lower-casing once |
| `Text.LowerCharKeepsWhiteSpace` | unit-tests/Balta.Domain/AccountContext/ValueObjects/Email.cs:32-33 | lower-casing a character never changes whether it is white space |
| `Text.NormalizedShape` | unit-tests/Balta.Domain/AccountContext/ValueObjects/Email.cs:32-33 | a normalised address has no white space at its ends and no upper-case letter, so it never ends in a line feed |
| `Text.NormalizeAgrees` | unit-tests/Balta.Domain/AccountContext/ValueObjects/Email.cs:32-33 | strings that agree character by character once lower-cased have the same normal form |
| `Text.NormalizeIdempotent` | unit-tests/Balta.Domain/AccountContext/ValueObjects/Email.cs:32-33 | normalising a normalised address gives it back |
| `EmailGrammar.SegmentedIffDotted` | unit-tests/Balta.Domain/AccountContext/ValueObjects/Email.cs:13 | `\w+([seps]\w+)*` matches exactly the strings of word characters and separators that start and end with a word character and never have two separators side by side |
| `EmailGrammar.AddressToFullMatch` | unit-tests/Balta.Domain/AccountContext/ValueObjects/Email.cs:13 | everything the executable check accepts matches the pattern in full |
| `EmailGrammar.FullMatchToAddress` | unit-tests/Balta.Domain/AccountContext/ValueObjects/Email.cs:13 | every full match of the pattern passes the executable check |
| `EmailGrammar.AddressIffFullMatch` | unit-tests/Balta.Domain/AccountContext/ValueObjects/Email.cs:13 | the executable check and the pattern accept the same strings, in both directions |
| `EmailGrammar.AddressHasOneAt` | unit-tests/Balta.Domain/AccountContext/ValueObjects/Email.cs:13 | an accepted address contains exactly one '@' |
| `VerificationCodes.NewCode` | unit-tests/Balta.Domain/AccountContext/ValueObjects/VerificationCode.cs:33 | an issued code has exactly six characters, also six UTF-16 code units, each an upper-case hexadecimal digit, so it is not blank |
| `VerificationCodes.Issue` | unit-tests/Balta.Domain/AccountContext/ValueObjects/VerificationCode.cs:31-34 | ShouldCreate's state: a six-digit upper-case hex code of UTF-16 length six, expiry five minutes after now (strictly later), no verification instant, not active |
| `VerificationCodes.FromString` | unit-tests/Balta.Domain/AccountContext/ValueObjects/VerificationCode.cs:16-19 | a code built from a string stores that string as Code, converts back to it, and has ExpiresAtUtc and VerifiedAtUtc both null, so it is not active |
| `VerificationCodes.Verify` | unit-tests/Balta.Domain/AccountContext/ValueObjects/VerificationCode.cs:49-71 | on success the code is kept, the expiry is cleared and the verification instant is set; every failure is an InvalidVerificationCode and yields no new state |
| `VerificationCodes.VerifySucceedsIff` | unit-tests/Balta.Domain/AccountContext/ValueObjects/VerificationCode.cs:49-71 | verification succeeds exactly when the presented code equals the stored one, the stored one is six UTF-16 code units long and not all white space, it was never verified, and the expiry is null or not before now |
| `VerificationCodes.VerifyFailureMessages` | unit-tests/Balta.Domain/AccountContext/ValueObjects/VerificationCode.cs:51-67 | the guards' order decides the message: the default message for a missing, blank, mismatching code or one whose UTF-16 length is not six; "already verified" only for a correct code; "expired" only for a correct, unverified code past its expiry |
| `VerificationCodes.VerifyActivates` | unit-tests/Balta.Domain/AccountContext/ValueObjects/VerificationCode.cs:69-70 | after a success the code is unchanged, IsActive holds, and the verification instant is the wall-clock reading |
| `VerificationCodes.VerifyAtMostOnce` | unit-tests/Balta.Domain/AccountContext/ValueObjects/VerificationCode.cs:63-64 | after a success every further attempt fails, and the same code presented again is reported as already verified |
| `VerificationCodes.ActiveIffVerified` | unit-tests/Balta.Domain/AccountContext/ValueObjects/VerificationCode.cs:43 | in every state the operations produce, IsActive holds exactly when the code has been verified |
| `VerificationCodes.WrongLengthNeverVerifies` | unit-tests/Balta.Domain/AccountContext/ValueObjects/VerificationCode.cs:57-61 | a code built from a string whose UTF-16 length is not six fails every verification |
| `VerificationCodes.WideCharactersCountTwice` | unit-tests/Balta.Domain/AccountContext/ValueObjects/VerificationCode.cs:57-61 | a code of three characters outside the Basic Multilingual Plane has length six and verifies when presented as itself |
| `VerificationCodes.IssuedVerifiesUntilExpiry` | unit-tests/Balta.Domain/AccountContext/ValueObjects/VerificationCode.cs:66-67 | an issued code presented as issued succeeds exactly when now is at most its expiry instant, and after that it fails as expired |
| `VerificationCodes.ReplaySucceedsAtMostOnce` | unit-tests/Balta.Domain/AccountContext/ValueObjects/VerificationCode.cs:49-71 | over any series of calls: at most one succeeds; none succeeds and nothing changes if the code was verified; the code never changes; validity is kept; from an unverified state the code ends active exactly when one call succeeded |
| `VerificationCodes.VerificationCode.ToString` | unit-tests/Balta.Domain/AccountContext/ValueObjects/VerificationCode.cs:77-85 | ToString and the implicit conversion to string return Code |
| `VerificationCodes.VerificationCode.constructor` | unit-tests/Balta.Domain/AccountContext/ValueObjects/VerificationCode.cs:16-19 | the string constructor, and the implicit conversion from string, store the string as Code with both instants null; converting back gives the same string |
| `VerificationCodes.VerificationCode.Issued` | unit-tests/Balta.Domain/AccountContext/ValueObjects/VerificationCode.cs:21-25 | the private constructor stores the code and the expiry, with no verification instant |
| `VerificationCodes.VerificationCode.ShouldCreate` | unit-tests/Balta.Domain/AccountContext/ValueObjects/VerificationCode.cs:31-34 | returns a fresh object whose state is the issued state |
| `VerificationCodes.VerificationCode.ShouldVerify` | unit-tests/Balta.Domain/AccountContext/ValueObjects/VerificationCode.cs:49-71 | the in-place update: on success the new fields are the verified state; on failure the same exception is returned and all three fields are unchanged |
| `VerificationCodes.VerifyTwice` | unit-tests/Balta.Domain.Test/AccountContext/ValueObjects/VerificationCodeTest.cs:198-219 | a freshly issued code presented twice with its own text: the first call succeeds and makes it active; the second fails as already verified |
| `Emails.Email.ShouldCreate` | unit-tests/Balta.Domain/AccountContext/ValueObjects/Email.cs:30-39 | null input fails with a null reference; otherwise the call succeeds exactly when the trimmed, lower-cased input matches the pattern, and fails with InvalidEmail when it does not; the address is that normal form and matches the pattern, the hash is ToBase64 of the address, and there is no code |
| `Emails.Email.ShouldCreateWithCode` | unit-tests/Balta.Domain/AccountContext/ValueObjects/Email.cs:41-52 | the clock overload succeeds and fails exactly as the one-argument overload, with the same error and the same address and hash; on success it also holds a fresh code issued at now |
| `Emails.Email.ShouldVerify` | unit-tests/Balta.Domain/AccountContext/ValueObjects/Email.cs:66-67 | with no code, the call fails with a null reference; otherwise it returns the owned code's outcome for Verify and changes that code's state exactly as the code's own ShouldVerify does |
| `Emails.SameNormalFormSameEmail` | unit-tests/Balta.Domain/AccountContext/ValueObjects/Email.cs:38 | inputs with the same normal form give the same email, with the same hash |
| `Emails.RecreateFromString` | unit-tests/Balta.Domain/AccountContext/ValueObjects/Email.cs:83 | creating an email from another email's ToString gives back the same address and hash |
| `Emails.ConversionRoundTrip` | unit-tests/Balta.Domain/AccountContext/ValueObjects/Email.cs:73-77 | for a normalised address that matches the pattern, the explicit conversion from string succeeds, and converting back to string returns the address |
| `Emails.NormalOfNormalized` | unit-tests/Balta.Domain/AccountContext/ValueObjects/Email.cs:32-33 | a string with no white space at its ends and no upper-case letter is its own normal form |
| `Emails.NoAtRejected` | unit-tests/Balta.Domain/AccountContext/ValueObjects/Email.cs:35-36 | an input without '@' fails with InvalidEmail |
| `Emails.MalformedTestInputsRejected` | unit-tests/Balta.Domain.Test/AccountContext/ValueObjects/EmailTests.cs:73-107 | "", "invalid", "invalid.com" and "something here" each fail with InvalidEmail |
| `Emails.SimpleAddressAccepted` | unit-tests/Balta.Domain/AccountContext/ValueObjects/Email.cs:35-38 | a normalised local@host.tld whose parts are segmented is accepted unchanged, with no code |
| `Emails.LowerAddressAccepted` | unit-tests/Balta.Domain/AccountContext/ValueObjects/Email.cs:32-38 | local@host.tld made of lower-case words is accepted unchanged |
| `Emails.WellFormedTestInputsAccepted` | unit-tests/Balta.Domain.Test/AccountContext/ValueObjects/EmailTests.cs:10-132 | each well-formed address of the lower-casing and validity tests (batgirl, robin and batman at test.com; batgirl@personal.com, robin@gmail.com, batman@outlook.com), and test@test.com, is accepted unchanged, so ToString returns it |
| `Emails.SurroundingWhiteSpaceIgnored` | unit-tests/Balta.Domain/AccountContext/ValueObjects/Email.cs:32 | white space added before and after any input never changes the outcome |
| `Emails.LetterCaseIgnored` | unit-tests/Balta.Domain/AccountContext/ValueObjects/Email.cs:33 | upper-casing the input never changes the outcome |

## Left out

- VerificationCodes.Verify: Dafny characters are Unicode scalar values, so a string holding a lone UTF-16 surrogate, which a C# string can hold, cannot be presented or stored; the same holds for VerificationCodes.VerificationCode.ShouldVerify and the string constructor.

- Password: its source is not part of this model, only its unit tests.
- `ToBase64`: its source is not part of this model. It is a function parameter. The model claims nothing about it: not injectivity, not decoding, and not base64 form.
- Randomness: the GUID text is a parameter, required to be 32 lower-case hexadecimal digits, as `Guid.ToString("N")` produces.
- Clocks: the injected clock and `DateTime.UtcNow` are integer tick arguments. `DateTime` calendar arithmetic and its range are not modelled. `AddMinutes` throws past `DateTime.MaxValue`, and the model has no upper bound.
- `\w`: modelled as ASCII letters, digits and underscore. .NET's Unicode word characters (other letters, marks and connector punctuation) are not covered.
- `ToLower` and `ToUpper`: modelled as ASCII-only, culture-invariant case mapping. Every other character is left unchanged.
- The regex engine: the pattern is written out by hand as predicates. `Regex.IsMatch`'s "$ before a final line feed" rule is kept in `EmailGrammar.IsMatch`. It never applies to a normalised address.
- A `VerificationCode` built from a null string: Dafny strings are never null, so the model has no null `Code`.
- The `IsActive` and `State` accessors of the class, and `Email.ToString`, have no row of their own. `ActiveIffVerified`, `VerifyActivates` and `ConversionRoundTrip` state what they mean.
- The `ValueObject` base class and record equality, the exception classes (replaced by the error datatype), and the test harness.
- The unit test at EmailTests.cs:125 calls `ShouldVerify` with one argument. `Email` has no such overload, so that call is not modelled.
- Concurrency: each object is assumed to have a single owner, and concurrent `ShouldVerify` calls are not modelled.
