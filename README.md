# JGP.Security password digests in Dafny

This project models the password service of JGP.Security. `Hash(password)` draws a
16-byte random salt. It derives a 20-byte key from the password and that salt with
PBKDF2 at 10,000 iterations. It returns the Base64 encoding of `salt ++ key`, which is
36 bytes. `Verify(password, hashedPassword)` decodes the digest and takes its first 16
bytes as the salt. It derives the key again and compares it byte by byte with bytes
16..35, returning `false` at the first difference. The project also models the
`VerificationResult` record with its two factories and the `VerificationOutcome` enum.

Files and modules:

- `wrappers.dfy` (`Wrappers`): `Option`, which stands for a nullable reference.
- `verification_outcome.dfy` (`VerificationOutcomes`): the enum as a datatype, with its
  underlying integer values and their inverse.
- `verification_result.dfy` (`VerificationResults`): the record (`message`, `outcome`),
  its factories, and the predicate `IsFactoryResult`. That predicate describes the
  results the two factories produce; with the constructor private, every result starts
  out in one of these shapes.
- `password_service.dfy` (`PasswordService`): the constants, the digest layout, the
  meaning of `Verify` as the function `Verdict`, the lemmas about it, and the imperative
  methods `ArrayCopy`, `HashWithIterations`, `Hash` and `Verify` over arrays, with
  `HashThenVerify` composing the last two.

How the external parts are modelled:

- The key derivation is a parameter `kdf` of type `Kdf`. In the source this is PBKDF2,
  section 5.2 of RFC 2898, through `Rfc2898DeriveBytes`. `Kdf` admits any total function
  from (password, salt, iterations, length) that returns exactly `length` bytes. Being a
  function, it is deterministic. Every lemma therefore holds for every such KDF.
- The random source is the parameter `randomSalt` of `Hash`, with 16 bytes.
- The model works on bytes. `Hash` returns the 36-byte array before Base64 encoding, and
  `Verify` takes the decoded array.
- Exceptions are values: `Completion<T>` is `Returned(value)` or `Threw(fault)`. Copying
  the salt from fewer than 16 bytes throws `ArgumentException`, as `Array.Copy` does.
  Reading past the end of the decoded bytes throws `IndexOutOfRangeException`.

The model follows the code as written; in particular:

- `Verify` returns a boolean, not a `VerificationResult`.
- The comparison loop stops at the first mismatch. It is not constant-time.
- Malformed input throws instead of producing a failure.
- Decoded input longer than 36 bytes is accepted. Only its first 36 bytes matter
  (`TrailingBytesIgnored`).
- Decoded input with 16 to 35 bytes can still return `false` without throwing, when a
  mismatch comes before the end of the input (`ShortDigest`).

## Model

| member | source | states |
|---|---|---|
| `VerificationOutcomes.Underlying` | JGP.Security/VerificationOutcome.cs:20-31 | every member's underlying value is 0 or 1, and it is 0 exactly for Failure |
| `VerificationOutcomes.FromUnderlying` | JGP.Security/VerificationOutcome.cs:20-31 | exactly the integers 0 and 1 name a member of the enum |
| `VerificationOutcomes.UnderlyingRoundTrip` | JGP.Security/VerificationOutcome.cs:20-31 | member-to-number and number-to-member are inverse on the two members |
| `VerificationOutcomes.Default` | JGP.Security/VerificationOutcome.cs:25 | the default (zero) value of the enum is Failure, not Success |
| `VerificationOutcomes.ExactlyTwoMembers` | JGP.Security/VerificationOutcome.cs:20-31 | every outcome is Failure or Success, and these two are distinct with distinct numbers |
| `VerificationResults.GetFailureResult` | JGP.Security/VerificationResult.cs:50-57 | the failure factory yields outcome Failure and stores exactly the given message |
| `VerificationResults.GetSuccessResult` | JGP.Security/VerificationResult.cs:63-70 | the success factory yields outcome Success and no message |
| `VerificationResults.IsFactoryResult` | JGP.Security/VerificationResult.cs:27-70 | defines the shapes the two factories produce: a message is present exactly when the outcome is Failure |
| `VerificationResults.FactoriesCoverFactoryResults` | JGP.Security/VerificationResult.cs:27-70 | every result of the factories' shape is the output of one of the two factories, so these shapes are exactly the results the factories produce |
| `VerificationResults.FactoriesDistinct` | JGP.Security/VerificationResult.cs:50-70 | the two factories never give the same outcome, and different messages give different failures |
| `PasswordService.Layout` | JGP.Security/PasswordService.cs:122-124 | the digest has SaltSize + HashSize = 36 bytes; its salt part is the salt and its key part is the key |
| `PasswordService.SaltOf` | JGP.Security/PasswordService.cs:89-90 | the salt Verify copies out consists of the first 16 decoded bytes |
| `PasswordService.StoredKeyOf` | JGP.Security/PasswordService.cs:95-97 | the stored key consists of decoded bytes 16..35 |
| `PasswordService.SplitThenLayout` | JGP.Security/PasswordService.cs:122-124 | splitting a 36-byte digest at offset 16 and laying it out again gives it back |
| `PasswordService.CompareFrom` | JGP.Security/PasswordService.cs:95-103 | the loop returns true iff all 20 stored bytes exist and equal the key; it throws only on fewer than 36 bytes and never on 36 or more |
| `PasswordService.Verdict` | JGP.Security/PasswordService.cs:87-103 | defines how Verify ends on the decoded bytes: ArgumentException exactly when there are fewer than 16 bytes (the salt copy), otherwise the comparison loop against the key derived from the first 16 bytes; IndexOutOfRangeException only on 16..35 bytes; true only on at least 36 bytes |
| `PasswordService.VerdictOnFullDigest` | JGP.Security/PasswordService.cs:89-103 | on at least 36 bytes Verify does not throw, and it returns true iff bytes 16..35 equal the KDF of the password and bytes 0..15 with 10000 iterations and 20 bytes |
| `PasswordService.TrailingBytesIgnored` | JGP.Security/PasswordService.cs:90-97 | decoded input longer than 36 bytes is judged only on its first 36 bytes |
| `PasswordService.CompareFromMismatch` | JGP.Security/PasswordService.cs:95-100 | the loop returns false once it reaches a differing byte that exists |
| `PasswordService.CompareFromShort` | JGP.Security/PasswordService.cs:95-100 | on fewer than 36 bytes the loop returns false if some existing stored byte differs, and otherwise throws |
| `PasswordService.ShortDigest` | JGP.Security/PasswordService.cs:89-103 | decoded input under 16 bytes throws ArgumentException; with 16..35 bytes it returns false on a mismatch among the existing bytes, otherwise throws IndexOutOfRangeException; it never returns true |
| `PasswordService.MismatchDecides` | JGP.Security/PasswordService.cs:95-100 | a mismatch at index m makes Verify return false, and so does every input that agrees up to that byte, so later bytes never affect the result |
| `PasswordService.VerifyAgainstDigest` | JGP.Security/PasswordService.cs:85-127 | verifying a candidate against a digest made with any salt and iteration count returns true iff the two derived keys agree |
| `PasswordService.RoundTrip` | JGP.Security/PasswordService.cs:85-127 | for any deterministic KDF and 16-byte salt, verifying a password against its own digest returns true |
| `PasswordService.ArrayCopy` | JGP.Security/PasswordService.cs:123-124 | Array.Copy copies exactly the requested range and leaves the rest of the target alone, or throws ArgumentException without change when a range runs past an array's end |
| `PasswordService.HashWithIterations` | JGP.Security/PasswordService.cs:114-127 | the fresh array consists of the salt followed by the KDF of the password and salt with the given iterations and 20 bytes |
| `PasswordService.Hash` | JGP.Security/PasswordService.cs:74-77 | the fresh array has 36 bytes: bytes 0..15 are the salt and bytes 16..35 are the key derived with 10000 iterations |
| `PasswordService.Verify` | JGP.Security/PasswordService.cs:85-104 | its return or exception is exactly `Verdict` of the decoded bytes, so every lemma above holds of it |
| `PasswordService.HashThenVerify` | JGP.Security/PasswordService.cs:74-104 | running the Hash method and then the Verify method on its output with the same password returns true, for any deterministic KDF and salt |

## Left out

- Base64 encoding and decoding (`Convert.ToBase64String` and `Convert.FromBase64String`): library calls. The model works on the bytes before encoding and after decoding. Its `FormatException` on invalid text is not modelled.
- PBKDF2 internals (HMAC-SHA1, section 5.2 of RFC 2898): foreign library crypto, replaced by an arbitrary deterministic `Kdf` that returns the requested length.
- `Rfc2898DeriveBytes` rejects salts shorter than 8 bytes and iteration counts below 1. Both calls in the source pass a 16-byte salt and 10000 iterations, so these checks cannot fire for the public code, and the model does not include them.
- The random number generator (`RandomNumberGenerator.Create`, `Rng.GetBytes`): an external entropy source. Its 16 bytes are the `randomSalt` parameter. The model therefore says nothing about two hashes of one password differing.
- `Dispose` and the static lifetime of the generator: `Dispose` disposes the one static generator every instance shares (JGP.Security/PasswordService.cs:59,66). What later hashing does with it depends on the runtime's generator and is not modelled.
- Timing: the source's loop returns at the first mismatch. The model states which result follows (`MismatchDecides`), but not how long it takes.
- The interface `IPasswordService` and the instance class: not modelled as objects. The class's only field is the static generator `Rng`, replaced by the salt parameter; the operations are module-level methods that take the KDF as a parameter.
- Null arguments: `Convert.FromBase64String(null)` and `Rfc2898DeriveBytes(null, …)` throw `ArgumentNullException`, and `GetFailureResult(null)` has no null check, so it returns a Failure with a null message, a shape outside `IsFactoryResult`. Each of these needs a caller that ignores the non-nullable `string` declarations. A Dafny `string` cannot be null, so these paths are not modelled.
- The public setters of `VerificationResult.Message` and `Outcome`: results are modelled as immutable values. A later assignment corresponds to Dafny's datatype update, which can produce shapes outside `IsFactoryResult`.
- The JSON serialisation attributes on `VerificationResult`: library metadata.
- Enum values outside the named members (C# allows casting any integer to the enum): the datatype has only the two members, and `FromUnderlying` returns `None` for every other integer.
- ArrayCopy: requires distinct source and target arrays. Every call in the source copies between distinct arrays, so the overlapping copy that `Array.Copy` also supports is not modelled.
