# csrfp in Dafny

A model of `CsrfProtector`, a small in-memory registry of anti-forgery
(CSRF) tokens. A registry is configured with a token length in random bytes
(`entropy`, default 32) and a capacity (`maximum`, default 10). `generate`
draws random bytes, encodes them as padded base64url text, registers the
token and returns it; `verify` looks a presented token up and, by default,
consumes it; `size`, `clear` and `isEmpty` complete the class.

Modules:

- `Csrfp` (csrf_protector.dfy): class `CsrfProtector` with the two final
  fields as `const` and the `LinkedList<String>` as a mutable `seq<string>`
  field, index 0 being the front of the Java list. `Generate`, `Verify` and
  `Clear` are methods with `modifies` frames; `Verify` keeps the source's
  front-to-back scan as a `while` loop. `Valid()` is the capacity bound.
  Three client methods (`VerifyTwice`, `ClearRevokes`, `CapacityThree`) show
  what a caller can conclude from the contracts alone.
- `TokenList` (token_list.dfy): the list operations as functions on values
  (`Admit` for register-with-eviction, `RemoveFirst` for the iterator removal,
  `Replay` for a run of generations) and the lemmas about them.
- `Base64Url` (base64url.dfy): the encoder `Base64.getUrlEncoder()` provides:
  the alphabet of section 5 of RFC 4648 with `=` padding, plus a decoder used
  only as the encoder's inverse.
- `Wrappers` (wrappers.dfy): `Option` and `Result`.

Ordering follows the code, not a first-in-first-out reading. `push` inserts
at the front and `removeFirst` removes the front, so on a full registry the
token evicted is the one generated just before, and the `maximum - 1` oldest
tokens are never evicted (`TokenList.ReplayShape`, `TokenList.EvictsNewest`,
`Csrfp.CapacityThree`). The capacity test is `==`: a negative `maximum`
never evicts, and `maximum == 0` makes every generation throw.

The configuration is not validated by the code, so the constructors accept
any `int`; the two exceptions `generate` can raise are modelled as `Err`
results (`NegativeArraySizeException` for a negative entropy,
`NoSuchElementException` for `removeFirst` on an empty full list).

## Model

| member | source | states |
|---|---|---|
| Csrfp.CsrfProtector.constructor | src/main/java/tvestergaard/csrfp/CsrfProtector.java:46-50 | entropy and maximum are stored unchanged and the registry starts empty, which satisfies the capacity bound |
| Csrfp.CsrfProtector.WithEntropy | src/main/java/tvestergaard/csrfp/CsrfProtector.java:58-61 | entropy stored unchanged, maximum is 10, no tokens |
| Csrfp.CsrfProtector.Default | src/main/java/tvestergaard/csrfp/CsrfProtector.java:67-70 | entropy 32, maximum 10, no tokens |
| Csrfp.CsrfProtector.Generate | src/main/java/tvestergaard/csrfp/CsrfProtector.java:78-89 | a negative entropy throws before anything changes; maximum 0 throws and changes nothing; otherwise the token is the encoding of the random bytes, decodes back to exactly `entropy` bytes, and is pushed on the front; below capacity the old tokens follow in order, at capacity the previous front is dropped and the rest kept; the capacity bound is preserved |
| Csrfp.CsrfProtector.GenerateDefault | src/main/java/tvestergaard/csrfp/CsrfProtector.java:96-99 | Generate with the configured entropy: the same two exceptions (negative configured entropy, maximum 0) with the list unchanged, the same round trip of the token to the random bytes, and the same new list in both the below-capacity and the full case |
| Csrfp.CsrfProtector.Verify | src/main/java/tvestergaard/csrfp/CsrfProtector.java:108-120 | the result is true exactly when the token is registered (exact string equality); without remove, or when not found, the list is unchanged; with remove and a match exactly the first occurrence goes and the size drops by one |
| Csrfp.CsrfProtector.VerifyAndRemove | src/main/java/tvestergaard/csrfp/CsrfProtector.java:128-131 | Verify with remove set: true exactly when registered, and the first occurrence is consumed |
| Csrfp.CsrfProtector.Size | src/main/java/tvestergaard/csrfp/CsrfProtector.java:138-141 | the number of registered tokens; it never exceeds a non-negative maximum, because every constructor and mutator establishes or preserves `Valid()` |
| Csrfp.CsrfProtector.Clear | src/main/java/tvestergaard/csrfp/CsrfProtector.java:146-149 | no tokens remain; configuration is constant |
| Csrfp.CsrfProtector.IsEmpty | src/main/java/tvestergaard/csrfp/CsrfProtector.java:156-159 | true exactly when the size is 0 |
| Csrfp.VerifyTwice | src/main/java/tvestergaard/csrfp/CsrfProtector.java:128-131 | a token registered once verifies on the first consuming call and fails on the second |
| Csrfp.ClearRevokes | src/main/java/tvestergaard/csrfp/CsrfProtector.java:146-159 | after clear the registry is empty and no token verifies |
| Csrfp.CapacityThree | src/main/java/tvestergaard/csrfp/CsrfProtector.java:84-86 | capacity 3 and four distinct generations: size stays 3, the third token is evicted, the first still verifies, consuming the fourth leaves 2 |
| TokenList.Admit | src/main/java/tvestergaard/csrfp/CsrfProtector.java:84-86 | the new token is at the front; a list within a non-negative maximum stays within it; the length grows by one unless the list was full |
| TokenList.AdmitKeeps | src/main/java/tvestergaard/csrfp/CsrfProtector.java:84-86 | below capacity nothing is lost; at capacity exactly the previous front is lost |
| TokenList.RemoveFirst | src/main/java/tvestergaard/csrfp/CsrfProtector.java:110-117 | the length drops by one exactly when the token is present; an absent token leaves the list as it was |
| TokenList.RemoveFirstCount | src/main/java/tvestergaard/csrfp/CsrfProtector.java:112-114 | exactly one copy of the token is removed, nothing else |
| TokenList.RemoveFirstAt | src/main/java/tvestergaard/csrfp/CsrfProtector.java:110-115 | removing at the first index where the scan matches keeps every other token in order |
| TokenList.SingleUse | src/main/java/tvestergaard/csrfp/CsrfProtector.java:128-131 | a token present once is absent after it is consumed |
| TokenList.Replay | src/main/java/tvestergaard/csrfp/CsrfProtector.java:84-86 | after any run of generations the size is min(run length, maximum) for a positive maximum |
| TokenList.ReplayShape | src/main/java/tvestergaard/csrfp/CsrfProtector.java:84-86 | below capacity the tokens are newest first; from capacity on only the newest token and the maximum - 1 oldest remain |
| TokenList.ReplayUnbounded | src/main/java/tvestergaard/csrfp/CsrfProtector.java:84 | with a negative maximum nothing is ever evicted |
| TokenList.EvictsNewest | src/main/java/tvestergaard/csrfp/CsrfProtector.java:84-86 | past capacity the token generated just before the last is gone while the newest and the maximum - 1 oldest are registered |
| Base64Url.Encode | src/main/java/tvestergaard/csrfp/CsrfProtector.java:82 | n bytes encode to 4 * ceil(n / 3) characters |
| Base64Url.EncodeAlphabet | src/main/java/tvestergaard/csrfp/CsrfProtector.java:38 | every character is from the URL-safe alphabet, except `=` padding in the last two places |
| Base64Url.EncodeUnpadded | src/main/java/tvestergaard/csrfp/CsrfProtector.java:38 | a multiple of three bytes encodes without padding |
| Base64Url.DecodeEncode | src/main/java/tvestergaard/csrfp/CsrfProtector.java:82 | every token decodes back to exactly the random bytes it was made from |
| Base64Url.EncodeInjective | src/main/java/tvestergaard/csrfp/CsrfProtector.java:82 | distinct random bytes give distinct tokens |

## Left out

- `SecureRandom` (lines 33, 81): the bytes it would produce are the `random` parameter of `Generate`; their unpredictability, and the probabilistic uniqueness of tokens, are not provable properties.
- `java.util.Base64` is a library; `Base64Url.Encode` is a model of its URL-safe padded encoder, and `Base64Url.Decode` exists only as its inverse.
- `getEntropy` and `getMaximum` (lines 166-179) are the public constant fields `entropy` and `maximum`: a Dafny `const` is read directly and can never change, as a Java `final` field.
- Thread safety: the shared static random source and encoder, and any concurrent use of one registry.
- A `null` token passed to `verify` (a `NullPointerException` at line 112): Dafny strings cannot be null.
- `OutOfMemoryError` for a very large entropy, and 32-bit overflow of `size()`, which needs more than 2^31 live tokens.
- `LinkedList` node structure and iterator objects: the list is a sequence and the iterator an index.
