# Verified model of the Web3Authn passkey system

The system lets a browser register and use passkeys on NEAR: an SDK with web workers, a WebAuthn contract that
keeps authenticators and VRF keys, and a relay server that creates accounts. This project models the parts of it
whose correctness is hard to see and proves what they promise. `dafny verify dfyconfig.toml` checks everything.

| file | what it models |
|---|---|
| `Unicode.dfy` | UTF-8 (sections 3 and 4 of RFC 3629) and UTF-16 (section 2 of RFC 2781) as reference definitions |
| `Utf8Codec.dfy` | the bundled Buffer's UTF-8 encoder and decoder |
| `WasmStrings.dfy` | copying a string into WASM memory |
| `IntCodec.dfy` | signed integers of any byte width |
| `Base64Codec.dfy` | the bundle's base64, the SDK's base64url helpers, and btoa/atob |
| `ByteSearch.dfy` | indexOf and lastIndexOf over bytes |
| `Bits.dfy` | shifts, AND and OR on binary digits, and the arithmetic they amount to in the codecs |
| `AuthData.dfy`, `Verifiers.dfy`, `Verification.dfy` | authenticator data, attestation and assertion checks |
| `ContractState.dfy`, `ContractRuns.dfy`, `Contract.dfy` | the contract: state, runs of calls, the contract object |
| `VrfWorker.dfy`, `VrfManager.dfy`, `VrfSystem.dfy` | the VRF worker's queue, the manager's ids, timers and session, and both together |
| `SignerOperation.dfy` | one signer worker operation |
| `RelayQueue.dfy` | the relay's promise chain |
| `ClientDb.dfy`, `Registration.dfy` | the client database, and registration with compensation |
| `YoctoNear.dfy`, `Decimal.dfy` | the NEAR to yoctoNEAR conversion, and decimal numerals |
| `Common.dfy` | octets, Option, Result, and sequence helpers |

Code that changes state step by step is a method or a class whose methods are proved against a specification
function; the laws are lemmas about that function, and where code and theorem share one, a lemma says outright what
it computes: entries, prefixes, places, kinds and numbers. Hashing, curve arithmetic, CBOR and JSON parsing, and the
VRF are function-valued parameters (`Verifiers.Libraries`): the theorems hold whatever they compute. Whether a step
that may fail does fail is given by a Boolean function of its number, so the theorems hold for every pattern of
failures.

## Where the code falls short of its own words

Each point is a lemma or postcondition that gives the exact condition.

- `utf8ToBytes` writes one replacement, not two, when a string ends in two unpaired leads
  (`CompleteExactlyUnlessTwoLeadsEnd`).
- On base64url text with a lone last character `base64UrlDecode` throws where the Buffer drops the character
  (`DecodersAgreeExactlyWithoutLoneCharacter`); `toByteArray` leaves two zero bytes when the first `=` stands where a
  group would begin (`ToByteArray`).
- `relay-server/src/accountService.ts:263` says the queue continues after a failure; after a rejection nothing ever
  runs again and the pending count stays (`NothingRunsAfterRejection`).
- `packages/passkey/src/core/web3authn-vrf.worker.ts:128` says messages after a failed start get errors; they are
  queued and never answered (`LateMessagesGetNoReply`).
- `executeWorkerOperation` does not act on a failed verification when the event callback throws on it, and keeps its
  worker and timer when handing over the message throws (`TerminalExactlyUnlessSwallowed`, `SettledMeansCleanedUp`).
- The block height an authentication claims is compared with the current height only, not with what the VRF was
  computed on; the same assertion is accepted again under a later claim (`AcceptedAgainUnderALaterClaim`). Nor is the
  relying party named in the VRF data compared, as it is for a registration
  (`AuthenticationIgnoresClaimedRpIdAndHeight`, `RegistrationBindsTheRpId`).
- `atomicOperation` is not atomic: whatever was written before any later failure of the storing code stays, and no
  rollback follows. A new account then has its user row exactly when the storing code was reached, the account id is
  valid and the first put did not fail (`RegisterPasskey`; `LaterFailureLeavesRows` is an input). A rollback does not
  bring back the previous last user (`RollbackRestoresExactlyWhenNobodyWasLast`).
- Removing a freshly added credential mapping restores the index only if the account was not listed before
  (`RemoveUndoesAddExactlyForNewUsers`).
- The yoctoNEAR conversion fails for amounts that print in exponent notation (`DigitsExactlyForPlain`).

## Model

| member | source | states |
|---|---|---|
| Unicode.DecodeInvertsEncode | frontend/public/sdk/web3authn-signer.worker.js:2621-2694 | decoding an encoded character sequence gives it back; the reference pair the codec refines |
| Unicode.CharactersAreEncodings | frontend/public/sdk/web3authn-signer.worker.js:2633-2676 | an octet group is a character of section 4 of RFC 3629 if and only if it is the encoding of some scalar value |
| Unicode.EncodeInvertsDecodeExactlyOnUtf8 | frontend/public/sdk/web3authn-signer.worker.js:2621-2694 | re-encoding decoded octets gives them back if and only if they satisfy the grammar of section 4 of RFC 3629 |
| Unicode.UnitsInvertScalarsExactlyOnUtf16 | frontend/public/sdk/web3authn-signer.worker.js:3621-3699 | code units to characters and back is the identity if and only if every surrogate is paired |
| Unicode.LeadingIsTheOnlyPrefix | frontend/public/sdk/web3authn-signer.worker.js:2630-2680 | no two prefixes of the same octets are both characters, so what the decoder accepts is determined |
| Utf8Codec.Utf8ToBytes | frontend/public/sdk/web3authn-signer.worker.js:3621-3699 | for every string and budget the loop with its pending lead surrogate writes the specified octets |
| Utf8Codec.Utf8Slice | frontend/public/sdk/web3authn-signer.worker.js:2621-2695 | for every buffer and range the result is the units of the decoded characters, U+FFFD and one octet for anything that is not a character |
| Utf8Codec.ReadGroup | frontend/public/sdk/web3authn-signer.worker.js:2627-2676 | the switch accepts a group exactly when section 4 of RFC 3629 does, with that character |
| Utf8Codec.FormsEncode | frontend/public/sdk/web3authn-signer.worker.js:3669-3694 | the shifts, masks and markers give the octets of section 3 of RFC 3629 |
| Utf8Codec.JoinsAdd | frontend/public/sdk/web3authn-signer.worker.js:2649-2670 | shifting and OR-ing the masked octets puts their six-bit groups side by side |
| Bits.ShrDivides | frontend/public/sdk/web3authn-signer.worker.js:3669-3694 | shifting right digit by digit divides by a power of two |
| Bits.LowMask | frontend/public/sdk/web3authn-signer.worker.js:3669-3694 | AND with k ones keeps the remainder by 2^k |
| Bits.HighMask | frontend/public/sdk/web3authn-signer.worker.js:2648 | AND with a shifted mask picks out the digits above the shift |
| Bits.OrAdds | frontend/public/sdk/web3authn-signer.worker.js:3669-3694 | OR of operands without common digits is their sum |
| Utf8Codec.DecodeCodePointsArray | frontend/public/sdk/web3authn-signer.worker.js:2700-2718 | cutting the units into runs of 4096 changes nothing |
| Utf8Codec.RoundTripExactlyOnUtf16 | frontend/public/sdk/web3authn-signer.worker.js:3621-3699 | encoding then decoding gives the string back if and only if it is well-formed UTF-16, and always gives well-formed UTF-16 |
| Utf8Codec.OctetsSurviveExactlyOnUtf8 | frontend/public/sdk/web3authn-signer.worker.js:2621-2695 | decoding then encoding gives the octets back if and only if they are UTF-8 |
| Utf8Codec.DecodedStringsAreUtf16 | frontend/public/sdk/web3authn-signer.worker.js:2678-2690 | the decoder never produces an unpaired surrogate |
| Utf8Codec.CompleteExactlyUnlessTwoLeadsEnd | frontend/public/sdk/web3authn-signer.worker.js:3629-3666 | without a budget every character is written if and only if the string does not end in two leads; otherwise exactly one replacement is missing |
| Utf8Codec.BudgetCutsBetweenCharacters | frontend/public/sdk/web3authn-signer.worker.js:3669-3694 | under a budget the longest run of whole characters that fits is written |
| WasmStrings.WasmMemory.PassString | frontend/public/sdk/wasm_signer_worker.js:53-91 | the block returned holds exactly WASM_VECTOR_LEN octets, the full UTF-8 encoding, in a block of its own; every other live block keeps its contents |
| WasmStrings.WasmMemory.CopyAscii | frontend/public/sdk/wasm_signer_worker.js:68-74 | the fast loop copies exactly the leading ASCII units and writes nothing else |
| WasmStrings.WasmMemory.GrowAndEncode | frontend/public/sdk/wasm_signer_worker.js:76-85 | ASCII prefix plus encoded tail is the encoding of the whole, within `offset + 3 * remaining` octets |
| WasmStrings.EncodedLength | frontend/public/sdk/wasm_signer_worker.js:80 | a string of n units never needs more than 3n octets, and a non-empty one needs at least one |
| WasmStrings.AsciiPrefix | frontend/public/sdk/wasm_signer_worker.js:68-78 | encoding at once equals copying the ASCII prefix and encoding the rest |
| IntCodec.WriteIntLE | frontend/public/sdk/web3authn-signer.worker.js:3213-3234 | writes exactly the two's complement octets, touches nothing else, and rejects what checkInt rejects |
| IntCodec.WriteIntBE | frontend/public/sdk/web3authn-signer.worker.js:3236-3257 | the same, most significant octet first |
| IntCodec.ReadIntLE | frontend/public/sdk/web3authn-signer.worker.js:2919-2935 | returns the signed number the octets denote, or the bounds error |
| IntCodec.ReadIntBE | frontend/public/sdk/web3authn-signer.worker.js:2937-2953 | the same, most significant octet first |
| IntCodec.WriteThenRead | frontend/public/sdk/web3authn-signer.worker.js:3213-3257 | every value that fits is read back, in both byte orders |
| IntCodec.SignedOfOctets | frontend/public/sdk/web3authn-signer.worker.js:2930-2934 | the signed reading inverts the digits on every number of the width |
| IntCodec.OctetsOfSigned | frontend/public/sdk/web3authn-signer.worker.js:2930-2934 | every octet sequence is the image of the number it denotes, which fits |
| IntCodec.BorrowRepairsTruncation | frontend/public/sdk/web3authn-signer.worker.js:3225-3230 | the truncated quotient minus the borrow is the floor |
| IntCodec.WriteStep | frontend/public/sdk/web3authn-signer.worker.js:3226-3231 | the borrow flag follows the octets written so far, and the next octet is the next base-256 digit |
| Base64Codec.TableIsTheCode | frontend/public/sdk/web3authn-signer.worker.js:1441-1451 | the table is the code string, character by character, and the inverse table inverts it |
| Base64Codec.AlphabetIsTheCode | frontend/public/sdk/web3authn-signer.worker.js:1441-1451 | the standard characters are exactly those of the code string; - and _ stand for 62 and 63, and everything else counts as 0 |
| Base64Codec.FromByteArray | frontend/public/sdk/web3authn-signer.worker.js:1549-1580 | the encoder in chunks of 16383 octets equals the unchunked encoding of section 4 of RFC 4648, padding included |
| Base64Codec.EncodeChunk | frontend/public/sdk/web3authn-signer.worker.js:1529-1547 | shifting and masking triplets gives the sextets' characters |
| Base64Codec.Straddle | frontend/public/sdk/web3authn-signer.worker.js:1499-1524 | the shifted and OR-ed sextets, cut into octets, are the octets the sextets straddle |
| Base64Codec.ToByteArray | frontend/public/sdk/web3authn-signer.worker.js:1452-1527 | returns the decoded octets or the error; the array is filled to its last octet exactly when fewer than four placeholders are counted |
| Base64Codec.Base64Clean | frontend/public/sdk/web3authn-signer.worker.js:3607-3619 | keeps exactly the alphabet characters before the first `=` and pads to a multiple of four |
| Base64Codec.Base64UrlDecode | packages/passkey/src/utils/encoders.ts:43-52 | the filled array is what atob gives for the translated, padded text |
| Base64Codec.AcceptedCharacters | packages/passkey/src/utils/encoders.ts:43-52 | whatever base64UrlDecode accepts consists of characters of either alphabet, equals signs and ASCII white space |
| Base64Codec.UrlEncodeIsUnpadded | packages/passkey/src/utils/encoders.ts:28-33 | the replace chain yields one section 5 character for each sextet and no padding |
| Base64Codec.RoundTrip | packages/passkey/src/utils/encoders.ts:28-52 | every octet sequence survives base64UrlEncode followed by base64UrlDecode or by the Buffer path |
| Base64Codec.PaddedRoundTrip | packages/passkey/src/utils/encoders.ts:11-13 | the padded text decodes to the same octets through the Buffer and through atob |
| Base64Codec.DecodersAgreeExactlyWithoutLoneCharacter | packages/passkey/src/core/WebAuthnManager/touchIdPrompt.ts:65 | on unpadded text over either alphabet the two decoders agree; base64UrlDecode throws if and only if a lone character is left, which the Buffer ignores |
| ByteSearch.ArrayIndexOf | frontend/public/sdk/web3authn-signer.worker.js:2455-2467 | terminates despite the backtracking and returns the least occurrence at or after the offset, or -1 if none |
| ByteSearch.ArrayLastIndexOf | frontend/public/sdk/web3authn-signer.worker.js:2468-2480 | returns the greatest occurrence at or before the offset, or -1 if none |
| ByteSearch.BidirectionalIndexOf | frontend/public/sdk/web3authn-signer.worker.js:2371-2425 | offset coercion and clamping do not change the occurrence found; empty patterns give -1 |
| ByteSearch.FirstAndLastAgree | frontend/public/sdk/web3authn-signer.worker.js:2483-2493 | the two directions agree on existence and order, and meet exactly when the occurrence is unique |
| AuthData.ParseAuthenticatorData | webauthn-contract/src/utils/parsers.rs:56-111 | the running-offset parser never reads out of range and computes the parse |
| AuthData.ParseInvertsSerialize | webauthn-contract/src/utils/parsers.rs:56-111 | parsing a serialized record returns that record |
| AuthData.ParseExactlyInvertsLayout | webauthn-contract/src/utils/parsers.rs:56-111 | a record is returned if and only if it is well formed and its layout is the input, byte for byte with AT set and its first 37 bytes otherwise |
| AuthData.TruncationNoticedExactlyBeforeTheKey | webauthn-contract/src/utils/parsers.rs:56-111 | cutting accepted input short is noticed if and only if the cut falls before the end of the credential id (of the counter when nothing is attested); after it only the public key gets shorter |
| AuthData.FlagsAreDigits | webauthn-contract/src/verify_authentication_response.rs:272-345 | UP, UV, BS, BE and AT are the binary digits 0, 2, 4, 5 and 6 of the flags |
| AuthData.NumberIsBigEndian | webauthn-contract/src/utils/parsers.rs:56-111 | counters and lengths are read most significant octet first |
| AuthData.U2fReadingAgreesWithParser | webauthn-contract/src/utils/verifiers.rs:155-177 | on bytes accepted with AT set the fixed-offset reading cannot fail and gives the parser's fields |
| AuthData.BuildU2fMessage | webauthn-contract/src/utils/verifiers.rs:192-199 | the appends build the message of section 8.6 of Web Authentication Level 2 |
| AuthData.U2fMessageDeterminesItsParts | webauthn-contract/src/utils/verifiers.rs:192-199 | two signed messages are equal if and only if RP hash, client data hash, credential id, x and y all are |
| AuthData.MessageParts | webauthn-contract/src/utils/verifiers.rs:192-199 | the signed message is 0x00, RP hash, client data hash, credential id, 0x04, x and y at these places |
| Verifiers.ReadsAttestationExactly | webauthn-contract/src/utils/parsers.rs:18-54 | an attestation object is read if and only if it is a map with octets under "authData", text under "fmt" and anything under "attStmt", and as exactly those |
| Verifiers.ReadsCoordinatesExactly | webauthn-contract/src/utils/p256_utils.rs:6-38 | x is the 32-octet entry -2 of the COSE key and y its 32-octet entry -3; nothing else is accepted |
| Verifiers.U2fOnTheRegistrationPath | webauthn-contract/src/verify_registration_response.rs:416-483 | on the registration path no U2F length check fires, and acceptance is: the statement's own signature verifies, under the parsed key, on the message of the parser's own fields |
| Verifiers.PackedAcceptsExactly | webauthn-contract/src/utils/verifiers.rs:41-94 | a packed attestation is accepted if and only if it names ES256, carries no certificate chain, and its own signature verifies on data and hash |
| Verifiers.U2fAcceptsExactly | webauthn-contract/src/utils/verifiers.rs:128-241 | a U2F attestation is accepted if and only if its own signature verifies on the section 8.6 message of its fields and key |
| Verifiers.AcceptedFormats | webauthn-contract/src/utils/verifiers.rs:13-39 | for every statement: acceptance is exactly format "none", or "packed" or "fido-u2f" with the statement's own entry "sig" verifying as stated above |
| Verifiers.AcceptedOnTheRegistrationPath | webauthn-contract/src/verify_registration_response.rs:464-499 | where the parser accepted the data with AT set, the statement is accepted if and only if it vouches for the parsed key, stated over the entries of statement and key |
| Verifiers.AssertionAcceptsExactly | webauthn-contract/src/utils/verifiers.rs:244-383 | an assertion's signature is accepted if and only if the COSE key has entries 1 and 3 naming (2, -7) or (1, -8) and the signature verifies under the point or key in its entries -2 and -3 |
| Verifiers.SignedDataDeterminesItsParts | webauthn-contract/src/utils/verifiers.rs:110-112 | authData followed by the client data hash determines both |
| Verification.OverflowPossibleExactlyAtTheEdge | webauthn-contract/src/verify_registration_response.rs:231-233 | some claimed height overflows the height test if and only if current height plus max_block_age overflows u64 |
| Verification.FreshExactlyWithinTheAge | webauthn-contract/src/verify_registration_response.rs:230-240 | short of that a claim is fresh if and only if it is at most current and at most max_block_age behind |
| Verification.Decode64ExactlyInvertsEncode64 | webauthn-contract/src/verify_registration_response.rs:318-327 | the strict base64url decoder, which checks alphabet, length and leftover bits, accepts exactly what the encoder writes |
| Base64Codec.SextetsInvertOctets | webauthn-contract/src/verify_registration_response.rs:318-327 | regrouping the octets of a sextet sequence without leftover bits gives it back |
| Verification.CredentialVerifiedExactlyWhenAttests | webauthn-contract/src/verify_registration_response.rs:292-508 | a credential is verified, with a given result, if and only if its attestation object holds authenticator data, statement and format under their three keys, the data is for the relying party with UP and UV set and names the result, and the statement vouches for the attested key |
| Verification.RegisteredExactlyWhenAttested | webauthn-contract/src/verify_registration_response.rs:97-150 | a registration is verified, with a given result, if and only if the claimed height is in the window, the VRF output is proved, and the credential attests the result in answer to its first 32 octets |
| Verification.VerifiedExactlyWhenAuthenticated | webauthn-contract/src/verify_authentication_response.rs:59-369 | an authentication answers a given information if and only if the claimed height is in the window, the VRF key is a stored one, the assertion answers its challenge with UP and UV set for the domain of its origin, it is signed with the stored key, and the information is what it says; the counter never decides |
| Verification.AssertionAccepted | webauthn-contract/src/verify_authentication_response.rs:172-369 | whatever is accepted is an assertion of exactly the information returned: the decoded id, the counter and the flags of its data, its origin and the domain of that |
| Verification.RpIdIsTheDomain | webauthn-contract/src/verify_authentication_response.rs:144-148 | the relying party is what follows https:// or http:// in the origin, and the whole origin without either |
| Verification.Utf8Decodes | webauthn-contract/src/verify_authentication_response.rs:261-263 | the octets hashed for a relying party are UTF-8 and decode to exactly its characters |
| Verification.DecodedIdIsNamed | webauthn-contract/src/verify_authentication_response.rs:59-168 | the id returned is the one the credential's base64url id encodes, and empty if and only if that is not base64url or encodes nothing |
| Verification.ChecksAbortExactlyOnOverflow | webauthn-contract/src/verify_registration_response.rs:228-240 | an authentication or a registration aborts if and only if the height test overflows |
| Verification.CounterAndUserVerificationOnlyRestrict | webauthn-contract/src/verify_authentication_response.rs:271-305 | a stored counter would have to be exceeded, and user verification is one more condition; nothing else depends on either |
| Verification.AuthenticationIgnoresClaimedRpIdAndHeight | webauthn-contract/src/verify_authentication_response.rs:59-168 | an accepted authentication is accepted, with the same answer, for any relying party named in the VRF data and any height claimed and current |
| Verification.RegistrationBindsTheRpId | webauthn-contract/src/verify_registration_response.rs:292-360 | a verified registration is rejected for every other relying party in the VRF data |
| ContractRuns.AuthenticationSafety | webauthn-contract/src/verify_authentication_response.rs:59-168 | over every run: a verified authentication implies that the account itself stored the credential and gave or added the VRF key, which is still in its window, that the claimed height is in the window, and that the answer is what an assertion says which answers the VRF output's challenge and is signed with the key the account stored |
| ContractRuns.AcceptedAgainUnderALaterClaim | webauthn-contract/src/verify_registration_response.rs:228-275 | over every run: the same assertion is accepted again at any later height claimed, while the credential keeps its public key and the VRF key stays in the window |
| ContractRuns.AcceptedKeysComeFromTheUser | webauthn-contract/src/authenticators.rs:105-179 | over every run only the account itself stores its credentials or adds keys to them |
| ContractRuns.EvictedKeysAreRefused | webauthn-contract/src/authenticators.rs:156-164 | under a constant limit M, once max(M, 1) further keys are accepted, a key not offered again has left the window and no longer authenticates |
| ContractRuns.WindowIsLatestKeys | webauthn-contract/src/authenticators.rs:144-179 | in every reachable state a stored credential's keys are non-empty, duplicate free, a run of the latest accepted ones, and at most the largest limit so far (at least 1) |
| ContractRuns.WindowUnderConstantLimit | webauthn-contract/src/authenticators.rs:156-164 | while the limit M is constant the keys are exactly the last max(M, 1) of those the account's own calls gave and added since it last stored the credential |
| ContractRuns.IndexAlwaysAgrees | webauthn-contract/src/authenticators.rs:105-141 | in every reachable state an account is listed under a credential if and only if it has an authenticator there; lists are non-empty and duplicate free |
| ContractRuns.RemoveUndoesAddExactlyForNewUsers | webauthn-contract/src/authenticators.rs:240-258 | removing an added mapping restores the index if and only if the account was not listed |
| ContractRuns.EntryAfterStep | webauthn-contract/src/authenticators.rs:105-179 | what any call leaves stored for any account and credential, from its arguments alone: a fresh authenticator by the account's own store or verified registration, its window moved on by the account's own new key, and otherwise what was there |
| ContractRuns.AddedKeyGoesLast | webauthn-contract/src/authenticators.rs:144-179 | a new key for a stored credential goes last and, past the limit, the oldest goes; nothing else stored changes; otherwise nothing changes at all |
| ContractRuns.ListedAfterStep | webauthn-contract/src/authenticators.rs:105-141 | a credential's list gains exactly the account that stored it, at its end and only once |
| ContractRuns.UsersAfterStep | webauthn-contract/src/authenticators.rs:33-68 | the membership set gains exactly the account registered by itself, the contract or an admin, and the caller of a verified registration |
| ContractRuns.OnlyTheContractConfigures | webauthn-contract/src/admin.rs:21-56 | settings and admins change only by the contract account's own calls, and to what these say |
| ContractState.TransportsAreTheKnownNames | webauthn-contract/src/verify_registration_response.rs:538-552 | of the transports sent exactly those with the five known names are kept, in order |
| Contract.WebAuthnContract.StoreAuthenticator | webauthn-contract/src/authenticators.rs:105-141 | the in-place inserts make exactly the specified state change; any other caller aborts |
| Contract.WebAuthnContract.AddVrfKeyToAuthenticator | webauthn-contract/src/authenticators.rs:144-179 | pushes and evicts in place: the window is the old one followed by the key, less its first when that passes the limit; reports whether the key was new for a stored credential and otherwise changes nothing |
| Contract.WebAuthnContract.RegisterUser | webauthn-contract/src/authenticators.rs:33-68 | adds the account, aborts for a caller that is not the user, the owner or an admin, and reports novelty |
| Contract.WebAuthnContract.AddCredentialUserMapping | webauthn-contract/src/authenticators.rs:240-246 | appends the account once |
| Contract.WebAuthnContract.RemoveCredentialUserMapping | webauthn-contract/src/authenticators.rs:249-258 | removes the account and drops an emptied list |
| Contract.WebAuthnContract.StoreAuthenticatorAndUser | webauthn-contract/src/verify_registration_response.rs:528-588 | neither inner permission requirement can fire; state and answer are those of a verified registration |
| Contract.WebAuthnContract.VerifyAndRegisterUser | webauthn-contract/src/verify_registration_response.rs:97-150 | answers with the check and changes the state as specified |
| Contract.WebAuthnContract.CheckCanRegisterUser | webauthn-contract/src/verify_registration_response.rs:162-208 | answers as specified, changing nothing |
| Contract.WebAuthnContract.VerifyAuthenticationResponse | webauthn-contract/src/verify_authentication_response.rs:59-168 | a positive answer means an authentication, saying just that, against what is stored under the user the VRF data names |
| Contract.WebAuthnContract.UpdateVrfSettings | webauthn-contract/src/lib.rs:165-175 | replaces the settings for the owner and aborts for everybody else |
| Contract.WebAuthnContract.AddAdmin | webauthn-contract/src/admin.rs:21-37 | adds the admin for the owner, reports whether it was new, and aborts for everybody else |
| Contract.WebAuthnContract.RemoveAdmin | webauthn-contract/src/admin.rs:40-56 | removes the admin for the owner, reports whether there was one, and aborts for everybody else |
| Contract.CheckPredictsRegistration | webauthn-contract/src/verify_registration_response.rs:162-208 | check_can_register_user answers with what the check behind verify_and_register_user answers, abort included, whenever the user id parses, and with a refusal otherwise |
| Contract.RegistrationFootprint | webauthn-contract/src/verify_registration_response.rs:97-150 | an unverified registration leaves the whole state; a verified one stores for the caller the attested key with transports, time and the VRF key as its window, and changes only that entry, its index list and the caller's membership |
| Contract.OthersCannotTouch | webauthn-contract/src/authenticators.rs:105-179 | no call changes the authenticators of an account other than the caller |
| VrfWorker.Worker.HandleMessage | packages/passkey/src/core/web3authn-vrf.worker.ts:64-90 | queues before ready, answers once afterwards, also when the handler throws |
| VrfWorker.Worker.ProcessQueuedMessages | packages/passkey/src/core/web3authn-vrf.worker.ts:52-61 | drains the queue in order, one answer each |
| VrfWorker.Worker.StartupFailed | packages/passkey/src/core/web3authn-vrf.worker.ts:115-128 | every queued message gets the startup error and the queue is emptied |
| VrfWorker.AnsweredInOrder | packages/passkey/src/core/web3authn-vrf.worker.ts:20-128 | over every interleaving: answers once and in arrival order after a successful start; after a failed one exactly the earlier messages are answered |
| VrfWorker.LateMessagesGetNoReply | packages/passkey/src/core/web3authn-vrf.worker.ts:115-128 | after a failed start every message is answered if and only if none came late; the earlier ones get a failure with the startup error, a late one gets nothing |
| VrfWorker.OneReplyForEachId | packages/passkey/src/core/web3authn-vrf.worker.ts:64-90 | with distinct ids each message has exactly one reply carrying its id, and it says what the handler said |
| VrfWorker.AnswersSayWhatTheHandlerSaid | packages/passkey/src/core/web3authn-vrf.worker.ts:64-90 | a reply carries its message's id and the handler's flag and body, or a failure with the error it threw |
| VrfManager.Manager.Operate | packages/passkey/src/core/WebAuthnManager/vrfWorkerManager.ts:95-126 | generates a fresh id, then arms a timer and a listener under it unless building the message throws |
| VrfManager.Manager.OnMessage | packages/passkey/src/core/WebAuthnManager/vrfWorkerManager.ts:107-114 | every attached listener sees the reply; those with its id settle, disarm and detach |
| VrfManager.IdsDiffer | packages/passkey/src/core/WebAuthnManager/vrfWorkerManager.ts:124-126 | ids with different counters differ, for any clock readings |
| VrfManager.IdsAreDistinct | packages/passkey/src/core/WebAuthnManager/vrfWorkerManager.ts:124-126 | in every reachable state all ids are pairwise distinct |
| VrfManager.SettledOnceByItsOwn | packages/passkey/src/core/WebAuthnManager/vrfWorkerManager.ts:95-119 | over every interleaving a promise is settled by the first of its own reply and its own timer; the timer is armed exactly while it is open |
| VrfManager.OutcomesAreFinal | packages/passkey/src/core/WebAuthnManager/vrfWorkerManager.ts:95-119 | a settled promise never changes |
| VrfManager.SessionFollowsOpenCalls | packages/passkey/src/core/WebAuthnManager/vrfWorkerManager.ts:183-187 | the tracked session account moves exactly on successful replies to calls that are still open |
| VrfSystem.RepliesAreOnesOwn | packages/passkey/src/core/WebAuthnManager/vrfWorkerManager.ts:95-119 | manager and worker together, over every interleaving: a call settled by a reply is settled by what the handler said of its own message, or by the startup error if its message had arrived before |
| VrfSystem.LateCallsOnlyTimeOut | packages/passkey/src/core/web3authn-vrf.worker.ts:115-128 | after a failed startup a call whose message had not arrived by then can only time out |
| SignerOperation.Operation.OnMessage | packages/passkey/src/core/WebAuthnManager/signerWorkerManager.ts:94-138 | the handler makes exactly the specified step, whose effect is MessagesActByType, and settles at most once |
| SignerOperation.MessagesActByType | packages/passkey/src/core/WebAuthnManager/signerWorkerManager.ts:90-145 | after every interleaving that leaves the operation open: ERROR rejects with its payload; the two final kinds resolve; a failed verification rejects and a successful one, like the progress kinds, leaves it open; any other kind resolves if and only if it contains SUCCESS or FAILURE; the callback is told of progress and verification only |
| SignerOperation.WhatElseHappens | packages/passkey/src/core/WebAuthnManager/signerWorkerManager.ts:83-86 | after every interleaving: a worker error and the timer reject an open operation and clean up; a closed operation changes no more |
| SignerOperation.ContainsExactlyWhere | packages/passkey/src/core/WebAuthnManager/signerWorkerManager.ts:140 | the substring test is true if and only if the text occurs at some place |
| SignerOperation.OpenUntilTerminal | packages/passkey/src/core/WebAuthnManager/signerWorkerManager.ts:94-117 | until a terminal event takes effect the callback has received exactly the progress and verification payloads, in order |
| SignerOperation.SettlesAtFirstTerminal | packages/passkey/src/core/WebAuthnManager/signerWorkerManager.ts:83-159 | over every interleaving the first terminal event settles, terminates the worker and disarms the timer, and nothing later has any effect |
| SignerOperation.SettledMeansCleanedUp | packages/passkey/src/core/WebAuthnManager/signerWorkerManager.ts:83-161 | the worker lives if and only if the timer is armed, and if and only if no terminal event took effect; settled means cleaned up unless handing over the message threw |
| SignerOperation.TerminalExactlyUnlessSwallowed | packages/passkey/src/core/WebAuthnManager/signerWorkerManager.ts:107-117 | a terminal event that meets a live worker leaves it alive, timer and promise unchanged, if and only if it is a verification of which the callback throws |
| RelayQueue.AccountService.QueueTransaction | relay-server/src/accountService.ts:241-246 | counts the operation as pending and chains it last |
| RelayQueue.AccountService.Settle | relay-server/src/accountService.ts:247-262 | moves the operation from pending to completed or failed |
| RelayQueue.OneAtATimeInOrder | relay-server/src/accountService.ts:241-268 | over every interleaving: at most one operation runs, in submission order, and pending + completed + failed is the number submitted |
| RelayQueue.AlwaysSomethingDue | relay-server/src/accountService.ts:241-268 | as long as a job is unsettled one is running or a reaction is due |
| RelayQueue.NeverAChoice | relay-server/src/accountService.ts:241-268 | at most one job is running or may react at any time, so submission order is the only order |
| RelayQueue.OwnResult | relay-server/src/accountService.ts:247-268 | a job that finished did so with the result its own operation ended with |
| RelayQueue.NothingRunsAfterRejection | relay-server/src/accountService.ts:261-268 | after a first rejection nothing runs again whatever happens; every later caller can only get that error and stays counted as pending |
| RelayQueue.NoneSkippedWithoutRejection | relay-server/src/accountService.ts:241-268 | while none rejects no job is passed over |
| RelayQueue.CreateAccount | relay-server/src/accountService.ts:97-205 | the queued operation succeeds if and only if everything does; it rejects if and only if something fails and the error event, whose place follows from emitter and request, throws too; it reports failure for an account that exists if and only if an event after the transaction throws |
| ClientDb.Database.DeleteAllAuthenticatorsForUser | packages/passkey/src/core/IndexedDBManager/passkeyClientDB.ts:421-438 | success removes exactly the account's rows; a failure removes at most some of them |
| ClientDb.Database.StoreUser | packages/passkey/src/core/IndexedDBManager/passkeyClientDB.ts:264-273 | stores the row and makes the account the last user; the row is there if and only if the id is valid and the put does not fail |
| ClientDb.Database.UpdateUser | packages/passkey/src/core/IndexedDBManager/passkeyClientDB.ts:234-244 | merges into an existing row and leaves an account without one alone |
| ClientDb.Database.RollbackUserRegistration | packages/passkey/src/core/IndexedDBManager/passkeyClientDB.ts:459-477 | success removes exactly the account's user and authenticator rows and never leaves it as last user |
| ClientDb.Database.SyncAuthenticatorsFromContract | packages/passkey/src/core/IndexedDBManager/passkeyClientDB.ts:385-414 | success replaces the account's rows by the contract's list; other accounts keep theirs in any case |
| ClientDb.SyncedKeys | packages/passkey/src/core/IndexedDBManager/passkeyClientDB.ts:385-414 | after a sync the account has a row for each listed credential and no other |
| ClientDb.SyncedIsTheList | packages/passkey/src/core/IndexedDBManager/passkeyClientDB.ts:400-413 | with distinct ids each row is the listed one |
| ClientDb.MergePrefersUpdates | packages/passkey/src/core/IndexedDBManager/passkeyClientDB.ts:234-244 | a merged row has every field of both, the update's value where it has one |
| ClientDb.RollbackIsThorough | packages/passkey/src/core/IndexedDBManager/passkeyClientDB.ts:459-477 | a rollback leaves no row of the account, touches no other and no other last user, and is idempotent |
| ClientDb.RollbackRestoresExactlyWhenNobodyWasLast | packages/passkey/src/core/IndexedDBManager/passkeyClientDB.ts:459-477 | rolling back a registration gives the stores back if and only if the account was new and there was no last user |
| Registration.Attempt.RegisterPasskey | packages/passkey/src/core/PasskeyManager/registration.ts:32-375 | for every pattern of failures: the steps keep to the plan of the source, in order, and success is exactly that all of them succeeded; each flag is up if and only if its step has succeeded, at every step; stored implies registered implies created and deletable; a failed call goes through the whole rollback its flags ask for, database before account, and then the report, unless an event or the database rollback fails on the way; a database rollback leaves no row of the account; without the stored flag there is no database rollback, and a new account's user row is left if and only if storing was reached, the id is valid and the first put did not fail |
| Registration.DoneIsPlanned | packages/passkey/src/core/PasskeyManager/registration.ts:52-341 | entries that each attempt the step next in the plan succeed in the order of the plan |
| Registration.LaterFailureLeavesRows | packages/passkey/src/core/WebAuthnManager/index.ts:586-619 | an input: with only the fourth database request failing the rows stay and no database rollback is attempted |
| Registration.Attempt.Compensate | packages/passkey/src/core/PasskeyManager/registration.ts:535-618 | the compensations are a prefix of those due; unless an event or the database rollback fails the rollback goes through exactly the steps its flags ask for; the deletion is not sent before the stored rows are gone |
| Registration.Attempt.StoreRegistration | packages/passkey/src/core/WebAuthnManager/index.ts:572-632 | other accounts' rows are untouched; the user row is written if and only if the id is valid and the first put does not fail; when it passes or only its own event throws, the user row with the WebAuthn data merged in and the passkey row are there and the account is the last user |
| Registration.Attempt.WaitForAccessKey | packages/passkey/src/core/PasskeyManager/registration.ts:481-514 | stops at the first successful look and gives up after exactly ten failed ones |
| Decimal.ToStringIsInjective | packages/passkey/src/core/WebAuthnManager/vrfWorkerManager.ts:124-126 | different numbers print differently |
| Decimal.ValueInvertsToString | packages/passkey/src/core/WebAuthnManager/vrfWorkerManager.ts:124-126 | a printed number is digits and denotes that number |
| Decimal.NoLeadingZero | packages/passkey/src/core/WebAuthnManager/vrfWorkerManager.ts:124-126 | no printed number but 0 starts with a zero |
| YoctoNear.PlainAmountsScale | frontend/src/components/GreetingMenu.tsx:135-141 | for every plain decimal amount the result is a digit string whose value is the floor of the amount times 10^24, exactly the product with at most 24 fraction digits |
| YoctoNear.DigitsExactlyForPlain | frontend/src/components/GreetingMenu.tsx:135-141 | of the texts a positive number prints as, exactly the plain ones give a digit string |
| YoctoNear.SmallAmountsFail | frontend/src/components/GreetingMenu.tsx:135-141 | "1e-7" is an amount that does not convert |

## Left out

- Bits.And: operands are non-negative and below 2^31. On negative numbers IntCodec takes `& 0xFF` as the residue modulo
  256 of the 32-bit value.
- Hashing, ECVRF, P-256, Ed25519, DER, CBOR and JSON parsing, account id syntax: parameters of the theorems.
- WASM internals behind `handle_message` and the signing functions: a reply is assumed to carry the id of its request.
- IntCodec.WriteIntLE: over unbounded integers; a JavaScript number is exact only for the widths 1 to 6 the Buffer
  interface offers. Offsets are natural numbers, and the `noAssert` variants are not modelled.
- WasmStrings.WasmMemory.PassString: memory is a sequence that only grows, so detached views and 32-bit pointer
  overflow do not occur; malloc and realloc are one allocator that meets the contracts the string code relies on.
- ByteSearch.BidirectionalIndexOf: single-byte mode with whole-number offsets; the ucs2 mode, fractional offsets and
  string patterns (which are first turned into bytes) are not modelled. The built-in typed array search used for
  number patterns is taken to be the same search.
- Base64Codec.Base64UrlDecode: atob is defined after the WHATWG Infra Standard's forgiving-base64 decode; a string
  longer than the engine's limits is not modelled.
- Utf8Codec.Utf8Slice: the engine's limit on argument counts, the reason for the chunks, is not modelled.
- AuthData.ParseAuthenticatorData: the extension data flag is not looked at, as in the source.
- ContractState.State: storage prefixes, gas, promises, logging, greeting, contract name and `create_user_account`;
  sets and maps stand for the iterable collections, without their order.
- SignerOperation.Operation.OnMessage: a terminated worker is taken to deliver nothing more.
- VrfManager.Manager.Operate: worker creation, the retrying communication check and a missing worker are left out;
  the code that waits on a reply is taken to go on directly after it.
- RelayQueue.AccountService.React: promise reactions are single steps; the extra turns of the event loop between the
  handler and the rethrowing catch are not visible. RPC calls are the outcome of an operation.
- ClientDb.Database.UpdateUser: updates are merged by field name and never rename the account; opening the database,
  schema upgrades and the failure of a transaction's commit are left out. Where a delete of a loop fails, the model
  keeps the earlier ones; a browser aborts that transaction and restores them. The contracts hold in both cases.
- Registration.Attempt.RegisterPasskey: deriving the keys and the read-only contract check are one step, and so are
  extracting the COSE key between the writes, the faucet call, whose own events are inside it, and the signing call; a
  validation that fails also reports to the error callback, inside its step. The waiting times between looks for the
  access key are not modelled.
- HTTP and SSE routes, RPC clients, browser prompts, React components, IEEE 754 reads and writes, `shortenString`,
  type guards and action builders: input and output, or easy members.
