# Octra wallet facade, modelled in Dafny

The model covers the wallet facade of the Octra wallet (`src/utils/wallet.ts`). The facade has three entry points:

- `generateWallet` draws random mnemonics and makes at most 50 attempts.
  It returns the first derived wallet whose address is exactly 47 UTF-16 code units long (JavaScript's `length`).
  A wrong-length address and a thrown error both count as a failed attempt.
- `importWalletFromPrivateKey` trims the key and decodes it as base64.
  It requires 32 bytes, derives the Ed25519 key pair and the address, and returns a wallet without a mnemonic.
- `importWalletFromMnemonic` trims the phrase and splits it on runs of white space.
  It requires 12 or 24 words, has the checksum validated, and returns the derived wallet.
  Unlike generation, it does not check the address length.

The facade calls several collaborators whose algorithms are not modelled:

- the `crypto` helpers: mnemonic validation, derivation from a mnemonic, address creation, base64 and hex encoding;
- `nacl.sign.keyPair.fromSeed`;
- Node's base64 decoder.

They are fields of the `Crypto.Collaborators` record: deterministic functions chosen by the caller. `fromBase64`, `walletFromMnemonic` and `createAddress`, which can throw or reject, return `None` in that case; the others are total (see "Left out"). The random mnemonic generator is a stream `draw`, where `draw(k)` is what attempt `k` draws (`None` when it threw). A thrown error of the facade is an `Err` value of `WalletFacade.Result`.

Files:

- `js_text.dfy` (`JsText`): JavaScript `trim` and `split(/\s+/)` over the ECMAScript white-space set, and the UTF-16 `length`, with their characterising lemmas.
- `crypto.dfy` (`Crypto`): the collaborator record and the byte and record types.
- `wallet.dfy` (`WalletFacade`): the three entry points and the properties proved about them.

`generateWallet` is an imperative method with a `while` loop that updates the attempt counter and the log. It is proved equal to the recursive function `Generation`, and the lemmas about that function state the loop's outcome. The two imports are straight-line pipelines, so they are pure functions.

Where the code does not do what a plain reading of its intent suggests, the model follows the code:

- `importWalletFromPrivateKey` throws the length error inside the same `try` that catches decode errors. So a key that decodes to the wrong number of bytes is reported with the format error, and the length error never reaches the caller. The model keeps the inner error (`DecodeSeed`) and maps it to `InvalidPrivateKeyFormat`, as the `catch` does.
- `importWalletFromMnemonic` trims the phrase only to count its words. The checksum test and the derivation get the phrase exactly as passed.
- `generateWallet` copies `privateKey` (like every other field) from the derivation result. It does not re-encode the seed itself.
- The empty or blank phrase splits into one empty word (`"".split(/\s+/)` is `[""]`), so it fails with the length error.

## Model

| member | source | states |
|---|---|---|
| WalletFacade.GenerateWallet | src/utils/wallet.ts:5-33 | the loop returns exactly what `Generation` defines; a returned address is 47 UTF-16 code units long; failure is the exhaustion error after exactly 50 logged failed attempts; never more than 50 attempts are logged |
| WalletFacade.GenerateFrom | src/utils/wallet.ts:9-30 | from attempt `k` on, at most `50 - k` failures are logged; a success has an address of 47 UTF-16 code units; a failure is the exhaustion error after all remaining attempts failed |
| WalletFacade.GenerationOutcome | src/utils/wallet.ts:9-32 | the log records, in order, why each attempt failed; generation fails exactly when 50 attempts failed; otherwise the attempt right after the logged ones was accepted and its derivation result, copied field by field, is the wallet returned |
| WalletFacade.GenerationExhaustedIffAllFail | src/utils/wallet.ts:24-32 | the exhaustion error is raised if and only if every one of the 50 attempts failed |
| WalletFacade.FirstAcceptedAttemptWins | src/utils/wallet.ts:10-29 | failed attempts, whether the length was wrong or something threw, do not end the loop: the first accepted attempt within the bound supplies the wallet, after one logged failure per earlier attempt |
| WalletFacade.GenerationBounded | src/utils/wallet.ts:6-9 | generation depends only on the first 50 mnemonics drawn: no attempt past the bound is made |
| WalletFacade.DecodeSeed | src/utils/wallet.ts:42-46 | decoding succeeds exactly when the trimmed key decodes to 32 bytes, and yields those bytes; otherwise it is the format error when base64 decoding threw and the length error when it produced another length |
| WalletFacade.ImportFromPrivateKey | src/utils/wallet.ts:35-65 | only the format and the wallet-creation errors surface; the format error exactly when the trimmed key does not decode to 32 bytes; the creation error exactly when it does and no address can be created; on success no mnemonic, the seed re-encoded as base64, the public key of that seed in hex, and its address with no length check |
| WalletFacade.WrongLengthReportedAsFormatError | src/utils/wallet.ts:42-49 | a key decoding to a length other than 32 raises the length error inside the `try`, and the caller sees the format error |
| WalletFacade.PrivateKeyPaddingIgnored | src/utils/wallet.ts:36 | white space around a private key does not change the outcome of its import |
| WalletFacade.ImportEncodedSeed | src/utils/wallet.ts:53-61 | with a base64 codec that round-trips seeds, importing the encoding of a 32-byte seed builds the wallet from that very seed |
| WalletFacade.ReimportPrivateKey | src/utils/wallet.ts:57-61 | the private key of a wallet imported from a private key imports back to the same wallet |
| WalletFacade.ImportFromMnemonic | src/utils/wallet.ts:67-86 | only the length, checksum and derivation errors surface; the length error exactly when the trimmed phrase does not have 12 or 24 words; the checksum error exactly when the count is right and validation fails; a derivation failure exactly when both checks pass and derivation rejects; success exactly when both checks pass and derivation succeeds, with every field copied unchanged from the derivation result |
| WalletFacade.BadWordCountDecidedFirst | src/utils/wallet.ts:68-72 | with a wrong word count the result is the length error whatever the collaborators do, so validation is never consulted |
| WalletFacade.PhraseLengthChecked | src/utils/wallet.ts:68-72 | a phrase of words separated by runs of any white space, padded with any white space, gets the length error if and only if it has neither 12 nor 24 words |
| WalletFacade.BlankMnemonicRejected | src/utils/wallet.ts:68-72 | an empty or blank phrase gets the length error |
| WalletFacade.MnemonicImportSkipsLengthCheck | src/utils/wallet.ts:78-85 | a phrase whose derived address is not 47 UTF-16 code units long is imported as it is, while a generation attempt drawing it is rejected |
| WalletFacade.RecoverGeneratedWallet | src/utils/wallet.ts:78-85 | importing the mnemonic a wallet was generated from, when it passes the import's checks, gives back the generated wallet |
| JsText.Trim | src/utils/wallet.ts:36 | the trimmed string is no longer than the input and neither starts nor ends with white space |
| JsText.TrimStartSpec | src/utils/wallet.ts:36 | removing leading white space leaves the suffix that starts at the first non-white-space character |
| JsText.TrimEndSpec | src/utils/wallet.ts:36 | removing trailing white space leaves the prefix that ends at the last non-white-space character |
| JsText.TrimIsStrippedInfix | src/utils/wallet.ts:36 | any cut of a string into white space, an unpadded middle and white space has exactly the trimmed string as its middle |
| JsText.TrimOfBlank | src/utils/wallet.ts:36 | a string of white space only trims to the empty string |
| JsText.TrimIgnoresPadding | src/utils/wallet.ts:36 | white space added at either end does not change the trimmed string |
| JsText.TrimKeepsUnpadded | src/utils/wallet.ts:36 | a string not starting or ending with white space is its own trim |
| JsText.SplitKeepsText | src/utils/wallet.ts:68 | the pieces contain no white space and concatenate to the input's non-white-space characters in order |
| JsText.SplitFirstPiece | src/utils/wallet.ts:68 | the first piece is empty exactly when the input starts with white space |
| JsText.SplitUnpaddedGivesWords | src/utils/wallet.ts:68 | a non-empty string without white space at its ends splits into non-empty words |
| JsText.SplitJoin | src/utils/wallet.ts:68 | words joined by non-empty runs of any white space split back into the same words |
| JsText.WordCountOfPhrase | src/utils/wallet.ts:68 | a phrase of words separated by runs of white space, with any white space around it, counts as many words as were joined |
| JsText.BlankIsOneWord | src/utils/wallet.ts:68 | a blank string trims to the empty string, which splits into one piece |
| JsText.Utf16LengthOfBmp | src/utils/wallet.ts:15 | for a string of Basic Multilingual Plane characters, such as an ASCII address, JavaScript's `length` is the number of characters |

## Left out

- `getWalletBalance`: a placeholder for a ledger query that returns a random floating-point number. It has no logic to model.
- The algorithms of `generateMnemonic`, `validateMnemonic`, `generateWalletFromMnemonic`, `createOctraAddress`, `bufferToBase64` and `bufferToHex`: their source (`src/utils/crypto.ts`) is not part of this model. They are deterministic parameters, and the random generator is the stream `draw`.
- `nacl.sign.keyPair.fromSeed` (section 5.1.5 of RFC 8032): a foreign library call, modelled as an uninterpreted total function. It throws only for a seed that is not 32 bytes, which the facade has already excluded.
- The leniency of Node's base64 decoder on invalid characters: decoding is an abstract partial function. `ImportEncodedSeed` and `ReimportPrivateKey` require only that encoding a 32-byte seed gives text without white space that decodes back to the seed.
- `console.warn` and `console.error`: the messages are not modelled. `GenerateWallet` returns the sequence of failures it would report, one per failed attempt, in order.
- Promises and `await`: every entry point is synchronous, and a rejection is an `Err` result or a `None` from the collaborator.
- Error messages and error objects: each thrown error is a `WalletError` constructor. `MnemonicDerivationFailed` stands for whatever `generateWalletFromMnemonic` rejects with, which the facade passes on unchanged.
- Wallet-creation failures other than `createOctraAddress` rejecting (a throw from `fromSeed` or from the encoders) are not modelled. These collaborators are total here, so `PrivateKeyWalletFailed` arises only from address creation.
- A throw from `validateMnemonic`: it is assumed never to throw and is a total predicate. Its call in `importWalletFromMnemonic` is outside any `try`, so such a throw would reach the caller unchanged.
- Strings are sequences of Unicode scalar values rather than UTF-16 code units. Every white-space character `trim` and `\s` match is a single code unit, so trimming and splitting are unaffected. The address-length check and the logged length use `Utf16Length`, which counts two units for a character outside the Basic Multilingual Plane, so they agree with JavaScript's `length`.
