/**
  The collaborators the wallet facade calls but whose algorithms are not part
  of this model: the mnemonic and address helpers of the `crypto` module, the
  Ed25519 seed-to-key-pair derivation of `tweetnacl`, and Node's base64 and hex
  buffer codecs. Each is a deterministic function supplied by the caller; one
  that can throw or reject returns `None` for that outcome.
 */
module Crypto {

  import JsText

  datatype Option<T> = None | Some(value: T)

  newtype byte = x: int | 0 <= x < 256

  /** Length in bytes of an Ed25519 seed, the raw private key the facade imports. */
  const SeedLength: nat := 32

  /** The result of `nacl.sign.keyPair.fromSeed`. */
  datatype KeyPair = KeyPair(publicKey: seq<byte>, secretKey: seq<byte>)

  /** The record `generateWalletFromMnemonic` resolves to. */
  datatype WalletData = WalletData(address: string, privateKey: string, mnemonic: string, publicKey: string)

  datatype Collaborators = Collaborators(
    /** `validateMnemonic`: the word-list and checksum test of a phrase. */
    validateMnemonic: string -> bool,
    /** `generateWalletFromMnemonic`: seed, key pair and address from a phrase; `None` when it rejects. */
    walletFromMnemonic: string -> Option<WalletData>,
    /** `nacl.sign.keyPair.fromSeed`. */
    keyPairFromSeed: seq<byte> -> KeyPair,
    /** `createOctraAddress`: the address of a public key; `None` when it rejects. */
    createAddress: seq<byte> -> Option<string>,
    /** `bufferToBase64`. */
    toBase64: seq<byte> -> string,
    /** `bufferToHex`. */
    toHex: seq<byte> -> string,
    /** `Buffer.from(text, 'base64')`; `None` when it throws. */
    fromBase64: string -> Option<seq<byte>>)

  /** What a standard base64 codec guarantees for seeds: the encoding of a
      32-byte buffer has no white space and decodes back to the same buffer. */
  ghost predicate Base64RoundTrips(c: Collaborators) {
    forall b: seq<byte> :: |b| == SeedLength ==>
      JsText.NoWhitespace(c.toBase64(b)) && c.fromBase64(c.toBase64(b)) == Some(b)
  }
}
