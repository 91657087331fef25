/**
  The wallet facade of the Octra wallet: generating a fresh wallet by rejection
  sampling, and importing one from a raw private key or from a mnemonic phrase.
  A thrown error becomes an `Err` value; the collaborators and the random
  mnemonic generator are parameters.
 */
module WalletFacade {

  import opened JsText
  import opened Crypto

  /** The bound on generation attempts. */
  const MaxAttempts: nat := 50

  /** The only address length generation accepts, in UTF-16 code units as
      JavaScript's `length` counts them. */
  const AddressLength: nat := 47

  /** The phrase lengths a mnemonic import accepts: the BIP-39 word counts for
      128 and 256 bits of entropy. */
  predicate IsMnemonicWordCount(n: nat) {
    n == 12 || n == 24
  }

  /** The wallet record handed back to callers; `mnemonic` is the optional field. */
  datatype Wallet = Wallet(address: string, privateKey: string, publicKey: string, mnemonic: Option<string>)

  datatype WalletError =
    | /** "Failed to generate valid wallet after maximum attempts" */
      GenerationExhausted
    | /** "Invalid private key length. Must be 32 bytes in base64 format." (never surfaces) */
      InvalidPrivateKeyLength
    | /** "Invalid private key format. Must be valid base64." */
      InvalidPrivateKeyFormat
    | /** "Failed to create wallet from private key" */
      PrivateKeyWalletFailed
    | /** "Invalid mnemonic length. Must be 12 or 24 words." */
      InvalidMnemonicLength
    | /** "Invalid mnemonic phrase" */
      InvalidMnemonicPhrase
    | /** whatever `generateWalletFromMnemonic` rejected with, passed on unchanged */
      MnemonicDerivationFailed

  datatype Result<T> = Ok(value: T) | Err(error: WalletError)

  /** Every field of the derivation result copied unchanged, the mnemonic present. */
  function FromWalletData(d: WalletData): Wallet {
    Wallet(d.address, d.privateKey, d.publicKey, Some(d.mnemonic))
  }

  // ---------------------------------------------------------------- generateWallet

  /** Why one generation attempt failed and was logged: an address of the wrong
      length (the warning branch) or an error thrown inside the attempt (the
      catch branch). */
  datatype Failure = WrongLength(length: nat) | Threw

  datatype Attempt = Accepted(data: WalletData) | Failed(failure: Failure)

  /** One pass of the loop body. `drawn` is what `generateMnemonic` produced on
      this attempt, `None` when it threw. */
  function RunAttempt(c: Collaborators, drawn: Option<string>): Attempt {
    match drawn
    case None => Failed(Threw)
    case Some(mnemonic) =>
      match c.walletFromMnemonic(mnemonic)
      case None => Failed(Threw)
      case Some(data) =>
        if Utf16Length(data.address) == AddressLength then Accepted(data) else Failed(WrongLength(Utf16Length(data.address)))
  }

  /** The loop from attempt `k` on: the outcome, and the failures logged on the way. */
  function GenerateFrom(c: Collaborators, draw: nat -> Option<string>, k: nat): (out: (Result<Wallet>, seq<Failure>))
    requires k <= MaxAttempts
    ensures |out.1| <= MaxAttempts - k
    ensures out.0.Ok? ==> Utf16Length(out.0.value.address) == AddressLength
    ensures out.0.Err? ==> out.0.error == GenerationExhausted && |out.1| == MaxAttempts - k
    decreases MaxAttempts - k
  {
    if k == MaxAttempts then
      (Err(GenerationExhausted), [])
    else
      match RunAttempt(c, draw(k))
      case Accepted(data) => (Ok(FromWalletData(data)), [])
      case Failed(f) =>
        var rest := GenerateFrom(c, draw, k + 1);
        (rest.0, [f] + rest.1)
  }

  /** What `generateWallet` returns and logs when `generateMnemonic` produces
      `draw(k)` on attempt `k`. */
  function Generation(c: Collaborators, draw: nat -> Option<string>): (Result<Wallet>, seq<Failure>) {
    GenerateFrom(c, draw, 0)
  }

  /** `generateWallet`. The returned log holds one entry per failed attempt, in
      order: the warnings and errors the source writes to the console. */
  method GenerateWallet(c: Collaborators, draw: nat -> Option<string>) returns (r: Result<Wallet>, log: seq<Failure>)
    ensures (r, log) == Generation(c, draw)
    ensures r.Ok? ==> Utf16Length(r.value.address) == AddressLength
    ensures r.Err? ==> r.error == GenerationExhausted && |log| == MaxAttempts
    ensures |log| <= MaxAttempts
  {
    var attempts := 0;
    log := [];
    LoopStarts(c, draw);
    while attempts < MaxAttempts
      invariant attempts <= MaxAttempts
      invariant LoggedSoFar(c, draw, attempts, log)
    {
      var failure: Failure;
      var drawn := draw(attempts);
      if drawn.Some? {
        var walletData := c.walletFromMnemonic(drawn.value);
        if walletData.Some? {
          if Utf16Length(walletData.value.address) == AddressLength {
            AcceptedAttemptEndsLoop(c, draw, attempts, log, walletData.value);
            return Ok(FromWalletData(walletData.value)), log;
          }
          failure := WrongLength(Utf16Length(walletData.value.address));
        } else {
          failure := Threw;
        }
      } else {
        failure := Threw;
      }
      assert RunAttempt(c, drawn) == Failed(failure);
      FailedAttemptIsLogged(c, draw, attempts, log, failure);
      log := log + [failure];
      attempts := attempts + 1;
    }
    LoopExhausted(c, draw, log);
    r := Err(GenerationExhausted);
  }

  /** The loop invariant of `GenerateWallet`: after `k` failed attempts logged
      as `log`, what is left to run is generation from attempt `k`. */
  ghost predicate LoggedSoFar(c: Collaborators, draw: nat -> Option<string>, k: nat, log: seq<Failure>)
    requires k <= MaxAttempts
  {
    && |log| == k
    && Generation(c, draw).0 == GenerateFrom(c, draw, k).0
    && Generation(c, draw).1 == log + GenerateFrom(c, draw, k).1
  }

  lemma LoopStarts(c: Collaborators, draw: nat -> Option<string>)
    ensures LoggedSoFar(c, draw, 0, [])
  {
    assert [] + GenerateFrom(c, draw, 0).1 == GenerateFrom(c, draw, 0).1;
  }

  lemma LoopExhausted(c: Collaborators, draw: nat -> Option<string>, log: seq<Failure>)
    requires LoggedSoFar(c, draw, MaxAttempts, log)
    ensures Generation(c, draw) == (Err(GenerationExhausted), log)
  {
    assert log + [] == log;
  }

  lemma AcceptedAttemptEndsLoop(c: Collaborators, draw: nat -> Option<string>, k: nat, log: seq<Failure>, data: WalletData)
    requires k < MaxAttempts && LoggedSoFar(c, draw, k, log)
    requires draw(k).Some? && c.walletFromMnemonic(draw(k).value) == Some(data)
    requires Utf16Length(data.address) == AddressLength
    ensures Generation(c, draw) == (Ok(FromWalletData(data)), log)
  {
    assert GenerateFrom(c, draw, k) == (Ok(FromWalletData(data)), []);
    assert log + [] == log;
  }

  lemma FailedAttemptIsLogged(c: Collaborators, draw: nat -> Option<string>, k: nat, log: seq<Failure>, failure: Failure)
    requires k < MaxAttempts && LoggedSoFar(c, draw, k, log)
    requires RunAttempt(c, draw(k)) == Failed(failure)
    ensures LoggedSoFar(c, draw, k + 1, log + [failure])
  {
    GenerateFromFailedStep(c, draw, k, failure);
    var whole := Generation(c, draw).1;
    var rest := GenerateFrom(c, draw, k + 1).1;
    assert whole == log + ([failure] + rest);
    SeqAppendAssoc(log, [failure], rest);
  }

  lemma SeqAppendAssoc<T>(a: seq<T>, b: seq<T>, d: seq<T>)
    ensures a + (b + d) == (a + b) + d
  {
  }

  lemma GenerateFromFailedStep(c: Collaborators, draw: nat -> Option<string>, k: nat, failure: Failure)
    requires k < MaxAttempts && RunAttempt(c, draw(k)) == Failed(failure)
    ensures GenerateFrom(c, draw, k).0 == GenerateFrom(c, draw, k + 1).0
    ensures GenerateFrom(c, draw, k).1 == [failure] + GenerateFrom(c, draw, k + 1).1
  {
  }

  /** Attempt `i` is the first one whose address has the right length. */
  ghost predicate FirstAccepted(c: Collaborators, draw: nat -> Option<string>, i: nat) {
    && i < MaxAttempts
    && RunAttempt(c, draw(i)).Accepted?
    && forall j :: 0 <= j < i ==> RunAttempt(c, draw(j)).Failed?
  }

  lemma {:induction false} GenerateFromOutcome(c: Collaborators, draw: nat -> Option<string>, k: nat)
    requires k <= MaxAttempts
    ensures var (r, log) := GenerateFrom(c, draw, k);
      && (forall j :: 0 <= j < |log| ==> RunAttempt(c, draw(k + j)) == Failed(log[j]))
      && (r.Err? <==> k + |log| == MaxAttempts)
      && (r.Ok? ==> RunAttempt(c, draw(k + |log|)).Accepted?
                    && r.value == FromWalletData(RunAttempt(c, draw(k + |log|)).data))
    decreases MaxAttempts - k
  {
    if k < MaxAttempts && RunAttempt(c, draw(k)).Failed? {
      GenerateFromOutcome(c, draw, k + 1);
      var log := GenerateFrom(c, draw, k).1;
      var rest := GenerateFrom(c, draw, k + 1).1;
      assert log == [RunAttempt(c, draw(k)).failure] + rest;
      forall j | 0 <= j < |log| ensures RunAttempt(c, draw(k + j)) == Failed(log[j]) {
        if j > 0 {
          assert log[j] == rest[j - 1];
          assert k + j == (k + 1) + (j - 1);
        }
      }
    }
  }

  /** The outcome of generation in full: the log records, in order, why each
      logged attempt failed; generation fails exactly when all
      `MaxAttempts` attempts failed; otherwise the attempt right after the
      logged ones was accepted and its wallet data is what is returned. */
  lemma GenerationOutcome(c: Collaborators, draw: nat -> Option<string>)
    ensures var (r, log) := Generation(c, draw);
      && |log| <= MaxAttempts
      && (forall j :: 0 <= j < |log| ==> RunAttempt(c, draw(j)) == Failed(log[j]))
      && (r.Err? <==> |log| == MaxAttempts)
      && (r.Ok? ==> |log| < MaxAttempts && RunAttempt(c, draw(|log|)).Accepted?
                    && r.value == FromWalletData(RunAttempt(c, draw(|log|)).data))
  {
    GenerateFromOutcome(c, draw, 0);
    var log := Generation(c, draw).1;
    forall j | 0 <= j < |log| ensures RunAttempt(c, draw(j)) == Failed(log[j]) {
      assert 0 + j == j;
    }
  }

  /** Generation gives up exactly when every one of the `MaxAttempts` attempts failed. */
  lemma GenerationExhaustedIffAllFail(c: Collaborators, draw: nat -> Option<string>)
    ensures Generation(c, draw).0.Err? <==> forall j :: 0 <= j < MaxAttempts ==> RunAttempt(c, draw(j)).Failed?
  {
    GenerationOutcome(c, draw);
  }

  /** Failed attempts, whether an address had the wrong length or something
      threw, do not end the loop: the first accepted attempt within the bound
      supplies the wallet, after one logged failure per earlier attempt. */
  lemma FirstAcceptedAttemptWins(c: Collaborators, draw: nat -> Option<string>, i: nat)
    requires FirstAccepted(c, draw, i)
    ensures Generation(c, draw).0 == Ok(FromWalletData(RunAttempt(c, draw(i)).data))
    ensures |Generation(c, draw).1| == i
  {
    GenerationOutcome(c, draw);
  }

  lemma {:induction false} GenerateFromAgrees(c: Collaborators, d1: nat -> Option<string>, d2: nat -> Option<string>, k: nat)
    requires k <= MaxAttempts
    requires forall j :: k <= j < MaxAttempts ==> d1(j) == d2(j)
    ensures GenerateFrom(c, d1, k) == GenerateFrom(c, d2, k)
    decreases MaxAttempts - k
  {
    if k < MaxAttempts {
      assert d1(k) == d2(k);
      GenerateFromAgrees(c, d1, d2, k + 1);
    }
  }

  /** No attempt past the bound is ever made: generation depends only on the
      first `MaxAttempts` mnemonics drawn. */
  lemma GenerationBounded(c: Collaborators, d1: nat -> Option<string>, d2: nat -> Option<string>)
    requires forall j :: 0 <= j < MaxAttempts ==> d1(j) == d2(j)
    ensures Generation(c, d1) == Generation(c, d2)
  {
    GenerateFromAgrees(c, d1, d2, 0);
  }

  // ---------------------------------------------------------------- importWalletFromPrivateKey

  /** The trimmed key decodes as base64 to exactly `SeedLength` bytes. */
  predicate DecodesToSeed(c: Collaborators, cleanKey: string) {
    c.fromBase64(cleanKey).Some? && |c.fromBase64(cleanKey).value| == SeedLength
  }

  /** The first `try` block: decode the trimmed key, then demand 32 bytes. */
  function DecodeSeed(c: Collaborators, cleanKey: string): (r: Result<seq<byte>>)
    ensures r.Ok? <==> DecodesToSeed(c, cleanKey)
    ensures r.Ok? ==> c.fromBase64(cleanKey) == Some(r.value)
    ensures r.Err? ==> (r.error == InvalidPrivateKeyFormat <==> c.fromBase64(cleanKey).None?)
    ensures r.Err? ==> (r.error == InvalidPrivateKeyLength <==> c.fromBase64(cleanKey).Some?)
  {
    match c.fromBase64(cleanKey)
    case None => Err(InvalidPrivateKeyFormat)
    case Some(keyBuffer) =>
      if |keyBuffer| != SeedLength then Err(InvalidPrivateKeyLength) else Ok(keyBuffer)
  }

  /** `w` is the wallet built from `seed`: no mnemonic, the seed re-encoded as
      base64, the derived public key in hex and the address derived from it. */
  ghost predicate BuiltFromSeed(c: Collaborators, seed: seq<byte>, w: Wallet) {
    var publicKey := c.keyPairFromSeed(seed).publicKey;
    && w.mnemonic == None
    && w.privateKey == c.toBase64(seed)
    && w.publicKey == c.toHex(publicKey)
    && c.createAddress(publicKey) == Some(w.address)
  }

  /** `importWalletFromPrivateKey`. Every failure of the first `try` block, the
      length error included, surfaces as the format error; the address is not
      checked against `AddressLength`. */
  function ImportFromPrivateKey(c: Collaborators, privateKey: string): (r: Result<Wallet>)
    ensures r.Err? ==> r.error == InvalidPrivateKeyFormat || r.error == PrivateKeyWalletFailed
    ensures r == Err(InvalidPrivateKeyFormat) <==> !DecodesToSeed(c, Trim(privateKey))
    ensures r == Err(PrivateKeyWalletFailed) <==>
      DecodesToSeed(c, Trim(privateKey))
      && c.createAddress(c.keyPairFromSeed(c.fromBase64(Trim(privateKey)).value).publicKey).None?
    ensures r.Ok? ==> DecodesToSeed(c, Trim(privateKey)) && BuiltFromSeed(c, c.fromBase64(Trim(privateKey)).value, r.value)
  {
    var cleanKey := Trim(privateKey);
    match DecodeSeed(c, cleanKey)
    case Err(_) => Err(InvalidPrivateKeyFormat)
    case Ok(keyBuffer) =>
      var keyPair := c.keyPairFromSeed(keyBuffer);
      var publicKey := keyPair.publicKey;
      match c.createAddress(publicKey)
      case None => Err(PrivateKeyWalletFailed)
      case Some(address) => Ok(Wallet(address, c.toBase64(keyBuffer), c.toHex(publicKey), None))
  }

  /** A key that decodes to the wrong number of bytes raises the length error,
      which the enclosing `catch` replaces by the format error. */
  lemma WrongLengthReportedAsFormatError(c: Collaborators, privateKey: string)
    requires c.fromBase64(Trim(privateKey)).Some?
    requires |c.fromBase64(Trim(privateKey)).value| != SeedLength
    ensures DecodeSeed(c, Trim(privateKey)) == Err(InvalidPrivateKeyLength)
    ensures ImportFromPrivateKey(c, privateKey) == Err(InvalidPrivateKeyFormat)
  {
  }

  /** White space around the key makes no difference. */
  lemma {:induction false} PrivateKeyPaddingIgnored(c: Collaborators, pre: string, privateKey: string, post: string)
    requires AllWhitespace(pre) && AllWhitespace(post)
    ensures ImportFromPrivateKey(c, pre + privateKey + post) == ImportFromPrivateKey(c, privateKey)
  {
    TrimIgnoresPadding(pre, privateKey, post);
  }

  /** Importing the base64 encoding of a 32-byte seed derives the key pair and
      address from that very seed. */
  lemma ImportEncodedSeed(c: Collaborators, seed: seq<byte>)
    requires Base64RoundTrips(c) && |seed| == SeedLength
    ensures var publicKey := c.keyPairFromSeed(seed).publicKey;
      ImportFromPrivateKey(c, c.toBase64(seed)) ==
        match c.createAddress(publicKey)
        case None => Err(PrivateKeyWalletFailed)
        case Some(address) => Ok(Wallet(address, c.toBase64(seed), c.toHex(publicKey), None))
  {
  }

  /** The private key of an imported wallet imports back to the same wallet. */
  lemma ReimportPrivateKey(c: Collaborators, privateKey: string, w: Wallet)
    requires Base64RoundTrips(c)
    requires ImportFromPrivateKey(c, privateKey) == Ok(w)
    ensures ImportFromPrivateKey(c, w.privateKey) == Ok(w)
  {
  }

  // ---------------------------------------------------------------- importWalletFromMnemonic

  /** `importWalletFromMnemonic`. Only the word count sees the trimmed phrase;
      the checksum test and the derivation get the phrase as given. The address
      is not checked against `AddressLength`. */
  function ImportFromMnemonic(c: Collaborators, mnemonic: string): (r: Result<Wallet>)
    ensures r == Err(InvalidMnemonicLength) <==> !IsMnemonicWordCount(WordCount(mnemonic))
    ensures r == Err(InvalidMnemonicPhrase) <==>
      IsMnemonicWordCount(WordCount(mnemonic)) && !c.validateMnemonic(mnemonic)
    ensures r == Err(MnemonicDerivationFailed) <==>
      IsMnemonicWordCount(WordCount(mnemonic)) && c.validateMnemonic(mnemonic) && c.walletFromMnemonic(mnemonic).None?
    ensures r.Err? ==> r.error in {InvalidMnemonicLength, InvalidMnemonicPhrase, MnemonicDerivationFailed}
    ensures r.Ok? <==>
      IsMnemonicWordCount(WordCount(mnemonic)) && c.validateMnemonic(mnemonic) && c.walletFromMnemonic(mnemonic).Some?
    ensures r.Ok? ==> r.value == FromWalletData(c.walletFromMnemonic(mnemonic).value)
  {
    var words := Split(Trim(mnemonic));
    if |words| != 12 && |words| != 24 then
      Err(InvalidMnemonicLength)
    else if !c.validateMnemonic(mnemonic) then
      Err(InvalidMnemonicPhrase)
    else
      match c.walletFromMnemonic(mnemonic)
      case None => Err(MnemonicDerivationFailed)
      case Some(walletData) => Ok(FromWalletData(walletData))
  }

  /** The word count is checked before anything is asked of the collaborators:
      with a wrong count the outcome is the length error whatever they would do. */
  lemma BadWordCountDecidedFirst(c1: Collaborators, c2: Collaborators, mnemonic: string)
    requires !IsMnemonicWordCount(WordCount(mnemonic))
    ensures ImportFromMnemonic(c1, mnemonic) == ImportFromMnemonic(c2, mnemonic) == Err(InvalidMnemonicLength)
  {
  }

  /** A phrase of words separated by runs of any white space, padded with any
      white space, is rejected for its length unless it has 12 or 24 words. */
  lemma {:induction false} PhraseLengthChecked(c: Collaborators, pre: string, words: seq<string>, seps: seq<string>, post: string)
    requires |words| >= 1 && forall k :: 0 <= k < |words| ==> IsWord(words[k])
    requires |seps| == |words| - 1 && AreSeparators(seps)
    requires AllWhitespace(pre) && AllWhitespace(post)
    ensures ImportFromMnemonic(c, pre + JoinWith(words, seps) + post) == Err(InvalidMnemonicLength)
            <==> !IsMnemonicWordCount(|words|)
  {
    WordCountOfPhrase(pre, words, seps, post);
  }

  /** An empty or blank phrase splits into one (empty) word and so fails the count. */
  lemma {:induction false} BlankMnemonicRejected(c: Collaborators, mnemonic: string)
    requires AllWhitespace(mnemonic)
    ensures ImportFromMnemonic(c, mnemonic) == Err(InvalidMnemonicLength)
  {
    BlankIsOneWord(mnemonic);
  }

  /** The asymmetry with generation: a phrase whose derived address has the
      wrong length is imported as it is, where a generation attempt drawing the
      same phrase would be rejected and retried. */
  lemma MnemonicImportSkipsLengthCheck(c: Collaborators, mnemonic: string, d: WalletData)
    requires IsMnemonicWordCount(WordCount(mnemonic)) && c.validateMnemonic(mnemonic)
    requires c.walletFromMnemonic(mnemonic) == Some(d) && Utf16Length(d.address) != AddressLength
    ensures ImportFromMnemonic(c, mnemonic) == Ok(FromWalletData(d))
    ensures RunAttempt(c, Some(mnemonic)) == Failed(WrongLength(Utf16Length(d.address)))
  {
  }

  /** A generated wallet is recovered by importing the phrase it was generated
      from, when that phrase passes the import's checks. */
  lemma {:induction false} RecoverGeneratedWallet(c: Collaborators, draw: nat -> Option<string>, i: nat)
    requires draw(i).Some? && FirstAccepted(c, draw, i)
    requires IsMnemonicWordCount(WordCount(draw(i).value)) && c.validateMnemonic(draw(i).value)
    ensures ImportFromMnemonic(c, draw(i).value) == Generation(c, draw).0
  {
    FirstAcceptedAttemptWins(c, draw, i);
  }
}
