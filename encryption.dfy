/** The seed-phrase encryptor (`SeedPhraseEncryptor` of
    src/crypto/encryption.py). The class keeps no state, so each of its
    methods is a function here. Randomness and the clock are parameters, and
    the library calls are the fields of a `Foreign.Primitives` value. */
module Encryption {
  import opened Wrappers
  import opened Bytes
  import opened Text
  import opened Base64
  import opened Json
  import opened Errors
  import opened Foreign

  // ---------------------------------------------------------------------
  // Constants
  // ---------------------------------------------------------------------

  /** PBKDF2 iteration count (OWASP 2023 recommendation). */
  const Pbkdf2Iterations: nat := 600000

  /** Salt length in bytes (256 bits). */
  const SaltLength: nat := 32

  /** Length of the PBKDF2 output, the raw Fernet key. */
  const KeyLength: nat := 32

  const MinPasswordLength: nat := 8

  const FormatVersion: string := "1.0"
  const AlgorithmName: string := "Fernet-AES128-CBC-HMAC"
  const KdfName: string := "PBKDF2-HMAC-SHA256"

  const EmptySeedphraseMessage: string := "La seed phrase ne peut pas être vide"
  const ShortPasswordMessage: string := "Le mot de passe doit contenir au moins 8 caractères"
  const EmptyDataMessage: string := "Les données chiffrées ne peuvent pas être vides"
  const EmptyPasswordMessage: string := "Le mot de passe ne peut pas être vide"
  const MissingSaltMessage: string := "Métadonnées invalides : sel manquant"
  const DecryptionFailedMessage: string := "Échec du déchiffrement. Mot de passe incorrect ou données corrompues."
  const FernetKeyMessage: string := "Fernet key must be 32 url-safe base64-encoded bytes."
  const InvalidFormatPrefix: string := "Format de fichier invalide : "
  const MissingFieldsMessage: string := InvalidFormatPrefix + "métadonnées ou données manquantes"
  const FormatOkMessage: string := "Format valide"

  /** The standard recovery-phrase lengths of BIP-39. */
  const ValidLengths: seq<nat> := [12, 15, 18, 21, 24]

  lemma IterationsText()
    ensures NatToString(Pbkdf2Iterations) == "600000"
  {
    assert NatToString(6) == "6";
    assert NatToString(60) == "60";
    assert NatToString(600) == "600";
    assert NatToString(6000) == "6000";
    assert NatToString(60000) == "60000";
  }

  // ---------------------------------------------------------------------
  // Key derivation and the Fernet key
  // ---------------------------------------------------------------------

  /** The 32 bytes PBKDF2-HMAC-SHA256 derives from the password's UTF-8
      encoding and the salt, always with the class's iteration count. */
  function DerivedKeyBytes(p: Primitives, password: string, salt: bytes): bytes
  {
    p.pbkdf2HmacSha256(p.utf8Encode(password), salt, Pbkdf2Iterations, KeyLength)
  }

  /** `_derive_key`: the derived bytes in URL-safe base 64, as ASCII text.
      It reads back as the derived bytes, and is 44 characters long when
      those are 32 bytes (`DerivedKeyLength`). */
  function DeriveKey(p: Primitives, password: string, salt: bytes): (key: string)
    ensures Base64.Decode(UrlSafe, key) == Some(DerivedKeyBytes(p, password, salt))
    ensures |DerivedKeyBytes(p, password, salt)| == KeyLength ==> |key| == 44
  {
    var raw := DerivedKeyBytes(p, password, salt);
    DecodeEncode(UrlSafe, raw);
    var key := Base64.Encode(UrlSafe, raw);
    assert |raw| == KeyLength ==> |key| == 44 by {
      if |raw| == KeyLength { EncodedLength32(UrlSafe, raw); }
    }
    key
  }

  /** PBKDF2 is asked for 32 bytes, so the key text is 44 characters. */
  lemma DerivedKeyLength(p: Primitives, password: string, salt: bytes)
    requires Lawful(p)
    ensures |DerivedKeyBytes(p, password, salt)| == KeyLength
    ensures |DeriveKey(p, password, salt)| == 44
  {
    assert |p.pbkdf2HmacSha256(p.utf8Encode(password), salt, Pbkdf2Iterations, KeyLength)| == KeyLength;
  }

  /** `Fernet(key)`: the key must be URL-safe base 64 of exactly 32 bytes;
      any other key, undecodable or of another length, is refused with the
      library's `ValueError`. */
  function FernetKey(key: string): (r: Result<bytes, Error>)
    ensures r.Success? <==> Base64.Decode(UrlSafe, key).Some? && |Base64.Decode(UrlSafe, key).value| == 32
    ensures r.Success? ==> Base64.Decode(UrlSafe, key) == Some(r.value)
    ensures r.Failure? ==> r == Failure(ValueError(FernetKeyMessage))
  {
    match Base64.Decode(UrlSafe, key)
    case None => Failure(ValueError(FernetKeyMessage))
    case Some(raw) => if |raw| != 32 then Failure(ValueError(FernetKeyMessage)) else Success(raw)
  }

  /** A derived key is always accepted by Fernet, which then works with the
      derived bytes. */
  lemma FernetAcceptsDerivedKey(p: Primitives, password: string, salt: bytes)
    requires Lawful(p)
    ensures FernetKey(DeriveKey(p, password, salt)) == Success(DerivedKeyBytes(p, password, salt))
  {
    var raw := DerivedKeyBytes(p, password, salt);
    assert |raw| == KeyLength;
  }

  /** `base64.b64decode(value)` on a value taken out of a dictionary. */
  function StandardB64Decode(value: Json): (r: Result<bytes, Error>)
    ensures r.Success? <==> value.JString? && Base64.Decode(Standard, value.s).Some?
    ensures r.Success? ==> Base64.Decode(Standard, value.s) == Some(r.value)
    ensures !value.JString? ==> r == Failure(TypeError)
  {
    match value
    case JString(s) =>
      (match Base64.Decode(Standard, s)
       case None => Failure(Base64Error)
       case Some(b) => Success(b))
    case _ => Failure(TypeError)
  }

  // ---------------------------------------------------------------------
  // encrypt_seedphrase
  // ---------------------------------------------------------------------

  /** The metadata dictionary of a new envelope. */
  function NewMetadata(salt: bytes, timestamp: string): (m: Json)
    ensures m.JObject?
    ensures m.fields.Keys == {"version", "algorithm", "kdf", "iterations", "salt", "timestamp"}
  {
    JObject(map[
      "version" := JString(FormatVersion),
      "algorithm" := JString(AlgorithmName),
      "kdf" := JString(KdfName),
      "iterations" := JString(NatToString(Pbkdf2Iterations)),
      "salt" := JString(Base64.Encode(Standard, salt)),
      "timestamp" := JString(timestamp)])
  }

  lemma NewMetadataConstants(salt: bytes, timestamp: string)
    ensures var m := NewMetadata(salt, timestamp);
            && m.fields["version"] == JString("1.0")
            && m.fields["algorithm"] == JString("Fernet-AES128-CBC-HMAC")
            && m.fields["kdf"] == JString("PBKDF2-HMAC-SHA256")
            && m.fields["iterations"] == JString("600000")
  {
    IterationsText();
  }

  lemma NewMetadataRecords(salt: bytes, timestamp: string)
    ensures var m := NewMetadata(salt, timestamp);
            && m.fields["timestamp"] == JString(timestamp)
            && m.fields["salt"] == JString(Base64.Encode(Standard, salt))
            && Base64.Decode(Standard, m.fields["salt"].s) == Some(salt)
  {
    DecodeEncode(Standard, salt);
  }

  /** What the metadata of a new envelope records. */
  lemma NewMetadataFields(salt: bytes, timestamp: string)
    ensures var m := NewMetadata(salt, timestamp);
            && m.fields.Keys == {"version", "algorithm", "kdf", "iterations", "salt", "timestamp"}
            && m.fields["version"] == JString("1.0")
            && m.fields["algorithm"] == JString("Fernet-AES128-CBC-HMAC")
            && m.fields["kdf"] == JString("PBKDF2-HMAC-SHA256")
            && m.fields["iterations"] == JString("600000")
            && m.fields["timestamp"] == JString(timestamp)
            && m.fields["salt"] == JString(Base64.Encode(Standard, salt))
            && Base64.Decode(Standard, m.fields["salt"].s) == Some(salt)
  {
    NewMetadataConstants(salt, timestamp);
    NewMetadataRecords(salt, timestamp);
  }

  /** `encrypt_seedphrase(seedphrase, password)`, given the salt that
      `os.urandom(32)` returned, the initialisation vector and time Fernet
      reads, and the text of `datetime.now(UTC).isoformat()`.
      A blank seed phrase is refused first, then a password shorter than 8
      characters, and in both cases the result depends on nothing else (no
      key is derived). Otherwise the token is the Fernet encryption of the
      seed phrase under the key derived from this password and this salt, and
      the metadata has exactly six keys, records the constants, and records
      this salt in base 64. */
  function EncryptSeedphrase(p: Primitives, seedphrase: string, password: string,
                             salt: bytes, iv: bytes, time: int, timestamp: string)
    : (r: Result<(bytes, Json), Error>)
    ensures AllSpace(seedphrase) ==> r == Failure(ValueError(EmptySeedphraseMessage))
    ensures !AllSpace(seedphrase) && |password| < MinPasswordLength ==>
              r == Failure(ValueError(ShortPasswordMessage))
    ensures r.Success? ==>
              && !AllSpace(seedphrase) && |password| >= MinPasswordLength
              && r.value.0 == p.fernetEncrypt(DerivedKeyBytes(p, password, salt), p.utf8Encode(seedphrase), iv, time)
              && var m := r.value.1;
              && m.JObject?
              && m.fields.Keys == {"version", "algorithm", "kdf", "iterations", "salt", "timestamp"}
              && m.fields["version"] == JString("1.0")
              && m.fields["algorithm"] == JString("Fernet-AES128-CBC-HMAC")
              && m.fields["kdf"] == JString("PBKDF2-HMAC-SHA256")
              && m.fields["iterations"] == JString("600000")
              && m.fields["timestamp"] == JString(timestamp)
              && m.fields["salt"] == JString(Base64.Encode(Standard, salt))
              && Base64.Decode(Standard, m.fields["salt"].s) == Some(salt)
  {
    StripEmptyIffBlank(seedphrase);
    if seedphrase == [] || Strip(seedphrase) == [] then
      Failure(ValueError(EmptySeedphraseMessage))
    else if password == [] || |password| < MinPasswordLength then
      Failure(ValueError(ShortPasswordMessage))
    else
      var key := DeriveKey(p, password, salt);
      var fernetKey :- FernetKey(key);
      var token := p.fernetEncrypt(fernetKey, p.utf8Encode(seedphrase), iv, time);
      NewMetadataFields(salt, timestamp);
      Success((token, NewMetadata(salt, timestamp)))
  }

  /** With lawful primitives, inputs that pass both guards are always
      encrypted. */
  lemma EncryptSucceedsPastGuards(p: Primitives, seedphrase: string, password: string,
                                  salt: bytes, iv: bytes, time: int, timestamp: string)
    requires Lawful(p)
    requires !AllSpace(seedphrase) && |password| >= MinPasswordLength
    ensures EncryptSeedphrase(p, seedphrase, password, salt, iv, time, timestamp).Success?
  {
    StripEmptyIffBlank(seedphrase);
    FernetAcceptsDerivedKey(p, password, salt);
  }

  /** The recorded salt of a 32-byte salt is 44 characters of base 64. */
  lemma SaltTextLength(p: Primitives, seedphrase: string, password: string,
                       salt: bytes, iv: bytes, time: int, timestamp: string)
    requires |salt| == SaltLength
    ensures var r := EncryptSeedphrase(p, seedphrase, password, salt, iv, time, timestamp);
            r.Success? ==> |r.value.1.fields["salt"].s| == 44
  {
    var r := EncryptSeedphrase(p, seedphrase, password, salt, iv, time, timestamp);
    var text := Base64.Encode(Standard, salt);
    EncodedLength32(Standard, salt);
    if r.Success? {
      assert r.value.1.fields["salt"].s == text;
    }
  }

  /** The guards come before any key derivation: when one of them fails,
      neither the primitives nor the random or clock inputs matter. */
  lemma EncryptGuardsComeFirst(p1: Primitives, p2: Primitives, seedphrase: string, password: string,
                               salt1: bytes, salt2: bytes, iv1: bytes, iv2: bytes,
                               time1: int, time2: int, timestamp1: string, timestamp2: string)
    requires AllSpace(seedphrase) || |password| < MinPasswordLength
    ensures EncryptSeedphrase(p1, seedphrase, password, salt1, iv1, time1, timestamp1)
         == EncryptSeedphrase(p2, seedphrase, password, salt2, iv2, time2, timestamp2)
    ensures EncryptSeedphrase(p1, seedphrase, password, salt1, iv1, time1, timestamp1).Failure?
  {
  }

  // ---------------------------------------------------------------------
  // decrypt_seedphrase
  // ---------------------------------------------------------------------

  /** The salt a metadata dictionary records, when it is a dictionary whose
      "salt" entry is base 64 text. */
  function StoredSalt(metadata: Json): Option<bytes>
  {
    if metadata.JObject? && "salt" in metadata.fields && metadata.fields["salt"].JString? then
      Base64.Decode(Standard, metadata.fields["salt"].s)
    else None
  }

  /** `decrypt_seedphrase(encrypted_data, password, metadata)`. Empty data is
      refused first, then an empty password, then metadata without "salt".
      A returned string is always the UTF-8 reading of what Fernet
      authenticated and decrypted under the key derived from this password
      and the recorded salt. */
  function DecryptSeedphrase(p: Primitives, encryptedData: bytes, password: string, metadata: Json)
    : (r: Result<string, Error>)
    ensures encryptedData == [] ==> r == Failure(ValueError(EmptyDataMessage))
    ensures encryptedData != [] && password == [] ==> r == Failure(ValueError(EmptyPasswordMessage))
    ensures encryptedData != [] && password != [] && PyIn("salt", metadata) == Success(false) ==>
              r == Failure(ValueError(MissingSaltMessage))
    ensures r.Success? ==>
              && encryptedData != [] && password != []
              && StoredSalt(metadata).Some?
              && var plain := p.fernetDecrypt(DerivedKeyBytes(p, password, StoredSalt(metadata).value), encryptedData);
              && plain.Some?
              && p.utf8Decode(plain.value) == Some(r.value)
  {
    if encryptedData == [] then
      Failure(ValueError(EmptyDataMessage))
    else if password == [] then
      Failure(ValueError(EmptyPasswordMessage))
    else
      var hasSalt :- PyIn("salt", metadata);
      if !hasSalt then
        Failure(ValueError(MissingSaltMessage))
      else
        var encodedSalt :- PyGetItem(metadata, "salt");
        var salt :- StandardB64Decode(encodedSalt);
        var key := DeriveKey(p, password, salt);
        var fernetKey :- FernetKey(key);
        match p.fernetDecrypt(fernetKey, encryptedData)
        case None => Failure(InvalidToken(DecryptionFailedMessage))
        case Some(plain) =>
          match p.utf8Decode(plain)
          case None => Failure(UnicodeDecodeError)
          case Some(s) => Success(s)
  }

  /** A cipher failure surfaces as `InvalidToken` with the decryption-failed
      message, never as a returned string. */
  lemma CipherFailureIsInvalidToken(p: Primitives, encryptedData: bytes, password: string, metadata: Json)
    requires Lawful(p)
    requires encryptedData != [] && password != []
    requires StoredSalt(metadata).Some?
    requires p.fernetDecrypt(DerivedKeyBytes(p, password, StoredSalt(metadata).value), encryptedData).None?
    ensures DecryptSeedphrase(p, encryptedData, password, metadata) == Failure(InvalidToken(DecryptionFailedMessage))
  {
    FernetAcceptsDerivedKey(p, password, StoredSalt(metadata).value);
  }

  /** Decryption reads nothing of the metadata but its salt: in particular
      the recorded "iterations" is never consulted. */
  lemma DecryptReadsOnlySalt(p: Primitives, encryptedData: bytes, password: string,
                             fields1: map<string, Json>, fields2: map<string, Json>)
    requires "salt" in fields1 <==> "salt" in fields2
    requires "salt" in fields1 ==> fields1["salt"] == fields2["salt"]
    ensures DecryptSeedphrase(p, encryptedData, password, JObject(fields1))
         == DecryptSeedphrase(p, encryptedData, password, JObject(fields2))
  {
  }

  /** The guards come before any key derivation. */
  lemma DecryptGuardsComeFirst(p1: Primitives, p2: Primitives, encryptedData: bytes, password: string, metadata: Json)
    requires encryptedData == [] || password == [] || PyIn("salt", metadata) == Success(false)
    ensures DecryptSeedphrase(p1, encryptedData, password, metadata)
         == DecryptSeedphrase(p2, encryptedData, password, metadata)
    ensures DecryptSeedphrase(p1, encryptedData, password, metadata).Failure?
  {
  }

  /** Decrypting with the returned metadata and the same password gives the
      seed phrase back. */
  lemma EncryptDecryptRoundTrip(p: Primitives, seedphrase: string, password: string,
                                salt: bytes, iv: bytes, time: int, timestamp: string)
    requires Lawful(p)
    ensures var r := EncryptSeedphrase(p, seedphrase, password, salt, iv, time, timestamp);
            r.Success? ==> DecryptSeedphrase(p, r.value.0, password, r.value.1) == Success(seedphrase)
  {
    var r := EncryptSeedphrase(p, seedphrase, password, salt, iv, time, timestamp);
    if r.Success? {
      var (token, metadata) := r.value;
      assert StoredSalt(metadata) == Some(salt);
      FernetAcceptsDerivedKey(p, password, salt);
      var key := DerivedKeyBytes(p, password, salt);
      assert p.fernetDecrypt(key, token) == Some(p.utf8Encode(seedphrase));
    }
  }

  /** Two encryptions of the same phrase under the same password, with
      different salts and different 16-byte IVs (fresh `os.urandom` output),
      record different salt texts and produce different tokens, and each
      decrypts back to the seed phrase with its own metadata. */
  lemma FreshRandomnessGivesDistinctResults(p: Primitives, seedphrase: string, password: string,
                                            salt1: bytes, salt2: bytes, iv1: bytes, iv2: bytes,
                                            time1: int, time2: int, timestamp1: string, timestamp2: string)
    requires Lawful(p)
    requires salt1 != salt2
    requires |iv1| == IvLength && |iv2| == IvLength && iv1 != iv2
    ensures var r1 := EncryptSeedphrase(p, seedphrase, password, salt1, iv1, time1, timestamp1);
            var r2 := EncryptSeedphrase(p, seedphrase, password, salt2, iv2, time2, timestamp2);
            r1.Success? && r2.Success? ==>
              && r1.value.1.fields["salt"] != r2.value.1.fields["salt"]
              && r1.value.0 != r2.value.0
              && DecryptSeedphrase(p, r1.value.0, password, r1.value.1) == Success(seedphrase)
              && DecryptSeedphrase(p, r2.value.0, password, r2.value.1) == Success(seedphrase)
  {
    DecodeEncode(Standard, salt1);
    DecodeEncode(Standard, salt2);
    EncryptDecryptRoundTrip(p, seedphrase, password, salt1, iv1, time1, timestamp1);
    EncryptDecryptRoundTrip(p, seedphrase, password, salt2, iv2, time2, timestamp2);
    assert p.fernetEncrypt(DerivedKeyBytes(p, password, salt1), p.utf8Encode(seedphrase), iv1, time1)
        != p.fernetEncrypt(DerivedKeyBytes(p, password, salt2), p.utf8Encode(seedphrase), iv2, time2);
  }

  // ---------------------------------------------------------------------
  // save_encrypted_file / load_encrypted_file, without the file itself
  // ---------------------------------------------------------------------

  /** The record `save_encrypted_file` hands to `json.dump`: exactly the
      two fields, the metadata as given and the token as standard base 64
      text that decodes back to it. */
  function SaveEncryptedFile(encryptedData: bytes, metadata: Json): (r: Json)
    ensures r.JObject? && r.fields.Keys == {"metadata", "encrypted_data"}
    ensures r.fields["metadata"] == metadata
    ensures r.fields["encrypted_data"].JString?
    ensures Base64.Decode(Standard, r.fields["encrypted_data"].s) == Some(encryptedData)
  {
    DecodeEncode(Standard, encryptedData);
    JObject(map["metadata" := metadata, "encrypted_data" := JString(Base64.Encode(Standard, encryptedData))])
  }

  /** `load_encrypted_file` from the outcome of `json.load` (a value, or the
      text of the `JSONDecodeError`). It succeeds exactly on a dictionary that
      has both fields and whose "encrypted_data" is base 64 text, returning
      the decoded bytes and the "metadata" entry as it is. Every `ValueError`
      it raises itself says "Format de fichier invalide". */
  function LoadEncryptedFile(parsed: Result<Json, string>): (r: Result<(bytes, Json), Error>)
    ensures parsed.Failure? ==> r == Failure(ValueError(InvalidFormatPrefix + parsed.error))
    ensures parsed.Success? && parsed.value.JObject? &&
            ("metadata" !in parsed.value.fields || "encrypted_data" !in parsed.value.fields) ==>
              r == Failure(ValueError(MissingFieldsMessage))
    ensures r.Success? <==>
              && parsed.Success? && parsed.value.JObject?
              && "metadata" in parsed.value.fields && "encrypted_data" in parsed.value.fields
              && parsed.value.fields["encrypted_data"].JString?
              && Base64.Decode(Standard, parsed.value.fields["encrypted_data"].s).Some?
    ensures r.Success? ==>
              && Base64.Decode(Standard, parsed.value.fields["encrypted_data"].s) == Some(r.value.0)
              && r.value.1 == parsed.value.fields["metadata"]
    ensures r.Failure? && r.error.ValueError? ==> InvalidFormatPrefix <= r.error.message
  {
    match parsed
    case Failure(e) => Failure(ValueError(InvalidFormatPrefix + e))
    case Success(content) =>
      // `"metadata" not in content or "encrypted_data" not in content`
      match (PyIn("metadata", content), PyIn("encrypted_data", content))
      case (Failure(e), _) => Failure(e)
      case (Success(false), _) => Failure(ValueError(MissingFieldsMessage))
      case (Success(true), Failure(e)) => Failure(e)
      case (Success(true), Success(false)) => Failure(ValueError(MissingFieldsMessage))
      case (Success(true), Success(true)) =>
        match PyGetItem(content, "encrypted_data")
        case Failure(e) => Failure(e)
        case Success(encoded) =>
          match StandardB64Decode(encoded)
          case Failure(e) => Failure(e)
          case Success(encryptedData) =>
            match PyGetItem(content, "metadata")
            case Failure(e) => Failure(e)
            case Success(metadata) => Success((encryptedData, metadata))
  }

  /** Loading the saved record gives back the same token bytes and the same
      metadata. */
  lemma SaveLoadRoundTrip(encryptedData: bytes, metadata: Json)
    ensures LoadEncryptedFile(Success(SaveEncryptedFile(encryptedData, metadata))) == Success((encryptedData, metadata))
  {
    DecodeEncode(Standard, encryptedData);
  }

  /** Encrypt, save, load, decrypt: the seed phrase comes back. */
  lemma EncryptSaveLoadDecrypt(p: Primitives, seedphrase: string, password: string,
                               salt: bytes, iv: bytes, time: int, timestamp: string)
    requires Lawful(p)
    ensures var r := EncryptSeedphrase(p, seedphrase, password, salt, iv, time, timestamp);
            r.Success? ==>
              var loaded := LoadEncryptedFile(Success(SaveEncryptedFile(r.value.0, r.value.1)));
              && loaded == Success(r.value)
              && DecryptSeedphrase(p, loaded.value.0, password, loaded.value.1) == Success(seedphrase)
  {
    var r := EncryptSeedphrase(p, seedphrase, password, salt, iv, time, timestamp);
    if r.Success? {
      SaveLoadRoundTrip(r.value.0, r.value.1);
      EncryptDecryptRoundTrip(p, seedphrase, password, salt, iv, time, timestamp);
    }
  }

  // ---------------------------------------------------------------------
  // validate_seedphrase_format
  // ---------------------------------------------------------------------

  /** `map(str, ns)` */
  function NatStrings(ns: seq<nat>): (r: seq<string>)
    ensures |r| == |ns|
    ensures forall i | 0 <= i < |r| ::
              && |r[i]| > 0
              && (forall k | 0 <= k < |r[i]| :: IsDigit(r[i][k]))
              && DecimalValue(r[i]) == ns[i]
  {
    assert forall i | 0 <= i < |ns| :: DecimalValue(NatToString(ns[i])) == ns[i] by {
      forall i | 0 <= i < |ns| ensures DecimalValue(NatToString(ns[i])) == ns[i] {
        NatToStringValue(ns[i]);
      }
    }
    seq(|ns|, i requires 0 <= i < |ns| => NatToString(ns[i]))
  }

  /** The wrong-count message, which names the count. */
  function CountMessage(count: nat): (message: string)
    ensures Contains(message, NatToString(count) + " mot(s)")
  {
    var before := "Une seed phrase doit contenir " + Join(", ", NatStrings(ValidLengths)) + " mots. " + "Vous avez ";
    var message := before + (NatToString(count) + " mot(s)") + ".";
    ContainsMiddle(before, NatToString(count) + " mot(s)", ".");
    message
  }

  /** The invalid-word message, which quotes the word and says it contains
      invalid characters. */
  function InvalidWordMessage(word: string): (message: string)
    ensures Contains(message, word)
    ensures Contains(message, "caractères invalides")
  {
    var opening, middle := "Le mot '", "' contient des ";
    var phrase, closing := "caractères invalides", ". Les mots doivent contenir uniquement des lettres.";
    var message := opening + word + (middle + phrase + closing);
    ContainsMiddle(opening, word, middle + phrase + closing);
    assert message == (opening + word + middle) + phrase + closing;
    ContainsMiddle(opening + word + middle, phrase, closing);
    message
  }

  /** `i` is the position of the first word that is not alphabetic. */
  predicate IsFirstNonAlpha(words: seq<string>, i: nat)
  {
    && i < |words|
    && !IsAlpha(words[i])
    && forall j | 0 <= j < i :: IsAlpha(words[j])
  }

  /** The loop over the words: the position of the first non-alphabetic
      word, or None when every word is alphabetic. */
  function FirstNonAlpha(words: seq<string>): (r: Option<nat>)
    ensures r.Some? ==> IsFirstNonAlpha(words, r.value)
    ensures r.None? ==> forall j | 0 <= j < |words| :: IsAlpha(words[j])
    decreases |words|
  {
    if |words| == 0 then None
    else if !IsAlpha(words[0]) then Some(0)
    else
      match FirstNonAlpha(words[1..])
      case None => None
      case Some(i) => Some(i + 1)
  }

  /** `validate_seedphrase_format(seedphrase)`. The phrase is accepted, with
      "Format valide", exactly when its whitespace-separated word count is
      12, 15, 18, 21 or 24 and every word is alphabetic. The count is checked
      first: a wrong count is reported with "<n> mot(s)" whatever the words
      are; with a right count, a rejection names the first non-alphabetic
      word. */
  function ValidateSeedphraseFormat(seedphrase: string): (r: (bool, string))
    ensures var words := Split(seedphrase);
            r.0 <==> |words| in ValidLengths && forall k | 0 <= k < |words| :: IsAlpha(words[k])
    ensures r.0 ==> r.1 == FormatOkMessage
    ensures var n := |Split(seedphrase)|;
            n !in ValidLengths ==> !r.0 && r.1 == CountMessage(n) && Contains(r.1, NatToString(n) + " mot(s)")
    ensures var words := Split(seedphrase);
            |words| in ValidLengths ==>
              forall i: nat | IsFirstNonAlpha(words, i) :: r == (false, InvalidWordMessage(words[i]))
  {
    SplitStrip(seedphrase);
    var words := Split(Strip(seedphrase));
    var count := |words|;
    if count !in ValidLengths then
      (false, CountMessage(count))
    else
      match FirstNonAlpha(words)
      case Some(i) =>
        FirstNonAlphaUnique(words, i);
        (false, InvalidWordMessage(words[i]))
      case None => (true, FormatOkMessage)
  }

  lemma FirstNonAlphaUnique(words: seq<string>, i: nat)
    requires IsFirstNonAlpha(words, i)
    ensures forall j: nat | IsFirstNonAlpha(words, j) :: j == i
  {
  }

  /** Words joined by single spaces, in an allowed number, are refused
      with the first non-alphabetic one named. */
  lemma InvalidWordReported(words: seq<string>, i: nat)
    requires forall k | 0 <= k < |words| :: |words[k]| > 0 && NoSpace(words[k])
    requires |words| in ValidLengths && IsFirstNonAlpha(words, i)
    ensures ValidateSeedphraseFormat(Phrase(words)) == (false, InvalidWordMessage(words[i]))
  {
    SplitJoin(words);
  }

  /** The words of a phrase whose words are joined by single spaces. */
  function Phrase(words: seq<string>): string
  {
    Join(" ", words)
  }

  /** An allowed number of alphabetic words joined by single spaces is
      accepted. */
  lemma AlphaWordsAccepted(words: seq<string>)
    requires |words| in ValidLengths
    requires forall k | 0 <= k < |words| :: IsAlpha(words[k])
    ensures ValidateSeedphraseFormat(Phrase(words)) == (true, FormatOkMessage)
  {
    forall k | 0 <= k < |words| ensures NoSpace(words[k]) {
      assert forall j | 0 <= j < |words[k]| :: IsLetter(words[k][j]);
    }
    SplitJoin(words);
  }

  /** Twelve or twenty-four copies of "word" are accepted. */
  lemma RepeatedWordAccepted()
    ensures ValidateSeedphraseFormat(Phrase(seq(12, _ => "word"))) == (true, FormatOkMessage)
    ensures ValidateSeedphraseFormat(Phrase(seq(24, _ => "word"))) == (true, FormatOkMessage)
  {
    assert IsAlpha("word");
    AlphaWordsAccepted(seq(12, _ => "word"));
    AlphaWordsAccepted(seq(24, _ => "word"));
  }

  const AbandonWords: seq<string> :=
    ["abandon", "abandon", "abandon", "abandon", "abandon", "abandon",
     "abandon", "abandon", "abandon", "abandon", "abandon", "about"]

  /** The standard twelve-word test phrase is accepted. */
  lemma AbandonPhraseAccepted()
    ensures ValidateSeedphraseFormat(Phrase(AbandonWords)) == (true, FormatOkMessage)
  {
    assert IsAlpha("abandon") && IsAlpha("about");
    assert forall k | 0 <= k < |AbandonWords| :: IsAlpha(AbandonWords[k]);
    AlphaWordsAccepted(AbandonWords);
  }

  /** Words of a count that is not allowed, joined by single spaces, are
      refused with the count message, which names their number. */
  lemma WrongCountReported(words: seq<string>)
    requires forall k | 0 <= k < |words| :: |words[k]| > 0 && NoSpace(words[k])
    requires |words| !in ValidLengths
    ensures var r := ValidateSeedphraseFormat(Phrase(words));
            && r == (false, CountMessage(|words|))
            && Contains(r.1, NatToString(|words|) + " mot(s)")
  {
    SplitJoin(words);
  }

  lemma TenCountText(message: string)
    requires Contains(message, NatToString(10) + " mot(s)")
    ensures Contains(message, "10 mot(s)")
  {
    assert NatToString(10) + " mot(s)" == "10 mot(s)";
  }

  /** Ten words are refused with "10 mot(s)" in the message. */
  lemma TenWordsRefused()
    ensures var r := ValidateSeedphraseFormat(Phrase(seq(10, _ => "word")));
            !r.0 && Contains(r.1, "10 mot(s)")
  {
    var words := seq(10, _ => "word");
    assert NoSpace("word");
    assert |words| == 10;
    WrongCountReported(words);
    TenCountText(ValidateSeedphraseFormat(Phrase(words)).1);
  }

  const NumberedWords: seq<string> :=
    ["word1", "word2", "word3", "word4", "word5", "word6",
     "word7", "word8", "word9", "word10", "word11", "word12"]

  /** Twelve words with digits are refused, naming the first of them. */
  lemma NumberedWordsRefused()
    ensures ValidateSeedphraseFormat(Phrase(NumberedWords)) == (false, InvalidWordMessage("word1"))
  {
    assert |NumberedWords| == 12 && NumberedWords[0] == "word1";
    assert forall k | 0 <= k < |NumberedWords| :: |NumberedWords[k]| > 0 && NoSpace(NumberedWords[k]);
    FirstNumberedWordIsInvalid();
    InvalidWordReported(NumberedWords, 0);
  }

  lemma FirstNumberedWordIsInvalid()
    ensures IsFirstNonAlpha(NumberedWords, 0)
  {
    assert !IsLetter(NumberedWords[0][4]);
  }
}
